/** Worked examples of the e-mail check and of two submissions into an empty store. */
module Scenarios {
  import opened Wrappers
  import opened Database
  import opened Responses
  import EmailPattern
  import V = Validation
  import Intake

  /** A plain address passes; so does one with text around it, since the pattern is unanchored. */
  lemma AcceptedAddresses()
    ensures EmailPattern.Test("a@x.com")
    ensures EmailPattern.Test("mail me: a@x.com ")
  {
    var s := "a@x.com";
    assert s[1] == '@' && s[3] == '.' && EmailPattern.NoSpace(s[0..7]);
    var t := "mail me: a@x.com ";
    assert t[10] == '@' && t[12] == '.' && EmailPattern.NoSpace(t[9..16]);
  }

  /** No user part, an empty domain label, no dot after the '@', or a blank inside the window: all rejected. */
  lemma RejectedAddresses()
    ensures !EmailPattern.Test("@x.com")
    ensures !EmailPattern.Test("a@.com")
    ensures !EmailPattern.Test("a@x")
    ensures !EmailPattern.Test("a @x.com")
  {
    var s := "a @x.com";
    assert forall start, at, dot, end ::
      0 <= start < at && at + 1 < dot && dot + 1 < end <= |s| && s[at] == '@' && s[dot] == '.'
      ==> !EmailPattern.NoSpace(s[start..end]) by {
      forall start, at, dot, end |
        0 <= start < at && at + 1 < dot && dot + 1 < end <= |s| && s[at] == '@' && s[dot] == '.'
        ensures !EmailPattern.NoSpace(s[start..end])
      {
        assert s[start..end][1 - start] == ' ';
      }
    }
  }

  function Form(referrerName: string, referrerEmail: string, refereeName: string, refereeEmail: string,
                fieldOfWork: string, program: string): V.Payload
  {
    V.Payload(Some(referrerName), Some(referrerEmail), None, Some(refereeName), Some(refereeEmail), None,
              Some(fieldOfWork), Some(program))
  }

  /** A form with every required field filled and two accepted addresses passes validation unchanged. */
  lemma FormAccepted(referrerName: string, referrerEmail: string, refereeName: string, refereeEmail: string,
                     fieldOfWork: string, program: string)
    requires referrerName != "" && refereeName != "" && fieldOfWork != "" && program != ""
    requires EmailPattern.Test(referrerEmail) && EmailPattern.Test(refereeEmail)
    ensures V.Validate(Form(referrerName, referrerEmail, refereeName, refereeEmail, fieldOfWork, program))
         == Success(V.Submission(referrerName, referrerEmail, None, refereeName, refereeEmail, None, fieldOfWork, program))
  {
    var p := Form(referrerName, referrerEmail, refereeName, refereeEmail, fieldOfWork, program);
    assert referrerEmail != "" && refereeEmail != "";
    assert V.Complete(p);
  }

  /** An address x@y.com with non-blank one-letter x and y passes. */
  lemma DotComAddress(x: char, y: char)
    requires !EmailPattern.IsSpace(x) && !EmailPattern.IsSpace(y)
    ensures EmailPattern.Test([x, '@', y, '.', 'c', 'o', 'm'])
  {
    var s := [x, '@', y, '.', 'c', 'o', 'm'];
    assert s[0..7] == s;
    assert EmailPattern.NoSpace(s) by {
      forall k | 0 <= k < 7 ensures !EmailPattern.IsSpace(s[k]) {
        assert k == 0 || k == 2 || s[k] in "@.com";
      }
    }
    assert s[1] == '@' && s[3] == '.';
  }

  lemma AddressesOfTheExample()
    ensures EmailPattern.Test("a@x.com") && EmailPattern.Test("b@x.com") && EmailPattern.Test("c@x.com")
  {
    DotComAddress('a', 'x');
    DotComAddress('b', 'x');
    DotComAddress('c', 'x');
  }

  /** The store after the first submission of the example. */
  function AfterFirst(defaultStatus: string): Store {
    Store(map[1 := Referrer(1, "a@x.com", "A", None, 1)],
          [Referral(1, "B", "b@x.com", None, "Eng", "P1", defaultStatus, 1)], 2, 2, defaultStatus)
  }

  /** The first submission creates referrer 1 with a counter of 1. */
  lemma FirstSubmission(defaultStatus: string)
    ensures Intake.Submit(Empty(defaultStatus), Form("A", "a@x.com", "B", "b@x.com", "Eng", "P1"), true)
         == (Created(Referrer(1, "a@x.com", "A", None, 1),
                     Referral(1, "B", "b@x.com", None, "Eng", "P1", defaultStatus, 1)),
             AfterFirst(defaultStatus))
  {
    AddressesOfTheExample();
    FormAccepted("A", "a@x.com", "B", "b@x.com", "Eng", "P1");
    assert FindReferrer(Empty(defaultStatus), "a@x.com") == None;
  }

  lemma SecondTransaction(defaultStatus: string)
    ensures Intake.Transact(AfterFirst(defaultStatus), V.Submission("A", "a@x.com", None, "C", "c@x.com", None, "Eng", "P1"))
         == Intake.Committed(
              AfterFirst(defaultStatus).(referrers := map[1 := Referrer(1, "a@x.com", "A", None, 2)],
                                         referrals := AfterFirst(defaultStatus).referrals
                                           + [Referral(2, "C", "c@x.com", None, "Eng", "P1", defaultStatus, 1)],
                                         nextReferralId := 3),
              Referrer(1, "a@x.com", "A", None, 2),
              Referral(2, "C", "c@x.com", None, "Eng", "P1", defaultStatus, 1))
  {
    var s1 := AfterFirst(defaultStatus);
    assert FindEmailFrom(s1, "a@x.com", 1) == Some(1);
    assert FindReferrer(s1, "a@x.com") == Some(1);
  }

  /** The second submission from a@x.com finds referrer 1 and raises its counter to 2. */
  lemma SecondSubmission(defaultStatus: string)
    ensures
      var out := Intake.Submit(AfterFirst(defaultStatus), Form("A", "a@x.com", "C", "c@x.com", "Eng", "P1"), true);
      && out.0 == Created(Referrer(1, "a@x.com", "A", None, 2),
                          Referral(2, "C", "c@x.com", None, "Eng", "P1", defaultStatus, 1))
      && out.1.referrers == map[1 := Referrer(1, "a@x.com", "A", None, 2)]
      && |out.1.referrals| == 2
  {
    SecondTransaction(defaultStatus);
    AddressesOfTheExample();
    FormAccepted("A", "a@x.com", "C", "c@x.com", "Eng", "P1");
  }
}
