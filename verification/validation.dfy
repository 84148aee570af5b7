/**
 Validation of a referral submission (the POST /api/referrals handler,
 before any database work): first a presence check over the six required
 fields that names every missing one, then the loose e-mail check on both
 addresses.
 */
module Validation {
  import opened Wrappers
  import EmailPattern
  import Text

  /**
   The request body. Every field may be absent (`None`); a present field
   holds a string.
   */
  datatype Payload = Payload(
    referrerName: Option<string>,
    referrerEmail: Option<string>,
    referrerPhone: Option<string>,
    refereeName: Option<string>,
    refereeEmail: Option<string>,
    refereePhone: Option<string>,
    fieldOfWork: Option<string>,
    program: Option<string>)

  /** JavaScript truthiness of a string-valued field: absent and "" are falsy. */
  predicate Present(v: Option<string>) {
    v.Some? && v.value != ""
  }

  /** The required fields, in the order they are declared and reported. */
  datatype Field = ReferrerName | ReferrerEmail | RefereeName | RefereeEmail | FieldOfWork | Program

  const Required: seq<Field> := [ReferrerName, ReferrerEmail, RefereeName, RefereeEmail, FieldOfWork, Program]

  /** The position of a field in the declaration order. */
  function Rank(f: Field): nat {
    match f
    case ReferrerName => 0
    case ReferrerEmail => 1
    case RefereeName => 2
    case RefereeEmail => 3
    case FieldOfWork => 4
    case Program => 5
  }

  /** The human-readable label reported for a missing field. */
  function Label(f: Field): string {
    match f
    case ReferrerName => "Referrer Name"
    case ReferrerEmail => "Referrer Email"
    case RefereeName => "Referee Name"
    case RefereeEmail => "Referee Email"
    case FieldOfWork => "Field of Work"
    case Program => "Program"
  }

  /** The payload's value for a required field. */
  function Value(p: Payload, f: Field): Option<string> {
    match f
    case ReferrerName => p.referrerName
    case ReferrerEmail => p.referrerEmail
    case RefereeName => p.refereeName
    case RefereeEmail => p.refereeEmail
    case FieldOfWork => p.fieldOfWork
    case Program => p.program
  }

  /** Fields listed in strictly increasing declaration order. */
  predicate InOrder(fs: seq<Field>) {
    forall i, j :: 0 <= i < j < |fs| ==> Rank(fs[i]) < Rank(fs[j])
  }

  /** Every required field is present. */
  predicate Complete(p: Payload) {
    forall f: Field :: Present(Value(p, f))
  }

  lemma RequiredIsEveryFieldInOrder()
    ensures forall f: Field :: f in Required
    ensures InOrder(Required)
  {
    forall f: Field ensures f in Required {
      assert Required[Rank(f)] == f;
    }
  }

  /** The fields of `fs` whose value is missing, keeping their order. */
  function MissingAmong(p: Payload, fs: seq<Field>): (r: seq<Field>)
    ensures forall f :: f in r <==> f in fs && !Present(Value(p, f))
    ensures InOrder(fs) ==> InOrder(r)
  {
    if |fs| == 0 then []
    else
      var rest := MissingAmong(p, fs[1..]);
      PrependInOrder(fs, rest);
      (if Present(Value(p, fs[0])) then [] else [fs[0]]) + rest
  }

  /** Putting the head of an ordered list before any ordered sub-selection of its tail keeps the order. */
  lemma PrependInOrder(fs: seq<Field>, rest: seq<Field>)
    requires |fs| > 0
    requires forall f :: f in rest ==> f in fs[1..]
    requires InOrder(fs) ==> InOrder(rest)
    ensures InOrder(fs) ==> InOrder([fs[0]] + rest)
  {
    if InOrder(fs) {
      forall j | 0 <= j < |rest| ensures Rank(fs[0]) < Rank(rest[j]) {
        assert rest[j] in fs[1..];
        var k :| 0 <= k < |fs[1..]| && fs[1..][k] == rest[j];
        assert fs[k + 1] == rest[j];
      }
      var r := [fs[0]] + rest;
      forall i, j | 0 <= i < j < |r| ensures Rank(r[i]) < Rank(r[j]) {
        if i > 0 {
          assert r[i] == rest[i - 1] && r[j] == rest[j - 1];
        }
      }
    }
  }

  /** The selection depends only on the values of the fields it inspects. */
  lemma {:induction false} MissingAmongSameValues(p: Payload, q: Payload, fs: seq<Field>)
    requires forall f: Field :: Value(p, f) == Value(q, f)
    ensures MissingAmong(p, fs) == MissingAmong(q, fs)
  {
    if |fs| > 0 {
      MissingAmongSameValues(p, q, fs[1..]);
    }
  }

  /** The missing required fields, in declaration order. */
  function Missing(p: Payload): (r: seq<Field>)
    ensures forall f: Field :: f in r <==> !Present(Value(p, f))
    ensures InOrder(r)
    ensures |r| == 0 <==> Complete(p)
  {
    RequiredIsEveryFieldInOrder();
    var r := MissingAmong(p, Required);
    assert |r| > 0 ==> r[0] in r;
    r
  }

  /** The labels of `fs`, in the same order. */
  function Labels(fs: seq<Field>): (ls: seq<string>)
    ensures |ls| == |fs|
    ensures forall k :: 0 <= k < |fs| ==> ls[k] == Label(fs[k])
  {
    seq(|fs|, k requires 0 <= k < |fs| => Label(fs[k]))
  }

  const RequiredPrefix: string := "The following fields are required: "

  /** The two ways a submission is rejected with status 400. */
  datatype ValidationError = MissingFields(fields: seq<Field>) | InvalidEmailFormat

  /** The `error` text of the 400 response. */
  function Message(e: ValidationError): string {
    match e
    case MissingFields(fs) => RequiredPrefix + Text.Join(Labels(fs), ", ")
    case InvalidEmailFormat => "Invalid email format"
  }

  /** A payload that passed validation: the six required fields are strings. */
  datatype Submission = Submission(
    referrerName: string,
    referrerEmail: string,
    referrerPhone: Option<string>,
    refereeName: string,
    refereeEmail: string,
    refereePhone: Option<string>,
    fieldOfWork: string,
    program: string)

  /** `sub` holds exactly the values of `p`. */
  predicate Carries(sub: Submission, p: Payload) {
    && p.referrerName == Some(sub.referrerName)
    && p.referrerEmail == Some(sub.referrerEmail)
    && p.referrerPhone == sub.referrerPhone
    && p.refereeName == Some(sub.refereeName)
    && p.refereeEmail == Some(sub.refereeEmail)
    && p.refereePhone == sub.refereePhone
    && p.fieldOfWork == Some(sub.fieldOfWork)
    && p.program == Some(sub.program)
  }

  /**
   The validation block of the handler: the presence check first, the
   e-mail check only on a complete payload.
   */
  function Validate(p: Payload): (r: Result<Submission, ValidationError>)
    ensures r.Failure? && r.error.MissingFields? <==> exists f: Field :: !Present(Value(p, f))
    ensures r.Failure? && r.error.MissingFields? ==>
      && InOrder(r.error.fields)
      && forall f: Field :: f in r.error.fields <==> !Present(Value(p, f))
    ensures r == Failure(InvalidEmailFormat) <==>
      Complete(p)
      && !(EmailPattern.Matches(p.referrerEmail.GetOr("")) && EmailPattern.Matches(p.refereeEmail.GetOr("")))
    ensures r.Success? ==>
      && Carries(r.value, p)
      && EmailPattern.Matches(r.value.referrerEmail)
      && EmailPattern.Matches(r.value.refereeEmail)
  {
    var missing := Missing(p);
    if |missing| > 0 then
      assert !Present(Value(p, missing[0]));
      Failure(MissingFields(missing))
    else
      assert Present(Value(p, ReferrerName)) && Present(Value(p, ReferrerEmail));
      assert Present(Value(p, RefereeName)) && Present(Value(p, RefereeEmail));
      assert Present(Value(p, FieldOfWork)) && Present(Value(p, Program));
      if !EmailPattern.Test(p.referrerEmail.value) || !EmailPattern.Test(p.refereeEmail.value) then
        Failure(InvalidEmailFormat)
      else
        Success(Submission(
          p.referrerName.value, p.referrerEmail.value, p.referrerPhone,
          p.refereeName.value, p.refereeEmail.value, p.refereePhone,
          p.fieldOfWork.value, p.program.value))
  }

  /** Reads the labels back out of a missing-fields message. */
  function ParseRequired(msg: string): seq<string> {
    if |RequiredPrefix| <= |msg| then Text.Split(msg[|RequiredPrefix|..]) else []
  }

  /** A missing-fields message reads back as the labels it was built from. */
  lemma MissingMessageParses(fs: seq<Field>)
    requires |fs| > 0
    ensures ParseRequired(Message(MissingFields(fs))) == Labels(fs)
  {
    var ls := Labels(fs);
    forall k | 0 <= k < |ls| ensures ',' !in ls[k] {
      assert ls[k] == Label(fs[k]);
    }
    Text.SplitJoin(ls);
    var msg := RequiredPrefix + Text.Join(ls, ", ");
    assert msg[|RequiredPrefix|..] == Text.Join(ls, ", ");
  }

  /**
   The missing-fields message names every missing required field and no
   other, in declaration order: reading it back yields exactly their labels.
   */
  lemma MissingMessageNamesEveryField(p: Payload)
    requires !Complete(p)
    ensures Validate(p) == Failure(MissingFields(Missing(p)))
    ensures ParseRequired(Message(Validate(p).error)) == Labels(Missing(p))
  {
    MissingMessageParses(Missing(p));
  }

  /** The two phone fields never affect the outcome of validation beyond being carried along. */
  lemma PhonesNeverRequired(p: Payload, referrerPhone: Option<string>, refereePhone: Option<string>)
    ensures
      var q := p.(referrerPhone := referrerPhone, refereePhone := refereePhone);
      && (Validate(q).Failure? <==> Validate(p).Failure?)
      && (Validate(p).Failure? ==> Validate(q).error == Validate(p).error)
  {
    var q := p.(referrerPhone := referrerPhone, refereePhone := refereePhone);
    assert forall f: Field :: Value(q, f) == Value(p, f);
    MissingAmongSameValues(p, q, Required);
  }
}
