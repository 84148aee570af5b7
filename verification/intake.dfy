/**
 Referral intake (POST /api/referrals): validation, then one all-or-nothing
 transaction that finds or creates the referrer by e-mail, bumps its
 counter and appends the referral, then the two notification e-mails.
 */
module Intake {
  import opened Wrappers
  import opened Database
  import opened Responses
  import V = Validation

  /** The pair the transaction returns, and the store it commits. */
  datatype Committed = Committed(store: Store, referrer: Referrer, referral: Referral)

  /**
   Prisma's reading of an optional value in update data: an absent value
   (`undefined`) leaves the column as it was.
   */
  function UpdatedPhone(current: Option<string>, supplied: Option<string>): Option<string> {
    if supplied.Some? then supplied else current
  }

  /** The transaction body: find or create the referrer, then create the referral. */
  function Transact(s: Store, sub: V.Submission): (c: Committed)
    // the returned pair is exactly what was stored
    ensures c.referrer.id in c.store.referrers && c.store.referrers[c.referrer.id] == c.referrer
    ensures c.store.referrals == s.referrals + [c.referral]
    // the referrer: found by e-mail and updated, or created
    ensures c.referrer.email == sub.referrerEmail && c.referrer.name == sub.referrerName
    ensures match FindReferrer(s, sub.referrerEmail)
      case Some(id) =>
        && c.referrer.id == id
        && c.referrer.referralCount == s.referrers[id].referralCount + 1
        && c.referrer.phone == UpdatedPhone(s.referrers[id].phone, sub.referrerPhone)
        && c.store.nextReferrerId == s.nextReferrerId
      case None =>
        && c.referrer.id == s.nextReferrerId
        && c.referrer.referralCount == 1
        && c.referrer.phone == sub.referrerPhone
        && c.store.nextReferrerId == s.nextReferrerId + 1
    // no other referrer changes
    ensures c.store.referrers.Keys == s.referrers.Keys + {c.referrer.id}
    ensures forall id :: id in s.referrers && id != c.referrer.id ==> c.store.referrers[id] == s.referrers[id]
    // the referral carries the referee's details and points at that referrer
    ensures c.referral == Referral(c.referral.id, sub.refereeName, sub.refereeEmail, sub.refereePhone,
                                   sub.fieldOfWork, sub.program, s.defaultStatus, c.referrer.id)
    ensures c.referral.id == s.nextReferralId && c.store.nextReferralId == s.nextReferralId + 1
    ensures c.store.defaultStatus == s.defaultStatus
  {
    var found := FindReferrer(s, sub.referrerEmail);
    var referrer :=
      match found
      case None =>
        Referrer(s.nextReferrerId, sub.referrerEmail, sub.referrerName, sub.referrerPhone, 1)
      case Some(id) =>
        var before := s.referrers[id];
        Referrer(id, before.email, sub.referrerName, UpdatedPhone(before.phone, sub.referrerPhone),
                 before.referralCount + 1);
    var nextReferrerId := if found.Some? then s.nextReferrerId else s.nextReferrerId + 1;
    var referral := Referral(s.nextReferralId, sub.refereeName, sub.refereeEmail, sub.refereePhone,
                             sub.fieldOfWork, sub.program, s.defaultStatus, referrer.id);
    var store := s.(referrers := s.referrers[referrer.id := referrer],
                    referrals := s.referrals + [referral],
                    nextReferrerId := nextReferrerId,
                    nextReferralId := s.nextReferralId + 1);
    Committed(store, referrer, referral)
  }

  /** No referral points at an id that has no referrer row. */
  lemma UnknownOwnerHasNoReferrals(s: Store, id: nat)
    requires OwnersExist(s)
    requires id !in s.referrers
    ensures |OwnedBy(s.referrals, id)| == 0
  {
    OwnedByNone(s.referrals, id);
  }

  lemma TransactKeepsUniqueEmails(s: Store, sub: V.Submission)
    requires KeysAreIds(s) && UniqueEmails(s)
    ensures UniqueEmails(Transact(s, sub).store)
    ensures KeysAreIds(Transact(s, sub).store)
  {
    var c := Transact(s, sub);
    var t := c.store;
    match FindReferrer(s, sub.referrerEmail)
    case Some(id) =>
      assert s.referrers[id].email == c.referrer.email;
    case None =>
      assert !HasEmail(s, sub.referrerEmail);
  }

  lemma TransactKeepsReferences(s: Store, sub: V.Submission)
    requires OwnersExist(s) && ReferralIdsDistinct(s)
    ensures OwnersExist(Transact(s, sub).store)
    ensures ReferralIdsDistinct(Transact(s, sub).store)
  {
    var t := Transact(s, sub).store;
    assert forall i :: 0 <= i < |s.referrals| ==> t.referrals[i] == s.referrals[i];
  }

  lemma TransactKeepsCounts(s: Store, sub: V.Submission)
    requires Valid(s)
    ensures CountsMatch(Transact(s, sub).store)
  {
    var c := Transact(s, sub);
    var t := c.store;
    forall id | id in t.referrers
      ensures t.referrers[id].referralCount == |OwnedBy(t.referrals, id)|
    {
      OwnedByAppend(s.referrals, c.referral, id);
      if id == c.referrer.id && FindReferrer(s, sub.referrerEmail).None? {
        assert id !in s.referrers;
        UnknownOwnerHasNoReferrals(s, id);
      }
    }
  }

  /**
   The transaction keeps every integrity rule: one referrer per e-mail, and
   each referrer's counter equal to the number of referrals pointing at it.
   */
  lemma TransactPreservesValid(s: Store, sub: V.Submission)
    requires Valid(s)
    ensures Valid(Transact(s, sub).store)
  {
    TransactKeepsUniqueEmails(s, sub);
    TransactKeepsReferences(s, sub);
    TransactKeepsCounts(s, sub);
  }

  /**
   The whole handler. `mailDelivered` is the joint outcome of the two
   notification e-mails, sent after the transaction has committed.
   */
  function Submit(s: Store, p: V.Payload, mailDelivered: bool): (out: (Response, Store))
    ensures V.Validate(p).Failure? ==> out == (BadRequest(V.Message(V.Validate(p).error)), s)
    ensures Code(out.0) == 400 <==> V.Validate(p).Failure?
    ensures Code(out.0) == 201 <==> V.Validate(p).Success? && mailDelivered
    ensures Code(out.0) == 500 <==> V.Validate(p).Success? && !mailDelivered
    ensures Code(out.0) == 500 ==> ErrorText(out.0) == "Internal server error"
    ensures out.1 == s <==> Code(out.0) == 400
    ensures Code(out.0) != 400 ==>
      |out.1.referrals| == |s.referrals| + 1 && out.1.referrals[..|s.referrals|] == s.referrals
    ensures out.0.Created? ==>
      && out.0.referrer.id in out.1.referrers
      && out.1.referrers[out.0.referrer.id] == out.0.referrer
      && out.1.referrals[|s.referrals|] == out.0.referral
      && out.0.referral.referrerId == out.0.referrer.id
  {
    match V.Validate(p)
    case Failure(e) => (BadRequest(V.Message(e)), s)
    case Success(sub) =>
      var c := Transact(s, sub);
      assert |c.store.referrals| != |s.referrals|;
      (if mailDelivered then Created(c.referrer, c.referral) else ServerError, c.store)
  }

  lemma SubmitPreservesValid(s: Store, p: V.Payload, mailDelivered: bool)
    requires Valid(s)
    ensures Valid(Submit(s, p, mailDelivered).1)
  {
    if V.Validate(p).Success? {
      TransactPreservesValid(s, V.Validate(p).value);
    }
  }

  /**
   A failed notification turns the answer into a 500, yet the store holds
   the very same committed rows as after a delivered one.
   */
  lemma MailFailureStillCommits(s: Store, p: V.Payload)
    requires V.Validate(p).Success?
    ensures Code(Submit(s, p, false).0) == 500
    ensures Submit(s, p, false).1 == Submit(s, p, true).1 != s
  {
  }

  /**
   First submission from an e-mail: exactly one referrer row now carries
   it, with the supplied name and phone and a counter of 1; all other rows
   are as they were.
   */
  lemma SubmitFromNewEmail(s: Store, p: V.Payload, mailDelivered: bool)
    requires Valid(s)
    requires V.Validate(p).Success?
    requires !HasEmail(s, V.Validate(p).value.referrerEmail)
    ensures
      var sub := V.Validate(p).value;
      var t := Submit(s, p, mailDelivered).1;
      exists id :: id in t.referrers && id !in s.referrers
        && t.referrers[id] == Referrer(id, sub.referrerEmail, sub.referrerName, sub.referrerPhone, 1)
        && t.referrers.Keys == s.referrers.Keys + {id}
        && (forall other :: other in t.referrers && t.referrers[other].email == sub.referrerEmail ==> other == id)
        && (forall other :: other in s.referrers ==> t.referrers[other] == s.referrers[other])
  {
    var sub := V.Validate(p).value;
    var c := Transact(s, sub);
    TransactPreservesValid(s, sub);
    var id := c.referrer.id;
    assert id !in s.referrers;
    assert c.store.referrers[id] == Referrer(id, sub.referrerEmail, sub.referrerName, sub.referrerPhone, 1);
  }

  /**
   Later submission from a known e-mail: that row keeps its id and e-mail,
   its counter goes up by exactly one, name is overwritten, phone is
   overwritten unless omitted; no other row changes and none is added.
   */
  lemma SubmitFromKnownEmail(s: Store, p: V.Payload, mailDelivered: bool, id: nat)
    requires Valid(s)
    requires V.Validate(p).Success?
    requires id in s.referrers && s.referrers[id].email == V.Validate(p).value.referrerEmail
    ensures
      var sub := V.Validate(p).value;
      var t := Submit(s, p, mailDelivered).1;
      var before := s.referrers[id];
      && t.referrers.Keys == s.referrers.Keys
      && t.referrers[id] == Referrer(id, before.email, sub.referrerName,
                                     UpdatedPhone(before.phone, sub.referrerPhone), before.referralCount + 1)
      && (forall other :: other in s.referrers && other != id ==> t.referrers[other] == s.referrers[other])
      && t.referrals[|s.referrals|].referrerId == id
  {
    var sub := V.Validate(p).value;
    assert FindReferrer(s, sub.referrerEmail) == Some(id);
  }

  /** `id` is the one referrer row carrying `email`. */
  ghost predicate SoleReferrer(t: Store, email: string, id: nat) {
    && id in t.referrers
    && t.referrers[id].email == email
    && forall other :: other in t.referrers && t.referrers[other].email == email ==> other == id
  }

  /** A transaction from an unknown e-mail leaves one row carrying it, the new one, with a counter of 1. */
  lemma TransactFromNewEmail(s: Store, sub: V.Submission)
    requires Valid(s)
    requires !HasEmail(s, sub.referrerEmail)
    ensures
      var c := Transact(s, sub);
      && Valid(c.store)
      && c.referrer.id !in s.referrers
      && SoleReferrer(c.store, sub.referrerEmail, c.referrer.id)
      && c.referrer.referralCount == 1
      && c.referral.referrerId == c.referrer.id
  {
    TransactPreservesValid(s, sub);
    assert FindReferrer(s, sub.referrerEmail).None?;
  }

  /** A transaction from the e-mail of the sole row carrying it keeps that row sole and adds one to its counter. */
  lemma TransactFromSoleReferrer(s: Store, sub: V.Submission, id: nat)
    requires Valid(s)
    requires SoleReferrer(s, sub.referrerEmail, id)
    ensures
      var c := Transact(s, sub);
      && Valid(c.store)
      && c.referrer.id == id
      && SoleReferrer(c.store, sub.referrerEmail, id)
      && c.referrer.referralCount == s.referrers[id].referralCount + 1
      && c.referral.referrerId == id
  {
    TransactPreservesValid(s, sub);
    assert FindReferrer(s, sub.referrerEmail) == Some(id);
  }

  /** Two transactions from the same new e-mail, as seen from the store. */
  lemma TransactTwice(s: Store, sub1: V.Submission, sub2: V.Submission)
    requires Valid(s)
    requires sub1.referrerEmail == sub2.referrerEmail
    requires !HasEmail(s, sub1.referrerEmail)
    ensures
      var c1 := Transact(s, sub1);
      var t := Transact(c1.store, sub2).store;
      && Valid(t)
      && |t.referrals| == |s.referrals| + 2
      && SoleReferrer(t, sub1.referrerEmail, c1.referrer.id)
      && t.referrers[c1.referrer.id].referralCount == 2
      && t.referrals[|s.referrals|].referrerId == c1.referrer.id
      && t.referrals[|s.referrals| + 1].referrerId == c1.referrer.id
  {
    var c1 := Transact(s, sub1);
    TransactFromNewEmail(s, sub1);
    var c2 := Transact(c1.store, sub2);
    TransactFromSoleReferrer(c1.store, sub2, c1.referrer.id);
    assert c2.store.referrals[|s.referrals|] == c1.referral;
  }

  /**
   Two submissions from the same new e-mail leave one referrer row for it
   with a counter of 2, owning both new referrals.
   */
  lemma SubmitTwiceSameReferrer(s: Store, p1: V.Payload, p2: V.Payload, mail1: bool, mail2: bool)
    requires Valid(s)
    requires V.Validate(p1).Success? && V.Validate(p2).Success?
    requires V.Validate(p1).value.referrerEmail == V.Validate(p2).value.referrerEmail
    requires !HasEmail(s, V.Validate(p1).value.referrerEmail)
    ensures
      var t := Submit(Submit(s, p1, mail1).1, p2, mail2).1;
      && Valid(t)
      && |t.referrals| == |s.referrals| + 2
      && exists id ::
        (&& SoleReferrer(t, V.Validate(p1).value.referrerEmail, id)
         && t.referrers[id].referralCount == 2
         && t.referrals[|s.referrals|].referrerId == id
         && t.referrals[|s.referrals| + 1].referrerId == id)
  {
    var sub1 := V.Validate(p1).value;
    var sub2 := V.Validate(p2).value;
    var c1 := Transact(s, sub1);
    assert Submit(s, p1, mail1).1 == c1.store;
    assert Submit(c1.store, p2, mail2).1 == Transact(c1.store, sub2).store;
    TransactTwice(s, sub1, sub2);
  }
}
