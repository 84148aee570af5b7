/**
 The read endpoints (one referral by id, a referrer's stats) and the
 status update, over the same store.
 */
module Queries {
  import opened Wrappers
  import opened Database
  import opened Responses
  import V = Validation

  /** The status and program of each referral, in the same order. */
  function Summaries(rs: seq<Referral>): (r: seq<Summary>)
    ensures |r| == |rs|
    ensures forall k :: 0 <= k < |rs| ==> r[k] == Summary(rs[k].status, rs[k].program)
  {
    seq(|rs|, k requires 0 <= k < |rs| => Summary(rs[k].status, rs[k].program))
  }

  /** The owning referrer embedded in a referral's response, if its row exists. */
  function OwnerOf(s: Store, x: Referral): Option<Referrer> {
    if x.referrerId in s.referrers then Some(s.referrers[x.referrerId]) else None
  }

  /** GET /api/referrals/:id: the referral with its referrer, or 404. */
  function GetReferral(s: Store, id: int): (r: Response)
    ensures r.NotFound? || r.ReferralFound?
    ensures r.NotFound? <==> forall i :: 0 <= i < |s.referrals| ==> s.referrals[i].id != id
    ensures r.NotFound? ==> r == NotFound("Referral not found")
    ensures r.ReferralFound? ==>
      && r.referral in s.referrals
      && r.referral.id == id
      && r.owner == OwnerOf(s, r.referral)
  {
    match FindReferral(s.referrals, id)
    case None => NotFound("Referral not found")
    case Some(i) => ReferralFound(s.referrals[i], OwnerOf(s, s.referrals[i]))
  }

  /** GET /api/referrers/:id/stats: the referrer with the status and program of each referral it owns, or 404. */
  function ReferrerStats(s: Store, id: int): (r: Response)
    ensures r.NotFound? || r.StatsFound?
    ensures r.NotFound? <==> id < 0 || id !in s.referrers
    ensures r.NotFound? ==> r == NotFound("Referrer not found")
    ensures r.StatsFound? ==>
      && id >= 0 && id in s.referrers
      && r.referrer == s.referrers[id]
      && r.referrals == Summaries(OwnedBy(s.referrals, id))
  {
    if id < 0 || id !in s.referrers then NotFound("Referrer not found")
    else StatsFound(s.referrers[id], Summaries(OwnedBy(s.referrals, id)))
  }

  /**
   PATCH /api/referrals/:id/status. A missing or empty status is a 400; an
   id with no row makes the update throw, which the handler turns into a
   500; otherwise only that row's status changes.
   */
  function UpdateStatus(s: Store, id: int, status: Option<string>): (out: (Response, Store))
    ensures Code(out.0) == 400 <==> !V.Present(status)
    ensures !V.Present(status) ==> out == (BadRequest("Status is required"), s)
    ensures Code(out.0) == 500 <==>
      V.Present(status) && forall i :: 0 <= i < |s.referrals| ==> s.referrals[i].id != id
    ensures out.0.BadRequest? || out.0.ServerError? || out.0.StatusUpdated?
    ensures Code(out.0) == 500 ==> ErrorText(out.0) == "Internal server error"
    ensures Code(out.0) != 200 ==> out.1 == s
    ensures out.0.StatusUpdated? ==>
      && FindReferral(s.referrals, id).Some?
      && var i := FindReferral(s.referrals, id).value;
      && out.0.updated == s.referrals[i].(status := status.value)
      && out.1 == s.(referrals := s.referrals[i := out.0.updated])
  {
    if !V.Present(status) then (BadRequest("Status is required"), s)
    else
      match FindReferral(s.referrals, id)
      case None => (ServerError, s)
      case Some(i) =>
        var updated := s.referrals[i].(status := status.value);
        (StatusUpdated(updated), s.(referrals := s.referrals[i := updated]))
  }

  /** In a valid store a found referral always embeds its referrer. */
  lemma GetReferralEmbedsOwner(s: Store, id: int)
    requires Valid(s)
    requires GetReferral(s, id).ReferralFound?
    ensures GetReferral(s, id).owner.Some?
    ensures GetReferral(s, id).owner.value.id == GetReferral(s, id).referral.referrerId
  {
    var i := FindReferral(s.referrals, id).value;
    assert s.referrals[i].referrerId in s.referrers;
  }

  /** In a valid store the stats list exactly as many referrals as the referrer's counter says. */
  lemma StatsAgreeWithCounter(s: Store, id: int)
    requires Valid(s)
    requires ReferrerStats(s, id).StatsFound?
    ensures |ReferrerStats(s, id).referrals| == ReferrerStats(s, id).referrer.referralCount
  {
  }

  /**
   A missing id is a 404 for the reads but a 500 for the status update,
   and the update then changes nothing.
   */
  lemma MissingIdAnswers(s: Store, id: int, status: string)
    requires status != ""
    requires forall i :: 0 <= i < |s.referrals| ==> s.referrals[i].id != id
    ensures Code(GetReferral(s, id)) == 404
    ensures Code(UpdateStatus(s, id, Some(status)).0) == 500
    ensures UpdateStatus(s, id, Some(status)).1 == s
  {
  }

  /**
   With distinct ids, a successful update changes the status of the row
   with that id and nothing else.
   */
  lemma UpdateStatusTouchesOnlyTarget(s: Store, id: int, status: string)
    requires Valid(s)
    requires status != ""
    requires exists i :: 0 <= i < |s.referrals| && s.referrals[i].id == id
    ensures UpdateStatus(s, id, Some(status)).0.StatusUpdated?
    ensures
      var t := UpdateStatus(s, id, Some(status)).1;
      && t.referrers == s.referrers
      && |t.referrals| == |s.referrals|
      && forall k :: 0 <= k < |s.referrals| ==>
           t.referrals[k] == if s.referrals[k].id == id then s.referrals[k].(status := status) else s.referrals[k]
  {
    var i := FindReferral(s.referrals, id).value;
    forall k | 0 <= k < |s.referrals| && s.referrals[k].id == id ensures k == i {
    }
  }

  /** Rewriting referral rows without touching their ids or owners keeps validity. */
  lemma SameKeysKeepValid(s: Store, t: Store)
    requires Valid(s)
    requires t.referrers == s.referrers
    requires t.nextReferrerId == s.nextReferrerId && t.nextReferralId == s.nextReferralId
    requires |t.referrals| == |s.referrals|
    requires forall k :: 0 <= k < |s.referrals| ==>
      t.referrals[k].id == s.referrals[k].id && t.referrals[k].referrerId == s.referrals[k].referrerId
    ensures Valid(t)
  {
    forall rid | rid in s.referrers ensures |OwnedBy(t.referrals, rid)| == |OwnedBy(s.referrals, rid)| {
      OwnedBySameOwners(s.referrals, t.referrals, rid);
    }
  }

  /** A status update leaves ids, owners and counters alone, so validity is kept. */
  lemma UpdateStatusPreservesValid(s: Store, id: int, status: Option<string>)
    requires Valid(s)
    ensures Valid(UpdateStatus(s, id, status).1)
  {
    var t := UpdateStatus(s, id, status).1;
    if UpdateStatus(s, id, status).0.StatusUpdated? {
      var i := FindReferral(s.referrals, id).value;
      assert t.referrals == s.referrals[i := s.referrals[i].(status := status.value)];
      SameKeysKeepValid(s, t);
    }
  }

  /** Two lists with the same owner at every position give equally long tallies. */
  lemma {:induction false} OwnedBySameOwners(rs: seq<Referral>, qs: seq<Referral>, id: int)
    requires |rs| == |qs|
    requires forall k :: 0 <= k < |rs| ==> rs[k].referrerId == qs[k].referrerId
    ensures |OwnedBy(rs, id)| == |OwnedBy(qs, id)|
  {
    if |rs| > 0 {
      OwnedBySameOwners(rs[..|rs| - 1], qs[..|qs| - 1], id);
    }
  }

  /**
   Updating an existing referral with a present status succeeds, and the
   next read of that id returns the updated row with the new status.
   */
  lemma UpdateThenGet(s: Store, id: int, status: string)
    requires status != ""
    requires exists i :: 0 <= i < |s.referrals| && s.referrals[i].id == id
    ensures UpdateStatus(s, id, Some(status)).0.StatusUpdated?
    ensures
      var t := UpdateStatus(s, id, Some(status)).1;
      && GetReferral(t, id).ReferralFound?
      && GetReferral(t, id).referral == UpdateStatus(s, id, Some(status)).0.updated
      && GetReferral(t, id).referral.status == status
  {
    var i := FindReferral(s.referrals, id).value;
    var updated := s.referrals[i].(status := status);
    var rs := s.referrals[i := updated];
    FindReferralAfterWrite(s.referrals, i, updated);
    assert FindReferral(rs, id) == Some(i);
  }

  /** Overwriting the first row with an id by a row with that same id leaves the lookup where it was. */
  lemma {:induction false} FindReferralAfterWrite(rs: seq<Referral>, i: nat, x: Referral)
    requires i < |rs| && FindReferral(rs, rs[i].id) == Some(i) && x.id == rs[i].id
    ensures FindReferral(rs[i := x], x.id) == Some(i)
  {
    if i > 0 {
      assert rs[i := x][1..] == rs[1..][i - 1 := x];
      FindReferralAfterWrite(rs[1..], i - 1, x);
    }
  }
}
