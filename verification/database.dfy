/**
 The relational store behind the server, as an immutable value: referrers
 keyed by id, referrals in insertion order, and the two auto-increment
 counters. The store's integrity rules are stated as `Valid`.
 */
module Database {
  import opened Wrappers

  /** A person who refers others; `email` is the natural key. */
  datatype Referrer = Referrer(
    id: nat,
    email: string,
    name: string,
    phone: Option<string>,
    referralCount: nat)

  /** One referred person, owned by exactly one referrer. */
  datatype Referral = Referral(
    id: nat,
    name: string,
    email: string,
    phone: Option<string>,
    fieldOfWork: string,
    program: string,
    status: string,
    referrerId: nat)

  /**
   The database. `defaultStatus` is the column default a new referral's
   status receives; the schema that fixes its value is not part of this model.
   */
  datatype Store = Store(
    referrers: map<nat, Referrer>,
    referrals: seq<Referral>,
    nextReferrerId: nat,
    nextReferralId: nat,
    defaultStatus: string)

  /** A fresh database: no rows, both auto-increment counters at 1. */
  function Empty(defaultStatus: string): (s: Store)
    ensures Valid(s)
    ensures |s.referrals| == 0 && |s.referrers| == 0
  {
    Store(map[], [], 1, 1, defaultStatus)
  }

  /** The referrals of `rs` whose owner is `id`, in insertion order. */
  function OwnedBy(rs: seq<Referral>, id: int): (r: seq<Referral>)
    ensures |r| <= |rs|
    ensures forall x :: x in r <==> x in rs && x.referrerId == id
  {
    if |rs| == 0 then []
    else
      var last := rs[|rs| - 1];
      assert rs == rs[..|rs| - 1] + [last];
      OwnedBy(rs[..|rs| - 1], id) + (if last.referrerId == id then [last] else [])
  }

  /** Appending a referral adds one to its owner's tally and nothing to anyone else's. */
  lemma OwnedByAppend(rs: seq<Referral>, x: Referral, id: int)
    ensures OwnedBy(rs + [x], id) == OwnedBy(rs, id) + (if x.referrerId == id then [x] else [])
  {
    assert (rs + [x])[..|rs|] == rs;
  }

  /** Each referral pointing at `id` is listed as often as it occurs in `rs`, and no other is listed. */
  lemma {:induction false} OwnedByMultiset(rs: seq<Referral>, id: int)
    ensures forall x :: multiset(OwnedBy(rs, id))[x] == if x.referrerId == id then multiset(rs)[x] else 0
  {
    if |rs| > 0 {
      var last := rs[|rs| - 1];
      OwnedByMultiset(rs[..|rs| - 1], id);
      assert rs == rs[..|rs| - 1] + [last];
    }
  }

  /** Nobody owns referrals that do not point at them. */
  lemma {:induction false} OwnedByNone(rs: seq<Referral>, id: int)
    requires forall i :: 0 <= i < |rs| ==> rs[i].referrerId != id
    ensures OwnedBy(rs, id) == []
  {
    if |rs| > 0 {
      OwnedByNone(rs[..|rs| - 1], id);
    }
  }

  /** Whether some referrer row carries `email`. */
  ghost predicate HasEmail(s: Store, email: string) {
    exists id :: id in s.referrers && s.referrers[id].email == email
  }

  /** Each row is stored under its own id, and every id was issued by the counter. */
  ghost predicate KeysAreIds(s: Store) {
    forall id :: id in s.referrers ==> s.referrers[id].id == id && id < s.nextReferrerId
  }

  /** The unique index on `Referrer.email`. */
  ghost predicate UniqueEmails(s: Store) {
    forall a, b :: a in s.referrers && b in s.referrers && s.referrers[a].email == s.referrers[b].email ==> a == b
  }

  /** The foreign key from `Referral.referrerId` to `Referrer.id`. */
  ghost predicate OwnersExist(s: Store) {
    forall i :: 0 <= i < |s.referrals| ==> s.referrals[i].referrerId in s.referrers
  }

  /** Referral ids are distinct and were issued by the counter. */
  ghost predicate ReferralIdsDistinct(s: Store) {
    && (forall i :: 0 <= i < |s.referrals| ==> s.referrals[i].id < s.nextReferralId)
    && (forall i, j :: 0 <= i < j < |s.referrals| ==> s.referrals[i].id != s.referrals[j].id)
  }

  /** Each referrer's counter equals the number of referrals it owns. */
  ghost predicate CountsMatch(s: Store) {
    forall id :: id in s.referrers ==> s.referrers[id].referralCount == |OwnedBy(s.referrals, id)|
  }

  ghost predicate Valid(s: Store) {
    && KeysAreIds(s)
    && UniqueEmails(s)
    && OwnersExist(s)
    && ReferralIdsDistinct(s)
    && CountsMatch(s)
  }

  function FindEmailFrom(s: Store, email: string, k: nat): (r: Option<nat>)
    ensures r.Some? ==> k <= r.value && r.value in s.referrers && s.referrers[r.value].email == email
    ensures r.None? ==> forall id :: k <= id < s.nextReferrerId && id in s.referrers ==> s.referrers[id].email != email
    decreases s.nextReferrerId - k
  {
    if k >= s.nextReferrerId then None
    else if k in s.referrers && s.referrers[k].email == email then Some(k)
    else FindEmailFrom(s, email, k + 1)
  }

  /**
   `findUnique` on the e-mail index: the id of the referrer row with
   `email`, if there is one.
   */
  function FindReferrer(s: Store, email: string): (r: Option<nat>)
    ensures r.Some? ==> r.value in s.referrers && s.referrers[r.value].email == email
    ensures KeysAreIds(s) ==> (r.None? <==> !HasEmail(s, email))
    ensures UniqueEmails(s) && r.Some? ==>
      forall id :: id in s.referrers && s.referrers[id].email == email ==> id == r.value
  {
    FindEmailFrom(s, email, 0)
  }

  /** `findUnique` on the primary key of referrals: the position of the row with `id`. */
  function FindReferral(rs: seq<Referral>, id: int): (r: Option<nat>)
    ensures r.Some? ==> r.value < |rs| && rs[r.value].id == id
    ensures r.Some? ==> forall i :: 0 <= i < r.value ==> rs[i].id != id
    ensures r.None? <==> forall i :: 0 <= i < |rs| ==> rs[i].id != id
  {
    if |rs| == 0 then None
    else if rs[0].id == id then Some(0)
    else
      match FindReferral(rs[1..], id)
      case None => None
      case Some(i) => Some(i + 1)
  }
}
