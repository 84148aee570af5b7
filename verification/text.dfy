/**
 Joining labels with ", " (JavaScript's `Array.prototype.join`) and the
 matching split, so that an error message can be read back into the list
 of labels it names.
 */
module Text {

  /** `xs.join(sep)`: the elements of `xs` with `sep` between neighbours. */
  function Join(xs: seq<string>, sep: string): string {
    if |xs| == 0 then ""
    else if |xs| == 1 then xs[0]
    else xs[0] + sep + Join(xs[1..], sep)
  }

  /** The index of the first ',' in `s`, or |s| when there is none. */
  function CommaIndex(s: string): (i: nat)
    ensures i <= |s|
    ensures i < |s| ==> s[i] == ','
    ensures ',' !in s[..i]
  {
    if |s| == 0 then 0
    else if s[0] == ',' then 0
    else
      var i := CommaIndex(s[1..]);
      assert s[..i + 1] == [s[0]] + s[1..][..i];
      i + 1
  }

  /** Cuts `s` at every ',' and drops one blank that follows a cut. */
  function Split(s: string): (parts: seq<string>)
    ensures |parts| > 0
    decreases |s|
  {
    var i := CommaIndex(s);
    if i == |s| then [s]
    else if i + 1 < |s| && s[i + 1] == ' ' then [s[..i]] + Split(s[i + 2..])
    else [s[..i]] + Split(s[i + 1..])
  }

  /** The first comma of `a + ", " + rest` is the one the join inserted. */
  lemma CommaAfterFirst(a: string, rest: string)
    requires ',' !in a
    ensures CommaIndex(a + ", " + rest) == |a|
  {
    var s := a + ", " + rest;
    var i := CommaIndex(s);
    assert s[|a|] == ',';
  }

  lemma CommaFreeWhole(a: string)
    requires ',' !in a
    ensures CommaIndex(a) == |a|
  {
  }

  /**
   Splitting undoes joining with ", " whenever no element contains a comma
   and there is at least one element.
   */
  lemma {:induction false} SplitJoin(xs: seq<string>)
    requires |xs| > 0
    requires forall k :: 0 <= k < |xs| ==> ',' !in xs[k]
    ensures Split(Join(xs, ", ")) == xs
  {
    if |xs| == 1 {
      CommaFreeWhole(xs[0]);
    } else {
      var rest := Join(xs[1..], ", ");
      var s := xs[0] + ", " + rest;
      assert Join(xs, ", ") == s;
      CommaAfterFirst(xs[0], rest);
      assert s[..|xs[0]|] == xs[0];
      assert s[|xs[0]| + 2..] == rest;
      SplitJoin(xs[1..]);
      assert [xs[0]] + xs[1..] == xs;
    }
  }
}
