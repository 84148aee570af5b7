/**
 The loose e-mail check of the referral form: the unanchored JavaScript
 regular expression `\S+@\S+\.\S+`, stated once as a predicate over index
 windows and once as a single left-to-right scan, and proved equal.
 */
module EmailPattern {

  /** JavaScript's `\s` class (white space and line terminators); `\S` is its complement. */
  predicate IsSpace(c: char) {
    || c == '\t' || c == '\n' || c == '\U{B}' || c == '\U{C}' || c == '\r' || c == ' '
    || c == '\U{A0}' || c == '\U{1680}' || ('\U{2000}' <= c <= '\U{200A}')
    || c == '\U{2028}' || c == '\U{2029}' || c == '\U{202F}' || c == '\U{205F}'
    || c == '\U{3000}' || c == '\U{FEFF}'
  }

  /** Every character of `t` is matched by `\S`. */
  predicate NoSpace(t: string) {
    forall k :: 0 <= k < |t| ==> !IsSpace(t[k])
  }

  /**
   The reference meaning of `/\S+@\S+\.\S+/.test(s)`: some window
   s[start..end] reads x + "@" + y + "." + z, where x = s[start..at],
   y = s[at+1..dot] and z = s[dot+1..end] are non-empty and free of
   white space. The regex is unanchored, so the window may sit anywhere.
   */
  ghost predicate Matches(s: string) {
    exists start, at, dot, end ::
      0 <= start < at && at + 1 < dot && dot + 1 < end <= |s|
      && s[at] == '@' && s[dot] == '.' && NoSpace(s[start..end])
  }

  // Partial matches: a white-space-free suffix of `p` that is a prefix of
  // the pattern. `p` ends inside x, right after "x@", inside "x@y", or
  // right after "x@y.".

  ghost predicate EndsInX(p: string) {
    exists start :: 0 <= start < |p| && NoSpace(p[start..])
  }

  ghost predicate EndsAfterAt(p: string) {
    exists start, at ::
      0 <= start < at && at + 1 == |p| && p[at] == '@' && NoSpace(p[start..])
  }

  ghost predicate EndsInY(p: string) {
    exists start, at ::
      0 <= start < at && at + 1 < |p| && p[at] == '@' && NoSpace(p[start..])
  }

  ghost predicate EndsAfterDot(p: string) {
    exists start, at ::
      0 <= start < at && at + 2 < |p| && p[at] == '@' && p[|p| - 1] == '.' && NoSpace(p[start..])
  }

  /** What the scanner remembers about the characters read so far. */
  datatype ScanState = ScanState(found: bool, inX: bool, afterAt: bool, inY: bool, afterDot: bool)

  /** The scanner's state describes the prefix `p` exactly. */
  ghost predicate Describes(st: ScanState, p: string) {
    && (st.found <==> Matches(p))
    && (st.inX <==> EndsInX(p))
    && (st.afterAt <==> EndsAfterAt(p))
    && (st.inY <==> EndsInY(p))
    && (st.afterDot <==> EndsAfterDot(p))
  }

  /** Reads one more character: white space resets every partial match. */
  function Step(st: ScanState, c: char): ScanState {
    if IsSpace(c) then
      ScanState(st.found, false, false, false, false)
    else
      ScanState(st.found || st.afterDot, true, c == '@' && st.inX, st.afterAt || st.inY, c == '.' && st.inY)
  }

  /** Scans `s` from left to right, one character at a time. */
  function Scan(s: string): (st: ScanState)
    ensures Describes(st, s)
  {
    if |s| == 0 then
      assert !EndsInX(s) && !EndsAfterAt(s) && !EndsInY(s) && !EndsAfterDot(s) && !Matches(s);
      ScanState(false, false, false, false, false)
    else
      var p := s[..|s| - 1];
      var st := Scan(p);
      StepDescribes(st, p, s[|s| - 1]);
      assert p + [s[|s| - 1]] == s;
      Step(st, s[|s| - 1])
  }

  /** The executable e-mail test used by the validator. */
  function Test(s: string): (b: bool)
    ensures b <==> Matches(s)
  {
    Scan(s).found
  }

  lemma SuffixOfAppend(p: string, c: char, start: nat)
    requires start <= |p|
    ensures (p + [c])[start..] == p[start..] + [c]
    ensures NoSpace((p + [c])[start..]) <==> NoSpace(p[start..]) && !IsSpace(c)
  {
    var t := (p + [c])[start..];
    assert t == p[start..] + [c];
    if NoSpace(t) {
      assert t[|p| - start] == c;
      assert forall k :: 0 <= k < |p| - start ==> p[start..][k] == t[k];
    }
  }

  lemma StepInX(p: string, c: char)
    ensures EndsInX(p + [c]) <==> !IsSpace(c)
  {
    var q := p + [c];
    if !IsSpace(c) {
      assert q[|p|..] == [c];
      assert NoSpace(q[|p|..]);
    }
    if EndsInX(q) {
      var start :| 0 <= start < |q| && NoSpace(q[start..]);
      assert q[start..][|q| - 1 - start] == c;
    }
  }

  lemma StepAfterAt(p: string, c: char)
    ensures EndsAfterAt(p + [c]) <==> c == '@' && EndsInX(p)
  {
    var q := p + [c];
    if EndsAfterAt(q) {
      var start, at :| 0 <= start < at && at + 1 == |q| && q[at] == '@' && NoSpace(q[start..]);
      SuffixOfAppend(p, c, start);
      assert 0 <= start < |p| && NoSpace(p[start..]);
    }
    if c == '@' && EndsInX(p) {
      var start :| 0 <= start < |p| && NoSpace(p[start..]);
      SuffixOfAppend(p, c, start);
      assert 0 <= start < |p| && |p| + 1 == |q| && q[|p|] == '@' && NoSpace(q[start..]);
    }
  }

  lemma StepInY(p: string, c: char)
    ensures EndsInY(p + [c]) <==> !IsSpace(c) && (EndsAfterAt(p) || EndsInY(p))
  {
    var q := p + [c];
    if EndsInY(q) {
      var start, at :| 0 <= start < at && at + 1 < |q| && q[at] == '@' && NoSpace(q[start..]);
      SuffixOfAppend(p, c, start);
      assert p[at] == '@';
      if at + 1 == |p| {
        assert EndsAfterAt(p);
      } else {
        assert EndsInY(p);
      }
    }
    if !IsSpace(c) && EndsAfterAt(p) {
      var start, at :| 0 <= start < at && at + 1 == |p| && p[at] == '@' && NoSpace(p[start..]);
      SuffixOfAppend(p, c, start);
      assert q[at] == '@';
    }
    if !IsSpace(c) && EndsInY(p) {
      var start, at :| 0 <= start < at && at + 1 < |p| && p[at] == '@' && NoSpace(p[start..]);
      SuffixOfAppend(p, c, start);
      assert q[at] == '@';
    }
  }

  lemma StepAfterDot(p: string, c: char)
    ensures EndsAfterDot(p + [c]) <==> c == '.' && EndsInY(p)
  {
    var q := p + [c];
    if EndsAfterDot(q) {
      var start, at :| 0 <= start < at && at + 2 < |q| && q[at] == '@' && q[|q| - 1] == '.' && NoSpace(q[start..]);
      SuffixOfAppend(p, c, start);
      assert p[at] == '@';
    }
    if c == '.' && EndsInY(p) {
      var start, at :| 0 <= start < at && at + 1 < |p| && p[at] == '@' && NoSpace(p[start..]);
      SuffixOfAppend(p, c, start);
      assert q[at] == '@' && q[|q| - 1] == '.';
    }
  }

  /** A match inside `p` is still a match once a character is appended. */
  lemma MatchesPrefix(p: string, c: char)
    requires Matches(p)
    ensures Matches(p + [c])
  {
    var q := p + [c];
    var start, at, dot, end :|
      0 <= start < at && at + 1 < dot && dot + 1 < end <= |p|
      && p[at] == '@' && p[dot] == '.' && NoSpace(p[start..end]);
    assert q[start..end] == p[start..end];
    assert q[at] == '@' && q[dot] == '.';
  }

  /** A match that first appears at the end of `p + [c]` completes a partial match of `p`. */
  lemma MatchesAppendedSplit(p: string, c: char)
    requires Matches(p + [c])
    ensures Matches(p) || (!IsSpace(c) && EndsAfterDot(p))
  {
    var q := p + [c];
    var start, at, dot, end :|
      0 <= start < at && at + 1 < dot && dot + 1 < end <= |q|
      && q[at] == '@' && q[dot] == '.' && NoSpace(q[start..end]);
    if end <= |p| {
      assert p[start..end] == q[start..end];
      assert p[at] == '@' && p[dot] == '.';
    } else if dot + 1 < |p| {
      assert p[start..|p|] == q[start..|p|];
      assert forall k :: 0 <= k < |p| - start ==> q[start..|p|][k] == q[start..end][k];
      assert p[at] == '@' && p[dot] == '.';
    } else {
      assert q[start..end] == q[start..];
      SuffixOfAppend(p, c, start);
      assert p[at] == '@' && p[|p| - 1] == '.';
    }
  }

  /** Completing "x@y." with a non-space character yields a match. */
  lemma MatchesCompleted(p: string, c: char)
    requires !IsSpace(c) && EndsAfterDot(p)
    ensures Matches(p + [c])
  {
    var q := p + [c];
    var start, at :| 0 <= start < at && at + 2 < |p| && p[at] == '@' && p[|p| - 1] == '.' && NoSpace(p[start..]);
    SuffixOfAppend(p, c, start);
    assert q[start..|q|] == q[start..];
    assert q[at] == '@' && q[|p| - 1] == '.';
    assert 0 <= start < at && at + 1 < |p| - 1 && |p| - 1 + 1 < |q| <= |q|;
  }

  lemma StepMatches(p: string, c: char)
    ensures Matches(p + [c]) <==> Matches(p) || (!IsSpace(c) && EndsAfterDot(p))
  {
    if Matches(p) {
      MatchesPrefix(p, c);
    }
    if !IsSpace(c) && EndsAfterDot(p) {
      MatchesCompleted(p, c);
    }
    if Matches(p + [c]) {
      MatchesAppendedSplit(p, c);
    }
  }

  /** One step of the scanner keeps it in agreement with the reference predicates. */
  lemma StepDescribes(st: ScanState, p: string, c: char)
    requires Describes(st, p)
    ensures Describes(Step(st, c), p + [c])
  {
    StepMatches(p, c);
    StepInX(p, c);
    StepAfterAt(p, c);
    StepInY(p, c);
    StepAfterDot(p, c);
  }
}
