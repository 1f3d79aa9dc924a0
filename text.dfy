/**
 * The two JavaScript string built-ins the scraper relies on:
 * `String.prototype.trim` and `String.prototype.replace` with a string
 * pattern and an empty replacement, which removes the FIRST occurrence only.
 */
module Text {

  datatype Option<T> = None | Some(value: T)

  /** ECMAScript WhiteSpace and LineTerminator code points: what `trim` strips. */
  predicate IsWhitespace(c: char) {
    var n := c as int;
    || n == 0x09 || n == 0x0A || n == 0x0B || n == 0x0C || n == 0x0D
    || n == 0x20 || n == 0xA0 || n == 0x1680
    || (0x2000 <= n <= 0x200A)
    || n == 0x2028 || n == 0x2029 || n == 0x202F || n == 0x205F
    || n == 0x3000 || n == 0xFEFF
  }

  /** Every character of `s` from index `lo` up to, not including, `hi` is whitespace. */
  predicate WhitespaceBetween(s: string, lo: nat, hi: nat)
    requires lo <= hi <= |s|
  {
    forall k :: lo <= k < hi ==> IsWhitespace(s[k])
  }

  predicate AllWhitespace(s: string) {
    WhitespaceBetween(s, 0, |s|)
  }

  /** Neither starts nor ends with whitespace. */
  predicate IsTrimmed(s: string) {
    s == [] || (!IsWhitespace(s[0]) && !IsWhitespace(s[|s| - 1]))
  }

  /** How many whitespace characters `s` starts with. */
  function LeadingWhitespace(s: string): (n: nat)
    ensures n <= |s|
    ensures n == |s| || !IsWhitespace(s[n])
  {
    if s != [] && IsWhitespace(s[0]) then 1 + LeadingWhitespace(s[1..]) else 0
  }

  /** The characters `LeadingWhitespace` counts are all whitespace. */
  lemma {:induction false} LeadingWhitespaceSpan(s: string)
    ensures WhitespaceBetween(s, 0, LeadingWhitespace(s))
  {
    if s != [] && IsWhitespace(s[0]) {
      LeadingWhitespaceSpan(s[1..]);
      forall k | 1 <= k < LeadingWhitespace(s) ensures IsWhitespace(s[k]) {
        assert s[k] == s[1..][k - 1];
      }
    }
  }

  /** How many whitespace characters `s` ends with. */
  function TrailingWhitespace(s: string): (n: nat)
    ensures n <= |s|
    ensures n == |s| || !IsWhitespace(s[|s| - n - 1])
    ensures s != [] && !IsWhitespace(s[0]) ==> n < |s|
  {
    if s != [] && IsWhitespace(s[|s| - 1]) then 1 + TrailingWhitespace(s[..|s| - 1]) else 0
  }

  /** The characters `TrailingWhitespace` counts are all whitespace. */
  lemma {:induction false} TrailingWhitespaceSpan(s: string)
    ensures WhitespaceBetween(s, |s| - TrailingWhitespace(s), |s|)
  {
    if s != [] && IsWhitespace(s[|s| - 1]) {
      var init := s[..|s| - 1];
      TrailingWhitespaceSpan(init);
      forall k | |s| - TrailingWhitespace(s) <= k < |s| - 1 ensures IsWhitespace(s[k]) {
        assert s[k] == init[k];
      }
    }
  }

  /** `String.prototype.trim`. */
  function Trim(s: string): (r: string)
    ensures IsTrimmed(r)
    ensures |r| <= |s|
    ensures IsTrimmed(s) ==> r == s
  {
    var a := LeadingWhitespace(s);
    if a == |s| then [] else
      var t := s[a..];
      t[..|t| - TrailingWhitespace(t)]
  }

  /** Trimming keeps an infix of `s` and drops only whitespace on either side. */
  lemma TrimRemovesOnlyWhitespace(s: string) returns (a: nat)
    ensures a + |Trim(s)| <= |s|
    ensures Trim(s) == s[a..a + |Trim(s)|]
    ensures WhitespaceBetween(s, 0, a) && WhitespaceBetween(s, a + |Trim(s)|, |s|)
  {
    a := LeadingWhitespace(s);
    LeadingWhitespaceSpan(s);
    if a < |s| {
      var t := s[a..];
      TrailingWhitespaceSpan(t);
      var b := a + (|t| - TrailingWhitespace(t));
      assert Trim(s) == t[..b - a];
      assert t[..b - a] == s[a..b];
      forall k | b <= k < |s| ensures IsWhitespace(s[k]) {
        assert s[k] == t[k - a];
      }
    }
  }

  /** Trimming yields nothing exactly when `s` is all whitespace. */
  lemma TrimEmpty(s: string)
    ensures Trim(s) == [] <==> AllWhitespace(s)
  {
    LeadingWhitespaceSpan(s);
  }

  /**
   * Independent characterisation: any split of `s` into whitespace, a trimmed
   * middle and whitespace has `Trim(s)` as its middle.
   */
  lemma TrimIsUnique(s: string, a: nat, b: nat)
    requires a <= b <= |s|
    requires WhitespaceBetween(s, 0, a) && WhitespaceBetween(s, b, |s|)
    requires IsTrimmed(s[a..b])
    ensures Trim(s) == s[a..b]
  {
    var a' := TrimRemovesOnlyWhitespace(s);
    var b' := a' + |Trim(s)|;
    if a == b {
      TrimEmpty(s);
      assert AllWhitespace(s);
    } else {
      assert s[a..b][0] == s[a] && s[a..b][b - a - 1] == s[b - 1];
      TrimEmpty(s);
      assert Trim(s) != [];
      assert Trim(s)[0] == s[a'] && Trim(s)[|Trim(s)| - 1] == s[b' - 1];
      assert a == a' && b == b';
    }
  }

  /** Whitespace in front of a trimmed string is what trimming removes. */
  lemma TrimAfterWhitespace(gap: string, t: string)
    requires AllWhitespace(gap) && IsTrimmed(t)
    ensures Trim(gap + t) == t
  {
    var s := gap + t;
    assert s[|gap|..|s|] == t;
    assert WhitespaceBetween(s, 0, |gap|) by {
      forall k | 0 <= k < |gap| ensures IsWhitespace(s[k]) { assert s[k] == gap[k]; }
    }
    TrimIsUnique(s, |gap|, |s|);
  }

  /** Trimming twice is trimming once. */
  lemma TrimIdempotent(s: string)
    ensures Trim(Trim(s)) == Trim(s)
  {
  }

  /** `pat` occurs in `s` starting at index `k`. */
  predicate OccursAt(s: string, pat: string, k: nat) {
    k + |pat| <= |s| && s[k..k + |pat|] == pat
  }

  /** The index of the first occurrence of `pat` in `s`, as `indexOf` finds it. */
  function FirstOccurrence(s: string, pat: string): (r: Option<nat>)
    ensures r.Some? ==> OccursAt(s, pat, r.value)
    ensures r.Some? ==> forall k: nat :: k < r.value ==> !OccursAt(s, pat, k)
    ensures r.None? ==> forall k: nat :: !OccursAt(s, pat, k)
    decreases |s|
  {
    if |s| < |pat| then
      None
    else if s[..|pat|] == pat then
      Some(0)
    else
      var rest := FirstOccurrence(s[1..], pat);
      ShiftedOccurrence(s, pat, rest);
      match rest
      case None => None
      case Some(k) => Some(k + 1)
  }

  /**
   * Lifts what is known of the first occurrence in `s[1..]` to `s`, when
   * there is none at index 0.
   */
  lemma ShiftedOccurrence(s: string, pat: string, rest: Option<nat>)
    requires |pat| <= |s| && s[..|pat|] != pat
    requires rest.Some? ==> OccursAt(s[1..], pat, rest.value)
    requires rest.Some? ==> forall k: nat :: k < rest.value ==> !OccursAt(s[1..], pat, k)
    requires rest.None? ==> forall k: nat :: !OccursAt(s[1..], pat, k)
    ensures rest.Some? ==> OccursAt(s, pat, rest.value + 1)
    ensures rest.Some? ==> forall k: nat :: k < rest.value + 1 ==> !OccursAt(s, pat, k)
    ensures rest.None? ==> forall k: nat :: !OccursAt(s, pat, k)
  {
    assert !OccursAt(s, pat, 0) by { assert s[0..|pat|] == s[..|pat|]; }
    forall k: nat | 0 < k
      ensures OccursAt(s, pat, k) <==> OccursAt(s[1..], pat, k - 1)
    {
      if k + |pat| <= |s| {
        var here, there := s[k..k + |pat|], s[1..][k - 1..k - 1 + |pat|];
        assert forall j :: 0 <= j < |pat| ==> here[j] == there[j];
        assert here == there;
      }
    }
  }

  /** `s.replace(pat, '')`: the first occurrence of `pat` removed, nothing else. */
  function RemoveFirst(s: string, pat: string): (r: string)
    ensures FirstOccurrence(s, pat).None? ==> r == s
    ensures FirstOccurrence(s, pat).Some? ==> |r| == |s| - |pat|
  {
    match FirstOccurrence(s, pat)
    case None => s
    case Some(k) => s[..k] + s[k + |pat|..]
  }

  /** Putting the removed occurrence back where it was gives the input again. */
  lemma RemoveFirstInverse(s: string, pat: string)
    requires FirstOccurrence(s, pat).Some?
    ensures var k := FirstOccurrence(s, pat).value;
      RemoveFirst(s, pat)[..k] + pat + RemoveFirst(s, pat)[k..] == s
  {
    var k := FirstOccurrence(s, pat).value;
    SpliceBack(s, pat, k);
  }

  /** An occurrence cut out of `s` and put back gives `s`. */
  lemma SpliceBack(s: string, pat: string, k: nat)
    requires OccursAt(s, pat, k)
    ensures s[..k] + pat + s[k + |pat|..] == s
  {
    assert s == s[..k] + s[k..k + |pat|] + s[k + |pat|..];
  }

  /** A pattern at the very start of `s` is the one removed. */
  lemma RemoveFirstOfPrefix(pat: string, rest: string)
    ensures RemoveFirst(pat + rest, pat) == rest
  {
    var s := pat + rest;
    assert OccursAt(s, pat, 0) by { assert s[..|pat|] == pat; }
    assert s[|pat|..] == rest;
  }
}
