/**
 * String primitives the form handlers rely on: the whitespace class shared by
 * JavaScript's `String.prototype.trim` and the regular-expression escape `\s`,
 * trimming, the UTF-16 length reported by `String.prototype.length`, and
 * character counting.
 */
module Text {

  /** ECMAScript WhiteSpace and LineTerminator code points: the characters
      `trim` strips and `\s` matches. */
  predicate IsWs(c: char) {
    || c == '\t' || c == '\n' || c == '\U{000B}' || c == '\U{000C}' || c == '\r'
    || c == ' ' || c == '\U{00A0}' || c == '\U{1680}'
    || ('\U{2000}' <= c <= '\U{200A}')
    || c == '\U{2028}' || c == '\U{2029}' || c == '\U{202F}' || c == '\U{205F}'
    || c == '\U{3000}' || c == '\U{FEFF}'
  }

  predicate AllWs(s: string) {
    forall i | 0 <= i < |s| :: IsWs(s[i])
  }

  /** `s` starts and ends with a non-whitespace character, or is empty. */
  predicate Tight(s: string) {
    s == [] || (!IsWs(s[0]) && !IsWs(s[|s| - 1]))
  }

  /** Strips the maximal whitespace prefix. */
  function TrimStart(s: string): string {
    if s == [] || !IsWs(s[0]) then s else TrimStart(s[1..])
  }

  /** Strips the maximal whitespace suffix. */
  function TrimEnd(s: string): string {
    if s == [] || !IsWs(s[|s| - 1]) then s else TrimEnd(s[..|s| - 1])
  }

  /** `TrimStart` removes a whitespace prefix, and no longer one exists. */
  lemma {:induction false} TrimStartSpec(s: string)
    ensures var r := TrimStart(s);
      && |r| <= |s| && r == s[|s| - |r|..]
      && AllWs(s[..|s| - |r|])
      && (r == [] || !IsWs(r[0]))
  {
    if s != [] && IsWs(s[0]) {
      TrimStartSpec(s[1..]);
      var r := TrimStart(s);
      var k := |s| - |r|;
      assert s[1..][..k - 1] == s[1..k];
      forall i | 0 <= i < k
        ensures IsWs(s[..k][i])
      {
        if i > 0 {
          assert s[..k][i] == s[1..][..k - 1][i - 1];
        }
      }
    } else {
      assert s[|s| - |s|..] == s;
    }
  }

  /** `TrimEnd` removes a whitespace suffix, and no longer one exists. */
  lemma {:induction false} TrimEndSpec(s: string)
    ensures var r := TrimEnd(s);
      && |r| <= |s| && r == s[..|r|]
      && AllWs(s[|r|..])
      && (r == [] || !IsWs(r[|r| - 1]))
  {
    if s != [] && IsWs(s[|s| - 1]) {
      var u := s[..|s| - 1];
      TrimEndSpec(u);
      var r := TrimEnd(s);
      forall j | 0 <= j < |s| - |r|
        ensures IsWs(s[|r|..][j])
      {
        if j < |s| - 1 - |r| {
          assert s[|r|..][j] == u[|r|..][j];
        }
      }
    } else {
      assert s[..|s|] == s;
    }
  }

  /** `s[lo..hi]` is `s` with a whitespace prefix and a whitespace suffix
      removed, and neither could have been longer. */
  ghost predicate TrimBounds(s: string, lo: int, hi: int) {
    && 0 <= lo <= hi <= |s|
    && AllWs(s[..lo])
    && AllWs(s[hi..])
    && Tight(s[lo..hi])
  }

  ghost predicate IsTrimOf(r: string, s: string) {
    exists lo, hi :: TrimBounds(s, lo, hi) && r == s[lo..hi]
  }

  /** `String.prototype.trim`. */
  function Trim(s: string): string {
    TrimEnd(TrimStart(s))
  }

  /** `Trim` meets the trim characterisation. */
  lemma TrimSpec(s: string)
    ensures IsTrimOf(Trim(s), s)
  {
    var t := TrimStart(s);
    var r := TrimEnd(t);
    TrimStartSpec(s);
    TrimEndSpec(t);
    var lo := |s| - |t|;
    assert r == s[lo..lo + |r|];
    assert AllWs(s[lo + |r|..]) by {
      assert s[lo + |r|..] == t[|r|..];
    }
    assert Tight(r) by {
      if r != [] {
        assert r[0] == t[0];
      }
    }
    assert TrimBounds(s, lo, lo + |r|);
  }

  /** A non-whitespace character lies strictly inside any whitespace padding. */
  lemma InsidePadding(s: string, lo: nat, hi: nat, k: nat)
    requires lo <= hi <= |s| && AllWs(s[..lo]) && AllWs(s[hi..])
    requires k < |s| && !IsWs(s[k])
    ensures lo <= k < hi
  {
  }

  /** The padding bounds are determined by `s`. */
  lemma TrimBoundsUnique(s: string, lo1: int, hi1: int, lo2: int, hi2: int)
    requires TrimBounds(s, lo1, hi1) && TrimBounds(s, lo2, hi2)
    ensures s[lo1..hi1] == s[lo2..hi2]
  {
    if lo1 < hi1 {
      assert s[lo1] == s[lo1..hi1][0];
      assert s[hi1 - 1] == s[lo1..hi1][hi1 - 1 - lo1];
      InsidePadding(s, lo2, hi2, lo1);
      InsidePadding(s, lo2, hi2, hi1 - 1);
    }
    if lo2 < hi2 {
      assert s[lo2] == s[lo2..hi2][0];
      assert s[hi2 - 1] == s[lo2..hi2][hi2 - 1 - lo2];
      InsidePadding(s, lo1, hi1, lo2);
      InsidePadding(s, lo1, hi1, hi2 - 1);
    }
  }

  /** The trim characterisation has at most one solution, so it is an
      independent definition of `Trim`. */
  lemma TrimOfUnique(r1: string, r2: string, s: string)
    requires IsTrimOf(r1, s) && IsTrimOf(r2, s)
    ensures r1 == r2
  {
    var lo1, hi1 :| TrimBounds(s, lo1, hi1) && r1 == s[lo1..hi1];
    var lo2, hi2 :| TrimBounds(s, lo2, hi2) && r2 == s[lo2..hi2];
    TrimBoundsUnique(s, lo1, hi1, lo2, hi2);
  }

  /** A trimmed value is empty exactly when the input was all whitespace. */
  lemma TrimEmptyIff(s: string)
    ensures Trim(s) == [] <==> AllWs(s)
  {
    TrimSpec(s);
    var r := Trim(s);
    var lo, hi :| TrimBounds(s, lo, hi) && r == s[lo..hi];
    if r == [] {
      forall i | 0 <= i < |s|
        ensures IsWs(s[i])
      {
        if i < lo {
          assert s[..lo][i] == s[i];
        } else {
          assert s[hi..][i - hi] == s[i];
        }
      }
    } else {
      assert s[lo] == r[0];
    }
  }

  /** Trimming leaves a string without surrounding whitespace unchanged. */
  lemma TrimTight(s: string)
    requires Tight(s)
    ensures Trim(s) == s
  {
    assert s[0..|s|] == s;
    assert TrimBounds(s, 0, |s|);
    TrimSpec(s);
    TrimOfUnique(Trim(s), s, s);
  }

  /** Trimming is idempotent. */
  lemma TrimIdempotent(s: string)
    ensures Trim(Trim(s)) == Trim(s)
  {
    TrimSpec(s);
    var r := Trim(s);
    var lo, hi :| TrimBounds(s, lo, hi) && r == s[lo..hi];
    TrimTight(r);
  }

  /** Trimming removes exactly the whitespace padding around a tight core. */
  lemma TrimPadded(pre: string, core: string, post: string)
    requires AllWs(pre) && AllWs(post) && Tight(core)
    ensures Trim(pre + core + post) == core
  {
    var s := pre + core + post;
    var lo, hi := |pre|, |pre| + |core|;
    assert s[lo..hi] == core;
    assert s[..lo] == pre;
    assert s[hi..] == post;
    assert TrimBounds(s, lo, hi);
    TrimSpec(s);
    TrimOfUnique(Trim(s), core, s);
  }

  /** A code point outside the Basic Multilingual Plane takes two UTF-16 code
      units (a surrogate pair). */
  predicate IsSupplementary(c: char) {
    c as int > 0xFFFF
  }

  /** `String.prototype.length`: the number of UTF-16 code units. */
  function Utf16Length(s: string): (n: nat)
    ensures |s| <= n <= 2 * |s|
    ensures n == |s| <==> forall i | 0 <= i < |s| :: !IsSupplementary(s[i])
  {
    if s == [] then 0
    else
      var rest := Utf16Length(s[1..]);
      assert forall i | 0 <= i < |s[1..]| :: s[1..][i] == s[i + 1];
      (if IsSupplementary(s[0]) then 2 else 1) + rest
  }

  /** The number of occurrences of `c` in `s`. */
  function Occurrences(s: string, c: char): (n: nat)
    ensures n <= |s|
    ensures n == 0 <==> forall i | 0 <= i < |s| :: s[i] != c
  {
    if s == [] then 0
    else
      var rest := Occurrences(s[1..], c);
      assert forall i | 0 <= i < |s[1..]| :: s[1..][i] == s[i + 1];
      (if s[0] == c then 1 else 0) + rest
  }

  lemma {:induction false} OccurrencesAppend(a: string, b: string, c: char)
    ensures Occurrences(a + b, c) == Occurrences(a, c) + Occurrences(b, c)
  {
    if a == [] {
      assert a + b == b;
    } else {
      assert (a + b)[1..] == a[1..] + b;
      OccurrencesAppend(a[1..], b, c);
    }
  }
}
