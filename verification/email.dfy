/**
 * The email check `isValidEmail`: a test against the regular expression
 * `^[^\s@]+@[^\s@]+\.[^\s@]+$`.
 */
module EmailCheck {
  import opened Text

  /** A match of `[^\s@]+`: non-empty, no whitespace, no `@`. */
  predicate IsEmailPart(t: string) {
    |t| > 0 && forall i | 0 <= i < |t| :: !IsWs(t[i]) && t[i] != '@'
  }

  /** The `@` at index `at` and the `.` at index `dot` cut `s` into three
      parts, each matching `[^\s@]+`. */
  predicate SplitsAt(s: string, at: int, dot: int) {
    && 0 < at < |s| && at + 1 < dot < |s| - 1
    && s[at] == '@' && s[dot] == '.'
    && IsEmailPart(s[..at]) && IsEmailPart(s[at + 1..dot]) && IsEmailPart(s[dot + 1..])
  }

  /** The regular expression's meaning: some choice of `@` and `.` splits `s`. */
  predicate IsValidEmail(s: string) {
    exists at, dot | 0 < at < |s| && at + 1 < dot < |s| - 1 :: SplitsAt(s, at, dot)
  }

  /** Every `local "@" d1 "." d2` built from pattern parts is accepted. */
  lemma EmailFromParts(local: string, d1: string, d2: string)
    requires IsEmailPart(local) && IsEmailPart(d1) && IsEmailPart(d2)
    ensures IsValidEmail(local + "@" + d1 + "." + d2)
  {
    var s := local + "@" + d1 + "." + d2;
    var at, dot := |local|, |local| + 1 + |d1|;
    assert s[at] == '@' && s[dot] == '.';
    assert s[..at] == local;
    assert s[at + 1..dot] == d1;
    assert s[dot + 1..] == d2;
    assert SplitsAt(s, at, dot);
  }

  /** Every accepted string is `local "@" d1 "." d2` for pattern parts. */
  lemma EmailToParts(s: string) returns (local: string, d1: string, d2: string)
    requires IsValidEmail(s)
    ensures IsEmailPart(local) && IsEmailPart(d1) && IsEmailPart(d2)
    ensures s == local + "@" + d1 + "." + d2
  {
    var at, dot :| 0 < at < |s| && at + 1 < dot < |s| - 1 && SplitsAt(s, at, dot);
    local, d1, d2 := s[..at], s[at + 1..dot], s[dot + 1..];
    assert s == s[..at] + [s[at]] + s[at + 1..dot] + [s[dot]] + s[dot + 1..];
  }

  /** An accepted address has exactly one `@`. */
  lemma ValidEmailOneAt(s: string)
    requires IsValidEmail(s)
    ensures Occurrences(s, '@') == 1
  {
    var local, d1, d2 := EmailToParts(s);
    assert Occurrences(local, '@') == 0 && Occurrences(d1, '@') == 0 && Occurrences(d2, '@') == 0;
    assert Occurrences("@", '@') == 1 && Occurrences(".", '@') == 0;
    OccurrencesAppend(local + "@" + d1 + ".", d2, '@');
    OccurrencesAppend(local + "@" + d1, ".", '@');
    OccurrencesAppend(local + "@", d1, '@');
    OccurrencesAppend(local, "@", '@');
  }

  /** An accepted address contains no whitespace. */
  lemma ValidEmailNoWs(s: string)
    requires IsValidEmail(s)
    ensures forall i | 0 <= i < |s| :: !IsWs(s[i])
  {
    var at, dot :| 0 < at < |s| && at + 1 < dot < |s| - 1 && SplitsAt(s, at, dot);
    forall i | 0 <= i < |s|
      ensures !IsWs(s[i])
    {
      if i < at {
        assert s[..at][i] == s[i];
      } else if at < i < dot {
        assert s[at + 1..dot][i - at - 1] == s[i];
      } else if dot < i {
        assert s[dot + 1..][i - dot - 1] == s[i];
      }
    }
  }

  /** An accepted address has no whitespace, exactly one `@`, and at least
      five characters; in particular the empty string is rejected. */
  lemma ValidEmailShape(s: string)
    requires IsValidEmail(s)
    ensures |s| >= 5
    ensures forall i | 0 <= i < |s| :: !IsWs(s[i])
    ensures Occurrences(s, '@') == 1
  {
    ValidEmailOneAt(s);
    ValidEmailNoWs(s);
  }

  /** Trimming never changes an accepted address. */
  lemma ValidEmailIsTrimmed(s: string)
    requires IsValidEmail(s)
    ensures Trim(s) == s
  {
    ValidEmailShape(s);
    TrimTight(s);
  }

  /** An accepted address has its `@` at a single index. */
  lemma AtUnique(s: string, p: int, q: int)
    requires IsValidEmail(s)
    requires 0 <= p < |s| && 0 <= q < |s| && s[p] == '@' && s[q] == '@'
    ensures p == q
  {
    var at, dot :| 0 < at < |s| && at + 1 < dot < |s| - 1 && SplitsAt(s, at, dot);
    AtIsTheSplit(s, at, dot, p);
    AtIsTheSplit(s, at, dot, q);
  }

  lemma AtIsTheSplit(s: string, at: int, dot: int, p: int)
    requires SplitsAt(s, at, dot)
    requires 0 <= p < |s| && s[p] == '@'
    ensures p == at
  {
  }

  /** One left-to-right pass over `s`, as an independent implementation of the
      regular expression: it records the first `@` and the first `.` at least
      two characters after it, and rejects on whitespace or a second `@`. */
  method MatchEmail(s: string) returns (ok: bool)
    ensures ok == IsValidEmail(s)
  {
    var at := -1;
    var dot := -1;
    var i := 0;
    while i < |s|
      invariant 0 <= i <= |s|
      invariant forall k | 0 <= k < i :: !IsWs(s[k])
      invariant at == -1 ==> forall k | 0 <= k < i :: s[k] != '@'
      invariant at != -1 ==> 0 <= at < i && s[at] == '@'
      invariant at != -1 ==> forall k | 0 <= k < i && k != at :: s[k] != '@'
      invariant dot != -1 ==> at != -1 && at + 2 <= dot < i && s[dot] == '.'
      invariant at != -1 && dot == -1 ==> forall k | at + 2 <= k < i :: s[k] != '.'
      invariant dot != -1 ==> forall k | at + 2 <= k < dot :: s[k] != '.'
    {
      var c := s[i];
      if IsWs(c) {
        if IsValidEmail(s) {
          ValidEmailShape(s);
        }
        return false;
      }
      if c == '@' {
        if at != -1 {
          if IsValidEmail(s) {
            AtUnique(s, at, i);
          }
          return false;
        }
        at := i;
      } else if c == '.' && at != -1 && at + 2 <= i && dot == -1 {
        dot := i;
      }
      i := i + 1;
    }
    ok := at > 0 && dot != -1 && dot < |s| - 1;
    if ok {
      assert IsEmailPart(s[..at]);
      assert IsEmailPart(s[at + 1..dot]);
      assert IsEmailPart(s[dot + 1..]);
      assert SplitsAt(s, at, dot);
    }
  }

  /** A string without `@` is rejected. */
  lemma NoAtRejected(s: string)
    requires forall i | 0 <= i < |s| :: s[i] != '@'
    ensures !IsValidEmail(s)
  {
  }

  /** "a@b.com" is accepted, split after "a" and after "b". */
  lemma ExampleAddressValid()
    ensures IsValidEmail("a@b.com")
  {
    var s := "a@b.com";
    assert s[..1] == "a" && s[2..3] == "b" && s[4..] == "com";
    assert SplitsAt(s, 1, 3);
  }
}
