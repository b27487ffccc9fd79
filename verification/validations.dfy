/**
 * The `Validations#valid_id?` guard: `id && id.to_s =~ /^\d+$/`. Ruby's `^`
 * and `$` are LINE anchors, so the pattern matches when any one line of the
 * string (a maximal run of characters without '\n') is a non-empty run of
 * decimal digits; `\d` is ASCII 0-9.
 */
module Validations {
  import opened Wrappers
  import opened Numerals

  /** The index of the first '\n' in `s`, or |s| when there is none: the end of the first line. */
  function LineEnd(s: string): (n: nat)
    ensures n <= |s|
    ensures n < |s| ==> s[n] == '\n'
    ensures forall k :: 0 <= k < n ==> s[k] != '\n'
    decreases |s|
  {
    if s == [] || s[0] == '\n' then 0 else 1 + LineEnd(s[1..])
  }

  /** Some line of `s` consists of one or more digits and nothing else. */
  function HasDigitLine(s: string): bool
    decreases |s|
  {
    var n := LineEnd(s);
    (0 < n && AllDigits(s[..n])) || (n < |s| && HasDigitLine(s[n + 1..]))
  }

  /** `valid_id?`: nil is never valid; a string is valid when one of its lines is all digits. */
  function ValidId(id: Option<string>): (b: bool)
    ensures b ==> id.Some? && id.value != []
  {
    id.Some? && HasDigitLine(id.value)
  }

  /**
   * Where `/^\d+$/` can match: s[i..j] is a non-empty run of digits that
   * starts at the start of the string or after a '\n', and ends at the end
   * of the string or before a '\n'.
   */
  predicate AnchoredDigitsAt(s: string, i: int, j: int) {
    && 0 <= i < j <= |s|
    && (i == 0 || s[i - 1] == '\n')
    && (j == |s| || s[j] == '\n')
    && AllDigits(s[i..j])
  }

  /** A slice of a suffix is a slice of the whole string. */
  lemma SliceOfSuffix(s: string, m: nat, i: nat, j: nat)
    requires m <= i <= j <= |s|
    ensures s[m..][i - m..j - m] == s[i..j]
  {
  }

  /** A match in the text after a '\n' is a match in the whole string, shifted past that '\n'. */
  lemma ShiftMatch(s: string, n: nat, i: int, j: int)
    requires n < |s| && s[n] == '\n'
    requires AnchoredDigitsAt(s[n + 1..], i, j)
    ensures AnchoredDigitsAt(s, i + n + 1, j + n + 1)
  {
    assert s[i + n + 1..j + n + 1] == s[n + 1..][i..j];
  }

  /** A match that starts at or after position `m` is a match in the text from `m` on. */
  lemma MatchInSuffix(s: string, m: nat, i: int, j: int)
    requires m <= i && AnchoredDigitsAt(s, i, j)
    ensures AnchoredDigitsAt(s[m..], i - m, j - m)
  {
    SliceOfSuffix(s, m, i, j);
    assert m < i ==> s[m..][i - m - 1] == s[i - 1];
    assert j < |s| ==> s[m..][j - m] == s[j];
  }

  /** A match that does not start the string lies wholly after the end of the first line. */
  lemma UnshiftMatch(s: string, i: int, j: int)
    requires AnchoredDigitsAt(s, i, j) && i > 0
    ensures var n := LineEnd(s);
      n < |s| && n < i && AnchoredDigitsAt(s[n + 1..], i - n - 1, j - n - 1)
  {
    var n := LineEnd(s);
    assert s[i - 1] == '\n';
    MatchInSuffix(s, n + 1, i, j);
  }

  /** A match that starts the string is exactly the first line. */
  lemma FirstLineMatch(s: string, j: int)
    requires AnchoredDigitsAt(s, 0, j)
    ensures j == LineEnd(s)
  {
  }

  lemma {:induction false} HasDigitLineMatches(s: string)
    ensures HasDigitLine(s) <==> exists i, j :: AnchoredDigitsAt(s, i, j)
    decreases |s|
  {
    var n := LineEnd(s);
    if HasDigitLine(s) {
      if 0 < n && AllDigits(s[..n]) {
        assert AnchoredDigitsAt(s, 0, n);
      } else {
        HasDigitLineMatches(s[n + 1..]);
        var i, j :| AnchoredDigitsAt(s[n + 1..], i, j);
        ShiftMatch(s, n, i, j);
      }
    }
    if exists i, j :: AnchoredDigitsAt(s, i, j) {
      var i, j :| AnchoredDigitsAt(s, i, j);
      if i == 0 {
        FirstLineMatch(s, j);
        assert s[..n] == s[0..j];
      } else {
        UnshiftMatch(s, i, j);
        HasDigitLineMatches(s[n + 1..]);
      }
    }
  }

  /** `valid_id?` succeeds exactly when the line-anchored pattern `^\d+$` matches somewhere. */
  lemma ValidIdIsAnchoredMatch(s: string)
    ensures ValidId(Some(s)) <==> exists i, j :: AnchoredDigitsAt(s, i, j)
  {
    HasDigitLineMatches(s);
  }

  /** Without a '\n', `valid_id?` holds exactly for a non-empty string of digits. */
  lemma ValidIdSingleLine(s: string)
    requires forall k :: 0 <= k < |s| ==> s[k] != '\n'
    ensures ValidId(Some(s)) <==> s != [] && AllDigits(s)
  {
  }

  /** nil and the empty string are rejected, and so are "abc" and "12a". */
  lemma ValidIdRejects()
    ensures !ValidId(None)
    ensures !ValidId(Some(""))
    ensures !ValidId(Some("abc"))
    ensures !ValidId(Some("12a"))
  {
    ValidIdSingleLine("12a");
    assert !IsDigit("12a"[2]);
  }

  /** The line anchors let a multi-line id through on the strength of its second line. */
  lemma ValidIdAcceptsLaterLine()
    ensures ValidId(Some("abc\n12"))
  {
    // The witness and the call below keep solver time stable across seeds.
    var s := "abc\n12";
    assert AnchoredDigitsAt(s, 4, 6);
    ValidIdIsAnchoredMatch(s);
  }
}
