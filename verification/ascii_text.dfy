/**
 * ASCII string primitives used by the converter: the whitespace set of
 * Python's `str.strip()` restricted to ASCII, `strip()` itself, the
 * `startswith('>')` header test and `rfind`.
 */
module AsciiText {

  /** Python's `str.isspace()` on ASCII: tab, line feed, vertical tab, form
      feed, carriage return, the four information separators 0x1C-0x1F and
      space. */
  predicate IsSpace(c: char) {
    (9 <= c as int <= 13) || (28 <= c as int <= 32)
  }

  /** `s[a..b].strip()`: drops whitespace from the front, then from the
      back, of the slice `a..b` of `s`. */
  function StripRange(s: string, a: nat, b: nat): (r: string)
    requires a <= b <= |s|
    ensures |r| <= b - a
    decreases b - a
  {
    if a < b && IsSpace(s[a]) then StripRange(s, a + 1, b)
    else if a < b && IsSpace(s[b - 1]) then StripRange(s, a, b - 1)
    else s[a..b]
  }

  /** `s.strip()`: `s` without its leading and trailing whitespace. */
  function Strip(s: string): (r: string)
    ensures |r| <= |s|
  {
    StripRange(s, 0, |s|)
  }

  /** A stripped slice is empty exactly when the slice is all whitespace. */
  lemma {:induction false} StripRangeEmpty(s: string, a: nat, b: nat)
    requires a <= b <= |s|
    ensures StripRange(s, a, b) == [] <==> forall j | a <= j < b :: IsSpace(s[j])
    decreases b - a
  {
    if a < b && IsSpace(s[a]) {
      StripRangeEmpty(s, a + 1, b);
    } else if a < b && IsSpace(s[b - 1]) {
      StripRangeEmpty(s, a, b - 1);
    } else if a < b {
      assert StripRange(s, a, b) == s[a..b];
      assert s[a..b][0] == s[a];
    }
  }

  /** `r` is the slice `i..k` of `s`, which starts and ends with a
      non-whitespace character and leaves only whitespace on either side
      within `a..b`. */
  predicate TrimmedTo(s: string, a: nat, b: nat, r: string, i: nat, k: nat)
    requires a <= i < k <= b <= |s|
  {
    r == s[i..k] && !IsSpace(s[i]) && !IsSpace(s[k - 1]) &&
    (forall j | a <= j < i :: IsSpace(s[j])) && (forall j | k <= j < b :: IsSpace(s[j]))
  }

  /** Whitespace just before the window may join the leading run. */
  lemma WidenFront(s: string, a: nat, b: nat, r: string, i: nat, k: nat)
    requires a < i < k <= b <= |s| && IsSpace(s[a])
    requires TrimmedTo(s, a + 1, b, r, i, k)
    ensures TrimmedTo(s, a, b, r, i, k)
  {
  }

  /** Whitespace just after the window may join the trailing run. */
  lemma WidenBack(s: string, a: nat, b: nat, r: string, i: nat, k: nat)
    requires a <= i < k < b <= |s| && IsSpace(s[b - 1])
    requires TrimmedTo(s, a, b - 1, r, i, k)
    ensures TrimmedTo(s, a, b, r, i, k)
  {
  }

  /** A non-empty stripped slice is the sub-slice from the first to the
      last non-whitespace character, both kept. */
  lemma {:induction false} StripRangeTrims(s: string, a: nat, b: nat)
    requires a <= b <= |s|
    ensures StripRange(s, a, b) != [] ==>
      exists i, k | a <= i < k <= b :: TrimmedTo(s, a, b, StripRange(s, a, b), i, k)
    decreases b - a
  {
    var r := StripRange(s, a, b);
    if a < b && IsSpace(s[a]) {
      StripRangeTrims(s, a + 1, b);
      if r != [] {
        var i, k :| a + 1 <= i < k <= b && TrimmedTo(s, a + 1, b, r, i, k);
        WidenFront(s, a, b, r, i, k);
      }
    } else if a < b && IsSpace(s[b - 1]) {
      StripRangeTrims(s, a, b - 1);
      if r != [] {
        var i, k :| a <= i < k <= b - 1 && TrimmedTo(s, a, b - 1, r, i, k);
        WidenBack(s, a, b, r, i, k);
      }
    } else if a < b {
      assert TrimmedTo(s, a, b, r, a, b);
    }
  }

  /** What `strip()` promises: the result is empty exactly when every
      character is whitespace; otherwise it is the slice of `s` from its
      first to its last non-whitespace character, both kept. */
  lemma StripSpec(s: string)
    ensures Strip(s) == [] <==> forall j | 0 <= j < |s| :: IsSpace(s[j])
    ensures Strip(s) != [] ==> exists i, k | 0 <= i < k <= |s| :: TrimmedTo(s, 0, |s|, Strip(s), i, k)
  {
    StripRangeEmpty(s, 0, |s|);
    StripRangeTrims(s, 0, |s|);
  }

  /** `line.startswith('>')`, tested on the raw line (before stripping). */
  predicate IsHeader(line: string) {
    |line| > 0 && line[0] == '>'
  }

  /** A header line is never blank: '>' is not whitespace. */
  lemma HeaderIsNotBlank(line: string)
    ensures IsHeader(line) ==> Strip(line) != []
  {
    if IsHeader(line) {
      StripRangeEmpty(line, 0, |line|);
      assert !IsSpace(line[0]);
    }
  }

  /** The index of the last occurrence of `c` before `upto`, or -1. */
  function LastIndexBefore(s: string, c: char, upto: nat): (r: int)
    requires upto <= |s|
    ensures -1 <= r < upto
    ensures r >= 0 ==> s[r] == c
    ensures forall j | r < j < upto :: s[j] != c
  {
    if upto == 0 then -1
    else if s[upto - 1] == c then upto - 1
    else LastIndexBefore(s, c, upto - 1)
  }

  /** `s.rfind(c)`: the index of the last occurrence of `c`, or -1. */
  function RFind(s: string, c: char): (r: int)
    ensures -1 <= r < |s|
    ensures r >= 0 ==> s[r] == c
    ensures forall j | r < j < |s| :: s[j] != c
  {
    LastIndexBefore(s, c, |s|)
  }

  /** The contract of RFind determines its result: the last `c` is unique. */
  lemma RFindUnique(s: string, c: char, k: int)
    requires -1 <= k < |s|
    requires k >= 0 ==> s[k] == c
    requires forall j | k < j < |s| :: s[j] != c
    ensures RFind(s, c) == k
  {
  }
}
