/**
 * The per-letter composition row: `Counter(sequence.upper())` followed by a
 * dict comprehension over `string.ascii_uppercase`, plus the `Label` entry.
 */
module Composition {

  /** `string.ascii_uppercase`, in order. */
  const Letters: string := "ABCDEFGHIJKLMNOPQRSTUVWXYZ"

  predicate IsAsciiLetter(c: char) {
    ('A' <= c <= 'Z') || ('a' <= c <= 'z')
  }

  /** `str.upper()` on one character, ASCII only. */
  function Upper(c: char): char {
    if 'a' <= c <= 'z' then (c as int - 32) as char else c
  }

  /** The lower-case partner of an upper-case ASCII letter. */
  function Lower(c: char): (l: char)
    requires 'A' <= c <= 'Z'
    ensures 'a' <= l <= 'z' && Upper(l) == c
  {
    (c as int + 32) as char
  }

  /** `sequence.upper()`. */
  function UpperAll(s: string): (u: string)
    ensures |u| == |s|
    ensures forall i | 0 <= i < |s| :: u[i] == Upper(s[i])
  {
    seq(|s|, i requires 0 <= i < |s| => Upper(s[i]))
  }

  /** One CSV row: a count per letter A..Z and the file's label. */
  datatype Row = Row(counts: map<char, nat>, Label: string)

  /** `string.ascii_uppercase` is the run of code points from 'A' to 'Z'. */
  lemma LettersAreRange()
    ensures |Letters| == 26
    ensures forall i | 0 <= i < |Letters| :: Letters[i] as int == 'A' as int + i
  {
  }

  lemma InLetters(c: char)
    ensures c in Letters <==> 'A' <= c <= 'Z'
  {
    LettersAreRange();
    if 'A' <= c <= 'Z' {
      assert Letters[c as int - 'A' as int] == c;
    }
  }

  /** Letters are 26 distinct characters. */
  lemma LettersDistinct()
    ensures |Letters| == 26
    ensures forall i, j | 0 <= i < j < |Letters| :: Letters[i] != Letters[j]
  {
  }

  /** An upper-case letter `L` is the upper form of exactly `L` and its
      lower-case partner. */
  lemma UpperIsCaseInsensitive(c: char, l: char)
    requires 'A' <= l <= 'Z'
    ensures Upper(c) == l <==> c == l || c == Lower(l)
  {
  }

  /** The upper form of a character is an ASCII capital exactly when the
      character is an ASCII letter. */
  lemma UpperInLetters(c: char)
    ensures Upper(c) in Letters <==> IsAsciiLetter(c)
  {
    InLetters(Upper(c));
  }

  lemma UpperAllSnoc(s: string, c: char)
    ensures UpperAll(s + [c]) == UpperAll(s) + [Upper(c)]
  {
  }

  /** The number of occurrences of `l` or its lower-case partner in `s` is
      the number of occurrences of `l` in `s.upper()`. */
  lemma {:induction false} CounterIsCaseInsensitive(s: string, l: char)
    requires 'A' <= l <= 'Z'
    ensures multiset(UpperAll(s))[l] == multiset(s)[l] + multiset(s)[Lower(l)]
  {
    if s != [] {
      var t, c := s[..|s| - 1], s[|s| - 1];
      assert s == t + [c];
      CounterIsCaseInsensitive(t, l);
      UpperAllSnoc(t, c);
      UpperIsCaseInsensitive(c, l);
      assert multiset(UpperAll(s)) == multiset(UpperAll(t)) + multiset{Upper(c)};
      assert multiset(s) == multiset(t) + multiset{c};
    }
  }

  /** The row built from `sequence` and `fileLabel` (lines 44-50):
      `Counter(sequence.upper())` read at every capital A..Z (the letters
      of `string.ascii_uppercase`, by InLetters), and the label. */
  function CompositionRow(sequence: string, fileLabel: string): Row {
    var counter := multiset(UpperAll(sequence));
    Row(map l: char | 'A' <= l <= 'Z' :: counter[l], fileLabel)
  }

  /** A composition row has exactly the keys A..Z, each counting that
      letter in either case, and carries the label it was given. */
  lemma CompositionRowSpec(sequence: string, fileLabel: string)
    ensures CompositionRow(sequence, fileLabel).counts.Keys == set l | l in Letters
    ensures forall l | l in CompositionRow(sequence, fileLabel).counts ::
      CompositionRow(sequence, fileLabel).counts[l] == multiset(sequence)[l] + multiset(sequence)[Lower(l)]
    ensures CompositionRow(sequence, fileLabel).Label == fileLabel
  {
    var row := CompositionRow(sequence, fileLabel);
    forall l
      ensures l in row.counts <==> l in Letters
    {
      InLetters(l);
    }
    forall l | l in row.counts
      ensures row.counts[l] == multiset(sequence)[l] + multiset(sequence)[Lower(l)]
    {
      InLetters(l);
      CounterIsCaseInsensitive(sequence, l);
    }
  }

  /** Positions of `s` whose upper-case form is `l`. */
  function Positions(s: string, l: char): set<int> {
    set i | 0 <= i < |s| && Upper(s[i]) == l
  }

  /** Each letter's count is the number of positions of the sequence whose
      upper-case form is that letter. */
  lemma {:induction false} CountIsPositions(sequence: string, fileLabel: string, l: char)
    requires l in Letters
    ensures CompositionRow(sequence, fileLabel).counts[l] == |Positions(sequence, l)|
  {
    InLetters(l);
    CounterIsPositions(sequence, l);
  }

  lemma {:induction false} CounterIsPositions(s: string, l: char)
    ensures multiset(UpperAll(s))[l] == |Positions(s, l)|
  {
    if s == [] {
      assert Positions(s, l) == {};
    } else {
      var t, c := s[..|s| - 1], s[|s| - 1];
      assert s == t + [c];
      CounterIsPositions(t, l);
      UpperAllSnoc(t, c);
      assert multiset(UpperAll(s)) == multiset(UpperAll(t)) + multiset{Upper(c)};
      PositionsSnoc(t, c, l);
    }
  }

  lemma PositionsSnoc(t: string, c: char, l: char)
    ensures Positions(t + [c], l) == Positions(t, l) + (if Upper(c) == l then {|t|} else {})
    ensures |t| !in Positions(t, l)
  {
    var s := t + [c];
    forall i | 0 <= i < |t|
      ensures s[i] == t[i]
    {
    }
  }

  /** The number of ASCII letters in `s`. */
  function LetterCount(s: string): (n: nat)
    ensures n <= |s|
  {
    if s == [] then 0
    else LetterCount(s[..|s| - 1]) + (if IsAsciiLetter(s[|s| - 1]) then 1 else 0)
  }

  /** The sum of a row's counts over the letters `ls`. A letter that is
      not a key adds 0; a composition row has every letter as a key
      (CompositionRowSpec), so for it the sum is over its own counts. */
  function Total(ls: string, counts: map<char, nat>): nat {
    if ls == [] then 0
    else (if ls[0] in counts then counts[ls[0]] else 0) + Total(ls[1..], counts)
  }

  function MultisetTotal(ls: string, m: multiset<char>): nat {
    if ls == [] then 0 else m[ls[0]] + MultisetTotal(ls[1..], m)
  }

  lemma {:induction false} MultisetTotalAdd(ls: string, m: multiset<char>, x: char)
    requires forall i, j | 0 <= i < j < |ls| :: ls[i] != ls[j]
    ensures MultisetTotal(ls, m + multiset{x}) == MultisetTotal(ls, m) + (if x in ls then 1 else 0)
  {
    if ls != [] {
      MultisetTotalAdd(ls[1..], m, x);
      assert x in ls <==> x == ls[0] || x in ls[1..];
      assert ls[0] !in ls[1..];
    }
  }

  lemma {:induction false} MultisetTotalEmpty(ls: string)
    ensures MultisetTotal(ls, multiset{}) == 0
  {
    if ls != [] {
      MultisetTotalEmpty(ls[1..]);
    }
  }

  lemma {:induction false} MultisetTotalIsLetterCount(s: string)
    ensures MultisetTotal(Letters, multiset(UpperAll(s))) == LetterCount(s)
  {
    if s == [] {
      MultisetTotalEmpty(Letters);
    } else {
      var t, c := s[..|s| - 1], s[|s| - 1];
      assert s == t + [c];
      MultisetTotalIsLetterCount(t);
      UpperAllSnoc(t, c);
      assert multiset(UpperAll(s)) == multiset(UpperAll(t)) + multiset{Upper(c)};
      LettersDistinct();
      MultisetTotalAdd(Letters, multiset(UpperAll(t)), Upper(c));
      UpperInLetters(c);
      assert LetterCount(s) == LetterCount(t) + (if IsAsciiLetter(c) then 1 else 0);
    }
  }

  lemma {:induction false} TotalOfRow(ls: string, sequence: string, fileLabel: string)
    requires forall l | l in ls :: l in Letters
    ensures Total(ls, CompositionRow(sequence, fileLabel).counts) == MultisetTotal(ls, multiset(UpperAll(sequence)))
  {
    if ls != [] {
      assert ls[0] in ls;
      InLetters(ls[0]);
      TotalOfRow(ls[1..], sequence, fileLabel);
    }
  }

  /** Characters that are not ASCII letters (digits, '*', '-', interior
      spaces) are counted under no key: the 26 counts add up to the number
      of ASCII letters, which is at most the sequence length. */
  lemma RowTotal(sequence: string, fileLabel: string)
    ensures Total(Letters, CompositionRow(sequence, fileLabel).counts) == LetterCount(sequence) <= |sequence|
  {
    TotalOfRow(Letters, sequence, fileLabel);
    MultisetTotalIsLetterCount(sequence);
  }
}
