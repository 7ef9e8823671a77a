/**
 * The record scanner of `process_fasta_files`: a `>` header line opens a
 * record whose sequence is the concatenation of the stripped lines after
 * it, up to the first blank line, the next header or the end of input.
 *
 * `Records` is the reference definition (one sequence per header line, in
 * line order) and `FileRows` the rows it yields; `ScanFile` is the
 * index-driven loop of the converter, proved to produce exactly those rows.
 */
module FastaScan {
  import opened AsciiText

  /** The indices `k` of `s`, from `from` on, whose element satisfies `p`,
      in ascending order. */
  function IndicesWhere<T>(s: seq<T>, p: T -> bool, from: nat): (idx: seq<nat>)
    requires from <= |s|
    ensures |idx| <= |s| - from
    ensures forall m | 0 <= m < |idx| :: from <= idx[m] < |s| && p(s[idx[m]])
    ensures forall m, n | 0 <= m < n < |idx| :: idx[m] < idx[n]
    ensures forall k {:trigger k in idx} | from <= k < |s| && p(s[k]) :: k in idx
    decreases |s| - from
  {
    if from == |s| then []
    else (if p(s[from]) then [from] else []) + IndicesWhere(s, p, from + 1)
  }

  /** No element from `from` on satisfies `p`: no index is found. */
  lemma {:induction false} IndicesWhereNone<T>(s: seq<T>, p: T -> bool, from: nat)
    requires from <= |s|
    requires forall k | from <= k < |s| :: !p(s[k])
    ensures IndicesWhere(s, p, from) == []
    decreases |s| - from
  {
    if from < |s| {
      IndicesWhereNone(s, p, from + 1);
    }
  }

  /** The header lines of a file, by index. */
  function HeaderIndices(lines: seq<string>): seq<nat> {
    IndicesWhere(lines, IsHeader, 0)
  }

  /** A line that stops the inner loop (line 37): a header, or a line that
      is blank once stripped. */
  predicate StopsBody(line: string) {
    IsHeader(line) || Strip(line) == []
  }

  /** Position `k` ends a body: the end of input, or a line that stops it. */
  predicate EndsBody(lines: seq<string>, k: nat)
    requires k <= |lines|
  {
    k == |lines| || StopsBody(lines[k])
  }

  /** The first position at or after `from` that ends a body. */
  function BodyEnd(lines: seq<string>, from: nat): (k: nat)
    requires from <= |lines|
    ensures from <= k <= |lines|
    decreases |lines| - from
  {
    if EndsBody(lines, from) then from else BodyEnd(lines, from + 1)
  }

  /** BodyEnd ends the body, and no line before it does. */
  lemma {:induction false} BodyEndSpec(lines: seq<string>, from: nat)
    requires from <= |lines|
    ensures EndsBody(lines, BodyEnd(lines, from))
    ensures forall j | from <= j < BodyEnd(lines, from) :: !StopsBody(lines[j])
    decreases |lines| - from
  {
    if !EndsBody(lines, from) {
      BodyEndSpec(lines, from + 1);
    }
  }

  /** The first position that ends the body is unique, so the two facts of
      BodyEndSpec determine BodyEnd. */
  lemma {:induction false} BodyEndUnique(lines: seq<string>, from: nat, k: nat)
    requires from <= k <= |lines| && EndsBody(lines, k)
    requires forall j | from <= j < k :: !StopsBody(lines[j])
    ensures BodyEnd(lines, from) == k
    decreases k - from
  {
    if from < k {
      assert !StopsBody(lines[from]);
      BodyEndUnique(lines, from + 1, k);
    }
  }

  /** `sequence += line.strip()` over the lines `from` to `to` - 1, in order. */
  function JoinStripped(lines: seq<string>, from: nat, until: nat): string
    requires from <= until <= |lines|
    decreases until
  {
    if from == until then [] else JoinStripped(lines, from, until - 1) + Strip(lines[until - 1])
  }

  /** The sequence of the record whose header is line `h`. */
  function BodyAfter(lines: seq<string>, h: nat): string
    requires h < |lines|
  {
    JoinStripped(lines, h + 1, BodyEnd(lines, h + 1))
  }

  /** One sequence per header line from `from` on, in line order. */
  function RecordsFrom(lines: seq<string>, from: nat): seq<string>
    requires from <= |lines|
    decreases |lines| - from
  {
    if from == |lines| then []
    else (if IsHeader(lines[from]) then [BodyAfter(lines, from)] else []) + RecordsFrom(lines, from + 1)
  }

  /** The reference definition of what the scanner reads: one sequence per
      header line of the file, in line order. */
  function Records(lines: seq<string>): seq<string> {
    RecordsFrom(lines, 0)
  }

  /** The rows for the records from index `from` on: `makeRow` of every
      non-empty sequence (line 42), in order. */
  function KeptRows<R>(records: seq<string>, makeRow: string -> R, from: nat): seq<R>
    requires from <= |records|
    decreases |records| - from
  {
    if from == |records| then []
    else (if records[from] == [] then [] else [makeRow(records[from])]) + KeptRows(records, makeRow, from + 1)
  }

  function RowsOf<R>(records: seq<string>, makeRow: string -> R): seq<R> {
    KeptRows(records, makeRow, 0)
  }

  /** The rows one file contributes. */
  function FileRows<R>(lines: seq<string>, makeRow: string -> R): seq<R> {
    RowsOf(Records(lines), makeRow)
  }

  // ---------------------------------------------------------------------
  // The scanning loop (lines 29-54)
  // ---------------------------------------------------------------------

  /** Scans the lines of one file, appending `makeRow(sequence)` to
      `allData` for every header whose sequence is not empty. Each outer
      iteration advances `i` by at least one; the inner loop stops on a
      following header without consuming it, so that header is examined
      by the next outer iteration. */
  method ScanFile<R>(lines: seq<string>, makeRow: string -> R, allData: seq<R>) returns (result: seq<R>)
    ensures result == allData + FileRows(lines, makeRow)
  {
    result := allData;
    var i := 0;
    while i < |lines|
      invariant 0 <= i <= |lines|
      invariant result + RowsOf(RecordsFrom(lines, i), makeRow) == allData + FileRows(lines, makeRow)
      decreases |lines| - i
    {
      if IsHeader(lines[i]) {
        ghost var header := i;
        var sequence := "";
        i := i + 1;
        while i < |lines| && !IsHeader(lines[i]) && Strip(lines[i]) != []
          invariant header + 1 <= i <= |lines|
          invariant BodyEnd(lines, header + 1) == BodyEnd(lines, i)
          invariant sequence == JoinStripped(lines, header + 1, i)
          decreases |lines| - i
        {
          JoinStrippedStep(lines, header + 1, i);
          sequence := sequence + Strip(lines[i]);
          i := i + 1;
        }
        HeaderStep(lines, makeRow, header, i);
        if sequence != [] {
          var row := makeRow(sequence);
          assert result + [row] + RowsOf(RecordsFrom(lines, i), makeRow)
            == result + ([row] + RowsOf(RecordsFrom(lines, i), makeRow));
          result := result + [row];
        }
      } else {
        SkipNonHeaders(lines, i, i + 1);
        i := i + 1;
      }
    }
  }

  /** One more line joins one more stripped piece, and, not ending the
      body, leaves the body's end where it was. */
  lemma JoinStrippedStep(lines: seq<string>, from: nat, i: nat)
    requires from <= i < |lines| && !StopsBody(lines[i])
    ensures JoinStripped(lines, from, i + 1) == JoinStripped(lines, from, i) + Strip(lines[i])
    ensures BodyEnd(lines, i) == BodyEnd(lines, i + 1)
  {
  }

  /** A header whose body runs up to line `i` contributes the row of that
      body, if it is not empty, and the records from line `i` on follow. */
  lemma HeaderStep<R>(lines: seq<string>, makeRow: string -> R, header: nat, i: nat)
    requires header < i <= |lines| && IsHeader(lines[header]) && BodyEnd(lines, header + 1) == i
    ensures var sequence := JoinStripped(lines, header + 1, i);
      sequence != [] ==>
        RowsOf(RecordsFrom(lines, header), makeRow) == [makeRow(sequence)] + RowsOf(RecordsFrom(lines, i), makeRow)
    ensures JoinStripped(lines, header + 1, i) == [] ==>
      RowsOf(RecordsFrom(lines, header), makeRow) == RowsOf(RecordsFrom(lines, i), makeRow)
    ensures RecordsFrom(lines, header) == [JoinStripped(lines, header + 1, i)] + RecordsFrom(lines, i)
    ensures forall j | header < j < i :: !IsHeader(lines[j])
  {
    BodyEndSpec(lines, header + 1);
    SkipNonHeaders(lines, header + 1, i);
    RowsOfCons(BodyAfter(lines, header), RecordsFrom(lines, i), makeRow);
    assert [] + RowsOf(RecordsFrom(lines, i), makeRow) == RowsOf(RecordsFrom(lines, i), makeRow);
  }

  /** Prepending records shifts their positions and changes no row. */
  lemma {:induction false} KeptRowsShift<R>(pre: seq<string>, records: seq<string>, makeRow: string -> R, from: nat)
    requires from <= |records|
    ensures KeptRows(pre + records, makeRow, |pre| + from) == KeptRows(records, makeRow, from)
    decreases |records| - from
  {
    var whole := pre + records;
    if from < |records| {
      var x := records[from];
      assert whole[|pre| + from] == x;
      KeptRowsShift(pre, records, makeRow, from + 1);
      calc {
        KeptRows(whole, makeRow, |pre| + from);
        (if x == [] then [] else [makeRow(x)]) + KeptRows(whole, makeRow, |pre| + (from + 1));
        (if x == [] then [] else [makeRow(x)]) + KeptRows(records, makeRow, from + 1);
        KeptRows(records, makeRow, from);
      }
    }
  }

  lemma RowsOfCons<R>(x: string, rest: seq<string>, makeRow: string -> R)
    ensures RowsOf([x] + rest, makeRow) == (if x == [] then [] else [makeRow(x)]) + RowsOf(rest, makeRow)
  {
    KeptRowsShift([x], rest, makeRow, 0);
  }

  // ---------------------------------------------------------------------
  // Properties of the reference definition
  // ---------------------------------------------------------------------

  /** A record's sequence is the concatenation of the stripped lines after
      its header, up to but not including the first blank line, header or
      end of input. */
  lemma BodyUpToFirstTerminator(lines: seq<string>, h: nat, k: nat)
    requires h < k <= |lines| && EndsBody(lines, k)
    requires forall j | h + 1 <= j < k :: !IsHeader(lines[j]) && Strip(lines[j]) != []
    ensures BodyAfter(lines, h) == JoinStripped(lines, h + 1, k)
  {
    BodyEndUnique(lines, h + 1, k);
  }

  lemma {:induction false} JoinStrippedEmpty(lines: seq<string>, from: nat, until: nat)
    requires from <= until <= |lines|
    ensures JoinStripped(lines, from, until) == [] <==> (forall j | from <= j < until :: Strip(lines[j]) == [])
    decreases until
  {
    if from < until {
      JoinStrippedEmpty(lines, from, until - 1);
    }
  }

  /** A header's sequence is empty exactly when the line right after it is
      blank, another header, or missing; such a header yields no row. */
  lemma EmptyBody(lines: seq<string>, h: nat)
    requires h < |lines|
    ensures BodyAfter(lines, h) == [] <==> EndsBody(lines, h + 1)
  {
    BodyEndSpec(lines, h + 1);
    JoinStrippedEmpty(lines, h + 1, BodyEnd(lines, h + 1));
  }

  /** Every header line from `from` on contributes exactly one record, in
      header order: the k-th record is the body after the k-th header. */
  lemma {:induction false} RecordsFromHeaders(lines: seq<string>, from: nat)
    requires from <= |lines|
    ensures |RecordsFrom(lines, from)| == |IndicesWhere(lines, IsHeader, from)|
    ensures forall k | 0 <= k < |RecordsFrom(lines, from)| ::
      RecordsFrom(lines, from)[k] == BodyAfter(lines, IndicesWhere(lines, IsHeader, from)[k])
    decreases |lines| - from
  {
    if from < |lines| {
      RecordsFromHeaders(lines, from + 1);
      var rest, restHs := RecordsFrom(lines, from + 1), IndicesWhere(lines, IsHeader, from + 1);
      var recs, hs := RecordsFrom(lines, from), IndicesWhere(lines, IsHeader, from);
      if IsHeader(lines[from]) {
        forall k | 1 <= k < |recs|
          ensures recs[k] == BodyAfter(lines, hs[k])
        {
          assert recs[k] == rest[k - 1] && hs[k] == restHs[k - 1];
        }
      } else {
        assert recs == rest && hs == restHs;
      }
    }
  }

  /** Every header line contributes exactly one record, in header order. */
  lemma RecordsFollowHeaders(lines: seq<string>)
    ensures |Records(lines)| == |HeaderIndices(lines)|
    ensures forall k | 0 <= k < |Records(lines)| ::
      Records(lines)[k] == BodyAfter(lines, HeaderIndices(lines)[k])
  {
    RecordsFromHeaders(lines, 0);
  }

  predicate NonEmpty(s: string) {
    s != []
  }

  /** The rows from index `from` on are `makeRow` of the non-empty records
      from `from` on, in order. */
  lemma {:induction false} KeptRowsFilter<R>(records: seq<string>, makeRow: string -> R, from: nat)
    requires from <= |records|
    ensures |KeptRows(records, makeRow, from)| == |IndicesWhere(records, NonEmpty, from)|
    ensures forall m | 0 <= m < |KeptRows(records, makeRow, from)| ::
      KeptRows(records, makeRow, from)[m] == makeRow(records[IndicesWhere(records, NonEmpty, from)[m]])
    decreases |records| - from
  {
    if from < |records| {
      KeptRowsFilter(records, makeRow, from + 1);
      var rest, restKept := KeptRows(records, makeRow, from + 1), IndicesWhere(records, NonEmpty, from + 1);
      var rows, kept := KeptRows(records, makeRow, from), IndicesWhere(records, NonEmpty, from);
      if records[from] == [] {
        assert rows == rest && kept == restKept;
      } else {
        forall m | 1 <= m < |rows|
          ensures rows[m] == makeRow(records[kept[m]])
        {
          assert rows[m] == rest[m - 1] && kept[m] == restKept[m - 1];
        }
      }
    }
  }

  /** RowsOf keeps exactly the non-empty records, in their order. */
  lemma RowsOfFilters<R>(records: seq<string>, makeRow: string -> R)
    ensures |RowsOf(records, makeRow)| == |IndicesWhere(records, NonEmpty, 0)|
    ensures forall m | 0 <= m < |RowsOf(records, makeRow)| ::
      RowsOf(records, makeRow)[m] == makeRow(records[IndicesWhere(records, NonEmpty, 0)[m]])
  {
    KeptRowsFilter(records, makeRow, 0);
  }

  /** The rows of a file, in order, are the rows of the headers with a
      non-empty sequence, in header order: `kept` numbers those headers
      among all header lines `hs`, so there are at most as many rows as
      header lines, and every header with a non-empty sequence has its
      row. */
  lemma FileRowsFollowHeaders<R>(lines: seq<string>, makeRow: string -> R)
    ensures var hs, rows := HeaderIndices(lines), FileRows(lines, makeRow);
      var kept := IndicesWhere(Records(lines), NonEmpty, 0);
      |Records(lines)| == |hs| && |rows| == |kept| <= |hs| &&
      (forall m | 0 <= m < |rows| ::
        IsHeader(lines[hs[kept[m]]]) && BodyAfter(lines, hs[kept[m]]) != [] &&
        rows[m] == makeRow(BodyAfter(lines, hs[kept[m]]))) &&
      (forall m, n | 0 <= m < n < |rows| :: hs[kept[m]] < hs[kept[n]]) &&
      (forall k | 0 <= k < |hs| && BodyAfter(lines, hs[k]) != [] :: k in kept)
  {
    RecordsFollowHeaders(lines);
    RowsOfFilters(Records(lines), makeRow);
  }

  /** The row `row` is built by `makeRow` from the non-empty body of the
      header line `h`. */
  ghost predicate RowFromHeader<R>(lines: seq<string>, makeRow: string -> R, h: nat, row: R)
    requires h < |lines|
  {
    IsHeader(lines[h]) && BodyAfter(lines, h) != [] && row == makeRow(BodyAfter(lines, h))
  }

  /** Every row of a file is built from the non-empty body of one of its
      header lines. */
  lemma FileRowOrigin<R>(lines: seq<string>, makeRow: string -> R, q: nat)
    requires q < |FileRows(lines, makeRow)|
    ensures exists h | 0 <= h < |lines| :: RowFromHeader(lines, makeRow, h, FileRows(lines, makeRow)[q])
  {
    FileRowsFollowHeaders(lines, makeRow);
    var hs, kept := HeaderIndices(lines), IndicesWhere(Records(lines), NonEmpty, 0);
    var h := hs[kept[q]];
    assert RowFromHeader(lines, makeRow, h, FileRows(lines, makeRow)[q]);
  }

  // ---------------------------------------------------------------------
  // Lines outside every record are ignored
  // ---------------------------------------------------------------------

  lemma {:induction false} SkipNonHeaders(lines: seq<string>, from: nat, upto: nat)
    requires from <= upto <= |lines|
    requires forall j | from <= j < upto :: !IsHeader(lines[j])
    ensures RecordsFrom(lines, from) == RecordsFrom(lines, upto)
    decreases upto - from
  {
    if from < upto {
      SkipNonHeaders(lines, from + 1, upto);
    }
  }

  /** Two files that agree on a run of lines join that run alike. */
  lemma {:induction false} JoinStrippedAgree(l1: seq<string>, l2: seq<string>, from: nat, until: nat)
    requires from <= until <= |l1| && until <= |l2|
    requires forall j | from <= j < until :: l1[j] == l2[j]
    ensures JoinStripped(l1, from, until) == JoinStripped(l2, from, until)
    decreases until
  {
    if from < until {
      JoinStrippedAgree(l1, l2, from, until - 1);
    }
  }

  /** Prepending lines shifts a run of lines without changing its join. */
  lemma {:induction false} JoinStrippedShift(pre: seq<string>, ls: seq<string>, from: nat, until: nat)
    requires from <= until <= |ls|
    ensures JoinStripped(pre + ls, |pre| + from, |pre| + until) == JoinStripped(ls, from, until)
    decreases until
  {
    if from < until {
      JoinStrippedShift(pre, ls, from, until - 1);
      assert (pre + ls)[|pre| + until - 1] == ls[until - 1];
    }
  }

  /** Prepending lines moves a body's end by the same amount. */
  lemma BodyEndShift(pre: seq<string>, ls: seq<string>, from: nat)
    requires from <= |ls|
    ensures BodyEnd(pre + ls, |pre| + from) == |pre| + BodyEnd(ls, from)
  {
    BodyEndSpec(ls, from);
    BodyEndUnique(pre + ls, |pre| + from, |pre| + BodyEnd(ls, from));
  }

  /** Prepending lines changes no record's sequence. */
  lemma BodyAfterShift(pre: seq<string>, ls: seq<string>, h: nat)
    requires h < |ls|
    ensures BodyAfter(pre + ls, |pre| + h) == BodyAfter(ls, h)
  {
    BodyEndShift(pre, ls, h + 1);
    JoinStrippedShift(pre, ls, h + 1, BodyEnd(ls, h + 1));
  }

  /** Prepending lines shifts every record position and changes no record. */
  lemma {:induction false} RecordsShift(pre: seq<string>, ls: seq<string>, from: nat)
    requires from <= |ls|
    ensures RecordsFrom(pre + ls, |pre| + from) == RecordsFrom(ls, from)
    decreases |ls| - from
  {
    if from < |ls| {
      RecordsShift(pre, ls, from + 1);
      assert (pre + ls)[|pre| + from] == ls[from];
      if IsHeader(ls[from]) {
        BodyAfterShift(pre, ls, from);
      }
    }
  }

  /** Lines before the first header are outside every record. */
  lemma LeadingLinesIgnored(junk: seq<string>, rest: seq<string>)
    requires forall j | 0 <= j < |junk| :: !IsHeader(junk[j])
    ensures Records(junk + rest) == Records(rest)
  {
    var whole := junk + rest;
    assert forall j | 0 <= j < |junk| :: whole[j] == junk[j];
    SkipNonHeaders(whole, 0, |junk|);
    RecordsShift(junk, rest, 0);
  }

  /** Two files that agree up to and including a blank line at `n` have the
      same records from any `from` <= `n` on, once they have the same
      records after the blank line: no body reaches past it. */
  lemma {:induction false} AgreeUpToBlank(l1: seq<string>, l2: seq<string>, n: nat, from: nat)
    requires from <= n < |l1| && n < |l2|
    requires Strip(l1[n]) == []
    requires forall j | 0 <= j <= n :: l1[j] == l2[j]
    requires RecordsFrom(l1, n + 1) == RecordsFrom(l2, n + 1)
    ensures RecordsFrom(l1, from) == RecordsFrom(l2, from)
    decreases n - from
  {
    if from < n {
      AgreeUpToBlank(l1, l2, n, from + 1);
      if IsHeader(l1[from]) {
        BodyBeforeBlankAgrees(l1, l2, n, from);
      }
      assert l2[from] == l1[from];
    } else {
      HeaderIsNotBlank(l1[n]);
      assert l2[n] == l1[n];
    }
  }

  /** A body that starts before a blank line ends at or before it, so two
      files that agree up to that line read the same body there. */
  lemma BodyBeforeBlankAgrees(l1: seq<string>, l2: seq<string>, n: nat, h: nat)
    requires h < n < |l1| && n < |l2|
    requires Strip(l1[n]) == []
    requires forall j | 0 <= j <= n :: l1[j] == l2[j]
    ensures BodyAfter(l1, h) == BodyAfter(l2, h)
  {
    var e := BodyEnd(l1, h + 1);
    BodyEndSpec(l1, h + 1);
    assert e <= n;
    BodyEndUnique(l2, h + 1, e);
    JoinStrippedAgree(l1, l2, h + 1, e);
  }

  /** Lines after a blank line, up to the next header, are outside every
      record: removing them changes no record. */
  lemma LinesAfterBlankIgnored(a: seq<string>, blank: string, junk: seq<string>, rest: seq<string>)
    requires Strip(blank) == []
    requires forall j | 0 <= j < |junk| :: !IsHeader(junk[j])
    ensures Records(a + [blank] + junk + rest) == Records(a + [blank] + rest)
  {
    var l1, l2 := a + [blank] + junk + rest, a + [blank] + rest;
    var n := |a|;
    assert l1 == (a + [blank] + junk) + rest;
    assert l2 == (a + [blank]) + rest;
    assert l1 == (a + [blank]) + (junk + rest);
    SkipNonHeaders(l1, n + 1, n + 1 + |junk|);
    RecordsShift(a + [blank] + junk, rest, 0);
    RecordsShift(a + [blank], rest, 0);
    assert l1[n] == blank;
    AgreeUpToBlank(l1, l2, n, 0);
  }
}
