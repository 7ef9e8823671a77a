/**
 * `process_fasta_files`: every `.txt` file of a folder is scanned for FASTA
 * records, each non-empty record becomes a composition row labelled with
 * the file's name without its extension, and the rows of all files, in
 * file order, are written to a CSV file when there is at least one.
 */
module DatasetCreation {
  import opened AsciiText
  import opened Composition
  import opened FastaScan

  // ---------------------------------------------------------------------
  // The label of a file (lines 22-24)
  // ---------------------------------------------------------------------

  /** `os.path.basename(path)` on POSIX paths: everything after the last '/'. */
  function Basename(path: string): (name: string)
    ensures '/' !in name
    ensures exists dir :: path == dir + name
    ensures '/' !in path ==> name == path
    ensures |name| < |path| ==> path[|path| - |name| - 1] == '/'
  {
    var i := RFind(path, '/') + 1;
    assert path == path[..i] + path[i..];
    path[i..]
  }

  /** The condition under which `os.path.splitext` splits `p`: the last '.'
      lies after the last '/' and some character between the two is not a
      '.', so a run of leading dots does not start an extension. */
  predicate HasExtension(p: string) {
    var sep, dot := RFind(p, '/'), RFind(p, '.');
    sep < dot && exists j | sep < j < dot :: p[j] != '.'
  }

  /** `os.path.splitext(p)`: the root and the extension. The extension is
      either empty or starts at the last '.', contains no other '.' and no
      '/'; root and extension put together give `p` back. */
  function SplitExt(p: string): (parts: (string, string))
    ensures parts.0 + parts.1 == p
    ensures parts.1 == [] || (parts.1[0] == '.' && '.' !in parts.1[1..] && '/' !in parts.1)
    ensures parts.1 != [] <==> HasExtension(p)
  {
    if HasExtension(p) then
      var dot := RFind(p, '.');
      assert p == p[..dot] + p[dot..];
      assert forall c | c in p[dot..][1..] :: c != '.' && c != '/' by {
        forall c | c in p[dot..][1..] ensures c != '.' && c != '/' {
          var k :| 0 <= k < |p[dot..][1..]| && p[dot..][1..][k] == c;
          assert p[dot + 1 + k] == c;
        }
      }
      (p[..dot], p[dot..])
    else
      assert p + [] == p;
      (p, [])
  }

  /** `os.path.splitext(os.path.basename(path))[0]`. */
  function FileLabel(path: string): (fileLabel: string)
    ensures '/' !in fileLabel
  {
    SplitExt(Basename(path)).0
  }

  /** The basename of a path in a folder is the name after the folder's
      separator. */
  lemma BasenameInFolder(dir: string, name: string)
    requires '/' !in name
    ensures Basename(dir + "/" + name) == name
  {
    var path := dir + "/" + name;
    assert path == (dir + "/") + name;
    assert forall j | |dir| < j < |path| :: path[j] != '/' by {
      forall j | |dir| < j < |path| ensures path[j] != '/' {
        assert path[j] == name[j - |dir| - 1];
        assert name[j - |dir| - 1] in name;
      }
    }
    RFindUnique(path, '/', |dir|);
    assert path[|dir| + 1..] == name;
  }

  /** The label of a `.txt` file found in a folder is the file's stem: the
      folder part and the final ".txt" are both dropped, and dots inside the
      stem are kept. A stem made only of dots (which a `*.txt` pattern does
      not match, as it skips names that start with a '.') is excluded. */
  lemma LabelOfTxtFile(dir: string, stem: string)
    requires '/' !in stem
    requires exists j | 0 <= j < |stem| :: stem[j] != '.'
    ensures FileLabel(dir + "/" + stem + ".txt") == stem
  {
    var name := stem + ".txt";
    assert '/' !in name by {
      forall j | 0 <= j < |name| ensures name[j] != '/' {
        if j < |stem| {
          assert name[j] == stem[j];
          assert stem[j] in stem;
        }
      }
    }
    assert dir + "/" + stem + ".txt" == dir + "/" + name;
    BasenameInFolder(dir, name);
    RFindUnique(name, '/', -1);
    RFindUnique(name, '.', |stem|);
    var j :| 0 <= j < |stem| && stem[j] != '.';
    assert name[j] == stem[j];
    assert HasExtension(name);
    assert name[..|stem|] == stem;
  }

  /** The folder a file lies in does not change its label. */
  lemma LabelIgnoresFolder(dir: string, name: string)
    requires '/' !in name
    ensures FileLabel(dir + "/" + name) == FileLabel(name)
  {
    BasenameInFolder(dir, name);
  }

  // ---------------------------------------------------------------------
  // All files (lines 16-21, 26-27) and the output gate (lines 56-58)
  // ---------------------------------------------------------------------

  /** One file in the order the folder listing returns it: its path and the
      lines `readlines()` gives, each still ending in its newline. */
  datatype InputFile = InputFile(path: string, lines: seq<string>)

  /** The row built for a sequence read from a file labelled `fileLabel`. */
  function RowBuilder(fileLabel: string): string -> Row {
    sequence => CompositionRow(sequence, fileLabel)
  }

  /** The rows one file contributes, under that file's label. */
  function FileRowsOf(file: InputFile): seq<Row> {
    FileRows(file.lines, RowBuilder(FileLabel(file.path)))
  }

  /** The rows of `files[..n]`, file after file, each file giving
      `rowsOf(file)`. */
  function RowsUpTo(files: seq<InputFile>, rowsOf: InputFile -> seq<Row>, n: nat): seq<Row>
    requires n <= |files|
  {
    if n == 0 then []
    else RowsUpTo(files, rowsOf, n - 1) + rowsOf(files[n - 1])
  }

  /** The reference definition of `all_data` once every file is read. */
  function AllRows(files: seq<InputFile>): seq<Row> {
    RowsUpTo(files, FileRowsOf, |files|)
  }

  /** `list(string.ascii_uppercase) + ['Label']`. */
  function FieldNames(): (names: seq<string>)
    ensures |names| == |Letters| + 1
    ensures forall k | 0 <= k < |Letters| :: names[k] == [Letters[k]]
    ensures names[|Letters|] == "Label"
  {
    seq(|Letters|, k requires 0 <= k < |Letters| => [Letters[k]]) + ["Label"]
  }

  /** What the run leaves behind: nothing when no row was collected,
      otherwise a CSV file with the field names as header and the rows. */
  datatype Output = NoData | Csv(fieldnames: seq<string>, rows: seq<Row>)

  /** The whole conversion over the files in listing order. */
  method ProcessFastaFiles(files: seq<InputFile>) returns (output: Output)
    ensures AllRows(files) == [] ==> output == NoData
    ensures AllRows(files) != [] ==> output == Csv(FieldNames(), AllRows(files))
  {
    var allData: seq<Row> := [];
    for n := 0 to |files|
      invariant allData == RowsUpTo(files, FileRowsOf, n)
    {
      var fileLabel := FileLabel(files[n].path);
      allData := ScanFile(files[n].lines, RowBuilder(fileLabel), allData);
    }
    if allData != [] {
      output := Csv(FieldNames(), allData);
    } else {
      output := NoData;
    }
  }

  // ---------------------------------------------------------------------
  // Properties of the collected rows
  // ---------------------------------------------------------------------

  /** Every row of `files[..n]` is a row of one of those files. */
  lemma {:induction false} RowFromFile(files: seq<InputFile>, rowsOf: InputFile -> seq<Row>, n: nat, m: nat)
    requires n <= |files| && m < |RowsUpTo(files, rowsOf, n)|
    ensures exists f, q | 0 <= f < n && 0 <= q < |rowsOf(files[f])| ::
      RowsUpTo(files, rowsOf, n)[m] == rowsOf(files[f])[q]
  {
    var before := RowsUpTo(files, rowsOf, n - 1);
    if m < |before| {
      RowFromFile(files, rowsOf, n - 1, m);
    } else {
      assert RowsUpTo(files, rowsOf, n)[m] == rowsOf(files[n - 1])[m - |before|];
    }
  }

  /** `row` is the composition row of the non-empty sequence under the
      header line `h` of file `f`, labelled with that file's label. */
  ghost predicate ReadFrom(files: seq<InputFile>, f: nat, h: nat, row: Row)
    requires f < |files| && h < |files[f].lines|
  {
    var lines := files[f].lines;
    IsHeader(lines[h]) && BodyAfter(lines, h) != [] &&
    row == CompositionRow(BodyAfter(lines, h), FileLabel(files[f].path))
  }

  /** Every collected row comes from one header line of one file, whose
      sequence is not empty: it is the composition row of that sequence,
      labelled with that file's label. */
  lemma RowOrigin(files: seq<InputFile>, m: nat)
    requires m < |AllRows(files)|
    ensures exists f, h | 0 <= f < |files| && 0 <= h < |files[f].lines| :: ReadFrom(files, f, h, AllRows(files)[m])
  {
    RowFromFile(files, FileRowsOf, |files|, m);
    var f, q :| 0 <= f < |files| && 0 <= q < |FileRowsOf(files[f])| &&
      AllRows(files)[m] == FileRowsOf(files[f])[q];
    RowOfFile(files, f, q);
    var h :| 0 <= h < |files[f].lines| && ReadFrom(files, f, h, FileRowsOf(files[f])[q]);
    assert ReadFrom(files, f, h, AllRows(files)[m]);
  }

  /** Every row one file contributes is read from one of its header lines. */
  lemma RowOfFile(files: seq<InputFile>, f: nat, q: nat)
    requires f < |files| && q < |FileRowsOf(files[f])|
    ensures exists h | 0 <= h < |files[f].lines| :: ReadFrom(files, f, h, FileRowsOf(files[f])[q])
  {
    var lines, make := files[f].lines, RowBuilder(FileLabel(files[f].path));
    FileRowOrigin(lines, make, q);
    var h :| 0 <= h < |lines| && RowFromHeader(lines, make, h, FileRows(lines, make)[q]);
    assert ReadFrom(files, f, h, FileRowsOf(files[f])[q]);
  }

  /** All rows read from one file carry that file's label. */
  lemma FileRowsLabel(file: InputFile, q: nat)
    requires q < |FileRowsOf(file)|
    ensures FileRowsOf(file)[q].Label == FileLabel(file.path)
  {
    var make := RowBuilder(FileLabel(file.path));
    FileRowOrigin(file.lines, make, q);
    var h :| 0 <= h < |file.lines| && RowFromHeader(file.lines, make, h, FileRows(file.lines, make)[q]);
    CompositionRowSpec(BodyAfter(file.lines, h), FileLabel(file.path));
  }

  /** Each collected row carries the label of the file it was read from,
      so every label in the output is a file's label. */
  lemma RowLabels(files: seq<InputFile>, m: nat)
    requires m < |AllRows(files)|
    ensures exists f | 0 <= f < |files| :: AllRows(files)[m].Label == FileLabel(files[f].path)
  {
    RowOrigin(files, m);
    var f, h :| 0 <= f < |files| && 0 <= h < |files[f].lines| && ReadFrom(files, f, h, AllRows(files)[m]);
    CompositionRowSpec(BodyAfter(files[f].lines, h), FileLabel(files[f].path));
  }

  /** A file without a header line contributes no row. */
  lemma NoHeaderNoRows(file: InputFile)
    requires forall k | 0 <= k < |file.lines| :: !IsHeader(file.lines[k])
    ensures FileRowsOf(file) == []
  {
    var lines := file.lines;
    RecordsFollowHeaders(lines);
    IndicesWhereNone(lines, IsHeader, 0);
    FileRowsFollowHeaders(lines, RowBuilder(FileLabel(file.path)));
  }

  /** Files that give no rows leave `all_data` empty. */
  lemma {:induction false} EmptyFilesNoRows(files: seq<InputFile>, rowsOf: InputFile -> seq<Row>, n: nat)
    requires n <= |files|
    requires forall f | 0 <= f < n :: rowsOf(files[f]) == []
    ensures RowsUpTo(files, rowsOf, n) == []
  {
    if n > 0 {
      EmptyFilesNoRows(files, rowsOf, n - 1);
    }
  }

  /** When no file has a header line, no CSV is written. */
  lemma NoHeadersNoData(files: seq<InputFile>)
    requires forall f, k | 0 <= f < |files| && 0 <= k < |files[f].lines| :: !IsHeader(files[f].lines[k])
    ensures AllRows(files) == []
  {
    forall f | 0 <= f < |files|
      ensures FileRowsOf(files[f]) == []
    {
      NoHeaderNoRows(files[f]);
    }
    EmptyFilesNoRows(files, FileRowsOf, |files|);
  }

  /** Processing files one after another is the same as processing their
      concatenation: the rows of `a + b` are those of `a` followed by those
      of `b`. */
  lemma {:induction false} RowsOfConcatenation(a: seq<InputFile>, b: seq<InputFile>, rowsOf: InputFile -> seq<Row>, n: nat)
    requires n <= |b|
    ensures RowsUpTo(a + b, rowsOf, |a| + n) == RowsUpTo(a, rowsOf, |a|) + RowsUpTo(b, rowsOf, n)
  {
    if n == 0 {
      PrefixRows(a, b, rowsOf, |a|);
      assert RowsUpTo(a, rowsOf, |a|) + [] == RowsUpTo(a, rowsOf, |a|);
    } else {
      RowsOfConcatenation(a, b, rowsOf, n - 1);
      assert (a + b)[|a| + n - 1] == b[n - 1];
    }
  }

  lemma {:induction false} PrefixRows(a: seq<InputFile>, b: seq<InputFile>, rowsOf: InputFile -> seq<Row>, n: nat)
    requires n <= |a|
    ensures RowsUpTo(a + b, rowsOf, n) == RowsUpTo(a, rowsOf, n)
  {
    if n > 0 {
      PrefixRows(a, b, rowsOf, n - 1);
      assert (a + b)[n - 1] == a[n - 1];
    }
  }
}
