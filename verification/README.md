# FASTA-to-composition converter, modelled in Dafny

This project models `process_fasta_files` from `updated_dataset_creation.py`.
The converter reads the `.txt` files of a folder as FASTA-style text. In that
text a line starting with `>` is a header, and the lines that follow it are
the record's sequence. The record ends at the first blank line, at the next
header, or at the end of the file. Each record with a non-empty sequence
becomes one CSV row. A row has 26 case-insensitive letter counts (A..Z) and a
`Label`, which is the file's name without its folder and without its last
extension. A CSV file is written only when at least one row was collected.

The project has four modules.

- `AsciiText` (`ascii_text.dfy`) holds the string primitives the converter
  relies on:
  - `str.isspace` restricted to ASCII;
  - `str.strip()`, as `Strip`;
  - the `startswith('>')` header test;
  - `str.rfind`.
- `Composition` (`composition.dfy`) holds the composition row, `Counter(sequence.upper())`
  read at every letter of `string.ascii_uppercase` plus the label, as the
  pure function `CompositionRow`. Lemmas cover its keys, its counts, and
  the sum of its counts.
- `FastaScan` (`fasta_scan.dfy`) holds the record scanner.
  - The reference definition is `Records`: one sequence per header line, in
    line order. `FileRows` is the list of rows those sequences give.
  - `ScanFile` is the converter's imperative scanning loop. It is a `while`
    over the index `i` with a nested `while` that builds `sequence` by `+=`
    and appends rows to `all_data`.
  - `ScanFile` is proved to append exactly `FileRows` to the rows it is given.
  - The scanner does not depend on what a row is: the row builder is a
    parameter.
- `DatasetCreation` (`dataset.dfy`) holds the rest:
  - the label derivation, `os.path.basename` and `os.path.splitext`, as
    `Basename`, `SplitExt` and `FileLabel`;
  - the loop over all files;
  - the output gate, as `ProcessFastaFiles`;
  - lemmas about the rows collected from all files.

The folder listing and the file reads are inputs. A file is an `InputFile`:
its path and the lines `readlines()` returns, in the order the listing gives
them. The output is `NoData` or a `Csv` value holding the field names and
the rows.

The scanning loop terminates, and Dafny checks it. The outer loop decreases
`|lines| - i` by at least one on every iteration. The inner loop stops on a
following header without consuming it, so that header is seen by the next
outer iteration.

A file whose blocks begin with a metadata line that does not start with `>`
has no header line. The converter reads no record from such a file and
writes no CSV (`NoHeaderNoRows`, `NoHeadersNoData`).

## Model

| member | source | states |
|---|---|---|
| FastaScan.ScanFile | updated_dataset_creation.py:29-54 | The nested scanning loop appends to `all_data` exactly the rows of the file's non-empty records, in header order, and leaves the rows already collected in front. It terminates. |
| FastaScan.HeaderStep | updated_dataset_creation.py:31-42 | The records from a header on are that header's sequence, the join of the lines the inner loop consumed, followed by the records from the line that stopped the inner loop. None of the consumed lines is a header. The header yields a row only when its sequence is non-empty. |
| FastaScan.JoinStrippedStep | updated_dataset_creation.py:37-39 | Consuming a line that is neither a header nor blank appends its stripped text to the sequence and does not move the end of the body. |
| FastaScan.IndicesWhere | updated_dataset_creation.py:30-31 | The indices whose element passes the test, all of them, strictly ascending, and no more of them than elements scanned. |
| FastaScan.IndicesWhereNone | updated_dataset_creation.py:31 | When no element passes the test, no index is found. |
| FastaScan.BodyEnd | updated_dataset_creation.py:37 | The end of a body lies between its first line and the end of input. |
| FastaScan.BodyEndSpec | updated_dataset_creation.py:37 | The end of a body is the end of input, a header or a blank line, and no line before it is any of those. |
| FastaScan.BodyEndUnique | updated_dataset_creation.py:37 | Those two facts determine the end of a body. |
| FastaScan.BodyUpToFirstTerminator | updated_dataset_creation.py:31-39 | A record's sequence is the concatenation of the stripped lines after its header, up to but not including the first blank line, header or end of input. |
| FastaScan.JoinStrippedEmpty | updated_dataset_creation.py:38 | A concatenation of stripped lines is empty exactly when every one of those lines is blank. |
| FastaScan.EmptyBody | updated_dataset_creation.py:37-42 | A header's sequence is empty exactly when the next line is a blank line or a header, or there is no next line. Such a header yields no row. |
| FastaScan.RecordsFromHeaders | updated_dataset_creation.py:30-31 | From any line on, there is one record per header line, and the k-th record is the body after the k-th header. |
| FastaScan.RecordsFollowHeaders | updated_dataset_creation.py:30-31 | There is one record per header line of the file, in header order. |
| FastaScan.KeptRowsShift | updated_dataset_creation.py:42 | Records placed in front of others do not change the rows the others yield. |
| FastaScan.RowsOfCons | updated_dataset_creation.py:42 | A record yields its own row only when it is non-empty, ahead of the rows of the records after it. |
| FastaScan.KeptRowsFilter | updated_dataset_creation.py:42-52 | From any record on, the rows are the row builder applied to the non-empty records, one each, in order. |
| FastaScan.RowsOfFilters | updated_dataset_creation.py:42-52 | The rows are exactly the row builder applied to the non-empty records, in order. |
| FastaScan.FileRowsFollowHeaders | updated_dataset_creation.py:31-52 | The rows of a file come from header lines whose sequence is non-empty, in strictly ascending header order. Every such header has its row, and there are at most as many rows as header lines. |
| FastaScan.FileRowOrigin | updated_dataset_creation.py:31-52 | Every row of a file is built from the non-empty sequence under one of its header lines. |
| FastaScan.SkipNonHeaders | updated_dataset_creation.py:53-54 | Lines that are not headers, skipped by the outer loop, contribute no record. |
| FastaScan.JoinStrippedAgree | updated_dataset_creation.py:38 | Two files that agree on a run of lines join that run alike. |
| FastaScan.JoinStrippedShift | updated_dataset_creation.py:38 | Lines placed in front do not change the join of later lines. |
| FastaScan.BodyEndShift | updated_dataset_creation.py:37 | Lines placed in front shift the end of a later body by their number. |
| FastaScan.BodyAfterShift | updated_dataset_creation.py:33-39 | Lines placed in front do not change the sequence of a later header. |
| FastaScan.RecordsShift | updated_dataset_creation.py:30-54 | Lines placed in front do not change the records of the lines after them. |
| FastaScan.LeadingLinesIgnored | updated_dataset_creation.py:30-54 | Lines before the first header are outside every record: removing them changes no record. |
| FastaScan.AgreeUpToBlank | updated_dataset_creation.py:37-54 | Two files that agree up to and including a blank line, and read the same records after it, read the same records throughout. |
| FastaScan.BodyBeforeBlankAgrees | updated_dataset_creation.py:37 | A body that starts before a blank line ends at or before it, so files agreeing up to that line read the same body. |
| FastaScan.LinesAfterBlankIgnored | updated_dataset_creation.py:37-54 | Non-header lines after a blank line that ended a record are outside every record: removing them changes no record. |
| AsciiText.StripRange | updated_dataset_creation.py:37-38 | Stripping a slice never makes it longer. |
| AsciiText.Strip | updated_dataset_creation.py:37-38 | `strip()` never makes a line longer. |
| AsciiText.StripRangeEmpty | updated_dataset_creation.py:37-38 | A stripped slice is empty exactly when every character of the slice is whitespace. |
| AsciiText.WidenFront | updated_dataset_creation.py:38 | A whitespace character just before the window joins the leading whitespace that is stripped. |
| AsciiText.WidenBack | updated_dataset_creation.py:38 | A whitespace character just after the window joins the trailing whitespace that is stripped. |
| AsciiText.StripRangeTrims | updated_dataset_creation.py:38 | A non-empty stripped slice runs from the first to the last non-whitespace character of the slice, both kept. |
| AsciiText.StripSpec | updated_dataset_creation.py:37-38 | `strip()` gives an empty string exactly when the line is all whitespace. Otherwise it gives the line from its first to its last non-whitespace character. |
| AsciiText.HeaderIsNotBlank | updated_dataset_creation.py:31-37 | A header line is never blank, because '>' is not whitespace. |
| AsciiText.LastIndexBefore | updated_dataset_creation.py:23-24 | The last occurrence of a character before a bound, or -1 when there is none. |
| AsciiText.RFind | updated_dataset_creation.py:23-24 | `rfind`: the last occurrence of a character, or -1 when there is none. |
| AsciiText.RFindUnique | updated_dataset_creation.py:23-24 | The contract of `rfind` determines its result. |
| Composition.Lower | updated_dataset_creation.py:44 | The lower-case partner of a capital is a lower-case letter whose upper form is that capital. |
| Composition.UpperAll | updated_dataset_creation.py:44 | `upper()` keeps the length and maps every character to its upper form. |
| Composition.LettersAreRange | updated_dataset_creation.py:47 | `string.ascii_uppercase` is the 26 consecutive code points from 'A' to 'Z'. |
| Composition.InLetters | updated_dataset_creation.py:47 | A character is in `ascii_uppercase` exactly when it lies between 'A' and 'Z'. |
| Composition.LettersDistinct | updated_dataset_creation.py:47 | The 26 letters are distinct, so no count is taken twice. |
| Composition.UpperIsCaseInsensitive | updated_dataset_creation.py:44 | A capital is the upper form of exactly itself and its lower-case partner. |
| Composition.UpperInLetters | updated_dataset_creation.py:44-47 | The upper form of a character is a capital exactly when the character is an ASCII letter. |
| Composition.UpperAllSnoc | updated_dataset_creation.py:44 | `upper()` of a string followed by one character is `upper()` of the string followed by that character's upper form. |
| Composition.CounterIsCaseInsensitive | updated_dataset_creation.py:44 | `Counter(sequence.upper())` at a capital counts that letter in both cases. |
| Composition.CompositionRowSpec | updated_dataset_creation.py:44-50 | A row has exactly the keys A..Z. Each count is the number of occurrences of that letter in upper case plus those in lower case. The label is the file's label. |
| Composition.CountIsPositions | updated_dataset_creation.py:44-47 | Each letter's count is the number of positions of the sequence whose upper form is that letter. |
| Composition.CounterIsPositions | updated_dataset_creation.py:44 | The counter at a letter is the number of positions whose upper form is that letter. |
| Composition.PositionsSnoc | updated_dataset_creation.py:44 | Appending a character adds its position to a letter's positions exactly when its upper form is that letter. |
| Composition.LetterCount | updated_dataset_creation.py:44-47 | The number of ASCII letters in a sequence is at most its length. |
| Composition.MultisetTotalAdd | updated_dataset_creation.py:47 | Adding a character raises the total over distinct letters by one exactly when it is one of them. |
| Composition.MultisetTotalIsLetterCount | updated_dataset_creation.py:44-47 | The counter's total over A..Z is the number of ASCII letters of the sequence. |
| Composition.TotalOfRow | updated_dataset_creation.py:47 | Summing a row's counts is summing the counter over the same letters. |
| Composition.RowTotal | updated_dataset_creation.py:38-47 | Characters that are not ASCII letters count under no key. The 26 counts add up to the number of ASCII letters, which is at most the sequence length. |
| DatasetCreation.Basename | updated_dataset_creation.py:23 | `basename` gives the path's final part: it contains no '/', it ends the path, and when it is shorter than the path the character just before it is a '/'. So it is everything after the last '/', and a path without '/' is its own basename. |
| DatasetCreation.SplitExt | updated_dataset_creation.py:24 | `splitext` splits a name into root and extension that give it back. The extension is empty or starts at the last '.' and holds no other '.' and no '/'. It is non-empty exactly when the last '.' follows some character that is not a '.' within the final part. |
| DatasetCreation.FileLabel | updated_dataset_creation.py:22-24 | A label never contains '/'. |
| DatasetCreation.BasenameInFolder | updated_dataset_creation.py:19-23 | The basename of a file in a folder is the file's name. |
| DatasetCreation.LabelOfTxtFile | updated_dataset_creation.py:19-24 | The label of `<folder>/<stem>.txt` is `<stem>`. Dots inside the stem are kept. |
| DatasetCreation.LabelIgnoresFolder | updated_dataset_creation.py:23-24 | The folder a file lies in does not change its label. |
| DatasetCreation.FieldNames | updated_dataset_creation.py:58 | The CSV header is the 26 letters A..Z, in order, then `Label`. |
| DatasetCreation.ProcessFastaFiles | updated_dataset_creation.py:16-58 | Without any row, no CSV is written. Otherwise the CSV has the field names and the rows of all files, file after file. The file loop keeps `all_data` equal to the rows of the files read so far. |
| DatasetCreation.RowFromFile | updated_dataset_creation.py:21-52 | Every collected row is a row of one of the files read. |
| DatasetCreation.RowOrigin | updated_dataset_creation.py:21-52 | Every collected row is the composition row of the non-empty sequence under one header line of one file, labelled with that file's label. |
| DatasetCreation.RowOfFile | updated_dataset_creation.py:29-52 | Every row of one file is the composition row of the non-empty sequence under one of its headers. |
| DatasetCreation.FileRowsLabel | updated_dataset_creation.py:23-50 | All rows read from one file carry that file's label. |
| DatasetCreation.RowLabels | updated_dataset_creation.py:21-50 | Every label in the output is the label of one of the files. |
| DatasetCreation.NoHeaderNoRows | updated_dataset_creation.py:30-54 | A file without a header line contributes no row. |
| DatasetCreation.EmptyFilesNoRows | updated_dataset_creation.py:21-57 | Files that contribute no row leave `all_data` empty. |
| DatasetCreation.NoHeadersNoData | updated_dataset_creation.py:57-67 | When no file has a header line, no CSV is written. |
| DatasetCreation.RowsOfConcatenation | updated_dataset_creation.py:21 | The rows of two file lists read one after the other are the rows of the first followed by those of the second. |
| DatasetCreation.PrefixRows | updated_dataset_creation.py:21 | Files appended after the first `n` do not change the rows of the first `n`. |

## Left out

- `glob.glob`, `open` and `readlines`: file-system I/O. The folder listing, with its order, and each file's lines are inputs (`InputFile`). Which names the `*.txt` pattern matches is not modelled. `LabelOfTxtFile` assumes only what such a name looks like.
- `csv.DictWriter` and the two `print` messages: output plumbing. `Output` records whether a CSV is written and, if so, its field names and rows, not the bytes of the file.
- Python's `dict` keeps insertion order, A..Z and then `Label`. A Dafny `map` has no order; the column order comes from `FieldNames`.
- `str.strip`, `str.isspace` and `str.upper` are modelled on ASCII only. Non-ASCII whitespace is not stripped. Non-ASCII characters whose upper form is an ASCII capital, such as U+0131 and U+017F, are not counted.
- `os.path` is modelled for POSIX paths: '/' is the only separator, and there is no drive or alternative separator.
- `fetch dataset.py` (the crawler) is not part of this model.
- A file that cannot be opened or decoded (a non-UTF-8 file under the default encoding, a directory whose name matches `*.txt`) makes `process_fasta_files` raise, so no CSV is written even when rows were already collected. The model's `InputFile` always carries its lines, so this failure path is not modelled.
- Because whitespace is ASCII only, non-ASCII whitespace also moves record boundaries in the model: in Python a line holding only U+00A0 is blank and ends a record, while the model keeps it in the body and can emit an all-zero row.
- AsciiText.StripRange: its contract states only the length bound. `StripRangeEmpty` and `StripRangeTrims` state what stripping a slice means.
- AsciiText.Strip: its contract states only the length bound. What stripping means is stated by `StripSpec`, so the bound-only contract does not weigh on the lemmas that use `Strip`.
- FastaScan.ScanFile: the final value `i == len(lines)` is not stated. Termination is checked through `decreases`.
