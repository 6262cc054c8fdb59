# MGF reading and duplicate-name labelling, modelled in Dafny

This project models two pieces of the tidymass Python toolkit for mass
spectrometry data:

- `read_mgf.py`, the reader of MGF (Mascot Generic Format) peak lists.
  `ListMGF` cuts the lines of one file into records closed by `END IONS`;
  `extract_value` reads the precursor m/z or retention time from the first
  line that starts with one of the field labels; `read_mgf` keeps the records of
  each file that have a peak line (a line starting with a digit), turns each
  into a spectrum `{info: {mz, rt}, spec: peak table}`, concatenates the files,
  and drops the spectra whose peak table is empty.
- `name_duplicated.py`, which rewrites every occurrence of a repeated name in
  a list as `name_j`, where `j` counts its occurrences so far.

Files:

- `seqs.dfy` (`Seqs`): list comprehension with a condition (`Filter`),
  `list.count` (`Count`), flattening.
- `results.dfy` (`Results`): the `ValueError` that `float()` raises, and
  the two loop shapes of `read_mgf` (append one value per element / extend
  with a list per element, stopping at the first exception).
- `builtins.dfy` (`Builtins`): the Python built-ins the code calls, on
  `seq<char>`: `str.isspace`, `str.strip()`, `str.split()`,
  `str.split('=')[-1]`, `str(int)`, `float()` on a string of digits and points
  (as an exact decimal, or the `ValueError` it raises).
- `mgf.dfy` (`Mgf`): `ListMgf` and `ReadMgf` (with its inner loop
  `AppendSpectra`) are methods with loops proved equal to the specification
  functions `SplitRecords` and `MgfSpectra`; `ExtractValue` and the peak
  table are functions; lemmas state what the reader guarantees.
- `names.dfy` (`Names`): `NameDuplicated` is a method with the source's
  counts map and result list, proved against the specification function
  `Label`.

Where the code and its written description disagree, the model follows the
code:

- A first matching field line whose value is not a number makes `float()`
  raise, and the `ValueError` ends the whole `read_mgf` call; it is not
  skipped, and no `0.0` default is used (`Mgf.ExtractValueRaises`).
- A peak line with a single number is kept as a one-entry row; nothing drops
  it (`Mgf.SingleTokenPeakLine`).
- Extra `END IONS` lines produce empty records; they are harmless only
  because `read_mgf` drops records without a peak line
  (`Mgf.ExtraTerminatorIgnored`).
- Lines after the last `END IONS` are dropped, not returned as a record.
- A `PEPMASS` line that also gives the precursor intensity, such as
  `PEPMASS=500.25 1200`, is not read as the m/z with the intensity ignored:
  the non-numeric characters of the text after `=` are removed, space
  included, and `float()` gets `500.251200` (`Mgf.PepmassWithIntensity`).
- `name_duplicated` output is not free of repeats in general: `[a, a, a_1]`
  gives `a_1` twice (`Names.NotGloballyUnique`).

## Model

| member | source | states |
|---|---|---|
| Mgf.ListMgf | read_mgf.py:59-69 | the loop returns exactly `SplitRecords(lines)`: the records the stripped lines close, in order |
| Mgf.ListMgfRecordCount | read_mgf.py:61-65 | the number of records equals the number of lines that strip to `END IONS` |
| Mgf.ListMgfJoin | read_mgf.py:61-69 | no record contains `END IONS`; the records each followed by `END IONS`, then the lines after the last terminator, give back the stripped input; those trailing lines hold no terminator and are dropped |
| Mgf.ListMgfStripped | read_mgf.py:62 | every line of every record equals its own `strip()` |
| Mgf.SplitJoinRoundTrip | read_mgf.py:59-69 | the inverse direction: stripped records without terminators, written out with terminators and any unterminated tail, are split back into the same records, and the tail is what is dropped |
| Mgf.ExtraTerminatorIgnored | read_mgf.py:24-27 | an `END IONS` line where no record is open leaves the spectra of the file unchanged |
| Mgf.StripAll | read_mgf.py:62 | one stripped line per input line, at the same position |
| Mgf.ValueText | read_mgf.py:85 | the text given to `float()` holds only digits and points and is the segment after the last `=` with all other characters removed |
| Mgf.ValueTextAfterLabel | read_mgf.py:85 | for a line `key=text` with no `=` in `text`, the value text is `text` kept to digits and points |
| Mgf.PepmassWithIntensity | read_mgf.py:82-86 | `PEPMASS=<mz> <intensity>` yields `float` of the two numbers glued together, not the m/z alone |
| Mgf.Matches | read_mgf.py:83 | `re.search` of an anchored alternation: the line starts with one of the labels |
| Mgf.ExtractValue | read_mgf.py:82-87 | when no line starts with one of the labels the result is `0.0` |
| Mgf.ExtractValueFirstMatch | read_mgf.py:82-86 | with a first matching line, the result is `float()` of that line's value text |
| Mgf.ExtractValueIgnoresLater | read_mgf.py:82-86 | once a line matches, lines after it never change the result |
| Mgf.ExtractValueRaises | read_mgf.py:85-86 | the first matching line raises `ValueError` carrying its text exactly when that text has two points or no digit |
| Builtins.ParseFloat | read_mgf.py:86 | on a digit-and-point string, `float()` succeeds iff there is at most one point and at least one digit; otherwise it raises `ValueError` with the string; a result is in lowest terms |
| Builtins.ParseFloatInteger | read_mgf.py:86 | a string of digits converts to the integer it writes |
| Builtins.ParseFloatTrailingZero | read_mgf.py:86 | trailing zeros after the point do not change the value |
| Builtins.ParseFloatTrailingPoint | read_mgf.py:86 | `float("7.")` equals `float("7")` |
| Builtins.ParseFloatLeadingZero | read_mgf.py:86 | leading zeros do not change the number: `float("007") == float("7")` |
| Builtins.IsSpace | read_mgf.py:62 | the white-space set of Python's `str.isspace()`, which `strip()` and `split()` use: tab to carriage return, the four separator controls, space, NEL, no-break space and the Unicode space separators |
| Builtins.Strip | read_mgf.py:62 | the result is a slice of the input with no white space at either end and only white space cut off |
| Builtins.StripIdempotent | read_mgf.py:62 | stripping twice is stripping once |
| Builtins.Split | read_mgf.py:35 | every field of `split()` is a non-empty run without white space (maximality: `SplitSkipSpaces`, `SplitWordSpaces`) |
| Builtins.SplitSkipSpaces | read_mgf.py:35 | white space of any kind and length in front of the text does not change `split()` |
| Builtins.SplitWordSpaces | read_mgf.py:35 | a word followed by a non-empty run of white space (spaces, tabs, ...) is the first field, and splitting goes on after the run; with `SplitSkipSpaces`, `SplitSingleWord` and `SplitAllSpaces` this fixes `split()` on every string as the maximal non-white-space runs |
| Builtins.SplitAllSpaces | read_mgf.py:35 | a string of white space only splits into no fields |
| Builtins.SplitSingleWord | read_mgf.py:35 | a single word splits into itself |
| Builtins.SplitKeepsText | read_mgf.py:35 | the fields of `split()` concatenated are the input without its white space |
| Builtins.SplitJoinWords | read_mgf.py:35 | fields joined with single spaces split back into the same fields |
| Builtins.AfterLast | read_mgf.py:85 | `split('=')[-1]` is a suffix without `=` that is either the whole string or preceded by `=` |
| Builtins.NatToString | name_duplicated.py:25-28 | `str(n)` is a non-empty digit string without leading zero that denotes `n` |
| Mgf.IsPeakLine | read_mgf.py:34 | `re.match(r"^\d", line)`: the line is non-empty and starts with an ASCII digit |
| Mgf.HasPeakLine | read_mgf.py:27 | `any(...)` over the record: some line is a peak line |
| Mgf.HasPeakLineFilter | read_mgf.py:27-34 | a record passes the filter at line 27 exactly when the comprehension at line 34 yields at least one peak line |
| Seqs.Filter | read_mgf.py:27 | a comprehension with a condition keeps only elements that pass and is no longer than its input; with `FilterSingleton` and `FilterConcat` it keeps exactly the passing elements in order |
| Seqs.FilterSingleton | read_mgf.py:34 | one element is kept exactly when it passes |
| Seqs.FilterConcat | read_mgf.py:42 | filtering distributes over concatenation, so order is kept |
| Seqs.FilterEmpty | read_mgf.py:42 | nothing is kept exactly when no element passes |
| Mgf.PeakTable | read_mgf.py:34-35 | one row per peak line of the record; row `i` is `split()` of the `i`-th peak line |
| Mgf.Size | read_mgf.py:42 | numpy's `size` of the table (sum of row lengths) is zero exactly when every row is empty, and at least the number of rows when no row is empty |
| Mgf.HasPeaks | read_mgf.py:42 | `size > 0` holds exactly when some row of the peak table is non-empty |
| Mgf.ParseEntry | read_mgf.py:30-39 | a spectrum is built exactly when both fields convert; the m/z error is reported first, then the retention-time error; the spectrum holds the two values and the peak table of the record |
| Mgf.PeakRows | read_mgf.py:35 | one row per line, and row `i` is `split()` of line `i` |
| Mgf.PeakTableOrder | read_mgf.py:34-35 | peak rows come in the order of the peak lines; a single line contributes its fields exactly when it starts with a digit |
| Mgf.PeakTableNonEmpty | read_mgf.py:27-35 | a record with a peak line has a peak table with at least one entry |
| Mgf.SingleTokenPeakLine | read_mgf.py:34-35 | a peak line with one number gives a one-entry row and is kept |
| Mgf.AppendSpectra | read_mgf.py:29-39 | the inner loop appends one spectrum per kept record, in record order, or returns the first `ValueError` raised on a field line (those of peak fields are left out, see below) |
| Mgf.ReadMgf | read_mgf.py:21-44 | the whole function returns exactly `MgfSpectra(files)`: spectra of kept records, file after file, without empty tables, or the first `ValueError` raised on a field line (those of peak fields are left out, see below) |
| Results.MapResultOk | read_mgf.py:29-39 | the records of a file parse exactly when each one does, and then give one spectrum per record in order |
| Results.MapResultFirstError | read_mgf.py:29-31 | a failing file reports the error of its first failing record |
| Results.FlatMapResultConcat | read_mgf.py:23-39 | reading files `a + b` is reading `a` and then `b` |
| Mgf.ParseFileHasPeaks | read_mgf.py:27-35 | every spectrum built from a file has a non-empty peak table |
| Mgf.FinalFilterRemovesNothing | read_mgf.py:27-42 | the final `size > 0` filter removes nothing |
| Mgf.MgfSpectraFileOrder | read_mgf.py:23-44 | the spectra of files `a + b` are those of `a` followed by those of `b`, or the first error |
| Mgf.DroppedRecordContributesNothing | read_mgf.py:27 | a record without a peak line is removed before any field of it is read |
| Names.NameDuplicated | name_duplicated.py:19-30 | the output has the input's length; element `i` gets `Label(x, i)`: unchanged when its name occurs once, else `name_j` for its `j`-th occurrence; every output starts with its input; two occurrences of one name never get the same label |
| Seqs.Count | name_duplicated.py:28 | `x.count(item)` is at most the length of the list and is zero exactly when the item is absent (`CountConcat`: counts add up over concatenation) |
| Seqs.CountConcat | name_duplicated.py:28 | occurrences add up over a concatenation |
| Names.Suffixed | name_duplicated.py:25 | `f"{item}_{n}"` starts with the item, then `_`, then `str(n)` |
| Names.Occurrence | name_duplicated.py:23-28 | the occurrence number of an element is between 1 and the number of times its name occurs |
| Names.OccurrenceIncreases | name_duplicated.py:23-25 | a later occurrence of a name has a larger number |
| Names.SuffixedInjective | name_duplicated.py:25 | different numbers give different `name_j` |
| Names.LabelsDistinct | name_duplicated.py:23-28 | two occurrences of one name mean the name is repeated, and their labels differ |
| Names.LabelStep | name_duplicated.py:22-28 | one iteration keeps the counts map equal to the occurrence counts of the prefix (keys exactly the names seen) and appends the label of the element |
| Names.TalliesStep | name_duplicated.py:23-27 | updating the counts map for one more element keeps it equal to the occurrence counts of the longer prefix |
| Names.DocstringExample | name_duplicated.py:15-17 | `["apple", "orange", "apple", "banana", "orange"]` is labelled `apple_1, orange_1, apple_2, banana, orange_2` |
| Names.NotGloballyUnique | name_duplicated.py:12-28 | for `[a, a, a_1]` the labels are `a_1, a_2, a_1`: the output can repeat a name |

## Left out

- File I/O: `ListMGF` opens and reads a path (read_mgf.py:56-57); the model
  takes the lines `readlines()` would return, and `read_mgf` takes one such
  list per file.
- `ms2_plot.py` and `masstools_logo.py`: plotting and a banner printer, not
  part of this model.
- Binary floating point: `float()` is modelled as the exact decimal the text
  writes (`Builtins.Decimal`); rounding to a double is not modelled.
- `float()` on peak fields and the `numpy` array (read_mgf.py:35): the peak
  table holds the whitespace-separated fields as text. The `ValueError` for a
  non-numeric field, numpy's handling of rows of different lengths, and
  `size` of such arrays are not modelled; `Size` counts the fields.
- Regular expressions: only the fixed forms the code uses are modelled
  (anchored label alternations, `^\d`, `[^\d.]`). `\d` is taken as the ASCII
  digits; Unicode decimal digits that Python's `\d` also accepts are not
  modelled.
- `float()` on text other than digits and points (signs, exponents,
  `inf`/`nan`): the text it receives has passed `[^\d.]` removal, so it can
  hold only digits and points.
