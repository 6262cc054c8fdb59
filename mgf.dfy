/** The MGF (Mascot Generic Format) peak-list reader of `read_mgf.py`.
    `ListMgf` splits the lines of one file into records, `ExtractValue` reads
    a precursor field of a record, and `ReadMgf` turns every record that has
    peak lines into a spectrum, file after file. */
module Mgf {
  import opened Seqs
  import opened Builtins
  import opened Results

  /** The line that closes a record. */
  const Terminator: string := "END IONS"

  /** The alternation `^(PEPMASS|PRECURSORMZ)` of the precursor m/z line. */
  const MzLabels: seq<string> := ["PEPMASS", "PRECURSORMZ"]

  /** The alternation `^(RTINSECONDS|RETENTIONTIME|RTINMINUTES)` of the
      retention-time line. */
  const RtLabels: seq<string> := ["RTINSECONDS", "RETENTIONTIME", "RTINMINUTES"]

  /** The `info` dictionary of a spectrum: precursor m/z and retention time. */
  datatype Info = Info(mz: Decimal, rt: Decimal)

  /** One parsed spectrum. `spec` is the peak table: one row per peak line,
      holding the whitespace-separated fields of that line. */
  datatype Spectrum = Spectrum(info: Info, spec: seq<seq<string>>)

  // ===========================================================================
  // ListMGF: splitting the lines of a file into records

  function StripAll(lines: seq<string>): (r: seq<string>)
    ensures |r| == |lines|
    ensures forall i :: 0 <= i < |lines| ==> r[i] == Strip(lines[i])
  {
    seq(|lines|, i requires 0 <= i < |lines| => Strip(lines[i]))
  }

  /** The records that the stripped lines `ls` close, when the lines `entry`
      are already buffered for the current record. */
  function Records(ls: seq<string>, entry: seq<string>): seq<seq<string>>
  {
    if ls == [] then []
    else if ls[0] == Terminator then [entry] + Records(ls[1..], [])
    else Records(ls[1..], entry + [ls[0]])
  }

  /** The buffer left over after the stripped lines `ls`: what follows the
      last terminator, which no record receives. */
  function Pending(ls: seq<string>, entry: seq<string>): seq<string>
  {
    if ls == [] then entry
    else if ls[0] == Terminator then Pending(ls[1..], [])
    else Pending(ls[1..], entry + [ls[0]])
  }

  /** The records of a file, given as the lines `readlines()` returns. */
  function SplitRecords(lines: seq<string>): seq<seq<string>>
  {
    Records(StripAll(lines), [])
  }

  /** The stripped lines after the last terminator of a file. */
  function Trailing(lines: seq<string>): seq<string>
  {
    Pending(StripAll(lines), [])
  }

  /** Records written back out, each followed by its terminator. */
  function Join(records: seq<seq<string>>): seq<string>
  {
    if records == [] then [] else records[0] + [Terminator] + Join(records[1..])
  }

  /** `ListMGF` on the lines of one file: strip each line, collect lines into
      the current record, and close the record at each terminator. */
  method ListMgf(lines: seq<string>) returns (spectra: seq<seq<string>>)
    ensures spectra == SplitRecords(lines)
  {
    ghost var stripped := StripAll(lines);
    spectra := [];
    var entry: seq<string> := [];
    var i := 0;
    while i < |lines|
      invariant 0 <= i <= |lines|
      invariant spectra + Records(stripped[i..], entry) == SplitRecords(lines)
    {
      var line := Strip(lines[i]);
      RecordsStep(stripped, i, entry);
      if line == Terminator {
        spectra := spectra + [entry];
        entry := [];
      } else {
        entry := entry + [line];
      }
      i := i + 1;
    }
  }

  /** The records from position `i` on, one line at a time. */
  lemma RecordsStep(ls: seq<string>, i: nat, entry: seq<string>)
    requires i < |ls|
    ensures ls[i] == Terminator ==> Records(ls[i..], entry) == [entry] + Records(ls[i + 1..], [])
    ensures ls[i] != Terminator ==> Records(ls[i..], entry) == Records(ls[i + 1..], entry + [ls[i]])
  {
    assert ls[i..][0] == ls[i] && ls[i..][1..] == ls[i + 1..];
  }

  lemma {:induction false} RecordsCount(ls: seq<string>, entry: seq<string>)
    ensures |Records(ls, entry)| == Count(ls, Terminator)
  {
    if ls != [] {
      RecordsCount(ls[1..], if ls[0] == Terminator then [] else entry + [ls[0]]);
    }
  }

  /** `ListMGF` returns one record per line that strips to the terminator. */
  lemma ListMgfRecordCount(lines: seq<string>)
    ensures |SplitRecords(lines)| == Count(StripAll(lines), Terminator)
  {
    RecordsCount(StripAll(lines), []);
  }

  /** No record, and not the pending buffer, holds the terminator. */
  lemma {:induction false} RecordsNoTerminator(ls: seq<string>, entry: seq<string>)
    requires Terminator !in entry
    ensures forall k :: 0 <= k < |Records(ls, entry)| ==> Terminator !in Records(ls, entry)[k]
    ensures Terminator !in Pending(ls, entry)
  {
    if ls != [] {
      if ls[0] == Terminator {
        RecordsNoTerminator(ls[1..], []);
        var rest := Records(ls[1..], []);
        assert Records(ls, entry) == [entry] + rest;
        assert forall k :: 0 < k <= |rest| ==> ([entry] + rest)[k] == rest[k - 1];
      } else {
        assert Terminator !in entry + [ls[0]];
        RecordsNoTerminator(ls[1..], entry + [ls[0]]);
      }
    }
  }

  /** The records, each followed by the terminator, and then the pending
      buffer, spell out the buffered lines followed by `ls`. */
  lemma {:induction false} RecordsJoin(ls: seq<string>, entry: seq<string>)
    ensures Join(Records(ls, entry)) + Pending(ls, entry) == entry + ls
  {
    if ls != [] {
      if ls[0] == Terminator {
        RecordsJoin(ls[1..], []);
        RecordsJoinClose(ls, entry);
      } else {
        RecordsJoin(ls[1..], entry + [ls[0]]);
        assert entry + ls == (entry + [ls[0]]) + ls[1..];
      }
    }
  }

  /** The step of `RecordsJoin` at a terminator. */
  lemma RecordsJoinClose(ls: seq<string>, entry: seq<string>)
    requires ls != [] && ls[0] == Terminator
    requires Join(Records(ls[1..], [])) + Pending(ls[1..], []) == [] + ls[1..]
    ensures Join(Records(ls, entry)) + Pending(ls, entry) == entry + ls
  {
    var rest := Records(ls[1..], []);
    var tail := Pending(ls[1..], []);
    assert Records(ls, entry) == [entry] + rest;
    JoinCons(entry, rest);
    ConcatAssoc(entry, Terminator, Join(rest), tail);
    assert [] + ls[1..] == ls[1..];
    assert [Terminator] + ls[1..] == ls;
  }

  lemma JoinCons(r: seq<string>, rest: seq<seq<string>>)
    ensures Join([r] + rest) == r + [Terminator] + Join(rest)
  {
    assert ([r] + rest)[1..] == rest;
  }

  lemma {:induction false} JoinEndsWithTerminator(records: seq<seq<string>>)
    ensures Join(records) == [] || Join(records)[|Join(records)| - 1] == Terminator
  {
    if records != [] {
      JoinEndsWithTerminator(records[1..]);
    }
  }

  /** No record holds the terminator, and writing the records back with a
      terminator after each gives the stripped file up to and including its
      last terminator; the rest of the file holds no terminator and is
      dropped. */
  lemma ListMgfJoin(lines: seq<string>)
    ensures forall k :: 0 <= k < |SplitRecords(lines)| ==> Terminator !in SplitRecords(lines)[k]
    ensures Join(SplitRecords(lines)) + Trailing(lines) == StripAll(lines)
    ensures Join(SplitRecords(lines)) == [] || Join(SplitRecords(lines))[|Join(SplitRecords(lines))| - 1] == Terminator
    ensures Terminator !in Trailing(lines)
  {
    RecordsNoTerminator(StripAll(lines), []);
    RecordsJoin(StripAll(lines), []);
    assert [] + StripAll(lines) == StripAll(lines);
    JoinEndsWithTerminator(SplitRecords(lines));
  }

  predicate IsStripped(line: string)
  {
    Strip(line) == line
  }

  predicate AllStripped(ls: seq<string>)
  {
    forall i :: 0 <= i < |ls| ==> IsStripped(ls[i])
  }

  lemma AllStrippedConcat(a: seq<string>, b: seq<string>)
    ensures AllStripped(a + b) <==> AllStripped(a) && AllStripped(b)
  {
    assert forall i :: 0 <= i < |a| ==> (a + b)[i] == a[i];
    assert forall i :: 0 <= i < |b| ==> (a + b)[|a| + i] == b[i];
  }

  /** A property of lines that holds of every line of `ls` and of the
      buffer holds of every line of every record. */
  lemma {:induction false} RecordsKeep(ls: seq<string>, entry: seq<string>, p: string -> bool)
    requires forall i :: 0 <= i < |ls| ==> p(ls[i])
    requires forall i :: 0 <= i < |entry| ==> p(entry[i])
    ensures forall k, i :: 0 <= k < |Records(ls, entry)| && 0 <= i < |Records(ls, entry)[k]| ==> p(Records(ls, entry)[k][i])
  {
    if ls != [] {
      var more := ls[1..];
      assert forall i :: 0 <= i < |more| ==> more[i] == ls[i + 1];
      if ls[0] == Terminator {
        RecordsKeep(more, [], p);
        var rest := Records(more, []);
        assert Records(ls, entry) == [entry] + rest;
        assert forall k :: 0 < k <= |rest| ==> ([entry] + rest)[k] == rest[k - 1];
      } else {
        var next := entry + [ls[0]];
        assert forall i :: 0 <= i < |entry| ==> next[i] == entry[i];
        RecordsKeep(more, next, p);
      }
    }
  }

  /** Every line of every record is its own `strip()`: no record line begins
      or ends with whitespace. */
  lemma ListMgfStripped(lines: seq<string>)
    ensures forall k :: 0 <= k < |SplitRecords(lines)| ==> AllStripped(SplitRecords(lines)[k])
  {
    var ls := StripAll(lines);
    forall i | 0 <= i < |ls|
      ensures IsStripped(ls[i])
    {
      StripIdempotent(lines[i]);
    }
    RecordsKeep(ls, [], IsStripped);
  }

  lemma {:induction false} RecordsAppend(a: seq<string>, ls: seq<string>, entry: seq<string>)
    requires Terminator !in a
    ensures Records(a + ls, entry) == Records(ls, entry + a)
    ensures Pending(a + ls, entry) == Pending(ls, entry + a)
  {
    if a == [] {
      assert a + ls == ls && entry + a == entry;
    } else {
      assert (a + ls)[0] == a[0] && (a + ls)[1..] == a[1..] + ls;
      RecordsAppend(a[1..], ls, entry + [a[0]]);
      assert entry + [a[0]] + a[1..] == entry + a;
    }
  }

  lemma StripAllStripped(ls: seq<string>)
    requires AllStripped(ls)
    ensures StripAll(ls) == ls
  {
  }

  /** The inverse direction: records of stripped lines without terminators,
      written back with terminators and followed by any stripped tail without
      a terminator, split back into the same records, and the tail is what
      is left over. */
  lemma SplitJoinRoundTrip(records: seq<seq<string>>, tail: seq<string>)
    requires forall k :: 0 <= k < |records| ==> Terminator !in records[k] && AllStripped(records[k])
    requires Terminator !in tail && AllStripped(tail)
    ensures SplitRecords(Join(records) + tail) == records
    ensures Trailing(Join(records) + tail) == tail
  {
    JoinStripped(records);
    AllStrippedConcat(Join(records), tail);
    StripAllStripped(Join(records) + tail);
    JoinRoundTrip(records, tail);
  }

  lemma {:induction false} JoinStripped(records: seq<seq<string>>)
    requires forall k :: 0 <= k < |records| ==> AllStripped(records[k])
    ensures AllStripped(Join(records))
  {
    if records != [] {
      var rest := records[1..];
      assert forall k :: 0 <= k < |rest| ==> rest[k] == records[k + 1];
      JoinStripped(rest);
      TerminatorStripped();
      AllStrippedConcat(records[0], [Terminator]);
      AllStrippedConcat(records[0] + [Terminator], Join(rest));
    }
  }

  lemma {:induction false} JoinRoundTrip(records: seq<seq<string>>, tail: seq<string>)
    requires forall k :: 0 <= k < |records| ==> Terminator !in records[k]
    requires Terminator !in tail
    ensures Records(Join(records) + tail, []) == records
    ensures Pending(Join(records) + tail, []) == tail
  {
    if records == [] {
      RecordsAppend(tail, [], []);
      assert tail + [] == tail;
      assert Join(records) + tail == tail;
    } else {
      var r := records[0];
      var more := records[1..];
      var rest := Join(more) + tail;
      assert Terminator !in r;
      assert forall k :: 0 <= k < |more| ==> more[k] == records[k + 1];
      assert Join(records) + tail == r + ([Terminator] + rest);
      RecordsAppend(r, [Terminator] + rest, []);
      assert ([Terminator] + rest)[1..] == rest;
      assert [] + r == r;
      JoinRoundTrip(more, tail);
    }
  }

  lemma {:induction false} RecordsConcat(a: seq<string>, b: seq<string>, entry: seq<string>)
    ensures Records(a + b, entry) == Records(a, entry) + Records(b, Pending(a, entry))
    ensures Pending(a + b, entry) == Pending(b, Pending(a, entry))
  {
    if a == [] {
      assert a + b == b;
    } else {
      assert (a + b)[0] == a[0] && (a + b)[1..] == a[1..] + b;
      RecordsConcat(a[1..], b, if a[0] == Terminator then [] else entry + [a[0]]);
    }
  }

  // ===========================================================================
  // extract_value: the first matching field line

  /** `re.search(pattern, line)` for an anchored alternation of labels: the
      line starts with one of them. */
  predicate Matches(line: string, labels: seq<string>)
  {
    exists k :: 0 <= k < |labels| && labels[k] <= line
  }

  /** The text handed to `float()`: the part of the line after its last `=`,
      with every character other than a digit or `.` removed, stripped. */
  function ValueText(line: string): (v: string)
    ensures IsDecimalText(v)
    ensures v == Filter(AfterLast(line, '='), IsDecimalChar)
  {
    var kept := Filter(AfterLast(line, '='), IsDecimalChar);
    assert forall i :: 0 <= i < |kept| ==> !IsSpace(kept[i]);
    StripUnchanged(kept);
    Strip(kept)
  }

  /** `extract_value`: the value of the first line that starts with one of the
      labels, `0.0` when no line does, and the `ValueError` of `float()` when
      the first matching line holds no number. */
  function ExtractValue(lines: seq<string>, labels: seq<string>): (r: Result<Decimal>)
    ensures (forall i :: 0 <= i < |lines| ==> !Matches(lines[i], labels)) ==> r == Ok(Zero)
  {
    if lines == [] then Ok(Zero)
    else if Matches(lines[0], labels) then ParseFloat(ValueText(lines[0]))
    else
      assert forall i :: 0 <= i < |lines| - 1 ==> lines[1..][i] == lines[i + 1];
      ExtractValue(lines[1..], labels)
  }

  /** The result is read from the first matching line: the value of its text
      after the last `=`, kept to digits and points. */
  lemma {:induction false} ExtractValueFirstMatch(lines: seq<string>, labels: seq<string>, i: nat)
    requires i < |lines| && Matches(lines[i], labels)
    requires forall j :: 0 <= j < i ==> !Matches(lines[j], labels)
    ensures ExtractValue(lines, labels) == ParseFloat(ValueText(lines[i]))
  {
    if i > 0 {
      assert !Matches(lines[0], labels);
      assert ExtractValue(lines, labels) == ExtractValue(lines[1..], labels);
      assert forall j :: 0 <= j < i - 1 ==> lines[1..][j] == lines[j + 1];
      assert lines[1..][i - 1] == lines[i];
      ExtractValueFirstMatch(lines[1..], labels, i - 1);
    }
  }

  /** A first matching line whose text is not a number raises `ValueError`
      with that text; no default value is used. */
  lemma ExtractValueRaises(lines: seq<string>, labels: seq<string>, i: nat)
    requires i < |lines| && Matches(lines[i], labels)
    requires forall j :: 0 <= j < i ==> !Matches(lines[j], labels)
    ensures ExtractValue(lines, labels).Err? <==>
              Count(ValueText(lines[i]), '.') > 1 || Count(ValueText(lines[i]), '.') == |ValueText(lines[i])|
    ensures ExtractValue(lines, labels).Err? ==> ExtractValue(lines, labels).error == ValueError(ValueText(lines[i]))
  {
    ExtractValueFirstMatch(lines, labels, i);
  }

  /** Only the first matching line is read: lines after it never change the
      result. */
  lemma {:induction false} ExtractValueIgnoresLater(lines: seq<string>, later: seq<string>, labels: seq<string>)
    requires exists i :: 0 <= i < |lines| && Matches(lines[i], labels)
    ensures ExtractValue(lines + later, labels) == ExtractValue(lines, labels)
  {
    assert (lines + later)[0] == lines[0];
    if !Matches(lines[0], labels) {
      var i :| 0 <= i < |lines| && Matches(lines[i], labels);
      assert lines[1..][i - 1] == lines[i];
      assert (lines + later)[1..] == lines[1..] + later;
      ExtractValueIgnoresLater(lines[1..], later, labels);
    }
  }

  // ===========================================================================
  // Peak lines and the peak table

  /** `re.match(r"^\d", line)`: the line starts with a digit. */
  predicate IsPeakLine(line: string)
  {
    line != [] && IsDigit(line[0])
  }

  /** `any(re.match(r"^\d", line) for line in entry)`. */
  predicate HasPeakLine(entry: seq<string>)
  {
    exists i :: 0 <= i < |entry| && IsPeakLine(entry[i])
  }

  /** `[line.split() for line in lines]`. */
  function PeakRows(lines: seq<string>): (rows: seq<seq<string>>)
    ensures |rows| == |lines|
    ensures forall i :: 0 <= i < |lines| ==> rows[i] == Split(lines[i])
  {
    seq(|lines|, i requires 0 <= i < |lines| => Split(lines[i]))
  }

  /** The peak table of a record: row `i` holds the fields of the `i`-th
      peak line of the record. */
  function PeakTable(entry: seq<string>): (table: seq<seq<string>>)
    ensures |table| == |Filter(entry, IsPeakLine)|
    ensures forall i :: 0 <= i < |table| ==>
              IsPeakLine(Filter(entry, IsPeakLine)[i]) && table[i] == Split(Filter(entry, IsPeakLine)[i])
  {
    PeakRows(Filter(entry, IsPeakLine))
  }

  /** A record has a peak line exactly when its peak-line list is non-empty. */
  lemma HasPeakLineFilter(entry: seq<string>)
    ensures HasPeakLine(entry) <==> Filter(entry, IsPeakLine) != []
  {
    FilterEmpty(entry, IsPeakLine);
  }

  /** The number of entries in a peak table, numpy's `size`: zero exactly
      when every row is empty. */
  function Size(table: seq<seq<string>>): (n: nat)
    ensures n == 0 <==> forall i :: 0 <= i < |table| ==> table[i] == []
    ensures n >= |table| || exists i :: 0 <= i < |table| && table[i] == []
  {
    if table == [] then 0
    else
      var rest := Size(table[1..]);
      assert forall i :: 1 <= i < |table| ==> table[1..][i - 1] == table[i];
      |table[0]| + rest
  }

  /** `spec['spec'].size > 0`: some row of the peak table is non-empty. */
  predicate HasPeaks(s: Spectrum)
    ensures HasPeaks(s) <==> exists i :: 0 <= i < |s.spec| && s.spec[i] != []
  {
    Size(s.spec) > 0
  }

  lemma PeakRowsConcat(a: seq<string>, b: seq<string>)
    ensures PeakRows(a + b) == PeakRows(a) + PeakRows(b)
  {
    assert forall i :: 0 <= i < |a| ==> (a + b)[i] == a[i];
    assert forall i :: |a| <= i < |a + b| ==> (a + b)[i] == b[i - |a|];
  }

  /** Peak rows come in the order of the peak lines of the record: the table
      of two blocks of lines is the table of the first followed by the table
      of the second, and a single line gives its fields when it is a peak
      line and nothing otherwise. */
  lemma PeakTableOrder(a: seq<string>, b: seq<string>)
    ensures PeakTable(a + b) == PeakTable(a) + PeakTable(b)
    ensures forall line :: PeakTable([line]) == if IsPeakLine(line) then [Split(line)] else []
  {
    FilterConcat(a, b, IsPeakLine);
    PeakRowsConcat(Filter(a, IsPeakLine), Filter(b, IsPeakLine));
  }

  /** A record with a peak line gives a peak table with at least one entry. */
  lemma PeakTableNonEmpty(entry: seq<string>)
    requires HasPeakLine(entry)
    ensures Size(PeakTable(entry)) > 0
  {
    var i :| 0 <= i < |entry| && IsPeakLine(entry[i]);
    var lines := Filter(entry, IsPeakLine);
    FilterNonEmpty(entry, i, IsPeakLine);
    assert IsPeakLine(lines[0]);
    SplitFirstWord(lines[0]);
  }

  /** A peak line with a single number is kept as a one-entry row: nothing
      checks that a peak line holds both an m/z and an intensity. */
  lemma SingleTokenPeakLine(token: string)
    requires IsWord(token) && IsDigit(token[0])
    ensures PeakTable([token]) == [[token]]
    ensures Size(PeakTable([token])) == 1
  {
    PeakTableOrder([], []);
    SplitSingleWord(token);
  }

  // ===========================================================================
  // read_mgf: records to spectra, file by file

  /** The spectrum of one record, or the error `float()` raised on one of its
      fields (the m/z field is read first). */
  function ParseEntry(entry: seq<string>): (r: Result<Spectrum>)
    ensures r.Ok? <==> ExtractValue(entry, MzLabels).Ok? && ExtractValue(entry, RtLabels).Ok?
    ensures ExtractValue(entry, MzLabels).Err? ==> r == Err(ExtractValue(entry, MzLabels).error)
    ensures ExtractValue(entry, MzLabels).Ok? && ExtractValue(entry, RtLabels).Err? ==>
              r == Err(ExtractValue(entry, RtLabels).error)
    ensures r.Ok? ==> r.value.info.mz == ExtractValue(entry, MzLabels).value &&
                      r.value.info.rt == ExtractValue(entry, RtLabels).value &&
                      r.value.spec == PeakTable(entry)
  {
    match ExtractValue(entry, MzLabels)
    case Err(e) => Err(e)
    case Ok(mz) =>
      match ExtractValue(entry, RtLabels)
      case Err(e) => Err(e)
      case Ok(rt) => Ok(Spectrum(Info(mz, rt), PeakTable(entry)))
  }

  /** The spectra of the records, in order, or the first error raised. */
  function ParseEntries(entries: seq<seq<string>>): Result<seq<Spectrum>>
  {
    MapResult(entries, ParseEntry)
  }

  /** The spectra of one file: of its records that have a peak line. */
  function ParseFile(lines: seq<string>): Result<seq<Spectrum>>
  {
    ParseEntries(Filter(SplitRecords(lines), HasPeakLine))
  }

  /** The spectra of the files, file after file, or the first error raised. */
  function ParseFiles(files: seq<seq<string>>): Result<seq<Spectrum>>
  {
    FlatMapResult(files, ParseFile)
  }

  /** What `read_mgf` returns: the spectra of all files, without those whose
      peak table is empty. */
  function MgfSpectra(files: seq<seq<string>>): Result<seq<Spectrum>>
  {
    match ParseFiles(files)
    case Err(e) => Err(e)
    case Ok(spectra) => Ok(Filter(spectra, HasPeaks))
  }

  /** The inner loop of `read_mgf`: append to `ms2Data` one spectrum for each
      kept record of a file, in order, or stop at the first `ValueError`. */
  method AppendSpectra(ms2Data: seq<Spectrum>, entries: seq<seq<string>>) returns (r: Result<seq<Spectrum>>)
    ensures r == match ParseEntries(entries) case Err(e) => Err(e) case Ok(s) => Ok(ms2Data + s)
  {
    var out := ms2Data;
    ghost var current := [];
    var j := 0;
    while j < |entries|
      invariant 0 <= j <= |entries|
      invariant ParseEntries(entries[..j]) == Ok(current)
      invariant out == ms2Data + current
    {
      var entry := entries[j];
      var mz := ExtractValue(entry, MzLabels);
      if mz.Err? {
        MapResultStep(entries, ParseEntry, j, current);
        MapResultPrefixErr(entries, ParseEntry, j + 1);
        return Err(mz.error);
      }
      var rt := ExtractValue(entry, RtLabels);
      if rt.Err? {
        MapResultStep(entries, ParseEntry, j, current);
        MapResultPrefixErr(entries, ParseEntry, j + 1);
        return Err(rt.error);
      }
      var spectrumLines := Filter(entry, IsPeakLine);
      var spectrum := PeakRows(spectrumLines);
      var parsed := Spectrum(Info(mz.value, rt.value), spectrum);
      assert ParseEntry(entry) == Ok(parsed);
      MapResultStep(entries, ParseEntry, j, current);
      out := out + [parsed];
      current := current + [parsed];
      j := j + 1;
    }
    assert entries[..j] == entries;
    r := Ok(out);
  }

  /** `read_mgf` on the lines of each file: for each file, split it into
      records, keep those with a peak line, and append one spectrum per kept
      record; at the end drop the spectra whose peak table is empty. An
      unconvertible field stops the whole run with its `ValueError`. */
  method ReadMgf(files: seq<seq<string>>) returns (r: Result<seq<Spectrum>>)
    ensures r == MgfSpectra(files)
  {
    var ms2Data: seq<Spectrum> := [];
    var i := 0;
    while i < |files|
      invariant 0 <= i <= |files|
      invariant ParseFiles(files[..i]) == Ok(ms2Data)
    {
      var mgfData := ListMgf(files[i]);
      var nonEmpty := Filter(mgfData, HasPeakLine);
      FlatMapResultStep(files, ParseFile, i, ms2Data);
      var appended := AppendSpectra(ms2Data, nonEmpty);
      if appended.Err? {
        FlatMapResultPrefixErr(files, ParseFile, i + 1);
        return Err(appended.error);
      }
      ms2Data := appended.value;
      i := i + 1;
    }
    assert files[..i] == files;
    r := Ok(Filter(ms2Data, HasPeaks));
  }

  // ---------------------------------------------------------------------------
  // Properties of the parsed spectra

  /** A parsed record with a peak line has a non-empty peak table. */
  lemma ParseEntryHasPeaks(entry: seq<string>)
    requires HasPeakLine(entry) && ParseEntry(entry).Ok?
    ensures HasPeaks(ParseEntry(entry).value)
  {
    PeakTableNonEmpty(entry);
  }

  /** Every spectrum of a file has a non-empty peak table. */
  lemma ParseFileHasPeaks(lines: seq<string>)
    requires ParseFile(lines).Ok?
    ensures forall k :: 0 <= k < |ParseFile(lines).value| ==> HasPeaks(ParseFile(lines).value[k])
  {
    var kept := Filter(SplitRecords(lines), HasPeakLine);
    MapResultOk(kept, ParseEntry);
    forall k | 0 <= k < |kept|
      ensures HasPeaks(ParseEntries(kept).value[k])
    {
      ParseEntryHasPeaks(kept[k]);
    }
  }

  lemma {:induction false} ParseFilesHavePeaks(files: seq<seq<string>>)
    requires ParseFiles(files).Ok?
    ensures forall k :: 0 <= k < |ParseFiles(files).value| ==> HasPeaks(ParseFiles(files).value[k])
  {
    if files != [] {
      ParseFilesHavePeaks(files[..|files| - 1]);
      ParseFileHasPeaks(files[|files| - 1]);
    }
  }

  /** The final `size > 0` filter of `read_mgf` removes nothing: only records
      with a peak line are parsed, and their tables are never empty. */
  lemma FinalFilterRemovesNothing(files: seq<seq<string>>)
    ensures ParseFiles(files).Ok? ==> MgfSpectra(files) == ParseFiles(files)
  {
    if ParseFiles(files).Ok? {
      ParseFilesHavePeaks(files);
      FilterAll(ParseFiles(files).value, HasPeaks);
    }
  }

  /** Spectra come in file order: reading two groups of files yields the
      spectra of the first group followed by those of the second. */
  lemma MgfSpectraFileOrder(a: seq<seq<string>>, b: seq<seq<string>>)
    ensures MgfSpectra(a + b)
         == match MgfSpectra(a)
            case Err(e) => Err(e)
            case Ok(x) => (match MgfSpectra(b) case Err(e) => Err(e) case Ok(y) => Ok(x + y))
  {
    FlatMapResultConcat(a, b, ParseFile);
    if ParseFiles(a).Ok? && ParseFiles(b).Ok? {
      FilterConcat(ParseFiles(a).value, ParseFiles(b).value, HasPeaks);
    }
  }

  /** A record without a peak line contributes nothing: it is dropped before
      any of its fields is converted. */
  lemma DroppedRecordContributesNothing(before: seq<seq<string>>, record: seq<string>, after: seq<seq<string>>)
    requires !HasPeakLine(record)
    ensures Filter(before + [record] + after, HasPeakLine) == Filter(before + after, HasPeakLine)
  {
    FilterConcat(before + [record], after, HasPeakLine);
    FilterConcat(before, [record], HasPeakLine);
    FilterConcat(before, after, HasPeakLine);
    assert Filter([record], HasPeakLine) == [];
  }

  lemma {:induction false} StripAllConcat(a: seq<string>, b: seq<string>)
    ensures StripAll(a + b) == StripAll(a) + StripAll(b)
  {
  }

  lemma TerminatorStripped()
    ensures Strip(Terminator) == Terminator
  {
    assert Terminator[0] == 'E' && Terminator[|Terminator| - 1] == 'S';
    StripUnchanged(Terminator);
  }

  lemma StripAllInsert(a: seq<string>, b: seq<string>)
    ensures StripAll(a + [Terminator] + b) == StripAll(a) + ([Terminator] + StripAll(b))
    ensures StripAll(a + b) == StripAll(a) + StripAll(b)
  {
    TerminatorStripped();
    StripAllConcat(a + [Terminator], b);
    StripAllConcat(a, [Terminator]);
    StripAllConcat(a, b);
  }

  /** The records of a file with an `END IONS` line inserted where no
      record is pending: those before it, an empty one, those after it. */
  lemma SplitRecordsExtraTerminator(a: seq<string>, b: seq<string>)
    requires Trailing(a) == []
    ensures SplitRecords(a + [Terminator] + b) == SplitRecords(a) + [[]] + SplitRecords(b)
    ensures SplitRecords(a + b) == SplitRecords(a) + SplitRecords(b)
  {
    StripAllInsert(a, b);
    RecordsInsertTerminator(StripAll(a), StripAll(b));
  }

  lemma RecordsInsertTerminator(sa: seq<string>, sb: seq<string>)
    requires Pending(sa, []) == []
    ensures Records(sa + ([Terminator] + sb), []) == Records(sa, []) + [[]] + Records(sb, [])
    ensures Records(sa + sb, []) == Records(sa, []) + Records(sb, [])
  {
    RecordsConcat(sa, [Terminator] + sb, []);
    RecordsConcat(sa, sb, []);
    assert ([Terminator] + sb)[0] == Terminator && ([Terminator] + sb)[1..] == sb;
    assert Records([Terminator] + sb, []) == [[]] + Records(sb, []);
  }

  /** An `END IONS` line right after another one, or at the very start of a
      file, adds only an empty record, which is dropped: the spectra do not
      change. */
  lemma ExtraTerminatorIgnored(a: seq<string>, b: seq<string>)
    requires Trailing(a) == []
    ensures ParseFile(a + [Terminator] + b) == ParseFile(a + b)
  {
    SplitRecordsExtraTerminator(a, b);
    assert !HasPeakLine([]);
    DroppedRecordContributesNothing(SplitRecords(a), [], SplitRecords(b));
  }

  // ---------------------------------------------------------------------------
  // How a field's text is read

  /** The text read from a field line is that of its value, kept to digits
      and points. */
  lemma ValueTextAfterLabel(key: string, text: string)
    requires '=' !in text
    ensures ValueText(key + "=" + text) == Filter(text, IsDecimalChar)
  {
    assert key + "=" + text == key + ['='] + text;
    AfterLastOf(key, text, '=');
  }

  /** A `PEPMASS` line that also gives the precursor intensity, such as
      `PEPMASS=500.25 1200`, yields the number written by the two fields glued
      together (`500.251200`), not the m/z alone. */
  lemma PepmassWithIntensity(mz: string, intensity: string)
    requires IsDecimalText(mz) && IsDecimalText(intensity)
    ensures ExtractValue(["PEPMASS=" + mz + " " + intensity], MzLabels) == ParseFloat(mz + intensity)
  {
    assert MzLabels[0] + "=" == "PEPMASS=";
    FirstLabelWithSpace(MzLabels, mz, intensity);
  }

  /** A line made of the first label, `=`, and two numbers separated by a
      space yields the two numbers glued together. */
  lemma FirstLabelWithSpace(labels: seq<string>, mz: string, intensity: string)
    requires labels != [] && IsDecimalText(mz) && IsDecimalText(intensity)
    ensures ExtractValue([labels[0] + "=" + mz + " " + intensity], labels) == ParseFloat(mz + intensity)
  {
    var key := labels[0];
    var line := key + "=" + mz + " " + intensity;
    FieldWithSpaceText(key, mz, intensity);
    ConcatAssocFront(key, "=", mz, " ", intensity);
    MatchesFirstLabel(labels, "=" + mz + " " + intensity);
    ExtractValueFirstMatch([line], labels, 0);
  }

  lemma FieldWithSpaceText(key: string, mz: string, intensity: string)
    requires IsDecimalText(mz) && IsDecimalText(intensity)
    ensures ValueText(key + "=" + mz + " " + intensity) == mz + intensity
  {
    var text := mz + " " + intensity;
    assert key + "=" + mz + " " + intensity == key + "=" + text;
    assert '=' !in text by {
      assert forall i :: 0 <= i < |text| ==> text[i] != '=';
    }
    ValueTextAfterLabel(key, text);
    GlueFields(mz, intensity);
  }

  lemma GlueFields(mz: string, intensity: string)
    requires IsDecimalText(mz) && IsDecimalText(intensity)
    ensures Filter(mz + " " + intensity, IsDecimalChar) == mz + intensity
  {
    assert mz + " " + intensity == mz + [' '] + intensity;
    FilterDropsSeparator(mz, ' ', intensity, IsDecimalChar);
  }

  lemma MatchesFirstLabel(labels: seq<string>, rest: string)
    requires labels != []
    ensures Matches(labels[0] + rest, labels)
  {
    assert labels[0] <= labels[0] + rest;
  }
}
