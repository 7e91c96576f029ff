/** FASTA record grouping: the lines of the file are read one by one; a line
    holding '>' anywhere is a header and closes the record being built, every
    other line is appended verbatim to it; records are kept only when non-empty. */
module Fasta {

  /** A line is a header when it contains '>' at any position. */
  predicate IsHeader(line: string)
  {
    '>' in line
  }

  /** Concatenation of a list of strings. */
  function Concat(parts: seq<string>): string
  {
    if parts == [] then [] else Concat(parts[..|parts| - 1]) + parts[|parts| - 1]
  }

  /** The non-header lines, in order. */
  function DataLines(lines: seq<string>): seq<string>
  {
    if lines == [] then []
    else DataLines(lines[..|lines| - 1]) + (if IsHeader(lines[|lines| - 1]) then [] else [lines[|lines| - 1]])
  }

  /** The non-empty strings of a list, in order. */
  function NonEmpty(parts: seq<string>): seq<string>
  {
    if parts == [] then []
    else NonEmpty(parts[..|parts| - 1]) + (if parts[|parts| - 1] != [] then [parts[|parts| - 1]] else [])
  }

  /** The maximal runs of non-header lines, each one concatenated: the run
      before the first header, the runs between headers, the run after the
      last header. There is always one more run than there are headers. */
  function Runs(lines: seq<string>): (r: seq<string>)
    ensures |r| >= 1
  {
    if lines == [] then [[]]
    else
      var g := Runs(lines[..|lines| - 1]);
      var last := lines[|lines| - 1];
      if IsHeader(last) then g + [[]] else g[..|g| - 1] + [g[|g| - 1] + last]
  }

  /** The state of the reading loop after a prefix of the lines: the records
      pushed so far and the record being built. */
  function Scan(lines: seq<string>): (seq<string>, string)
  {
    if lines == [] then ([], [])
    else
      var (records, buffer) := Scan(lines[..|lines| - 1]);
      var line := lines[|lines| - 1];
      if IsHeader(line) then (if buffer != [] then records + [buffer] else records, [])
      else (records, buffer + line)
  }

  /** Records of the whole file: those pushed by the loop, then the last
      buffer when it is non-empty. */
  function Records(lines: seq<string>): seq<string>
  {
    var (records, buffer) := Scan(lines);
    if buffer != [] then records + [buffer] else records
  }

  /** Fasta::parse over the lines of the file. */
  method Parse(lines: seq<string>) returns (sequences: seq<string>)
    ensures sequences == Records(lines)
  {
    sequences := [];
    var sequence: string := [];
    var i := 0;
    while i < |lines|
      invariant 0 <= i <= |lines|
      invariant (sequences, sequence) == Scan(lines[..i])
    {
      var line := lines[i];
      assert lines[..i + 1][..i] == lines[..i];
      if '>' in line {
        if sequence != [] {
          sequences := sequences + [sequence];
        }
        sequence := [];
      } else {
        sequence := sequence + line;
      }
      i := i + 1;
    }
    assert lines[..i] == lines;
    if sequence != [] {
      sequences := sequences + [sequence];
    }
  }

  lemma NonEmptyAppend(parts: seq<string>, x: string)
    ensures NonEmpty(parts + [x]) == NonEmpty(parts) + (if x != [] then [x] else [])
  {
    assert (parts + [x])[..|parts|] == parts;
  }

  /** The loop's state after a prefix is the non-empty closed runs plus the
      open (last) run. */
  lemma {:induction false} ScanIsRuns(lines: seq<string>)
    ensures var g := Runs(lines);
      Scan(lines) == (NonEmpty(g[..|g| - 1]), g[|g| - 1])
  {
    if lines != [] {
      var init := lines[..|lines| - 1];
      ScanIsRuns(init);
      var g := Runs(init);
      var last := lines[|lines| - 1];
      var (records, buffer) := Scan(init);
      if IsHeader(last) {
        var g' := g + [[]];
        assert Runs(lines) == g';
        assert g'[..|g'| - 1] == g;
        assert g == g[..|g| - 1] + [g[|g| - 1]];
        NonEmptyAppend(g[..|g| - 1], g[|g| - 1]);
        assert records == NonEmpty(g[..|g| - 1]) && buffer == g[|g| - 1];
        assert NonEmpty(g) == if buffer != [] then records + [buffer] else records;
        assert Scan(lines) == (if buffer != [] then records + [buffer] else records, []);
        assert g'[|g'| - 1] == [];
      } else {
        assert (g[..|g| - 1] + [g[|g| - 1] + last])[..|g| - 1] == g[..|g| - 1];
      }
    }
  }

  /** Each record is the concatenation of one maximal run of non-header
      lines, and exactly the runs whose concatenation is empty are dropped. */
  lemma RecordsAreRuns(lines: seq<string>)
    ensures Records(lines) == NonEmpty(Runs(lines))
  {
    ScanIsRuns(lines);
    var g := Runs(lines);
    assert g == g[..|g| - 1] + [g[|g| - 1]];
    NonEmptyAppend(g[..|g| - 1], g[|g| - 1]);
  }

  /** No returned record is empty. */
  lemma {:induction false} NoEmptyRecord(lines: seq<string>)
    ensures forall k :: 0 <= k < |Records(lines)| ==> Records(lines)[k] != []
  {
    RecordsAreRuns(lines);
    NonEmptyHasNoEmpty(Runs(lines));
  }

  lemma {:induction false} NonEmptyHasNoEmpty(parts: seq<string>)
    ensures forall k :: 0 <= k < |NonEmpty(parts)| ==> NonEmpty(parts)[k] != []
  {
    if parts != [] {
      NonEmptyHasNoEmpty(parts[..|parts| - 1]);
    }
  }

  lemma {:induction false} ConcatAppend(a: seq<string>, b: seq<string>)
    ensures Concat(a + b) == Concat(a) + Concat(b)
  {
    if b == [] {
      assert a + b == a;
    } else {
      ConcatAppend(a, b[..|b| - 1]);
      assert (a + b)[..|a + b| - 1] == a + b[..|b| - 1];
    }
  }

  /** Dropping empty strings does not change the concatenation. */
  lemma {:induction false} ConcatNonEmpty(parts: seq<string>)
    ensures Concat(NonEmpty(parts)) == Concat(parts)
  {
    if parts != [] {
      var init := parts[..|parts| - 1];
      var x := parts[|parts| - 1];
      ConcatNonEmpty(init);
      ConcatAppend(NonEmpty(init), if x != [] then [x] else []);
      assert Concat([x]) == x by {
        assert [x][..0] == [];
      }
    }
  }

  lemma ConcatSnoc(parts: seq<string>, x: string)
    ensures Concat(parts + [x]) == Concat(parts) + x
  {
    assert (parts + [x])[..|parts|] == parts;
  }

  /** The runs, concatenated, are all the non-header lines concatenated. */
  lemma {:induction false} ConcatRuns(lines: seq<string>)
    ensures Concat(Runs(lines)) == Concat(DataLines(lines))
  {
    if lines != [] {
      var init := lines[..|lines| - 1];
      var last := lines[|lines| - 1];
      var g := Runs(init);
      ConcatRuns(init);
      if IsHeader(last) {
        ConcatSnoc(g, []);
        assert DataLines(lines) == DataLines(init);
      } else {
        var front := g[..|g| - 1];
        assert g == front + [g[|g| - 1]];
        ConcatSnoc(front, g[|g| - 1]);
        ConcatSnoc(front, g[|g| - 1] + last);
        ConcatSnoc(DataLines(init), last);
      }
    }
  }

  /** Concatenating all records gives all non-header lines, in order and
      verbatim: no trimming, no case change, no alphabet check. */
  lemma RecordsConcat(lines: seq<string>)
    ensures Concat(Records(lines)) == Concat(DataLines(lines))
  {
    RecordsAreRuns(lines);
    ConcatNonEmpty(Runs(lines));
    ConcatRuns(lines);
  }
}
