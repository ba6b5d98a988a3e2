/**
 * Picking the science exposures out of the EPIC exposure table of a PPS
 * summary page (`ProcessXMM/get_science_exposures.py`). The parsed table is
 * given as its rows; the two listing files it appends to are values.
 */
module ScienceExposures {
  import opened Wrappers
  import opened Seqs
  import opened Text
  import Listing

  /** The cells of one table row the script reads: the index cell, the exposure id and the mode. */
  datatype TableRow = TableRow(instCell: string, expId: string, mode: string)

  /** The two listings in the observation directory; `None` when a file does not exist. */
  datatype ExposureFiles = ExposureFiles(pn: Option<string>, mos: Option<string>)

  /** Where one row goes: a line of the pn listing, a line of the MOS listing, or nowhere. */
  datatype Placement = PnLine(line: string) | MosLine(line: string) | Skipped

  /** The instrument name: the index cell without its first character (`row[0][1:]`). */
  function Instrument(row: TableRow): (inst: string)
    ensures row.instCell == [] ==> inst == []
    ensures row.instCell != [] ==> [row.instCell[0]] + inst == row.instCell
  {
    if row.instCell == [] then [] else row.instCell[1..]
  }

  /** Python's `s[:-1]`, which is empty for an empty `s`. */
  function DropLast(s: string): string {
    if s == [] then [] else s[..|s| - 1]
  }

  /** The pn modes the background tools accept. */
  predicate IsFullWindow(mode: string) {
    mode == "PrimeFullWindowExten" || mode == "PrimeFullWindow"
  }

  /**
   * The per-row decision: a pn row in a full-window mode is listed by its
   * exposure id; a row whose instrument is `MOS` plus one more character is
   * listed as that character followed by the exposure id; all else is dropped.
   */
  function Place(row: TableRow): (p: Placement)
    ensures p.PnLine? <==> Instrument(row) == "PN" && IsFullWindow(row.mode)
    ensures p.PnLine? ==> p.line == row.expId
    ensures p.MosLine? <==> |Instrument(row)| == 4 && Instrument(row)[..3] == "MOS"
    ensures p.MosLine? ==> p.line == [Instrument(row)[3]] + row.expId
  {
    var inst := Instrument(row);
    if inst == "PN" then
      if IsFullWindow(row.mode) then PnLine(row.expId) else Skipped
    else if DropLast(inst) == "MOS" then
      MosLine([inst[|inst| - 1]] + row.expId)
    else
      Skipped
  }

  predicate IsPnRow(row: TableRow) {
    Place(row).PnLine?
  }

  predicate IsMosRow(row: TableRow) {
    Place(row).MosLine?
  }

  predicate IsSkippedRow(row: TableRow) {
    Place(row).Skipped?
  }

  /** The line each kept row contributes, in row order. */
  function LinesOf(kept: seq<TableRow>): (lines: seq<string>)
    requires forall i :: 0 <= i < |kept| ==> !Place(kept[i]).Skipped?
  {
    seq(|kept|, i requires 0 <= i < |kept| => Place(kept[i]).line)
  }

  /** The lines the pn listing receives: one per full-window pn row, in table order. */
  function PnLines(rows: seq<TableRow>): seq<string> {
    LinesOf(Filter(IsPnRow, rows))
  }

  /** The lines the MOS listing receives: one per MOS row, in table order. */
  function MosLines(rows: seq<TableRow>): seq<string> {
    LinesOf(Filter(IsMosRow, rows))
  }

  /** One iteration of the loop: at most one line appended to at most one listing. */
  function WriteRow(files: ExposureFiles, row: TableRow): ExposureFiles {
    match Place(row)
    case PnLine(l) => files.(pn := Listing.AppendLines(files.pn, [l]))
    case MosLine(l) => files.(mos := Listing.AppendLines(files.mos, [l]))
    case Skipped => files
  }

  /** The loop over all table rows, in order. */
  function WriteRows(files: ExposureFiles, rows: seq<TableRow>): ExposureFiles
    decreases |rows|
  {
    if rows == [] then files else WriteRows(WriteRow(files, rows[0]), rows[1..])
  }

  lemma LinesOfCons(row: TableRow, kept: seq<TableRow>)
    requires !Place(row).Skipped?
    requires forall i :: 0 <= i < |kept| ==> !Place(kept[i]).Skipped?
    ensures LinesOf([row] + kept) == [Place(row).line] + LinesOf(kept)
  {
  }

  /**
   * Running the loop appends, to each listing, exactly the lines of its rows
   * in table order, after whatever the file already held.
   */
  lemma {:induction false} WriteRowsAppends(files: ExposureFiles, rows: seq<TableRow>)
    ensures WriteRows(files, rows)
         == ExposureFiles(Listing.AppendLines(files.pn, PnLines(rows)),
                          Listing.AppendLines(files.mos, MosLines(rows)))
    decreases |rows|
  {
    if rows != [] {
      var row, rest := rows[0], rows[1..];
      WriteRowsAppends(WriteRow(files, row), rest);
      assert rows == [row] + rest;
      LinesCons(row, rest);
      match Place(row)
      case PnLine(l) =>
        Listing.AppendLinesTwice(files.pn, [l], PnLines(rest));
      case MosLine(l) =>
        Listing.AppendLinesTwice(files.mos, [l], MosLines(rest));
      case Skipped =>
        assert [] + PnLines(rest) == PnLines(rest);
        assert [] + MosLines(rest) == MosLines(rest);
    }
  }

  /** A row in front of the others adds its line, if any, in front of the others' lines. */
  lemma LinesCons(row: TableRow, rest: seq<TableRow>)
    ensures PnLines([row] + rest) == (if IsPnRow(row) then [Place(row).line] else []) + PnLines(rest)
    ensures MosLines([row] + rest) == (if IsMosRow(row) then [Place(row).line] else []) + MosLines(rest)
  {
    FilterConcat(IsPnRow, [row], rest);
    FilterConcat(IsMosRow, [row], rest);
    if IsPnRow(row) {
      LinesOfCons(row, Filter(IsPnRow, rest));
    }
    if IsMosRow(row) {
      LinesOfCons(row, Filter(IsMosRow, rest));
    }
  }

  /** Every row goes to at most one listing: the pn lines, MOS lines and dropped rows add up to the table. */
  lemma {:induction false} EachRowPlacedOnce(rows: seq<TableRow>)
    ensures |PnLines(rows)| + |MosLines(rows)| + |Filter(IsSkippedRow, rows)| == |rows|
    decreases |rows|
  {
    if rows != [] {
      EachRowPlacedOnce(rows[1..]);
    }
  }

  /** The listings the script leaves: the old content kept, this table's lines after it, in table order. */
  function Run(files: ExposureFiles, rows: seq<TableRow>): (r: ExposureFiles)
    ensures r == ExposureFiles(Listing.AppendLines(files.pn, PnLines(rows)),
                               Listing.AppendLines(files.mos, MosLines(rows)))
    ensures r.pn.Some? <==> files.pn.Some? || exists i :: 0 <= i < |rows| && IsPnRow(rows[i])
    ensures r.mos.Some? <==> files.mos.Some? || exists i :: 0 <= i < |rows| && IsMosRow(rows[i])
    ensures files.pn.Some? ==> files.pn.value <= r.pn.value
    ensures files.mos.Some? ==> files.mos.value <= r.mos.value
  {
    WriteRowsAppends(files, rows);
    assert (exists i :: 0 <= i < |rows| && IsPnRow(rows[i])) <==> PnLines(rows) != [] by {
      if i :| 0 <= i < |rows| && IsPnRow(rows[i]) {
        assert rows[i] in Filter(IsPnRow, rows);
      }
      if PnLines(rows) != [] {
        var k := Filter(IsPnRow, rows);
        assert k[0] in rows;
      }
    }
    assert (exists i :: 0 <= i < |rows| && IsMosRow(rows[i])) <==> MosLines(rows) != [] by {
      if i :| 0 <= i < |rows| && IsMosRow(rows[i]) {
        assert rows[i] in Filter(IsMosRow, rows);
      }
      if MosLines(rows) != [] {
        var k := Filter(IsMosRow, rows);
        assert k[0] in rows;
      }
    }
    WriteRows(files, rows)
  }

  /** An exposure id that survives the reader's `strip().upper()` unchanged, such as `S003`. */
  predicate IsPlainExpId(id: string) {
    && id != []
    && forall i :: 0 <= i < |id| ==> id[i] != '\n' && !IsSpace(id[i]) && !IsLower(id[i])
  }

  /**
   * When the exposure id of every listed row is plain and each MOS camera
   * character is neither whitespace nor a lower-case letter, a first run (no
   * listings yet) writes files that read back as exactly the lines placed, so
   * the completion check sees these exposures.
   */
  lemma ListingsReadBack(rows: seq<TableRow>)
    requires forall i :: 0 <= i < |rows| && (IsPnRow(rows[i]) || IsMosRow(rows[i])) ==> IsPlainExpId(rows[i].expId)
    requires forall i :: 0 <= i < |rows| && IsMosRow(rows[i]) ==> !IsSpace(Instrument(rows[i])[3]) && !IsLower(Instrument(rows[i])[3])
    ensures Listing.ReadListing(Run(ExposureFiles(None, None), rows).pn) == PnLines(rows)
    ensures Listing.ReadListing(Run(ExposureFiles(None, None), rows).mos) == MosLines(rows)
  {
    var pn, mos := PnLines(rows), MosLines(rows);
    forall i | 0 <= i < |pn| ensures Listing.IsCanonicalLine(pn[i]) {
      var k := Filter(IsPnRow, rows);
      assert k[i] in rows;
    }
    forall i | 0 <= i < |mos| ensures Listing.IsCanonicalLine(mos[i]) {
      var k := Filter(IsMosRow, rows);
      assert k[i] in rows;
      var row := k[i];
      var j :| 0 <= j < |rows| && rows[j] == row;
      assert IsPlainExpId(row.expId);
      assert mos[i] == [Instrument(row)[3]] + row.expId;
    }
    Listing.ReadBackCanonical(None, pn);
    Listing.ReadBackCanonical(None, mos);
  }
}
