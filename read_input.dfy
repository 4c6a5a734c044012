/**
 * Reading a formatted observation table into the standardised table, and
 * the output-format check made before such a table is written out.
 */
module ReadInput {
  import opened Wrappers
  import opened Tables
  import opened Outcomes
  import opened Normalisation

  /**
   * The presence flags of column c, one per row: for a masked table, the
   * negated mask of the column; for an unmasked table, all set exactly when
   * the column exists. Either way a flag is set when the row has a value there.
   */
  function PresenceFlags(t: Table, c: Column): (flags: seq<bool>)
    ensures |flags| == |t.rows|
    ensures forall i :: 0 <= i < |t.rows| ==> (flags[i] <==> Has(t, i, c))
  {
    if t.masked then seq(|t.rows|, i requires 0 <= i < |t.rows| => c in t.columns && Present(t.rows[i], c))
    else seq(|t.rows|, _ => c in t.columns)
  }

  /** Looking up column c of a row: the column's entry, or a failure naming the column. */
  function Lookup(t: Table, row: InputRow, c: Column): (r: Result<Entry<real>, ReadError>)
    requires IsQuantity(c)
    ensures r.Success? <==> c in t.columns
    ensures r.Failure? ==> r.error == MissingColumn(c)
    ensures r.Success? ==> r.value == Quantity(row, c)
  {
    if c in t.columns then Success(Quantity(row, c)) else Failure(MissingColumn(c))
  }

  /**
   * The body of the reader's row loop: puts the epoch in MJD, checks the
   * object id, then reads the astrometric set and the RV value, in that order.
   */
  method ReadRow(t: Table, index: nat, haveRa: bool, haveDec: bool, haveSep: bool, havePa: bool, haveRv: bool)
    returns (r: Outcome)
    requires Validate(t).None? && index < |t.rows|
    requires haveRa == Has(t, index, RaOff) && haveDec == Has(t, index, DecOff)
    requires haveSep == Has(t, index, Sep) && havePa == Has(t, index, Pa) && haveRv == Has(t, index, Rv)
    ensures r == RowResult(t, index)
  {
    var row := t.rows[index];
    var mjd := ToMjd(row.epoch.v);
    if !row.obj.v.IntId? {
      return Failure(InvalidObjectId);
    }
    var id := row.obj.v.n;
    var astrometric :- ReadAstrometry(t, index, mjd, id, haveRa, haveDec, haveSep, havePa);
    var rv :- ReadRv(t, index, mjd, id, haveRv);
    return Success(astrometric + rv);
  }

  /**
   * Appends the row's RA/Dec output row when it has both RA and Dec, else
   * its sep/PA output row when it has both sep and PA, reading each value
   * and error column in turn; a missing error column fails the read.
   */
  method ReadAstrometry(t: Table, index: nat, mjd: real, id: int, haveRa: bool, haveDec: bool, haveSep: bool, havePa: bool)
    returns (r: Outcome)
    requires Validate(t).None? && index < |t.rows| && t.rows[index].obj.v == IntId(id)
    requires mjd == ToMjd(t.rows[index].epoch.v)
    requires haveRa == Has(t, index, RaOff) && haveDec == Has(t, index, DecOff)
    requires haveSep == Has(t, index, Sep) && havePa == Has(t, index, Pa)
    ensures r == AstrometryOutcome(t, index)
  {
    var row := t.rows[index];
    if haveRa && haveDec {
      var raoff := row.raoff;
      if RaOffErr !in t.columns {
        FirstAbsentAt(Lookups(RaDec), t.columns, 1);
      }
      var raoffErr :- Lookup(t, row, RaOffErr);
      var decoff := row.decoff;
      if DecOffErr !in t.columns {
        FirstAbsentAt(Lookups(RaDec), t.columns, 3);
      }
      var decoffErr :- Lookup(t, row, DecOffErr);
      return Success([OutRow(mjd, id, raoff.v, raoffErr, decoff, decoffErr, RaDec)]);
    } else if haveSep && havePa {
      var sep := row.sep;
      if SepErr !in t.columns {
        FirstAbsentAt(Lookups(SepPa), t.columns, 1);
      }
      var sepErr :- Lookup(t, row, SepErr);
      var pa := row.pa;
      if PaErr !in t.columns {
        FirstAbsentAt(Lookups(SepPa), t.columns, 3);
      }
      var paErr :- Lookup(t, row, PaErr);
      return Success([OutRow(mjd, id, sep.v, sepErr, pa, paErr, SepPa)]);
    }
    return Success([]);
  }

  /** Gives the row's "rv" output row when it has an RV value; a missing RV error column fails the read. */
  method ReadRv(t: Table, index: nat, mjd: real, id: int, haveRv: bool) returns (r: Outcome)
    requires Validate(t).None? && index < |t.rows| && t.rows[index].obj.v == IntId(id)
    requires mjd == ToMjd(t.rows[index].epoch.v)
    requires haveRv == Has(t, index, Rv)
    ensures r == RvOutcome(t, index)
  {
    var row := t.rows[index];
    if haveRv {
      var rv := row.rv;
      if RvErr !in t.columns {
        FirstAbsentAt(Lookups(RadialVelocity), t.columns, 1);
      }
      var rvErr :- Lookup(t, row, RvErr);
      return Success([OutRow(mjd, id, rv.v, rvErr, Empty, Empty, RadialVelocity)]);
    }
    return Success([]);
  }

  /**
   * Reads the rows of an observation table into the standardised table:
   * first the required columns (and, in a masked table, their entries) are
   * checked, then each row in turn is read by ReadRow and its output rows
   * appended; the first row that cannot be read fails the whole read.
   */
  method ReadFormattedFile(t: Table) returns (r: Result<seq<OutRow>, ReadError>)
    ensures r == Normalise(t)
  {
    var invalid := Validate(t);
    if invalid.Some? {
      return Failure(invalid.value);
    }
    var haveRa := PresenceFlags(t, RaOff);
    var haveDec := PresenceFlags(t, DecOff);
    var haveSep := PresenceFlags(t, Sep);
    var havePa := PresenceFlags(t, Pa);
    var haveRv := PresenceFlags(t, Rv);

    ghost var outcomes := RowResults(t);
    assert Normalise(t) == Joined(outcomes, |t.rows|);
    var output: seq<OutRow> := [];
    var index := 0;
    while index < |t.rows|
      invariant index <= |t.rows|
      invariant Joined(outcomes, index) == Success(output)
    {
      JoinedStep(outcomes, index, output);
      var rows :- ReadRow(t, index, haveRa[index], haveDec[index], haveSep[index], havePa[index], haveRv[index]);
      assert outcomes[index] == Success(rows);
      output := output + rows;
      index := index + 1;
    }
    return Success(output);
  }

  /** The formats the standardised table may be written in. */
  const ValidFormats: seq<string> := [
    "aastex", "basic", "commented_header", "csv", "ecsv",
    "fixed_width", "fixed_width_no_header", "fixed_width_two_line",
    "html", "ipac", "latex", "no_header", "rdb", "rst", "tab"]

  /** The format used when the caller names none. */
  const DefaultFileType: string := "csv"

  datatype WriteError = InvalidOutputFormat

  /** What is handed to the table writer: the table, the file name and the format. */
  datatype WriteRequest = WriteRequest(table: seq<OutRow>, outputFilename: string, format: string)

  /**
   * Writing a standardised table: an unknown format is refused before
   * anything is written; otherwise the table goes to the writer unchanged.
   */
  function WriteOrbitizeInput(table: seq<OutRow>, outputFilename: string, fileType: string := DefaultFileType): (r: Result<WriteRequest, WriteError>)
    ensures r.Success? <==> exists k :: 0 <= k < |ValidFormats| && ValidFormats[k] == fileType
    ensures r.Success? ==> r.value.table == table && r.value.outputFilename == outputFilename && r.value.format == fileType
  {
    if fileType in ValidFormats then Success(WriteRequest(table, outputFilename, fileType))
    else Failure(InvalidOutputFormat)
  }

  /** The default format is accepted, and exactly fifteen distinct formats are. */
  lemma ValidFormatsAreFifteen()
    ensures WriteOrbitizeInput([], "").Success?
    ensures |ValidFormats| == 15
    ensures forall j, k :: 0 <= j < k < |ValidFormats| ==> ValidFormats[j] != ValidFormats[k]
  {
    assert ValidFormats[3] == DefaultFileType;
  }
}
