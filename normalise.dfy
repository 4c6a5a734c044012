/**
 * The reference definition of what reading a formatted observation table
 * produces: the validation of the required columns, the per-row conversion
 * into standardised rows, and the properties of the whole output table.
 */
module Normalisation {
  import opened Wrappers
  import opened Tables
  import opened Outcomes

  /** An epoch above this value is a Julian Date; below or at it, a Modified Julian Date. */
  const JdOffset: real := 2400000.5

  /** The MJD of an epoch given either as JD or as MJD. */
  function ToMjd(epoch: real): (mjd: real)
    ensures epoch > JdOffset ==> mjd + JdOffset == epoch && mjd > 0.0
    ensures epoch <= JdOffset ==> mjd == epoch
  {
    if epoch > JdOffset then epoch - JdOffset else epoch
  }

  /** No entry of column c is masked. */
  predicate AllPresent(t: Table, c: Column) {
    forall i :: 0 <= i < |t.rows| ==> Present(t.rows[i], c)
  }

  /**
   * The checks made before any row is read, in the order the reader makes
   * them. A masked table also has every epoch and object entry checked;
   * an unmasked table only has its columns checked.
   */
  function Validate(t: Table): (err: Option<ReadError>)
    ensures err.None? <==>
      Epoch in t.columns && Object in t.columns && AllPresent(t, Epoch) && AllPresent(t, Object)
    ensures Epoch !in t.columns ==> err == Some(NoEpochColumn)
    ensures Epoch in t.columns && AllPresent(t, Epoch) && Object !in t.columns ==> err == Some(NoObjectColumn)
    ensures err.Some? && err.value == MissingEpochEntries ==> t.masked && !AllPresent(t, Epoch)
    ensures err.Some? && err.value == MissingObjectEntries ==> t.masked && !AllPresent(t, Object)
    ensures err.Some? ==> !err.value.InvalidObjectId? && !err.value.MissingColumn?
    ensures err == Some(NoEpochColumn) ==> Epoch !in t.columns
    ensures t.masked && Epoch in t.columns && !AllPresent(t, Epoch) ==> err == Some(MissingEpochEntries)
    ensures Epoch in t.columns && AllPresent(t, Epoch) && Object in t.columns && !AllPresent(t, Object) ==>
      err == Some(MissingObjectEntries)
  {
    if t.masked then
      if Epoch !in t.columns then Some(NoEpochColumn)
      else if !AllPresent(t, Epoch) then Some(MissingEpochEntries)
      else if Object !in t.columns then Some(NoObjectColumn)
      else if !AllPresent(t, Object) then Some(MissingObjectEntries)
      else None
    else
      if Epoch !in t.columns then Some(NoEpochColumn)
      else if Object !in t.columns then Some(NoObjectColumn)
      else None
  }

  /** The astrometric set row i offers, if any: RA/Dec takes precedence over sep/PA. */
  function Astrometry(t: Table, i: nat): (q: Option<QuantType>)
    requires i < |t.rows|
    ensures q == Some(RaDec) <==> Offers(t, i, RaDec)
    ensures q == Some(SepPa) <==> !Offers(t, i, RaDec) && Offers(t, i, SepPa)
    ensures q.None? <==> !Offers(t, i, RaDec) && !Offers(t, i, SepPa)
    ensures q != Some(RadialVelocity)
  {
    if Has(t, i, RaOff) && Has(t, i, DecOff) then Some(RaDec)
    else if Has(t, i, Sep) && Has(t, i, Pa) then Some(SepPa)
    else None
  }

  /** Row i has every value quantity type q is built from. */
  predicate Offers(t: Table, i: nat, q: QuantType)
    requires i < |t.rows|
  {
    match q
    case RaDec => Has(t, i, RaOff) && Has(t, i, DecOff)
    case SepPa => Has(t, i, Sep) && Has(t, i, Pa)
    case RadialVelocity => Has(t, i, Rv)
  }

  /** The columns an output row of type q is read from, in the order the reader looks them up. */
  function Lookups(q: QuantType): seq<Column> {
    match q
    case RaDec => [RaOff, RaOffErr, DecOff, DecOffErr]
    case SepPa => [Sep, SepErr, Pa, PaErr]
    case RadialVelocity => [Rv, RvErr]
  }

  /** Every column row i is read from, in lookup order. */
  function Needed(t: Table, i: nat): seq<Column>
    requires i < |t.rows|
  {
    (match Astrometry(t, i) case Some(q) => Lookups(q) case None => [])
    + (if Has(t, i, Rv) then Lookups(RadialVelocity) else [])
  }

  /** A column is read for row i when it is read for the set the row offers or for its RV value. */
  lemma NeededParts(t: Table, i: nat)
    requires i < |t.rows|
    ensures forall c :: c in Needed(t, i) <==>
      (Astrometry(t, i).Some? && c in Lookups(Astrometry(t, i).value)) || (Has(t, i, Rv) && c in Lookups(RadialVelocity))
  {
  }

  /** The first of cols that is not in present. */
  function FirstAbsent(cols: seq<Column>, present: set<Column>): (m: Option<Column>)
    ensures m.None? <==> forall k :: 0 <= k < |cols| ==> cols[k] in present
    ensures m.Some? ==> m.value !in present && m.value in cols
  {
    if cols == [] then None
    else if cols[0] !in present then Some(cols[0])
    else FirstAbsent(cols[1..], present)
  }

  /** The first absent column is the one at the first position k whose column is absent. */
  lemma {:induction false} FirstAbsentAt(cols: seq<Column>, present: set<Column>, k: nat)
    requires k < |cols| && cols[k] !in present
    requires forall j :: 0 <= j < k ==> cols[j] in present
    ensures FirstAbsent(cols, present) == Some(cols[k])
  {
    if k > 0 {
      FirstAbsentAt(cols[1..], present, k - 1);
    }
  }

  /** Looking up a + b in order fails at the first column of a that is missing, else at that of b. */
  lemma {:induction false} FirstAbsentAppend(a: seq<Column>, b: seq<Column>, present: set<Column>)
    ensures FirstAbsent(a + b, present)
      == (if FirstAbsent(a, present).Some? then FirstAbsent(a, present) else FirstAbsent(b, present))
  {
    if a != [] {
      assert (a + b)[1..] == a[1..] + b;
      FirstAbsentAppend(a[1..], b, present);
    } else {
      assert a + b == b;
    }
  }

  /** The output row of type q built from row i. */
  function MakeRow(t: Table, i: nat, q: QuantType): (r: OutRow)
    requires i < |t.rows| && Validate(t).None? && t.rows[i].obj.v.IntId? && Offers(t, i, q)
    ensures r.epoch == ToMjd(t.rows[i].epoch.v) && r.obj == t.rows[i].obj.v.n && r.quantType == q
    ensures Value(r.quant1) == Quantity(t.rows[i], Lookups(q)[0])
    ensures r.quant1Err == Quantity(t.rows[i], Lookups(q)[1])
    ensures q != RadialVelocity ==>
      r.quant2 == Quantity(t.rows[i], Lookups(q)[2]) && r.quant2Err == Quantity(t.rows[i], Lookups(q)[3])
    ensures q == RadialVelocity ==> r.quant2 == Empty && r.quant2Err == Empty
  {
    var row := t.rows[i];
    var mjd := ToMjd(row.epoch.v);
    var id := row.obj.v.n;
    match q
    case RaDec => OutRow(mjd, id, row.raoff.v, row.raoffErr, row.decoff, row.decoffErr, RaDec)
    case SepPa => OutRow(mjd, id, row.sep.v, row.sepErr, row.pa, row.paErr, SepPa)
    case RadialVelocity => OutRow(mjd, id, row.rv.v, row.rvErr, Empty, Empty, RadialVelocity)
  }

  /** How many output rows row i yields when it yields any. */
  function Contribution(t: Table, i: nat): (n: nat)
    requires i < |t.rows|
    ensures n <= 2
  {
    (if Astrometry(t, i).Some? then 1 else 0) + (if Has(t, i, Rv) then 1 else 0)
  }

  /**
   * The astrometric part of reading row i: the output row for the set it
   * offers (RA/Dec before sep/PA), none, or the first column read for that
   * set that the table lacks.
   */
  function AstrometryOutcome(t: Table, i: nat): (r: Outcome)
    requires i < |t.rows| && Validate(t).None? && t.rows[i].obj.v.IntId?
    ensures r.Failure? ==> r.error.MissingColumn? && r.error.column !in t.columns
    ensures r.Success? ==> |r.value| <= 1
    ensures r.Success? ==> forall k :: 0 <= k < |r.value| ==> r.value[k].quantType != RadialVelocity
  {
    match Astrometry(t, i)
    case None => Success([])
    case Some(q) =>
      match FirstAbsent(Lookups(q), t.columns)
      case Some(c) => Failure(MissingColumn(c))
      case None => Success([MakeRow(t, i, q)])
  }

  /** The RV part of reading row i: its "rv" output row, none, or the RV column the table lacks. */
  function RvOutcome(t: Table, i: nat): (r: Outcome)
    requires i < |t.rows| && Validate(t).None? && t.rows[i].obj.v.IntId?
    ensures r.Failure? ==> Has(t, i, Rv) && r.error == MissingColumn(RvErr) && RvErr !in t.columns
    ensures r.Success? ==> |r.value| == (if Has(t, i, Rv) then 1 else 0)
    ensures r.Success? ==> forall k :: 0 <= k < |r.value| ==> r.value[k].quantType == RadialVelocity
  {
    if !Has(t, i, Rv) then Success([])
    else match FirstAbsent(Lookups(RadialVelocity), t.columns)
      case Some(c) => Failure(MissingColumn(c))
      case None => Success([MakeRow(t, i, RadialVelocity)])
  }

  /**
   * What row i contributes to the output table, or why the whole read fails
   * at row i: its object id is not an integer, or a column it must be read
   * from is missing.
   */
  function RowResult(t: Table, i: nat): (r: Outcome)
    requires i < |t.rows| && Validate(t).None?
    ensures r.Failure? ==> r.error == InvalidObjectId || (r.error.MissingColumn? && r.error.column !in t.columns)
    ensures r.Success? ==> |r.value| <= 2
  {
    if t.rows[i].obj.v.OtherId? then Failure(InvalidObjectId)
    else
      match AstrometryOutcome(t, i)
      case Failure(e) => Failure(e)
      case Success(a) =>
        match RvOutcome(t, i)
        case Failure(e) => Failure(e)
        case Success(v) => Success(a + v)
  }

  /**
   * Row i fails on a non-integer object id; otherwise it is readable exactly
   * when the table has every column it is read from, a failure names such a
   * column that is missing, and a readable row yields one row per set it has.
   */
  lemma RowResultMeaning(t: Table, i: nat)
    requires i < |t.rows| && Validate(t).None?
    ensures t.rows[i].obj.v.OtherId? ==> RowResult(t, i) == Failure(InvalidObjectId)
    ensures RowResult(t, i).Success? <==>
      t.rows[i].obj.v.IntId? && forall c :: c in Needed(t, i) ==> c in t.columns
    ensures RowResult(t, i).Failure? && RowResult(t, i).error.MissingColumn? ==>
      RowResult(t, i).error.column in Needed(t, i) && RowResult(t, i).error.column !in t.columns
    ensures RowResult(t, i).Failure? && RowResult(t, i).error.MissingColumn? ==>
      FirstAbsent(Needed(t, i), t.columns) == Some(RowResult(t, i).error.column)
    ensures t.rows[i].obj.v.IntId? && RowResult(t, i).Failure? ==>
      FirstAbsent(Needed(t, i), t.columns).Some?
      && RowResult(t, i).error == MissingColumn(FirstAbsent(Needed(t, i), t.columns).value)
    ensures RowResult(t, i).Success? ==> |RowResult(t, i).value| == Contribution(t, i)
  {
    NeededParts(t, i);
    var astrometric := match Astrometry(t, i) case Some(q) => Lookups(q) case None => [];
    var rv := if Has(t, i, Rv) then Lookups(RadialVelocity) else [];
    FirstAbsentAppend(astrometric, rv, t.columns);
  }

  /** Every output row a readable row yields carries the row's epoch, in MJD, and its object id. */
  lemma RowCarriesEpochAndObject(t: Table, i: nat)
    requires i < |t.rows| && Validate(t).None? && RowResult(t, i).Success?
    ensures forall k :: 0 <= k < |RowResult(t, i).value| ==>
      RowResult(t, i).value[k].epoch == ToMjd(t.rows[i].epoch.v)
      && RowResult(t, i).value[k].obj == t.rows[i].obj.v.n
  {
  }

  /**
   * A row with both RA and Dec yields a "radec" row from its RA/Dec offsets
   * and errors first, and no "seppa" row even when it also has sep and PA.
   */
  lemma RaDecTakesPrecedence(t: Table, i: nat)
    requires i < |t.rows| && Validate(t).None? && RowResult(t, i).Success?
    requires Has(t, i, RaOff) && Has(t, i, DecOff)
    ensures var row := t.rows[i];
      RowResult(t, i).value[0]
        == OutRow(ToMjd(row.epoch.v), row.obj.v.n, row.raoff.v, row.raoffErr, row.decoff, row.decoffErr, RaDec)
    ensures forall k :: 0 <= k < |RowResult(t, i).value| ==> RowResult(t, i).value[k].quantType != SepPa
  {
  }

  /** A row yields a "seppa" row, first, exactly when its RA/Dec pair is incomplete and it has both sep and PA. */
  lemma SepPaOnlyWithoutRaDec(t: Table, i: nat)
    requires i < |t.rows| && Validate(t).None? && RowResult(t, i).Success?
    ensures (exists k :: 0 <= k < |RowResult(t, i).value| && RowResult(t, i).value[k].quantType == SepPa)
        <==> !(Has(t, i, RaOff) && Has(t, i, DecOff)) && Has(t, i, Sep) && Has(t, i, Pa)
    ensures !(Has(t, i, RaOff) && Has(t, i, DecOff)) && Has(t, i, Sep) && Has(t, i, Pa) ==>
      var row := t.rows[i];
      RowResult(t, i).value[0]
        == OutRow(ToMjd(row.epoch.v), row.obj.v.n, row.sep.v, row.sepErr, row.pa, row.paErr, SepPa)
  {
    var rows := RowResult(t, i).value;
    if !(Has(t, i, RaOff) && Has(t, i, DecOff)) && Has(t, i, Sep) && Has(t, i, Pa) {
      assert rows[0].quantType == SepPa;
    }
  }

  /** A row with an RV value yields an "rv" row with empty second quantity, after any astrometric row. */
  lemma RvRowComesLast(t: Table, i: nat)
    requires i < |t.rows| && Validate(t).None? && RowResult(t, i).Success?
    requires Has(t, i, Rv)
    ensures var rows := RowResult(t, i).value;
      var row := t.rows[i];
      && |rows| > 0
      && rows[|rows| - 1] == OutRow(ToMjd(row.epoch.v), row.obj.v.n, row.rv.v, row.rvErr, Empty, Empty, RadialVelocity)
      && forall k :: 0 <= k < |rows| - 1 ==> rows[k].quantType != RadialVelocity
  {
  }

  /** A readable row without a complete RA/Dec, sep/PA or RV set yields nothing. */
  lemma IncompleteRowDropped(t: Table, i: nat)
    requires i < |t.rows| && Validate(t).None? && RowResult(t, i).Success?
    requires !(Has(t, i, RaOff) && Has(t, i, DecOff)) && !(Has(t, i, Sep) && Has(t, i, Pa)) && !Has(t, i, Rv)
    ensures RowResult(t, i).value == []
  {
  }

  /** The outcome of reading each row of a table that passed validation. */
  function RowResults(t: Table): (os: seq<Outcome>)
    requires Validate(t).None?
    ensures |os| == |t.rows|
    ensures forall j :: 0 <= j < |t.rows| ==> os[j] == RowResult(t, j)
  {
    seq(|t.rows|, j requires 0 <= j < |t.rows| && Validate(t).None? => RowResult(t, j))
  }

  /** The standardised table read from t, or the reason it cannot be read. */
  function Normalise(t: Table): (r: Result<seq<OutRow>, ReadError>)
    ensures Validate(t).Some? ==> r == Failure(Validate(t).value)
    ensures r.Success? ==>
      Epoch in t.columns && Object in t.columns && AllPresent(t, Epoch) && AllPresent(t, Object)
  {
    match Validate(t)
    case Some(e) => Failure(e)
    case None => Joined(RowResults(t), |t.rows|)
  }

  /** The position in the output table at which the rows of input row n begin. */
  function Offset(t: Table, n: nat): nat
    requires Validate(t).None? && n <= |t.rows|
  {
    Start(RowResults(t), n)
  }

  /**
   * The output table of a successful read is the rows of each input row in
   * input order: input row i yields exactly the rows at Offset(i) .. Offset(i+1),
   * one or two of them when it offers a complete set and none otherwise.
   */
  lemma OutputIsRowsInOrder(t: Table, out: seq<OutRow>, i: nat)
    requires Normalise(t) == Success(out) && i < |t.rows|
    ensures |out| == Offset(t, |t.rows|)
    ensures Offset(t, i) <= Offset(t, i + 1) <= |out|
    ensures Offset(t, i + 1) == Offset(t, i) + Contribution(t, i)
    ensures RowResult(t, i) == Success(out[Offset(t, i)..Offset(t, i + 1)])
  {
    JoinedBlock(RowResults(t), |t.rows|, i);
    RowResultMeaning(t, i);
  }

  /** Rows of an earlier input row come before the rows of a later one. */
  lemma OutputOrderFollowsInput(t: Table, out: seq<OutRow>, i: nat, j: nat, k1: nat, k2: nat)
    requires Normalise(t) == Success(out)
    requires i < j < |t.rows|
    requires Offset(t, i) <= k1 < Offset(t, i + 1) && Offset(t, j) <= k2 < Offset(t, j + 1)
    ensures k1 < k2 < |out|
  {
    OrderFollows(RowResults(t), |t.rows|, i, j, k1, k2);
  }

  /**
   * Every output row comes from some input row and carries that row's epoch,
   * converted to MJD, and its integer object id.
   */
  lemma OutputRowSource(t: Table, out: seq<OutRow>, k: nat)
    requires Normalise(t) == Success(out) && k < |out|
    ensures exists i :: (0 <= i < |t.rows| && Offset(t, i) <= k < Offset(t, i + 1)
      && t.rows[i].epoch.Value? && out[k].epoch == ToMjd(t.rows[i].epoch.v)
      && t.rows[i].obj.Value? && t.rows[i].obj.v.IntId? && out[k].obj == t.rows[i].obj.v.n)
  {
    var os := RowResults(t);
    assert Joined(os, |t.rows|) == Success(out);
    var i := SourcePosition(os, |t.rows|, k);
    assert os[i] == RowResult(t, i);
    RowCarriesEpochAndObject(t, i);
    assert out[k] == RowResult(t, i).value[k - Offset(t, i)];
    assert 0 <= i < |t.rows| && Offset(t, i) <= k < Offset(t, i + 1)
      && t.rows[i].epoch.Value? && out[k].epoch == ToMjd(t.rows[i].epoch.v)
      && t.rows[i].obj.Value? && t.rows[i].obj.v.IntId? && out[k].obj == t.rows[i].obj.v.n;
  }

  /**
   * A row whose object id is not an integer fails the whole read, so no
   * partial table is returned; when every earlier row is readable the error
   * is the invalid object id.
   */
  lemma InvalidObjectIdFails(t: Table, i: nat)
    requires Validate(t).None? && i < |t.rows| && t.rows[i].obj.v.OtherId?
    ensures Normalise(t).Failure?
    ensures (forall j :: 0 <= j < i ==> RowResult(t, j).Success?) ==> Normalise(t) == Failure(InvalidObjectId)
  {
    var os := RowResults(t);
    JoinedSuccess(os, |t.rows|);
    if forall j :: 0 <= j < i ==> RowResult(t, j).Success? {
      FirstFailureWins(os, |t.rows|, i);
    }
  }
}
