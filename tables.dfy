/**
 * The data of the observation reader: the input table as read from a file,
 * the standardised output row, and the reasons a read can fail.
 */
module Tables {

  /** The columns the reader looks at; any other column of an input file is ignored. */
  datatype Column =
    | Epoch | Object
    | RaOff | RaOffErr | DecOff | DecOffErr
    | Sep | SepErr | Pa | PaErr
    | Rv | RvErr

  /** One table entry: a value, or nothing (a masked input entry, an empty output cell). */
  datatype Entry<+T> = Value(v: T) | Empty

  /**
   * The value found in the `object` column. Only Python `int`, numpy `int32`
   * and numpy `int64` values count as integer ids; a string, a float or any
   * other integer type is `OtherId`.
   */
  datatype ObjectId = IntId(n: int) | OtherId

  /** One input row; the entry of a column the table does not have is irrelevant. */
  datatype InputRow = InputRow(
    epoch: Entry<real>,
    obj: Entry<ObjectId>,
    raoff: Entry<real>, raoffErr: Entry<real>,
    decoff: Entry<real>, decoffErr: Entry<real>,
    sep: Entry<real>, sepErr: Entry<real>,
    pa: Entry<real>, paErr: Entry<real>,
    rv: Entry<real>, rvErr: Entry<real>)

  predicate IsQuantity(c: Column) {
    c != Epoch && c != Object
  }

  /** The entry of a measurement column of a row. */
  function Quantity(row: InputRow, c: Column): Entry<real>
    requires IsQuantity(c)
  {
    match c
    case RaOff => row.raoff
    case RaOffErr => row.raoffErr
    case DecOff => row.decoff
    case DecOffErr => row.decoffErr
    case Sep => row.sep
    case SepErr => row.sepErr
    case Pa => row.pa
    case PaErr => row.paErr
    case Rv => row.rv
    case RvErr => row.rvErr
  }

  /** Whether the row holds a value (is not masked) in column c. */
  predicate Present(row: InputRow, c: Column) {
    match c
    case Epoch => row.epoch.Value?
    case Object => row.obj.Value?
    case _ => Quantity(row, c).Value?
  }

  /**
   * A table as read from a file: whether it is masked, which of the known
   * columns it has, and its rows in file order.
   */
  datatype RawTable = RawTable(masked: bool, columns: set<Column>, rows: seq<InputRow>)

  /** A table that is not masked has a value in every entry of every column it has. */
  predicate Unmasked(t: RawTable) {
    !t.masked ==> forall i, c :: 0 <= i < |t.rows| && c in t.columns ==> Present(t.rows[i], c)
  }

  type Table = t: RawTable | Unmasked(t) witness RawTable(false, {}, [])

  /** Row i of t has a value for column c: the column exists and the entry is not masked. */
  predicate Has(t: Table, i: int, c: Column)
    requires 0 <= i < |t.rows|
  {
    c in t.columns && Present(t.rows[i], c)
  }

  /** The kind of measurement an output row holds. */
  datatype QuantType = RaDec | SepPa | RadialVelocity {
    /** The `quant_type` text, which the output column stores in at most five bytes. */
    function Name(): (s: string)
      ensures 2 <= |s| <= 5
    {
      match this
      case RaDec => "radec"
      case SepPa => "seppa"
      case RadialVelocity => "rv"
    }
  }

  /**
   * One row of the standardised table. quant1 is always a value; the other
   * measurement cells may be empty (quant2 and quant2Err of an rv row always are).
   */
  datatype OutRow = OutRow(
    epoch: real,
    obj: int,
    quant1: real,
    quant1Err: Entry<real>,
    quant2: Entry<real>,
    quant2Err: Entry<real>,
    quantType: QuantType)

  datatype ReadError =
    | NoEpochColumn                  // the table has no epoch column
    | MissingEpochEntries            // a masked table has a masked epoch entry
    | NoObjectColumn                 // the table has no object column
    | MissingObjectEntries           // a masked table has a masked object entry
    | InvalidObjectId                // a row's object id is not an integer
    | MissingColumn(column: Column)  // a row lookup of a column the table lacks
}
