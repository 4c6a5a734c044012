# orbitize observation-table reader, in Dafny

This project models the observation-table normaliser of orbitize,
`read_formatted_file` in `orbitize/read_input.py`, together with the format
check that `write_orbitize_input` makes before it writes a table.

The reader takes a table of astrometric and radial-velocity measurements. Each
row has an epoch, an object id and optional measurement columns: RA/Dec
offsets, separation/position angle and RV, each with its error. The reader
rewrites the rows into the standardised table
`(epoch, object, quant1, quant1_err, quant2, quant2_err, quant_type)`. It works
in these steps:

1. It checks that the `epoch` and `object` columns exist. In a masked table, it
   also checks that none of their entries is masked.
2. It computes one presence flag per row for each of the `raoff`, `decoff`,
   `sep`, `pa` and `rv` columns.
3. It walks the rows in order. For each row it:
   - converts a JD epoch to MJD;
   - rejects an object id that is not an integer;
   - appends a `radec` row, or else a `seppa` row, and then an `rv` row.

Any failure ends the whole read, and no partial table is returned.

Files:

- `wrappers.dfy`: `Option` and `Result`. `Result` supports the `:-` early return.
- `tables.dfy`: the data model. It holds the input table (`RawTable`, and the
  subset type `Table`, in which a table that is not masked has no missing
  entries), the input row, the
  standardised output row and the read errors.
- `outcomes.dfy`: joins the per-row outcomes in order. The first failing row
  wins. The module also locates each row's block of output rows.
- `normalise.dfy`: the reference definition `Normalise` and the properties
  proved about it.
- `read_input.dfy`: the reader as an imperative method, proved equal to
  `Normalise`, plus the output-format check.

## Model

| member | source | states |
|---|---|---|
| Normalisation.ToMjd | orbitize/read_input.py:144-147 | An epoch strictly above 2400000.5 is a JD and becomes the positive MJD `epoch - 2400000.5`. Any other epoch, including 2400000.5 itself, is kept unchanged. |
| Normalisation.Validate | orbitize/read_input.py:80-117 | The table passes exactly when it has both `epoch` and `object` columns and no entry of either is masked. The errors come in the source's order. A missing epoch column gives `NoEpochColumn`, and only a missing epoch column does. Then, in a masked table, a masked epoch entry gives `MissingEpochEntries` before the object column is looked at. Then a missing object column gives `NoObjectColumn`. Then a masked object entry gives `MissingObjectEntries`. Masked-entry errors arise only for masked tables. |
| ReadInput.PresenceFlags | orbitize/read_input.py:93-137 | The flag array of a column has one entry per row. Entry i is set exactly when the column exists and row i's entry is not masked. This holds for both the masked and the unmasked construction of the array. |
| Normalisation.FirstAbsent | orbitize/read_input.py:155-159 | When a set of columns is looked up in order, the lookup fails exactly when some column is missing. The failure names a missing column from the set. |
| Normalisation.FirstAbsentAt | orbitize/read_input.py:155-159 | The column a failed lookup names is the first missing one in lookup order. |
| ReadInput.Lookup | orbitize/read_input.py:155-159 | Looking up a column in a row succeeds exactly when the table has the column and then yields that column's entry. Otherwise it fails and names the column. |
| Normalisation.FirstAbsentAppend | orbitize/read_input.py:154-159 | Looking up two column lists one after the other fails at the first missing column of the first list, or else at the first missing column of the second. |
| Normalisation.Astrometry | orbitize/read_input.py:154-157 | The astrometric set a row yields is RA/Dec exactly when it has both RA and Dec. It is sep/PA exactly when the RA/Dec pair is incomplete and both sep and PA are present. Otherwise there is none, and it is never RV. |
| Normalisation.MakeRow | orbitize/read_input.py:155-159 | An output row carries the row's MJD epoch, its object id and its type. `quant1` and `quant1_err` come from the set's first column and its error. `quant2` and `quant2_err` come from the second column and its error, and are empty for an `rv` row. |
| Normalisation.AstrometryOutcome | orbitize/read_input.py:154-157 | The astrometric branch yields at most one row, and never an `rv` row. It fails only on a column the table lacks, and the failure names that column. |
| Normalisation.RvOutcome | orbitize/read_input.py:158-159 | The RV branch yields one `rv` row when the row has an RV value and none otherwise. It fails only when the row has an RV value but the table has no `rv_err` column. |
| Normalisation.RowResult | orbitize/read_input.py:143-159 | One iteration of the loop fails only on a non-integer object id or on a column the table lacks. A successful iteration yields at most two rows. |
| Tables.QuantType.Name | orbitize/read_input.py:70-71 | The `quant_type` text of every output row is two to five characters long, so it fits the five-byte `S5` column. |
| Outcomes.Joined | orbitize/read_input.py:141-160 | The loop's append-or-abort over the rows. A successful read is as long as the sum of the rows' contributions. |
| Normalisation.Contribution | orbitize/read_input.py:154-159 | Each input row contributes at most two output rows. |
| Normalisation.RowResultMeaning | orbitize/read_input.py:150-159 | Any row whose object id is not an integer fails with the invalid-object-id error. A row with an integer id is readable exactly when the table has every column the row must be read from. A row with an integer id that is not readable fails with the missing-column error naming the first missing column. The astrometric columns are looked up left to right, then `rv_err`. A readable row yields one output row per complete set it offers. |
| Normalisation.RowCarriesEpochAndObject | orbitize/read_input.py:143-159 | Every output row of an input row carries that row's epoch, converted to MJD, and its integer object id. |
| Normalisation.RaDecTakesPrecedence | orbitize/read_input.py:154-157 | A row with both RA and Dec yields, first, a `radec` row built from `raoff`, `raoff_err`, `decoff` and `decoff_err`. It never yields a `seppa` row, even when sep and PA are present. |
| Normalisation.SepPaOnlyWithoutRaDec | orbitize/read_input.py:154-157 | A row yields a `seppa` row exactly when its RA/Dec pair is incomplete and it has both sep and PA. That `seppa` row comes first and is built from `sep`, `sep_err`, `pa` and `pa_err`. |
| Normalisation.RvRowComesLast | orbitize/read_input.py:158-159 | A row with an RV value yields an `rv` row built from `rv` and `rv_err`, with empty `quant2` and `quant2_err`. The `rv` row is last among that row's output rows, and no earlier output row of the same input row is an `rv` row. |
| Normalisation.IncompleteRowDropped | orbitize/read_input.py:154-159 | A row without a complete RA/Dec, sep/PA or RV set contributes nothing. |
| Normalisation.Normalise | orbitize/read_input.py:77-162 | A failed column or entry check is the result, before any row is read. A successful read implies that both required columns exist and are complete. |
| Normalisation.OutputIsRowsInOrder | orbitize/read_input.py:139-162 | The output of a successful read is the concatenation, in input order, of each row's output rows. Row i's rows occupy exactly positions Offset(i) to Offset(i+1). Each block is as long as the row's contribution. |
| Normalisation.OutputOrderFollowsInput | orbitize/read_input.py:139-162 | The output rows of an earlier input row come before the output rows of a later one. |
| Normalisation.OutputRowSource | orbitize/read_input.py:139-162 | Every output row comes from some input row and carries that row's MJD epoch and integer object id. |
| Normalisation.InvalidObjectIdFails | orbitize/read_input.py:149-151 | A non-integer object id anywhere makes the whole read fail, so no partial table is returned. If every earlier row is readable, the error is the invalid-object-id error. |
| Outcomes.JoinedStep | orbitize/read_input.py:141-160 | Reading one more row either appends its output rows or ends the whole read with that row's error. |
| Outcomes.FirstFailureWins | orbitize/read_input.py:141-160 | The read fails with the error of the first row that fails. |
| Outcomes.JoinedSuccess | orbitize/read_input.py:141-160 | Reading the rows succeeds exactly when every row can be read. |
| Outcomes.JoinedBlock | orbitize/read_input.py:141-160 | In a successful read, row j's output rows are exactly the slice from Start(j) to Start(j+1) of the output. |
| ReadInput.ReadRow | orbitize/read_input.py:143-159 | One iteration of the reader's loop: MJD conversion, the object-id check, then the astrometric and RV rows. Its result is the reference outcome of that row. |
| ReadInput.ReadAstrometry | orbitize/read_input.py:154-157 | The astrometric branch: a `radec` row, else a `seppa` row, else nothing. Its result equals the reference astrometric outcome, including the failure on a missing error column. |
| ReadInput.ReadRv | orbitize/read_input.py:158-159 | The RV branch. Its result equals the reference RV outcome. |
| ReadInput.ReadFormattedFile | orbitize/read_input.py:9-162 | The reader runs the checks, builds the flag arrays and loops over the rows, appending to the output. Its result equals `Normalise`, so every property above holds for what it returns. |
| ReadInput.WriteOrbitizeInput | orbitize/read_input.py:164-186 | A format is accepted exactly when it is one of the listed formats. An accepted request passes the table and file name to the writer unchanged. |
| ReadInput.ValidFormatsAreFifteen | orbitize/read_input.py:179-183 | There are exactly fifteen accepted formats, all distinct, and the default `csv`, used when no format is given, is among them. |

## Left out

- File I/O is not modelled. This covers astropy's `read` and `write` and
  `read_orbitize_input`. The input is an abstract table, and
  `WriteOrbitizeInput` returns the request it would hand to the writer.
- An unmasked table is assumed to hold a value in every entry of every
  column it has, which is what the source assumes at read_input.py:113. The
  subset type `Table` builds this in, so it is assumed of the input, not
  proved. A table whose `masked` is false but which still holds missing
  entries is not modelled. For such a table the source sets every flag of an
  existing column and emits rows from the missing entries. Those rows cannot
  be represented, because `OutRow.quant1` is a `real`.
- Columns other than the twelve the reader looks at are not modelled. The
  reader ignores them.
- Floating point is not modelled: epochs and measurements are `real`, so the
  JD-to-MJD subtraction is exact.
- The `S5` byte encoding of `quant_type` is not modelled. It is kept as the
  `QuantType` datatype, and `QuantType.Name` gives the text, which fits in
  five bytes.
- Masked values are not given a float representation. A masked error entry
  copied into the output table, and the `None` quant2 of an `rv` row, both
  appear as `Empty`. How astropy stores them (masked or NaN) is not modelled.
- `ObjectId` only records whether the id passes the `isinstance` integer
  check. Integer ids are unbounded and carry no numpy width.
- A row lookup of a column the table does not have raises `KeyError` in the
  source. This is modelled as the `MissingColumn` error. Only the error
  columns can be missing at that point, because the value columns are known
  to exist from their flags.
- The reader's loop body is split into the methods `ReadRow`,
  `ReadAstrometry` and `ReadRv`. Together they are the body of the source's
  loop. The output table is a `seq` that the loop reassigns, rather than an
  object appended to in place.
- The orbit-fitting parts of orbitize are not part of this model: the
  likelihood, the driver, the samplers, the priors and the results module.
  They are floating-point numerics and glue around classes that are not
  shown.
