# Column maximum of a CSV file, in Dafny

The Go exercise `introduction_to_go/exercises/template1` opens a CSV file and reads all
of its records. It then parses field 0 of each record with `strconv.Atoi` and prints
the largest value. The logic the program owns is the loop in `main` that keeps the
running maximum `intMax`. That loop is modelled here, in module `Template1` of
`template1.dfy`:

- `ScanMax` is the loop itself. It is a method over the records `ReadAll` returned.
  A local accumulator starts at Go's zero value 0 and is replaced when a parsed value
  is strictly greater.
- `Atoi` is a parameter of type `string -> Parsed`. `Parsed(value, ok)` stands for the
  pair `(intVal, err)`, with `ok` meaning `err == nil`.
- `Column0` gives the parsed field-0 values in record order. `Max0` is the running
  maximum of a sequence of values. `ColumnMax` is what the program prints.
  `ScanMax` is proved equal to `ColumnMax`.
- `HasField0` is the precondition that every record has a field 0. Without it,
  `record[0]` would panic. Go's CSV reader skips empty lines, so every record it
  returns has at least one field.
- `FailuresReturnZero` is the one assumption about `Atoi`, and it is about the given
  records only: where a field 0 fails to parse, `Atoi` returns 0 with its error. Go's
  `strconv.Atoi` does this for a syntax error such as `"x"`, but not for an
  out-of-range number. Only `ColumnMaxSkipsFailures` uses this assumption.

The comment in the error branch (template1.go:31-33) says a parse error relates to
missing data, which suggests such rows should be skipped. But that branch is empty, and
`intVal` is still compared at line 35. So a failed parse affects the result only through
the value `Atoi` returns with its error. `ColumnMaxSkipsFailures` shows the row is in
effect skipped when that value is 0. `FailedValueStillCompared` shows it is not when the
value is positive. On a range error, Go's `Atoi` returns the largest `int` for a positive
out-of-range input (and the smallest `int` for a negative one), so a too-large field 0
becomes the result.

The zero-initialised accumulator is kept as written. An all-negative column yields 0
(`ColumnMaxZeroIff`).

## Model

| member | source | states |
|---|---|---|
| `Template1.ScanMax` | introduction_to_go/exercises/template1/template1.go:28-38 | the loop's result equals `ColumnMax` of the records; it is non-negative, at least the value parsed from every record's field 0, and either 0 or one of those values; the loop invariant is that after `idx` records `intMax` is the running maximum of their parsed values |
| `Template1.Max0` | introduction_to_go/exercises/template1/template1.go:28-36 | reference definition of the accumulator: starting at 0, each value replaces it when strictly greater; it has no contract of its own, its properties are the `Max0…` lemmas below |
| `Template1.ColumnMax` | introduction_to_go/exercises/template1/template1.go:28-41 | reference definition of the value printed at line 41: `Max0` over column 0 of the records; it has no contract of its own, its properties are the `ColumnMax…` lemmas below |
| `Template1.Column0` | introduction_to_go/exercises/template1/template1.go:29-30 | one value per record, in record order, each the value `Atoi` returns for that record's field 0, whether or not it reported an error |
| `Template1.OkValues` | introduction_to_go/exercises/template1/template1.go:30-33 | a value occurs exactly when some record's field 0 parses to it without error |
| `Template1.Column0Contains` | introduction_to_go/exercises/template1/template1.go:29-30 | a value occurs in column 0 if and only if some record's field 0 parses to it |
| `Template1.Column0Concat` | introduction_to_go/exercises/template1/template1.go:29-30 | column 0 of two batches of records read one after the other is the two columns concatenated |
| `Template1.Max0Snoc` | introduction_to_go/exercises/template1/template1.go:35-37 | proof helper: unfolds `Max0` by one appended value (replaced exactly when strictly greater); used by the loop proof and `Max0PrefixMonotone` |
| `Template1.ColumnMaxSnoc` | introduction_to_go/exercises/template1/template1.go:29-37 | proof helper: the same one-step unfolding for the first `i+1` records; it carries `ScanMax`'s loop invariant across one iteration |
| `Template1.Max0NonNegative` | introduction_to_go/exercises/template1/template1.go:28-37 | the running maximum is never negative |
| `Template1.Max0UpperBound` | introduction_to_go/exercises/template1/template1.go:29-37 | the running maximum is at least every value compared |
| `Template1.Max0Attained` | introduction_to_go/exercises/template1/template1.go:28-36 | the running maximum is 0 or one of the values compared |
| `Template1.Max0Characterised` | introduction_to_go/exercises/template1/template1.go:28-38 | `m` is the running maximum if and only if it is non-negative, bounds every value, and is 0 or one of the values |
| `Template1.Max0DeterminedByPositives` | introduction_to_go/exercises/template1/template1.go:28-38 | two value sequences with the same positive members have the same running maximum (order, repetition and non-positive values do not matter) |
| `Template1.Max0ZeroIff` | introduction_to_go/exercises/template1/template1.go:28-38 | the running maximum is 0 if and only if no value is positive |
| `Template1.Max0PrefixMonotone` | introduction_to_go/exercises/template1/template1.go:29-38 | the accumulator never decreases: the maximum over a shorter prefix is at most that over a longer one |
| `Template1.ColumnMaxPrefixMonotone` | introduction_to_go/exercises/template1/template1.go:29-38 | the loop's accumulator never decreases: the result over the first `i` records is at most the result over the first `j >= i` |
| `Template1.ColumnMaxZeroIff` | introduction_to_go/exercises/template1/template1.go:28-38 | the result is 0 if and only if no record's field 0 parses to a positive value; this covers no records and an all-negative column |
| `Template1.ColumnMaxPermutation` | introduction_to_go/exercises/template1/template1.go:29-37 | permuting the records does not change the result |
| `Template1.ColumnMaxReadsOnlyField0` | introduction_to_go/exercises/template1/template1.go:30 | records that agree on field 0 give the same result, whatever their other fields |
| `Template1.ColumnMaxIgnoresParseError` | introduction_to_go/exercises/template1/template1.go:30-37 | the error `Atoi` reports is never consulted: parsers that return the same values give the same result |
| `Template1.ColumnMaxSkipsFailures` | introduction_to_go/exercises/template1/template1.go:30-37 | if every failed parse among the records returns 0, the result is the running maximum of only the successfully parsed values |
| `Template1.ColumnMaxFailedRecordTransparent` | introduction_to_go/exercises/template1/template1.go:30-37 | inserting, anywhere among the records, a record whose field 0 fails to parse and returns 0 leaves the result unchanged |
| `Template1.FailedValueStillCompared` | introduction_to_go/exercises/template1/template1.go:30-37 | a failed parse that returns a positive value above every other value becomes the result, which then differs from the maximum of the successfully parsed values |
| `Template1.ColumnMaxFitsInt64` | introduction_to_go/exercises/template1/template1.go:28-36 | if every parsed value fits Go's 64-bit `int`, so does the result |

## Left out

- Opening the file and exiting with `log.Fatal` on failure (template1.go:15-18): filesystem I/O and process termination.
- Reading the CSV with `csv.NewReader(...).ReadAll()` (template1.go:21-25): a library parser whose code is not part of this model. Its output, the records, is the input of `ScanMax`.
- The internals of `strconv.Atoi`, including its range checks and its clamping of out-of-range values: a library function, taken as the parameter `atoi`. The only assumption made about it is `FailuresReturnZero` on the given records, and only where a lemma says so.
- Printing the result with `fmt.Println` (template1.go:41): output I/O.
- Machine-width integers: the loop only compares and assigns, so `int` is used. `ColumnMaxFitsInt64` states that the result stays in the 64-bit range when the inputs do.
