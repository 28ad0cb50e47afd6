/**
  The maximum of the integer column of a CSV file (introduction_to_go/exercises/template1).

  The program reads every record of a CSV file, parses field 0 of each record with
  `strconv.Atoi`, and keeps the largest parsed value in an accumulator `intMax` that
  starts at Go's zero value 0.  Opening the file, the CSV reader and printing are left
  out: the records the reader returned are the input here, and `Atoi` is a parameter.
 */
module Template1 {

  /** One CSV record: its fields, in order. */
  type Record = seq<string>

  /** What `strconv.Atoi` returns: the integer, and whether the error was nil. */
  datatype Parsed = Parsed(value: int, ok: bool)

  /** `strconv.Atoi`, which is not part of this model. */
  type Atoi = string -> Parsed

  /** `record[0]` is only defined when every record has a field 0. */
  predicate HasField0(records: seq<Record>)
  {
    forall i :: 0 <= i < |records| ==> |records[i]| > 0
  }

  /**
    The assumption made about `Atoi` on the given records: where it fails on a field 0,
    it returns 0 alongside its error, as Go's `Atoi` does for a syntax error (but not
    for an out-of-range number).  Only the lemmas about failed parses depend on it.
   */
  predicate FailuresReturnZero(records: seq<Record>, atoi: Atoi)
    requires HasField0(records)
  {
    forall i :: 0 <= i < |records| && !atoi(records[i][0]).ok ==> atoi(records[i][0]).value == 0
  }

  /** The bounds of Go's 64-bit `int`. */
  const MinInt64: int := -0x8000_0000_0000_0000
  const MaxInt64: int := 0x7FFF_FFFF_FFFF_FFFF

  // ---------------------------------------------------------------------------
  // Specification
  // ---------------------------------------------------------------------------

  /** The value `Atoi` returns for field 0 of each record, in record order, whether or not it failed. */
  function Column0(records: seq<Record>, atoi: Atoi): (vals: seq<int>)
    requires HasField0(records)
    ensures |vals| == |records|
    ensures forall i :: 0 <= i < |records| ==> vals[i] == atoi(records[i][0]).value
  {
    if records == [] then [] else [atoi(records[0][0]).value] + Column0(records[1..], atoi)
  }

  /** The values of the records whose field 0 parsed without error. */
  function OkValues(records: seq<Record>, atoi: Atoi): (vals: seq<int>)
    requires HasField0(records)
    ensures forall v :: v in vals <==>
      exists i :: 0 <= i < |records| && atoi(records[i][0]).ok && atoi(records[i][0]).value == v
  {
    if records == [] then []
    else
      var rest := OkValues(records[1..], atoi);
      var p := atoi(records[0][0]);
      assert forall i :: 1 <= i < |records| ==> records[1..][i - 1] == records[i];
      assert forall j :: 0 <= j < |records| - 1 ==> records[j + 1] == records[1..][j];
      if p.ok then [p.value] + rest else rest
  }

  /**
    The running maximum after a sequence of values: starting at 0, a value replaces
    the accumulator only when it is strictly greater.
   */
  function Max0(vals: seq<int>): (m: int)
  {
    if vals == [] then 0
    else
      var acc := Max0(vals[..|vals| - 1]);
      var v := vals[|vals| - 1];
      if v > acc then v else acc
  }

  /** What the program prints for the given records. */
  function ColumnMax(records: seq<Record>, atoi: Atoi): (m: int)
    requires HasField0(records)
  {
    Max0(Column0(records, atoi))
  }

  // ---------------------------------------------------------------------------
  // The loop in `main`
  // ---------------------------------------------------------------------------

  /** The column-0 maximum loop of `main`, over the records `ReadAll` returned. */
  method ScanMax(records: seq<Record>, atoi: Atoi) returns (intMax: int)
    requires HasField0(records)
    ensures intMax == ColumnMax(records, atoi)
    ensures intMax >= 0
    ensures forall i :: 0 <= i < |records| ==> atoi(records[i][0]).value <= intMax
    ensures intMax == 0 || exists i :: 0 <= i < |records| && atoi(records[i][0]).value == intMax
  {
    intMax := 0;
    for idx := 0 to |records|
      invariant intMax == ColumnMax(records[..idx], atoi)
    {
      var parsed := atoi(records[idx][0]);
      var intVal := parsed.value;
      if !parsed.ok {
        // The error is noticed but not handled: intVal is compared all the same.
      }
      if intVal > intMax {
        intMax := intVal;
      }
      ColumnMaxSnoc(records, idx, atoi);
    }
    assert records[..|records|] == records;
    Max0NonNegative(Column0(records, atoi));
    Max0UpperBound(Column0(records, atoi));
    Max0Attained(Column0(records, atoi));
  }

  // ---------------------------------------------------------------------------
  // Properties of the running maximum
  // ---------------------------------------------------------------------------

  /** Processing one more value: the accumulator is replaced only by a strictly greater value. */
  lemma Max0Snoc(vals: seq<int>, v: int)
    ensures Max0(vals + [v]) == if v > Max0(vals) then v else Max0(vals)
  {
    assert (vals + [v])[..|vals|] == vals;
  }

  /** One iteration of the loop extends the prefix that has been processed by one record. */
  lemma ColumnMaxSnoc(records: seq<Record>, i: nat, atoi: Atoi)
    requires HasField0(records) && i < |records|
    ensures ColumnMax(records[..i + 1], atoi)
      == var v := atoi(records[i][0]).value;
         if v > ColumnMax(records[..i], atoi) then v else ColumnMax(records[..i], atoi)
  {
    assert Column0(records[..i + 1], atoi) == Column0(records[..i], atoi) + [atoi(records[i][0]).value];
    Max0Snoc(Column0(records[..i], atoi), atoi(records[i][0]).value);
  }

  /** The accumulator starts at 0 and only grows, so it is never negative. */
  lemma {:induction false} Max0NonNegative(vals: seq<int>)
    ensures Max0(vals) >= 0
  {
    if vals != [] {
      Max0NonNegative(vals[..|vals| - 1]);
    }
  }

  /** The result is at least every value compared. */
  lemma {:induction false} Max0UpperBound(vals: seq<int>)
    ensures forall i :: 0 <= i < |vals| ==> vals[i] <= Max0(vals)
  {
    if vals != [] {
      var init := vals[..|vals| - 1];
      Max0UpperBound(init);
      assert forall i :: 0 <= i < |init| ==> vals[i] == init[i];
    }
  }

  /** The result is 0 (nothing ever exceeded the start value) or one of the values compared. */
  lemma {:induction false} Max0Attained(vals: seq<int>)
    ensures Max0(vals) == 0 || Max0(vals) in vals
  {
    if vals != [] {
      var init := vals[..|vals| - 1];
      Max0Attained(init);
      assert vals == init + [vals[|vals| - 1]];
    }
  }

  /**
    The three properties above determine the running maximum: `m` is the result
    exactly when it is non-negative, bounds every value, and is 0 or one of the values.
   */
  lemma Max0Characterised(vals: seq<int>, m: int)
    ensures m == Max0(vals) <==>
      m >= 0 && (forall i :: 0 <= i < |vals| ==> vals[i] <= m) && (m == 0 || m in vals)
  {
    Max0NonNegative(vals);
    Max0UpperBound(vals);
    Max0Attained(vals);
  }

  /**
    The result depends only on which positive values occur: not on their order,
    their multiplicity, or any value that is 0 or negative.
   */
  lemma Max0DeterminedByPositives(xs: seq<int>, ys: seq<int>)
    requires forall v :: v > 0 ==> (v in xs <==> v in ys)
    ensures Max0(xs) == Max0(ys)
  {
    var m := Max0(xs);
    Max0Characterised(xs, m);
    forall i | 0 <= i < |ys|
      ensures ys[i] <= m
    {
      if ys[i] > 0 {
        assert ys[i] in ys;
      }
    }
    Max0Characterised(ys, m);
  }

  /** The result is 0 exactly when no value compared is positive (an all-negative column, or none). */
  lemma Max0ZeroIff(vals: seq<int>)
    ensures Max0(vals) == 0 <==> forall i :: 0 <= i < |vals| ==> vals[i] <= 0
  {
    Max0Characterised(vals, Max0(vals));
    if forall i :: 0 <= i < |vals| ==> vals[i] <= 0 {
      Max0Characterised(vals, 0);
    }
  }

  /** The accumulator never decreases from one iteration to a later one. */
  lemma {:induction false} Max0PrefixMonotone(vals: seq<int>, i: nat, j: nat)
    requires i <= j <= |vals|
    ensures Max0(vals[..i]) <= Max0(vals[..j])
  {
    if i < j {
      Max0PrefixMonotone(vals, i, j - 1);
      assert vals[..j] == vals[..j - 1] + [vals[j - 1]];
      Max0Snoc(vals[..j - 1], vals[j - 1]);
    }
  }

  // ---------------------------------------------------------------------------
  // Properties of the column maximum
  // ---------------------------------------------------------------------------

  /** The loop's accumulator never decreases: after `i` records it is at most what it is after `j >= i`. */
  lemma ColumnMaxPrefixMonotone(records: seq<Record>, atoi: Atoi, i: nat, j: nat)
    requires HasField0(records) && i <= j <= |records|
    ensures ColumnMax(records[..i], atoi) <= ColumnMax(records[..j], atoi)
  {
    var vals := Column0(records, atoi);
    assert Column0(records[..i], atoi) == vals[..i];
    assert Column0(records[..j], atoi) == vals[..j];
    Max0PrefixMonotone(vals, i, j);
  }

  /** A value occurs in column 0 exactly when some record's field 0 parses to it. */
  lemma Column0Contains(records: seq<Record>, atoi: Atoi, v: int)
    requires HasField0(records)
    ensures v in Column0(records, atoi) <==> exists i :: 0 <= i < |records| && atoi(records[i][0]).value == v
  {
    var vals := Column0(records, atoi);
    if v in vals {
      var i :| 0 <= i < |vals| && vals[i] == v;
      assert atoi(records[i][0]).value == v;
    }
  }

  /** The result is 0 exactly when no record's field 0 parses to a positive value; in particular with no records. */
  lemma ColumnMaxZeroIff(records: seq<Record>, atoi: Atoi)
    requires HasField0(records)
    ensures ColumnMax(records, atoi) == 0 <==>
      forall i :: 0 <= i < |records| ==> atoi(records[i][0]).value <= 0
  {
    var vals := Column0(records, atoi);
    Max0ZeroIff(vals);
    assert forall i :: 0 <= i < |records| ==> vals[i] == atoi(records[i][0]).value;
  }

  /** Permuting the records does not change the result. */
  lemma ColumnMaxPermutation(records: seq<Record>, shuffled: seq<Record>, atoi: Atoi)
    requires HasField0(records) && HasField0(shuffled)
    requires multiset(records) == multiset(shuffled)
    ensures ColumnMax(records, atoi) == ColumnMax(shuffled, atoi)
  {
    forall v | v > 0
      ensures v in Column0(records, atoi) <==> v in Column0(shuffled, atoi)
    {
      Column0Contains(records, atoi, v);
      Column0Contains(shuffled, atoi, v);
      if exists i :: 0 <= i < |records| && atoi(records[i][0]).value == v {
        var i :| 0 <= i < |records| && atoi(records[i][0]).value == v;
        assert records[i] in multiset(shuffled);
        var j :| 0 <= j < |shuffled| && shuffled[j] == records[i];
      }
      if exists j :: 0 <= j < |shuffled| && atoi(shuffled[j][0]).value == v {
        var j :| 0 <= j < |shuffled| && atoi(shuffled[j][0]).value == v;
        assert shuffled[j] in multiset(records);
        var i :| 0 <= i < |records| && records[i] == shuffled[j];
      }
    }
    Max0DeterminedByPositives(Column0(records, atoi), Column0(shuffled, atoi));
  }

  /** Only field 0 of each record is read: records that agree on field 0 give the same result. */
  lemma ColumnMaxReadsOnlyField0(records: seq<Record>, edited: seq<Record>, atoi: Atoi)
    requires HasField0(records) && HasField0(edited) && |records| == |edited|
    requires forall i :: 0 <= i < |records| ==> records[i][0] == edited[i][0]
    ensures ColumnMax(records, atoi) == ColumnMax(edited, atoi)
  {
    assert Column0(records, atoi) == Column0(edited, atoi);
  }

  /**
    The error `Atoi` reports is never consulted: two parsers that return the same
    values for the same fields give the same result, whatever they say about errors.
   */
  lemma ColumnMaxIgnoresParseError(records: seq<Record>, atoi: Atoi, atoi': Atoi)
    requires HasField0(records)
    requires forall i :: 0 <= i < |records| ==> atoi(records[i][0]).value == atoi'(records[i][0]).value
    ensures ColumnMax(records, atoi) == ColumnMax(records, atoi')
  {
    assert Column0(records, atoi) == Column0(records, atoi');
  }

  /**
    When every failed parse among the records returns 0, the result is the maximum
    of 0 and the successfully parsed values: failed records are transparent.
   */
  lemma ColumnMaxSkipsFailures(records: seq<Record>, atoi: Atoi)
    requires HasField0(records) && FailuresReturnZero(records, atoi)
    ensures ColumnMax(records, atoi) == Max0(OkValues(records, atoi))
  {
    var vals := Column0(records, atoi);
    forall v | v > 0
      ensures v in vals <==> v in OkValues(records, atoi)
    {
      Column0Contains(records, atoi, v);
    }
    Max0DeterminedByPositives(vals, OkValues(records, atoi));
  }

  /** Column 0 of two batches of records read one after the other. */
  lemma Column0Concat(front: seq<Record>, back: seq<Record>, atoi: Atoi)
    requires HasField0(front) && HasField0(back)
    ensures HasField0(front + back)
    ensures Column0(front + back, atoi) == Column0(front, atoi) + Column0(back, atoi)
  {
    var both := front + back;
    assert forall i :: |front| <= i < |both| ==> both[i] == back[i - |front|];
  }

  /** Inserting a record whose field 0 fails to parse and returns 0 never changes the result. */
  lemma ColumnMaxFailedRecordTransparent(before: seq<Record>, r: Record, after: seq<Record>, atoi: Atoi)
    requires HasField0(before) && HasField0(after) && |r| > 0
    requires !atoi(r[0]).ok && atoi(r[0]).value == 0
    ensures HasField0(before + [r] + after)
    ensures ColumnMax(before + [r] + after, atoi) == ColumnMax(before + after, atoi)
  {
    Column0Concat(before, [r], atoi);
    Column0Concat(before + [r], after, atoi);
    Column0Concat(before, after, atoi);
    var xs, zs := Column0(before, atoi), Column0(after, atoi);
    assert Column0([r], atoi) == [0];
    assert Column0(before + [r] + after, atoi) == xs + [0] + zs;
    Max0DeterminedByPositives(xs + [0] + zs, xs + zs);
  }

  /**
    A failed parse that returns a value other than 0 is not skipped: if it returns a positive
    value above every successfully parsed one, that value is the result.
   */
  lemma FailedValueStillCompared(records: seq<Record>, atoi: Atoi, k: nat)
    requires HasField0(records) && k < |records|
    requires !atoi(records[k][0]).ok && atoi(records[k][0]).value > 0
    requires forall i :: 0 <= i < |records| && i != k ==> atoi(records[i][0]).value < atoi(records[k][0]).value
    ensures ColumnMax(records, atoi) == atoi(records[k][0]).value
    ensures ColumnMax(records, atoi) != Max0(OkValues(records, atoi))
  {
    var vals := Column0(records, atoi);
    var v := atoi(records[k][0]).value;
    assert vals[k] == v;
    Max0Characterised(vals, v);
    var ok := OkValues(records, atoi);
    Max0Characterised(ok, Max0(ok));
    assert v !in ok;
  }

  /** If every parsed value fits Go's 64-bit `int`, so does the result. */
  lemma ColumnMaxFitsInt64(records: seq<Record>, atoi: Atoi)
    requires HasField0(records)
    requires forall i :: 0 <= i < |records| ==> MinInt64 <= atoi(records[i][0]).value <= MaxInt64
    ensures MinInt64 <= ColumnMax(records, atoi) <= MaxInt64
  {
    var vals := Column0(records, atoi);
    Max0Attained(vals);
    if ColumnMax(records, atoi) != 0 {
      var i :| 0 <= i < |vals| && vals[i] == ColumnMax(records, atoi);
    }
  }
}
