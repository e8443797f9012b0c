/**
  The comparator: a parsed record scored against a reference record from the
  database. Every reference key is either matched (the parsed value equals the
  reference value) or reported as a mismatch carrying both values; the accuracy
  is the matched share in percent, kept as an exact real.
 */
module Comparator {
  import opened Wrappers
  import opened FieldParser

  /** A reference row: field name to its stored value. */
  type Row = map<string, string>

  /** One disagreement: the stored value and what the parser produced (`None` when
      the parsed record has no value for that key). */
  datatype Mismatch = Mismatch(dbValue: string, extractedValue: Option<string>)

  /** The result triple: accuracy, mismatches by key, and an optional error. */
  datatype Comparison = Comparison(accuracy: real, mismatches: map<string, Mismatch>, error: Option<string>)

  const DbNotFound: string := "Sr no. not found in database."

  /** Python's `dict.get(key)` on a parsed record: an absent key and a `None`
      value both read as `None`. */
  function Get(extracted: Record, key: string): (r: Option<string>)
    ensures key !in extracted ==> r == None
    ensures key in extracted ==> r == extracted[key]
  {
    if key in extracted then extracted[key] else None
  }

  /** The parsed value agrees exactly with the stored one. */
  predicate Agrees(extracted: Record, row: Row, key: string)
    requires key in row
  {
    Get(extracted, key) == Some(row[key])
  }

  /** The keys among `keys` whose values agree. */
  function AgreeingAmong(extracted: Record, row: Row, keys: set<string>): (r: set<string>)
    requires keys <= row.Keys
    ensures r <= keys && |r| <= |keys|
  {
    var r := set k | k in keys && Agrees(extracted, row, k);
    assert keys == r + (keys - r);
    r
  }

  /** The mismatch entries for the keys among `keys` whose values do not agree. */
  function MismatchesAmong(extracted: Record, row: Row, keys: set<string>): map<string, Mismatch>
    requires keys <= row.Keys
  {
    map k | k in keys && !Agrees(extracted, row, k) :: Mismatch(row[k], Get(extracted, k))
  }

  /** The reference keys whose values agree. */
  function MatchedKeys(extracted: Record, row: Row): (r: set<string>)
    ensures r <= row.Keys && |r| <= |row|
  {
    AgreeingAmong(extracted, row, row.Keys)
  }

  /** The mismatch report: every reference key whose value does not agree. */
  function Mismatches(extracted: Record, row: Row): map<string, Mismatch>
  {
    MismatchesAmong(extracted, row, row.Keys)
  }

  /** Looking at one more key adds it to the agreeing keys exactly when it agrees. */
  lemma AgreeingOneMore(extracted: Record, row: Row, keys: set<string>, key: string)
    requires keys <= row.Keys && key in row && key !in keys
    ensures Agrees(extracted, row, key) ==>
              AgreeingAmong(extracted, row, keys + {key}) == AgreeingAmong(extracted, row, keys) + {key}
    ensures !Agrees(extracted, row, key) ==>
              AgreeingAmong(extracted, row, keys + {key}) == AgreeingAmong(extracted, row, keys)
  {
  }

  /** Looking at one more key adds its entry to the mismatches exactly when it
      does not agree. */
  lemma MismatchesOneMore(extracted: Record, row: Row, keys: set<string>, key: string)
    requires keys <= row.Keys && key in row && key !in keys
    ensures Agrees(extracted, row, key) ==>
              MismatchesAmong(extracted, row, keys + {key}) == MismatchesAmong(extracted, row, keys)
    ensures !Agrees(extracted, row, key) ==>
              MismatchesAmong(extracted, row, keys + {key})
              == MismatchesAmong(extracted, row, keys)[key := Mismatch(row[key], Get(extracted, key))]
  {
  }

  /** One loop step: the key moves from the keys still to visit to the keys
      visited, and both sets still split the reference keys. */
  lemma MoveKey(done: set<string>, todo: set<string>, all: set<string>, key: string)
    requires done !! todo && done + todo == all && key in todo
    ensures done + {key} !! todo - {key} && (done + {key}) + (todo - {key}) == all
    ensures done <= all && key !in done && |todo - {key}| < |todo|
  {
  }

  /** One loop step on the counters: an agreeing key raises the match count by
      one and leaves the mismatches as they are; any other key leaves the count
      and adds its mismatch entry. */
  lemma CountOneMore(extracted: Record, row: Row, done: set<string>, key: string)
    requires done <= row.Keys && key in row && key !in done
    ensures Get(extracted, key) == Some(row[key]) ==>
              |AgreeingAmong(extracted, row, done)| + 1 == |AgreeingAmong(extracted, row, done + {key})|
              && MismatchesAmong(extracted, row, done) == MismatchesAmong(extracted, row, done + {key})
    ensures Get(extracted, key) != Some(row[key]) ==>
              |AgreeingAmong(extracted, row, done)| == |AgreeingAmong(extracted, row, done + {key})|
              && MismatchesAmong(extracted, row, done)[key := Mismatch(row[key], Get(extracted, key))]
                 == MismatchesAmong(extracted, row, done + {key})
  {
    AgreeingOneMore(extracted, row, done, key);
    MismatchesOneMore(extracted, row, done, key);
    assert key !in AgreeingAmong(extracted, row, done);
  }

  /** `(matched / total) * 100`, and `0` when there is nothing to compare. */
  function Accuracy(matched: nat, total: nat): (r: real)
    ensures matched <= total ==> 0.0 <= r <= 100.0
    ensures total > 0 && matched == total ==> r == 100.0
  {
    if total > 0 then (matched as real / total as real) * 100.0 else 0.0
  }

  /** A quotient of a part by a positive whole lies in [0, 1] and is 1 exactly
      for the whole. */
  lemma ShareBounds(q: real, part: real, whole: real)
    requires 0.0 <= part <= whole && 0.0 < whole && q * whole == part
    ensures 0.0 <= q <= 1.0
    ensures q == 1.0 <==> part == whole
  {
  }

  /** The accuracy is the matched share in percent: it lies in [0, 100] and is
      100 exactly when every field matched. */
  lemma AccuracyRange(matched: nat, total: nat)
    requires matched <= total
    ensures 0.0 <= Accuracy(matched, total) <= 100.0
    ensures total > 0 ==> Accuracy(matched, total) * total as real == matched as real * 100.0
    ensures total > 0 ==> (Accuracy(matched, total) == 100.0 <==> matched == total)
  {
    if total > 0 {
      var m, t := matched as real, total as real;
      var q := m / t;
      assert q * t == m;
      assert Accuracy(matched, total) == q * 100.0;
      assert Accuracy(matched, total) * t == (q * t) * 100.0;
      ShareBounds(q, m, t);
    }
  }

  /** What `compare_data` returns for a parsed record and an optional reference row. */
  function Compare(extracted: Record, db: Option<Row>): (r: Comparison)
    ensures r.error.Some? <==> db.None? || db.value == map[]
    ensures 0.0 <= r.accuracy <= 100.0
    ensures db.Some? ==> r.mismatches.Keys <= db.value.Keys
  {
    if db.None? || db.value == map[] then Comparison(0.0, map[], Some(DbNotFound))
    else
      var row := db.value;
      Comparison(Accuracy(|MatchedKeys(extracted, row)|, |row|), Mismatches(extracted, row), None)
  }

  /** The matched and mismatched keys split the reference keys between them. */
  lemma PartitionKeys(extracted: Record, row: Row)
    ensures MatchedKeys(extracted, row) + Mismatches(extracted, row).Keys == row.Keys
    ensures MatchedKeys(extracted, row) * Mismatches(extracted, row).Keys == {}
    ensures |MatchedKeys(extracted, row)| + |Mismatches(extracted, row)| == |row|
  {
    var a, b := MatchedKeys(extracted, row), Mismatches(extracted, row).Keys;
    assert a + b == row.Keys;
    assert a * b == {};
    assert |a + b| == |a| + |b|;
  }

  /** Scores a parsed record against a reference row, one reference key at a
      time, counting matches and recording mismatches. */
  method CompareData(extracted: Record, db: Option<Row>) returns (r: Comparison)
    ensures r == Compare(extracted, db)
  {
    if db.None? || db.value == map[] {
      return Comparison(0.0, map[], Some(DbNotFound));
    }
    var row := db.value;
    var matched := 0;
    var mismatched: map<string, Mismatch> := map[];
    var total := |row|;
    var todo := row.Keys;
    ghost var done: set<string> := {};
    while todo != {}
      invariant done !! todo && done + todo == row.Keys
      invariant matched == |AgreeingAmong(extracted, row, done)|
      invariant mismatched == MismatchesAmong(extracted, row, done)
      decreases |todo|
    {
      var key :| key in todo;
      var extractedValue := Get(extracted, key);
      MoveKey(done, todo, row.Keys, key);
      CountOneMore(extracted, row, done, key);
      if extractedValue == Some(row[key]) {
        matched := matched + 1;
      } else {
        mismatched := mismatched[key := Mismatch(row[key], extractedValue)];
      }
      todo := todo - {key};
      done := done + {key};
    }
    assert done == row.Keys;
    r := Comparison(Accuracy(matched, total), mismatched, None);
  }

  /** A missing or empty reference row gives the fixed error triple. */
  lemma NoReferenceRow(extracted: Record, db: Option<Row>)
    requires db.None? || db.value == map[]
    ensures Compare(extracted, db) == Comparison(0.0, map[], Some(DbNotFound))
  {
  }

  /** With a reference row, a key is reported exactly when it is a reference key
      whose parsed value (`None` if absent) differs; the report holds both values
      and there is no error. */
  lemma MismatchesExact(extracted: Record, row: Row, key: string)
    requires row != map[]
    ensures Compare(extracted, Some(row)).error == None
    ensures key in Compare(extracted, Some(row)).mismatches
            <==> key in row && Get(extracted, key) != Some(row[key])
    ensures key in Compare(extracted, Some(row)).mismatches
            ==> Compare(extracted, Some(row)).mismatches[key] == Mismatch(row[key], Get(extracted, key))
  {
  }

  /** A reference key missing from the parsed record is a mismatch with `None`. */
  lemma MissingKeyComparedAsNone(extracted: Record, row: Row, key: string)
    requires key in row && key !in extracted
    ensures Compare(extracted, Some(row)).mismatches[key] == Mismatch(row[key], None)
  {
  }

  /** Parsed keys outside the reference row do not affect the result. */
  lemma ExtraKeysIgnored(extracted: Record, row: Row, key: string, v: Option<string>)
    requires key !in row
    ensures Compare(extracted[key := v], Some(row)) == Compare(extracted, Some(row))
  {
    var e2 := extracted[key := v];
    forall k | k in row ensures Get(e2, k) == Get(extracted, k) {
    }
    assert MatchedKeys(e2, row) == MatchedKeys(extracted, row);
    assert Mismatches(e2, row) == Mismatches(extracted, row);
  }

  /** The accuracy is the matched share of the reference keys in percent, lies in
      [0, 100], and is 100 exactly when nothing is reported as a mismatch. */
  lemma AccuracyMeaning(extracted: Record, row: Row)
    requires row != map[]
    ensures var c := Compare(extracted, Some(row));
            && 0.0 <= c.accuracy <= 100.0
            && |c.mismatches| <= |row|
            && c.accuracy == Accuracy(|row| - |c.mismatches|, |row|)
            && (c.accuracy == 100.0 <==> c.mismatches == map[])
  {
    var m := Mismatches(extracted, row);
    var matched := |MatchedKeys(extracted, row)|;
    PartitionKeys(extracted, row);
    assert matched == |row| - |m|;
    assert m == map[] <==> matched == |row| by {
      if m != map[] {
        var k :| k in m;
        assert |m| > 0;
      }
    }
    AccuracyRange(matched, |row|);
  }


  /** A parsed record that reproduces every stored value scores 100 with no mismatches. */
  lemma PerfectMatch(extracted: Record, row: Row)
    requires row != map[]
    requires forall k :: k in row ==> k in extracted && extracted[k] == Some(row[k])
    ensures Compare(extracted, Some(row)) == Comparison(100.0, map[], None)
  {
    assert Mismatches(extracted, row) == map[];
    AccuracyMeaning(extracted, row);
  }
}
