/** The record-level operations of the `processing` class
    (address_parser.py): `ProcessPOBOX` over a dictionary of records,
    `IdentifyAnomaly`, `FilterDataset`, and the matched/unmatched split of
    `OutputMatched`.

    A record is a Python dictionary from field names to strings. The
    dictionaries are shared: the dictionary built by `FilterDataset` holds
    the very records of `self.data`, and `ProcessPOBOX` and
    `IdentifyAnomaly` change them in place. A record is therefore an object
    (`Record`) whose `fields` the methods update, and a dataset maps the
    integer primary key (`int(line[thePrimaryKey])`, whose default is
    `"FID"`, line 54) to a record. A `KeyError` is the `Err` outcome. */
module AddressParser {
  import opened PyText
  import opened PoBox

  type Fields = map<string, string>
  type Table = map<int, Fields>

  const FidField: string := "FID"
  const FixedField: string := "fixedAddress"
  const LocatorField: string := "Loc_name"
  /** The locator name of a record the geocoder did not match (line 30). */
  const Unlocated: string := " "

  /** The `KeyError` raised when a record has no field of that name. */
  datatype Error = MissingField(name: string)

  datatype Result<T> = Ok(value: T) | Err(error: Error)

  class Record {
    var fields: Fields

    constructor (fields: Fields)
      ensures this.fields == fields
    {
      this.fields := fields;
    }
  }

  /** No two keys share a record: each row read from the CSV file gets a
      dictionary of its own (line 54). */
  predicate Distinct(m: map<int, Record>)
  {
    forall a, b :: a in m && b in m && a != b ==> m[a] != m[b]
  }

  /** The order in which Python iterates over the keys of `m`: each key
      exactly once. */
  predicate IsOrder(order: seq<int>, m: map<int, Record>)
  {
    (forall i :: 0 <= i < |order| ==> order[i] in m) &&
    (forall k :: k in m ==> k in order) &&
    (forall i, j :: 0 <= i < j < |order| ==> order[i] != order[j])
  }

  /** The field values of every record of `m`. */
  function Snapshot(m: map<int, Record>): (t: Table)
    reads m.Values
    ensures t.Keys == m.Keys
  {
    map k | k in m :: m[k].fields
  }

  // ---------------------------------------------------------------------------
  // ProcessPOBOX (lines 196-245)
  // ---------------------------------------------------------------------------

  /** One record after line 231: when its street field normalises, that
      value is stored under `fixedAddress`; nothing else in the record
      changes. */
  function WithFix(f: Fields, keyField: string, anomaly: string): (g: Fields)
    requires keyField in f
    ensures var n := Normalize(f[keyField], anomaly);
      g.Keys == f.Keys + (if n.Fixed? then {FixedField} else {}) &&
      (forall x :: x in f && x != FixedField ==> g[x] == f[x]) &&
      (n.Fixed? ==> g[FixedField] == n.value) &&
      (n.Unfixed? ==> g == f)
  {
    match Normalize(f[keyField], anomaly)
    case Fixed(address) => f[FixedField := address]
    case Unfixed(_) => f
  }

  /** The records after the loop of lines 203-239 has visited the keys in
      `done`. */
  function FixPrefix(t: Table, done: seq<int>, keyField: string, anomaly: string): (r: Table)
    ensures r.Keys == t.Keys
  {
    map k | k in t :: if k in done && keyField in t[k] then WithFix(t[k], keyField, anomaly) else t[k]
  }

  /** Visiting one more record changes that record alone. */
  lemma FixPrefixStep(t: Table, order: seq<int>, i: nat, keyField: string, anomaly: string)
    requires i < |order| && order[i] in t
    ensures var k := order[i];
      FixPrefix(t, order[..i + 1], keyField, anomaly) ==
        FixPrefix(t, order[..i], keyField, anomaly)[k := if keyField in t[k] then WithFix(t[k], keyField, anomaly) else t[k]]
  {
    assert order[..i + 1] == order[..i] + [order[i]];
  }

  /** The position in `order` of the first record without `field`, or
      `|order|` when every record has it. */
  function FirstMissing(order: seq<int>, t: Table, field: string): (n: nat)
    requires forall i :: 0 <= i < |order| ==> order[i] in t
    ensures n <= |order|
    ensures forall i :: 0 <= i < n ==> field in t[order[i]]
    ensures n < |order| ==> field !in t[order[n]]
    decreases |order|
  {
    if |order| == 0 then 0
    else if field !in t[order[0]] then 0
    else 1 + FirstMissing(order[1..], t, field)
  }

  /** Past the records known to have the field, the next one either has
      it too or is the first without it. */
  lemma FirstMissingNext(order: seq<int>, t: Table, field: string, i: nat)
    requires forall j :: 0 <= j < |order| ==> order[j] in t
    requires i < |order| && i <= FirstMissing(order, t, field)
    ensures field in t[order[i]] ==> i < FirstMissing(order, t, field)
    ensures field !in t[order[i]] ==> i == FirstMissing(order, t, field)
  {
  }

  /** `{records[k]["FID"]: ... for k in records.keys() if ...}` (lines 241,
      242), as a map from FID to the key of the record it came from: the
      records with (`fixed`) or without a `fixedAddress`. A later record
      with the same FID overwrites an earlier one (`FidIndexLastWins`). */
  function FidIndex(order: seq<int>, t: Table, fixed: bool): (r: map<string, int>)
    requires forall i :: 0 <= i < |order| ==> order[i] in t && FidField in t[order[i]]
    ensures forall f :: f in r ==>
      r[f] in order && (FixedField in t[r[f]]) == fixed && t[r[f]][FidField] == f
    ensures forall k :: k in order && (FixedField in t[k]) == fixed ==> t[k][FidField] in r
    decreases |order|
  {
    if |order| == 0 then map[]
    else
      var k := order[|order| - 1];
      var r := FidIndex(order[..|order| - 1], t, fixed);
      assert order == order[..|order| - 1] + [k];
      if (FixedField in t[k]) == fixed then r[t[k][FidField] := k] else r
  }

  /** The record a FID ends up naming comes at or after every selected
      record with that FID. */
  lemma {:induction false} FidIndexLastWins(order: seq<int>, t: Table, fixed: bool, i: nat)
    requires forall i :: 0 <= i < |order| ==> order[i] in t && FidField in t[order[i]]
    requires i < |order| && (FixedField in t[order[i]]) == fixed
    ensures var r, f := FidIndex(order, t, fixed), t[order[i]][FidField];
      f in r && exists j :: i <= j < |order| && order[j] == r[f]
    decreases |order|
  {
    var init := order[..|order| - 1];
    var k := order[|order| - 1];
    var f := t[order[i]][FidField];
    if (FixedField in t[k]) == fixed && t[k][FidField] == f {
      FidIndexLast(order, t, fixed);
    } else {
      assert i < |init|;
      FidIndexLastWins(init, t, fixed, i);
      FidIndexKeeps(order, t, fixed, f);
      var j :| i <= j < |init| && init[j] == FidIndex(init, t, fixed)[f];
      assert order[j] == init[j];
    }
  }

  lemma FidIndexLast(order: seq<int>, t: Table, fixed: bool)
    requires forall i :: 0 <= i < |order| ==> order[i] in t && FidField in t[order[i]]
    requires |order| > 0 && (FixedField in t[order[|order| - 1]]) == fixed
    ensures var k := order[|order| - 1]; FidIndex(order, t, fixed)[t[k][FidField]] == k
  {
  }

  lemma FidIndexKeeps(order: seq<int>, t: Table, fixed: bool, f: string)
    requires forall i :: 0 <= i < |order| ==> order[i] in t && FidField in t[order[i]]
    requires |order| > 0
    requires var k := order[|order| - 1]; (FixedField in t[k]) != fixed || t[k][FidField] != f
    requires f in FidIndex(order[..|order| - 1], t, fixed)
    ensures f in FidIndex(order, t, fixed)
    ensures FidIndex(order, t, fixed)[f] == FidIndex(order[..|order| - 1], t, fixed)[f]
  {
  }

  /** Once no two records share a FID, each selected record is found
      under its own FID. */
  lemma FidIndexDistinct(order: seq<int>, t: Table, fixed: bool, i: nat)
    requires forall i :: 0 <= i < |order| ==> order[i] in t && FidField in t[order[i]]
    requires forall i, j :: 0 <= i < j < |order| ==> t[order[i]][FidField] != t[order[j]][FidField]
    requires i < |order| && (FixedField in t[order[i]]) == fixed
    ensures FidIndex(order, t, fixed)[t[order[i]][FidField]] == order[i]
  {
    var r, f := FidIndex(order, t, fixed), t[order[i]][FidField];
    FidIndexLastWins(order, t, fixed, i);
    var j :| i <= j < |order| && order[j] == r[f];
  }

  /** Lines 241-245 over the records `m` after the loop: the fixed records
      by FID, and the keys of the others by FID; `Err` when a record has no
      FID. */
  function Collect(order: seq<int>, m: map<int, Record>): (r: Result<(map<string, Record>, map<string, int>)>)
    reads m.Values
    requires forall i :: 0 <= i < |order| ==> order[i] in m
    ensures r.Err? <==> FirstMissing(order, Snapshot(m), FidField) < |order|
    ensures r.Err? ==> r.error == MissingField(FidField)
    ensures r.Ok? ==> var fixed := FidIndex(order, Snapshot(m), true);
      r.value.0.Keys == fixed.Keys && (forall f :: f in fixed ==> r.value.0[f] == m[fixed[f]]) &&
      r.value.1 == FidIndex(order, Snapshot(m), false)
  {
    var t := Snapshot(m);
    if FirstMissing(order, t, FidField) < |order| then Err(MissingField(FidField))
    else
      var fixed := FidIndex(order, t, true);
      Ok((map f | f in fixed :: m[fixed[f]], FidIndex(order, t, false)))
  }

  /** A record is never both fixed and unfixed: the two maps of
      `ProcessPOBOX` name different records, whatever the FIDs. */
  lemma FixedAndUnfixedDisjoint(order: seq<int>, t: Table)
    requires forall i :: 0 <= i < |order| ==> order[i] in t && FidField in t[order[i]]
    ensures var fixed, unfixed := FidIndex(order, t, true), FidIndex(order, t, false);
      forall f, g :: f in fixed && g in unfixed ==> fixed[f] != unfixed[g]
  {
  }

  /** When no two records share a FID, the fixed and the unfixed maps
      split the records: their FIDs are disjoint, together they are every
      FID, and each maps a FID to the one record that has it. */
  lemma FixedAndUnfixedPartition(order: seq<int>, t: Table)
    requires forall i :: 0 <= i < |order| ==> order[i] in t && FidField in t[order[i]]
    requires forall i, j :: 0 <= i < j < |order| ==> t[order[i]][FidField] != t[order[j]][FidField]
    ensures var fixed, unfixed := FidIndex(order, t, true), FidIndex(order, t, false);
      fixed.Keys !! unfixed.Keys &&
      fixed.Keys + unfixed.Keys == (set i | 0 <= i < |order| :: t[order[i]][FidField]) &&
      (forall i :: 0 <= i < |order| && FixedField in t[order[i]] ==> fixed[t[order[i]][FidField]] == order[i]) &&
      (forall i :: 0 <= i < |order| && FixedField !in t[order[i]] ==> unfixed[t[order[i]][FidField]] == order[i])
  {
    var fixed, unfixed := FidIndex(order, t, true), FidIndex(order, t, false);
    forall i | 0 <= i < |order|
      ensures var f := t[order[i]][FidField];
        (FixedField in t[order[i]] ==> fixed[f] == order[i]) &&
        (FixedField !in t[order[i]] ==> unfixed[f] == order[i])
    {
      FidIndexDistinct(order, t, FixedField in t[order[i]], i);
    }
    forall f | f in fixed ensures f !in unfixed {
    }
    forall f | f in fixed.Keys + unfixed.Keys
      ensures f in (set i | 0 <= i < |order| :: t[order[i]][FidField])
    {
      var r := if f in fixed then fixed else unfixed;
      var a :| 0 <= a < |order| && order[a] == r[f];
    }
  }

  /** The loop never touches a record's other fields, and a record ends up
      without `fixedAddress` exactly when it had none and its street field
      has no marker, or ends with its first marker. */
  lemma ProcessedRecord(before: Table, done: seq<int>, keyField: string, anomaly: string, k: int)
    requires k in before && k in done && keyField in before[k]
    requires anomaly !in PoPrefixes
    ensures var after := FixPrefix(before, done, keyField, anomaly)[k];
      var ts := Tokens(before[k][keyField]);
      (forall x :: x in before[k] && x != FixedField ==> x in after && after[x] == before[k][x]) &&
      (FixedField !in after <==>
        FixedField !in before[k] && (anomaly !in ts || IndexOf(ts, anomaly).value == |ts| - 1))
  {
    SkipCases(before[k][keyField], anomaly);
  }

  /** Fixing a record twice is fixing it once, as long as the street
      field is not `fixedAddress` itself. */
  lemma WithFixIdempotent(f: Fields, keyField: string, anomaly: string)
    requires keyField in f && keyField != FixedField
    ensures WithFix(WithFix(f, keyField, anomaly), keyField, anomaly) == WithFix(f, keyField, anomaly)
  {
    var g := WithFix(f, keyField, anomaly);
    assert g[keyField] == f[keyField];
  }

  /** Running the loop a second time over the same records changes
      nothing. */
  lemma FixPrefixIdempotent(t: Table, done: seq<int>, keyField: string, anomaly: string)
    requires keyField != FixedField
    ensures FixPrefix(FixPrefix(t, done, keyField, anomaly), done, keyField, anomaly) ==
      FixPrefix(t, done, keyField, anomaly)
  {
    forall k | k in t && k in done && keyField in t[k] {
      WithFixIdempotent(t[k], keyField, anomaly);
    }
  }

  // ---------------------------------------------------------------------------
  // IdentifyAnomaly (lines 164-183)
  // ---------------------------------------------------------------------------

  /** The field `key` of a record, lower-cased, contains `anomaly`. */
  predicate Flagged(f: Fields, key: string, anomaly: string)
  {
    key in f && Contains(Lower(f[key]), anomaly)
  }

  /** The record ids whose field `key`, lower-cased, contains `anomaly`
      (line 169). */
  function Selected(t: Table, key: string, anomaly: string): set<int>
  {
    set k | k in t && Flagged(t[k], key, anomaly)
  }

  predicate AllHave(t: Table, key: string)
  {
    forall k :: k in t ==> key in t[k]
  }

  /** Lines 173-181 for one selected record: the old value is saved under
      `<key>_old`; when the anomaly does not start the value, the value is
      cut just before its first occurrence. When it does start it, line 181
      computes `replace` and discards the result, so the value stays. */
  function Segment(f: Fields, key: string, anomaly: string): (g: Fields)
    requires Flagged(f, key, anomaly)
    ensures g.Keys == f.Keys + {key + "_old"}
    ensures g[key + "_old"] == f[key]
    ensures forall x :: x in f && x != key && x != key + "_old" ==> g[x] == f[x]
  {
    var start := Find(Lower(f[key]), anomaly).value;
    var saved := f[key + "_old" := f[key]];
    if start > 0 then saved[key := f[key][..start]] else saved
  }

  /** A record's value is cut to a proper prefix that no longer contains
      the anomaly, and the cut is exactly where the first occurrence
      starts. */
  lemma SegmentTruncates(f: Fields, key: string, anomaly: string)
    requires Flagged(f, key, anomaly)
    requires Find(Lower(f[key]), anomaly).value > 0
    ensures var cut := Segment(f, key, anomaly)[key];
      |cut| < |f[key]| && cut == f[key][..|cut|] &&
      !Contains(Lower(cut), anomaly) &&
      OccursAt(Lower(f[key]), anomaly, |cut|) &&
      (forall j :: 0 <= j < |cut| ==> !OccursAt(Lower(f[key]), anomaly, j))
  {
    var low := Lower(f[key]);
    var start := Find(low, anomaly).value;
    var cut := f[key][..start];
    assert Segment(f, key, anomaly)[key] == cut;
    assert |anomaly| > 0 by {
      assert !OccursAt(low, anomaly, 0);
    }
    LowerPrefix(f[key], start);
    PrefixBeforeFirstOccurrence(low, anomaly, start);
  }

  /** When the anomaly starts the value, the value is left as it was. */
  lemma SegmentKeepsLeading(f: Fields, key: string, anomaly: string)
    requires Flagged(f, key, anomaly)
    requires Find(Lower(f[key]), anomaly) == Some(0)
    ensures Segment(f, key, anomaly)[key] == f[key]
  {
  }

  /** After segmenting, a record still holds the anomaly in `key` exactly
      when the anomaly started its value. */
  lemma ReselectSegmented(f: Fields, key: string, anomaly: string)
    requires Flagged(f, key, anomaly)
    ensures Contains(Lower(Segment(f, key, anomaly)[key]), anomaly) <==>
      Find(Lower(f[key]), anomaly) == Some(0)
  {
    if Find(Lower(f[key]), anomaly).value > 0 {
      SegmentTruncates(f, key, anomaly);
    }
  }

  /** The dataset after `IdentifyAnomaly` has segmented the records of
      `chosen`. */
  function Segmented(t: Table, done: set<int>, key: string, anomaly: string): (r: Table)
    requires done <= Selected(t, key, anomaly)
    ensures r.Keys == t.Keys
  {
    map k | k in t :: if k in done then Segment(t[k], key, anomaly) else t[k]
  }

  lemma LowerPrefix(s: string, n: nat)
    requires n <= |s|
    ensures Lower(s[..n]) == Lower(s)[..n]
  {
  }

  // ---------------------------------------------------------------------------
  // FilterDataset (lines 186-192) and the matched records (lines 130-131)
  // ---------------------------------------------------------------------------

  /** The records of `m` whose field `key` equals `value`, shared with `m`;
      `Err` when a record has no such field. */
  function FilterDataset(m: map<int, Record>, key: string, value: string): (r: Result<map<int, Record>>)
    reads m.Values
    ensures r.Err? <==> !AllHave(Snapshot(m), key)
    ensures r.Err? ==> r.error == MissingField(key)
    ensures r.Ok? ==> forall d :: d in r.value ==> d in m && r.value[d] == m[d]
    ensures r.Ok? ==> forall d :: d in m ==> key in m[d].fields && (d in r.value <==> m[d].fields[key] == value)
  {
    if exists d :: d in m && key !in m[d].fields then
      var d :| d in m && key !in m[d].fields;
      assert key !in Snapshot(m)[d];
      Err(MissingField(key))
    else
      assert AllHave(Snapshot(m), key);
      Ok(map d | d in m && m[d].fields[key] == value :: m[d])
  }

  /** Filtering a filtered dataset again on the same field and value
      gives it back. */
  lemma FilterIdempotent(m: map<int, Record>, key: string, value: string)
    requires FilterDataset(m, key, value).Ok?
    ensures FilterDataset(FilterDataset(m, key, value).value, key, value) == FilterDataset(m, key, value)
  {
    var once := FilterDataset(m, key, value).value;
    assert AllHave(Snapshot(once), key);
    var twice := FilterDataset(once, key, value);
    assert forall d :: d in once ==> d in twice.value;
    assert twice.value == once;
  }

  /** `self.matchedData` (line 131): the records of `data` whose key is
      not a key of `unmatched`. */
  function Matched(data: map<int, Record>, unmatched: map<int, Record>): (r: map<int, Record>)
    ensures forall rec :: rec in r <==> rec in data && rec !in unmatched
    ensures forall rec :: rec in r ==> r[rec] == data[rec]
  {
    map rec | rec in data && rec !in unmatched :: data[rec]
  }

  /** With `unmatched` built by line 30, the matched and the unmatched
      records split `data`: the matched ones are exactly those whose
      locator name is not a single space. */
  lemma MatchedPartition(data: map<int, Record>)
    requires FilterDataset(data, LocatorField, Unlocated).Ok?
    ensures var unmatched := FilterDataset(data, LocatorField, Unlocated).value;
      var matched := Matched(data, unmatched);
      matched.Keys !! unmatched.Keys &&
      matched.Keys + unmatched.Keys == data.Keys &&
      forall rec :: rec in data ==> (rec in matched <==> data[rec].fields[LocatorField] != Unlocated)
  {
  }

  // ---------------------------------------------------------------------------
  // The processing object
  // ---------------------------------------------------------------------------

  /** The body of the loop of `ProcessPOBOX` (lines 204-239) for one
      record with a street field. */
  method FixRecord(rec: Record, keyField: string, anomaly: string)
    requires keyField in rec.fields
    modifies rec
    ensures rec.fields == WithFix(old(rec.fields), keyField, anomaly)
  {
    var outcome := FixAddress(rec.fields[keyField], anomaly);
    if outcome.Fixed? {
      rec.fields := rec.fields[FixedField := outcome.value];
    }
  }

  /** `FixRecord` applied to the record of `m` at `k` changes the dataset
      at `k` alone. */
  method FixEntry(m: map<int, Record>, k: int, keyField: string, anomaly: string)
    requires k in m && Distinct(m) && keyField in m[k].fields
    modifies m[k]
    ensures Snapshot(m) == old(Snapshot(m))[k := WithFix(old(m[k].fields), keyField, anomaly)]
  {
    FixRecord(m[k], keyField, anomaly);
    forall j | j in m
      ensures Snapshot(m)[j] == old(Snapshot(m))[k := WithFix(old(m[k].fields), keyField, anomaly)][j]
    {
      if j != k {
        assert m[j] != m[k];
      }
    }
  }

  /** One round of the loop of `ProcessPOBOX` over a record with a street
      field: the records visited so far, in `order`, are fixed, and now
      the one at position `i` is too. */
  method VisitRecord(m: map<int, Record>, order: seq<int>, i: nat, ghost before: Table, keyField: string, anomaly: string)
    requires Distinct(m) && i < |order| && order[i] in m && order[i] in before && order[i] !in order[..i]
    requires Snapshot(m) == FixPrefix(before, order[..i], keyField, anomaly)
    requires keyField in m[order[i]].fields
    modifies m[order[i]]
    ensures Snapshot(m) == FixPrefix(before, order[..i + 1], keyField, anomaly)
  {
    var k := order[i];
    ghost var done := FixPrefix(before, order[..i], keyField, anomaly);
    assert m[k].fields == before[k];
    FixEntry(m, k, keyField, anomaly);
    FixPrefixStep(before, order, i, keyField, anomaly);
  }

  /** The body of the loop of `IdentifyAnomaly` (lines 172-181) for one
      selected record. */
  method SegmentRecord(rec: Record, key: string, anomaly: string)
    requires Flagged(rec.fields, key, anomaly)
    modifies rec
    ensures rec.fields == Segment(old(rec.fields), key, anomaly)
  {
    var address := Lower(rec.fields[key]);
    var start := Find(address, anomaly).value;
    var oldKey := key + "_old";
    rec.fields := rec.fields[oldKey := rec.fields[key]];
    if start > 0 {
      rec.fields := rec.fields[key := rec.fields[key][..start]];
    }
    // Line 181 computes `replace(theAnomaly, "")` and discards the result.
  }

  /** The loop of lines 172-181: segments in place the records of `m`
      whose keys are in `chosen`, all of them flagged. */
  method SegmentAll(m: map<int, Record>, chosen: set<int>, key: string, anomaly: string)
    requires Distinct(m) && chosen <= Selected(Snapshot(m), key, anomaly)
    modifies m.Values
    ensures chosen <= Selected(old(Snapshot(m)), key, anomaly)
    ensures Snapshot(m) == Segmented(old(Snapshot(m)), chosen, key, anomaly)
  {
    var todo := chosen;
    while todo != {}
      invariant todo <= chosen
      invariant forall k :: k in m ==>
        m[k].fields == if k in chosen && k !in todo then Segment(old(m[k].fields), key, anomaly) else old(m[k].fields)
      decreases |todo|
    {
      ghost var w := Pick(todo);
      var i :| i in todo;
      SegmentRecord(m[i], key, anomaly);
      todo := todo - {i};
    }
    forall k | k in m
      ensures Snapshot(m)[k] == Segmented(old(Snapshot(m)), chosen, key, anomaly)[k]
    {
    }
  }

  /** The records picked by line 169 are those of `Selected`. */
  lemma SelectedRecords(m: map<int, Record>, odd: map<int, Record>, key: string, anomaly: string)
    requires Distinct(m)
    requires odd == map i | i in m && Flagged(m[i].fields, key, anomaly) :: m[i]
    ensures odd.Keys == Selected(Snapshot(m), key, anomaly)
    ensures forall k :: k in odd ==> k in m && odd[k] == m[k]
    ensures Distinct(odd) && forall k :: k in odd ==> Flagged(odd[k].fields, key, anomaly)
  {
  }

  /** An element of a non-empty set. */
  lemma Pick<T>(s: set<T>) returns (x: T)
    requires s != {}
    ensures x in s
  {
    if forall y :: y !in s {
      assert false;
    }
    x :| x in s;
  }

  class Processing {
    var data: map<int, Record>
    var unmatchedData: map<int, Record>
    var matchedData: map<int, Record>

    predicate Valid()
      reads this
    {
      Distinct(data)
    }

    /** Line 24: `self.data` holds the records read from the CSV file. */
    constructor (data: map<int, Record>)
      requires Distinct(data)
      ensures this.data == data && unmatchedData == map[] && matchedData == map[]
      ensures Valid()
    {
      this.data := data;
      unmatchedData := map[];
      matchedData := map[];
    }

    /** Line 30: the unmatched records are those whose locator name is a
        single space. */
    method SelectUnmatched() returns (r: Result<map<int, Record>>)
      modifies this
      ensures data == old(data) && matchedData == old(matchedData)
      ensures r == FilterDataset(data, LocatorField, Unlocated)
      ensures unmatchedData == if r.Ok? then r.value else old(unmatchedData)
    {
      r := FilterDataset(data, LocatorField, Unlocated);
      if r.Ok? {
        unmatchedData := r.value;
      }
    }

    /** Lines 130-131. */
    method OutputMatched()
      modifies this
      ensures data == old(data) && unmatchedData == old(unmatchedData)
      ensures matchedData == Matched(data, unmatchedData)
    {
      matchedData := map rec | rec in data && rec !in unmatchedData :: data[rec];
    }

    /** Lines 164-183: selects the records whose field `theKey` holds
        `theAnomaly`, segments them in place, and returns them (the same
        records). A record without `theKey` raises `KeyError` before any
        record is changed. */
    method IdentifyAnomaly(theKey: string, theAnomaly: string) returns (result: Result<map<int, Record>>)
      requires Valid()
      modifies data.Values
      ensures !AllHave(old(Snapshot(data)), theKey) ==>
        result == Err(MissingField(theKey)) && Snapshot(data) == old(Snapshot(data))
      ensures AllHave(old(Snapshot(data)), theKey) ==>
        var chosen := Selected(old(Snapshot(data)), theKey, theAnomaly);
        result.Ok? && result.value.Keys == chosen && (forall k :: k in chosen ==> result.value[k] == data[k]) &&
        Snapshot(data) == Segmented(old(Snapshot(data)), chosen, theKey, theAnomaly)
    {
      ghost var before := Snapshot(data);
      if exists k :: k in data && theKey !in data[k].fields {
        ghost var k :| k in data && theKey !in data[k].fields;
        assert theKey !in before[k];
        return Err(MissingField(theKey));
      }
      assert AllHave(before, theKey);
      var oddData := map i | i in data && Flagged(data[i].fields, theKey, theAnomaly) :: data[i];
      SelectedRecords(data, oddData, theKey, theAnomaly);
      // `oddData[i]` is `data[i]`: the loop segments the records of `data`.
      SegmentAll(data, oddData.Keys, theKey, theAnomaly);
      result := Ok(oddData);
    }

    /** Lines 196-245. The records of `unmatchedRecords` are visited in
        `order`, Python's iteration order of its keys. A record whose street
        field normalises gets a `fixedAddress`. A record without the street
        field raises `KeyError` and ends the call, those before it already
        changed; a record without a FID raises `KeyError` after the loop.
        Otherwise the result is the records with a `fixedAddress` by FID
        and the keys of the others by FID. */
    method ProcessPOBOX(unmatchedRecords: map<int, Record>, order: seq<int>, keyField: string, anomaly: string)
        returns (result: Result<(map<string, Record>, map<string, int>)>)
      requires IsOrder(order, unmatchedRecords) && Distinct(unmatchedRecords)
      modifies unmatchedRecords.Values
      ensures var before := old(Snapshot(unmatchedRecords));
        Snapshot(unmatchedRecords) ==
          FixPrefix(before, order[..FirstMissing(order, before, keyField)], keyField, anomaly)
      ensures FirstMissing(order, old(Snapshot(unmatchedRecords)), keyField) < |order| ==>
        result == Err(MissingField(keyField))
      ensures FirstMissing(order, old(Snapshot(unmatchedRecords)), keyField) == |order| ==>
        result == Collect(order, unmatchedRecords)
    {
      ghost var before := Snapshot(unmatchedRecords);
      ghost var n := FirstMissing(order, before, keyField);
      var i := 0;
      while i < |order|
        invariant 0 <= i <= n
        invariant Snapshot(unmatchedRecords) == FixPrefix(before, order[..i], keyField, anomaly)
      {
        var k := order[i];
        var rec := unmatchedRecords[k];
        assert k !in order[..i];
        assert rec.fields == before[k];
        FirstMissingNext(order, before, keyField, i);
        if keyField !in rec.fields {
          assert i == n;
          return Err(MissingField(keyField));
        }
        VisitRecord(unmatchedRecords, order, i, before, keyField, anomaly);
        i := i + 1;
      }
      assert i == n == |order| && order[..i] == order;
      result := Collect(order, unmatchedRecords);
    }
  }
}
