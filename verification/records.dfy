/**
 * Records (`DataRecord`): a slot-indexed field map read through a name-to-slot
 * map, and the record-level operations `__getitem__`, `asdict` and
 * `merge_records` (dataset.py:30-44, 134-142).
 */
module Records {
  import opened Values

  /** A record's storage: column slot to value (`DataRecord._fields`). */
  type Fields = map<nat, Value>

  /**
   * A record together with the name-to-slot map it resolves names through.
   * In the source every record of a table shares the table's map by
   * reference; here a table stores only `Fields` and lends its map when a
   * record is read (see DataSets.Table.RecordAt).
   */
  datatype Record = Record(names: map<string, nat>, fields: Fields)

  /** No two names share a slot. Every table's name map has this property. */
  predicate Injective(names: map<string, nat>)
  {
    forall a, b | a in names && b in names && a != b :: names[a] != names[b]
  }

  /** `DataRecord.__getitem__`: look the name up in the map, then its slot in the fields. */
  function Get(r: Record, key: string): (v: Result<Value>)
    ensures v.Err? ==> v.error == KeyError
    ensures v.Ok? <==> key in r.names && r.names[key] in r.fields
    ensures v.Ok? ==> v.value == r.fields[r.names[key]]
  {
    if key !in r.names then Err(KeyError)
    else if r.names[key] !in r.fields then Err(KeyError)
    else Ok(r.fields[r.names[key]])
  }

  /**
   * The dictionary obtained by reading every name of `wanted` through `r`,
   * or a KeyError if one of them cannot be read. `asdict` reads the record's
   * own names; `DataSet.record_to_dict` reads the receiving table's names.
   */
  function Resolve(r: Record, wanted: set<string>): Result<map<string, Value>>
  {
    if forall n | n in wanted :: Get(r, n).Ok? then
      Ok(map n | n in wanted :: Get(r, n).value)
    else
      Err(KeyError)
  }

  /**
   * The fields of a record ingested from a dictionary
   * (`DataSet._add_record_from_dict`): every mapped slot gets the dictionary's
   * value under that slot's name, or `None` when the name is absent; names
   * outside the map are ignored.
   */
  function FieldsFromDict(names: map<string, nat>, d: map<string, Value>): Fields
    requires Injective(names)
  {
    map n | n in names :: names[n] := if n in d then d[n] else Null
  }

  /** `DataRecord.asdict`: one entry per name of the record's map. */
  method AsDict(r: Record) returns (d: Result<map<string, Value>>)
    ensures d == Resolve(r, r.names.Keys)
    ensures d.Ok? <==> forall n | n in r.names :: r.names[n] in r.fields
    ensures d.Ok? ==> d.value.Keys == r.names.Keys
    ensures d.Ok? ==> forall n | n in d.value :: d.value[n] == r.fields[r.names[n]]
  {
    var acc: map<string, Value> := map[];
    var todo := r.names.Keys;
    while todo != {}
      invariant todo <= r.names.Keys
      invariant forall n | n in r.names.Keys - todo :: Get(r, n).Ok?
      invariant acc.Keys == r.names.Keys - todo
      invariant forall n | n in acc :: Get(r, n).Ok? && acc[n] == Get(r, n).value
      decreases |todo|
    {
      var name :| name in todo;
      var v := Get(r, name);
      if v.Err? {
        return Err(v.error);
      }
      acc := acc[name := v.value];
      todo := todo - {name};
    }
    assert acc == map n | n in r.names.Keys :: Get(r, n).value;
    return Ok(acc);
  }

  /**
   * The merge rule of `merge_records` for one field: left's value when left
   * has one and right has none, or when `overwrite` is set; otherwise
   * right's value.
   */
  function MergeValue(left: Value, right: Value, overwrite: bool): (v: Value)
    ensures overwrite ==> v == left
    ensures !overwrite ==> v == (if right == Null then left else right)
    ensures v == left || v == right
  {
    if (left != Null && right == Null) || overwrite then left else right
  }

  /** Both records can be read under `n`, so `merge_records` can merge that field. */
  predicate Mergeable(left: Record, right: Record, n: string)
  {
    Get(right, n).Ok? && Get(left, n).Ok?
  }

  /** The record `merge_records` builds: left's name map, every field merged by MergeValue. */
  function MergedRecord(left: Record, right: Record, overwrite: bool): Result<Record>
    requires Injective(left.names)
  {
    if forall n | n in left.names :: Mergeable(left, right, n) then
      Ok(Record(left.names, MergedFields(left, right, overwrite, left.names.Keys)))
    else
      Err(KeyError)
  }

  /** The merged fields at the slots of the names in `ns`. */
  function MergedFields(left: Record, right: Record, overwrite: bool, ns: set<string>): Fields
    requires Injective(left.names) && ns <= left.names.Keys
    requires forall n | n in ns :: Mergeable(left, right, n)
  {
    map n | n in ns :: left.names[n] := MergedValue(left, right, overwrite, n)
  }

  /** The value `merge_records` writes for the name `n`. */
  function MergedValue(left: Record, right: Record, overwrite: bool, n: string): Value
    requires Mergeable(left, right, n)
  {
    MergeValue(Get(left, n).value, Get(right, n).value, overwrite)
  }

  /** Merging one more name writes one more slot. */
  lemma MergedFieldsAdd(left: Record, right: Record, overwrite: bool, ns: set<string>, n: string)
    requires Injective(left.names) && ns <= left.names.Keys && n in left.names && n !in ns
    requires forall m | m in ns + {n} :: Mergeable(left, right, m)
    ensures MergedFields(left, right, overwrite, ns + {n}) ==
      MergedFields(left, right, overwrite, ns)[left.names[n] := MergedValue(left, right, overwrite, n)]
  {
  }

  /**
   * What MergedRecord promises: it fails exactly when some name of left's
   * map cannot be read in right or in left; otherwise it keeps left's map
   * and holds, at each of its slots, the merge of the two records' values
   * under that slot's name.
   */
  lemma MergedRecordShape(left: Record, right: Record, overwrite: bool)
    requires Injective(left.names)
    ensures MergedRecord(left, right, overwrite).Ok? <==>
      forall n | n in left.names :: Get(right, n).Ok? && Get(left, n).Ok?
    ensures MergedRecord(left, right, overwrite).Ok? ==>
      var m := MergedRecord(left, right, overwrite).value;
      m.names == left.names && m.fields.Keys == left.names.Values &&
      forall n | n in left.names :: m.fields[left.names[n]] == MergeValue(Get(left, n).value, Get(right, n).value, overwrite)
  {
  }

  /** Merging a record with itself gives it back, whatever `overwrite` says. */
  lemma MergeWithItself(r: Record, overwrite: bool)
    requires Injective(r.names) && r.fields.Keys == r.names.Values
    ensures MergedRecord(r, r, overwrite) == Ok(r)
  {
    assert forall n | n in r.names :: Mergeable(r, r, n);
    var m := MergedFields(r, r, overwrite, r.names.Keys);
    assert m.Keys == r.fields.Keys;
    forall s | s in m ensures m[s] == r.fields[s] {
      var n :| n in r.names && r.names[n] == s;
    }
    assert m == r.fields;
  }

  /**
   * With `overwrite` set the left record wins every field: merging gives
   * back the left record whenever both records can be read under all of
   * its names.
   */
  lemma MergeOverwriteKeepsLeft(left: Record, right: Record)
    requires Injective(left.names) && left.fields.Keys == left.names.Values
    requires forall n | n in left.names :: Get(right, n).Ok?
    ensures MergedRecord(left, right, true) == Ok(left)
  {
    assert forall n | n in left.names :: Mergeable(left, right, n);
    var m := MergedFields(left, right, true, left.names.Keys);
    assert m.Keys == left.fields.Keys;
    forall s | s in m ensures m[s] == left.fields[s] {
      var n :| n in left.names && left.names[n] == s;
    }
    assert m == left.fields;
  }

  /** One field of `merge_records`: right's value is read before left's. */
  method MergeField(left: Record, right: Record, overwrite: bool, name: string) returns (v: Result<Value>)
    ensures v.Ok? <==> Mergeable(left, right, name)
    ensures v.Ok? ==> v.value == MergedValue(left, right, overwrite, name)
    ensures v.Err? ==> v.error == KeyError
  {
    var rv := Get(right, name);
    if rv.Err? {
      return Err(rv.error);
    }
    var lv := Get(left, name);
    if lv.Err? {
      return Err(lv.error);
    }
    v := Ok(MergeValue(lv.value, rv.value, overwrite));
  }

  /** `merge_records`: one pass over left's names, stopping at the first one that cannot be read. */
  method MergeRecords(left: Record, right: Record, overwrite: bool) returns (r: Result<Record>)
    requires Injective(left.names)
    ensures r == MergedRecord(left, right, overwrite)
  {
    var names := left.names;
    var fields: Fields := map[];
    var todo := names.Keys;
    ghost var done: set<string> := {};
    while todo != {}
      invariant todo <= names.Keys && done == names.Keys - todo
      invariant todo !! done
      invariant forall n | n in done :: Mergeable(left, right, n)
      invariant fields == MergedFields(left, right, overwrite, done)
      decreases |todo|
    {
      var name :| name in todo;
      var v := MergeField(left, right, overwrite, name);
      if v.Err? {
        return Err(v.error);
      }
      MergedFieldsAdd(left, right, overwrite, done, name);
      fields := fields[names[name] := v.value];
      todo := todo - {name};
      done := done + {name};
    }
    assert done == names.Keys;
    r := Ok(Record(names, fields));
  }
}
