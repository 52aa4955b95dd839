/**
 * The table (`DataSet`, dataset.py:46-110): an ordered list of column
 * descriptions, a name-to-slot map and a list of records, with record
 * ingestion, column lookup and column renaming.
 */
module DataSets {
  import opened Values
  import opened Records

  /** The value of a table's three fields at one instant. */
  datatype Snapshot = Snapshot(columns: seq<Column>, names: map<string, nat>, records: seq<Fields>)

  /**
   * The table invariant: every mapped name points at a column that carries
   * that name, and every record stores a field for exactly the mapped slots.
   */
  predicate WellFormed(s: Snapshot)
    ensures WellFormed(s) ==> Injective(s.names)
  {
    && (forall n | n in s.names :: s.names[n] < |s.columns| && s.columns[s.names[n]].name == n)
    && (forall i | 0 <= i < |s.records| :: s.records[i].Keys == s.names.Values)
  }

  /** Every column is mapped, at its own position (so column names are distinct). */
  predicate Canonical(s: Snapshot)
  {
    forall i | 0 <= i < |s.columns| :: s.columns[i].name in s.names && s.names[s.columns[i].name] == i
  }

  predicate DistinctNames(cols: seq<Column>)
  {
    forall i, j | 0 <= i < j < |cols| :: cols[i].name != cols[j].name
  }

  /**
   * The name map the constructor builds (dataset.py:58-62): the i-th column's
   * name is mapped to i, a later column of the same name replacing an earlier one.
   */
  function NamesOf(cols: seq<Column>): map<string, nat>
    decreases |cols|
  {
    if |cols| == 0 then map[]
    else NamesOf(cols[..|cols| - 1])[cols[|cols| - 1].name := |cols| - 1]
  }

  /**
   * NamesOf maps exactly the column names, each to the LAST column carrying
   * it: every column's position is at most its name's slot, and the slot's
   * column carries the name.
   */
  lemma {:induction false} NamesOfLastWins(cols: seq<Column>)
    ensures forall i | 0 <= i < |cols| :: cols[i].name in NamesOf(cols) && i <= NamesOf(cols)[cols[i].name]
    ensures forall n | n in NamesOf(cols) :: NamesOf(cols)[n] < |cols| && cols[NamesOf(cols)[n]].name == n
    decreases |cols|
  {
    if |cols| > 0 {
      var init := cols[..|cols| - 1];
      var last := |cols| - 1;
      NamesOfLastWins(init);
      var m := NamesOf(cols);
      forall i | 0 <= i < |cols| ensures cols[i].name in m && i <= m[cols[i].name] {
        if i < last { assert init[i] == cols[i]; }
      }
      forall n | n in m ensures m[n] < |cols| && cols[m[n]].name == n {
        if n != cols[last].name { assert init[NamesOf(init)[n]] == cols[NamesOf(init)[n]]; }
      }
    }
  }

  /** The constructor's map satisfies the table invariant. */
  lemma NamesOfWellFormed(cols: seq<Column>)
    ensures WellFormed(Snapshot(cols, NamesOf(cols), []))
    ensures Injective(NamesOf(cols))
  {
    NamesOfLastWins(cols);
  }

  /** With distinct names, the constructor maps the i-th column's name to i. */
  lemma NamesOfDistinct(cols: seq<Column>)
    requires DistinctNames(cols)
    ensures Canonical(Snapshot(cols, NamesOf(cols), []))
    ensures forall i | 0 <= i < |cols| :: NamesOf(cols)[cols[i].name] == i
  {
    NamesOfLastWins(cols);
    forall i | 0 <= i < |cols| ensures cols[i].name in NamesOf(cols) && NamesOf(cols)[cols[i].name] == i {
      var j := NamesOf(cols)[cols[i].name];
      assert cols[j].name == cols[i].name;
    }
  }

  /** A canonical table's map is the one its column list alone would give. */
  lemma {:induction false} CanonicalNames(s: Snapshot)
    requires WellFormed(s) && Canonical(s)
    ensures s.names == NamesOf(s.columns)
    ensures DistinctNames(s.columns)
  {
    var cols := s.columns;
    assert DistinctNames(cols) by {
      forall i, j | 0 <= i < j < |cols| ensures cols[i].name != cols[j].name {
        assert s.names[cols[i].name] == i;
        assert s.names[cols[j].name] == j;
      }
    }
    NamesOfDistinct(cols);
    NamesOfLastWins(cols);
    forall n | n in s.names ensures n in NamesOf(cols) && NamesOf(cols)[n] == s.names[n] {
      var i := s.names[n];
      assert cols[i].name == n;
    }
    forall n | n in NamesOf(cols) ensures n in s.names {
      var i := NamesOf(cols)[n];
      assert cols[i].name == n;
    }
  }

  /** What `DataSet.add_record` accepts: a dictionary, or a record of some table. */
  datatype Input = FromDict(d: map<string, Value>) | FromRecord(r: Record)

  /**
   * The fields `add_record` stores for one input (dataset.py:70-93): a record
   * is first read into a dictionary through the receiving table's names
   * (`record_to_dict`), which fails with KeyError when the record lacks one.
   */
  function IngestOne(names: map<string, nat>, input: Input): Result<Fields>
    requires Injective(names)
  {
    match input
    case FromDict(d) => Ok(FieldsFromDict(names, d))
    case FromRecord(r) =>
      match Resolve(r, names.Keys)
      case Err(e) => Err(e)
      case Ok(d) => Ok(FieldsFromDict(names, d))
  }

  /** The fields `add_records` stores for a list of inputs, or the first failure. */
  function IngestAll(names: map<string, nat>, inputs: seq<Input>): (r: Result<seq<Fields>>)
    requires Injective(names)
    ensures r.Ok? ==> |r.value| == |inputs|
    ensures r.Ok? ==> forall i | 0 <= i < |inputs| :: r.value[i].Keys == names.Values
    ensures r.Err? ==> r.error == KeyError
    decreases |inputs|
  {
    if |inputs| == 0 then Ok([])
    else
      match IngestAll(names, inputs[..|inputs| - 1])
      case Err(e) => Err(e)
      case Ok(fs) =>
        match IngestOne(names, inputs[|inputs| - 1])
        case Err(e) => Err(e)
        case Ok(f) => Ok(fs + [f])
  }

  /** The results of two ingestions in a row: the first failure, or both lists of fields. */
  function Then(x: Result<seq<Fields>>, y: Result<seq<Fields>>): Result<seq<Fields>>
  {
    match x
    case Err(e) => Err(e)
    case Ok(fx) =>
      match y
      case Err(e) => Err(e)
      case Ok(fy) => Ok(fx + fy)
  }

  /** Ingesting a concatenation ingests each part in turn. */
  lemma {:induction false} IngestAllAppend(names: map<string, nat>, a: seq<Input>, b: seq<Input>)
    requires Injective(names)
    ensures IngestAll(names, a + b) == Then(IngestAll(names, a), IngestAll(names, b))
    decreases |b|
  {
    if |b| == 0 {
      assert a + b == a;
      match IngestAll(names, a) {
        case Err(e) =>
        case Ok(fa) => assert fa + [] == fa;
      }
    } else {
      var b0 := b[..|b| - 1];
      assert (a + b)[..|a + b| - 1] == a + b0;
      assert (a + b)[|a + b| - 1] == b[|b| - 1];
      IngestAllAppend(names, a, b0);
      match IngestAll(names, a) {
        case Err(e) =>
        case Ok(fa) =>
          match IngestAll(names, b0) {
            case Err(e) =>
            case Ok(fb0) =>
              match IngestOne(names, b[|b| - 1]) {
                case Err(e) =>
                case Ok(f) => assert fa + fb0 + [f] == fa + (fb0 + [f]);
              }
          }
      }
    }
  }

  /** Once a prefix of the inputs fails to ingest, the whole list fails. */
  lemma {:induction false} IngestAllStopsAtError(names: map<string, nat>, inputs: seq<Input>, j: nat)
    requires Injective(names) && j <= |inputs|
    requires IngestAll(names, inputs[..j]).Err?
    ensures IngestAll(names, inputs).Err?
  {
    IngestAllAppend(names, inputs[..j], inputs[j..]);
    assert inputs[..j] + inputs[j..] == inputs;
  }

  /** A field map with the mapped slots and each name's dictionary value (or `None`) is FieldsFromDict. */
  lemma FieldsFromDictUnique(names: map<string, nat>, d: map<string, Value>, f: Fields)
    requires Injective(names)
    requires f.Keys == set n | n in names :: names[n]
    requires forall n | n in names :: f[names[n]] == if n in d then d[n] else Null
    ensures f == FieldsFromDict(names, d)
    ensures f.Keys == names.Values
  {
    var g := FieldsFromDict(names, d);
    assert f.Keys == g.Keys;
    forall s | s in f ensures f[s] == g[s] {
      var n :| n in names && names[n] == s;
    }
  }

  /**
   * Re-adding a record through the name map it was stored under gives back
   * its fields: `record_to_dict` reads every field and
   * `_add_record_from_dict` writes each one back to its own slot.
   */
  lemma ReadBack(names: map<string, nat>, f: Fields)
    requires Injective(names) && f.Keys == names.Values
    ensures IngestOne(names, FromRecord(Record(names, f))) == Ok(f)
  {
    var rec := Record(names, f);
    assert forall n | n in names.Keys :: Get(rec, n).Ok?;
    var d := map n | n in names.Keys :: Get(rec, n).value;
    assert Resolve(rec, names.Keys) == Ok(d);
    var g := FieldsFromDict(names, d);
    assert g.Keys == f.Keys;
    forall s | s in f ensures g[s] == f[s] {
      var n :| n in names && names[n] == s;
    }
    assert g == f;
  }

  /** A record ingested from a dictionary stores exactly the mapped slots. */
  lemma FieldsFromDictKeys(names: map<string, nat>, d: map<string, Value>)
    requires Injective(names)
    ensures FieldsFromDict(names, d).Keys == names.Values
  {
  }

  /** Appending a record ingested from a dictionary keeps the table invariant. */
  lemma AppendDictKeepsWellFormed(s: Snapshot, d: map<string, Value>)
    requires WellFormed(s)
    ensures WellFormed(Snapshot(s.columns, s.names, s.records + [FieldsFromDict(s.names, d)]))
  {
    FieldsFromDictKeys(s.names, d);
  }

  /**
   * The loop of `_add_record_from_dict` (dataset.py:86-90): for every
   * (name, slot) pair of the map, the dictionary's value or `None`.
   */
  method FieldsFor(names: map<string, nat>, d: map<string, Value>) returns (fields: Fields)
    requires Injective(names)
    ensures fields == FieldsFromDict(names, d)
  {
    fields := map[];
    var todo := names.Keys;
    while todo != {}
      invariant todo <= names.Keys
      invariant fields.Keys == set n | n in names.Keys - todo :: names[n]
      invariant forall n | n in names.Keys - todo :: fields[names[n]] == if n in d then d[n] else Null
      decreases |todo|
    {
      var k :| k in todo;
      fields := fields[names[k] := if k in d then d[k] else Null];
      todo := todo - {k};
    }
    assert names.Keys - todo == names.Keys;
    FieldsFromDictUnique(names, d, fields);
  }

  /**
   * The column loop of `DataSet.__init__` (dataset.py:58-62): copy each
   * column and map its name to its position.
   */
  method CopyColumns(cols: seq<Column>) returns (cs: seq<Column>, ns: map<string, nat>)
    ensures cs == cols && ns == NamesOf(cols)
    ensures WellFormed(Snapshot(cs, ns, []))
  {
    cs, ns := [], map[];
    var i := 0;
    while i < |cols|
      invariant 0 <= i <= |cols|
      invariant cs == cols[..i] && ns == NamesOf(cols[..i])
    {
      assert cols[..i + 1][..i] == cols[..i];
      ns := ns[cols[i].name := i];
      cs := cs + [Column(cols[i].kind, cols[i].name)];
      i := i + 1;
    }
    assert cols[..|cols|] == cols;
    NamesOfWellFormed(cols);
  }

  /** The records ingested from a list of dictionaries, in order. */
  function DictRows(names: map<string, nat>, ds: seq<map<string, Value>>): seq<Fields>
    requires Injective(names)
    decreases |ds|
  {
    if |ds| == 0 then [] else DictRows(names, ds[..|ds| - 1]) + [FieldsFromDict(names, ds[|ds| - 1])]
  }

  lemma {:induction false} DictRowsAt(names: map<string, nat>, ds: seq<map<string, Value>>)
    requires Injective(names)
    ensures |DictRows(names, ds)| == |ds|
    ensures forall i | 0 <= i < |ds| :: DictRows(names, ds)[i] == FieldsFromDict(names, ds[i])
    decreases |ds|
  {
    if |ds| > 0 {
      DictRowsAt(names, ds[..|ds| - 1]);
    }
  }

  class Table {
    var columns: seq<Column>
    var names: map<string, nat>
    var records: seq<Fields>

    function State(): Snapshot
      reads this
    {
      Snapshot(columns, names, records)
    }

    predicate Valid()
      reads this
    {
      WellFormed(State())
    }

    /** The i-th record, reading names through the table's map. */
    function RecordAt(i: nat): Record
      reads this
      requires i < |records|
    {
      Record(names, records[i])
    }

    /**
     * `DataSet.__init__`: copies the column list, maps each column's name to
     * its position (a later duplicate name wins) and ingests the seed
     * dictionaries in order.
     */
    constructor (cols: seq<Column>, seed: seq<map<string, Value>> := [])
      ensures Valid()
      ensures columns == cols && names == NamesOf(cols)
      ensures |records| == |seed|
      ensures forall i | 0 <= i < |seed| :: records[i] == FieldsFromDict(names, seed[i])
    {
      var cs, ns := CopyColumns(cols);
      columns, names, records := cs, ns, [];
      new;
      ghost var ns0 := ns;
      var j := 0;
      while j < |seed|
        invariant 0 <= j <= |seed|
        invariant Valid() && columns == cols && names == ns0
        invariant records == DictRows(ns0, seed[..j])
      {
        assert seed[..j + 1][..j] == seed[..j] && seed[..j + 1][j] == seed[j];
        assert DictRows(ns0, seed[..j + 1]) == DictRows(ns0, seed[..j]) + [FieldsFromDict(ns0, seed[j])];
        var _ := AddRecordFromDict(seed[j]);
        j := j + 1;
      }
      assert seed[..j] == seed;
      DictRowsAt(ns0, seed);
    }

    /**
     * `DataSet._add_record_from_dict`: appends one record holding, for every
     * mapped name, the dictionary's value or `None`; other keys are ignored.
     */
    method AddRecordFromDict(d: map<string, Value>) returns (r: Record)
      requires Valid()
      modifies this
      ensures Valid()
      ensures columns == old(columns) && names == old(names)
      ensures records == old(records) + [FieldsFromDict(names, d)]
      ensures r == RecordAt(|records| - 1)
    {
      ghost var next := Snapshot(columns, names, records + [FieldsFromDict(names, d)]);
      AppendDictKeepsWellFormed(State(), d);
      var ns := names;
      var fields := FieldsFor(ns, d);
      records := records + [fields];
      assert State() == next;
      r := Record(ns, fields);
    }

    /**
     * `DataSet.record_to_dict`: reads every name of this table through the
     * given record; a KeyError when the record cannot supply one of them.
     */
    method RecordToDict(rec: Record) returns (d: Result<map<string, Value>>)
      ensures d == Resolve(rec, names.Keys)
      ensures d.Ok? <==> forall n | n in names :: Get(rec, n).Ok?
      ensures d.Ok? ==> d.value.Keys == names.Keys
      ensures d.Ok? ==> forall n | n in names :: d.value[n] == Get(rec, n).value
    {
      var ns := names;
      var acc: map<string, Value> := map[];
      var todo := ns.Keys;
      while todo != {}
        invariant todo <= ns.Keys
        invariant forall n | n in ns.Keys - todo :: Get(rec, n).Ok?
        invariant acc.Keys == ns.Keys - todo
        invariant forall n | n in acc :: Get(rec, n).Ok? && acc[n] == Get(rec, n).value
        decreases |todo|
      {
        var name :| name in todo;
        var v := Get(rec, name);
        if v.Err? {
          return Err(v.error);
        }
        acc := acc[name := v.value];
        todo := todo - {name};
      }
      assert acc == map n | n in ns.Keys :: Get(rec, n).value;
      return Ok(acc);
    }

    /**
     * `DataSet.add_record`: a dictionary is ingested directly, a record is
     * first read through this table's names. On success exactly one record is
     * appended; on failure nothing changes.
     */
    method AddRecord(input: Input) returns (r: Result<Record>)
      requires Valid()
      modifies this
      ensures Valid()
      ensures columns == old(columns) && names == old(names)
      ensures r.Ok? <==> IngestOne(names, input).Ok?
      ensures input.FromDict? ==> r.Ok?
      ensures r.Ok? ==> records == old(records) + [IngestOne(names, input).value]
      ensures r.Ok? ==> r.value == RecordAt(|records| - 1)
      ensures r.Err? ==> r.error == KeyError && records == old(records)
    {
      match input {
        case FromDict(d) =>
          var rec := AddRecordFromDict(d);
          r := Ok(rec);
        case FromRecord(source) =>
          var d := RecordToDict(source);
          if d.Err? {
            return Err(d.error);
          }
          var rec := AddRecordFromDict(d.value);
          r := Ok(rec);
      }
    }

    /**
     * `DataSet.add_records`: adds the inputs in order. On success every input
     * has been appended; a failure stops at the failing input, keeping the
     * records appended before it.
     */
    method AddRecords(inputs: seq<Input>) returns (r: Result<seq<Record>>)
      requires Valid()
      modifies this
      ensures Valid()
      ensures columns == old(columns) && names == old(names)
      ensures r.Ok? <==> IngestAll(names, inputs).Ok?
      ensures r.Ok? ==> records == old(records) + IngestAll(names, inputs).value
      ensures r.Ok? ==> |r.value| == |inputs|
      ensures r.Ok? ==> forall i | 0 <= i < |inputs| :: r.value[i] == Record(names, records[|old(records)| + i])
      ensures r.Err? ==> old(records) <= records && |records| < |old(records)| + |inputs|
      ensures r.Err? ==> r.error == KeyError
      ensures r.Err? ==> exists j | 0 <= j < |inputs| ::
        && IngestAll(names, inputs[..j]).Ok? && IngestOne(names, inputs[j]).Err?
        && records == old(records) + IngestAll(names, inputs[..j]).value
    {
      ghost var ns := names;
      var added: seq<Record> := [];
      var i := 0;
      while i < |inputs|
        invariant 0 <= i <= |inputs|
        invariant Valid() && columns == old(columns) && names == ns
        invariant IngestAll(ns, inputs[..i]).Ok?
        invariant records == old(records) + IngestAll(ns, inputs[..i]).value
        invariant |added| == i
        invariant forall k | 0 <= k < i :: added[k] == Record(ns, records[|old(records)| + k])
      {
        assert inputs[..i + 1][..i] == inputs[..i];
        var one := AddRecord(inputs[i]);
        if one.Err? {
          assert IngestAll(ns, inputs[..i]).Ok? && IngestOne(ns, inputs[i]).Err?;
          IngestAllStopsAtError(ns, inputs, i + 1);
          return Err(one.error);
        }
        added := added + [one.value];
        i := i + 1;
      }
      assert inputs[..i] == inputs;
      r := Ok(added);
    }

    /**
     * `DataSet.get_column_index`: the slot of a mapped name, or
     * ColumnError(COLUMN_NOT_FOUND).
     */
    function GetColumnIndex(key: string): (r: Result<nat>)
      reads this
      requires Valid()
      ensures r.Ok? <==> key in names
      ensures r.Err? ==> r.error == ColumnNotFound
      ensures r.Ok? ==> r.value == names[key]
      ensures r.Ok? ==> r.value < |columns| && columns[r.value].name == key
    {
      if key !in names then Err(ColumnNotFound) else Ok(names[key])
    }

    /** `DataSet.get_column`: the column at the mapped slot; it carries the looked-up name. */
    function GetColumn(key: string): (r: Result<Column>)
      reads this
      requires Valid()
      ensures r.Ok? <==> key in names
      ensures r.Err? ==> r.error == ColumnNotFound
      ensures r.Ok? ==> r.value == columns[names[key]]
      ensures r.Ok? ==> r.value.name == key && r.value in columns
    {
      match GetColumnIndex(key)
      case Err(e) => Err(e)
      case Ok(i) => Ok(columns[i])
    }

    /**
     * `DataSet.rename_column`, with the name collision the source leaves
     * unchecked reported as ColumnAlreadyExists (see RenameAsWritten). On
     * success the new name takes over the old name's slot, that column is
     * renamed in place, and every record reads under the new name what it read
     * under the old one. Records resolve names through the table, so the
     * source's loop re-pointing each record at the table's map has nothing
     * left to do.
     */
    method RenameColumn(oldName: string, newName: string) returns (st: Status)
      requires Valid()
      modifies this
      ensures Valid()
      ensures records == old(records)
      ensures oldName !in old(names) ==>
        st == Failed(ColumnNotFound) && columns == old(columns) && names == old(names)
      ensures oldName in old(names) && newName in old(names) ==>
        st == Failed(ColumnAlreadyExists) && columns == old(columns) && names == old(names)
      ensures oldName in old(names) && newName !in old(names) ==>
        && st == Done
        && State() == RenameAsWritten(old(State()), oldName, newName).value
        && names == (old(names) - {oldName})[newName := old(names)[oldName]]
        && columns == old(columns)[old(names)[oldName] := Column(old(columns)[old(names)[oldName]].kind, newName)]
    {
      if oldName !in names {
        return Failed(ColumnNotFound);
      }
      if newName in names {
        return Failed(ColumnAlreadyExists);
      }
      ghost var before := State();
      RenameFreshWellFormed(before, oldName, newName);
      var slot := names[oldName];
      names := names[newName := slot];
      columns := columns[slot := Column(columns[slot].kind, newName)];
      names := names - {oldName};
      assert State() == RenameAsWritten(before, oldName, newName).value;
      st := Done;
    }
  }

  /**
   * `rename_column` exactly as written (dataset.py:95-100): map the new name
   * to the old name's slot, rename that column, then delete the old name,
   * without looking at whether the new name was already mapped.
   */
  function RenameAsWritten(s: Snapshot, oldName: string, newName: string): Result<Snapshot>
    requires WellFormed(s)
  {
    if oldName !in s.names then Err(ColumnNotFound)
    else
      var withNew := s.names[newName := s.names[oldName]];
      var slot := withNew[newName];
      Ok(Snapshot(s.columns[slot := Column(s.columns[slot].kind, newName)], withNew - {oldName}, s.records))
  }

  /** A rename to a fresh name keeps the table invariant. */
  lemma RenameFreshWellFormed(s: Snapshot, oldName: string, newName: string)
    requires WellFormed(s) && oldName in s.names && newName !in s.names
    ensures RenameAsWritten(s, oldName, newName).Ok?
    ensures WellFormed(RenameAsWritten(s, oldName, newName).value)
  {
    RenameFreshValues(s, oldName, newName);
  }

  /** After a rename to a fresh name, every record reads under the new name what it read under the old one. */
  lemma RenameFreshReads(s: Snapshot, oldName: string, newName: string)
    requires WellFormed(s) && oldName in s.names && newName !in s.names
    ensures RenameAsWritten(s, oldName, newName).Ok?
    ensures var t := RenameAsWritten(s, oldName, newName).value;
      forall i | 0 <= i < |s.records| ::
        Get(Record(t.names, s.records[i]), newName) == Get(Record(s.names, s.records[i]), oldName)
  {
  }

  /** A rename to a fresh name moves the old name's slot to the new name and keeps the set of slots. */
  lemma RenameFreshValues(s: Snapshot, oldName: string, newName: string)
    requires WellFormed(s) && oldName in s.names && newName !in s.names
    ensures RenameAsWritten(s, oldName, newName).Ok?
    ensures var t := RenameAsWritten(s, oldName, newName).value;
      && t.names.Values == s.names.Values
      && t.names.Keys == s.names.Keys - {oldName} + {newName}
      && |t.names| == |s.names|
  {
    var t := RenameAsWritten(s, oldName, newName).value;
    forall v | v in s.names.Values ensures v in t.names.Values {
      var n :| n in s.names && s.names[n] == v;
      if n == oldName { assert t.names[newName] == v; } else { assert t.names[n] == v; }
    }
    assert t.names.Keys == s.names.Keys - {oldName} + {newName};
  }

  /** A rename to a fresh name keeps every column at its own position mapped. */
  lemma RenameFreshCanonical(s: Snapshot, oldName: string, newName: string)
    requires WellFormed(s) && oldName in s.names && newName !in s.names
    ensures RenameAsWritten(s, oldName, newName).Ok?
    ensures Canonical(s) ==> Canonical(RenameAsWritten(s, oldName, newName).value)
  {
    var t := RenameAsWritten(s, oldName, newName).value;
    var slot := s.names[oldName];
    if Canonical(s) {
      forall i | 0 <= i < |t.columns| ensures t.columns[i].name in t.names && t.names[t.columns[i].name] == i {
        if i != slot {
          assert s.names[s.columns[i].name] == i;
        }
      }
    }
  }

  /**
   * As written, renaming a column to its own name deletes it: the name is no
   * longer mapped and no record can be read under it any more.
   */
  lemma RenameOntoItselfLosesColumn(s: Snapshot, name: string)
    requires WellFormed(s) && name in s.names
    ensures RenameAsWritten(s, name, name).Ok?
    ensures name !in RenameAsWritten(s, name, name).value.names
    ensures |RenameAsWritten(s, name, name).value.names| == |s.names| - 1
    ensures forall i | 0 <= i < |s.records| ::
      Get(Record(s.names, s.records[i]), name).Ok? && Get(Record(RenameAsWritten(s, name, name).value.names, s.records[i]), name).Err?
  {
  }

  /**
   * As written, renaming onto a different name that is already mapped
   * silently unmaps that other column: its slot is no longer reachable.
   */
  lemma RenameOntoTakenNameLosesColumn(s: Snapshot, oldName: string, newName: string)
    requires WellFormed(s) && oldName in s.names && newName in s.names && oldName != newName
    ensures RenameAsWritten(s, oldName, newName).Ok?
    ensures s.names[newName] !in RenameAsWritten(s, oldName, newName).value.names.Values
    ensures |RenameAsWritten(s, oldName, newName).value.names| == |s.names| - 1
  {
    var t := RenameAsWritten(s, oldName, newName).value;
    assert t.names.Keys == s.names.Keys - {oldName};
  }
}
