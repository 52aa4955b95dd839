/**
 * The two table-level joins: `merge` (dataset.py:122-132), one merged
 * record per key the two tables share, and `append` (dataset.py:145-162),
 * the right table's records followed by the left table's records whose
 * key the right table lacks (or all of them).
 *
 * Both build a fresh table and fill it with `add_record`; both fail as a
 * whole when building a key index or adding a record fails. Each method is
 * proved equal to a specification function that folds over the index keys
 * the way the method's loop does, and the exact-result lemmas below say
 * what those specifications produce.
 */
module Relational {
  import opened Values
  import opened Records
  import opened DataSets
  import opened KeyIndexing

  /** `add_record` inputs for stored rows read through `names`: the records a table hands out. */
  function AsInputs(names: map<string, nat>, rows: seq<Fields>): (ins: seq<Input>)
    ensures |ins| == |rows|
    decreases |rows|
  {
    if |rows| == 0 then [] else AsInputs(names, rows[..|rows| - 1]) + [FromRecord(Record(names, rows[|rows| - 1]))]
  }

  lemma {:induction false} AsInputsAppend(names: map<string, nat>, a: seq<Fields>, b: seq<Fields>)
    ensures AsInputs(names, a + b) == AsInputs(names, a) + AsInputs(names, b)
    decreases |b|
  {
    if |b| == 0 {
      assert a + b == a;
    } else {
      var b0 := b[..|b| - 1];
      assert (a + b)[..|a + b| - 1] == a + b0;
      AsInputsAppend(names, a, b0);
    }
  }

  /**
   * A loop's status and the records it leaves, read as a result: the records
   * when it finished, its error when it failed.
   */
  function Outcome(st: Status, rows: seq<Fields>): Result<seq<Fields>>
  {
    if st == Done then Ok(rows) else Err(st.error)
  }

  lemma ThenAssoc(x: Result<seq<Fields>>, y: Result<seq<Fields>>, z: Result<seq<Fields>>)
    ensures Then(Then(x, y), z) == Then(x, Then(y, z))
  {
    if x.Ok? && y.Ok? && z.Ok? {
      assert x.value + y.value + z.value == x.value + (y.value + z.value);
    }
  }

  // ---------------------------------------------------------------------
  // merge

  /**
   * The loop's join condition beyond a shared key: both key columns exist
   * and are equal columns (same kind and name). It is evaluated only for a
   * key both indexes hold, so both tables have records and both key columns
   * are mapped there.
   */
  predicate SameKeyColumn(l: Snapshot, r: Snapshot, lk: string, rk: string)
    requires WellFormed(l) && WellFormed(r)
  {
    lk in l.names && rk in r.names && l.columns[l.names[lk]] == r.columns[r.names[rk]]
  }

  /**
   * One shared key: merge the first record of each bucket and ingest the
   * result into the new table. An empty bucket would make
   * `select_first_or_only` fail with IndexError; a built index has none.
   */
  function MergeOne(lnames: map<string, nat>, rnames: map<string, nat>, newNames: map<string, nat>,
                    eL: Entry, eR: Entry, overwrite: bool): Result<Fields>
    requires Injective(lnames) && Injective(newNames)
  {
    match SelectFirstOrOnly(eL)
    case Err(e) => Err(e)
    case Ok(lr) =>
      match SelectFirstOrOnly(eR)
      case Err(e) => Err(e)
      case Ok(rr) =>
        match MergedRecord(Record(lnames, lr), Record(rnames, rr), overwrite)
        case Err(e) => Err(e)
        case Ok(m) => IngestOne(newNames, FromRecord(m))
  }

  /**
   * What `merge` adds for one left key: nothing unless the right index holds
   * the key and the key columns match, otherwise one merged row or the
   * failure. A key missing from the left index would fail the lookup with
   * KeyError; the loop only visits the left index's own keys.
   */
  function MergeStep(lnames: map<string, nat>, rnames: map<string, nat>, newNames: map<string, nat>,
                     ixL: KeyIndex, ixR: KeyIndex, same: bool, overwrite: bool, k: Value): Result<seq<Fields>>
    requires Injective(lnames) && Injective(newNames)
  {
    if k in ixR.entries && same then
      if k !in ixL.entries then Err(KeyError)
      else
        match MergeOne(lnames, rnames, newNames, ixL.entries[k], ixR.entries[k], overwrite)
        case Err(e) => Err(e)
        case Ok(f) => Ok([f])
    else Ok([])
  }

  /** The rows `merge` adds for the left keys `ks`, in order, or the first failure. */
  function MergeRows(lnames: map<string, nat>, rnames: map<string, nat>, newNames: map<string, nat>,
                     ixL: KeyIndex, ixR: KeyIndex, same: bool, overwrite: bool, ks: seq<Value>): Result<seq<Fields>>
    requires Injective(lnames) && Injective(newNames)
    decreases |ks|
  {
    if |ks| == 0 then Ok([])
    else Then(MergeRows(lnames, rnames, newNames, ixL, ixR, same, overwrite, ks[..|ks| - 1]),
              MergeStep(lnames, rnames, newNames, ixL, ixR, same, overwrite, ks[|ks| - 1]))
  }

  /** The records of the table `merge(left, right, lk, rk, overwrite)` returns, or the error it raises. */
  function MergeSpec(l: Snapshot, r: Snapshot, lk: string, rk: string, overwrite: bool): Result<seq<Fields>>
    requires WellFormed(l) && WellFormed(r)
  {
    match KeyIndexOf(l, lk)
    case Err(e) => Err(e)
    case Ok(ixL) =>
      match KeyIndexOf(r, rk)
      case Err(e) => Err(e)
      case Ok(ixR) =>
        NamesOfWellFormed(l.columns);
        MergeRows(l.names, r.names, NamesOf(l.columns), ixL, ixR, SameKeyColumn(l, r, lk, rk), overwrite, ixL.keys)
  }

  /** Once a prefix of the keys fails, the whole fold fails the same way. */
  lemma {:induction false} MergeRowsStopsAtError(lnames: map<string, nat>, rnames: map<string, nat>, newNames: map<string, nat>,
                                                 ixL: KeyIndex, ixR: KeyIndex, same: bool, overwrite: bool, ks: seq<Value>, j: nat)
    requires Injective(lnames) && Injective(newNames)
    requires j <= |ks|
    requires MergeRows(lnames, rnames, newNames, ixL, ixR, same, overwrite, ks[..j]).Err?
    ensures MergeRows(lnames, rnames, newNames, ixL, ixR, same, overwrite, ks)
         == MergeRows(lnames, rnames, newNames, ixL, ixR, same, overwrite, ks[..j])
    decreases |ks|
  {
    if j < |ks| {
      var init := ks[..|ks| - 1];
      assert init[..j] == ks[..j];
      MergeRowsStopsAtError(lnames, rnames, newNames, ixL, ixR, same, overwrite, init, j);
    } else {
      assert ks[..j] == ks;
    }
  }

  /** With no key shared by the two indexes, the join condition is never consulted. */
  lemma {:induction false} MergeRowsSameIrrelevant(lnames: map<string, nat>, rnames: map<string, nat>, newNames: map<string, nat>,
                                                   ixL: KeyIndex, ixR: KeyIndex, overwrite: bool, ks: seq<Value>, a: bool, b: bool)
    requires Injective(lnames) && Injective(newNames)
    requires (|ks| > 0 && |ixR.entries| > 0) ==> a == b
    ensures MergeRows(lnames, rnames, newNames, ixL, ixR, a, overwrite, ks)
         == MergeRows(lnames, rnames, newNames, ixL, ixR, b, overwrite, ks)
    decreases |ks|
  {
    if |ks| > 0 {
      MergeRowsSameIrrelevant(lnames, rnames, newNames, ixL, ixR, overwrite, ks[..|ks| - 1], a, b);
    }
  }

  /** One more left key: the loop's outcome after it is the fold over one more key. */
  lemma MergeRowsNext(lnames: map<string, nat>, rnames: map<string, nat>, newNames: map<string, nat>,
                      ixL: KeyIndex, ixR: KeyIndex, same: bool, overwrite: bool, ks: seq<Value>, i: nat,
                      before: seq<Fields>, st: Status, after: seq<Fields>)
    requires Injective(lnames) && Injective(newNames) && i < |ks|
    requires MergeRows(lnames, rnames, newNames, ixL, ixR, same, overwrite, ks[..i]) == Ok(before)
    requires Outcome(st, after) == Then(Ok(before), MergeStep(lnames, rnames, newNames, ixL, ixR, same, overwrite, ks[i]))
    ensures Outcome(st, after) == MergeRows(lnames, rnames, newNames, ixL, ixR, same, overwrite, ks[..i + 1])
    ensures st.Failed? ==> Outcome(st, after) == MergeRows(lnames, rnames, newNames, ixL, ixR, same, overwrite, ks)
  {
    assert ks[..i + 1][..i] == ks[..i] && ks[..i + 1][i] == ks[i];
    if st.Failed? {
      MergeRowsStopsAtError(lnames, rnames, newNames, ixL, ixR, same, overwrite, ks, i + 1);
    }
  }

  /** One iteration of `merge`'s loop: adds to `t` what MergeStep gives for key `k`. */
  method MergeKey(t: Table, lnames: map<string, nat>, rnames: map<string, nat>,
                  ixL: KeyIndex, ixR: KeyIndex, same: bool, overwrite: bool, k: Value) returns (st: Status)
    requires t.Valid() && Injective(lnames)
    modifies t
    ensures t.Valid() && t.columns == old(t.columns) && t.names == old(t.names)
    ensures Outcome(st, t.records) == Then(Ok(old(t.records)), MergeStep(lnames, rnames, t.names, ixL, ixR, same, overwrite, k))
    ensures st.Failed? ==> t.records == old(t.records)
  {
    ghost var step := MergeStep(lnames, rnames, t.names, ixL, ixR, same, overwrite, k);
    if k in ixR.entries && same {
      if k !in ixL.entries {
        assert step == Err(KeyError);
        return Failed(KeyError);
      }
      var lr := SelectFirstOrOnly(ixL.entries[k]);
      if lr.Err? {
        assert step == Err(lr.error);
        return Failed(lr.error);
      }
      var rr := SelectFirstOrOnly(ixR.entries[k]);
      if rr.Err? {
        assert step == Err(rr.error);
        return Failed(rr.error);
      }
      var merged := MergeRecords(Record(lnames, lr.value), Record(rnames, rr.value), overwrite);
      if merged.Err? {
        assert step == Err(merged.error);
        return Failed(merged.error);
      }
      assert MergeOne(lnames, rnames, t.names, ixL.entries[k], ixR.entries[k], overwrite)
          == IngestOne(t.names, FromRecord(merged.value));
      var added := t.AddRecord(FromRecord(merged.value));
      if added.Err? {
        assert Resolve(merged.value, t.names.Keys).Err?;
        return Failed(added.error);
      }
    }
    assert step.Ok? && t.records == old(t.records) + step.value;
    return Done;
  }

  /** The loop of `merge`: adds to `t` the rows MergeRows gives for the left keys. */
  method MergeLoop(t: Table, lnames: map<string, nat>, rnames: map<string, nat>,
                   ixL: KeyIndex, ixR: KeyIndex, same: bool, overwrite: bool) returns (st: Status)
    requires t.Valid() && Injective(lnames) && t.records == []
    modifies t
    ensures t.Valid() && t.columns == old(t.columns) && t.names == old(t.names)
    ensures Outcome(st, t.records) == MergeRows(lnames, rnames, t.names, ixL, ixR, same, overwrite, ixL.keys)
  {
    ghost var ns := t.names;
    var ks := ixL.keys;
    var i := 0;
    while i < |ks|
      invariant 0 <= i <= |ks|
      invariant t.Valid() && t.columns == old(t.columns) && t.names == ns
      invariant MergeRows(lnames, rnames, ns, ixL, ixR, same, overwrite, ks[..i]) == Ok(t.records)
    {
      ghost var before := t.records;
      st := MergeKey(t, lnames, rnames, ixL, ixR, same, overwrite, ks[i]);
      MergeRowsNext(lnames, rnames, ns, ixL, ixR, same, overwrite, ks, i, before, st, t.records);
      if st.Failed? {
        return;
      }
      i := i + 1;
    }
    assert ks[..i] == ks;
    return Done;
  }

  /** The key-column comparison of `merge`'s loop: `right.get_column(rk) == left.get_column(lk)`. */
  method KeyColumnsMatch(left: Table, right: Table, lk: string, rk: string) returns (same: bool)
    requires left.Valid() && right.Valid() && lk in left.names && rk in right.names
    ensures same == SameKeyColumn(left.State(), right.State(), lk, rk)
  {
    var cr := right.GetColumn(rk);
    var cl := left.GetColumn(lk);
    same := cr == cl;
  }

  /**
   * `merge`: a new table with the left table's columns holding, for each
   * left key (in first-seen order) that the right index also holds, the
   * merge of the first left and first right record with that key, provided
   * the two key columns are equal.
   *
   * The source compares the key columns inside the loop, for each shared
   * key. The comparison reads neither table's records, so it has the same
   * value on every iteration; it is made once here, and only when both
   * indexes are non-empty, where both key columns are mapped and the
   * lookups cannot fail.
   */
  method Merge(left: Table, right: Table, lk: string, rk: string, overwrite: bool := false) returns (r: Result<Table>)
    requires left.Valid() && right.Valid()
    ensures r.Err? ==> MergeSpec(old(left.State()), old(right.State()), lk, rk, overwrite) == Err(r.error)
    ensures r.Ok? ==> && fresh(r.value) && r.value.Valid()
                      && r.value.columns == old(left.columns) && r.value.names == NamesOf(old(left.columns))
                      && MergeSpec(old(left.State()), old(right.State()), lk, rk, overwrite) == Ok(r.value.records)
  {
    ghost var spec := MergeSpec(left.State(), right.State(), lk, rk, overwrite);
    var builtL := BuildKeyIndex(left, lk);
    if builtL.Err? {
      assert spec == Err(builtL.error);
      return Err(builtL.error);
    }
    var builtR := BuildKeyIndex(right, rk);
    if builtR.Err? {
      assert spec == Err(builtR.error);
      return Err(builtR.error);
    }
    var ixL, ixR := builtL.value, builtR.value;
    NamesOfWellFormed(left.columns);
    ghost var newNames := NamesOf(left.columns);
    var same := false;
    if |ixL.keys| > 0 && |ixR.entries| > 0 {
      same := KeyColumnsMatch(left, right, lk, rk);
    }
    MergeRowsSameIrrelevant(left.names, right.names, newNames, ixL, ixR, overwrite, ixL.keys,
                            same, SameKeyColumn(left.State(), right.State(), lk, rk));
    assert spec == MergeRows(left.names, right.names, newNames, ixL, ixR, same, overwrite, ixL.keys);
    var t := new Table(left.columns);
    var st := MergeLoop(t, left.names, right.names, ixL, ixR, same, overwrite);
    assert Outcome(st, t.records) == spec;
    if st.Failed? {
      return Err(st.error);
    }
    return Ok(t);
  }

  // ---------------------------------------------------------------------
  // append

  /**
   * What `append` adds for one right key: the whole bucket, each record read
   * through the right table's names. A key missing from the right index
   * would fail the lookup with KeyError; the loop only visits the index's
   * own keys.
   */
  function RightStep(rnames: map<string, nat>, newNames: map<string, nat>, ixR: KeyIndex, k: Value): Result<seq<Fields>>
    requires Injective(newNames)
  {
    if k !in ixR.entries then Err(KeyError)
    else IngestAll(newNames, AsInputs(rnames, SelectAll(ixR.entries[k])))
  }

  /** The rows `append` adds for the right keys `ks`, in order, or the first failure. */
  function RightRows(rnames: map<string, nat>, newNames: map<string, nat>, ixR: KeyIndex, ks: seq<Value>): Result<seq<Fields>>
    requires Injective(newNames)
    decreases |ks|
  {
    if |ks| == 0 then Ok([])
    else Then(RightRows(rnames, newNames, ixR, ks[..|ks| - 1]), RightStep(rnames, newNames, ixR, ks[|ks| - 1]))
  }

  /**
   * What `append` adds for one left key: nothing when the right index holds
   * the key and duplicates are ignored; otherwise the first record of the
   * bucket when duplicates are ignored, and the whole bucket when they are
   * not. Each record is read through the left table's names.
   */
  function LeftStep(lnames: map<string, nat>, newNames: map<string, nat>, ixL: KeyIndex, ixR: KeyIndex,
                    ignoreDuplicates: bool, k: Value): Result<seq<Fields>>
    requires Injective(newNames)
  {
    if k !in ixR.entries || !ignoreDuplicates then
      if k !in ixL.entries then Err(KeyError)
      else if ignoreDuplicates then
        match SelectFirstOrOnly(ixL.entries[k])
        case Err(e) => Err(e)
        case Ok(f) =>
          match IngestOne(newNames, FromRecord(Record(lnames, f)))
          case Err(e) => Err(e)
          case Ok(g) => Ok([g])
      else IngestAll(newNames, AsInputs(lnames, SelectAll(ixL.entries[k])))
    else Ok([])
  }

  /** The rows `append` adds for the left keys `ks`, in order, or the first failure. */
  function LeftRows(lnames: map<string, nat>, newNames: map<string, nat>, ixL: KeyIndex, ixR: KeyIndex,
                    ignoreDuplicates: bool, ks: seq<Value>): Result<seq<Fields>>
    requires Injective(newNames)
    decreases |ks|
  {
    if |ks| == 0 then Ok([])
    else Then(LeftRows(lnames, newNames, ixL, ixR, ignoreDuplicates, ks[..|ks| - 1]),
              LeftStep(lnames, newNames, ixL, ixR, ignoreDuplicates, ks[|ks| - 1]))
  }

  /**
   * The records of the table `append(left, right, lk, rk, ignoreDuplicates)`
   * returns, or the error it raises: the right rows bucket by bucket, then
   * the left rows LeftStep picks, all ingested into a table with the right
   * table's columns.
   */
  function AppendSpec(l: Snapshot, r: Snapshot, lk: string, rk: string, ignoreDuplicates: bool): Result<seq<Fields>>
    requires WellFormed(l) && WellFormed(r)
  {
    match KeyIndexOf(l, lk)
    case Err(e) => Err(e)
    case Ok(ixL) =>
      match KeyIndexOf(r, rk)
      case Err(e) => Err(e)
      case Ok(ixR) =>
        NamesOfWellFormed(r.columns);
        Then(RightRows(r.names, NamesOf(r.columns), ixR, ixR.keys),
             LeftRows(l.names, NamesOf(r.columns), ixL, ixR, ignoreDuplicates, ixL.keys))
  }

  lemma {:induction false} RightRowsStopsAtError(rnames: map<string, nat>, newNames: map<string, nat>, ixR: KeyIndex,
                                                 ks: seq<Value>, j: nat)
    requires Injective(newNames) && j <= |ks|
    requires RightRows(rnames, newNames, ixR, ks[..j]).Err?
    ensures RightRows(rnames, newNames, ixR, ks) == RightRows(rnames, newNames, ixR, ks[..j])
    decreases |ks|
  {
    if j < |ks| {
      var init := ks[..|ks| - 1];
      assert init[..j] == ks[..j];
      RightRowsStopsAtError(rnames, newNames, ixR, init, j);
    } else {
      assert ks[..j] == ks;
    }
  }

  /** One more right key: the loop's outcome after it is the fold over one more key. */
  lemma RightRowsNext(rnames: map<string, nat>, newNames: map<string, nat>, ixR: KeyIndex, ks: seq<Value>, i: nat,
                      before: seq<Fields>, st: Status, after: seq<Fields>)
    requires Injective(newNames) && i < |ks|
    requires RightRows(rnames, newNames, ixR, ks[..i]) == Ok(before)
    requires Outcome(st, after) == Then(Ok(before), RightStep(rnames, newNames, ixR, ks[i]))
    ensures Outcome(st, after) == RightRows(rnames, newNames, ixR, ks[..i + 1])
    ensures st.Failed? ==> Outcome(st, after) == RightRows(rnames, newNames, ixR, ks)
  {
    assert ks[..i + 1][..i] == ks[..i] && ks[..i + 1][i] == ks[i];
    if st.Failed? {
      RightRowsStopsAtError(rnames, newNames, ixR, ks, i + 1);
    }
  }

  lemma {:induction false} LeftRowsStopsAtError(lnames: map<string, nat>, newNames: map<string, nat>, ixL: KeyIndex, ixR: KeyIndex,
                                                ignoreDuplicates: bool, ks: seq<Value>, j: nat)
    requires Injective(newNames) && j <= |ks|
    requires LeftRows(lnames, newNames, ixL, ixR, ignoreDuplicates, ks[..j]).Err?
    ensures LeftRows(lnames, newNames, ixL, ixR, ignoreDuplicates, ks)
         == LeftRows(lnames, newNames, ixL, ixR, ignoreDuplicates, ks[..j])
    decreases |ks|
  {
    if j < |ks| {
      var init := ks[..|ks| - 1];
      assert init[..j] == ks[..j];
      LeftRowsStopsAtError(lnames, newNames, ixL, ixR, ignoreDuplicates, init, j);
    } else {
      assert ks[..j] == ks;
    }
  }

  /** One more left key: the loop's outcome after it is the fold over one more key. */
  lemma LeftRowsNext(lnames: map<string, nat>, newNames: map<string, nat>, ixL: KeyIndex, ixR: KeyIndex,
                     ignoreDuplicates: bool, ks: seq<Value>, i: nat,
                     base: seq<Fields>, before: seq<Fields>, st: Status, after: seq<Fields>)
    requires Injective(newNames) && i < |ks|
    requires Then(Ok(base), LeftRows(lnames, newNames, ixL, ixR, ignoreDuplicates, ks[..i])) == Ok(before)
    requires Outcome(st, after) == Then(Ok(before), LeftStep(lnames, newNames, ixL, ixR, ignoreDuplicates, ks[i]))
    ensures Outcome(st, after) == Then(Ok(base), LeftRows(lnames, newNames, ixL, ixR, ignoreDuplicates, ks[..i + 1]))
    ensures st.Failed? ==> Outcome(st, after) == Then(Ok(base), LeftRows(lnames, newNames, ixL, ixR, ignoreDuplicates, ks))
  {
    assert ks[..i + 1][..i] == ks[..i] && ks[..i + 1][i] == ks[i];
    ThenAssoc(Ok(base), LeftRows(lnames, newNames, ixL, ixR, ignoreDuplicates, ks[..i]),
              LeftStep(lnames, newNames, ixL, ixR, ignoreDuplicates, ks[i]));
    if st.Failed? {
      LeftRowsStopsAtError(lnames, newNames, ixL, ixR, ignoreDuplicates, ks, i + 1);
    }
  }

  /** One iteration of `append`'s first loop: adds to `t` what RightStep gives for key `k`. */
  method AppendRightKey(t: Table, rnames: map<string, nat>, ixR: KeyIndex, k: Value) returns (st: Status)
    requires t.Valid()
    modifies t
    ensures t.Valid() && t.columns == old(t.columns) && t.names == old(t.names)
    ensures Outcome(st, t.records) == Then(Ok(old(t.records)), RightStep(rnames, t.names, ixR, k))
  {
    ghost var step := RightStep(rnames, t.names, ixR, k);
    if k !in ixR.entries {
      assert step == Err(KeyError);
      return Failed(KeyError);
    }
    var added := t.AddRecords(AsInputs(rnames, SelectAll(ixR.entries[k])));
    if added.Err? {
      return Failed(added.error);
    }
    return Done;
  }

  /** One iteration of `append`'s second loop: adds to `t` what LeftStep gives for key `k`. */
  method AppendLeftKey(t: Table, lnames: map<string, nat>, ixL: KeyIndex, ixR: KeyIndex,
                       ignoreDuplicates: bool, k: Value) returns (st: Status)
    requires t.Valid()
    modifies t
    ensures t.Valid() && t.columns == old(t.columns) && t.names == old(t.names)
    ensures Outcome(st, t.records) == Then(Ok(old(t.records)), LeftStep(lnames, t.names, ixL, ixR, ignoreDuplicates, k))
  {
    ghost var step := LeftStep(lnames, t.names, ixL, ixR, ignoreDuplicates, k);
    if k !in ixR.entries || (k in ixR.entries && !ignoreDuplicates) {
      if k !in ixL.entries {
        assert step == Err(KeyError);
        return Failed(KeyError);
      }
      if ignoreDuplicates {
        var first := SelectFirstOrOnly(ixL.entries[k]);
        if first.Err? {
          assert step == Err(first.error);
          return Failed(first.error);
        }
        var added := t.AddRecord(FromRecord(Record(lnames, first.value)));
        if added.Err? {
          assert step == Err(added.error);
          return Failed(added.error);
        }
      } else {
        var added := t.AddRecords(AsInputs(lnames, SelectAll(ixL.entries[k])));
        if added.Err? {
          return Failed(added.error);
        }
      }
    }
    assert step.Ok? && t.records == old(t.records) + step.value;
    return Done;
  }

  /** The first loop of `append`: adds to `t` the rows RightRows gives for the right keys. */
  method AppendRightLoop(t: Table, rnames: map<string, nat>, ixR: KeyIndex) returns (st: Status)
    requires t.Valid() && t.records == []
    modifies t
    ensures t.Valid() && t.columns == old(t.columns) && t.names == old(t.names)
    ensures Outcome(st, t.records) == RightRows(rnames, t.names, ixR, ixR.keys)
  {
    ghost var ns := t.names;
    var ks := ixR.keys;
    var i := 0;
    while i < |ks|
      invariant 0 <= i <= |ks|
      invariant t.Valid() && t.columns == old(t.columns) && t.names == ns
      invariant RightRows(rnames, ns, ixR, ks[..i]) == Ok(t.records)
    {
      ghost var before := t.records;
      st := AppendRightKey(t, rnames, ixR, ks[i]);
      RightRowsNext(rnames, ns, ixR, ks, i, before, st, t.records);
      if st.Failed? {
        return;
      }
      i := i + 1;
    }
    assert ks[..i] == ks;
    return Done;
  }

  /** The second loop of `append`: adds to `t` the rows LeftRows gives for the left keys. */
  method AppendLeftLoop(t: Table, lnames: map<string, nat>, ixL: KeyIndex, ixR: KeyIndex,
                        ignoreDuplicates: bool) returns (st: Status)
    requires t.Valid()
    modifies t
    ensures t.Valid() && t.columns == old(t.columns) && t.names == old(t.names)
    ensures Outcome(st, t.records) == Then(Ok(old(t.records)), LeftRows(lnames, t.names, ixL, ixR, ignoreDuplicates, ixL.keys))
  {
    ghost var ns, base := t.names, t.records;
    assert base + [] == base;
    var ks := ixL.keys;
    var i := 0;
    while i < |ks|
      invariant 0 <= i <= |ks|
      invariant t.Valid() && t.columns == old(t.columns) && t.names == ns
      invariant Then(Ok(base), LeftRows(lnames, ns, ixL, ixR, ignoreDuplicates, ks[..i])) == Ok(t.records)
    {
      ghost var before := t.records;
      st := AppendLeftKey(t, lnames, ixL, ixR, ignoreDuplicates, ks[i]);
      LeftRowsNext(lnames, ns, ixL, ixR, ignoreDuplicates, ks, i, base, before, st, t.records);
      if st.Failed? {
        return;
      }
      i := i + 1;
    }
    assert ks[..i] == ks;
    return Done;
  }

  /**
   * `append`: a new table with the right table's columns holding the right
   * table's records bucket by bucket, then, for each left key in first-seen
   * order, the left records LeftStep picks.
   */
  method Append(left: Table, right: Table, lk: string, rk: string, ignoreDuplicates: bool := true) returns (r: Result<Table>)
    requires left.Valid() && right.Valid()
    ensures r.Err? ==> AppendSpec(old(left.State()), old(right.State()), lk, rk, ignoreDuplicates) == Err(r.error)
    ensures r.Ok? ==> && fresh(r.value) && r.value.Valid()
                      && r.value.columns == old(right.columns) && r.value.names == NamesOf(old(right.columns))
                      && AppendSpec(old(left.State()), old(right.State()), lk, rk, ignoreDuplicates) == Ok(r.value.records)
  {
    ghost var spec := AppendSpec(left.State(), right.State(), lk, rk, ignoreDuplicates);
    var builtL := BuildKeyIndex(left, lk);
    if builtL.Err? {
      assert spec == Err(builtL.error);
      return Err(builtL.error);
    }
    var builtR := BuildKeyIndex(right, rk);
    if builtR.Err? {
      assert spec == Err(builtR.error);
      return Err(builtR.error);
    }
    var ixL, ixR := builtL.value, builtR.value;
    var lnames, rnames := left.names, right.names;
    NamesOfWellFormed(right.columns);
    ghost var newNames := NamesOf(right.columns);
    ghost var rightRows := RightRows(rnames, newNames, ixR, ixR.keys);
    ghost var leftRows := LeftRows(lnames, newNames, ixL, ixR, ignoreDuplicates, ixL.keys);
    assert spec == Then(rightRows, leftRows);
    var t := new Table(right.columns);
    var st := AppendRightLoop(t, rnames, ixR);
    if st.Failed? {
      return Err(st.error);
    }
    st := AppendLeftLoop(t, lnames, ixL, ixR, ignoreDuplicates);
    assert Outcome(st, t.records) == spec;
    if st.Failed? {
      return Err(st.error);
    }
    return Ok(t);
  }
}
