/**
 * What `merge` and `append` (dataset.py:122-162) produce, stated against the
 * input tables rather than against the folds that specify them: which
 * records come out, in which order, and when the call succeeds.
 */
module JoinFacts {
  import opened Values
  import opened Records
  import opened DataSets
  import opened KeyIndexing
  import opened Relational

  /** Rows that store a field for exactly the slots of `names`. */
  predicate StoredUnder(names: map<string, nat>, rows: seq<Fields>)
  {
    forall i | 0 <= i < |rows| :: rows[i].Keys == names.Values
  }

  /**
   * The first record carrying each key of `ks`, in the order of `ks`,
   * leaving out the keys in `except`.
   */
  function FirstRecords(rows: seq<Fields>, slot: nat, ks: seq<Value>, except: set<Value>): seq<Fields>
    requires HasSlot(rows, slot) && forall i | 0 <= i < |ks| :: ks[i] in KeySet(rows, slot)
    decreases |ks|
  {
    if |ks| == 0 then []
    else
      var k := ks[|ks| - 1];
      FirstRecords(rows, slot, ks[..|ks| - 1], except) + (if k in except then [] else [rows[FirstPos(rows, slot, k)]])
  }

  // ---------------------------------------------------------------------
  // Reading a table's own records back.

  /** Re-adding rows through the name map they are stored under gives them back, in order. */
  lemma {:induction false} IngestAllReadBack(names: map<string, nat>, rows: seq<Fields>)
    requires Injective(names) && StoredUnder(names, rows)
    ensures IngestAll(names, AsInputs(names, rows)) == Ok(rows)
    decreases |rows|
  {
    if |rows| > 0 {
      var init := rows[..|rows| - 1];
      var last := rows[|rows| - 1];
      IngestAllReadBack(names, init);
      ReadBack(names, last);
      var ins := AsInputs(names, rows);
      assert ins[..|ins| - 1] == AsInputs(names, init);
      assert init + [last] == rows;
    }
  }

  /** A built index's records, bucket by bucket, are the table's records rearranged. */
  lemma GroupedStoredUnder(s: Snapshot, key: string)
    requires WellFormed(s) && KeyIndexOf(s, key).Ok?
    ensures Built(KeyIndexOf(s, key).value)
    ensures multiset(Grouped(KeyIndexOf(s, key).value)) == multiset(s.records)
    ensures StoredUnder(s.names, Grouped(KeyIndexOf(s, key).value))
  {
    KeyIndexOfBuilt(s, key);
    var ix := KeyIndexOf(s, key).value;
    if key in s.names {
      IndexOfPartition(s.records, s.names[key]);
    }
    var g := Grouped(ix);
    forall i | 0 <= i < |g| ensures g[i].Keys == s.names.Values {
      assert g[i] in multiset(s.records);
      var j :| 0 <= j < |s.records| && s.records[j] == g[i];
    }
  }

  // ---------------------------------------------------------------------
  // The folds over index keys in closed form.

  /** The right half of `append` adds the right buckets' records, bucket by bucket. */
  lemma {:induction false} RightRowsFlatten(rnames: map<string, nat>, newNames: map<string, nat>, ixR: KeyIndex, ks: seq<Value>)
    requires Injective(newNames) && forall i | 0 <= i < |ks| :: ks[i] in ixR.entries
    ensures RightRows(rnames, newNames, ixR, ks) == IngestAll(newNames, AsInputs(rnames, Flatten(ks, ixR.entries)))
    decreases |ks|
  {
    if |ks| > 0 {
      var init := ks[..|ks| - 1];
      var bucket := SelectAll(ixR.entries[ks[|ks| - 1]]);
      RightRowsFlatten(rnames, newNames, ixR, init);
      AsInputsAppend(rnames, Flatten(init, ixR.entries), bucket);
      IngestAllAppend(newNames, AsInputs(rnames, Flatten(init, ixR.entries)), AsInputs(rnames, bucket));
    }
  }

  /** Keeping duplicates, the left half of `append` adds the left buckets' records, bucket by bucket. */
  lemma {:induction false} LeftRowsKeepAll(lnames: map<string, nat>, newNames: map<string, nat>, ixL: KeyIndex, ixR: KeyIndex,
                                           ks: seq<Value>)
    requires Injective(newNames) && forall i | 0 <= i < |ks| :: ks[i] in ixL.entries
    ensures LeftRows(lnames, newNames, ixL, ixR, false, ks) == IngestAll(newNames, AsInputs(lnames, Flatten(ks, ixL.entries)))
    decreases |ks|
  {
    if |ks| > 0 {
      var init := ks[..|ks| - 1];
      var bucket := SelectAll(ixL.entries[ks[|ks| - 1]]);
      LeftRowsKeepAll(lnames, newNames, ixL, ixR, init);
      AsInputsAppend(lnames, Flatten(init, ixL.entries), bucket);
      IngestAllAppend(newNames, AsInputs(lnames, Flatten(init, ixL.entries)), AsInputs(lnames, bucket));
    }
  }

  /**
   * Ignoring duplicates, the left half of `append` adds the first record of
   * each left key the right index lacks, in left key order.
   */
  lemma {:induction false} LeftRowsIgnoring(names: map<string, nat>, rows: seq<Fields>, slot: nat, ixR: KeyIndex, ks: seq<Value>)
    requires Injective(names) && HasSlot(rows, slot) && StoredUnder(names, rows)
    requires forall i | 0 <= i < |ks| :: ks[i] in IndexOf(rows, slot).entries
    ensures forall i | 0 <= i < |ks| :: ks[i] in KeySet(rows, slot)
    ensures LeftRows(names, names, IndexOf(rows, slot), ixR, true, ks) == Ok(FirstRecords(rows, slot, ks, ixR.entries.Keys))
    decreases |ks|
  {
    IndexOfKeys(rows, slot);
    if |ks| > 0 {
      var init := ks[..|ks| - 1];
      var k := ks[|ks| - 1];
      LeftRowsIgnoring(names, rows, slot, ixR, init);
      if k !in ixR.entries {
        FirstOfBucket(rows, slot, k);
        ReadBack(names, rows[FirstPos(rows, slot, k)]);
      }
    }
  }

  /**
   * Ignoring duplicates, for any name maps: the left half of `append` ingests
   * the first record of each left key the right index lacks, in left key
   * order, each read through the left table's names.
   */
  lemma {:induction false} LeftRowsFirstRecords(lnames: map<string, nat>, newNames: map<string, nat>, rows: seq<Fields>,
                                                slot: nat, ixR: KeyIndex, ks: seq<Value>)
    requires Injective(newNames) && HasSlot(rows, slot)
    requires forall i | 0 <= i < |ks| :: ks[i] in IndexOf(rows, slot).entries
    ensures forall i | 0 <= i < |ks| :: ks[i] in KeySet(rows, slot)
    ensures LeftRows(lnames, newNames, IndexOf(rows, slot), ixR, true, ks)
         == IngestAll(newNames, AsInputs(lnames, FirstRecords(rows, slot, ks, ixR.entries.Keys)))
    decreases |ks|
  {
    IndexOfKeys(rows, slot);
    if |ks| > 0 {
      var init := ks[..|ks| - 1];
      var k := ks[|ks| - 1];
      LeftRowsFirstRecords(lnames, newNames, rows, slot, ixR, init);
      var before := FirstRecords(rows, slot, init, ixR.entries.Keys);
      var picked := if k in ixR.entries then [] else [rows[FirstPos(rows, slot, k)]];
      assert FirstRecords(rows, slot, ks, ixR.entries.Keys) == before + picked;
      LeftStepFirstRecord(lnames, newNames, rows, slot, ixR, k);
      AsInputsAppend(lnames, before, picked);
      IngestAllAppend(newNames, AsInputs(lnames, before), AsInputs(lnames, picked));
    }
  }

  /** One left key, duplicates ignored: its first record when the right index lacks it, else nothing. */
  lemma LeftStepFirstRecord(lnames: map<string, nat>, newNames: map<string, nat>, rows: seq<Fields>,
                            slot: nat, ixR: KeyIndex, k: Value)
    requires Injective(newNames) && HasSlot(rows, slot) && k in IndexOf(rows, slot).entries
    ensures k in KeySet(rows, slot)
    ensures LeftStep(lnames, newNames, IndexOf(rows, slot), ixR, true, k)
         == IngestAll(newNames, AsInputs(lnames, if k in ixR.entries then [] else [rows[FirstPos(rows, slot, k)]]))
  {
    FirstOfBucket(rows, slot, k);
    if k !in ixR.entries {
      var f := rows[FirstPos(rows, slot, k)];
      var one := FromRecord(Record(lnames, f));
      assert AsInputs(lnames, [f]) == [one];
      assert [one][..0] == [];
      match IngestOne(newNames, one) {
        case Err(e) =>
        case Ok(g) =>
          assert [] + [g] == [g];
          assert IngestAll(newNames, [one]) == Ok([g]);
          assert LeftStep(lnames, newNames, IndexOf(rows, slot), ixR, true, k) == Ok([g]);
      }
    }
  }

  /** `merge` of a table with itself adds the first record of each key, in key order. */
  lemma {:induction false} MergeRowsWithItself(names: map<string, nat>, rows: seq<Fields>, slot: nat, overwrite: bool, ks: seq<Value>)
    requires Injective(names) && HasSlot(rows, slot) && StoredUnder(names, rows)
    requires forall i | 0 <= i < |ks| :: ks[i] in IndexOf(rows, slot).entries
    ensures forall i | 0 <= i < |ks| :: ks[i] in KeySet(rows, slot)
    ensures MergeRows(names, names, names, IndexOf(rows, slot), IndexOf(rows, slot), true, overwrite, ks)
         == Ok(FirstRecords(rows, slot, ks, {}))
    decreases |ks|
  {
    IndexOfKeys(rows, slot);
    if |ks| > 0 {
      var init := ks[..|ks| - 1];
      var k := ks[|ks| - 1];
      MergeRowsWithItself(names, rows, slot, overwrite, init);
      FirstOfBucket(rows, slot, k);
      var f := rows[FirstPos(rows, slot, k)];
      MergeWithItself(Record(names, f), overwrite);
      ReadBack(names, f);
    }
  }

  /** With unequal key columns `merge` adds nothing. */
  lemma {:induction false} MergeRowsNotSame(lnames: map<string, nat>, rnames: map<string, nat>, newNames: map<string, nat>,
                                            ixL: KeyIndex, ixR: KeyIndex, overwrite: bool, ks: seq<Value>)
    requires Injective(lnames) && Injective(newNames)
    ensures MergeRows(lnames, rnames, newNames, ixL, ixR, false, overwrite, ks) == Ok([])
    decreases |ks|
  {
    if |ks| > 0 {
      MergeRowsNotSame(lnames, rnames, newNames, ixL, ixR, overwrite, ks[..|ks| - 1]);
      var none: seq<Fields> := [];
      assert none + none == none;
    }
  }

  // ---------------------------------------------------------------------
  // merge

  /**
   * Merging a table with itself on one key column keeps, for each distinct
   * key value in first-seen order, the first record carrying it (every
   * field merges with itself). It fails only where building the index fails.
   */
  lemma MergeTableWithItself(t: Snapshot, key: string, overwrite: bool)
    requires WellFormed(t) && Canonical(t)
    ensures MergeSpec(t, t, key, key, overwrite).Ok? <==> KeyIndexOf(t, key).Ok?
    ensures MergeSpec(t, t, key, key, overwrite).Ok? ==>
      && Built(KeyIndexOf(t, key).value)
      && |MergeSpec(t, t, key, key, overwrite).value| == |KeyIndexOf(t, key).value.keys|
      && (key in t.names ==>
            && HasSlot(t.records, t.names[key])
            && forall i | 0 <= i < |KeyIndexOf(t, key).value.keys| ::
                 && KeyIndexOf(t, key).value.keys[i] in KeySet(t.records, t.names[key])
                 && MergeSpec(t, t, key, key, overwrite).value[i]
                    == t.records[FirstPos(t.records, t.names[key], KeyIndexOf(t, key).value.keys[i])])
  {
    CanonicalNames(t);
    if KeyIndexOf(t, key).Ok? {
      KeyIndexOfBuilt(t, key);
      var ix := KeyIndexOf(t, key).value;
      if key in t.names {
        var slot := t.names[key];
        MergeRowsWithItself(t.names, t.records, slot, overwrite, ix.keys);
        FirstRecordsAt(t.records, slot, ix.keys);
      }
    }
  }

  /** FirstRecords without exceptions has one record per key, the first one carrying it. */
  lemma {:induction false} FirstRecordsAt(rows: seq<Fields>, slot: nat, ks: seq<Value>)
    requires HasSlot(rows, slot) && forall i | 0 <= i < |ks| :: ks[i] in KeySet(rows, slot)
    ensures |FirstRecords(rows, slot, ks, {})| == |ks|
    ensures forall i | 0 <= i < |ks| :: FirstRecords(rows, slot, ks, {})[i] == rows[FirstPos(rows, slot, ks[i])]
    decreases |ks|
  {
    if |ks| > 0 {
      FirstRecordsAt(rows, slot, ks[..|ks| - 1]);
    }
  }

  /** When the two key columns are different columns, `merge` succeeds with no records or fails building an index. */
  lemma MergeWithDifferentKeyColumns(l: Snapshot, r: Snapshot, lk: string, rk: string, overwrite: bool)
    requires WellFormed(l) && WellFormed(r)
    requires lk in l.names && rk in r.names && l.columns[l.names[lk]] != r.columns[r.names[rk]]
    ensures MergeSpec(l, r, lk, rk, overwrite).Ok? <==> KeyIndexOf(l, lk).Ok? && KeyIndexOf(r, rk).Ok?
    ensures MergeSpec(l, r, lk, rk, overwrite).Ok? ==> MergeSpec(l, r, lk, rk, overwrite).value == []
  {
    if KeyIndexOf(l, lk).Ok? && KeyIndexOf(r, rk).Ok? {
      NamesOfWellFormed(l.columns);
      MergeRowsNotSame(l.names, r.names, NamesOf(l.columns), KeyIndexOf(l, lk).value, KeyIndexOf(r, rk).value,
                       overwrite, KeyIndexOf(l, lk).value.keys);
    }
  }

  /** The keys of `ks` that lie in `keys`, in the order of `ks`. */
  function SharedKeys(ks: seq<Value>, keys: set<Value>): (sh: seq<Value>)
    ensures forall i | 0 <= i < |sh| :: sh[i] in ks && sh[i] in keys
    ensures forall i | 0 <= i < |ks| :: ks[i] in keys ==> ks[i] in sh
    decreases |ks|
  {
    if |ks| == 0 then []
    else SharedKeys(ks[..|ks| - 1], keys) + (if ks[|ks| - 1] in keys then [ks[|ks| - 1]] else [])
  }

  /** Every key of `sh` is in both key sets. */
  predicate InBoth(sh: seq<Value>, lkeys: set<Value>, rkeys: set<Value>)
  {
    forall i | 0 <= i < |sh| :: sh[i] in lkeys && sh[i] in rkeys
  }

  /** The shared keys of keys from `lkeys` are in both key sets. */
  lemma SharedKeysIn(ks: seq<Value>, lkeys: set<Value>, rkeys: set<Value>)
    requires forall i | 0 <= i < |ks| :: ks[i] in lkeys
    ensures forall i | 0 <= i < |SharedKeys(ks, rkeys)| :: SharedKeys(ks, rkeys)[i] in lkeys && SharedKeys(ks, rkeys)[i] in rkeys
  {
    var sh := SharedKeys(ks, rkeys);
    forall i | 0 <= i < |sh|
      ensures sh[i] in lkeys
    {
      var j :| 0 <= j < |ks| && ks[j] == sh[i];
    }
  }

  /**
   * The row `merge` adds for a pair of records: their merge, read into the
   * new table.
   */
  function MergedPair(lnames: map<string, nat>, rnames: map<string, nat>, newNames: map<string, nat>,
                      lrec: Fields, rrec: Fields, overwrite: bool): Result<Fields>
    requires Injective(lnames) && Injective(newNames)
  {
    match MergedRecord(Record(lnames, lrec), Record(rnames, rrec), overwrite)
    case Err(e) => Err(e)
    case Ok(m) => IngestOne(newNames, FromRecord(m))
  }

  /** The merged pair of the first left and first right record of each key of `sh`, in order. */
  function PairsOf(lnames: map<string, nat>, rnames: map<string, nat>, newNames: map<string, nat>,
                   lrows: seq<Fields>, lslot: nat, rrows: seq<Fields>, rslot: nat, overwrite: bool,
                   sh: seq<Value>): seq<Result<Fields>>
    requires Injective(lnames) && Injective(newNames) && HasSlot(lrows, lslot) && HasSlot(rrows, rslot)
    requires forall i | 0 <= i < |sh| :: sh[i] in KeySet(lrows, lslot) && sh[i] in KeySet(rrows, rslot)
    decreases |sh|
  {
    if |sh| == 0 then []
    else
      var k := sh[|sh| - 1];
      PairsOf(lnames, rnames, newNames, lrows, lslot, rrows, rslot, overwrite, sh[..|sh| - 1])
      + [MergedPair(lnames, rnames, newNames, lrows[FirstPos(lrows, lslot, k)], rrows[FirstPos(rrows, rslot, k)], overwrite)]
  }

  /** Pair `i` merges the first left and the first right record carrying key `i`. */
  lemma {:induction false} PairsOfAt(lnames: map<string, nat>, rnames: map<string, nat>, newNames: map<string, nat>,
                                     lrows: seq<Fields>, lslot: nat, rrows: seq<Fields>, rslot: nat, overwrite: bool,
                                     sh: seq<Value>)
    requires Injective(lnames) && Injective(newNames) && HasSlot(lrows, lslot) && HasSlot(rrows, rslot)
    requires forall i | 0 <= i < |sh| :: sh[i] in KeySet(lrows, lslot) && sh[i] in KeySet(rrows, rslot)
    ensures |PairsOf(lnames, rnames, newNames, lrows, lslot, rrows, rslot, overwrite, sh)| == |sh|
    ensures forall i | 0 <= i < |sh| ::
      PairsOf(lnames, rnames, newNames, lrows, lslot, rrows, rslot, overwrite, sh)[i]
      == MergedPair(lnames, rnames, newNames, lrows[FirstPos(lrows, lslot, sh[i])], rrows[FirstPos(rrows, rslot, sh[i])], overwrite)
    decreases |sh|
  {
    if |sh| > 0 {
      PairsOfAt(lnames, rnames, newNames, lrows, lslot, rrows, rslot, overwrite, sh[..|sh| - 1]);
    }
  }

  /** A single row, or its failure, as the rows one step adds. */
  function AsRow(p: Result<Fields>): Result<seq<Fields>>
  {
    if p.Ok? then Ok([p.value]) else Err(p.error)
  }

  /**
   * `res` is the outcome of producing the rows `ps` one after another: it
   * succeeds iff every one does, then holding those rows in order;
   * otherwise it carries the error of the first failure.
   */
  predicate Collected(ps: seq<Result<Fields>>, res: Result<seq<Fields>>)
  {
    && (res.Ok? <==> forall i | 0 <= i < |ps| :: ps[i].Ok?)
    && (res.Ok? ==> |res.value| == |ps| && forall i | 0 <= i < |ps| :: ps[i] == Ok(res.value[i]))
    && (res.Err? ==> exists i | 0 <= i < |ps| :: (forall j | 0 <= j < i :: ps[j].Ok?) && ps[i] == Err(res.error))
  }

  /** Producing one more row after collected rows collects one more. */
  lemma CollectedSnoc(ps: seq<Result<Fields>>, res: Result<seq<Fields>>, p: Result<Fields>)
    requires Collected(ps, res)
    ensures Collected(ps + [p], Then(res, AsRow(p)))
  {
    var ps' := ps + [p];
    if res.Err? {
      var i :| 0 <= i < |ps| && (forall j | 0 <= j < i :: ps[j].Ok?) && ps[i] == Err(res.error);
      assert ps'[i] == ps[i];
      assert forall j | 0 <= j < i :: ps'[j] == ps[j];
    } else if p.Err? {
      assert ps'[|ps|] == p;
      assert forall j | 0 <= j < |ps| :: ps'[j] == ps[j];
    } else {
      assert forall j | 0 <= j < |ps| :: ps'[j] == ps[j];
    }
  }

  /** One left key's step of the merge fold, with matching key columns: nothing, or the key's merged pair. */
  lemma MergeStepShared(lnames: map<string, nat>, rnames: map<string, nat>, newNames: map<string, nat>,
                        lrows: seq<Fields>, lslot: nat, rrows: seq<Fields>, rslot: nat, overwrite: bool, k: Value)
    requires Injective(lnames) && Injective(newNames) && HasSlot(lrows, lslot) && HasSlot(rrows, rslot)
    requires k in KeySet(lrows, lslot)
    ensures k !in KeySet(rrows, rslot) ==>
      MergeStep(lnames, rnames, newNames, IndexOf(lrows, lslot), IndexOf(rrows, rslot), true, overwrite, k) == Ok([])
    ensures k in KeySet(rrows, rslot) ==>
      MergeStep(lnames, rnames, newNames, IndexOf(lrows, lslot), IndexOf(rrows, rslot), true, overwrite, k)
        == AsRow(MergedPair(lnames, rnames, newNames, lrows[FirstPos(lrows, lslot, k)], rrows[FirstPos(rrows, rslot, k)], overwrite))
  {
    IndexOfKeys(lrows, lslot);
    IndexOfKeys(rrows, rslot);
    if k in KeySet(rrows, rslot) {
      FirstOfBucket(lrows, lslot, k);
      FirstOfBucket(rrows, rslot, k);
    }
  }

  /** One more left key extends the collected merge by that key's step. */
  lemma MergeRowsSharedStep(lnames: map<string, nat>, rnames: map<string, nat>, newNames: map<string, nat>,
                            lrows: seq<Fields>, lslot: nat, rrows: seq<Fields>, rslot: nat, overwrite: bool,
                            ks: seq<Value>)
    requires Injective(lnames) && Injective(newNames) && HasSlot(lrows, lslot) && HasSlot(rrows, rslot)
    requires forall i | 0 <= i < |ks| :: ks[i] in KeySet(lrows, lslot)
    requires |ks| > 0
    requires InBoth(SharedKeys(ks[..|ks| - 1], KeySet(rrows, rslot)), KeySet(lrows, lslot), KeySet(rrows, rslot))
    requires Collected(PairsOf(lnames, rnames, newNames, lrows, lslot, rrows, rslot, overwrite, SharedKeys(ks[..|ks| - 1], KeySet(rrows, rslot))),
                       MergeRows(lnames, rnames, newNames, IndexOf(lrows, lslot), IndexOf(rrows, rslot), true, overwrite, ks[..|ks| - 1]))
    ensures forall i | 0 <= i < |SharedKeys(ks, KeySet(rrows, rslot))| ::
      SharedKeys(ks, KeySet(rrows, rslot))[i] in KeySet(lrows, lslot) && SharedKeys(ks, KeySet(rrows, rslot))[i] in KeySet(rrows, rslot)
    ensures Collected(PairsOf(lnames, rnames, newNames, lrows, lslot, rrows, rslot, overwrite, SharedKeys(ks, KeySet(rrows, rslot))),
                      MergeRows(lnames, rnames, newNames, IndexOf(lrows, lslot), IndexOf(rrows, rslot), true, overwrite, ks))
  {
    var rkeys := KeySet(rrows, rslot);
    var sh := SharedKeys(ks, rkeys);
    SharedKeysIn(ks, KeySet(lrows, lslot), rkeys);
    var init := ks[..|ks| - 1];
    var k := ks[|ks| - 1];
    var sh0 := SharedKeys(init, rkeys);
    var ps0 := PairsOf(lnames, rnames, newNames, lrows, lslot, rrows, rslot, overwrite, sh0);
    var res0 := MergeRows(lnames, rnames, newNames, IndexOf(lrows, lslot), IndexOf(rrows, rslot), true, overwrite, init);
    var res := MergeRows(lnames, rnames, newNames, IndexOf(lrows, lslot), IndexOf(rrows, rslot), true, overwrite, ks);
    MergeStepShared(lnames, rnames, newNames, lrows, lslot, rrows, rslot, overwrite, k);
    if k in rkeys {
      var p := MergedPair(lnames, rnames, newNames, lrows[FirstPos(lrows, lslot, k)], rrows[FirstPos(rrows, rslot, k)], overwrite);
      assert sh == sh0 + [k];
      assert sh[..|sh| - 1] == sh0;
      assert PairsOf(lnames, rnames, newNames, lrows, lslot, rrows, rslot, overwrite, sh) == ps0 + [p];
      assert res == Then(res0, AsRow(p));
      CollectedSnoc(ps0, res0, p);
    } else {
      assert sh == sh0;
      assert res == Then(res0, Ok([]));
      assert res0.Ok? ==> res0.value + [] == res0.value;
    }
  }

  /**
   * With matching key columns, the merge fold over left keys `ks` collects
   * the merged pairs of the keys the right rows share, in the order of `ks`.
   */
  lemma {:induction false} MergeRowsShared(lnames: map<string, nat>, rnames: map<string, nat>, newNames: map<string, nat>,
                                           lrows: seq<Fields>, lslot: nat, rrows: seq<Fields>, rslot: nat, overwrite: bool,
                                           ks: seq<Value>)
    requires Injective(lnames) && Injective(newNames) && HasSlot(lrows, lslot) && HasSlot(rrows, rslot)
    requires forall i | 0 <= i < |ks| :: ks[i] in KeySet(lrows, lslot)
    ensures forall i | 0 <= i < |SharedKeys(ks, KeySet(rrows, rslot))| ::
      SharedKeys(ks, KeySet(rrows, rslot))[i] in KeySet(lrows, lslot) && SharedKeys(ks, KeySet(rrows, rslot))[i] in KeySet(rrows, rslot)
    ensures Collected(PairsOf(lnames, rnames, newNames, lrows, lslot, rrows, rslot, overwrite, SharedKeys(ks, KeySet(rrows, rslot))),
                      MergeRows(lnames, rnames, newNames, IndexOf(lrows, lslot), IndexOf(rrows, rslot), true, overwrite, ks))
    decreases |ks|
  {
    if |ks| > 0 {
      MergeRowsShared(lnames, rnames, newNames, lrows, lslot, rrows, rslot, overwrite, ks[..|ks| - 1]);
      MergeRowsSharedStep(lnames, rnames, newNames, lrows, lslot, rrows, rslot, overwrite, ks);
    }
  }

  /**
   * `merge` of two tables whose key columns are equal: each table is indexed
   * (the first failure is the result); then, for each left key in
   * first-seen order that the right table also carries, the first left and
   * the first right record with that key are merged and read into the new
   * table. The merge succeeds iff every such pair does, with one row per
   * shared key, and otherwise fails with the first failing pair's error.
   */
  lemma MergeOfTwoTables(l: Snapshot, r: Snapshot, lk: string, rk: string, overwrite: bool)
    requires WellFormed(l) && WellFormed(r) && SameKeyColumn(l, r, lk, rk)
    ensures KeyIndexOf(l, lk).Err? ==> MergeSpec(l, r, lk, rk, overwrite) == Err(KeyIndexOf(l, lk).error)
    ensures KeyIndexOf(l, lk).Ok? && KeyIndexOf(r, rk).Err? ==> MergeSpec(l, r, lk, rk, overwrite) == Err(KeyIndexOf(r, rk).error)
    ensures KeyIndexOf(l, lk).Ok? && KeyIndexOf(r, rk).Ok? ==>
      && HasSlot(l.records, l.names[lk]) && HasSlot(r.records, r.names[rk])
      && FirstSeenOrder(KeyIndexOf(l, lk).value.keys, l.records, l.names[lk])
      && KeyIndexOf(l, lk).value.entries.Keys == KeySet(l.records, l.names[lk])
      && var sh := SharedKeys(KeyIndexOf(l, lk).value.keys, KeySet(r.records, r.names[rk]));
         && (forall i | 0 <= i < |sh| :: sh[i] in KeySet(l.records, l.names[lk]) && sh[i] in KeySet(r.records, r.names[rk]))
         && (NamesOfWellFormed(l.columns);
             var ps := PairsOf(l.names, r.names, NamesOf(l.columns), l.records, l.names[lk], r.records, r.names[rk], overwrite, sh);
             && |ps| == |sh|
             && (forall i | 0 <= i < |sh| :: ps[i] == MergedPair(l.names, r.names, NamesOf(l.columns),
                   l.records[FirstPos(l.records, l.names[lk], sh[i])], r.records[FirstPos(r.records, r.names[rk], sh[i])], overwrite))
             && Collected(ps, MergeSpec(l, r, lk, rk, overwrite)))
  {
    NamesOfWellFormed(l.columns);
    if KeyIndexOf(l, lk).Ok? && KeyIndexOf(r, rk).Ok? {
      KeyIndexOfBuilt(l, lk);
      KeyIndexOfBuilt(r, rk);
      var lslot, rslot := l.names[lk], r.names[rk];
      IndexOfOrder(l.records, lslot);
      IndexOfKeys(l.records, lslot);
      var ks := KeyIndexOf(l, lk).value.keys;
      MergeRowsShared(l.names, r.names, NamesOf(l.columns), l.records, lslot, r.records, rslot, overwrite, ks);
      PairsOfAt(l.names, r.names, NamesOf(l.columns), l.records, lslot, r.records, rslot, overwrite,
                SharedKeys(ks, KeySet(r.records, rslot)));
    }
  }

  // ---------------------------------------------------------------------
  // append

  /**
   * Appending with duplicates kept, between tables with the same name map
   * (the right one canonical): the right table's records bucket by bucket,
   * then the left table's records bucket by bucket; together, exactly the
   * records of both tables. It fails only where building an index fails.
   */
  lemma AppendKeepingDuplicates(l: Snapshot, r: Snapshot, lk: string, rk: string)
    requires WellFormed(l) && WellFormed(r) && Canonical(r) && l.names == r.names
    ensures AppendSpec(l, r, lk, rk, false).Ok? <==> KeyIndexOf(l, lk).Ok? && KeyIndexOf(r, rk).Ok?
    ensures AppendSpec(l, r, lk, rk, false).Ok? ==>
      && Built(KeyIndexOf(l, lk).value) && Built(KeyIndexOf(r, rk).value)
      && AppendSpec(l, r, lk, rk, false).value == Grouped(KeyIndexOf(r, rk).value) + Grouped(KeyIndexOf(l, lk).value)
      && multiset(AppendSpec(l, r, lk, rk, false).value) == multiset(r.records) + multiset(l.records)
  {
    CanonicalNames(r);
    if KeyIndexOf(l, lk).Ok? && KeyIndexOf(r, rk).Ok? {
      var ixL, ixR := KeyIndexOf(l, lk).value, KeyIndexOf(r, rk).value;
      GroupedStoredUnder(l, lk);
      GroupedStoredUnder(r, rk);
      RightRowsFlatten(r.names, r.names, ixR, ixR.keys);
      IngestAllReadBack(r.names, Grouped(ixR));
      LeftRowsKeepAll(l.names, r.names, ixL, ixR, ixL.keys);
      IngestAllReadBack(l.names, Grouped(ixL));
    }
  }

  /**
   * Appending with duplicates ignored, between tables with the same name map
   * (the right one canonical): the right table's records bucket by bucket,
   * then the first record of each left key the right table lacks, in
   * first-seen order. It fails only where building an index fails.
   */
  lemma AppendIgnoringDuplicates(l: Snapshot, r: Snapshot, lk: string, rk: string)
    requires WellFormed(l) && WellFormed(r) && Canonical(r) && l.names == r.names
    ensures AppendSpec(l, r, lk, rk, true).Ok? <==> KeyIndexOf(l, lk).Ok? && KeyIndexOf(r, rk).Ok?
    ensures AppendSpec(l, r, lk, rk, true).Ok? ==>
      && Built(KeyIndexOf(l, lk).value) && Built(KeyIndexOf(r, rk).value)
      && (|l.records| == 0 ==> AppendSpec(l, r, lk, rk, true).value == Grouped(KeyIndexOf(r, rk).value))
      && (|l.records| > 0 ==>
            && lk in l.names && HasSlot(l.records, l.names[lk])
            && (forall i | 0 <= i < |KeyIndexOf(l, lk).value.keys| :: KeyIndexOf(l, lk).value.keys[i] in KeySet(l.records, l.names[lk]))
            && AppendSpec(l, r, lk, rk, true).value
               == Grouped(KeyIndexOf(r, rk).value)
                  + FirstRecords(l.records, l.names[lk], KeyIndexOf(l, lk).value.keys, KeyIndexOf(r, rk).value.entries.Keys))
  {
    CanonicalNames(r);
    if KeyIndexOf(l, lk).Ok? && KeyIndexOf(r, rk).Ok? {
      var ixL, ixR := KeyIndexOf(l, lk).value, KeyIndexOf(r, rk).value;
      KeyIndexOfBuilt(l, lk);
      GroupedStoredUnder(r, rk);
      RightRowsFlatten(r.names, r.names, ixR, ixR.keys);
      IngestAllReadBack(r.names, Grouped(ixR));
      if |l.records| == 0 {
        assert Grouped(ixR) + [] == Grouped(ixR);
      } else {
        LeftRowsIgnoring(l.names, l.records, l.names[lk], ixR, ixL.keys);
      }
    }
  }

  /**
   * `append` between any two tables: it fails with the left table's indexing
   * error, then with the right table's. Once both index, it ingests into the
   * right table's columns the right records bucket by bucket, read through
   * the right names, and then the left records read through the left names:
   * with duplicates kept every left record bucket by bucket, with duplicates
   * ignored the first record of each left key the right table lacks. A left
   * record missing a right column makes the whole call fail with KeyError.
   */
  lemma AppendOfTwoTables(l: Snapshot, r: Snapshot, lk: string, rk: string, ignoreDuplicates: bool)
    requires WellFormed(l) && WellFormed(r)
    ensures Injective(NamesOf(r.columns))
    ensures KeyIndexOf(l, lk).Err? ==> AppendSpec(l, r, lk, rk, ignoreDuplicates) == Err(KeyIndexOf(l, lk).error)
    ensures KeyIndexOf(l, lk).Ok? && KeyIndexOf(r, rk).Err? ==>
      AppendSpec(l, r, lk, rk, ignoreDuplicates) == Err(KeyIndexOf(r, rk).error)
    ensures KeyIndexOf(l, lk).Ok? && KeyIndexOf(r, rk).Ok? ==>
      && Built(KeyIndexOf(l, lk).value) && Built(KeyIndexOf(r, rk).value)
      && (!ignoreDuplicates ==>
            AppendSpec(l, r, lk, rk, ignoreDuplicates)
            == Then(IngestAll(NamesOf(r.columns), AsInputs(r.names, Grouped(KeyIndexOf(r, rk).value))),
                    IngestAll(NamesOf(r.columns), AsInputs(l.names, Grouped(KeyIndexOf(l, lk).value)))))
      && (ignoreDuplicates && |l.records| == 0 ==>
            AppendSpec(l, r, lk, rk, ignoreDuplicates)
            == IngestAll(NamesOf(r.columns), AsInputs(r.names, Grouped(KeyIndexOf(r, rk).value))))
      && (ignoreDuplicates && |l.records| > 0 ==>
            && lk in l.names && HasSlot(l.records, l.names[lk])
            && (forall i | 0 <= i < |KeyIndexOf(l, lk).value.keys| :: KeyIndexOf(l, lk).value.keys[i] in KeySet(l.records, l.names[lk]))
            && AppendSpec(l, r, lk, rk, ignoreDuplicates)
               == Then(IngestAll(NamesOf(r.columns), AsInputs(r.names, Grouped(KeyIndexOf(r, rk).value))),
                       IngestAll(NamesOf(r.columns), AsInputs(l.names,
                         FirstRecords(l.records, l.names[lk], KeyIndexOf(l, lk).value.keys, KeyIndexOf(r, rk).value.entries.Keys)))))
  {
    NamesOfWellFormed(r.columns);
    if KeyIndexOf(l, lk).Ok? && KeyIndexOf(r, rk).Ok? {
      var ixL, ixR := KeyIndexOf(l, lk).value, KeyIndexOf(r, rk).value;
      var newNames := NamesOf(r.columns);
      KeyIndexOfBuilt(l, lk);
      KeyIndexOfBuilt(r, rk);
      RightRowsFlatten(r.names, newNames, ixR, ixR.keys);
      if !ignoreDuplicates {
        LeftRowsKeepAll(l.names, newNames, ixL, ixR, ixL.keys);
      } else if |l.records| == 0 {
        var right := IngestAll(newNames, AsInputs(r.names, Grouped(ixR)));
        if right.Ok? {
          assert right.value + [] == right.value;
        }
      } else {
        LeftRowsFirstRecords(l.names, newNames, l.records, l.names[lk], ixR, ixL.keys);
      }
    }
  }

  /**
   * Appending a canonical table to itself with duplicates ignored gives back
   * its records, grouped by key.
   */
  lemma AppendTableToItself(t: Snapshot, key: string)
    requires WellFormed(t) && Canonical(t)
    ensures AppendSpec(t, t, key, key, true).Ok? <==> KeyIndexOf(t, key).Ok?
    ensures AppendSpec(t, t, key, key, true).Ok? ==>
      && Built(KeyIndexOf(t, key).value)
      && AppendSpec(t, t, key, key, true).value == Grouped(KeyIndexOf(t, key).value)
      && multiset(AppendSpec(t, t, key, key, true).value) == multiset(t.records)
  {
    CanonicalNames(t);
    if KeyIndexOf(t, key).Ok? {
      var ix := KeyIndexOf(t, key).value;
      GroupedStoredUnder(t, key);
      RightRowsFlatten(t.names, t.names, ix, ix.keys);
      IngestAllReadBack(t.names, Grouped(ix));
      LeftRowsSkipShared(t.names, t.names, ix, ix, ix.keys);
      assert Grouped(ix) + [] == Grouped(ix);
    }
  }

  /** When equal keys are adjacent, appending a canonical table to itself with duplicates ignored gives back its records in order. */
  lemma AppendTableToItselfInOrder(t: Snapshot, key: string)
    requires WellFormed(t) && Canonical(t) && key in t.names && HasSlot(t.records, t.names[key])
    requires Contiguous(t.records, t.names[key])
    ensures AppendSpec(t, t, key, key, true).Ok? <==> KeyIndexOf(t, key).Ok?
    ensures AppendSpec(t, t, key, key, true).Ok? ==> AppendSpec(t, t, key, key, true).value == t.records
  {
    AppendTableToItself(t, key);
    if KeyIndexOf(t, key).Ok? {
      KeyIndexOfBuilt(t, key);
      IndexOfContiguous(t.records, t.names[key]);
    }
  }

  /** Ignoring duplicates, left keys the right index holds add nothing. */
  lemma {:induction false} LeftRowsSkipShared(lnames: map<string, nat>, newNames: map<string, nat>, ixL: KeyIndex, ixR: KeyIndex,
                                              ks: seq<Value>)
    requires Injective(newNames) && forall i | 0 <= i < |ks| :: ks[i] in ixR.entries
    ensures LeftRows(lnames, newNames, ixL, ixR, true, ks) == Ok([])
    decreases |ks|
  {
    if |ks| > 0 {
      LeftRowsSkipShared(lnames, newNames, ixL, ixR, ks[..|ks| - 1]);
      var none: seq<Fields> := [];
      assert none + none == none;
    }
  }
}
