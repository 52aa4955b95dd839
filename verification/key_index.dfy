/**
 * The key index of `build_key_index` (dataset.py:164-173) and the bucket
 * selectors `select_first_or_only` / `select_all` (dataset.py:112-120).
 *
 * The source's index is a dictionary from key value to either a single
 * record or, once a second record with that key arrives, a list of records;
 * its keys iterate in insertion order. Here that order is the `keys`
 * sequence and the dictionary is `entries`.
 */
module KeyIndexing {
  import opened Values
  import opened Records
  import opened DataSets

  /** An index entry: one record, or a list of records that share a key. */
  datatype Entry = Single(rec: Fields) | Multi(recs: seq<Fields>)

  /** `select_all`: the records of an entry, as a list. */
  function SelectAll(e: Entry): seq<Fields>
  {
    match e
    case Single(r) => [r]
    case Multi(rs) => rs
  }

  /**
   * `select_first_or_only`: the first record of an entry. On an empty list
   * Python raises IndexError; an entry of a built index is never empty.
   */
  function SelectFirstOrOnly(e: Entry): (r: Result<Fields>)
    ensures r.Ok? <==> |SelectAll(e)| > 0
    ensures r.Ok? ==> r.value == SelectAll(e)[0]
    ensures r.Err? ==> r.error == IndexError
  {
    match e
    case Single(r) => Ok(r)
    case Multi(rs) => if |rs| == 0 then Err(IndexError) else Ok(rs[0])
  }

  /** Distinct keys in dictionary insertion order, and each key's entry. */
  datatype KeyIndex = KeyIndex(keys: seq<Value>, entries: map<Value, Entry>)

  /**
   * One step of `build_key_index`: a new key gets the record itself, the
   * second record of a key turns the entry into a two-element list, later
   * ones are appended to the list. Re-assigning an existing dictionary key
   * keeps its position in the iteration order.
   */
  function Insert(ix: KeyIndex, k: Value, r: Fields): KeyIndex
  {
    if k !in ix.entries then KeyIndex(ix.keys + [k], ix.entries[k := Single(r)])
    else
      match ix.entries[k]
      case Single(r0) => KeyIndex(ix.keys, ix.entries[k := Multi([r0, r])])
      case Multi(rs) => KeyIndex(ix.keys, ix.entries[k := Multi(rs + [r])])
  }

  /** Insert under a new key: the key goes last, its bucket is the one record, other buckets stay. */
  lemma InsertNew(ix: KeyIndex, k: Value, r: Fields)
    requires k !in ix.entries
    ensures Insert(ix, k, r).keys == ix.keys + [k]
    ensures SelectAll(Insert(ix, k, r).entries[k]) == [r]
    ensures Insert(ix, k, r).entries.Keys == ix.entries.Keys + {k}
    ensures forall k' | k' in ix.entries :: Insert(ix, k, r).entries[k'] == ix.entries[k']
  {
  }

  /** Insert under a present key: the keys stay, the record joins the end of that bucket, other buckets stay. */
  lemma InsertExisting(ix: KeyIndex, k: Value, r: Fields)
    requires k in ix.entries
    ensures Insert(ix, k, r).keys == ix.keys
    ensures SelectAll(Insert(ix, k, r).entries[k]) == SelectAll(ix.entries[k]) + [r]
    ensures Insert(ix, k, r).entries.Keys == ix.entries.Keys
    ensures forall k' | k' in ix.entries && k' != k :: Insert(ix, k, r).entries[k'] == ix.entries[k']
  {
  }

  predicate HasSlot(rows: seq<Fields>, slot: nat)
  {
    forall i | 0 <= i < |rows| :: slot in rows[i]
  }

  /** The index of `rows` on the value at `slot`: Insert applied to each row in order. */
  function IndexOf(rows: seq<Fields>, slot: nat): KeyIndex
    requires HasSlot(rows, slot)
    decreases |rows|
  {
    if |rows| == 0 then KeyIndex([], map[])
    else Insert(IndexOf(rows[..|rows| - 1], slot), rows[|rows| - 1][slot], rows[|rows| - 1])
  }

  /** The key values of the first `n` rows can all be hashed. */
  predicate KeysHashable(rows: seq<Fields>, slot: nat, n: nat)
    requires HasSlot(rows, slot) && n <= |rows|
  {
    forall j | 0 <= j < n :: Hashable(rows[j][slot])
  }

  /**
   * What `build_key_index(ds, key_col)` returns for a table: the index of its
   * records on the key column's slot; a KeyError when the table has records
   * but no such column; an error when some key value is a list, which Python
   * cannot hash. A table without records gives the empty index whatever the
   * column.
   */
  function KeyIndexOf(s: Snapshot, key: string): Result<KeyIndex>
    requires WellFormed(s)
  {
    if |s.records| == 0 then Ok(KeyIndex([], map[]))
    else if key !in s.names then Err(KeyError)
    else if exists i | 0 <= i < |s.records| :: !Hashable(s.records[i][s.names[key]]) then Err(Unhashable)
    else Ok(IndexOf(s.records, s.names[key]))
  }

  /** `build_key_index`: one pass over the records, in order. */
  method BuildKeyIndex(t: Table, key: string) returns (r: Result<KeyIndex>)
    requires t.Valid()
    ensures r == KeyIndexOf(t.State(), key)
    ensures r.Err? ==> (r.error == KeyError <==> |t.records| > 0 && key !in t.names)
  {
    var rows, names := t.records, t.names;
    ghost var slot: nat := if key in names then names[key] else 0;
    assert key in names ==> HasSlot(rows, slot);
    var ix := KeyIndex([], map[]);
    var i := 0;
    while i < |rows|
      invariant 0 <= i <= |rows|
      invariant i > 0 ==> key in names
      invariant key in names ==> ix == IndexOf(rows[..i], slot)
      invariant key in names ==> KeysHashable(rows, slot, i)
      invariant key !in names ==> ix == KeyIndex([], map[])
    {
      var v := Get(Record(names, rows[i]), key);
      if v.Err? {
        return Err(v.error);
      }
      if !Hashable(v.value) {
        return Err(Unhashable);
      }
      assert v.value == rows[i][slot];
      assert KeysHashable(rows, slot, i + 1);
      assert rows[..i + 1][..i] == rows[..i] && rows[..i + 1][i] == rows[i];
      ix := Insert(ix, v.value, rows[i]);
      i := i + 1;
    }
    assert rows[..i] == rows;
    return Ok(ix);
  }

  // ---------------------------------------------------------------------
  // Reference definitions: the key values present, the first position of a
  // key, and the rows carrying a key, in order.

  function KeySet(rows: seq<Fields>, slot: nat): set<Value>
    requires HasSlot(rows, slot)
  {
    set i | 0 <= i < |rows| :: rows[i][slot]
  }

  lemma KeySetSnoc(rows: seq<Fields>, slot: nat)
    requires HasSlot(rows, slot) && |rows| > 0
    ensures KeySet(rows, slot) == KeySet(rows[..|rows| - 1], slot) + {rows[|rows| - 1][slot]}
  {
    var init := rows[..|rows| - 1];
    forall k | k in KeySet(rows, slot) ensures k in KeySet(init, slot) + {rows[|rows| - 1][slot]} {
      var i :| 0 <= i < |rows| && rows[i][slot] == k;
      if i < |init| { assert init[i] == rows[i]; }
    }
    forall k | k in KeySet(init, slot) ensures k in KeySet(rows, slot) {
      var i :| 0 <= i < |init| && init[i][slot] == k;
      assert rows[i] == init[i];
    }
  }

  /** The position of the first row carrying key `k`. */
  function FirstPos(rows: seq<Fields>, slot: nat, k: Value): (p: nat)
    requires HasSlot(rows, slot) && k in KeySet(rows, slot)
    ensures p < |rows| && rows[p][slot] == k
    ensures forall q | 0 <= q < p :: rows[q][slot] != k
    decreases |rows|
  {
    KeySetSnoc(rows, slot);
    var init := rows[..|rows| - 1];
    if k in KeySet(init, slot) then
      var p := FirstPos(init, slot, k);
      assert rows[p] == init[p];
      assert forall q | 0 <= q < p :: rows[q] == init[q];
      p
    else
      assert forall q | 0 <= q < |init| :: rows[q] == init[q] && init[q][slot] in KeySet(init, slot);
      |rows| - 1
  }

  /** The rows carrying key `k`, in their original order. */
  function Filter(rows: seq<Fields>, slot: nat, k: Value): seq<Fields>
    requires HasSlot(rows, slot)
    decreases |rows|
  {
    if |rows| == 0 then []
    else Filter(rows[..|rows| - 1], slot, k) + (if rows[|rows| - 1][slot] == k then [rows[|rows| - 1]] else [])
  }

  /** The records of the entries of `ks`, entry after entry (the order merge and append read them in). */
  function Flatten(ks: seq<Value>, e: map<Value, Entry>): seq<Fields>
    requires forall i | 0 <= i < |ks| :: ks[i] in e
    decreases |ks|
  {
    if |ks| == 0 then [] else Flatten(ks[..|ks| - 1], e) + SelectAll(e[ks[|ks| - 1]])
  }

  predicate Distinct(ks: seq<Value>)
  {
    forall i, j | 0 <= i < j < |ks| :: ks[i] != ks[j]
  }

  /** The index's records, bucket after bucket in key order. */
  function Grouped(ix: KeyIndex): seq<Fields>
    requires forall i | 0 <= i < |ix.keys| :: ix.keys[i] in ix.entries
  {
    Flatten(ix.keys, ix.entries)
  }

  // ---------------------------------------------------------------------
  // Properties of Filter.

  /** Filter keeps exactly the rows with key `k`: empty when `k` is absent, headed by its first row otherwise. */
  lemma {:induction false} FilterFacts(rows: seq<Fields>, slot: nat, k: Value)
    requires HasSlot(rows, slot)
    ensures forall x | x in Filter(rows, slot, k) :: slot in x && x[slot] == k
    ensures k !in KeySet(rows, slot) ==> Filter(rows, slot, k) == []
    ensures k in KeySet(rows, slot) ==>
      |Filter(rows, slot, k)| > 0 && Filter(rows, slot, k)[0] == rows[FirstPos(rows, slot, k)]
    decreases |rows|
  {
    if |rows| > 0 {
      var init := rows[..|rows| - 1];
      assert HasSlot(init, slot);
      FilterFacts(init, slot, k);
      KeySetSnoc(rows, slot);
    }
  }


  lemma SnocPrefix(init: seq<Fields>, r: Fields)
    ensures (init + [r])[..|init|] == init && (init + [r])[|init|] == r
  {
  }

  /** The first position of a key already present before a row is appended does not move. */
  lemma FirstPosSnoc(init: seq<Fields>, r: Fields, slot: nat, k: Value)
    requires HasSlot(init, slot) && slot in r
    ensures HasSlot(init + [r], slot)
    ensures k in KeySet(init, slot) ==> k in KeySet(init + [r], slot) && FirstPos(init + [r], slot, k) == FirstPos(init, slot, k)
    ensures k !in KeySet(init, slot) && k == r[slot] ==> k in KeySet(init + [r], slot) && FirstPos(init + [r], slot, k) == |init|
  {
    SnocPrefix(init, r);
    KeySetSnoc(init + [r], slot);
  }

  // ---------------------------------------------------------------------
  // Shape of a built index.

  /**
   * `ix` indexes `rows`: distinct keys, exactly the rows' key values, and for
   * each key the bucket Filter gives: that key's rows in their original order.
   */
  predicate Shaped(ix: KeyIndex, rows: seq<Fields>, slot: nat)
    requires HasSlot(rows, slot)
  {
    KeysShaped(ix, rows, slot) && BucketsShaped(ix, rows, slot)
  }

  /** The key list holds each key of the map once, and the map's keys are the rows' key values. */
  predicate KeysShaped(ix: KeyIndex, rows: seq<Fields>, slot: nat)
    requires HasSlot(rows, slot)
  {
    && Distinct(ix.keys)
    && (forall i | 0 <= i < |ix.keys| :: ix.keys[i] in ix.entries)
    && (forall k | k in ix.entries :: k in ix.keys)
    && ix.entries.Keys == KeySet(rows, slot)
  }

  /** Each bucket holds the rows carrying its key, in row order. */
  predicate BucketsShaped(ix: KeyIndex, rows: seq<Fields>, slot: nat)
    requires HasSlot(rows, slot)
  {
    forall k | k in ix.entries :: SelectAll(ix.entries[k]) == Filter(rows, slot, k)
  }

  /** Filter over rows with one more row at the end. */
  lemma FilterSnoc(init: seq<Fields>, r: Fields, slot: nat, k: Value)
    requires HasSlot(init, slot) && slot in r
    ensures HasSlot(init + [r], slot)
    ensures Filter(init + [r], slot, k) == Filter(init, slot, k) + (if r[slot] == k then [r] else [])
  {
    SnocPrefix(init, r);
  }

  /** After Insert, the bucket of any key is that key's rows in order. */
  lemma InsertBucket(ix: KeyIndex, init: seq<Fields>, r: Fields, slot: nat, k: Value)
    requires HasSlot(init, slot) && slot in r && Shaped(ix, init, slot)
    requires k in Insert(ix, r[slot], r).entries
    ensures HasSlot(init + [r], slot)
    ensures SelectAll(Insert(ix, r[slot], r).entries[k]) == Filter(init + [r], slot, k)
  {
    FilterSnoc(init, r, slot, k);
    if r[slot] !in ix.entries {
      InsertNew(ix, r[slot], r);
      if k == r[slot] {
        FilterFacts(init, slot, k);
      }
    } else {
      InsertExisting(ix, r[slot], r);
    }
  }

  lemma InsertKeysShaped(ix: KeyIndex, init: seq<Fields>, r: Fields, slot: nat)
    requires HasSlot(init, slot) && slot in r && KeysShaped(ix, init, slot)
    ensures HasSlot(init + [r], slot)
    ensures KeysShaped(Insert(ix, r[slot], r), init + [r], slot)
  {
    var rows := init + [r];
    var k := r[slot];
    SnocPrefix(init, r);
    KeySetSnoc(rows, slot);
    if k !in ix.entries {
      InsertNew(ix, k, r);
      assert k !in ix.keys;
    } else {
      InsertExisting(ix, k, r);
    }
  }

  lemma InsertBucketsShaped(ix: KeyIndex, init: seq<Fields>, r: Fields, slot: nat)
    requires HasSlot(init, slot) && slot in r && Shaped(ix, init, slot)
    ensures HasSlot(init + [r], slot)
    ensures BucketsShaped(Insert(ix, r[slot], r), init + [r], slot)
  {
    var nx := Insert(ix, r[slot], r);
    forall k | k in nx.entries ensures SelectAll(nx.entries[k]) == Filter(init + [r], slot, k) {
      InsertBucket(ix, init, r, slot, k);
    }
  }

  /** Insert keeps the shape: the index of `init + [r]` is the index of `init` with `r` inserted. */
  lemma InsertShaped(ix: KeyIndex, init: seq<Fields>, r: Fields, slot: nat)
    requires HasSlot(init, slot) && slot in r && Shaped(ix, init, slot)
    ensures HasSlot(init + [r], slot)
    ensures Shaped(Insert(ix, r[slot], r), init + [r], slot)
  {
    InsertKeysShaped(ix, init, r, slot);
    InsertBucketsShaped(ix, init, r, slot);
  }

  /**
   * A built index has the shape Shaped describes, and none of its buckets
   * is empty.
   */
  lemma {:induction false} IndexOfShape(rows: seq<Fields>, slot: nat)
    requires HasSlot(rows, slot)
    ensures Shaped(IndexOf(rows, slot), rows, slot)
    ensures forall k | k in IndexOf(rows, slot).entries :: |SelectAll(IndexOf(rows, slot).entries[k])| > 0
    decreases |rows|
  {
    if |rows| > 0 {
      var init := rows[..|rows| - 1];
      assert HasSlot(init, slot);
      assert init + [rows[|rows| - 1]] == rows;
      IndexOfShape(init, slot);
      InsertShaped(IndexOf(init, slot), init, rows[|rows| - 1], slot);
    }
    forall k | k in IndexOf(rows, slot).entries ensures |SelectAll(IndexOf(rows, slot).entries[k])| > 0 {
      FilterFacts(rows, slot, k);
    }
  }

  /** The part of IndexOfShape about keys alone. */
  lemma IndexOfKeys(rows: seq<Fields>, slot: nat)
    requires HasSlot(rows, slot)
    ensures var ix := IndexOf(rows, slot);
      && Distinct(ix.keys)
      && (forall i | 0 <= i < |ix.keys| :: ix.keys[i] in ix.entries)
      && ix.entries.Keys == KeySet(rows, slot)
  {
    IndexOfShape(rows, slot);
  }

  /** What every built index satisfies: distinct keys, each with a non-empty bucket. */
  predicate Built(ix: KeyIndex)
  {
    && Distinct(ix.keys)
    && (forall i | 0 <= i < |ix.keys| :: ix.keys[i] in ix.entries)
    && (forall k | k in ix.entries :: k in ix.keys)
    && (forall k | k in ix.entries :: |SelectAll(ix.entries[k])| > 0)
  }

  /**
   * A successful `build_key_index` on a table indexes its records on the key
   * column's slot; only a table without records can have an index when the
   * column is missing, and that index is empty.
   */
  lemma KeyIndexOfBuilt(s: Snapshot, key: string)
    requires WellFormed(s) && KeyIndexOf(s, key).Ok?
    ensures Built(KeyIndexOf(s, key).value)
    ensures key in s.names ==> HasSlot(s.records, s.names[key]) && KeyIndexOf(s, key).value == IndexOf(s.records, s.names[key])
    ensures key !in s.names ==> |s.records| == 0 && KeyIndexOf(s, key).value == KeyIndex([], map[])
    ensures forall i | 0 <= i < |s.records| :: key in s.names && Hashable(s.records[i][s.names[key]])
  {
    if key in s.names {
      assert HasSlot(s.records, s.names[key]);
      IndexOfShape(s.records, s.names[key]);
    }
  }

  /** A bucket's first record is the first row carrying its key. */
  lemma FirstOfBucket(rows: seq<Fields>, slot: nat, k: Value)
    requires HasSlot(rows, slot) && k in IndexOf(rows, slot).entries
    ensures k in KeySet(rows, slot)
    ensures SelectFirstOrOnly(IndexOf(rows, slot).entries[k]) == Ok(rows[FirstPos(rows, slot, k)])
  {
    IndexOfShape(rows, slot);
    FilterFacts(rows, slot, k);
  }

  // ---------------------------------------------------------------------
  // Key order.

  /** `ks` lists key values of `rows` in the order of their first occurrence. */
  predicate FirstSeenOrder(ks: seq<Value>, rows: seq<Fields>, slot: nat)
    requires HasSlot(rows, slot)
  {
    && (forall i | 0 <= i < |ks| :: ks[i] in KeySet(rows, slot))
    && (forall i, j | 0 <= i < j < |ks| :: FirstPos(rows, slot, ks[i]) < FirstPos(rows, slot, ks[j]))
  }

  lemma InsertOrder(ix: KeyIndex, init: seq<Fields>, r: Fields, slot: nat)
    requires HasSlot(init, slot) && slot in r && ix.entries.Keys == KeySet(init, slot)
    requires FirstSeenOrder(ix.keys, init, slot)
    ensures HasSlot(init + [r], slot)
    ensures FirstSeenOrder(Insert(ix, r[slot], r).keys, init + [r], slot)
  {
    var rows := init + [r];
    var k := r[slot];
    forall i | 0 <= i < |ix.keys|
      ensures ix.keys[i] in KeySet(rows, slot) && FirstPos(rows, slot, ix.keys[i]) == FirstPos(init, slot, ix.keys[i])
    {
      FirstPosSnoc(init, r, slot, ix.keys[i]);
    }
    FirstPosSnoc(init, r, slot, k);
    if k !in ix.entries {
      InsertNew(ix, k, r);
      var ks := ix.keys + [k];
      forall i | 0 <= i < |ix.keys| ensures FirstPos(rows, slot, ks[i]) < FirstPos(rows, slot, k) {
        assert ks[i] == ix.keys[i];
      }
    } else {
      InsertExisting(ix, k, r);
    }
  }

  /** Keys appear in the order of their first occurrence among the rows. */
  lemma {:induction false} IndexOfOrder(rows: seq<Fields>, slot: nat)
    requires HasSlot(rows, slot)
    ensures FirstSeenOrder(IndexOf(rows, slot).keys, rows, slot)
    decreases |rows|
  {
    if |rows| > 0 {
      var init := rows[..|rows| - 1];
      assert HasSlot(init, slot);
      assert init + [rows[|rows| - 1]] == rows;
      IndexOfShape(init, slot);
      IndexOfOrder(init, slot);
      InsertOrder(IndexOf(init, slot), init, rows[|rows| - 1], slot);
    }
  }

  // ---------------------------------------------------------------------
  // Flatten: the records of all buckets together.

  /** Changing the entry of a key outside `ks` does not change what `ks` flattens to. */
  lemma {:induction false} FlattenFrame(ks: seq<Value>, e: map<Value, Entry>, k: Value, en: Entry)
    requires forall i | 0 <= i < |ks| :: ks[i] in e
    requires k !in ks
    ensures Flatten(ks, e[k := en]) == Flatten(ks, e)
    decreases |ks|
  {
    if |ks| > 0 {
      FlattenFrame(ks[..|ks| - 1], e, k, en);
    }
  }

  /** Appending one record to the bucket of a key of `ks` adds that record to the flattened multiset. */
  lemma {:induction false} FlattenExtend(ks: seq<Value>, e: map<Value, Entry>, k: Value, en: Entry, r: Fields)
    requires forall i | 0 <= i < |ks| :: ks[i] in e
    requires Distinct(ks) && k in ks
    requires SelectAll(en) == SelectAll(e[k]) + [r]
    ensures multiset(Flatten(ks, e[k := en])) == multiset(Flatten(ks, e)) + multiset{r}
    decreases |ks|
  {
    var init := ks[..|ks| - 1];
    var last := ks[|ks| - 1];
    if last == k {
      assert k !in init;
      FlattenFrame(init, e, k, en);
    } else {
      assert k in init;
      FlattenExtend(init, e, k, en, r);
    }
  }

  lemma InsertPartition(ix: KeyIndex, init: seq<Fields>, r: Fields, slot: nat)
    requires HasSlot(init, slot) && slot in r && Shaped(ix, init, slot)
    requires multiset(Grouped(ix)) == multiset(init)
    ensures HasSlot(init + [r], slot) && Shaped(Insert(ix, r[slot], r), init + [r], slot)
    ensures multiset(Grouped(Insert(ix, r[slot], r))) == multiset(init + [r])
  {
    InsertShaped(ix, init, r, slot);
    var k := r[slot];
    var nx := Insert(ix, k, r);
    if k !in ix.entries {
      assert k !in ix.keys;
      FlattenFrame(ix.keys, ix.entries, k, Single(r));
      assert nx.keys[..|nx.keys| - 1] == ix.keys;
    } else {
      FlattenExtend(ix.keys, ix.entries, k, nx.entries[k], r);
    }
  }

  /**
   * The index partitions the rows: its buckets, taken together, hold each
   * row exactly once, so their sizes add up to the number of rows.
   */
  lemma {:induction false} IndexOfPartition(rows: seq<Fields>, slot: nat)
    requires HasSlot(rows, slot)
    ensures Shaped(IndexOf(rows, slot), rows, slot)
    ensures multiset(Grouped(IndexOf(rows, slot))) == multiset(rows)
    ensures |Grouped(IndexOf(rows, slot))| == |rows|
    decreases |rows|
  {
    IndexOfShape(rows, slot);
    if |rows| > 0 {
      var init := rows[..|rows| - 1];
      assert HasSlot(init, slot);
      assert init + [rows[|rows| - 1]] == rows;
      IndexOfPartition(init, slot);
      InsertPartition(IndexOf(init, slot), init, rows[|rows| - 1], slot);
    }
    assert |multiset(Grouped(IndexOf(rows, slot)))| == |multiset(rows)|;
  }

  // ---------------------------------------------------------------------
  // Contiguous keys.

  /**
   * Equal keys stand next to each other: every row either repeats the key
   * of the row before it or carries a key no earlier row has.
   */
  predicate Contiguous(rows: seq<Fields>, slot: nat)
    requires HasSlot(rows, slot)
  {
    forall i | 0 < i < |rows| ::
      rows[i][slot] == rows[i - 1][slot] || rows[i][slot] !in KeySet(rows[..i], slot)
  }

  /** A contiguous sequence's prefix is contiguous, and a key seen before the last row is the key of the row before it. */
  lemma ContiguousSnoc(init: seq<Fields>, r: Fields, slot: nat)
    requires HasSlot(init, slot) && slot in r
    requires HasSlot(init + [r], slot) && Contiguous(init + [r], slot)
    ensures Contiguous(init, slot)
    ensures r[slot] in KeySet(init, slot) ==> |init| > 0 && init[|init| - 1][slot] == r[slot]
  {
    var rows := init + [r];
    forall i | 0 < i < |init|
      ensures init[i][slot] == init[i - 1][slot] || init[i][slot] !in KeySet(init[..i], slot)
    {
      assert rows[..i] == init[..i];
      assert rows[i] == init[i] && rows[i - 1] == init[i - 1];
    }
    assert rows[..|init|] == init;
    if |init| > 0 {
      assert rows[|init| - 1] == init[|init| - 1];
    }
  }

  /** Inserting a new key appends its one-record bucket at the end. */
  lemma GroupedNewKey(ix: KeyIndex, k: Value, r: Fields)
    requires forall i | 0 <= i < |ix.keys| :: ix.keys[i] in ix.entries
    requires k !in ix.entries
    ensures var nx := Insert(ix, k, r);
      && (forall i | 0 <= i < |nx.keys| :: nx.keys[i] in nx.entries)
      && Grouped(nx) == Grouped(ix) + [r]
      && |nx.keys| > 0 && nx.keys[|nx.keys| - 1] == k
  {
    var nx := Insert(ix, k, r);
    assert k !in ix.keys;
    FlattenFrame(ix.keys, ix.entries, k, Single(r));
    assert nx.keys[..|nx.keys| - 1] == ix.keys;
  }

  /** Inserting under the last key extends the last bucket, which ends the grouped sequence. */
  lemma GroupedLastKey(ix: KeyIndex, k: Value, r: Fields)
    requires forall i | 0 <= i < |ix.keys| :: ix.keys[i] in ix.entries
    requires Distinct(ix.keys) && |ix.keys| > 0 && ix.keys[|ix.keys| - 1] == k
    ensures var nx := Insert(ix, k, r);
      && (forall i | 0 <= i < |nx.keys| :: nx.keys[i] in nx.entries)
      && Grouped(nx) == Grouped(ix) + [r]
      && nx.keys == ix.keys
  {
    var nx := Insert(ix, k, r);
    assert k in ix.entries;
    InsertExisting(ix, k, r);
    var ks0 := ix.keys[..|ix.keys| - 1];
    assert k !in ks0;
    assert nx.entries == ix.entries[k := nx.entries[k]];
    FlattenFrame(ks0, ix.entries, k, nx.entries[k]);
    assert Grouped(nx) == Flatten(ks0, nx.entries) + SelectAll(nx.entries[k]);
    assert Grouped(ix) == Flatten(ks0, ix.entries) + SelectAll(ix.entries[k]);
  }

  /**
   * When equal keys are contiguous, reading the index bucket by bucket gives
   * back the rows in their original order.
   */
  lemma {:induction false} IndexOfContiguous(rows: seq<Fields>, slot: nat)
    requires HasSlot(rows, slot) && Contiguous(rows, slot)
    ensures forall i | 0 <= i < |IndexOf(rows, slot).keys| :: IndexOf(rows, slot).keys[i] in IndexOf(rows, slot).entries
    ensures Grouped(IndexOf(rows, slot)) == rows
    ensures |rows| > 0 ==>
      (|IndexOf(rows, slot).keys| > 0 && IndexOf(rows, slot).keys[|IndexOf(rows, slot).keys| - 1] == rows[|rows| - 1][slot])
    decreases |rows|
  {
    if |rows| > 0 {
      var init := rows[..|rows| - 1];
      var r := rows[|rows| - 1];
      assert HasSlot(init, slot);
      assert init + [r] == rows;
      ContiguousSnoc(init, r, slot);
      IndexOfContiguous(init, slot);
      IndexOfKeys(init, slot);
      var ix := IndexOf(init, slot);
      assert IndexOf(rows, slot) == Insert(ix, r[slot], r);
      if r[slot] in ix.entries {
        assert r[slot] in KeySet(init, slot);
        GroupedLastKey(ix, r[slot], r);
      } else {
        GroupedNewKey(ix, r[slot], r);
      }
    }
  }
}
