/**
 * A generic table: key/value entries kept in a sequence, newest first, with a
 * caller-supplied key comparator and optional key and value disposers.
 * Duplicate keys may coexist; a lookup finds the most recently inserted one,
 * a removal takes out all of them.
 */
module MtfTable {
  import opened Entries

  class Table<K(!new), V> {
    /** The entry list, front to back (the backing doubly linked list). */
    var entries: seq<Entry<K, V>>
    /** Key comparator: returns 0 when two keys are equal. */
    const cmp: (K, K) -> int
    /** Whether a key disposer was given (the key free function is not NULL). */
    const freesKeys: bool
    /** Whether a value disposer was given (the value free function is not NULL). */
    const freesValues: bool
    /** Every disposer call made so far, in order. */
    ghost var disposed: seq<Disposal<K, V>>
    /** False once the table has been killed: the handle may then no longer be used. */
    ghost var live: bool

    /** A new, empty table with the given comparator and disposers. */
    constructor Empty(cmp: (K, K) -> int, freesKeys: bool, freesValues: bool)
      ensures this.cmp == cmp && this.freesKeys == freesKeys && this.freesValues == freesValues
      ensures entries == [] && disposed == [] && live
      ensures IsEmpty()
    {
      this.cmp := cmp;
      this.freesKeys := freesKeys;
      this.freesValues := freesValues;
      entries := [];
      disposed := [];
      live := true;
    }

    /** True if the table holds no key/value pairs; then every lookup misses. */
    function IsEmpty(): (b: bool)
      reads this
      requires live
      ensures b <==> |entries| == 0
      ensures b ==> forall k :: LookupIn(entries, cmp, k) == None
    {
      entries == []
    }

    /**
     * Adds (key, value) at the front without looking for duplicates, so that
     * a lookup of key now returns value.
     */
    method Insert(key: K, value: V)
      requires live
      modifies this
      ensures live && disposed == old(disposed)
      ensures entries == [Entry(key, value)] + old(entries)
      ensures !IsEmpty()
      ensures cmp(key, key) == 0 ==> LookupIn(entries, cmp, key) == Some(value)
    {
      entries := [Entry(key, value)] + entries;
      if cmp(key, key) == 0 {
        InsertThenLookup(old(entries), cmp, key, value);
      }
    }

    /**
     * The value of the first entry, front to back, whose key compares equal
     * to key, or None when there is none. The table is not changed.
     */
    method Lookup(key: K) returns (r: Option<V>)
      requires live
      ensures r == LookupIn(entries, cmp, key)
    {
      var pos := 0;
      while pos < |entries|
        invariant 0 <= pos <= |entries|
        invariant forall j :: 0 <= j < pos ==> !Matches(cmp, entries[j], key)
      {
        var e := entries[pos];
        if cmp(e.key, key) == 0 {
          return Some(e.value);
        }
        pos := pos + 1;
      }
      return None;
    }

    /**
     * Hands an entry's key to the key disposer and then its value to the
     * value disposer, each only if that disposer was given.
     */
    ghost method DisposeEntry(e: Entry<K, V>)
      modifies this`disposed
      ensures disposed == old(disposed) + EntryDisposals(e, freesKeys, freesValues)
    {
      if freesKeys {
        disposed := disposed + [KeyFreed(e.key)];
      }
      if freesValues {
        disposed := disposed + [ValueFreed(e.value)];
      }
    }

    /**
     * Removes every entry whose key compares equal to key, duplicates
     * included, calling the set disposers on each removed entry's key and
     * value front to back. The other entries stay, in their order.
     */
    method Remove(key: K)
      requires live
      modifies this
      ensures live
      ensures entries == Select(old(entries), cmp, key, false)
      ensures disposed == old(disposed) + DisposalsOf(Select(old(entries), cmp, key, true), freesKeys, freesValues)
      ensures LookupIn(entries, cmp, key) == None
    {
      ghost var original := entries;
      ghost var scanned := 0;
      ghost var kept: seq<Entry<K, V>> := [];
      ghost var gone: seq<Entry<K, V>> := [];
      var pos := 0;
      while pos < |entries|
        invariant live
        invariant 0 <= scanned <= |original|
        invariant kept == Select(original[..scanned], cmp, key, false)
        invariant gone == Select(original[..scanned], cmp, key, true)
        invariant entries == kept + original[scanned..]
        invariant pos == |kept|
        invariant disposed == old(disposed) + DisposalsOf(gone, freesKeys, freesValues)
        decreases |entries| - pos
      {
        ScanStep(kept, original, scanned);
        SelectSnoc(original[..scanned], original[scanned], cmp, key);
        var e := entries[pos];
        if cmp(e.key, key) == 0 {
          DisposeEntry(e);
          LogStep(old(disposed), gone, e, freesKeys, freesValues);
          gone := gone + [e];
          entries := entries[..pos] + entries[pos + 1..];
        } else {
          kept := kept + [e];
          pos := pos + 1;
        }
        scanned := scanned + 1;
      }
      assert original[..scanned] == original;
      RemoveThenLookupMisses(original, cmp, key);
    }

    /**
     * Destroys the table: calls the set disposers on every entry's key and
     * value, front to back; afterwards the table may no longer be used.
     */
    method Kill()
      requires live
      modifies this
      ensures !live && entries == old(entries)
      ensures disposed == old(disposed) + DisposalsOf(old(entries), freesKeys, freesValues)
    {
      var pos := 0;
      while pos < |entries|
        invariant 0 <= pos <= |entries|
        invariant entries == old(entries)
        invariant disposed == old(disposed) + DisposalsOf(entries[..pos], freesKeys, freesValues)
      {
        var e := entries[pos];
        DisposeEntry(e);
        assert entries[..pos + 1] == entries[..pos] + [e];
        LogStep(old(disposed), entries[..pos], e, freesKeys, freesValues);
        pos := pos + 1;
      }
      assert entries[..pos] == entries;
      live := false;
    }

    /**
     * Visits every entry front to back; the result is the sequence of
     * (key, value) arguments the visitor is called with. The table is not
     * changed.
     */
    method Print() returns (visits: seq<(K, V)>)
      requires live
      ensures |visits| == |entries|
      ensures forall i :: 0 <= i < |entries| ==> visits[i] == (entries[i].key, entries[i].value)
    {
      visits := [];
      var pos := 0;
      while pos < |entries|
        invariant 0 <= pos <= |entries|
        invariant |visits| == pos
        invariant forall i :: 0 <= i < pos ==> visits[i] == (entries[i].key, entries[i].value)
      {
        var e := entries[pos];
        visits := visits + [(e.key, e.value)];
        pos := pos + 1;
      }
    }
  }

  /** A comparator on integer keys in the usual C style: negative, zero or positive. */
  function IntCompare(a: int, b: int): (r: int)
    ensures r == 0 <==> a == b
  {
    if a < b then -1 else if a > b then 1 else 0
  }

  /**
   * Integer keys, no disposers: insert (1, "a"), (2, "b"), (1, "c"); look up 1;
   * remove 1; look up 1 and 2 again.
   */
  method IntKeyScenario() returns (latest: Option<string>, removed: Option<string>, other: Option<string>)
    ensures latest == Some("c")
    ensures removed == None
    ensures other == Some("b")
  {
    var t := new Table<int, string>.Empty(IntCompare, false, false);
    ghost var ops: seq<Entry<int, string>> := [];
    t.Insert(1, "a");
    InsertedSnoc([], [], Entry(1, "a"));
    ops := ops + [Entry(1, "a")];
    t.Insert(2, "b");
    InsertedSnoc([], ops, Entry(2, "b"));
    ops := ops + [Entry(2, "b")];
    t.Insert(1, "c");
    InsertedSnoc([], ops, Entry(1, "c"));
    ops := ops + [Entry(1, "c")];
    assert t.entries == Inserted([], ops);
    LookupFindsLatest([], ops, IntCompare, 1);
    assert Latest(ops, IntCompare, 1) == Some("c");
    ghost var filled := [Entry(1, "c"), Entry(2, "b"), Entry(1, "a")];
    assert t.entries == filled;
    latest := t.Lookup(1);
    t.Remove(1);
    assert filled[1..] == [Entry(2, "b"), Entry(1, "a")] && filled[1..][1..] == [Entry(1, "a")];
    assert [Entry(1, "a")][1..] == [];
    assert t.entries == [Entry(2, "b")];
    removed := t.Lookup(1);
    other := t.Lookup(2);
  }

  /**
   * Both disposers set: inserting (5, x) twice and removing 5 calls each
   * disposer exactly twice and leaves the table empty.
   */
  method DuplicateDisposalScenario<V>(x: V) returns (emptyAfter: bool, ghost log: seq<Disposal<int, V>>)
    ensures emptyAfter
    ensures log == [KeyFreed(5), ValueFreed(x), KeyFreed(5), ValueFreed(x)]
  {
    var t := new Table<int, V>.Empty(IntCompare, true, true);
    t.Insert(5, x);
    t.Insert(5, x);
    ghost var filled := [Entry(5, x), Entry(5, x)];
    assert t.entries == filled;
    t.Remove(5);
    assert filled[1..] == [Entry(5, x)] && [Entry(5, x)][1..] == [];
    assert Select(filled, IntCompare, 5, true) == filled;
    assert DisposalsOf([Entry(5, x)], true, true) == [KeyFreed(5), ValueFreed(x)];
    assert DisposalsOf(filled, true, true) == [KeyFreed(5), ValueFreed(x)] + [KeyFreed(5), ValueFreed(x)];
    assert t.disposed == [KeyFreed(5), ValueFreed(x), KeyFreed(5), ValueFreed(x)];
    emptyAfter := t.IsEmpty();
    log := t.disposed;
  }
}
