/**
 * The entry list of a generic table, seen as a value: a sequence of key/value
 * pairs searched front to back with a caller-supplied comparator. The table
 * class in module MtfTable keeps one such sequence and is specified by the
 * functions here; the lemmas state what the table's operations promise.
 */
module Entries {

  datatype Option<T> = None | Some(value: T)

  /** One key/value pair held by a table. */
  datatype Entry<K, V> = Entry(key: K, value: V)

  /** One call of a disposer: the key disposer on a key, or the value disposer on a value. */
  datatype Disposal<K, V> = KeyFreed(key: K) | ValueFreed(value: V)

  /**
   * An entry matches a search key when the comparator, called with the
   * entry's key first and the search key second, returns 0.
   */
  predicate Matches<K, V>(cmp: (K, K) -> int, e: Entry<K, V>, key: K)
  {
    cmp(e.key, key) == 0
  }

  /** The position of the first entry that matches key, if there is one. */
  function FirstMatch<K, V>(es: seq<Entry<K, V>>, cmp: (K, K) -> int, key: K): (r: Option<nat>)
    ensures r.Some? ==> r.value < |es| && Matches(cmp, es[r.value], key)
    ensures r.Some? ==> forall j :: 0 <= j < r.value ==> !Matches(cmp, es[j], key)
    ensures r.None? ==> forall j :: 0 <= j < |es| ==> !Matches(cmp, es[j], key)
  {
    if es == [] then None
    else if Matches(cmp, es[0], key) then Some(0)
    else match FirstMatch(es[1..], cmp, key)
      case None => None
      case Some(i) => Some(i + 1)
  }

  /**
   * What a lookup of key in es answers: the value of the first matching
   * entry, or None when no entry matches.
   */
  function LookupIn<K, V>(es: seq<Entry<K, V>>, cmp: (K, K) -> int, key: K): (r: Option<V>)
    ensures r.None? <==> forall j :: 0 <= j < |es| ==> !Matches(cmp, es[j], key)
    ensures r.Some? ==> exists i :: 0 <= i < |es| && Matches(cmp, es[i], key) && r.value == es[i].value &&
                                    forall j :: 0 <= j < i ==> !Matches(cmp, es[j], key)
  {
    match FirstMatch(es, cmp, key)
    case None => None
    case Some(i) => Some(es[i].value)
  }

  /**
   * The entries of es whose match status against key equals matching, in
   * their original order: with matching = false, what a removal of key
   * leaves; with matching = true, what it takes out.
   */
  function Select<K, V>(es: seq<Entry<K, V>>, cmp: (K, K) -> int, key: K, matching: bool): (r: seq<Entry<K, V>>)
    ensures |r| <= |es|
  {
    if es == [] then []
    else (if Matches(cmp, es[0], key) == matching then [es[0]] else []) + Select(es[1..], cmp, key, matching)
  }

  /** The disposer calls made for one entry: key disposer first, then value disposer, each only if set. */
  function EntryDisposals<K, V>(e: Entry<K, V>, freesKeys: bool, freesValues: bool): seq<Disposal<K, V>>
  {
    (if freesKeys then [KeyFreed(e.key)] else []) + (if freesValues then [ValueFreed(e.value)] else [])
  }

  /** The disposer calls made for every entry of es, front to back. */
  function DisposalsOf<K, V>(es: seq<Entry<K, V>>, freesKeys: bool, freesValues: bool): seq<Disposal<K, V>>
  {
    if es == [] then [] else EntryDisposals(es[0], freesKeys, freesValues) + DisposalsOf(es[1..], freesKeys, freesValues)
  }

  /** The keys handed to the key disposer in a log, in order. */
  function FreedKeys<K, V>(log: seq<Disposal<K, V>>): seq<K>
  {
    if log == [] then [] else (if log[0].KeyFreed? then [log[0].key] else []) + FreedKeys(log[1..])
  }

  /** The values handed to the value disposer in a log, in order. */
  function FreedValues<K, V>(log: seq<Disposal<K, V>>): seq<V>
  {
    if log == [] then [] else (if log[0].ValueFreed? then [log[0].value] else []) + FreedValues(log[1..])
  }

  function KeysOf<K, V>(es: seq<Entry<K, V>>): (ks: seq<K>)
    ensures |ks| == |es| && forall i :: 0 <= i < |es| ==> ks[i] == es[i].key
  {
    seq(|es|, i requires 0 <= i < |es| => es[i].key)
  }

  function ValuesOf<K, V>(es: seq<Entry<K, V>>): (vs: seq<V>)
    ensures |vs| == |es| && forall i :: 0 <= i < |es| ==> vs[i] == es[i].value
  {
    seq(|es|, i requires 0 <= i < |es| => es[i].value)
  }

  /**
   * The entry list after inserting the pairs of ops one after the other,
   * starting from es: every insertion goes to the front, so the last pair
   * of ops ends up first.
   */
  function Inserted<K, V>(es: seq<Entry<K, V>>, ops: seq<Entry<K, V>>): seq<Entry<K, V>>
  {
    if ops == [] then es else [ops[|ops| - 1]] + Inserted(es, ops[..|ops| - 1])
  }

  /** The value of the most recent pair of ops whose key matches key, if any. */
  function Latest<K, V>(ops: seq<Entry<K, V>>, cmp: (K, K) -> int, key: K): Option<V>
  {
    if ops == [] then None
    else if Matches(cmp, ops[|ops| - 1], key) then Some(ops[|ops| - 1].value)
    else Latest(ops[..|ops| - 1], cmp, key)
  }

  /** The comparator behaves as an equality test: reflexive, symmetric and transitive on "returns 0". */
  ghost predicate IsEquivalence<K(!new)>(cmp: (K, K) -> int)
  {
    (forall a :: cmp(a, a) == 0) &&
    (forall a, b :: cmp(a, b) == 0 ==> cmp(b, a) == 0) &&
    (forall a, b, c :: cmp(a, b) == 0 && cmp(b, c) == 0 ==> cmp(a, c) == 0)
  }

  // ---------------------------------------------------------------------------
  // Insert and lookup

  /** Inserting (key, value) at the front answers a lookup of key with value, whatever was there before. */
  lemma InsertThenLookup<K, V>(es: seq<Entry<K, V>>, cmp: (K, K) -> int, key: K, value: V)
    requires cmp(key, key) == 0
    ensures LookupIn([Entry(key, value)] + es, cmp, key) == Some(value)
  {
  }

  /** A lookup after a front insertion sees the new pair if it matches, and otherwise the old list. */
  lemma LookupAfterInsert<K, V>(es: seq<Entry<K, V>>, cmp: (K, K) -> int, key: K, value: V, other: K)
    ensures LookupIn([Entry(key, value)] + es, cmp, other)
         == if cmp(key, other) == 0 then Some(value) else LookupIn(es, cmp, other)
  {
  }

  /** Inserting one more pair puts it in front of the list the earlier insertions left. */
  lemma InsertedSnoc<K, V>(es: seq<Entry<K, V>>, ops: seq<Entry<K, V>>, o: Entry<K, V>)
    ensures Inserted(es, ops + [o]) == [o] + Inserted(es, ops)
  {
  }

  /**
   * After any series of insertions, a lookup answers with the most recently
   * inserted matching value, and falls back to the earlier list only when no
   * inserted pair matches.
   */
  lemma {:induction false} LookupFindsLatest<K, V>(es: seq<Entry<K, V>>, ops: seq<Entry<K, V>>, cmp: (K, K) -> int, key: K)
    ensures LookupIn(Inserted(es, ops), cmp, key)
         == match Latest(ops, cmp, key) case Some(v) => Some(v) case None => LookupIn(es, cmp, key)
  {
    if ops != [] {
      var last := ops[|ops| - 1];
      LookupFindsLatest(es, ops[..|ops| - 1], cmp, key);
      LookupAfterInsert(Inserted(es, ops[..|ops| - 1]), cmp, last.key, last.value, key);
    }
  }

  /** Every insertion adds exactly one entry: nothing is merged with an existing duplicate. */
  lemma {:induction false} InsertedLength<K, V>(es: seq<Entry<K, V>>, ops: seq<Entry<K, V>>)
    ensures |Inserted(es, ops)| == |es| + |ops|
  {
    if ops != [] {
      InsertedLength(es, ops[..|ops| - 1]);
    }
  }

  // ---------------------------------------------------------------------------
  // Remove

  /** Selecting from a concatenation selects from each part. */
  lemma {:induction false} SelectAppend<K, V>(a: seq<Entry<K, V>>, b: seq<Entry<K, V>>, cmp: (K, K) -> int, key: K, matching: bool)
    ensures Select(a + b, cmp, key, matching) == Select(a, cmp, key, matching) + Select(b, cmp, key, matching)
  {
    if a == [] {
      assert a + b == b;
    } else {
      var head := if Matches(cmp, a[0], key) == matching then [a[0]] else [];
      assert (a + b)[0] == a[0];
      assert (a + b)[1..] == a[1..] + b;
      assert Select(a + b, cmp, key, matching) == head + Select(a[1..] + b, cmp, key, matching);
      SelectAppend(a[1..], b, cmp, key, matching);
      assert Select(a, cmp, key, matching) == head + Select(a[1..], cmp, key, matching);
    }
  }

  /**
   * Exactly the entries of es with the requested match status are selected:
   * nothing else is added and none of them is lost.
   */
  lemma {:induction false} SelectMembers<K, V>(es: seq<Entry<K, V>>, cmp: (K, K) -> int, key: K, matching: bool)
    ensures forall e :: e in Select(es, cmp, key, matching) ==> e in es && Matches(cmp, e, key) == matching
    ensures forall e :: e in es && Matches(cmp, e, key) == matching ==> e in Select(es, cmp, key, matching)
  {
    if es != [] {
      SelectMembers(es[1..], cmp, key, matching);
      assert forall e :: e in es[1..] ==> e in es;
      assert forall e :: e in es ==> e == es[0] || e in es[1..];
    }
  }

  /**
   * Examining one more entry: it joins the kept entries or the removed
   * entries, and the other part stays as it was.
   */
  lemma SelectSnoc<K, V>(s: seq<Entry<K, V>>, e: Entry<K, V>, cmp: (K, K) -> int, key: K)
    ensures Matches(cmp, e, key) ==> Select(s + [e], cmp, key, false) == Select(s, cmp, key, false)
    ensures Matches(cmp, e, key) ==> Select(s + [e], cmp, key, true) == Select(s, cmp, key, true) + [e]
    ensures !Matches(cmp, e, key) ==> Select(s + [e], cmp, key, false) == Select(s, cmp, key, false) + [e]
    ensures !Matches(cmp, e, key) ==> Select(s + [e], cmp, key, true) == Select(s, cmp, key, true)
  {
    SelectAppend(s, [e], cmp, key, false);
    SelectAppend(s, [e], cmp, key, true);
    assert [e][1..] == [];
  }

  /**
   * The list shapes met while scanning original: kept entries in front of
   * the unexamined rest, whose first entry is the next one examined. Unlinking
   * that entry, or stepping past it, gives the shape for the next step.
   */
  lemma ScanStep<T>(kept: seq<T>, original: seq<T>, scanned: nat)
    requires scanned < |original|
    ensures (kept + original[scanned..])[|kept|] == original[scanned]
    ensures (kept + original[scanned..])[..|kept|] + (kept + original[scanned..])[|kept| + 1..] == kept + original[scanned + 1..]
    ensures (kept + [original[scanned]]) + original[scanned + 1..] == kept + original[scanned..]
    ensures original[..scanned + 1] == original[..scanned] + [original[scanned]]
  {
  }

  /**
   * Removal splits the list in two: the entries it keeps and the entries it
   * disposes of together are exactly the original entries, duplicates counted.
   */
  lemma {:induction false} SelectPartition<K, V>(es: seq<Entry<K, V>>, cmp: (K, K) -> int, key: K)
    ensures |Select(es, cmp, key, true)| + |Select(es, cmp, key, false)| == |es|
    ensures multiset(Select(es, cmp, key, true)) + multiset(Select(es, cmp, key, false)) == multiset(es)
  {
    if es != [] {
      SelectPartition(es[1..], cmp, key);
      assert es == [es[0]] + es[1..];
    }
  }

  /** After removing key, a lookup of key finds nothing, however many duplicates there were. */
  lemma RemoveThenLookupMisses<K, V>(es: seq<Entry<K, V>>, cmp: (K, K) -> int, key: K)
    ensures LookupIn(Select(es, cmp, key, false), cmp, key) == None
  {
  }

  /**
   * Removing key leaves every lookup of another key unchanged, as long as no
   * entry matches both keys.
   */
  lemma {:induction false} RemovePreservesOtherLookups<K, V>(es: seq<Entry<K, V>>, cmp: (K, K) -> int, key: K, other: K)
    requires forall i :: 0 <= i < |es| && Matches(cmp, es[i], other) ==> !Matches(cmp, es[i], key)
    ensures LookupIn(Select(es, cmp, key, false), cmp, other) == LookupIn(es, cmp, other)
  {
    if es != [] {
      var e, tail := es[0], es[1..];
      assert es == [e] + tail;
      forall i | 0 <= i < |tail| && Matches(cmp, tail[i], other) ensures !Matches(cmp, tail[i], key) {
        assert tail[i] == es[i + 1];
      }
      RemovePreservesOtherLookups(tail, cmp, key, other);
      LookupAfterInsert(tail, cmp, e.key, e.value, other);
      if Matches(cmp, e, key) {
        assert Select(es, cmp, key, false) == Select(tail, cmp, key, false);
        assert !Matches(cmp, es[0], other);
      } else {
        assert Select(es, cmp, key, false) == [e] + Select(tail, cmp, key, false);
        LookupAfterInsert(Select(tail, cmp, key, false), cmp, e.key, e.value, other);
      }
    }
  }

  /** With a comparator that is an equality test, removing key leaves lookups of every unequal key unchanged. */
  lemma RemoveKeepsUnequalKeys<K(!new), V>(es: seq<Entry<K, V>>, cmp: (K, K) -> int, key: K, other: K)
    requires IsEquivalence(cmp)
    requires cmp(other, key) != 0
    ensures LookupIn(Select(es, cmp, key, false), cmp, other) == LookupIn(es, cmp, other)
  {
    forall i | 0 <= i < |es| && Matches(cmp, es[i], other) ensures !Matches(cmp, es[i], key) {
      assert cmp(other, es[i].key) == 0;
    }
    RemovePreservesOtherLookups(es, cmp, key, other);
  }

  /** Removing a key that nothing matches keeps the list as it is and disposes of nothing. */
  lemma {:induction false} RemoveAbsentKeyIsNoop<K, V>(es: seq<Entry<K, V>>, cmp: (K, K) -> int, key: K, freesKeys: bool, freesValues: bool)
    requires LookupIn(es, cmp, key) == None
    ensures Select(es, cmp, key, false) == es
    ensures Select(es, cmp, key, true) == []
    ensures DisposalsOf(Select(es, cmp, key, true), freesKeys, freesValues) == []
  {
    if es != [] {
      assert !Matches(cmp, es[0], key);
      assert LookupIn(es[1..], cmp, key) == None by {
        forall j | 0 <= j < |es[1..]| ensures !Matches(cmp, es[1..][j], key) {
          assert es[1..][j] == es[j + 1];
        }
      }
      RemoveAbsentKeyIsNoop(es[1..], cmp, key, freesKeys, freesValues);
      assert es == [es[0]] + es[1..];
    }
  }

  // ---------------------------------------------------------------------------
  // Disposer log

  lemma {:induction false} DisposalsAppend<K, V>(a: seq<Entry<K, V>>, b: seq<Entry<K, V>>, freesKeys: bool, freesValues: bool)
    ensures DisposalsOf(a + b, freesKeys, freesValues) == DisposalsOf(a, freesKeys, freesValues) + DisposalsOf(b, freesKeys, freesValues)
  {
    if a == [] {
      assert a + b == b;
    } else {
      assert (a + b)[0] == a[0];
      assert (a + b)[1..] == a[1..] + b;
      DisposalsAppend(a[1..], b, freesKeys, freesValues);
    }
  }

  /** Disposing of one more entry appends that entry's disposer calls. */
  lemma DisposalsSnoc<K, V>(s: seq<Entry<K, V>>, e: Entry<K, V>, freesKeys: bool, freesValues: bool)
    ensures DisposalsOf(s + [e], freesKeys, freesValues) == DisposalsOf(s, freesKeys, freesValues) + EntryDisposals(e, freesKeys, freesValues)
  {
    DisposalsAppend(s, [e], freesKeys, freesValues);
    assert [e][1..] == [];
  }

  /** A log that held the calls for done, extended by the calls for e, holds the calls for done + [e]. */
  lemma LogStep<K, V>(base: seq<Disposal<K, V>>, done: seq<Entry<K, V>>, e: Entry<K, V>, freesKeys: bool, freesValues: bool)
    ensures base + DisposalsOf(done, freesKeys, freesValues) + EntryDisposals(e, freesKeys, freesValues)
         == base + DisposalsOf(done + [e], freesKeys, freesValues)
  {
    DisposalsSnoc(done, e, freesKeys, freesValues);
  }

  lemma {:induction false} FreedAppend<K, V>(l1: seq<Disposal<K, V>>, l2: seq<Disposal<K, V>>)
    ensures FreedKeys(l1 + l2) == FreedKeys(l1) + FreedKeys(l2)
    ensures FreedValues(l1 + l2) == FreedValues(l1) + FreedValues(l2)
  {
    if l1 == [] {
      assert l1 + l2 == l2;
    } else {
      assert (l1 + l2)[0] == l1[0];
      assert (l1 + l2)[1..] == l1[1..] + l2;
      FreedAppend(l1[1..], l2);
    }
  }

  /**
   * Disposing of a list of entries calls the key disposer (if set) exactly
   * once per entry on that entry's key, and the value disposer (if set)
   * exactly once per entry on that entry's value, front to back; an unset
   * disposer is never called.
   */
  lemma {:induction false} DisposalsCallEachOnce<K, V>(es: seq<Entry<K, V>>, freesKeys: bool, freesValues: bool)
    ensures FreedKeys(DisposalsOf(es, freesKeys, freesValues)) == if freesKeys then KeysOf(es) else []
    ensures FreedValues(DisposalsOf(es, freesKeys, freesValues)) == if freesValues then ValuesOf(es) else []
  {
    if es != [] {
      var rest := DisposalsOf(es[1..], freesKeys, freesValues);
      DisposalsCallEachOnce(es[1..], freesKeys, freesValues);
      EntryFreed(es[0], freesKeys, freesValues);
      FreedAppend(EntryDisposals(es[0], freesKeys, freesValues), rest);
      assert KeysOf(es) == [es[0].key] + KeysOf(es[1..]);
      assert ValuesOf(es) == [es[0].value] + ValuesOf(es[1..]);
    }
  }

  /** One entry's disposer calls hand its key to the key disposer and its value to the value disposer, if set. */
  lemma EntryFreed<K, V>(e: Entry<K, V>, freesKeys: bool, freesValues: bool)
    ensures FreedKeys(EntryDisposals(e, freesKeys, freesValues)) == if freesKeys then [e.key] else []
    ensures FreedValues(EntryDisposals(e, freesKeys, freesValues)) == if freesValues then [e.value] else []
  {
    var k: seq<Disposal<K, V>> := if freesKeys then [KeyFreed(e.key)] else [];
    var v: seq<Disposal<K, V>> := if freesValues then [ValueFreed(e.value)] else [];
    FreedAppend(k, v);
    assert FreedKeys(k) == if freesKeys then [e.key] else [] by {
      if freesKeys { assert k[1..] == []; }
    }
    assert FreedValues(v) == if freesValues then [e.value] else [] by {
      if freesValues { assert v[1..] == []; }
    }
  }

  /**
   * With both disposers set, the calls alternate per entry: the key of
   * entry i is disposed of at step 2i and its value right after, at step 2i+1.
   */
  lemma {:induction false} DisposalsInterleave<K, V>(es: seq<Entry<K, V>>, i: nat)
    requires i < |es|
    ensures |DisposalsOf(es, true, true)| == 2 * |es|
    ensures DisposalsOf(es, true, true)[2 * i] == KeyFreed(es[i].key)
    ensures DisposalsOf(es, true, true)[2 * i + 1] == ValueFreed(es[i].value)
  {
    if i == 0 {
      if |es| > 1 {
        DisposalsInterleave(es[1..], 0);
      }
    } else {
      DisposalsInterleave(es[1..], i - 1);
    }
  }
}
