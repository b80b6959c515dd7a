/** The byte-budgeted least-recently-used cache of
    cache/algorithm/lru/lru.go.

    The Go cache keeps a doubly linked list of entries (front = most
    recently used) and a map from key to list element.  Here the list is a
    sequence of entries, most recent first, and the map sends each key to
    the value held by its element.  The optional `OnRemove` callback is
    recorded in a ghost log instead of being called. */
module Lru {
  import opened Common

  /** One element of the recency list (`entry` in Go). */
  datatype Entry<V> = Entry(key: string, value: V)

  /** Bytes charged for one entry: the key's length plus `value.Len()`. */
  function Footprint<V>(e: Entry<V>, size: V -> nat): nat
  {
    |e.key| + size(e.value)
  }

  /** Bytes charged for a whole list; the cache's `nBytes` must equal this. */
  function Bytes<V>(s: seq<Entry<V>>, size: V -> nat): nat
  {
    if s == [] then 0 else Bytes(s[..|s| - 1], size) + Footprint(s[|s| - 1], size)
  }

  /** The keys occurring in a list. */
  function KeySet<V>(s: seq<Entry<V>>): set<string>
  {
    if s == [] then {} else KeySet(s[..|s| - 1]) + {s[|s| - 1].key}
  }

  /** No key occurs twice in the list. */
  predicate DistinctKeys<V>(s: seq<Entry<V>>)
  {
    s == [] || (DistinctKeys(s[..|s| - 1]) && s[|s| - 1].key !in KeySet(s[..|s| - 1]))
  }

  /** The list with the element holding `key` unlinked. */
  function Without<V>(s: seq<Entry<V>>, key: string): seq<Entry<V>>
  {
    if s == [] then []
    else if s[|s| - 1].key == key then Without(s[..|s| - 1], key)
    else Without(s[..|s| - 1], key) + [s[|s| - 1]]
  }

  /** The list after `(key, value)` is moved or pushed to the front: the
      state both branches of `Add` (lru.go:73-85) and a hit in `Get`
      (lru.go:43-45) leave behind. */
  function Promote<V>(s: seq<Entry<V>>, key: string, value: V): seq<Entry<V>>
  {
    [Entry(key, value)] + Without(s, key)
  }

  /** What is left of `s` after the eviction loop of lru.go:88-90 has
      removed elements from the back until the list fits `maxBytes`
      (0 = no budget). */
  function Evict<V>(s: seq<Entry<V>>, maxBytes: nat, size: V -> nat): seq<Entry<V>>
  {
    if s == [] || maxBytes == 0 || Bytes(s, size) <= maxBytes then s
    else Evict(s[..|s| - 1], maxBytes, size)
  }

  /** The entries that loop removes, in the order it removes them. */
  function Evicted<V>(s: seq<Entry<V>>, maxBytes: nat, size: V -> nat): seq<Entry<V>>
  {
    if s == [] || maxBytes == 0 || Bytes(s, size) <= maxBytes then []
    else [s[|s| - 1]] + Evicted(s[..|s| - 1], maxBytes, size)
  }

  // ---------------------------------------------------------------------
  // Facts about the list functions

  lemma {:induction false} KeySetOf<V>(s: seq<Entry<V>>)
    ensures forall e :: e in s ==> e.key in KeySet(s)
    ensures forall k :: k in KeySet(s) ==> exists e :: e in s && e.key == k
  {
    if s != [] {
      var p := s[..|s| - 1];
      KeySetOf(p);
      assert s == p + [s[|s| - 1]];
      forall k | k in KeySet(s) ensures exists e :: e in s && e.key == k {
        if k in KeySet(p) {
          var e :| e in p && e.key == k;
          assert e in s;
        } else {
          assert s[|s| - 1] in s;
        }
      }
    }
  }

  /** Some element of the list carries a key that `KeySet` reports. */
  lemma FindEntry<V>(s: seq<Entry<V>>, k: string) returns (e: Entry<V>)
    requires k in KeySet(s)
    ensures e in s && e.key == k
  {
    KeySetOf(s);
    e :| e in s && e.key == k;
  }

  /** Putting an element in front of a list, seen from the back. */
  lemma {:induction false} ConsFacts<V>(e: Entry<V>, s: seq<Entry<V>>, size: V -> nat)
    ensures Bytes([e] + s, size) == Footprint(e, size) + Bytes(s, size)
    ensures KeySet([e] + s) == {e.key} + KeySet(s)
    ensures DistinctKeys([e] + s) <==> e.key !in KeySet(s) && DistinctKeys(s)
  {
    if s != [] {
      var p := s[..|s| - 1];
      ConsFacts(e, p, size);
      assert ([e] + s)[..|[e] + s| - 1] == [e] + p;
      KeySetOf([e] + p);
      KeySetOf(p);
    }
  }

  lemma {:induction false} WithoutMembers<V>(s: seq<Entry<V>>, k: string)
    ensures forall e :: e in Without(s, k) ==> e in s && e.key != k
    ensures forall e :: e in s && e.key != k ==> e in Without(s, k)
  {
    if s != [] {
      var p := s[..|s| - 1];
      WithoutMembers(p, k);
      assert s == p + [s[|s| - 1]];
    }
  }

  lemma {:induction false} WithoutKeys<V>(s: seq<Entry<V>>, k: string)
    ensures KeySet(Without(s, k)) == KeySet(s) - {k}
  {
    if s != [] {
      var p := s[..|s| - 1];
      WithoutKeys(p, k);
      var w := Without(p, k);
      if s[|s| - 1].key != k {
        assert (w + [s[|s| - 1]])[..|w|] == w;
      }
    }
  }

  lemma {:induction false} WithoutDistinct<V>(s: seq<Entry<V>>, k: string)
    requires DistinctKeys(s)
    ensures DistinctKeys(Without(s, k))
  {
    if s != [] {
      var p := s[..|s| - 1];
      WithoutDistinct(p, k);
      WithoutKeys(p, k);
      var w := Without(p, k);
      if s[|s| - 1].key != k {
        assert (w + [s[|s| - 1]])[..|w|] == w;
      }
    }
  }

  lemma {:induction false} WithoutAbsent<V>(s: seq<Entry<V>>, k: string)
    requires k !in KeySet(s)
    ensures Without(s, k) == s
  {
    if s != [] {
      var p := s[..|s| - 1];
      WithoutAbsent(p, k);
      assert s == p + [s[|s| - 1]];
    }
  }

  /** Unlinking the element `e` of a list with distinct keys uncharges
      exactly its footprint and shortens the list by one. */
  lemma {:induction false} WithoutBytes<V>(s: seq<Entry<V>>, e: Entry<V>, size: V -> nat)
    requires DistinctKeys(s) && e in s
    ensures Bytes(Without(s, e.key), size) + Footprint(e, size) == Bytes(s, size)
    ensures |Without(s, e.key)| + 1 == |s|
  {
    var p := s[..|s| - 1];
    assert s == p + [s[|s| - 1]];
    if s[|s| - 1] == e {
      WithoutAbsent(p, e.key);
    } else {
      assert e in p;
      KeySetOf(p);
      WithoutBytes(p, e, size);
      var w := Without(p, e.key);
      assert (w + [s[|s| - 1]])[..|w|] == w;
    }
  }

  /** With distinct keys, the list and its key set have the same size. */
  lemma {:induction false} DistinctCount<V>(s: seq<Entry<V>>)
    requires DistinctKeys(s)
    ensures |KeySet(s)| == |s|
  {
    if s != [] {
      DistinctCount(s[..|s| - 1]);
    }
  }

  // ---------------------------------------------------------------------
  // Properties of the cache operations, stated on the list

  /** Re-adding a present key (lru.go:73-80) keeps the number of entries,
      puts the key in front with the new value, and changes the byte
      count by exactly the difference of the two values' sizes. */
  lemma ReplaceAccounting<V>(s: seq<Entry<V>>, e: Entry<V>, v: V, size: V -> nat)
    requires DistinctKeys(s) && e in s
    ensures |Promote(s, e.key, v)| == |s|
    ensures Promote(s, e.key, v)[0] == Entry(e.key, v)
    ensures Bytes(Promote(s, e.key, v), size) == Bytes(s, size) + size(v) - size(e.value)
    ensures DistinctKeys(Promote(s, e.key, v))
    ensures KeySet(Promote(s, e.key, v)) == KeySet(s)
  {
    WithoutBytes(s, e, size);
    WithoutKeys(s, e.key);
    WithoutDistinct(s, e.key);
    ConsFacts(Entry(e.key, v), Without(s, e.key), size);
    KeySetOf(s);
  }

  /** Adding a new key (lru.go:81-84) grows the list by one entry in front
      and charges `len(key) + value.Len()`. */
  lemma InsertAccounting<V>(s: seq<Entry<V>>, k: string, v: V, size: V -> nat)
    requires DistinctKeys(s) && k !in KeySet(s)
    ensures Promote(s, k, v) == [Entry(k, v)] + s
    ensures Bytes(Promote(s, k, v), size) == Bytes(s, size) + |k| + size(v)
    ensures DistinctKeys(Promote(s, k, v))
    ensures KeySet(Promote(s, k, v)) == KeySet(s) + {k}
  {
    WithoutAbsent(s, k);
    ConsFacts(Entry(k, v), s, size);
  }

  /** The eviction loop keeps the most recent entries (a prefix of the
      list), ends within budget, and hands the rest to `OnRemove` from
      the least recently used end. */
  lemma {:induction false} EvictShape<V>(s: seq<Entry<V>>, maxBytes: nat, size: V -> nat)
    ensures maxBytes != 0 ==> Bytes(Evict(s, maxBytes, size), size) <= maxBytes
    ensures |Evict(s, maxBytes, size)| <= |s|
    ensures Evict(s, maxBytes, size) == s[..|Evict(s, maxBytes, size)|]
    ensures |Evict(s, maxBytes, size)| + |Evicted(s, maxBytes, size)| == |s|
    ensures forall j :: 0 <= j < |Evicted(s, maxBytes, size)| ==>
              Evicted(s, maxBytes, size)[j] == s[|s| - 1 - j]
  {
    if !(s == [] || maxBytes == 0 || Bytes(s, size) <= maxBytes) {
      var p := s[..|s| - 1];
      EvictShape(p, maxBytes, size);
      var ev := Evicted(p, maxBytes, size);
      assert Evicted(s, maxBytes, size) == [s[|s| - 1]] + ev;
      forall j | 0 <= j < |Evicted(s, maxBytes, size)|
        ensures Evicted(s, maxBytes, size)[j] == s[|s| - 1 - j]
      {
        if j > 0 {
          assert Evicted(s, maxBytes, size)[j] == ev[j - 1];
        }
      }
    }
  }

  /** Eviction removes no more than it must: unless nothing was evicted,
      putting back the last entry it removed would exceed the budget. */
  lemma {:induction false} EvictMinimal<V>(s: seq<Entry<V>>, maxBytes: nat, size: V -> nat)
    requires |Evict(s, maxBytes, size)| < |s|
    ensures maxBytes != 0
    ensures Bytes(s[..|Evict(s, maxBytes, size)| + 1], size) > maxBytes
  {
    var p := s[..|s| - 1];
    EvictShape(p, maxBytes, size);
    if |Evict(p, maxBytes, size)| < |p| {
      EvictMinimal(p, maxBytes, size);
      assert p[..|Evict(p, maxBytes, size)| + 1] == s[..|Evict(p, maxBytes, size)| + 1];
    } else {
      assert s[..|s|] == s;
    }
  }

  /** One turn of the eviction loop removes the last element. */
  lemma EvictStep<V>(s: seq<Entry<V>>, maxBytes: nat, size: V -> nat)
    requires maxBytes != 0 && maxBytes < Bytes(s, size)
    ensures s != []
    ensures Evict(s, maxBytes, size) == Evict(s[..|s| - 1], maxBytes, size)
    ensures Evicted(s, maxBytes, size) == [s[|s| - 1]] + Evicted(s[..|s| - 1], maxBytes, size)
  {
  }

  /** With budget 0 the loop never runs (lru.go:88). */
  lemma UnboundedNeverEvicts<V>(s: seq<Entry<V>>, size: V -> nat)
    ensures Evict(s, 0, size) == s && Evicted(s, 0, size) == []
  {
  }

  /** An entry whose own footprint exceeds the budget is admitted and then
      evicted together with everything else (lru.go:82-90). */
  lemma OversizedEntryEvictsAll<V>(s: seq<Entry<V>>, k: string, v: V, maxBytes: nat, size: V -> nat)
    requires maxBytes != 0 && Footprint(Entry(k, v), size) > maxBytes
    ensures Evict(Promote(s, k, v), maxBytes, size) == []
    ensures |Evicted(Promote(s, k, v), maxBytes, size)| == |Promote(s, k, v)|
  {
    var t := Promote(s, k, v);
    EvictShape(t, maxBytes, size);
    var kept := Evict(t, maxBytes, size);
    if kept != [] {
      assert kept == [t[0]] + kept[1..];
      ConsFacts(t[0], kept[1..], size);
    }
  }

  /** An entry that fits the budget survives its own `Add` at the front of
      the list: only older entries are evicted to make room. */
  lemma FittingEntrySurvives<V>(s: seq<Entry<V>>, k: string, v: V, maxBytes: nat, size: V -> nat)
    requires maxBytes == 0 || Footprint(Entry(k, v), size) <= maxBytes
    ensures |Evict(Promote(s, k, v), maxBytes, size)| >= 1
    ensures Evict(Promote(s, k, v), maxBytes, size)[0] == Entry(k, v)
  {
    var t := Promote(s, k, v);
    EvictShape(t, maxBytes, size);
    assert t[..1] == [Entry(k, v)];
    assert Bytes(t[..1], size) == Footprint(Entry(k, v), size);
    if |Evict(t, maxBytes, size)| == 0 {
      EvictMinimal(t, maxBytes, size);
    }
  }

  /** The recency list and the key map describe the same entries: each
      key is in the list once, the map holds exactly the list's keys, and
      it sends each key to the value of that key's element. */
  ghost predicate Indexed<V>(s: seq<Entry<V>>, index: map<string, V>)
  {
    && DistinctKeys(s)
    && index.Keys == KeySet(s)
    && (forall e :: e in s ==> e.key in index && index[e.key] == e.value)
  }

  /** Moving or pushing an entry to the front touches list and map alike. */
  lemma PromoteIndexed<V>(s: seq<Entry<V>>, index: map<string, V>, k: string, v: V, size: V -> nat)
    requires Indexed(s, index)
    ensures Indexed(Promote(s, k, v), index[k := v])
    ensures k in index ==> Bytes(Promote(s, k, v), size) == Bytes(s, size) + size(v) - size(index[k])
    ensures k !in index ==> Bytes(Promote(s, k, v), size) == Bytes(s, size) + |k| + size(v)
  {
    var t := Promote(s, k, v);
    if k in index {
      var e := FindEntry(s, k);
      ReplaceAccounting(s, e, v, size);
    } else {
      InsertAccounting(s, k, v, size);
    }
    WithoutMembers(s, k);
    var m := index[k := v];
    forall e | e in t
      ensures e.key in m && m[e.key] == e.value
    {
      if e != Entry(k, v) {
        assert e in Without(s, k);
      }
    }
  }

  /** Unlinking the last element of the list and deleting its key from the
      map keeps the two in step. */
  lemma DropLastIndexed<V>(s: seq<Entry<V>>, index: map<string, V>)
    requires Indexed(s, index) && s != []
    ensures Indexed(s[..|s| - 1], index - {s[|s| - 1].key})
  {
    var p := s[..|s| - 1];
    assert s == p + [s[|s| - 1]];
    KeySetOf(p);
  }

  // ---------------------------------------------------------------------
  // The cache object

  /** `Cache` of lru.go:17-27. `size` is `Value.Len()`; `hasOnRemove` says
      whether `OnRemove` is non-nil; `removed` logs its calls. */
  class Cache<V> {
    const maxBytes: int
    const size: V -> nat
    const hasOnRemove: bool
    var nBytes: int
    var entries: seq<Entry<V>>
    var index: map<string, V>
    ghost var removed: seq<Entry<V>>

    /** List and map hold the same keys, each once, with the same values,
        and `nBytes` is the exact footprint of the live entries. */
    ghost predicate Consistent()
      reads this
    {
      && maxBytes >= 0
      && Indexed(entries, index)
      && nBytes == Bytes(entries, size)
    }

    /** `Consistent` and within budget, as after every public operation. */
    ghost predicate Valid()
      reads this
    {
      Consistent() && (maxBytes != 0 ==> nBytes <= maxBytes)
    }

    /** `New` (lru.go:30-37). A negative budget is excluded: with one, the
        eviction loop of `Add` never ends once the list is empty. */
    constructor (maxBytes: int, size: V -> nat, hasOnRemove: bool)
      requires maxBytes >= 0
      ensures Valid()
      ensures this.maxBytes == maxBytes && this.size == size && this.hasOnRemove == hasOnRemove
      ensures entries == [] && index == map[] && nBytes == 0 && removed == []
    {
      this.maxBytes := maxBytes;
      this.size := size;
      this.hasOnRemove := hasOnRemove;
      nBytes := 0;
      entries := [];
      index := map[];
      removed := [];
    }

    /** `Len` (lru.go:93-95): the length of the list, which is also the
        number of keys in the map. */
    function Len(): (n: nat)
      reads this
      requires Consistent()
      ensures n == |index|
    {
      DistinctCount(entries);
      |entries|
    }

    /** `Get` (lru.go:42-51): a hit returns the stored value and makes the
        key the most recent; a miss changes nothing. */
    method Get(key: string) returns (r: Option<V>)
      requires Valid()
      modifies this
      ensures Valid()
      ensures index == old(index) && nBytes == old(nBytes) && removed == old(removed)
      ensures key in old(index) ==>
                r == Some(old(index)[key]) && entries == Promote(old(entries), key, old(index)[key])
      ensures key !in old(index) ==> r == None && entries == old(entries)
    {
      if key in index {
        var v := index[key];
        PromoteIndexed(entries, index, key, v, size);
        assert index[key := v] == index;
        entries := [Entry(key, v)] + Without(entries, key);
        r := Some(v);
      } else {
        r := None;
      }
    }

    /** `Remove` (lru.go:54-69): on an empty list nothing happens; otherwise
        the least recently used entry leaves the list and the map, its
        footprint leaves `nBytes`, and it is reported to `OnRemove`. */
    method Remove()
      requires Consistent()
      modifies this
      ensures Consistent()
      ensures old(entries) == [] ==>
                entries == [] && index == old(index) && nBytes == old(nBytes) && removed == old(removed)
      ensures old(entries) != [] ==>
                var last := old(entries)[|old(entries)| - 1];
                && entries == old(entries)[..|old(entries)| - 1]
                && index == old(index) - {last.key}
                && nBytes == old(nBytes) - Footprint(last, size)
                && removed == old(removed) + (if hasOnRemove then [last] else [])
    {
      if |entries| > 0 {
        var last := entries[|entries| - 1];
        DropLastIndexed(entries, index);
        entries := entries[..|entries| - 1];
        index := index - {last.key};
        nBytes := nBytes - (|last.key| + size(last.value));
        if hasOnRemove {
          removed := removed + [last];
        }
      }
    }

    /** The eviction loop at the end of `Add` (lru.go:88-90): call `Remove`
        while a budget is set and exceeded. */
    method Shrink()
      requires Consistent()
      modifies this
      ensures Valid()
      ensures entries == Evict(old(entries), maxBytes, size)
      ensures removed == old(removed) + (if hasOnRemove then Evicted(old(entries), maxBytes, size) else [])
    {
      ghost var kept := Evict(entries, maxBytes, size);
      ghost var log := removed + Evicted(entries, maxBytes, size);
      while maxBytes != 0 && maxBytes < nBytes
        invariant Consistent()
        invariant Evict(entries, maxBytes, size) == kept
        invariant hasOnRemove ==> removed + Evicted(entries, maxBytes, size) == log
        invariant !hasOnRemove ==> removed == old(removed)
        decreases |entries|
      {
        ghost var cur, before := entries, removed;
        EvictStep(cur, maxBytes, size);
        Remove();
        if hasOnRemove {
          ghost var last, rest := cur[|cur| - 1], Evicted(entries, maxBytes, size);
          assert before + ([last] + rest) == (before + [last]) + rest;
        }
      }
      assert Evicted(entries, maxBytes, size) == [] && Evict(entries, maxBytes, size) == entries;
      assert hasOnRemove ==> removed + [] == removed;
    }

    /** `Add` (lru.go:72-91): insert or replace the entry at the front, then
        evict from the back until within budget. */
    method Add(key: string, value: V)
      requires Valid()
      modifies this
      ensures Valid()
      ensures entries == Evict(Promote(old(entries), key, value), maxBytes, size)
      ensures removed == old(removed) +
                (if hasOnRemove then Evicted(Promote(old(entries), key, value), maxBytes, size) else [])
    {
      ghost var staged := Promote(entries, key, value);
      ghost var entries0, index0 := entries, index;
      if key in index {
        var previous := index[key];
        entries := [Entry(key, value)] + Without(entries, key);
        nBytes := nBytes + size(value) - size(previous);
        index := index[key := value];
      } else {
        entries := [Entry(key, value)] + entries;
        index := index[key := value];
        nBytes := nBytes + |key| + size(value);
      }
      assert Consistent() && entries == staged by {
        PromoteIndexed(entries0, index0, key, value, size);
        if key !in index0 {
          WithoutAbsent(entries0, key);
        }
      }
      Shrink();
    }
  }

  /** The scenario of algorithm/lru/lru_test.go: an unbounded cache of
      strings (a string's size is its length) given "key1"->"1" and
      "key2"->"111" charges 12 bytes and hits both keys. */
  method UnboundedScenario() returns (used: int, v1: Option<string>, v2: Option<string>)
    ensures used == 12
    ensures v1 == Some("1") && v2 == Some("111")
  {
    var size := (s: string) => |s|;
    var lru := new Cache<string>(0, size, false);
    var e1, e2 := Entry("key1", "1"), Entry("key2", "111");
    lru.Add("key1", "1");
    UnboundedNeverEvicts(Promote([], "key1", "1"), size);
    assert lru.entries == [e1];
    lru.Add("key2", "111");
    assert Without([e1], "key2") == [e1];
    UnboundedNeverEvicts(Promote([e1], "key2", "111"), size);
    assert lru.entries == [e2, e1];
    assert [e2, e1][..1] == [e2];
    assert Bytes([e2, e1], size) == 12;
    used := lru.nBytes;
    assert e1 in lru.entries && e2 in lru.entries;
    v1 := lru.Get("key1");
    v2 := lru.Get("key2");
  }
}
