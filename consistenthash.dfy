/** The consistent-hash ring of cache/consistenthash/consistenthash.go.

    A ring holds `replicas` virtual nodes per member.  The virtual node `i`
    of member `p` sits at position `hash(Itoa(i) + p)`; `keys` lists all
    positions in ascending order and `hashMap` sends each position to the
    member that owns it.  The hash is a parameter (crc32's ChecksumIEEE
    when the caller gives none), and a Go string's bytes are modelled by
    the characters of a Dafny string, one character per byte. */
module ConsistentHash {
  import opened Common

  /** `Hash` (consistenthash.go:10). */
  type Hash = string -> uint32

  /** `Map` (consistenthash.go:12-17). */
  datatype Map = Map(hash: Hash, replicas: int, keys: seq<int>, hashMap: map<int, string>)

  predicate Sorted(s: seq<int>)
  {
    forall i, j :: 0 <= i < j < |s| ==> s[i] <= s[j]
  }

  /** What a well-formed ring satisfies: positions ascending, each with an
      owner. */
  predicate Valid(m: Map)
  {
    Sorted(m.keys) && forall k :: k in m.keys ==> k in m.hashMap
  }

  // ---------------------------------------------------------------------
  // strconv.Itoa on the replica numbers

  function Digit(d: nat): (c: char)
    requires d < 10
    ensures '0' <= c <= '9' && c as int - '0' as int == d
  {
    ('0' as int + d) as char
  }

  predicate IsDecimal(s: string)
  {
    forall i :: 0 <= i < |s| ==> '0' <= s[i] <= '9'
  }

  /** `strconv.Itoa` of a non-negative number: its decimal digits. */
  function Itoa(n: nat): (s: string)
    ensures |s| >= 1 && IsDecimal(s)
  {
    if n < 10 then [Digit(n)] else Itoa(n / 10) + [Digit(n % 10)]
  }

  /** The value of a string of decimal digits (the inverse of `Itoa`). */
  function Atoi(s: string): nat
    requires IsDecimal(s)
  {
    if s == [] then 0 else Atoi(s[..|s| - 1]) * 10 + (s[|s| - 1] as int - '0' as int)
  }

  lemma {:induction false} ItoaRoundTrip(n: nat)
    ensures Atoi(Itoa(n)) == n
  {
    if n >= 10 {
      ItoaRoundTrip(n / 10);
      var s := Itoa(n);
      assert s[..|s| - 1] == Itoa(n / 10);
    }
  }

  /** Two replicas of one member never share a name, so their positions
      differ unless the hash itself collides. */
  lemma ReplicaNamesDistinct(i: nat, j: nat, member: string)
    requires i != j
    ensures Itoa(i) + member != Itoa(j) + member
  {
    if Itoa(i) + member == Itoa(j) + member {
      var a, b := Itoa(i), Itoa(j);
      assert |a| == |b|;
      assert a == (a + member)[..|a|] == (b + member)[..|b|] == b;
      ItoaRoundTrip(i);
      ItoaRoundTrip(j);
    }
  }

  // ---------------------------------------------------------------------
  // sort.Ints and sort.Search

  function Insert(x: int, s: seq<int>): (r: seq<int>)
    ensures multiset(r) == multiset(s) + multiset{x}
    ensures forall y :: y in r ==> y == x || y in s
  {
    if s == [] || x <= s[0] then [x] + s
    else
      assert s == [s[0]] + s[1..];
      [s[0]] + Insert(x, s[1..])
  }

  lemma {:induction false} InsertSorted(x: int, s: seq<int>)
    requires Sorted(s)
    ensures Sorted(Insert(x, s))
  {
    if s != [] && x > s[0] {
      var t := Insert(x, s[1..]);
      InsertSorted(x, s[1..]);
      assert forall k :: 0 <= k < |t| ==> t[k] == x || t[k] in s[1..];
      assert forall k :: 0 <= k < |t| ==> s[0] <= t[k];
    }
  }

  /** `sort.Ints` (consistenthash.go:49): an ascending permutation. */
  function SortInts(s: seq<int>): (r: seq<int>)
    ensures Sorted(r)
    ensures multiset(r) == multiset(s)
  {
    if s == [] then []
    else
      assert s == [s[0]] + s[1..];
      InsertSorted(s[0], SortInts(s[1..]));
      Insert(s[0], SortInts(s[1..]))
  }

  /** The bisection of `sort.Search` on the half-open range `[lo, hi)`. */
  function SearchIn(keys: seq<int>, h: int, lo: nat, hi: nat): (i: nat)
    requires lo <= hi <= |keys|
    ensures lo <= i <= hi
    ensures (forall j :: lo <= j < hi ==> keys[j] < h) ==> i == hi
    ensures Sorted(keys) && (forall j :: 0 <= j < lo ==> keys[j] < h) &&
            (forall j :: hi <= j < |keys| ==> keys[j] >= h) ==>
              (forall j :: 0 <= j < i ==> keys[j] < h) && (forall j :: i <= j < |keys| ==> keys[j] >= h)
    decreases hi - lo
  {
    if lo < hi then
      var mid := (lo + hi) / 2;
      if keys[mid] < h then SearchIn(keys, h, mid + 1, hi) else SearchIn(keys, h, lo, mid)
    else lo
  }

  /** `sort.Search(len(keys), keys[i] >= h)` (consistenthash.go:62-64):
      on a sorted ring, the number of positions below `h`, which is the
      index of the first position at or after `h`. */
  function Search(keys: seq<int>, h: int): (i: nat)
    ensures i <= |keys|
    ensures (forall j :: 0 <= j < |keys| ==> keys[j] < h) ==> i == |keys|
    ensures Sorted(keys) ==>
              (forall j :: 0 <= j < i ==> keys[j] < h) && (forall j :: i <= j < |keys| ==> keys[j] >= h)
  {
    SearchIn(keys, h, 0, |keys|)
  }

  // ---------------------------------------------------------------------
  // Building the ring

  /** `New` (consistenthash.go:20-33): an empty ring using `fn`, or the
      IEEE CRC-32 checksum when `fn` is nil. */
  function New(replicas: int, fn: Option<Hash>, checksumIEEE: Hash): (m: Map)
    ensures Valid(m) && m.keys == [] && m.hashMap == map[] && m.replicas == replicas
    ensures forall data :: m.hash(data) == if fn.Some? then fn.value(data) else checksumIEEE(data)
  {
    Map(if fn.Some? then fn.value else checksumIEEE, replicas, [], map[])
  }

  /** How many times the replica loop of `Add` runs per member. */
  function Replicas(m: Map): nat
  {
    if m.replicas < 0 then 0 else m.replicas
  }

  /** Ring position of virtual node `i` of `member`. */
  function Position(m: Map, member: string, i: nat): int
  {
    m.hash(Itoa(i) + member) as int
  }

  /** The first `n` virtual nodes of `member`, as (position, member), in the
      order `Add` creates them. */
  function MemberNodes(m: Map, member: string, n: nat): seq<(int, string)>
  {
    if n == 0 then [] else MemberNodes(m, member, n - 1) + [(Position(m, member, n - 1), member)]
  }

  /** All virtual nodes `Add(members...)` creates, in creation order. */
  function Nodes(m: Map, members: seq<string>): seq<(int, string)>
  {
    if members == [] then []
    else Nodes(m, members[..|members| - 1]) + MemberNodes(m, members[|members| - 1], Replicas(m))
  }

  function Positions(vs: seq<(int, string)>): seq<int>
  {
    if vs == [] then [] else Positions(vs[..|vs| - 1]) + [vs[|vs| - 1].0]
  }

  /** `hashMap[hash] = key` performed for each virtual node in turn. */
  function Assign(h: map<int, string>, vs: seq<(int, string)>): map<int, string>
  {
    if vs == [] then h else Assign(h, vs[..|vs| - 1])[vs[|vs| - 1].0 := vs[|vs| - 1].1]
  }

  /** The ring `Add(members...)` computes from `m`: every virtual node's
      position appended and the whole sorted, every owner recorded.
      In the Go source `Add` has a value receiver (consistenthash.go:36),
      so the `append` and the sort reach only the receiver's copy of
      `keys` while the writes to the shared `hashMap` persist; the model
      follows the comments at consistenthash.go:35, :42 and :48 and keeps
      the computed `keys`. */
  function Added(m: Map, members: seq<string>): Map
  {
    m.(keys := SortInts(m.keys + Positions(Nodes(m, members))),
       hashMap := Assign(m.hashMap, Nodes(m, members)))
  }

  lemma {:induction false} PositionsSnoc(vs: seq<(int, string)>, v: (int, string))
    ensures Positions(vs + [v]) == Positions(vs) + [v.0]
  {
    assert (vs + [v])[..|vs|] == vs;
  }

  lemma {:induction false} AssignSnoc(h: map<int, string>, vs: seq<(int, string)>, v: (int, string))
    ensures Assign(h, vs + [v]) == Assign(h, vs)[v.0 := v.1]
  {
    assert (vs + [v])[..|vs|] == vs;
  }

  lemma NodesSnoc(m: Map, members: seq<string>, j: nat)
    requires j < |members|
    ensures Nodes(m, members[..j + 1]) == Nodes(m, members[..j]) + MemberNodes(m, members[j], Replicas(m))
  {
    assert members[..j + 1][..j] == members[..j];
  }

  /** The replica loop of `Add` (consistenthash.go:39-46) for one member:
      one position appended and one owner recorded per virtual node. */
  method PlaceReplicas(m: Map, member: string, keys: seq<int>, hashMap: map<int, string>,
                       ghost done: seq<(int, string)>)
    returns (keys': seq<int>, hashMap': map<int, string>)
    requires keys == m.keys + Positions(done) && hashMap == Assign(m.hashMap, done)
    ensures keys' == m.keys + Positions(done + MemberNodes(m, member, Replicas(m)))
    ensures hashMap' == Assign(m.hashMap, done + MemberNodes(m, member, Replicas(m)))
  {
    keys', hashMap' := keys, hashMap;
    var i := 0;
    ghost var placed := done;
    assert done + MemberNodes(m, member, 0) == done;
    while i < m.replicas
      invariant 0 <= i <= Replicas(m)
      invariant placed == done + MemberNodes(m, member, i)
      invariant keys' == m.keys + Positions(placed)
      invariant hashMap' == Assign(m.hashMap, placed)
    {
      var hash := m.hash(Itoa(i) + member) as int;
      PositionsSnoc(placed, (hash, member));
      AssignSnoc(m.hashMap, placed, (hash, member));
      keys' := keys' + [hash];
      hashMap' := hashMap'[hash := member];
      placed := placed + [(hash, member)];
      i := i + 1;
    }
  }

  /** `Add` (consistenthash.go:36-50): the nested loops append one
      position per virtual node and record its owner; then the positions
      are sorted. */
  method Add(m: Map, members: seq<string>) returns (r: Map)
    ensures r == Added(m, members)
  {
    var keys := m.keys;
    var hashMap := m.hashMap;
    var j := 0;
    assert members[..0] == [];
    while j < |members|
      invariant 0 <= j <= |members|
      invariant keys == m.keys + Positions(Nodes(m, members[..j]))
      invariant hashMap == Assign(m.hashMap, Nodes(m, members[..j]))
    {
      keys, hashMap := PlaceReplicas(m, members[j], keys, hashMap, Nodes(m, members[..j]));
      NodesSnoc(m, members, j);
      j := j + 1;
    }
    assert members[..j] == members;
    r := m.(keys := SortInts(keys), hashMap := hashMap);
  }

  // ---------------------------------------------------------------------
  // Properties of Add

  lemma {:induction false} MemberNodesAt(m: Map, member: string, n: nat, i: nat)
    requires i < n
    ensures |MemberNodes(m, member, n)| == n
    ensures MemberNodes(m, member, n)[i] == (Position(m, member, i), member)
  {
    if i < n - 1 {
      MemberNodesAt(m, member, n - 1, i);
    } else if n > 1 {
      MemberNodesAt(m, member, n - 1, 0);
    }
  }

  lemma {:induction false} MemberNodesLength(m: Map, member: string, n: nat)
    ensures |MemberNodes(m, member, n)| == n
  {
    if n > 0 {
      MemberNodesLength(m, member, n - 1);
    }
  }

  lemma {:induction false} PositionsLength(vs: seq<(int, string)>)
    ensures |Positions(vs)| == |vs|
    ensures forall i :: 0 <= i < |vs| ==> Positions(vs)[i] == vs[i].0
  {
    if vs != [] {
      PositionsLength(vs[..|vs| - 1]);
    }
  }

  /** Every virtual node `Add` creates is among the nodes it places:
      replica `i` of member `j`, at position `hash(Itoa(i) + member)`. */
  lemma {:induction false} NodesContain(m: Map, members: seq<string>, j: nat, i: nat)
    requires j < |members| && i < Replicas(m)
    ensures (Position(m, members[j], i), members[j]) in Nodes(m, members)
  {
    var n := |members|;
    var front := members[..n - 1];
    var a, b := Nodes(m, front), MemberNodes(m, members[n - 1], Replicas(m));
    assert Nodes(m, members) == a + b;
    if j < n - 1 {
      NodesContain(m, front, j, i);
      assert front[j] == members[j];
    } else {
      MemberNodesAt(m, members[n - 1], Replicas(m), i);
    }
  }

  /** An empty member list adds nothing. */
  lemma {:induction false} NodesLength(m: Map, members: seq<string>)
    ensures |Nodes(m, members)| == |members| * Replicas(m)
  {
    if members != [] {
      NodesLength(m, members[..|members| - 1]);
      MemberNodesLength(m, members[|members| - 1], Replicas(m));
      assert (|members| - 1) * Replicas(m) + Replicas(m) == |members| * Replicas(m);
    }
  }

  /** After `Add` the positions are ascending and the ring grew by exactly
      `replicas * len(members)` positions, the old ones plus one per new
      virtual node. */
  lemma AddedRing(m: Map, members: seq<string>)
    ensures Sorted(Added(m, members).keys)
    ensures |Added(m, members).keys| == |m.keys| + |members| * Replicas(m)
    ensures multiset(Added(m, members).keys) == multiset(m.keys) + multiset(Positions(Nodes(m, members)))
  {
    var r := Added(m, members);
    NodesLength(m, members);
    PositionsLength(Nodes(m, members));
    assert |multiset(r.keys)| == |r.keys|;
  }

  lemma {:induction false} AssignDomain(h: map<int, string>, vs: seq<(int, string)>)
    ensures Assign(h, vs).Keys == h.Keys + set k | k in Positions(vs)
  {
    if vs != [] {
      var p := vs[..|vs| - 1];
      AssignDomain(h, p);
      PositionsSnoc(p, vs[|vs| - 1]);
      assert vs == p + [vs[|vs| - 1]];
    }
  }

  /** Collisions: the owner of a position is the member of the LAST virtual
      node placed there (consistenthash.go:45 overwrites). */
  lemma {:induction false} AssignLastWins(h: map<int, string>, vs: seq<(int, string)>, i: nat)
    requires i < |vs|
    requires forall j :: i < j < |vs| ==> vs[j].0 != vs[i].0
    ensures vs[i].0 in Assign(h, vs) && Assign(h, vs)[vs[i].0] == vs[i].1
  {
    if i < |vs| - 1 {
      AssignLastWins(h, vs[..|vs| - 1], i);
    }
  }

  /** Each owner recorded by `Add` was already an owner or is one of the
      added members. */
  lemma {:induction false} AssignOwners(h: map<int, string>, vs: seq<(int, string)>, members: seq<string>)
    requires forall j :: 0 <= j < |vs| ==> vs[j].1 in members
    ensures forall k :: k in Assign(h, vs) ==> Assign(h, vs)[k] in members || (k in h && Assign(h, vs)[k] == h[k])
  {
    if vs != [] {
      AssignOwners(h, vs[..|vs| - 1], members);
    }
  }

  lemma {:induction false} NodesOwners(m: Map, members: seq<string>)
    ensures forall j :: 0 <= j < |Nodes(m, members)| ==> Nodes(m, members)[j].1 in members
  {
    if members != [] {
      var front := members[..|members| - 1];
      var last := members[|members| - 1];
      NodesOwners(m, front);
      var a: seq<(int, string)>, b: seq<(int, string)> := Nodes(m, front), MemberNodes(m, last, Replicas(m));
      var ab: seq<(int, string)> := a + b;
      MemberNodesLength(m, last, Replicas(m));
      forall j: nat | j < |ab| ensures ab[j].1 in members {
        if j < |a| {
          assert a[j].1 in front;
        } else {
          MemberNodesAt(m, last, Replicas(m), j - |a|);
        }
      }
    }
  }

  /** `Add` keeps a ring well formed, and every owner in the new ring is
      an added member or was an owner before. */
  lemma AddedValid(m: Map, members: seq<string>)
    requires Valid(m)
    ensures Valid(Added(m, members))
    ensures forall k :: k in Added(m, members).hashMap ==>
              Added(m, members).hashMap[k] in members ||
              (k in m.hashMap && Added(m, members).hashMap[k] == m.hashMap[k])
  {
    var vs := Nodes(m, members);
    var r := Added(m, members);
    AssignDomain(m.hashMap, vs);
    NodesOwners(m, members);
    AssignOwners(m.hashMap, vs, members);
    forall k | k in r.keys ensures k in r.hashMap {
      assert k in multiset(r.keys);
      assert k in multiset(m.keys + Positions(vs));
      assert k in m.keys + Positions(vs);
    }
  }

  /** After `Add`, replica `i` of every added member sits on the ring at
      `hash(Itoa(i) + member)`, and the old positions are all still there. */
  lemma AddedContains(m: Map, members: seq<string>, j: nat, i: nat)
    requires j < |members| && i < Replicas(m)
    ensures Position(m, members[j], i) in Added(m, members).keys
    ensures forall k :: k in m.keys ==> k in Added(m, members).keys
  {
    var vs := Nodes(m, members);
    var r := Added(m, members);
    NodesContain(m, members, j, i);
    PositionsLength(vs);
    var x: (int, string) := (Position(m, members[j], i), members[j]);
    var q :| 0 <= q < |vs| && vs[q] == x;
    assert Positions(vs)[q] == x.0;
    assert x.0 in multiset(m.keys + Positions(vs));
    assert x.0 in multiset(r.keys);
    forall k | k in m.keys ensures k in r.keys {
      assert k in multiset(m.keys + Positions(vs));
      assert k in multiset(r.keys);
    }
  }

  // ---------------------------------------------------------------------
  // Looking a key up

  /** `m.hashMap[k]`, which is "" for a position without owner. */
  function Owner(m: Map, k: int): string
  {
    if k in m.hashMap then m.hashMap[k] else ""
  }

  /** `Get` (consistenthash.go:53-68): "" on an empty ring; otherwise the
      owner of the first position at or after the key's hash, wrapping to
      the first position when the hash is past every position. */
  function Get(m: Map, key: string): (r: string)
    ensures m.keys == [] ==> r == ""
    ensures Sorted(m.keys) ==>
              forall i :: (0 <= i < |m.keys| && m.keys[i] >= m.hash(key) as int &&
                           (i == 0 || m.keys[i - 1] < m.hash(key) as int)) ==> r == Owner(m, m.keys[i])
    ensures m.keys != [] && (forall i :: 0 <= i < |m.keys| ==> m.keys[i] < m.hash(key) as int) ==>
              r == Owner(m, m.keys[0])
  {
    if |m.keys| == 0 then ""
    else
      var hash := m.hash(key) as int;
      var index := Search(m.keys, hash);
      Wrap(index, |m.keys|);
      Owner(m, m.keys[index % |m.keys|])
  }

  /** On a well-formed ring every lookup answers an owner recorded in
      `hashMap`, or "" when the ring is empty. */
  lemma GetOwned(m: Map, key: string)
    ensures Valid(m) ==> Get(m, key) == "" || Get(m, key) in m.hashMap.Values
  {
    if Valid(m) && m.keys != [] {
      var index := Search(m.keys, m.hash(key) as int);
      var k := m.keys[index % |m.keys|];
      assert k in m.keys;
      assert m.hashMap[k] in m.hashMap.Values;
    }
  }

  /** `index % len(keys)` is `index` below the length and 0 at it. */
  lemma Wrap(i: nat, n: nat)
    requires 0 < n && i <= n
    ensures i % n == if i == n then 0 else i
  {
  }

  /** On a ring built by `Add` from an empty one, every lookup lands on one
      of the added members. */
  lemma GetFindsMember(m: Map, members: seq<string>, key: string)
    requires Valid(m) && m.hashMap == map[]
    requires members != [] && Replicas(m) > 0
    ensures Get(Added(m, members), key) in members
  {
    var r := Added(m, members);
    AddedValid(m, members);
    AddedRing(m, members);
    assert |r.keys| > 0 by {
      assert |members| * Replicas(m) > 0;
    }
    var hash := r.hash(key) as int;
    var index := Search(r.keys, hash);
    assert r.keys[index % |r.keys|] in r.keys;
  }
}
