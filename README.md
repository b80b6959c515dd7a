# go-cache, modelled in Dafny

This project models the sequential core of go-cache. go-cache is a small
distributed key/value cache written in Go. A node keeps groups (named
namespaces). Each group answers lookups from its local store and loads
misses through a user-supplied getter. Nodes find the peer owning a key on
a consistent-hash ring and talk to each other over HTTP.

The model has five modules, one per source file, plus shared vocabulary in `Common`:

| file | module | models |
|---|---|---|
| `common.dfy` | `Common` | Go's `byte`, `uint32` and `error`, and the `(v, ok)` and `(v, err)` pairs as `Option` and `Result` |
| `lru.dfy` | `Lru` | `cache/algorithm/lru/lru.go` (see below) |
| `consistenthash.dfy` | `ConsistentHash` | `cache/consistenthash/consistenthash.go` (see below) |
| `byteview.dfy` | `ByteViews` | `byteview.go`: the view over an `array<byte>`; the defensive copies are stated with `fresh` |
| `group.dfy` | `Groups` | `cache/group.go`: class `Group` (get, load, getLocally, populate) and class `Registry` (the package's `groups` map) |
| `http.dfy` | `Http` | `cache/http.go` (see below) |

`lru.go` is modelled as class `Cache`:

- Its recency list is a sequence of entries, most recent first.
- Its element map is a map from key to value.
- Its `nBytes` counter is a field.
- Calls of `OnRemove` are recorded in a ghost log.
- The state after each operation is tied to functions of the old state (`Promote`, `Evict`, `Evicted`). Lemmas about those functions carry the properties.

`consistenthash.go` is modelled as the datatype `Map`:

- `Add` is a method with the source's nested loops. It computes the new ring.
- `Get` is a pure function using a bisection search.

`http.go` is modelled as:

- class `HTTPPool`, with `Set`, `PickPeer` and `ServeHTTP`;
- the routing of a request path as pure functions;
- the URL a peer is asked with.

Everything is sequential. A Go `panic` is a value:

- `Error.Panic` in a `Result`;
- `Response.Panicked` for `ServeHTTP`.

## Model

| member | source | states |
|---|---|---|
| Lru.Cache.constructor | cache/algorithm/lru/lru.go:30-37 | a new cache is empty (no entries, no keys, `nBytes` 0, nothing logged), keeps the budget and callback given, and is valid |
| Lru.Cache.Len | cache/algorithm/lru/lru.go:93-95 | the list length equals the number of keys in the map |
| Lru.Cache.Get | cache/algorithm/lru/lru.go:42-51 | a hit returns the stored value and moves that entry to the front, leaving map, byte count and log alone; a miss returns not-found and changes nothing |
| Lru.Cache.Remove | cache/algorithm/lru/lru.go:54-69 | on an empty list nothing changes; otherwise exactly the least recently used entry leaves list and map, `nBytes` drops by its key length plus value size, and it is reported to `OnRemove` iff a callback is set |
| Lru.Cache.Shrink | cache/algorithm/lru/lru.go:88-90 | the eviction loop leaves `Evict(entries)`, is then within budget (or unbounded), and reports the evicted entries back to front |
| Lru.Cache.Add | cache/algorithm/lru/lru.go:72-91 | the new list is the old one with the entry moved or pushed to the front, then evicted from the back; list and map stay a bijection, `nBytes` stays exact, and the budget holds afterwards |
| Lru.WithoutBytes | cache/algorithm/lru/lru.go:58-63 | unlinking one entry uncharges exactly its footprint and shortens the list by one |
| Lru.DistinctCount | cache/algorithm/lru/lru.go:93-95 | with distinct keys the list and its key set have the same size |
| Lru.ReplaceAccounting | cache/algorithm/lru/lru.go:73-80 | re-adding a present key keeps the entry count and key set, puts the entry in front with the new value, and changes the byte count by exactly new size minus old size |
| Lru.InsertAccounting | cache/algorithm/lru/lru.go:81-85 | adding a new key puts it in front of the unchanged list and charges key length plus value size |
| Lru.EvictShape | cache/algorithm/lru/lru.go:88-90 | eviction keeps a prefix (the most recent entries) within a non-zero budget, and removes the rest from the back in order |
| Lru.EvictMinimal | cache/algorithm/lru/lru.go:88-90 | eviction removes no more than needed: if anything was evicted, the budget is non-zero and keeping one more entry would exceed it |
| Lru.EvictStep | cache/algorithm/lru/lru.go:88-89 | one turn of the loop on an over-budget list removes its last entry |
| Lru.UnboundedNeverEvicts | cache/algorithm/lru/lru.go:88 | with budget 0 nothing is ever evicted |
| Lru.OversizedEntryEvictsAll | cache/algorithm/lru/lru.go:82-90 | an entry whose own footprint exceeds the budget is admitted and then evicted together with everything else |
| Lru.FittingEntrySurvives | cache/algorithm/lru/lru.go:82-90 | an entry that fits the budget survives its own `Add` at the front |
| Lru.PromoteIndexed | cache/algorithm/lru/lru.go:73-84 | moving or pushing an entry to the front updates list and map alike and changes the byte count by the right amount |
| Lru.DropLastIndexed | cache/algorithm/lru/lru.go:56-61 | unlinking the last entry and deleting its key keeps list and map in step |
| Lru.UnboundedScenario | algorithm/lru/lru_test.go:18-41 | with budget 0, adding key1→"1" and key2→"111" gives `nBytes` 12, and both keys then hit with their values |
| ConsistentHash.New | cache/consistenthash/consistenthash.go:20-33 | an empty, well-formed ring with the given replica count, hashing with `fn`, or with the IEEE CRC-32 when `fn` is nil |
| ConsistentHash.Itoa | cache/consistenthash/consistenthash.go:40-41 | `strconv.Itoa` of a replica number is a non-empty decimal numeral |
| ConsistentHash.ItoaRoundTrip | cache/consistenthash/consistenthash.go:40-41 | reading the numeral back gives the number |
| ConsistentHash.ReplicaNamesDistinct | cache/consistenthash/consistenthash.go:40-41 | distinct replica numbers give distinct virtual-node names for one member |
| ConsistentHash.Insert | cache/consistenthash/consistenthash.go:49 | insertion adds exactly one occurrence of the element |
| ConsistentHash.InsertSorted | cache/consistenthash/consistenthash.go:49 | insertion keeps a sorted sequence sorted |
| ConsistentHash.SortInts | cache/consistenthash/consistenthash.go:49 | `sort.Ints` yields an ascending permutation of its input |
| ConsistentHash.SearchIn | cache/consistenthash/consistenthash.go:62-64 | the bisection stays in range and, on sorted keys, splits them into those below `h` and those at or above it |
| ConsistentHash.Search | cache/consistenthash/consistenthash.go:62-64 | `sort.Search` on a sorted ring is the index of the first position at or after `h`, and the length when there is none |
| ConsistentHash.PlaceReplicas | cache/consistenthash/consistenthash.go:39-46 | the replica loop appends one position and records one owner per virtual node of the member, in order |
| ConsistentHash.Add | cache/consistenthash/consistenthash.go:36-50 | the nested loops and the sort compute `Added(m, members)`: all virtual-node positions appended and sorted, every owner recorded |
| ConsistentHash.NodesContain | cache/consistenthash/consistenthash.go:38-45 | replica `i` of every member is created, at position `hash(Itoa(i) + member)` |
| ConsistentHash.NodesLength | cache/consistenthash/consistenthash.go:38-39 | exactly `replicas` virtual nodes are created per member (none when `replicas` is not positive) |
| ConsistentHash.AddedRing | cache/consistenthash/consistenthash.go:38-49 | after `Add` the ring is sorted, grew by exactly `replicas × len(members)` positions, and holds the old positions plus one per new virtual node |
| ConsistentHash.AddedContains | cache/consistenthash/consistenthash.go:41-43 | after `Add` every replica position of every added member, and every old position, is on the ring |
| ConsistentHash.AssignLastWins | cache/consistenthash/consistenthash.go:45 | on a collision the owner of a position is the member of the last virtual node placed there |
| ConsistentHash.AssignOwners | cache/consistenthash/consistenthash.go:45 | every owner recorded is an added member or was already the owner |
| ConsistentHash.NodesOwners | cache/consistenthash/consistenthash.go:38-45 | every virtual node created belongs to one of the added members |
| ConsistentHash.AddedValid | cache/consistenthash/consistenthash.go:36-50 | `Add` keeps a ring well formed (sorted, every position has an owner), and every owner is an added member or a previous owner |
| ConsistentHash.Get | cache/consistenthash/consistenthash.go:53-68 | "" on an empty ring; on a sorted ring, the owner of the first position at or after the key's hash; the owner of `keys[0]` when the hash is past every position; pure, so repeated lookups agree |
| ConsistentHash.GetOwned | cache/consistenthash/consistenthash.go:67 | on a well-formed ring a lookup answers "" or a recorded owner |
| ConsistentHash.Wrap | cache/consistenthash/consistenthash.go:67 | `index % len(keys)` is `index` inside the ring and 0 one past its end |
| ConsistentHash.GetFindsMember | cache/consistenthash/consistenthash.go:53-67 | on a ring built by `Add` from an empty one with positive replicas, every lookup lands on an added member |
| ByteViews.Len | byteview.go:9-11 | the length of the view equals the number of bytes it holds and the length of its string form |
| ByteViews.Chars | byteview.go:18-20 | `string(b)` has one character per byte, carrying the byte's value |
| ByteViews.CharBytes | byteview.go:18-20 | converting a string of byte-valued characters back gives one byte per character |
| ByteViews.String | byteview.go:18-20 | the string form of a view has its bytes as characters |
| ByteViews.StringRoundTrip | byteview.go:18-20 | the string form loses nothing: converting it back gives the view's bytes |
| ByteViews.StringInjective | byteview.go:18-20 | two views have the same string form iff they hold the same bytes |
| ByteViews.CloneByte | byteview.go:23-28 | `cloneByte` returns a newly allocated buffer of the same length with the same bytes |
| ByteViews.ByteSlice | byteview.go:14-16 | `ByteSlice` returns a newly allocated buffer holding the view's bytes |
| ByteViews.ByteSliceIsDefensive | byteview.go:14-16 | writing into the buffer `ByteSlice` returned leaves the view unchanged |
| Groups.Group.constructor | cache/group.go:41-45 | a new group has the given name, budget and getter and an empty store |
| Groups.Group.PopulateCache | cache/group.go:94-96 | the store maps the key to the value, and the rest of the store is unchanged |
| Groups.Group.GetLocally | cache/group.go:81-92 | the getter is called once; its error is returned unchanged with the store untouched, or a fresh copy of its bytes is stored under the key and returned |
| Groups.Group.Load | cache/group.go:77-79 | loading is exactly the local load; there is no peer fetch |
| Groups.Group.Get | cache/group.go:62-75 | an empty key fails with "key is required" and changes nothing; a cached key returns the cached view without calling the getter; otherwise the outcome of the local load |
| Groups.Registry.constructor | cache/group.go:28-31 | the registry starts empty |
| Groups.Registry.GetGroup | cache/group.go:53-60 | the group registered under the name, or none when the name was never registered |
| Groups.Registry.NewGroup | cache/group.go:33-50 | a nil getter panics with "nil getter" and registers nothing; otherwise a new empty group is registered under the name, replacing an earlier one of that name, and all other names are unaffected |
| Http.SplitN | cache/http.go:51 | `SplitN(s, "/", 2)` has two parts iff `s` contains '/': the text before the first '/' and everything after it; otherwise it is `[s]` |
| Http.SplitNJoin | cache/http.go:51 | joining a '/'-free group name and any key with '/' splits back into exactly those two parts |
| Http.RouteRequest | cache/http.go:42-64 | a path outside the base path is unexpected; with no '/' after the base path it is a bad request; otherwise it names an unknown group, or a registered '/'-free group and the whole text after the first '/' as key |
| Http.Refuse | cache/http.go:42-64 | a path outside the base path panics with "HTTPPool serving unexpected path: " and the path; a bad request is answered 400 "bad request"; an unknown group is answered 404 "no such group: " and its name |
| Http.KeyMayContainSlash | cache/http.go:51-64 | a key may itself contain '/': the request reaches the group named before the first '/' with the whole rest as key |
| Http.RequestURL | cache/http.go:84-89 | the URL a peer is asked with starts with the getter's base URL |
| Http.RequestReachesPeer | cache/http.go:84-89 | on the peer, the path text of that URL, taken as written, routes to the escaped group name and the escaped key |
| Http.HTTPPool.constructor | cache/http.go:27-32 | a new pool has the default base path "/cache/", no ring and no getters |
| Http.HTTPPool.Set | cache/http.go:112-126 | the ring is replaced by a new one with 32 replicas per peer and the default hash; the getter map is replaced by one holding exactly the given peers, each with base URL peer + base path; the pool is then consistent |
| Http.HTTPPool.PickPeer | cache/http.go:129-139 | before `Set` the lookup panics; afterwards the answer is (getter, true) iff the ring yields a non-empty peer other than this node; that getter points at the peer's base path, never at this node's; in every other case it is (nil, false) |
| Http.HTTPPool.ServeHTTP | cache/http.go:40-74 | requests that are not routed are refused without touching any group; a routed request answers 500 with the group's error (including "key is required") or 200 with the bytes of the cached or freshly loaded value; no other group changes; an empty key or a hit leaves the asked group unchanged; a miss calls its getter once, and on success stores under the key a fresh view holding the getter's bytes, leaving every other key alone |

## Left out

- Network I/O is not modelled:
  - the HTTP request, status check and body read in `HTTPGetter.Get` (cache/http.go:91-108);
  - the header and body writes of `ServeHTTP`;
  - `HTTPPool.Log`.
  A response is a value, and only the URL `HTTPGetter.Get` builds is modelled.
- Four library routines become parameters or specifications:
  - `url.QueryEscape` is the parameter `escape`.
  - `crc32.ChecksumIEEE` is the parameter `checksumIEEE`.
  - `sort.Ints` is specified by an insertion sort (ascending permutation).
  - `sort.Search` is specified by a bisection (first index at or after the hash).
  - The library algorithms themselves are not part of this model.
- Locking (`sync.Mutex`, `sync.RWMutex`): all operations are sequential.
- `cache.go` has empty `add` and `get` bodies. A group's store is therefore modelled as a map from key to the view last added. Its byte budget `cacheBytes` is recorded but never enforced.
- `GetterFunc.Get` (cache/group.go:18-20) is left out. The getter is modelled directly as a function value, so the adapter would be the identity.
- main.go (flag parsing, server start-up, the demo database) is not part of this model.
- The body of the `OnRemove` callback is arbitrary user code. Each call is recorded in a ghost log instead.
- The registry is an explicit `Registry` object passed to `ServeHTTP`, not a package-level variable.
- Go strings are byte strings. Keys and strings are sequences of characters here, and `string(b)` gives one character per byte.
- `Hash` takes the key as a string, not as a `[]byte` of the same bytes.
- `PickPeer` returns the getter as a value. Sharing of the `*HTTPGetter` pointer is not modelled.
- Lru.Cache.Add: `nBytes` and `maxBytes` are Go `int64`, but the model uses unbounded integers, so overflow of the byte count is not modelled.
- Lru.Cache.constructor: requires `maxBytes >= 0`. With a negative budget the eviction loop at lru.go:88 never ends once the list is empty, because `Remove` on an empty list does nothing.
- ConsistentHash.Add: in the Go source `Add` has a value receiver (consistenthash.go:36), with three consequences:
  - the `append` at :43 and the sort at :49 change only the receiver's copy of `keys`;
  - the `hashMap` writes at :45 persist;
  - a ring filled by `Add`, as `HTTPPool.Set` does, keeps an empty `keys`, and its `Get` answers "".
  The model returns the ring that the comments at :35, :42 and :48 describe: the appended and sorted `keys`. It does not model the lost update.
- Groups.Group.Get, Groups.Group.Load and Groups.Group.GetLocally require that the getter's buffer is an allocated object. In Go every slice the getter returns is one; Dafny cannot know that about a function's result.
- Http.HTTPPool.ServeHTTP requires the same of every registered group's getter.
- Http.RequestReachesPeer: the lemma is about the raw path text of the URL. A Go server percent-decodes the path before `ServeHTTP` sees it, and that decoding is not modelled. As a result:
  - an escaped '/' in a key ("%2F") arrives at the peer as '/';
  - a space, which `QueryEscape` writes as '+', arrives as '+', because path decoding does not turn '+' back into a space.
