/** The HTTP side of a cache node (cache/http.go): the pool that knows the
    peers and picks the one owning a key, the URL a peer is asked with,
    and the routing decision a node takes on an incoming request path.
    Sockets, headers and logging are not modelled; a response is a value. */
module Http {
  import opened Common
  import opened ByteViews
  import opened Groups
  import ConsistentHash

  /** `defaultBasePath` (cache/http.go:15). */
  const DefaultBasePath := "/cache/"

  /** `defaultReplicas` (cache/http.go:16). */
  const DefaultReplicas := 32

  const StatusOK := 200
  const StatusBadRequest := 400
  const StatusNotFound := 404
  const StatusInternalServerError := 500

  const OctetStream := "application/octet-stream"

  /** What a node does with a request: panic, answer with an error status
      and message (`http.Error`), or answer with a body. */
  datatype Response =
    | Panicked(message: string)
    | HttpError(status: int, message: string)
    | Body(status: int, contentType: string, body: seq<byte>)

  // ---------------------------------------------------------------------
  // Request paths

  predicate HasPrefix(s: string, prefix: string)
  {
    |prefix| <= |s| && s[..|prefix|] == prefix
  }

  /** `strings.SplitN(s, "/", 2)`: `[s]` when `s` has no '/', otherwise
      the text before the first '/' and everything after it. */
  function SplitN(s: string): (parts: seq<string>)
    ensures |parts| == 1 || |parts| == 2
    ensures |parts| == 2 <==> '/' in s
    ensures |parts| == 1 ==> parts[0] == s
    ensures |parts| == 2 ==> '/' !in parts[0] && parts[0] + "/" + parts[1] == s
  {
    if s == [] then [s]
    else if s[0] == '/' then ["", s[1..]]
    else
      var rest := SplitN(s[1..]);
      assert s == [s[0]] + s[1..];
      [[s[0]] + rest[0]] + rest[1..]
  }

  /** A path splits back into the parts it was joined from, whatever the
      second part holds, as long as the first has no '/'. */
  lemma {:induction false} SplitNJoin(a: string, b: string)
    requires '/' !in a
    ensures SplitN(a + "/" + b) == [a, b]
  {
    if a != [] {
      SplitNJoin(a[1..], b);
      assert (a + "/" + b)[1..] == a[1..] + "/" + b;
      assert [a[0]] + a[1..] == a;
    } else {
      assert (a + "/" + b)[1..] == b;
    }
  }

  /** Where `ServeHTTP` sends a request path, before any group is asked. */
  datatype Route =
    | Unexpected(path: string)
    | BadRequest
    | NoGroup(name: string)
    | Fetch(group: string, key: string)

  /** The routing of `ServeHTTP` (cache/http.go:42-64): a path outside
      `basePath` is unexpected; the rest is split at its first '/' into a
      group name and a key; the group must be registered. */
  function RouteRequest(basePath: string, path: string, groups: set<string>): (r: Route)
    ensures r.Unexpected? <==> !HasPrefix(path, basePath)
    ensures r == BadRequest <==> HasPrefix(path, basePath) && '/' !in path[|basePath|..]
    ensures r.Fetch? ==> r.group in groups && '/' !in r.group && path == basePath + r.group + "/" + r.key
    ensures r.NoGroup? ==> r.name !in groups && '/' !in r.name
  {
    if !HasPrefix(path, basePath) then Unexpected(path)
    else
      var parts := SplitN(path[|basePath|..]);
      if |parts| != 2 then BadRequest
      else if parts[0] !in groups then NoGroup(parts[0])
      else
        assert path == path[..|basePath|] + path[|basePath|..];
        Fetch(parts[0], parts[1])
  }

  /** The answer `ServeHTTP` gives without asking a group
      (cache/http.go:42-44, 52-55, 60-64). */
  function Refuse(r: Route): (resp: Response)
    requires !r.Fetch?
    ensures resp.Panicked? <==> r.Unexpected?
    ensures r.Unexpected? ==> resp.message == "HTTPPool serving unexpected path: " + r.path
    ensures r == BadRequest ==> resp == HttpError(StatusBadRequest, "bad request")
    ensures r.NoGroup? ==> resp == HttpError(StatusNotFound, "no such group: " + r.name)
  {
    match r
    case Unexpected(path) => Panicked("HTTPPool serving unexpected path: " + path)
    case BadRequest => HttpError(StatusBadRequest, "bad request")
    case NoGroup(name) => HttpError(StatusNotFound, "no such group: " + name)
  }

  /** A key may itself contain '/': only the first '/' after the base path
      separates the group from the key. */
  lemma KeyMayContainSlash(basePath: string, group: string, key: string, groups: set<string>)
    requires '/' !in group
    ensures RouteRequest(basePath, basePath + group + "/" + key, groups) ==
              if group in groups then Fetch(group, key) else NoGroup(group)
  {
    var path := basePath + group + "/" + key;
    assert path[..|basePath|] == basePath;
    assert path[|basePath|..] == group + "/" + key;
    SplitNJoin(group, key);
  }

  // ---------------------------------------------------------------------
  // The client side

  /** `HTTPGetter` (cache/http.go:77-79): the peer's address followed by
      the base path, e.g. "http://example.com/cache/". */
  datatype HTTPGetter = HTTPGetter(baseURL: string)

  /** The URL `HTTPGetter.Get` requests (cache/http.go:84-89), with
      `url.QueryEscape` as the parameter `escape`. */
  function RequestURL(h: HTTPGetter, group: string, key: string, escape: string -> string): (u: string)
    ensures HasPrefix(u, h.baseURL)
  {
    h.baseURL + escape(group) + "/" + escape(key)
  }

  /** A request from a getter built by `Set` reaches the right group and
      key on the peer, as raw path text: routing the path of the URL, taken
      as written, gives the escaped group name and key. `QueryEscape` never
      leaves a '/' in its output, which is what the precondition asks of
      `escape(group)`. The percent-decoding a Go server applies to the path
      before `ServeHTTP` sees it is not modelled. */
  lemma RequestReachesPeer(peer: string, basePath: string, group: string, key: string,
                           escape: string -> string, groups: set<string>)
    requires '/' !in escape(group) && escape(group) in groups
    ensures var u := RequestURL(HTTPGetter(peer + basePath), group, key, escape);
            HasPrefix(u, peer) &&
            RouteRequest(basePath, u[|peer|..], groups) == Fetch(escape(group), escape(key))
  {
    var u := RequestURL(HTTPGetter(peer + basePath), group, key, escape);
    assert u[|peer|..] == basePath + escape(group) + "/" + escape(key);
    KeyMayContainSlash(basePath, escape(group), escape(key), groups);
  }

  // ---------------------------------------------------------------------
  // The pool

  lemma AppendCancel(a: string, b: string, c: string)
    ensures a + c == b + c ==> a == b
  {
    if a + c == b + c {
      assert a == (a + c)[..|a|];
    }
  }

  /** `PickPeer`'s `(PeerGetter, bool)` pair; `None` is the nil getter. */
  datatype Picked = Picked(getter: Option<HTTPGetter>, ok: bool)

  /** The message of Go's nil-pointer panic. */
  const NilDereference := "invalid memory address or nil pointer dereference"

  /** `HTTPPool` (cache/http.go:19-25). `checksumIEEE` stands for
      `crc32.ChecksumIEEE`, the ring's default hash. */
  class HTTPPool {
    const self: string
    const basePath: string
    const checksumIEEE: ConsistentHash.Hash
    var peers: Option<ConsistentHash.Map>
    var httpGetters: map<string, HTTPGetter>

    /** Once `Set` has run: a well-formed ring whose every owner has a
        getter, each getter pointing at its peer's base path. */
    ghost predicate Valid()
      reads this
    {
      peers.Some? &&
      ConsistentHash.Valid(peers.value) &&
      (forall k :: k in peers.value.hashMap ==> peers.value.hashMap[k] in httpGetters) &&
      (forall p :: p in httpGetters ==> httpGetters[p].baseURL == p + basePath)
    }

    /** `NewHTTPPool` (cache/http.go:27-32): no ring and no getters yet. */
    constructor (self: string, checksumIEEE: ConsistentHash.Hash)
      ensures this.self == self && this.checksumIEEE == checksumIEEE
      ensures basePath == DefaultBasePath
      ensures peers == None && httpGetters == map[]
    {
      this.self := self;
      this.checksumIEEE := checksumIEEE;
      basePath := DefaultBasePath;
      peers := None;
      httpGetters := map[];
    }

    /** `Set` (cache/http.go:112-126): a fresh ring of `DefaultReplicas`
        virtual nodes per peer with the default hash, and a fresh getter
        map holding exactly the given peers. */
    method Set(members: seq<string>)
      modifies this
      ensures Valid()
      ensures peers == Some(ConsistentHash.Added(ConsistentHash.New(DefaultReplicas, None, checksumIEEE), members))
      ensures httpGetters.Keys == set p | p in members
      ensures forall p :: p in httpGetters ==> httpGetters[p] == HTTPGetter(p + basePath)
    {
      var ring := ConsistentHash.New(DefaultReplicas, None, checksumIEEE);
      ghost var empty := ring;
      ring := ConsistentHash.Add(ring, members);
      peers := Some(ring);
      var getters := map[];
      var j := 0;
      while j < |members|
        invariant 0 <= j <= |members|
        invariant forall p :: p in getters <==> p in members[..j]
        invariant forall p :: p in getters ==> getters[p] == HTTPGetter(p + basePath)
      {
        assert members[..j + 1] == members[..j] + [members[j]];
        getters := getters[members[j] := HTTPGetter(members[j] + basePath)];
        j := j + 1;
      }
      assert members[..j] == members;
      assert getters.Keys == set p | p in members;
      ConsistentHash.AddedValid(empty, members);
      assert forall k :: k in ring.hashMap ==> ring.hashMap[k] in getters by {
        forall k | k in ring.hashMap ensures ring.hashMap[k] in getters {
          assert ring.hashMap[k] in members;
        }
      }
      httpGetters := getters;
    }

    /** `PickPeer` (cache/http.go:129-139): the getter of the peer owning
        `key`, unless the ring gives no peer or gives this node itself.
        Before `Set` the ring is nil and the lookup panics. */
    function PickPeer(key: string): (r: Result<Picked>)
      reads this
      ensures r.Failure? <==> peers.None?
      ensures r.Success? ==>
                (r.value.ok <==> ConsistentHash.Get(peers.value, key) != "" &&
                                 ConsistentHash.Get(peers.value, key) != self)
      ensures r.Success? && !r.value.ok ==> r.value.getter == None
      ensures r.Success? && r.value.ok && Valid() ==>
                r.value.getter == Some(HTTPGetter(ConsistentHash.Get(peers.value, key) + basePath))
      ensures r.Success? && r.value.ok && Valid() ==> r.value.getter.value.baseURL != self + basePath
    {
      if peers.None? then Failure(Panic(NilDereference))
      else
        var peer := ConsistentHash.Get(peers.value, key);
        ConsistentHash.GetOwned(peers.value, key);
        AppendCancel(peer, self, basePath);
        if peer != "" && peer != self then
          Success(Picked(if peer in httpGetters then Some(httpGetters[peer]) else None, true))
        else Success(Picked(None, false))
    }

    /** `ServeHTTP` (cache/http.go:40-74) against the registry `reg`:
        routing first; a routed request asks the group with `Get` and
        answers 500 with the group's error or 200 with a copy of the
        view's bytes. Only the asked group may change: a miss loaded
        successfully is stored in its `mainCache`. */
    method ServeHTTP(reg: Registry, path: string) returns (resp: Response)
      requires forall n, k :: n in reg.groups && reg.groups[n].getter(k).Success? ==>
                 allocated(reg.groups[n].getter(k).value)
      modifies reg.groups.Values
      ensures var r := RouteRequest(basePath, path, old(reg.groups).Keys);
              !r.Fetch? ==> resp == Refuse(r) && unchanged(reg.groups.Values)
      ensures var r := RouteRequest(basePath, path, old(reg.groups).Keys);
              r.Fetch? && r.key == "" ==> resp == HttpError(StatusInternalServerError, KeyRequired.message)
      ensures var r := RouteRequest(basePath, path, old(reg.groups).Keys);
              r.Fetch? && r.key != "" && r.key in old(reg.groups[r.group].mainCache) ==>
                resp == Body(StatusOK, OctetStream, old(Contents(reg.groups[r.group].mainCache[r.key])))
      ensures var r := RouteRequest(basePath, path, old(reg.groups).Keys);
              r.Fetch? && r.key != "" && r.key !in old(reg.groups[r.group].mainCache) ==>
                var g := reg.groups[r.group];
                resp == (if g.getter(r.key).Failure? then HttpError(StatusInternalServerError, g.getter(r.key).error.message)
                         else Body(StatusOK, OctetStream, g.getter(r.key).value[..]))
      ensures var r := RouteRequest(basePath, path, old(reg.groups).Keys);
              r.Fetch? ==>
                forall n :: n in reg.groups && reg.groups[n] != reg.groups[r.group] ==> unchanged(reg.groups[n])
      ensures var r := RouteRequest(basePath, path, old(reg.groups).Keys);
              r.Fetch? && (r.key == "" || r.key in old(reg.groups[r.group].mainCache)) ==>
                unchanged(reg.groups[r.group])
      ensures var r := RouteRequest(basePath, path, old(reg.groups).Keys);
              r.Fetch? && r.key != "" && r.key !in old(reg.groups[r.group].mainCache) ==>
                var g := reg.groups[r.group];
                g.fetched == old(g.fetched) + [r.key] &&
                (g.getter(r.key).Failure? ==> g.mainCache == old(g.mainCache)) &&
                (g.getter(r.key).Success? ==>
                   r.key in g.mainCache && fresh(g.mainCache[r.key].b) &&
                   Contents(g.mainCache[r.key]) == g.getter(r.key).value[..] &&
                   (forall k :: k != r.key ==> (k in g.mainCache <==> k in old(g.mainCache))) &&
                   (forall k :: k != r.key && k in g.mainCache ==> g.mainCache[k] == old(g.mainCache)[k]))
    {
      var route := RouteRequest(basePath, path, reg.groups.Keys);
      if !route.Fetch? {
        return Refuse(route);
      }
      var g := reg.GetGroup(route.group).value;
      var view := g.Get(route.key);
      if view.Failure? {
        return HttpError(StatusInternalServerError, view.error.message);
      }
      var body := ByteSlice(view.value);
      return Body(StatusOK, OctetStream, body[..]);
    }
  }
}
