/** A named cache namespace and the process-wide registry of them
    (cache/group.go). A group answers `Get` from its local store and, on a
    miss, loads the value through its getter, copies it and stores it. */
module Groups {
  import opened Common
  import opened ByteViews

  /** `Getter` (cache/group.go:10-12): the user's loader for a key, giving
      the source bytes or an error. */
  type Getter = string -> Result<array<byte>>

  /** The error `Get` reports for an empty key (cache/group.go:64). */
  const KeyRequired := Error("key is required")

  /** The panic `NewGroup` raises for a nil getter (cache/group.go:35). */
  const NilGetter := Panic("nil getter")

  /** `Group` (cache/group.go:22-26). `mainCache` is the store: the value
      last added under each key. `fetched` records the keys the getter was
      called with, so that "the getter is not called" can be stated. */
  class Group {
    const name: string
    const getter: Getter
    const cacheBytes: int
    var mainCache: map<string, ByteView>
    ghost var fetched: seq<string>

    /** The struct literal of cache/group.go:41-45. */
    constructor (name: string, cacheBytes: int, getter: Getter)
      ensures this.name == name && this.cacheBytes == cacheBytes && this.getter == getter
      ensures mainCache == map[] && fetched == []
    {
      this.name := name;
      this.cacheBytes := cacheBytes;
      this.getter := getter;
      mainCache := map[];
      fetched := [];
    }

    /** `populateCache` (cache/group.go:94-96): store `value` under `key`. */
    method PopulateCache(key: string, value: ByteView)
      modifies this
      ensures mainCache == old(mainCache)[key := value]
      ensures fetched == old(fetched)
    {
      mainCache := mainCache[key := value];
    }

    /** `getLocally` (cache/group.go:81-92): call the getter once; pass its
        error on untouched, or store and return a private copy of its
        bytes. */
    method GetLocally(key: string) returns (r: Result<ByteView>)
      requires getter(key).Success? ==> allocated(getter(key).value)
      modifies this
      ensures fetched == old(fetched) + [key]
      ensures getter(key).Failure? ==>
                r == Failure(getter(key).error) && mainCache == old(mainCache)
      ensures getter(key).Success? ==>
                r.Success? && fresh(r.value.b) &&
                Contents(r.value) == getter(key).value[..] &&
                mainCache == old(mainCache)[key := r.value]
    {
      fetched := fetched + [key];
      var res := getter(key);
      if res.Failure? {
        return Failure(res.error);
      }
      var bytes := CloneByte(res.value);
      var value := ByteView(bytes);
      PopulateCache(key, value);
      return Success(value);
    }

    /** `load` (cache/group.go:77-79): only the local getter; this
        version of the package has no peer fetch. */
    method Load(key: string) returns (r: Result<ByteView>)
      requires getter(key).Success? ==> allocated(getter(key).value)
      modifies this
      ensures fetched == old(fetched) + [key]
      ensures getter(key).Failure? ==>
                r == Failure(getter(key).error) && mainCache == old(mainCache)
      ensures getter(key).Success? ==>
                r.Success? && fresh(r.value.b) &&
                Contents(r.value) == getter(key).value[..] &&
                mainCache == old(mainCache)[key := r.value]
    {
      r := GetLocally(key);
    }

    /** `Get` (cache/group.go:62-75): an empty key is refused and a cached
        key is answered from the store, both without calling the getter;
        any other key is loaded. */
    method Get(key: string) returns (r: Result<ByteView>)
      requires getter(key).Success? ==> allocated(getter(key).value)
      modifies this
      ensures key == "" ==> r == Failure(KeyRequired) && unchanged(this)
      ensures key != "" && key in old(mainCache) ==>
                r == Success(old(mainCache)[key]) && unchanged(this)
      ensures key != "" && key !in old(mainCache) ==> fetched == old(fetched) + [key]
      ensures key != "" && key !in old(mainCache) && getter(key).Failure? ==>
                r == Failure(getter(key).error) && mainCache == old(mainCache)
      ensures key != "" && key !in old(mainCache) && getter(key).Success? ==>
                r.Success? && fresh(r.value.b) &&
                Contents(r.value) == getter(key).value[..] &&
                mainCache == old(mainCache)[key := r.value]
    {
      if key == "" {
        return Failure(KeyRequired);
      }
      if key in mainCache {
        return Success(mainCache[key]);
      }
      r := Load(key);
    }
  }

  /** The package-level `groups` map (cache/group.go:28-31). */
  class Registry {
    var groups: map<string, Group>

    constructor ()
      ensures groups == map[]
    {
      groups := map[];
    }

    /** `GetGroup` (cache/group.go:53-60): the group registered under
        `name`, `None` standing for the nil pointer. */
    function GetGroup(name: string): (g: Option<Group>)
      reads this
      ensures g.Some? <==> name in groups
      ensures g.Some? ==> g.value == groups[name]
    {
      if name in groups then Some(groups[name]) else None
    }

    /** `NewGroup` (cache/group.go:33-50): panics on a nil getter;
        otherwise registers a new, empty group under `name`, replacing any
        earlier group of that name and leaving the others alone. */
    method NewGroup(name: string, cacheBytes: int, getter: Option<Getter>) returns (r: Result<Group>)
      modifies this
      ensures getter.None? ==> r == Failure(NilGetter) && groups == old(groups)
      ensures getter.Some? ==>
                r.Success? && fresh(r.value) &&
                r.value.name == name && r.value.getter == getter.value &&
                r.value.cacheBytes == cacheBytes && r.value.mainCache == map[]
      ensures getter.Some? ==> GetGroup(name) == Some(r.value)
      ensures getter.Some? ==> forall n :: n != name ==> GetGroup(n) == old(GetGroup(n))
    {
      if getter.None? {
        return Failure(NilGetter);
      }
      var g := new Group(name, cacheBytes, getter.value);
      groups := groups[name := g];
      return Success(g);
    }
  }
}
