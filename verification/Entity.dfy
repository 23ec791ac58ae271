/** entity/entity.c with its list and its published store changed in place, callbacks one at a time. */
module Entity {
  import opened Libnl
  import opened Wrappers
  import opened EntitySpec

  datatype Action = NEW | DEL | OTHER

  /** An address object the callback does not reject. */
  predicate Complete(env: Env, x: AddrObject) {
    x.family.Some? && x.local.Some? && x.ifindex != 0 && env.indexToName(x.ifindex) != ""
  }

  class Tracker {
    const env: Env
    /** dynamic_entities. */
    var infos: seq<Info>
    /** addr_cache, maintained by the library. */
    var cache: set<AddrObject>
    /** The subnets/dynamic_* paths. */
    var store: Store

    ghost predicate Valid()
      reads this
    {
      EnvOk(env) && CacheOk(env, cache) && IsView(env, store, infos, cache)
    }

    constructor (env: Env, cache: set<AddrObject>)
      requires EnvOk(env) && CacheOk(env, cache)
      ensures Valid() && infos == [] && this.cache == cache && store == map[] && this.env == env
    {
      this.env := env;
      infos, this.cache, store := [], cache, map[];
    }

    /** dynamic_enitity_add_del_address. */
    method AddDelAddress(x: AddrObject, info: Info, deleted: bool)
      requires x.local.Some?
      modifies this`store
      ensures store == Set(old(store), PathOf(env, info.entity, x), if deleted then None else Some(ValueOf(env, x)))
    {
      store := Set(store, PathOf(env, info.entity, x), if deleted then None else Some(ValueOf(env, x)));
    }

    /** dynamic_enitity_add_del_addresses: a scan of the cache, in any order. */
    method AddDelAddresses(info: Info, deleted: bool)
      requires EnvOk(env) && CacheOk(env, cache)
      modifies this`store
      ensures Scanned(env, old(store), store, info.entity, Matching(env, info, cache), deleted)
    {
      var ifindex := env.nameToIndex(info.interface);
      if ifindex == 0 {
        return;
      }
      var todo := cache;
      ghost var done: set<AddrObject> := {};
      while todo != {}
        invariant todo <= cache && done == Matching(env, info, cache - todo)
        invariant Scanned(env, old(store), store, info.entity, done, deleted)
        decreases |todo|
      {
        var x :| x in todo;
        MatchingOne(env, info, cache, todo, x);
        todo := todo - {x};
        if x.family == Some(info.family) && x.ifindex == ifindex {
          ghost var before := store;
          AddDelAddress(x, info, deleted);
          ScanOne(env, old(store), before, store, info.entity, done, x, deleted);
          done := done + {x};
        }
      }
      assert cache - todo == cache;
    }

    /** dynamic_enitity_interface_change, add: publishing the new record keeps the view exact. */
    method Track(info: Info)
      requires Valid()
      modifies this`infos, this`store
      ensures Valid() && infos == old(infos) + [info]
    {
      infos := infos + [info];
      AddDelAddresses(info, false);
      TrackKeepsView(env, old(store), store, old(infos), cache, info);
    }

    /** Unlinks one record and unpublishes what it matches. */
    method UnlinkAt(i: nat)
      requires EnvOk(env) && CacheOk(env, cache) && i < |infos|
      modifies this`infos, this`store
      ensures infos == old(infos)[..i] + old(infos)[i + 1..]
      ensures Scanned(env, old(store), store, old(infos)[i].entity, Matching(env, old(infos)[i], cache), true)
    {
      var info := infos[i];
      infos := infos[..i] + infos[i + 1..];
      AddDelAddresses(info, true);
    }

    method UnlinkAll(info: Info)
      requires EnvOk(env) && CacheOk(env, cache)
      modifies this`infos, this`store
      ensures infos == Without(old(infos), info)
      ensures if info in old(infos) then Scanned(env, old(store), store, info.entity, Matching(env, info, cache), true)
              else store == old(store)
    {
      var i := 0;
      ghost var kept: seq<Info>, rest := [], infos;
      ghost var found := false;
      assert kept + rest == infos && kept + Without(rest, info) == Without(infos, info);
      while i < |infos|
        invariant 0 <= i == |kept| && infos == kept + rest
        invariant kept + Without(rest, info) == Without(old(infos), info)
        invariant found || info in rest <==> info in old(infos)
        invariant if found then Scanned(env, old(store), store, info.entity, Matching(env, info, cache), true)
                  else store == old(store)
        decreases |rest|
      {
        NextRecord(kept, rest, info);
        if infos[i] == info {
          ghost var before := store;
          UnlinkAt(i);
          ScanAgain(env, old(store), before, store, info.entity, Matching(env, info, cache));
          found := true;
        } else {
          kept := kept + [infos[i]];
          i := i + 1;
        }
        rest := rest[1..];
      }
    }

    /** dynamic_enitity_interface_change, remove: every duplicate of the record goes at once. */
    method Untrack(info: Info)
      requires EnvOk(env) && CacheOk(env, cache)
      modifies this`infos, this`store
      ensures infos == Without(old(infos), info)
      ensures info in old(infos) ==> Untracked(env, old(store), store, old(infos), infos, cache, info)
      ensures info !in old(infos) ==> store == old(store) && infos == old(infos)
      ensures old(Valid()) ==>
                (Valid() <==> info !in old(infos) ||
                              !StillNeeded(env, infos, cache, Matching(env, info, cache), info.entity))
    {
      UnlinkAll(info);
      WithoutContents(old(infos), info);
      if info in old(infos) && old(Valid()) {
        UntrackKeepsViewIff(env, old(store), store, old(infos), infos, cache, info);
      }
    }

    /** watch_entities, for a path that parses: a value other than the interface name is refused. */
    method WatchEntities(info: Info, value: Option<string>) returns (ok: bool)
      requires Valid() && Unshared(cache)
      modifies this`infos, this`store
      ensures Valid() && ok == (value.None? || value.value == info.interface)
      ensures infos == (if !ok then old(infos)
                        else if value.Some? then old(infos) + [info]
                        else Without(old(infos), info))
    {
      if value.Some? && info.interface != value.value {
        return false;
      }
      if value.Some? {
        Track(info);
      } else {
        WithoutContents(infos, info);
        UnsharedIsExact(env, Without(infos, info), cache, AddrObject(None, 0, None), info);
        Untrack(info);
      }
      ok := true;
    }

    /** nl_addr_cb. */
    method AddressCallback(action: Action, x: AddrObject)
      modifies this`store
      ensures action == OTHER || !Complete(env, x) ==> store == old(store)
      ensures action != OTHER && Complete(env, x) ==>
                Announced(env, old(store), store, infos, x, action == DEL)
    {
      if action == OTHER {
        return;
      }
      var ifname := env.indexToName(x.ifindex);
      if x.family.None? || x.local.None? || x.ifindex == 0 || ifname == "" {
        return;
      }
      var i := 0;
      while i < |infos|
        invariant 0 <= i <= |infos|
        invariant Announced(env, old(store), store, infos[..i], x, action == DEL)
      {
        assert infos[..i + 1] == infos[..i] + [infos[i]];
        ghost var before := store;
        if x.family == Some(infos[i].family) && ifname == infos[i].interface {
          AddDelAddress(x, infos[i], action == DEL);
        }
        AnnounceOne(env, old(store), before, store, infos[..i], infos[i], x, action == DEL);
        i := i + 1;
      }
      assert infos[..i] == infos;
    }

    /** The kernel adds an address: the library caches it and calls back. */
    method AddressAdded(x: AddrObject)
      requires Valid() && WellFormed(env, x)
      modifies this`cache, this`store
      ensures Valid() && cache == old(cache) + {x}
    {
      cache := cache + {x};
      AddressCallback(NEW, x);
      NewAddressKeepsView(env, old(store), store, infos, old(cache), x);
    }

    /** The kernel drops an address. */
    method AddressRemoved(x: AddrObject)
      requires Valid() && x in cache
      modifies this`cache, this`store
      ensures cache == old(cache) - {x}
      ensures Valid() <==> !Shared(env, infos, old(cache), x)
    {
      cache := cache - {x};
      AddressCallback(DEL, x);
      DelAddressKeepsViewIff(env, old(store), store, infos, old(cache), x);
    }
  }

  /** A callback the daemon receives. */
  datatype Event = Tracked(info: Info) | Dropped(info: Info) | Added(x: AddrObject) | Removed(x: AddrObject)

  function InfosAfter(infos: seq<Info>, e: Event): seq<Info> {
    match e
    case Tracked(info) => infos + [info]
    case Dropped(info) => Without(infos, info)
    case _ => infos
  }

  function CacheAfter(cache: set<AddrObject>, e: Event): set<AddrObject> {
    match e
    case Added(x) => cache + {x}
    case Removed(x) => cache - {x}
    case _ => cache
  }

  /** Well-formed addresses, none of them ever on two interfaces. */
  ghost predicate EventsOk(env: Env, cache: set<AddrObject>, events: seq<Event>) {
    && (forall e :: e in events && e.Added? ==> WellFormed(env, e.x))
    && Unshared(cache + set e | e in events && e.Added? :: e.x)
  }

  function InfosAfterAll(infos: seq<Info>, events: seq<Event>): seq<Info>
    decreases |events|
  {
    if events == [] then infos else InfosAfterAll(InfosAfter(infos, events[0]), events[1..])
  }

  function CacheAfterAll(cache: set<AddrObject>, events: seq<Event>): set<AddrObject>
    decreases |events|
  {
    if events == [] then cache else CacheAfterAll(CacheAfter(cache, events[0]), events[1..])
  }

  method DeliverOne(t: Tracker, e: Event)
    requires t.Valid() && Unshared(t.cache) && (e.Added? ==> WellFormed(t.env, e.x))
    modifies t
    ensures t.Valid()
    ensures t.infos == InfosAfter(old(t.infos), e) && t.cache == CacheAfter(old(t.cache), e)
  {
    match e {
      case Tracked(info) =>
        t.Track(info);
      case Dropped(info) =>
        UnsharedIsExact(t.env, Without(t.infos, info), t.cache, AddrObject(None, 0, None), info);
        WithoutContents(t.infos, info);
        t.Untrack(info);
      case Added(x) =>
        t.AddressAdded(x);
      case Removed(x) =>
        if x in t.cache {
          UnsharedIsExact(t.env, t.infos, t.cache, x, Info("", INET, ""));
          t.AddressRemoved(x);
        } else {
          assert t.cache - {x} == t.cache;
        }
    }
  }

  /** One callback at a time: after any run the published store is the join of the records and the
      addresses that run leaves. */
  method Deliver(t: Tracker, events: seq<Event>)
    requires t.Valid() && EventsOk(t.env, t.cache, events)
    modifies t
    ensures t.Valid()
    ensures t.infos == InfosAfterAll(old(t.infos), events) && t.cache == CacheAfterAll(old(t.cache), events)
  {
    var i := 0;
    ghost var seen := t.cache + set e | e in events && e.Added? :: e.x;
    assert events[0..] == events;
    while i < |events|
      invariant 0 <= i <= |events| && t.Valid() && t.cache <= seen
      invariant InfosAfterAll(t.infos, events[i..]) == InfosAfterAll(old(t.infos), events)
      invariant CacheAfterAll(t.cache, events[i..]) == CacheAfterAll(old(t.cache), events)
      decreases |events| - i
    {
      assert events[i..][1..] == events[i + 1..] && events[i] in events;
      DeliverOne(t, events[i]);
      i := i + 1;
    }
  }

  function Without(infos: seq<Info>, info: Info): seq<Info> {
    if infos == [] then []
    else if infos[0] == info then Without(infos[1..], info)
    else [infos[0]] + Without(infos[1..], info)
  }

  lemma {:induction false} NextRecord(kept: seq<Info>, rest: seq<Info>, info: Info)
    requires rest != []
    ensures var all, i := kept + rest, |kept|;
            && all[i] == rest[0] && all[..i] + all[i + 1..] == kept + rest[1..]
            && all == kept + [rest[0]] + rest[1..]
            && kept + Without(rest, info) ==
                 (if rest[0] == info then kept else kept + [rest[0]]) + Without(rest[1..], info)
            && (info in rest <==> rest[0] == info || info in rest[1..])
  {
    assert rest == [rest[0]] + rest[1..];
  }

  lemma {:induction false} WithoutContents(infos: seq<Info>, info: Info)
    ensures forall i :: i in Without(infos, info) <==> i in infos && i != info
    ensures info !in infos ==> Without(infos, info) == infos
  {
    if infos != [] {
      WithoutContents(infos[1..], info);
      assert infos == [infos[0]] + infos[1..];
    }
  }

  lemma MatchingOne(env: Env, info: Info, cache: set<AddrObject>, todo: set<AddrObject>, x: AddrObject)
    requires x in todo && todo <= cache
    ensures Matching(env, info, cache - (todo - {x})) ==
              Matching(env, info, cache - todo) + if Matches(env, info, x) then {x} else {}
  {
    assert cache - (todo - {x}) == cache - todo + {x};
  }

  lemma PathsAdd(env: Env, entity: string, done: set<AddrObject>, x: AddrObject)
    requires x.local.Some? && forall y :: y in done ==> y.local.Some?
    ensures Paths(env, entity, done + {x}) == Paths(env, entity, done) + {PathOf(env, entity, x)}
  {
  }

  lemma PublishKeeps(env: Env, before: Store, entity: string, x: AddrObject, y: AddrObject)
    requires EnvOk(env) && x.local.Some? && y.local.Some?
    requires y == x || (PathOf(env, entity, y) in before && before[PathOf(env, entity, y)] == ValueOf(env, y))
    ensures var after := before[PathOf(env, entity, x) := ValueOf(env, x)];
            PathOf(env, entity, y) in after && after[PathOf(env, entity, y)] == ValueOf(env, y)
  {
    if PathOf(env, entity, y) == PathOf(env, entity, x) {
      PathIsInjective(env, entity, y, entity, x);
    }
  }

  lemma ScanOne(env: Env, start: Store, before: Store, after: Store, entity: string, done: set<AddrObject>,
                x: AddrObject, deleted: bool)
    requires EnvOk(env) && x.local.Some? && forall y :: y in done ==> y.local.Some?
    requires Scanned(env, start, before, entity, done, deleted)
    requires after == Set(before, PathOf(env, entity, x), if deleted then None else Some(ValueOf(env, x)))
    ensures Scanned(env, start, after, entity, done + {x}, deleted)
  {
    EditOne(start, before, Paths(env, entity, done), PathOf(env, entity, x),
        if deleted then None else Some(ValueOf(env, x)));
    PathsAdd(env, entity, done, x);
    if !deleted {
      forall y | y in done + {x}
        ensures PathOf(env, entity, y) in after && after[PathOf(env, entity, y)] == ValueOf(env, y)
      {
        PublishKeeps(env, before, entity, x, y);
      }
    }
  }

  lemma ScanAgain(env: Env, start: Store, before: Store, after: Store, entity: string, xs: set<AddrObject>)
    requires forall y :: y in xs ==> y.local.Some?
    requires before == start || Scanned(env, start, before, entity, xs, true)
    requires Scanned(env, before, after, entity, xs, true)
    ensures Scanned(env, start, after, entity, xs, true)
  {
  }

  lemma AnnounceOne(env: Env, start: Store, before: Store, after: Store, infos: seq<Info>, info: Info, x: AddrObject,
                    deleted: bool)
    requires x.local.Some? && Announced(env, start, before, infos, x, deleted)
    requires after == if MatchesByName(env, info, x)
                      then Set(before, PathOf(env, info.entity, x), if deleted then None else Some(ValueOf(env, x)))
                      else before
    ensures Announced(env, start, after, infos + [info], x, deleted)
  {
    var ps := set i | i in infos && MatchesByName(env, i, x) :: PathOf(env, i.entity, x);
    var qs := set i | i in infos + [info] && MatchesByName(env, i, x) :: PathOf(env, i.entity, x);
    EditOne(start, before, ps, PathOf(env, info.entity, x), if deleted then None else Some(ValueOf(env, x)));
    assert qs == if MatchesByName(env, info, x) then ps + {PathOf(env, info.entity, x)} else ps;
  }
}
