/** Dynamic entities: the published subnets as a join of tracked records and kernel addresses. */
module EntitySpec {
  import opened Libnl
  import opened Wrappers
  import opened Decimal

  /** A record of the dynamic_entities list (the only record type is an interface source). */
  datatype Info = Info(entity: string, family: Family, interface: string)

  /** An rtnl_addr; a family other than the two IP families is None. */
  datatype AddrObject = AddrObject(family: Option<Family>, ifindex: int, local: Option<Address>)

  /** The link cache and the address renderer. */
  datatype Env = Env(nameToIndex: string -> int, indexToName: int -> string, text: Address -> string)

  /** A path entity/subnets/leaf of the published store. */
  datatype Path = Path(entity: string, leaf: string)

  type Store = map<Path, string>

  function LeafName(env: Env, a: Address): string {
    "dynamic_" + env.text(a) + "_" + Digits(a.prefixLen)
  }

  function Value(env: Env, a: Address): string {
    env.text(a) + "/" + Digits(a.prefixLen)
  }

  /** apteryx_set: a missing value deletes the path. */
  function Set(store: Store, path: Path, value: Option<string>): Store {
    if value.Some? then store[path := value.value] else store - {path}
  }

  // ---------------------------------------------------------------- what the environment promises

  /** Cached addresses are complete and their interfaces have names that resolve back. */
  ghost predicate WellFormed(env: Env, x: AddrObject) {
    && x.family.Some? && x.local.Some? && x.ifindex != 0
    && env.indexToName(x.ifindex) != ""
    && env.nameToIndex(env.indexToName(x.ifindex)) == x.ifindex
  }

  ghost predicate EnvOk(env: Env) {
    && (forall n :: env.nameToIndex(n) != 0 ==> env.indexToName(env.nameToIndex(n)) == n)
    && (forall a, b :: env.text(a) == env.text(b) && a.prefixLen == b.prefixLen ==> a == b)
  }

  ghost predicate CacheOk(env: Env, cache: set<AddrObject>) {
    forall x :: x in cache ==> WellFormed(env, x)
  }

  // ---------------------------------------------------------------- the join

  /** The filter of the cache scan: family and interface index. */
  predicate Matches(env: Env, info: Info, x: AddrObject) {
    env.nameToIndex(info.interface) != 0
    && x.family == Some(info.family) && x.ifindex == env.nameToIndex(info.interface)
  }

  /** The filter of the address callback: family and interface name. */
  predicate MatchesByName(env: Env, info: Info, x: AddrObject) {
    x.family == Some(info.family) && env.indexToName(x.ifindex) == info.interface
  }

  lemma FiltersAgree(env: Env, info: Info, x: AddrObject)
    requires EnvOk(env) && WellFormed(env, x)
    ensures Matches(env, info, x) == MatchesByName(env, info, x)
  {
  }

  function PathOf(env: Env, entity: string, x: AddrObject): Path
    requires x.local.Some?
  {
    Path(entity, LeafName(env, x.local.value))
  }

  function ValueOf(env: Env, x: AddrObject): string
    requires x.local.Some?
  {
    Value(env, x.local.value)
  }

  /** The paths of one entity for a set of addresses. */
  function Paths(env: Env, entity: string, xs: set<AddrObject>): set<Path>
    requires forall x :: x in xs ==> x.local.Some?
  {
    set x | x in xs :: PathOf(env, entity, x)
  }

  /** The published store is exactly the join of records and cached addresses. */
  ghost predicate IsView(env: Env, store: Store, infos: seq<Info>, cache: set<AddrObject>)
    requires CacheOk(env, cache)
  {
    && (forall info, x :: info in infos && x in cache && Matches(env, info, x) ==>
          PathOf(env, info.entity, x) in store && store[PathOf(env, info.entity, x)] == ValueOf(env, x))
    && (forall p :: p in store ==> Wanted(env, p, infos, cache))
  }

  ghost predicate Wanted(env: Env, p: Path, infos: seq<Info>, cache: set<AddrObject>)
    requires CacheOk(env, cache)
  {
    exists info, x :: info in infos && x in cache && Matches(env, info, x) && p == PathOf(env, info.entity, x)
  }

  /** A path names one entity and one address. */
  lemma PathIsInjective(env: Env, e: string, x: AddrObject, f: string, y: AddrObject)
    requires EnvOk(env) && x.local.Some? && y.local.Some?
    requires PathOf(env, e, x) == PathOf(env, f, y)
    ensures e == f && x.local == y.local
  {
    var a, b := x.local.value, y.local.value;
    assert LeafName(env, a) == ("dynamic_" + env.text(a)) + ['_'] + Digits(a.prefixLen);
    assert LeafName(env, b) == ("dynamic_" + env.text(b)) + ['_'] + Digits(b.prefixLen);
    SplitLast("dynamic_" + env.text(a), "dynamic_" + env.text(b), Digits(a.prefixLen), Digits(b.prefixLen), '_');
    assert env.text(a) == ("dynamic_" + env.text(a))[8..] == ("dynamic_" + env.text(b))[8..] == env.text(b);
    ReadDigitsInverts(a.prefixLen);
    ReadDigitsInverts(b.prefixLen);
  }

  /** The join determines the store. */
  lemma ViewIsUnique(env: Env, a: Store, b: Store, infos: seq<Info>, cache: set<AddrObject>)
    requires CacheOk(env, cache) && IsView(env, a, infos, cache) && IsView(env, b, infos, cache)
    ensures a == b
  {
    forall p | p in a ensures p in b && a[p] == b[p] {
      assert Wanted(env, p, infos, cache);
    }
    forall p | p in b ensures p in a {
      assert Wanted(env, p, infos, cache);
    }
  }

  /** Text, separator and prefix length of an address. */
  predicate Names(env: Env, s: string, sep: char, a: Address) {
    Splits(s, sep, env.text(a), a.prefixLen)
  }

  /** Behind "dynamic_" the leaf reads as the address text and prefix length around the last underscore,
      and the value as the same two around the last slash. */
  predicate Publishes(env: Env, p: Path, value: string, entity: string, a: Address) {
    && p.entity == entity && "dynamic_" <= p.leaf
    && Names(env, p.leaf[8..], '_', a) && Names(env, value, '/', a)
  }

  lemma FourParts(p: string, t: string, sep: string, d: string)
    ensures p + t + sep + d == p + (t + sep + d) && p <= p + (t + sep + d)
    ensures (p + t + sep + d)[|p|..] == t + sep + d
  {
  }

  lemma {:induction false} AddressReadsBack(env: Env, entity: string, x: AddrObject)
    requires x.local.Some?
    ensures Publishes(env, PathOf(env, entity, x), ValueOf(env, x), entity, x.local.value)
  {
    var a := x.local.value;
    var leaf := env.text(a) + ['_'] + Digits(a.prefixLen);
    DigitsSplit(env.text(a), '_', a.prefixLen);
    DigitsSplit(env.text(a), '/', a.prefixLen);
    FourParts("dynamic_", env.text(a), ['_'], Digits(a.prefixLen));
    assert LeafName(env, a) == "dynamic_" + env.text(a) + ['_'] + Digits(a.prefixLen);
    assert |"dynamic_"| == 8;
    assert Value(env, a) == env.text(a) + ['/'] + Digits(a.prefixLen);
  }

  /** What a view stores for a match reads as the match's entity and address, in path and value. */
  lemma PublishedReadsBack(env: Env, store: Store, infos: seq<Info>, cache: set<AddrObject>, info: Info, x: AddrObject)
    requires CacheOk(env, cache) && IsView(env, store, infos, cache)
    requires info in infos && x in cache && Matches(env, info, x)
    ensures exists p :: p in store && Publishes(env, p, store[p], info.entity, x.local.value)
  {
    AddressReadsBack(env, info.entity, x);
    assert PathOf(env, info.entity, x) in store;
  }

  /** And nothing else is stored: every path and value reads as a match. */
  lemma EverythingReadsBack(env: Env, store: Store, infos: seq<Info>, cache: set<AddrObject>, p: Path)
    requires CacheOk(env, cache) && IsView(env, store, infos, cache) && p in store
    ensures exists info, x :: info in infos && x in cache && Matches(env, info, x)
                           && Publishes(env, p, store[p], info.entity, x.local.value)
  {
    assert Wanted(env, p, infos, cache);
    var info, x :| info in infos && x in cache && Matches(env, info, x) && p == PathOf(env, info.entity, x);
    AddressReadsBack(env, info.entity, x);
  }

  // ---------------------------------------------------------------- the effect of each callback

  function Matching(env: Env, info: Info, cache: set<AddrObject>): set<AddrObject> {
    set x | x in cache && Matches(env, info, x)
  }

  /** `after` is `before` with the paths `ps` added or removed, and no other path changed. */
  ghost predicate Edited(before: Store, after: Store, ps: set<Path>, deleted: bool) {
    && after.Keys == (if deleted then before.Keys - ps else before.Keys + ps)
    && (forall p :: p in after && p in before && p !in ps ==> after[p] == before[p])
  }

  lemma EditOne(start: Store, before: Store, ps: set<Path>, p: Path, value: Option<string>)
    requires Edited(start, before, ps, value.None?)
    ensures Edited(start, Set(before, p, value), ps + {p}, value.None?)
  {
  }

  /** `after` is `before` with the paths of `xs` under one entity published or removed. */
  ghost predicate Scanned(env: Env, before: Store, after: Store, entity: string, xs: set<AddrObject>, deleted: bool)
    requires forall x :: x in xs ==> x.local.Some?
  {
    && Edited(before, after, Paths(env, entity, xs), deleted)
    && (!deleted ==>
          forall x :: x in xs ==> PathOf(env, entity, x) in after && after[PathOf(env, entity, x)] == ValueOf(env, x))
  }

  lemma TrackKeepsView(env: Env, before: Store, after: Store, infos: seq<Info>, cache: set<AddrObject>, info: Info)
    requires EnvOk(env) && CacheOk(env, cache) && IsView(env, before, infos, cache)
    requires Scanned(env, before, after, info.entity, Matching(env, info, cache), false)
    ensures IsView(env, after, infos + [info], cache)
  {
    forall i, x | i in infos + [info] && x in cache && Matches(env, i, x)
      ensures PathOf(env, i.entity, x) in after && after[PathOf(env, i.entity, x)] == ValueOf(env, x)
    {
      var p := PathOf(env, i.entity, x);
      if i == info {
        assert x in Matching(env, info, cache);
      } else if p in Paths(env, info.entity, Matching(env, info, cache)) {
        var y :| y in Matching(env, info, cache) && p == PathOf(env, info.entity, y);
        PathIsInjective(env, i.entity, x, info.entity, y);
      }
    }
    forall p | p in after ensures Wanted(env, p, infos + [info], cache) {
      if p in before {
        assert Wanted(env, p, infos, cache);
      } else {
        var y :| y in Matching(env, info, cache) && p == PathOf(env, info.entity, y);
        assert info in infos + [info];
      }
    }
  }

  /** Some other record of the entity still needs an address that `info` matched. */
  ghost predicate StillNeeded(env: Env, infos: seq<Info>, cache: set<AddrObject>, gone: set<AddrObject>, entity: string)
    requires CacheOk(env, cache) && CacheOk(env, gone)
  {
    exists i, x, y :: i in infos && i.entity == entity && x in cache && Matches(env, i, x)
                   && y in gone && x.local == y.local
  }

  /** What dropping all records equal to `info` does: they leave the list and their matches are scanned out. */
  ghost predicate Untracked(env: Env, before: Store, after: Store, infos: seq<Info>, rest: seq<Info>,
                            cache: set<AddrObject>, info: Info)
    requires CacheOk(env, cache)
  {
    && info in infos && (forall i :: i in rest <==> i in infos && i != info)
    && Scanned(env, before, after, info.entity, Matching(env, info, cache), true)
  }

  lemma UntrackLosesNeeded(env: Env, before: Store, after: Store, infos: seq<Info>, rest: seq<Info>,
                           cache: set<AddrObject>, info: Info)
    requires EnvOk(env) && CacheOk(env, cache) && Untracked(env, before, after, infos, rest, cache, info)
    requires StillNeeded(env, rest, cache, Matching(env, info, cache), info.entity)
    ensures !IsView(env, after, rest, cache)
  {
    var gone := Matching(env, info, cache);
    var i, x, y :| i in rest && i.entity == info.entity && x in cache && Matches(env, i, x)
                && y in gone && x.local == y.local;
    assert PathOf(env, i.entity, x) == PathOf(env, info.entity, y);
  }

  lemma UntrackKeepsView(env: Env, before: Store, after: Store, infos: seq<Info>, rest: seq<Info>,
                         cache: set<AddrObject>, info: Info)
    requires EnvOk(env) && CacheOk(env, cache) && IsView(env, before, infos, cache)
    requires Untracked(env, before, after, infos, rest, cache, info)
    requires !StillNeeded(env, rest, cache, Matching(env, info, cache), info.entity)
    ensures IsView(env, after, rest, cache)
  {
    var gone := Matching(env, info, cache);
    forall i, x | i in rest && x in cache && Matches(env, i, x)
      ensures PathOf(env, i.entity, x) in after && after[PathOf(env, i.entity, x)] == ValueOf(env, x)
    {
      var p := PathOf(env, i.entity, x);
      if p in Paths(env, info.entity, gone) {
        var y :| y in gone && p == PathOf(env, info.entity, y);
        PathIsInjective(env, i.entity, x, info.entity, y);
      }
    }
    forall p | p in after ensures Wanted(env, p, rest, cache) {
      assert Wanted(env, p, infos, cache);
      var i, x :| i in infos && x in cache && Matches(env, i, x) && p == PathOf(env, i.entity, x);
      assert x in gone || i != info;
    }
  }

  /** Dropping all records equal to `info`: the store stays the join exactly when no remaining record
      of the entity matches an address that the dropped record matched too. */
  lemma UntrackKeepsViewIff(env: Env, before: Store, after: Store, infos: seq<Info>, rest: seq<Info>,
                            cache: set<AddrObject>, info: Info)
    requires EnvOk(env) && CacheOk(env, cache) && IsView(env, before, infos, cache)
    requires Untracked(env, before, after, infos, rest, cache, info)
    ensures IsView(env, after, rest, cache) <==> !StillNeeded(env, rest, cache, Matching(env, info, cache), info.entity)
  {
    if StillNeeded(env, rest, cache, Matching(env, info, cache), info.entity) {
      UntrackLosesNeeded(env, before, after, infos, rest, cache, info);
    } else {
      UntrackKeepsView(env, before, after, infos, rest, cache, info);
    }
  }

  /** `after` is `before` with the path of `x` set or deleted under every record that matches it. */
  ghost predicate Announced(env: Env, before: Store, after: Store, infos: seq<Info>, x: AddrObject, deleted: bool)
    requires x.local.Some?
  {
    var ps := set i | i in infos && MatchesByName(env, i, x) :: PathOf(env, i.entity, x);
    && Edited(before, after, ps, deleted)
    && (!deleted ==> forall p :: p in ps ==> p in after && after[p] == ValueOf(env, x))
  }

  lemma NewAddressKeepsView(env: Env, before: Store, after: Store, infos: seq<Info>, cache: set<AddrObject>,
                            x: AddrObject)
    requires EnvOk(env) && CacheOk(env, cache) && WellFormed(env, x) && IsView(env, before, infos, cache)
    requires Announced(env, before, after, infos, x, false)
    ensures IsView(env, after, infos, cache + {x})
  {
    forall i, y | i in infos && y in cache + {x} && Matches(env, i, y)
      ensures PathOf(env, i.entity, y) in after && after[PathOf(env, i.entity, y)] == ValueOf(env, y)
    {
      var p := PathOf(env, i.entity, y);
      FiltersAgree(env, i, y);
      if j :| j in infos && MatchesByName(env, j, x) && p == PathOf(env, j.entity, x) {
        PathIsInjective(env, i.entity, y, j.entity, x);
      }
    }
    forall p | p in after ensures Wanted(env, p, infos, cache + {x}) {
      if p in before {
        assert Wanted(env, p, infos, cache);
      } else {
        var j :| j in infos && MatchesByName(env, j, x) && p == PathOf(env, j.entity, x);
        FiltersAgree(env, j, x);
      }
    }
  }

  /** A record of the same entity still matches another cached object with the same address. */
  ghost predicate Shared(env: Env, infos: seq<Info>, cache: set<AddrObject>, x: AddrObject)
    requires CacheOk(env, cache) && WellFormed(env, x)
  {
    exists i, j, y :: i in infos && j in infos && i.entity == j.entity && Matches(env, i, x)
                   && y in cache - {x} && Matches(env, j, y) && y.local == x.local
  }

  /** Losing an address: the store stays the join exactly when no entity gets the same address from a
      second interface. */
  lemma DelAddressKeepsViewIff(env: Env, before: Store, after: Store, infos: seq<Info>, cache: set<AddrObject>,
                               x: AddrObject)
    requires EnvOk(env) && CacheOk(env, cache) && x in cache && IsView(env, before, infos, cache)
    requires Announced(env, before, after, infos, x, true)
    ensures IsView(env, after, infos, cache - {x}) <==> !Shared(env, infos, cache, x)
  {
    if Shared(env, infos, cache, x) {
      DelAddressLosesShared(env, before, after, infos, cache, x);
    } else {
      DelAddressKeepsRest(env, before, after, infos, cache, x);
      forall p | p in after ensures Wanted(env, p, infos, cache - {x}) {
        DelAddressKeepsWanted(env, before, after, infos, cache, x, p);
      }
    }
  }

  lemma DelAddressLosesShared(env: Env, before: Store, after: Store, infos: seq<Info>, cache: set<AddrObject>,
                              x: AddrObject)
    requires EnvOk(env) && CacheOk(env, cache) && WellFormed(env, x)
    requires Announced(env, before, after, infos, x, true) && Shared(env, infos, cache, x)
    ensures !IsView(env, after, infos, cache - {x})
  {
    var i, j, y :| i in infos && j in infos && i.entity == j.entity && Matches(env, i, x)
                   && y in cache - {x} && Matches(env, j, y) && y.local == x.local;
    FiltersAgree(env, i, x);
    assert PathOf(env, j.entity, y) == PathOf(env, i.entity, x);
    assert PathOf(env, i.entity, x) !in after;
  }

  lemma DelAddressKeepsWanted(env: Env, before: Store, after: Store, infos: seq<Info>, cache: set<AddrObject>,
                              x: AddrObject, p: Path)
    requires EnvOk(env) && CacheOk(env, cache) && x in cache && Wanted(env, p, infos, cache)
    requires Announced(env, before, after, infos, x, true) && p in after
    ensures Wanted(env, p, infos, cache - {x})
  {
    var j, y :| j in infos && y in cache && Matches(env, j, y) && p == PathOf(env, j.entity, y);
    FiltersAgree(env, j, y);
  }

  lemma DelAddressKeepsRest(env: Env, before: Store, after: Store, infos: seq<Info>, cache: set<AddrObject>,
                            x: AddrObject)
    requires EnvOk(env) && CacheOk(env, cache) && x in cache && IsView(env, before, infos, cache)
    requires Announced(env, before, after, infos, x, true) && !Shared(env, infos, cache, x)
    ensures forall j, y :: j in infos && y in cache - {x} && Matches(env, j, y) ==>
              PathOf(env, j.entity, y) in after && after[PathOf(env, j.entity, y)] == ValueOf(env, y)
  {
    forall j, y | j in infos && y in cache - {x} && Matches(env, j, y)
      ensures PathOf(env, j.entity, y) in after && after[PathOf(env, j.entity, y)] == ValueOf(env, y)
    {
      var p := PathOf(env, j.entity, y);
      if i :| i in infos && MatchesByName(env, i, x) && p == PathOf(env, i.entity, x) {
        PathIsInjective(env, j.entity, y, i.entity, x);
        FiltersAgree(env, i, x);
      }
    }
  }

  /** With no address on two interfaces, nothing is ever shared. */
  ghost predicate Unshared(cache: set<AddrObject>) {
    forall x, y :: x in cache && y in cache && x.local == y.local ==> x == y
  }

  lemma SameAddressSameRecord(env: Env, i: Info, info: Info, x: AddrObject)
    requires EnvOk(env) && Matches(env, i, x) && Matches(env, info, x) && i.entity == info.entity
    ensures i == info
  {
    assert env.indexToName(x.ifindex) == i.interface;
  }

  lemma UnsharedIsExact(env: Env, infos: seq<Info>, cache: set<AddrObject>, x: AddrObject, info: Info)
    requires EnvOk(env) && CacheOk(env, cache) && Unshared(cache)
    ensures x in cache ==> !Shared(env, infos, cache, x)
    ensures info !in infos ==> !StillNeeded(env, infos, cache, Matching(env, info, cache), info.entity)
  {
    if StillNeeded(env, infos, cache, Matching(env, info, cache), info.entity) {
      var i, a, b :| i in infos && i.entity == info.entity && a in cache && Matches(env, i, a)
                  && b in Matching(env, info, cache) && a.local == b.local;
      SameAddressSameRecord(env, i, info, a);
    }
  }
}
