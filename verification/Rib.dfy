/** iprouting/rib.c on route objects that are shared and edited in place.

    Every method is proved to compute the functions of RibSpec, whose properties over runs are in
    RibAgreement, RibRefinement, RibExact and RibReplay. */
module Rib {
  import opened Bits
  import opened Libnl
  import opened RibSpec
  import opened RibAgreement
  import opened RibRefinement
  import opened RibReplay
  import opened Wrappers

  /** An rtnl_route with its reference count; 0 means released. */
  class RouteObject {
    const family: Family
    var dst: Option<Address>
    var nexthops: seq<Nexthop>
    var priority: uint32
    var refs: nat

    ghost function Value(): Route
      reads this
    {
      Route(family, RT_TABLE_MAIN, RTPROT_STATIC, dst, nexthops, priority)
    }

    constructor Alloc(family: int)
      ensures refs == 1 && Value() == DefaultRoute(family)
    {
      this.family := FamilyOf(family);
      dst, nexthops, priority, refs := None, [], 0, 1;
    }

    constructor Clone(from: RouteObject)
      requires from.refs > 0
      ensures refs == 1 && Value() == from.Value()
    {
      family, dst, nexthops, priority, refs := from.family, from.dst, from.nexthops, from.priority, 1;
    }

    method Put()
      requires refs > 0
      modifies this`refs
      ensures refs == old(refs) - 1
    {
      refs := refs - 1;
    }

    predicate Valid()
      reads this
      ensures Valid() == RouteValid(Value())
    {
      dst.Some? && nexthops != []
    }

    method RemoveNexthop()
      requires nexthops != []
      modifies this`nexthops
      ensures nexthops == old(nexthops)[1..]
    {
      nexthops := nexthops[1..];
    }

    method AddNexthop(nh: Nexthop)
      modifies this`nexthops
      ensures nexthops == old(nexthops) + [nh]
    {
      nexthops := nexthops + [nh];
    }
  }

  /** rtnl_route_nh_compare dereferences what it is given, so the two may not both be missing;
      the callers only reach it with both missing or both present. */
  predicate NexthopsDiffer(before: Option<Nexthop>, after: Option<Nexthop>)
    requires before.Some? || after.Some?
  {
    before.None? || after.None? || before.value != after.value
  }

  method ParseParameter(env: Env, rr: RouteObject, index: int, parameter: Leaf, value: Option<string>, track: bool)
    returns (ok: bool, changed: bool)
    requires rr.refs > 0
    requires track && value.None? && (parameter == Gateway || parameter == Ifname) ==> rr.nexthops != []
    modifies rr`dst, rr`nexthops, rr`priority
    ensures ok <==> Parse(env, old(rr.Value()), index, parameter, value).Some?
    ensures rr.Value() == if ok then Parse(env, old(rr.Value()), index, parameter, value).value else old(rr.Value())
    ensures |old(rr.nexthops)| <= 1 ==> (changed <==> track && rr.Value() != old(rr.Value()))
  {
    ok, changed := true, false;
    match parameter
    case Id =>
      if value.Some? && !IdMatches(env, value.value, index) {
        return false, false;
      }
    case Prefix =>
      if value.None? {
        return false, false;
      }
      var addr := env.parseAddress(value.value, rr.family);
      if addr.None? {
        return false, false;
      }
      if track && (rr.dst.None? || rr.dst.value != addr.value) {
        changed := true;
      }
      rr.dst := addr;
    case Gateway =>
      ok, changed := SetNexthop(env, rr, parameter, value, track);
    case Ifname =>
      ok, changed := SetNexthop(env, rr, parameter, value, track);
    case Distance =>
      var distance: uint32 := 0;
      if value.Some? {
        distance := Number(env, value.value);
        if distance < 1 || distance > 65536 {
          return false, false;
        }
      }
      DistanceBits(rr.priority, distance);
      var prio := And(rr.priority, 0x0000_FFFF);
      prio := Or(prio, distance * 0x1_0000 % WORD);
      if track && prio != rr.priority {
        changed := true;
      }
      rr.priority := prio;
    case Metric =>
      var metric: uint32 := 0;
      if value.Some? {
        metric := Number(env, value.value);
        if metric < 1 || metric > 65536 {
          return false, false;
        }
      }
      MetricBits(rr.priority, metric);
      var prio := And(rr.priority, 0xFFFF_0000);
      prio := Or(prio, metric);
      if track && rr.priority != prio {
        changed := true;
      }
      rr.priority := prio;
    case Protocol =>
      if value.Some? && value.value != "static" {
        return false, false;
      }
    case Other(_) =>
  }

  /** The nexthop and ifname cases: both replace the one nexthop of the route. */
  method SetNexthop(env: Env, rr: RouteObject, parameter: Leaf, value: Option<string>, track: bool)
    returns (ok: bool, changed: bool)
    requires rr.refs > 0 && (parameter == Gateway || parameter == Ifname)
    requires track && value.None? ==> rr.nexthops != []
    modifies rr`nexthops
    ensures ok <==> ParseNexthop(env, rr.family, parameter, value).Some?
    ensures rr.Value() ==
              if ok then ReplaceNexthop(old(rr.Value()), ParseNexthop(env, rr.family, parameter, value).value)
              else old(rr.Value())
    ensures |old(rr.nexthops)| <= 1 ==> (changed <==> track && rr.Value() != old(rr.Value()))
  {
    ok, changed := true, false;
    var before := FirstNexthop(Route(rr.family, 0, 0, rr.dst, rr.nexthops, rr.priority));
    var nh: Option<Nexthop> := None;
    if value.Some? {
      if parameter == Gateway {
        var addr := env.parseAddress(value.value, rr.family);
        if addr.None? {
          return false, false;
        }
        nh := Some(Nexthop(addr, 0));
      } else {
        var ifindex := env.nameToIndex(value.value);
        if ifindex == 0 {
          return false, false;
        }
        nh := Some(Nexthop(None, ifindex));
      }
    }
    if track {
      changed := NexthopsDiffer(before, nh);
    }
    if before.Some? {
      rr.RemoveNexthop();
    }
    if nh.Some? {
      rr.AddNexthop(nh.value);
    }
  }

  /** apteryx_to_route: null when a leaf is rejected, and then the partly built route is released. */
  method ApteryxToRoute(env: Env, family: int, index: int, tree: Tree) returns (result: RouteObject?)
    ensures result == null <==> Rebuild(env, family, index, tree).None?
    ensures result != null ==>
              fresh(result) && result.refs == 1 && result.Value() == Rebuild(env, family, index, tree).value
  {
    var rr := new RouteObject.Alloc(family);
    var i := 0;
    assert tree[i..] == tree;
    while i < |tree|
      invariant 0 <= i <= |tree| && rr.refs == 1
      invariant ParseAll(env, rr.Value(), index, tree[i..]) == Rebuild(env, family, index, tree)
    {
      assert tree[i..][1..] == tree[i + 1..];
      var ok, _ := ParseParameter(env, rr, index, tree[i].0, Some(tree[i].1), false);
      if !ok {
        rr.Put();
        return null;
      }
      i := i + 1;
    }
    result := rr;
  }

  class Daemon {
    const env: Env
    /** v4_static_routes and v6_static_routes. */
    var routes: map<Slot, RouteObject>
    var kernel: set<Route>
    var requests: seq<Request>
    ghost var foreign: set<Route>

    ghost function Abs(): State
      reads this, routes.Values
    {
      State(map slot | slot in routes :: routes[slot].Value(), kernel, foreign, requests)
    }

    /** Every stored route is live and owned by one index. */
    ghost predicate Owned()
      reads this, routes.Values
    {
      && (forall slot :: slot in routes ==> routes[slot].refs == 1)
      && (forall a, b :: a in routes && b in routes && a != b ==> routes[a] != routes[b])
    }

    ghost predicate Valid()
      reads this, routes.Values
    {
      Owned() && Agreement(env, Abs())
    }

    constructor (env: Env, kernel: set<Route>)
      requires NoConflict(env, kernel)
      ensures Valid() && Abs() == Initial(kernel) && this.env == env
    {
      this.env := env;
      routes, requests := map[], [];
      this.kernel, foreign := kernel, kernel;
    }

    method RouteAdd(slot: Slot, rr: RouteObject, refuse: bool) returns (ok: bool)
      requires rr.refs > 0
      modifies this`routes, this`kernel, this`requests
      ensures ok == Accepts(env, old(kernel), rr.Value(), refuse)
      ensures routes == (if ok then old(routes)[slot := rr] else old(routes))
      ensures Abs() == RibSpec.RouteAdd(env, old(Abs()), slot, rr.Value(), refuse)
    {
      var r := Route(rr.family, RT_TABLE_MAIN, RTPROT_STATIC, rr.dst, rr.nexthops, rr.priority);
      ok := KernelAccepts(r, refuse);
      requests := requests + [Add(r, ok)];
      if ok {
        kernel := kernel + {r};
        routes := routes[slot := rr];
      }
    }

    /** NLM_F_EXCL: the kernel looks for a route with the same key. */
    method KernelAccepts(r: Route, refuse: bool) returns (ok: bool)
      ensures ok == Accepts(env, kernel, r, refuse)
    {
      ok := !refuse;
      var todo := kernel;
      while ok && todo != {}
        invariant todo <= kernel
        invariant ok ==> !refuse && forall q :: q in kernel - todo ==> env.key(q) != env.key(r)
        invariant !ok ==> !Accepts(env, kernel, r, refuse)
        decreases todo, ok
      {
        var q :| q in todo;
        ok := env.key(q) != env.key(r);
        todo := todo - {q};
      }
    }

    method RouteDel(slot: Slot, rr: RouteObject)
      requires rr.refs > 0
      modifies this`routes, this`kernel, this`requests
      ensures routes == (if slot.index != 0 then old(routes) - {slot} else old(routes))
      ensures Abs() == RibSpec.RouteDel(old(Abs()), slot, rr.Value())
    {
      var r := Route(rr.family, RT_TABLE_MAIN, RTPROT_STATIC, rr.dst, rr.nexthops, rr.priority);
      kernel := kernel - {r};
      requests := requests + [Delete(r)];
      if slot.index != 0 {
        routes := routes - {slot};
      }
    }

    /** watch_static_routes. */
    method WatchStaticRoutes(e: Event)
      requires Valid() && e.index != 0
      modifies this`routes, this`kernel, this`requests, routes.Values
      ensures Valid()
      ensures Abs() == Watch(env, old(Abs()), e)
      ensures fresh(routes.Values - old(routes.Values))
    {
      WatchKeepsAgreement(env, Abs(), e);
      var slot := Slot(e.family == 4, e.index);
      if slot !in routes {
        NewRoute(slot, e);
      } else if e.value.None? && (e.parameter == Id || e.parameter == Prefix) {
        DropRoute(slot, e);
      } else {
        assert Stored(Abs(), slot);
        UpdateRoute(slot, e);
      }
    }

    method NewRoute(slot: Slot, e: Event)
      requires Owned() && slot == Slot(e.family == 4, e.index) && slot !in routes
      modifies this`routes, this`kernel, this`requests
      ensures Owned() && fresh(routes.Values - old(routes.Values))
      ensures Abs() == Watch(env, old(Abs()), e)
    {
      var rr := ApteryxToRoute(env, e.family, e.index, e.tree);
      if rr == null || !rr.Valid() {
        if rr != null {
          rr.Put();
        }
        return;
      }
      assert Abs() == old(Abs());
      var ok := RouteAdd(slot, rr, e.refuse);
      label added:
      if !ok {
        rr.Put();
        assert Abs() == old@added(Abs());
      }
    }

    method DropRoute(slot: Slot, e: Event)
      requires Owned() && slot == Slot(e.family == 4, e.index) && slot in routes && slot.index != 0
      requires e.value.None? && (e.parameter == Id || e.parameter == Prefix)
      modifies this`routes, this`kernel, this`requests, routes[slot]
      ensures Owned() && routes.Values <= old(routes.Values)
      ensures Abs() == Watch(env, old(Abs()), e)
    {
      var rr := routes[slot];
      assert Abs().table[slot] == rr.Value();
      RouteDel(slot, rr);
      label deleted:
      rr.Put();
      assert Abs() == old@deleted(Abs());
    }

    /** The stored object is edited in place; its previous contents are deleted and, when the edited
        route is valid, it is added again. A rejected value leaves it untouched. */
    method UpdateRoute(slot: Slot, e: Event)
      requires Owned() && slot in routes && slot.index != 0 && |routes[slot].nexthops| == 1
      modifies this`routes, this`kernel, this`requests, routes[slot]
      ensures Owned() && routes.Values <= old(routes.Values)
      ensures var s := old(Abs());
              var edited := Parse(env, s.table[slot], e.index, e.parameter, e.value);
              Abs() == if edited.None? || edited.value == s.table[slot] then s
                       else Update(env, s, slot, edited.value, e.refuse)
    {
      ghost var s := Abs();
      assert s.table[slot] == routes[slot].Value();
      var previous := new RouteObject.Clone(routes[slot]);
      var ok, changed := EditStored(slot, e);
      FinishUpdate(slot, previous, changed, s, e.refuse);
    }

    /** After the edit: nothing to do, or delete and add. */
    method FinishUpdate(slot: Slot, previous: RouteObject, changed: bool, ghost s: State, refuse: bool)
      requires Owned() && slot in routes && slot.index != 0 && previous.refs > 0 && previous !in routes.Values
      requires slot in s.table && previous.Value() == s.table[slot]
      requires Abs() == s.(table := s.table[slot := routes[slot].Value()])
      requires !changed ==> Abs() == s
      modifies this`routes, this`kernel, this`requests, previous`refs
      ensures Owned() && forall a :: a in routes ==> a in old(routes) && routes[a] == old(routes)[a]
      ensures Abs() == if changed then Update(env, s, slot, old(routes[slot].Value()), refuse) else s
    {
      if !changed {
        previous.Put();
        return;
      }
      SendUpdate(slot, previous, s, refuse);
    }

    method SendUpdate(slot: Slot, previous: RouteObject, ghost s: State, refuse: bool)
      requires slot in routes && routes[slot].refs > 0 && previous.refs > 0 && slot.index != 0
      requires slot in s.table && previous.Value() == s.table[slot]
      requires Abs() == s.(table := s.table[slot := routes[slot].Value()])
      modifies this`routes, this`kernel, this`requests
      ensures forall a :: a in routes ==> a in old(routes) && routes[a] == old(routes)[a]
      ensures Abs() == Update(env, s, slot, old(routes)[slot].Value(), refuse)
    {
      var rr := routes[slot];
      RouteDel(slot, previous);
      if rr.Valid() {
        var _ := RouteAdd(slot, rr, refuse);
        assert old(routes) - {slot} + map[slot := rr] == old(routes);
      }
    }

    method EditStored(slot: Slot, e: Event) returns (ok: bool, changed: bool)
      requires Owned() && slot in routes && |routes[slot].nexthops| == 1
      modifies routes[slot]
      ensures Owned()
      ensures Abs().table[slot] == routes[slot].Value()
      ensures var s := old(Abs());
              var p := Parse(env, s.table[slot], e.index, e.parameter, e.value);
              && ok == p.Some? && changed == (ok && p.value != s.table[slot])
              && Abs() == if ok then s.(table := s.table[slot := p.value]) else s
    {
      ghost var s := Abs();
      assert s.table[slot] == routes[slot].Value();
      ok, changed := ParseParameter(env, routes[slot], e.index, e.parameter, e.value, true);
      assert Abs().table == s.table[slot := routes[slot].Value()];
      assert !ok ==> s.table[slot := routes[slot].Value()] == s.table;
    }

    /** apteryx_rewatch_tree: one callback for each leaf of the configuration. */
    method Rewatch(events: seq<Event>)
      requires Valid() && forall k :: 0 <= k < |events| ==> events[k].index != 0
      modifies this`routes, this`kernel, this`requests, routes.Values
      ensures Valid() && fresh(routes.Values - old(routes.Values))
      ensures Abs() == WatchAll(env, old(Abs()), events)
    {
      var i := 0;
      assert events[i..] == events;
      while i < |events|
        invariant 0 <= i <= |events| && Valid() && fresh(routes.Values - old(routes.Values))
        invariant WatchAll(env, Abs(), events[i..]) == WatchAll(env, old(Abs()), events)
      {
        assert events[i..][0] == events[i] && events[i..][1..] == events[i + 1..];
        WatchStaticRoutes(events[i]);
        i := i + 1;
      }
    }

    /** rib_start: the IPv4 configuration is replayed twice, and the second time no request is made. */
    method RibStart(config: map<int, Leaves>, first: seq<Event>, second: seq<Event>)
      requires Valid() && Abs() == Initial(kernel)
      requires Loadable(env, config, kernel) && 0 !in config && Covers(config, first) && Covers(config, second)
      modifies this`routes, this`kernel, this`requests, routes.Values
      ensures Valid() && Abs() == WatchAll(env, old(Abs()), first)
      ensures forall i :: Lookup(Abs(), i) == (if i in config then Desired(env, config[i]) else None)
      ensures multiset(requests) == multiset(Adds(Abs().table.Values))
    {
      StartupIsExactlyOnce(env, config, kernel, first, second);
      Rewatch(first);
      Rewatch(second);
    }

    /** rib_exit: the walk deletes every stored route once and, passing index 0, leaves the tables it
        walks alone until they are destroyed. `order` is the order of the hash tables. */
    method RibExit(order: seq<Slot>)
      requires Valid()
      requires forall slot :: slot in order <==> slot in routes
      modifies this`routes, this`kernel, this`requests
      ensures Abs() == DeleteAll(old(Abs()), order).(table := map[])
      ensures kernel == foreign == old(foreign)
    {
      ShutdownLeavesForeign(env, Abs(), order);
      DeleteEach(order);
      label deleted:
      routes := map[];
      assert Abs() == old@deleted(Abs()).(table := map[]);
    }

    /** The walk of rib_exit, with the callback exit_cb. */
    method DeleteEach(order: seq<Slot>)
      requires Owned()
      requires forall slot :: slot in order ==> slot in routes
      modifies this`kernel, this`requests, this`routes
      ensures routes == old(routes)
      ensures Abs() == DeleteAll(old(Abs()), order)
    {
      ghost var s := Abs();
      var i := 0;
      ghost var t := s;
      assert order[i..] == order;
      while i < |order|
        invariant 0 <= i <= |order| && routes == old(routes)
        invariant t == Abs() && t.table == s.table
        invariant DeleteAll(t, order[i..]) == DeleteAll(s, order)
      {
        DeleteNext(t, order, i);
        assert t.table[order[i]] == routes[order[i]].Value();
        RouteDel(Slot(order[i].v4, 0), routes[order[i]]);
        t := Abs();
        i := i + 1;
      }
    }
  }

  lemma DeleteNext(t: State, order: seq<Slot>, i: nat)
    requires i < |order| && forall slot :: slot in order ==> slot in t.table
    ensures DeleteAll(t, order[i..]) ==
              DeleteAll(RibSpec.RouteDel(t, Slot(order[i].v4, 0), t.table[order[i]]), order[i + 1..])
  {
    assert order[i..][1..] == order[i + 1..];
  }
}
