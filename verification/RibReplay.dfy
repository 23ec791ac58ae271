/** Whole-configuration runs of the reconciler: startup replay and removal of a route. */
module RibReplay {
  import opened Libnl
  import opened RibSpec
  import opened RibAgreement
  import opened RibRefinement
  import opened Wrappers

  function WatchAll(env: Env, s: State, events: seq<Event>): State
    decreases |events|
  {
    if events == [] then s else WatchAll(env, Watch(env, s, events[0]), events[1..])
  }

  // ---------------------------------------------------------------- startup

  /** The callback a rewatch makes for one leaf of the stored configuration. */
  ghost predicate Replays(config: map<int, Leaves>, e: Event) {
    && e.family == 4 && !e.refuse
    && e.index in config && e.parameter in config[e.index]
    && e.value == Some(config[e.index][e.parameter])
    && Lists(e.tree, config[e.index])
  }

  /** A clean configuration whose routes conflict neither with each other nor with the kernel's. */
  ghost predicate Loadable(env: Env, config: map<int, Leaves>, kernel: set<Route>) {
    && (forall i :: i in config ==> Clean(env, i, config[i]))
    && (forall i, q :: i in config && Desired(env, config[i]).Some? && q in kernel ==>
          env.key(q) != env.key(Target(env, config[i])))
    && (forall i, j :: i in config && j in config && i != j ==>
          Desired(env, config[i]).Some? && Desired(env, config[j]).Some? ==>
          env.key(Target(env, config[i])) != env.key(Target(env, config[j])))
  }

  function Adds(routes: set<Route>): set<Request> {
    set r | r in routes :: Add(r, true)
  }

  /** The indices already loaded hold their routes, each put there by one accepted add. */
  ghost predicate Loaded(env: Env, config: map<int, Leaves>, kernel: set<Route>, s: State, done: set<int>) {
    && (forall slot :: slot in s.table ==>
          slot.v4 && slot.index in config && s.table[slot] == Target(env, config[slot.index]))
    && (forall i :: Lookup(s, i) == (if i in done && i in config then Desired(env, config[i]) else None))
    && s.kernel == kernel + s.table.Values
    && multiset(s.requests) == multiset(Adds(s.table.Values))
  }

  /** A leaf of a configuration that is stored already, or not valid: nothing happens. */
  lemma LoadAgain(env: Env, config: map<int, Leaves>, s: State, e: Event)
    requires Replays(config, e) && Clean(env, e.index, config[e.index])
    requires Lookup(s, e.index) == Desired(env, config[e.index])
    ensures Watch(env, s, e) == s
  {
    var m := config[e.index];
    if Slot(true, e.index) in s.table {
      assert m[e.parameter := m[e.parameter]] == m;
      ParseSet(env, e.index, m, e.parameter, m[e.parameter]);
    } else {
      RebuildIsTarget(env, e.index, m, e.tree);
    }
  }

  lemma FreshKey(env: Env, config: map<int, Leaves>, kernel: set<Route>, s: State, done: set<int>, i: int)
    requires Loadable(env, config, kernel) && Loaded(env, config, kernel, s, done)
    requires i in config && Desired(env, config[i]).Some? && Lookup(s, i) == None
    ensures Accepts(env, s.kernel, Target(env, config[i]), false)
  {
    forall q | q in s.kernel ensures env.key(q) != env.key(Target(env, config[i])) {
      if q !in kernel {
        var a :| a in s.table && s.table[a] == q;
        assert Lookup(s, a.index) == Some(q);
      }
    }
  }

  lemma AddOne(s: State, slot: Slot, rr: Route)
    requires slot !in s.table && rr !in s.table.Values
    ensures s.table[slot := rr].Values == s.table.Values + {rr}
    ensures multiset(Adds(s.table.Values)) + multiset{Add(rr, true)} == multiset(Adds(s.table.Values + {rr}))
  {
    var t := s.table[slot := rr];
    assert t[slot] == rr;
    forall q | q in s.table.Values ensures q in t.Values {
      var a :| a in s.table && s.table[a] == q;
      assert t[a] == q;
    }
    assert Adds(s.table.Values + {rr}) == Adds(s.table.Values) + {Add(rr, true)};
  }

  lemma LookupAdded(s: State, t: State, i: int, rr: Route)
    requires t.table == s.table[Slot(true, i) := rr]
    ensures Lookup(t, i) == Some(rr) && forall j :: j != i ==> Lookup(t, j) == Lookup(s, j)
  {
  }

  /** One accepted add of an index that is not loaded yet. */
  lemma LoadNew(env: Env, config: map<int, Leaves>, kernel: set<Route>, s: State, done: set<int>, i: int)
    requires Loaded(env, config, kernel, s, done)
    requires i in config && Desired(env, config[i]).Some? && Lookup(s, i) == None
    requires Target(env, config[i]) !in s.table.Values
    ensures var rr := Target(env, config[i]);
            Loaded(env, config, kernel,
                   State(s.table[Slot(true, i) := rr], s.kernel + {rr}, s.foreign, s.requests + [Add(rr, true)]),
                   done + {i})
  {
    var slot, rr := Slot(true, i), Target(env, config[i]);
    var t := State(s.table[slot := rr], s.kernel + {rr}, s.foreign, s.requests + [Add(rr, true)]);
    AddOne(s, slot, rr);
    LookupAdded(s, t, i, rr);
    assert multiset(t.requests) == multiset(s.requests) + multiset{Add(rr, true)};
  }

  lemma LoadOne(env: Env, config: map<int, Leaves>, kernel: set<Route>, s: State, done: set<int>, e: Event)
    requires Loadable(env, config, kernel) && Loaded(env, config, kernel, s, done) && Replays(config, e)
    ensures Loaded(env, config, kernel, Watch(env, s, e), done + {e.index})
    ensures e.index in done ==> Watch(env, s, e) == s
  {
    var m := config[e.index];
    if Lookup(s, e.index) == Desired(env, m) {
      LoadAgain(env, config, s, e);
    } else {
      RebuildIsTarget(env, e.index, m, e.tree);
      FreshKey(env, config, kernel, s, done, e.index);
      assert Watch(env, s, e) == RouteAdd(env, s, Slot(true, e.index), Target(env, m), false);
      LoadNew(env, config, kernel, s, done, e.index);
    }
  }

  function Indices(events: seq<Event>): set<int> {
    if events == [] then {} else {events[0].index} + Indices(events[1..])
  }

  lemma {:induction false} LoadAll(env: Env, config: map<int, Leaves>, kernel: set<Route>, s: State, done: set<int>,
                                   events: seq<Event>)
    requires Loadable(env, config, kernel) && Loaded(env, config, kernel, s, done)
    requires forall k :: 0 <= k < |events| ==> Replays(config, events[k])
    ensures Loaded(env, config, kernel, WatchAll(env, s, events), done + Indices(events))
    ensures Indices(events) <= done ==> WatchAll(env, s, events) == s
    decreases |events|
  {
    if events == [] {
      assert done + Indices(events) == done;
    } else {
      var e := events[0];
      LoadOne(env, config, kernel, s, done, e);
      LoadAll(env, config, kernel, Watch(env, s, e), done + {e.index}, events[1..]);
      assert done + {e.index} + Indices(events[1..]) == done + Indices(events);
    }
  }

  /** The replay visits every leaf, in any order and any number of times. */
  ghost predicate Covers(config: map<int, Leaves>, events: seq<Event>) {
    && (forall k :: 0 <= k < |events| ==> Replays(config, events[k]))
    && (forall i, p :: i in config && p in config[i] ==>
          exists k :: 0 <= k < |events| && events[k].index == i && events[k].parameter == p)
  }

  lemma {:induction false} IndexVisited(events: seq<Event>, k: nat)
    requires k < |events|
    ensures events[k].index in Indices(events)
  {
    if k > 0 { IndexVisited(events[1..], k - 1); }
  }

  lemma {:induction false} OnlyConfigured(config: map<int, Leaves>, events: seq<Event>)
    requires forall k :: 0 <= k < |events| ==> Replays(config, events[k])
    ensures forall i :: i in Indices(events) ==> i in config && config[i] != map[]
  {
    if events != [] { OnlyConfigured(config, events[1..]); }
  }

  lemma CoversAll(config: map<int, Leaves>, events: seq<Event>, i: int, p: Leaf)
    requires Covers(config, events) && i in config && p in config[i]
    ensures i in Indices(events)
  {
    var k :| 0 <= k < |events| && events[k].index == i && events[k].parameter == p;
    IndexVisited(events, k);
  }

  /** rib_start replays the IPv4 configuration twice. The first replay issues exactly one add per
      valid index and no delete; the second issues no kernel call and changes nothing. */
  lemma StartupIsExactlyOnce(env: Env, config: map<int, Leaves>, kernel: set<Route>, first: seq<Event>,
                             second: seq<Event>)
    requires Loadable(env, config, kernel) && Covers(config, first) && Covers(config, second)
    ensures var s := WatchAll(env, Initial(kernel), first);
            && WatchAll(env, s, second) == s
            && (forall i :: Lookup(s, i) == (if i in config then Desired(env, config[i]) else None))
            && (forall slot :: slot in s.table ==> slot.v4)
            && multiset(s.requests) == multiset(Adds(s.table.Values))
            && s.kernel == kernel + s.table.Values
  {
    var s0 := Initial(kernel);
    assert Adds(s0.table.Values) == {};
    LoadAll(env, config, kernel, s0, {}, first);
    var s := WatchAll(env, s0, first);
    var done := {} + Indices(first);
    forall i | i in config && i !in done ensures Desired(env, config[i]) == None {
      if Prefix in config[i] { CoversAll(config, first, i, Prefix); }
    }
    OnlyConfigured(config, second);
    forall i | i in Indices(second) ensures i in done {
      var p :| p in config[i];
      CoversAll(config, first, i, p);
    }
    LoadAll(env, config, kernel, s, done, second);
  }

  // ---------------------------------------------------------------- removal

  /** The callbacks that follow the removal of a whole entry: one per leaf, in any order, with
      nothing left to read under the index. */
  ghost predicate Removes(index: int, m: Leaves, events: seq<Event>) {
    && (forall k :: 0 <= k < |events| ==>
          && events[k].family == 4 && events[k].index == index
          && events[k].value.None? && events[k].tree == [] && events[k].parameter in m)
    && (forall k, l :: 0 <= k < l < |events| ==> events[k].parameter != events[l].parameter)
    && (forall p :: p in m ==> exists k :: 0 <= k < |events| && events[k].parameter == p)
  }

  /** Although the callbacks edit the route leaf by leaf, and may re-add it on the way, none is left
      at the end: the id leaf is safe to delete together with the rest of the entry. */
  lemma {:induction false} RemovalRemoves(env: Env, index: int, m: Leaves, s: State, events: seq<Event>)
    requires index != 0 && Clean(env, index, m) && Removes(index, m, events)
    requires Lookup(s, index) == None || Lookup(s, index) == Desired(env, m)
    ensures Lookup(WatchAll(env, s, events), index) == None
    decreases |events|
  {
    if events != [] {
      var e := events[0];
      var n := m - {e.parameter};
      assert Clean(env, index, n);
      if Slot(true, index) in s.table && e.parameter != Id && e.parameter != Prefix {
        ParseDelete(env, index, m, e.parameter);
        UpdateOutcome(env, s, e, Target(env, n));
      }
      forall p | p in n ensures exists k :: 0 <= k < |events[1..]| && events[1..][k].parameter == p {
        var k :| 0 <= k < |events| && events[k].parameter == p;
        assert events[1..][k - 1] == events[k];
      }
      RemovalRemoves(env, index, n, Watch(env, s, e), events[1..]);
    }
  }
}
