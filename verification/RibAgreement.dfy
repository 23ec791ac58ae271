/** Agreement between the lookup tables and the kernel, over every run. */
module RibAgreement {
  import opened Libnl
  import opened RibSpec
  import opened Wrappers

  ghost predicate Stored(s: State, slot: Slot) {
    && slot in s.table
    && s.table[slot] in s.kernel - s.foreign
    && RouteValid(s.table[slot])
    && |s.table[slot].nexthops| == 1
    && s.table[slot].family == (if slot.v4 then INET else INET6)
  }

  /** The kernel holds the foreign routes plus exactly the routes in the tables, every stored
      route is valid and owned by one index, and no two kernel routes conflict. */
  ghost predicate Agreement(env: Env, s: State) {
    && (forall slot :: slot in s.table ==> Stored(s, slot))
    && (forall a, b :: a in s.table && b in s.table && s.table[a] == s.table[b] ==> a == b)
    && s.kernel == s.foreign + s.table.Values
    && NoConflict(env, s.kernel)
  }

  ghost predicate NoConflict(env: Env, kernel: set<Route>) {
    forall q, r :: q in kernel && r in kernel && env.key(q) == env.key(r) ==> q == r
  }

  // ---------------------------------------------------------------- the pieces of a callback

  lemma ParseKeepsOneHop(env: Env, rr: Route, index: int, parameter: Leaf, value: Option<string>)
    requires |rr.nexthops| <= 1
    ensures var p := Parse(env, rr, index, parameter, value);
            p.Some? ==> |p.value.nexthops| <= 1 && p.value.family == rr.family
  {
  }

  lemma {:induction false} RebuildHasOneHop(env: Env, rr: Route, index: int, tree: Tree)
    requires |rr.nexthops| <= 1
    ensures var p := ParseAll(env, rr, index, tree);
            p.Some? ==> |p.value.nexthops| <= 1 && p.value.family == rr.family
    decreases |tree|
  {
    if tree != [] {
      ParseKeepsOneHop(env, rr, index, tree[0].0, Some(tree[0].1));
      var p := Parse(env, rr, index, tree[0].0, Some(tree[0].1));
      if p.Some? {
        RebuildHasOneHop(env, p.value, index, tree[1..]);
      }
    }
  }

  lemma AddKeepsAgreement(env: Env, s: State, slot: Slot, rr: Route, refuse: bool)
    requires Agreement(env, s) && slot !in s.table
    requires RouteValid(rr) && |rr.nexthops| == 1 && rr.family == (if slot.v4 then INET else INET6)
    ensures Agreement(env, RouteAdd(env, s, slot, rr, refuse))
  {
    var t := RouteAdd(env, s, slot, rr, refuse);
    if Accepts(env, s.kernel, rr, refuse) {
      assert rr !in s.kernel;
      assert t.table.Values == s.table.Values + {rr} by {
        assert t.table[slot] == rr;
        forall r | r in s.table.Values ensures r in t.table.Values {
          var a :| a in s.table && s.table[a] == r;
          assert t.table[a] == r;
        }
      }
      forall a, b | a in t.table && b in t.table && t.table[a] == t.table[b] ensures a == b {
        if a != slot { assert Stored(s, a); }
        if b != slot { assert Stored(s, b); }
      }
      forall a | a in t.table ensures Stored(t, a) {
        if a != slot { assert Stored(s, a); }
        assert s.foreign <= s.kernel;
      }
    }
  }

  /** Deleting the contents a slot had before the callback; the stored route may have been edited since. */
  lemma DeleteKeepsAgreement(env: Env, s: State, slot: Slot, edited: Route)
    requires Agreement(env, s) && slot in s.table && slot.index != 0
    ensures Agreement(env, RouteDel(s.(table := s.table[slot := edited]), slot, s.table[slot]))
  {
    var rr := s.table[slot];
    var t := RouteDel(s.(table := s.table[slot := edited]), slot, rr);
    assert t.table == s.table - {slot};
    assert t.table.Values == s.table.Values - {rr} by {
      forall r | r in s.table.Values && r != rr ensures r in t.table.Values {
        var a :| a in s.table && s.table[a] == r;
        assert a in t.table;
      }
    }
    assert Stored(s, slot);
    forall a | a in t.table ensures Stored(t, a) {
      assert Stored(s, a);
    }
  }

  /** Every callback keeps the agreement, refused adds and rejected values included. */
  lemma WatchKeepsAgreement(env: Env, s: State, e: Event)
    requires Agreement(env, s) && e.index != 0
    ensures Agreement(env, Watch(env, s, e))
    ensures Watch(env, s, e).foreign == s.foreign
  {
    var slot := Slot(e.family == 4, e.index);
    if slot !in s.table {
      var rr := Rebuild(env, e.family, e.index, e.tree);
      RebuildHasOneHop(env, DefaultRoute(e.family), e.index, e.tree);
      if rr.Some? && RouteValid(rr.value) {
        AddKeepsAgreement(env, s, slot, rr.value, e.refuse);
      }
    } else {
      var rr := s.table[slot];
      assert Stored(s, slot);
      if e.value.None? && (e.parameter == Id || e.parameter == Prefix) {
        assert s.(table := s.table[slot := rr]) == s;
        DeleteKeepsAgreement(env, s, slot, rr);
      } else {
        var edited := Parse(env, rr, e.index, e.parameter, e.value);
        ParseKeepsOneHop(env, rr, e.index, e.parameter, e.value);
        if edited.Some? && edited.value != rr {
          DeleteKeepsAgreement(env, s, slot, edited.value);
          if RouteValid(edited.value) {
            AddKeepsAgreement(env, RouteDel(s.(table := s.table[slot := edited.value]), slot, rr),
                              slot, edited.value, e.refuse);
          }
        }
      }
    }
  }

  /** A callback asks the kernel to delete at most the route its own index owns. */
  lemma WatchDeletesOnlyItsOwn(env: Env, s: State, e: Event, r: Route)
    requires Agreement(env, s) && e.index != 0
    requires Delete(r) in Watch(env, s, e).requests[|s.requests|..]
    ensures var slot := Slot(e.family == 4, e.index); slot in s.table && s.table[slot] == r && r !in s.foreign
  {
    var slot := Slot(e.family == 4, e.index);
    assert slot in s.table ==> Stored(s, slot);
  }

  /** An add changes table and kernel exactly when the kernel does not refuse it and has no route of the
      same key; otherwise it changes neither. */
  lemma AddIff(env: Env, s: State, slot: Slot, rr: Route, refuse: bool)
    ensures var t := RouteAdd(env, s, slot, rr, refuse);
            if !refuse && !(exists q :: q in s.kernel && env.key(q) == env.key(rr)) then
              t.table == s.table[slot := rr] && t.kernel == s.kernel + {rr}
            else
              t.table == s.table && t.kernel == s.kernel
  {
  }

  /** A callback whose add the kernel refuses adds nothing, to the kernel or to a table. */
  lemma RefusedCallbackAddsNothing(env: Env, s: State, e: Event)
    requires e.refuse && e.index != 0
    ensures var t := Watch(env, s, e);
            t.kernel <= s.kernel && forall slot :: slot in t.table ==> slot in s.table && t.table[slot] == s.table[slot]
  {
  }

  function After(kernel: set<Route>, request: Request): set<Route> {
    match request
    case Add(r, accepted) => if accepted then kernel + {r} else kernel
    case Delete(r) => kernel - {r}
  }

  /** What the requests, in their order, make of a kernel. */
  function Effect(kernel: set<Route>, requests: seq<Request>): set<Route>
    decreases |requests|
  {
    if requests == [] then kernel
    else After(Effect(kernel, requests[..|requests| - 1]), requests[|requests| - 1])
  }

  lemma EffectAppend(kernel: set<Route>, requests: seq<Request>, r: Request)
    ensures Effect(kernel, requests + [r]) == After(Effect(kernel, requests), r)
  {
    assert (requests + [r])[..|requests|] == requests;
  }

  /** The kernel is what the requests made of it: nothing is changed without a request or left undone. */
  lemma WatchIsExplained(env: Env, s: State, e: Event, kernel: set<Route>)
    requires s.kernel == Effect(kernel, s.requests)
    ensures Watch(env, s, e).kernel == Effect(kernel, Watch(env, s, e).requests)
  {
    var slot := Slot(e.family == 4, e.index);
    if slot !in s.table {
      var rr := Rebuild(env, e.family, e.index, e.tree);
      if rr.Some? {
        EffectAppend(kernel, s.requests, Add(rr.value, Accepts(env, s.kernel, rr.value, e.refuse)));
      }
    } else {
      var stored := s.table[slot];
      EffectAppend(kernel, s.requests, Delete(stored));
      var edited := Parse(env, stored, e.index, e.parameter, e.value);
      if edited.Some? {
        EffectAppend(kernel, s.requests + [Delete(stored)],
                     Add(edited.value, Accepts(env, s.kernel - {stored}, edited.value, e.refuse)));
      }
    }
  }

  // ---------------------------------------------------------------- runs

  /** Other programs add routes that do not conflict, and delete routes of their own. */
  datatype Step = Config(event: Event) | ForeignAdd(route: Route) | ForeignDelete(route: Route)

  function Next(env: Env, s: State, step: Step): State {
    match step
    case Config(e) => Watch(env, s, e)
    case ForeignAdd(r) =>
      if Accepts(env, s.kernel, r, false) then s.(kernel := s.kernel + {r}, foreign := s.foreign + {r}) else s
    case ForeignDelete(r) =>
      if r in s.foreign then s.(kernel := s.kernel - {r}, foreign := s.foreign - {r}) else s
  }

  function Run(env: Env, s: State, steps: seq<Step>): State
    decreases |steps|
  {
    if steps == [] then s else Run(env, Next(env, s, steps[0]), steps[1..])
  }

  function Initial(kernel: set<Route>): State {
    State(map[], kernel, kernel, [])
  }

  ghost predicate NoIndexZero(steps: seq<Step>) {
    forall i :: 0 <= i < |steps| && steps[i].Config? ==> steps[i].event.index != 0
  }

  lemma NextKeepsAgreement(env: Env, s: State, step: Step)
    requires Agreement(env, s) && (step.Config? ==> step.event.index != 0)
    ensures Agreement(env, Next(env, s, step))
  {
    var t := Next(env, s, step);
    match step
    case Config(e) => WatchKeepsAgreement(env, s, e);
    case ForeignAdd(r) =>
      forall a | a in t.table ensures Stored(t, a) {
        assert Stored(s, a);
      }
    case ForeignDelete(r) =>
      forall a | a in t.table ensures Stored(t, a) {
        assert Stored(s, a);
      }
  }

  lemma {:induction false} RunKeepsAgreement(env: Env, s: State, steps: seq<Step>)
    requires Agreement(env, s) && NoIndexZero(steps)
    ensures Agreement(env, Run(env, s, steps))
    decreases |steps|
  {
    if steps != [] {
      NextKeepsAgreement(env, s, steps[0]);
      RunKeepsAgreement(env, Next(env, s, steps[0]), steps[1..]);
    }
  }

  /** Table and kernel agree in every reachable state. */
  lemma Reachable(env: Env, kernel: set<Route>, steps: seq<Step>)
    requires NoConflict(env, kernel) && NoIndexZero(steps)
    ensures Agreement(env, Run(env, Initial(kernel), steps))
  {
    RunKeepsAgreement(env, Initial(kernel), steps);
  }

  /** No two indices of either table own routes the kernel takes for the same one. */
  lemma IndicesNeverConflict(env: Env, s: State, a: Slot, b: Slot)
    requires Agreement(env, s) && a in s.table && b in s.table
    requires env.key(s.table[a]) == env.key(s.table[b])
    ensures a == b
  {
    assert Stored(s, a) && Stored(s, b);
  }

  /** Deleting a stored route keeps the agreement exactly when its index is not the sentinel 0. */
  lemma DeleteKeepsAgreementIff(env: Env, s: State, e: Event)
    requires Agreement(env, s)
    requires Slot(e.family == 4, e.index) in s.table
    requires e.value.None? && (e.parameter == Id || e.parameter == Prefix)
    ensures Agreement(env, Watch(env, s, e)) <==> e.index != 0
  {
    var slot := Slot(e.family == 4, e.index);
    if e.index != 0 {
      WatchKeepsAgreement(env, s, e);
    } else {
      var t := Watch(env, s, e);
      assert slot in t.table && t.table[slot] !in t.kernel;
      assert !Stored(t, slot);
    }
  }

  /** Over every run without other programs, the kernel is the initial one changed by the requests. */
  lemma {:induction false} RequestsExplainKernel(env: Env, s: State, steps: seq<Step>, kernel: set<Route>)
    requires s.kernel == Effect(kernel, s.requests)
    requires forall i :: 0 <= i < |steps| ==> steps[i].Config?
    ensures Run(env, s, steps).kernel == Effect(kernel, Run(env, s, steps).requests)
    decreases |steps|
  {
    if steps != [] {
      WatchIsExplained(env, s, steps[0].event, kernel);
      RequestsExplainKernel(env, Next(env, s, steps[0]), steps[1..], kernel);
    }
  }

  // ---------------------------------------------------------------- shutdown

  /** rib_exit deletes every stored route, in the order of the hash tables. */
  function DeleteAll(s: State, order: seq<Slot>): State
    requires forall slot <- order :: slot in s.table
    decreases |order|
  {
    if order == [] then s
    else DeleteAll(RouteDel(s, Slot(order[0].v4, 0), s.table[order[0]]), order[1..])
  }

  lemma {:induction false} DeleteAllEffect(s: State, order: seq<Slot>)
    requires forall slot <- order :: slot in s.table
    ensures var t := DeleteAll(s, order);
            t.table == s.table && t.foreign == s.foreign
            && t.kernel == s.kernel - (set slot | slot in order :: s.table[slot])
    decreases |order|
  {
    if order != [] {
      var t := RouteDel(s, Slot(order[0].v4, 0), s.table[order[0]]);
      DeleteAllEffect(t, order[1..]);
      assert (set slot | slot in order :: s.table[slot])
          == {s.table[order[0]]} + (set slot | slot in order[1..] :: s.table[slot]) by {
        assert order == [order[0]] + order[1..];
      }
    }
  }

  lemma KernelMinusTable(env: Env, s: State)
    requires Agreement(env, s)
    ensures s.kernel - s.table.Values == s.foreign
  {
    forall r | r in s.table.Values ensures r !in s.foreign {
      var a :| a in s.table && s.table[a] == r;
      assert Stored(s, a);
    }
  }

  lemma ShutdownLeavesForeign(env: Env, s: State, order: seq<Slot>)
    requires Agreement(env, s) && forall slot :: slot in order <==> slot in s.table
    ensures DeleteAll(s, order).kernel == s.foreign && DeleteAll(s, order).table == s.table
  {
    DeleteAllEffect(s, order);
    assert (set slot | slot in order :: s.table[slot]) == s.table.Values;
    KernelMinusTable(env, s);
  }

  /** After any run, shutdown leaves the kernel with the routes of other programs and nothing else:
      the routes it had at the start as changed by those programs alone. */
  lemma CleanShutdown(env: Env, kernel: set<Route>, steps: seq<Step>, order: seq<Slot>)
    requires NoConflict(env, kernel) && NoIndexZero(steps)
    requires forall slot :: slot in order <==> slot in Run(env, Initial(kernel), steps).table
    ensures var s := Run(env, Initial(kernel), steps);
            DeleteAll(s, order).kernel == s.foreign && DeleteAll(s, order).table == s.table
    ensures (forall i :: 0 <= i < |steps| ==> steps[i].Config?) ==>
              DeleteAll(Run(env, Initial(kernel), steps), order).kernel == kernel
  {
    var s := Run(env, Initial(kernel), steps);
    Reachable(env, kernel, steps);
    ShutdownLeavesForeign(env, s, order);
    if forall i :: 0 <= i < |steps| ==> steps[i].Config? {
      ForeignUnchanged(env, Initial(kernel), steps);
    }
  }

  lemma {:induction false} ForeignUnchanged(env: Env, s: State, steps: seq<Step>)
    requires forall i :: 0 <= i < |steps| ==> steps[i].Config?
    ensures Run(env, s, steps).foreign == s.foreign
    decreases |steps|
  {
    if steps != [] {
      ForeignUnchanged(env, Next(env, s, steps[0]), steps[1..]);
    }
  }
}
