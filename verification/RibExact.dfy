/** Exactly when incremental update and rebuild agree. */
module RibExact {
  import opened Bits
  import opened Libnl
  import opened RibSpec
  import opened RibAgreement
  import opened RibRefinement
  import opened Wrappers

  // ---------------------------------------------------------------- trees

  /** Every configuration has a tree, and its last leaf can be chosen. */
  lemma {:induction false} SomeTree(m: Leaves) returns (tree: Tree)
    ensures Lists(tree, m)
    decreases |m|
  {
    if m == map[] {
      tree := [];
    } else {
      var p :| p in m;
      tree := SomeTree(m - {p});
      ListsAppend(tree, m, p);
      tree := tree + [(p, m[p])];
    }
  }

  lemma ListsAppend(tree: Tree, m: Leaves, p: Leaf)
    requires p in m && Lists(tree, m - {p})
    ensures Lists(tree + [(p, m[p])], m)
  {
    var t := tree + [(p, m[p])];
    forall q | q in m ensures exists i :: 0 <= i < |t| && t[i].0 == q {
      if q == p {
        assert t[|tree|].0 == q;
      } else {
        assert q in m - {p};
        var i :| 0 <= i < |tree| && tree[i].0 == q;
        assert t[i].0 == q;
      }
    }
  }

  /** The rebuild of a tree without `p` and then `p`. */
  lemma {:induction false} ParseLast(env: Env, rr: Route, index: int, tree: Tree, p: Leaf, v: string)
    ensures ParseAll(env, rr, index, tree + [(p, v)])
         == (match ParseAll(env, rr, index, tree)
             case None => None
             case Some(r) => Parse(env, r, index, p, Some(v)))
    decreases |tree|
  {
    var t := tree + [(p, v)];
    if tree == [] {
      assert t[1..] == [];
      assert forall r :: ParseAll(env, r, index, t[1..]) == Some(r);
    } else {
      assert t[0] == tree[0] && t[1..] == tree[1..] + [(p, v)];
      match Parse(env, rr, index, tree[0].0, Some(tree[0].1))
      case None =>
      case Some(r) => ParseLast(env, r, index, tree[1..], p, v);
    }
  }

  /** A tree of an otherwise unambiguous configuration whose last leaf is `p`. */
  lemma TreeEndingIn(env: Env, index: int, m: Leaves, p: Leaf) returns (tree: Tree)
    requires p in m && Unambiguous(env, index, m - {p})
    ensures Lists(tree, m)
    ensures Rebuild(env, 4, index, tree) == Parse(env, Meaning(env, m - {p}), index, p, Some(m[p]))
  {
    var rest := SomeTree(m - {p});
    RebuildIsMeaning(env, index, m - {p}, rest);
    ListsAppend(rest, m, p);
    ParseLast(env, DefaultRoute(4), index, rest, p, m[p]);
    tree := rest + [(p, m[p])];
  }

  // ---------------------------------------------------------------- rebuild depends on the order

  lemma RejectedIff(env: Env, rr: Route, index: int, p: Leaf, v: string)
    requires rr.family == INET
    ensures Parse(env, rr, index, p, Some(v)) == None <==> !Accepted(env, index, p, v)
    ensures var r := Parse(env, rr, index, p, Some(v)); r.Some? ==> r.value.family == INET
  {
  }

  /** One rejected leaf anywhere makes the whole rebuild fail. */
  lemma {:induction false} RejectedTree(env: Env, rr: Route, index: int, tree: Tree, i: nat)
    requires rr.family == INET && i < |tree| && !Accepted(env, index, tree[i].0, tree[i].1)
    ensures ParseAll(env, rr, index, tree) == None
    decreases |tree|
  {
    RejectedIff(env, rr, index, tree[0].0, tree[0].1);
    var r := Parse(env, rr, index, tree[0].0, Some(tree[0].1));
    if r.Some? {
      RejectedTree(env, r.value, index, tree[1..], i - 1);
    }
  }

  lemma {:induction false} AcceptedTree(env: Env, rr: Route, index: int, tree: Tree)
    requires rr.family == INET
    requires forall i :: 0 <= i < |tree| ==> Accepted(env, index, tree[i].0, tree[i].1)
    ensures ParseAll(env, rr, index, tree).Some?
    ensures ParseAll(env, rr, index, tree).value.family == INET
    decreases |tree|
  {
    if tree != [] {
      RejectedIff(env, rr, index, tree[0].0, tree[0].1);
      AcceptedTree(env, Parse(env, rr, index, tree[0].0, Some(tree[0].1)).value, index, tree[1..]);
    }
  }

  ghost predicate HasLeaf(tree: Tree, p: Leaf) {
    exists i :: 0 <= i < |tree| && tree[i].0 == p
  }

  lemma {:induction false} NothingIsUnset(env: Env, rr: Route, index: int, tree: Tree)
    requires ParseAll(env, rr, index, tree).Some?
    ensures var r := ParseAll(env, rr, index, tree).value;
            && (rr.dst.Some? || HasLeaf(tree, Prefix) ==> r.dst.Some?)
            && (rr.nexthops != [] || HasLeaf(tree, Gateway) || HasLeaf(tree, Ifname) ==> r.nexthops != [])
    decreases |tree|
  {
    if tree != [] {
      var r := Parse(env, rr, index, tree[0].0, Some(tree[0].1)).value;
      NothingIsUnset(env, r, index, tree[1..]);
      forall p | HasLeaf(tree, p) ensures p == tree[0].0 || HasLeaf(tree[1..], p) {
        var i :| 0 <= i < |tree| && tree[i].0 == p;
        assert i > 0 ==> tree[1..][i - 1].0 == p;
      }
    }
  }

  /** A configuration with a prefix and a nexthop rebuilds to a valid route, when it rebuilds at all. */
  lemma ConfiguredIsValid(env: Env, index: int, m: Leaves, tree: Tree)
    requires Lists(tree, m) && Prefix in m && (Gateway in m || Ifname in m)
    ensures var r := Rebuild(env, 4, index, tree); r.Some? ==> RouteValid(r.value)
  {
    if Rebuild(env, 4, index, tree).Some? {
      NothingIsUnset(env, DefaultRoute(4), index, tree);
    }
  }

  /** With both kinds of nexthop set, the last one in the tree wins. */
  lemma NexthopOrder(env: Env, index: int, m: Leaves) returns (t: Tree, u: Tree)
    requires Gateway in m && Ifname in m
    requires forall p :: p in m ==> Accepted(env, index, p, m[p])
    ensures Lists(t, m) && Lists(u, m) && Rebuild(env, 4, index, t) != Rebuild(env, 4, index, u)
  {
    var rest := SomeTree(m - {Gateway, Ifname});
    var g, f := m[Gateway], m[Ifname];
    assert Accepted(env, index, Gateway, g) && Accepted(env, index, Ifname, f);
    assert m - {Gateway, Ifname} == (m - {Gateway}) - {Ifname} == (m - {Ifname}) - {Gateway};
    ListsAppend(rest, m - {Gateway}, Ifname);
    ListsAppend(rest, m - {Ifname}, Gateway);
    u := rest + [(Ifname, f)];
    t := rest + [(Gateway, g)];
    ListsAppend(u, m, Gateway);
    ListsAppend(t, m, Ifname);
    AcceptedTree(env, DefaultRoute(4), index, rest);
    RebuildHasOneHop(env, DefaultRoute(4), index, rest);
    LastNexthopWins(env, index, rest, g, f);
    u := u + [(Gateway, g)];
    t := t + [(Ifname, f)];
  }

  lemma LastNexthopWins(env: Env, index: int, rest: Tree, g: string, f: string)
    requires var r := Rebuild(env, 4, index, rest); r.Some? && |r.value.nexthops| <= 1 && r.value.family == INET
    requires Accepted(env, index, Gateway, g) && Accepted(env, index, Ifname, f)
    ensures Rebuild(env, 4, index, rest + [(Gateway, g)] + [(Ifname, f)])
         != Rebuild(env, 4, index, rest + [(Ifname, f)] + [(Gateway, g)])
  {
    ParseLast(env, DefaultRoute(4), index, rest, Gateway, g);
    ParseLast(env, DefaultRoute(4), index, rest, Ifname, f);
    ParseLast(env, DefaultRoute(4), index, rest + [(Gateway, g)], Ifname, f);
    ParseLast(env, DefaultRoute(4), index, rest + [(Ifname, f)], Gateway, g);
    var t := Rebuild(env, 4, index, rest + [(Gateway, g)] + [(Ifname, f)]);
    var u := Rebuild(env, 4, index, rest + [(Ifname, f)] + [(Gateway, g)]);
    assert t.value.nexthops == [Nexthop(None, env.nameToIndex(f))];
    assert u.value.nexthops == [Nexthop(env.parseAddress(g, INET), 0)];
    assert t.value.nexthops[0] != u.value.nexthops[0];
  }

  /** A metric of 65536 survives a distance read before it, not one read after it. */
  lemma MetricOrder(env: Env, index: int, m: Leaves) returns (t: Tree, u: Tree)
    requires MetricSpills(env, m) && Distance in m && Low32(env, m[Distance]) % 2 == 0
    requires Unambiguous(env, index, m - {Metric}) && Unambiguous(env, index, m - {Distance})
    requires Accepted(env, index, Distance, m[Distance])
    ensures Lists(t, m) && Lists(u, m) && Rebuild(env, 4, index, t) != Rebuild(env, 4, index, u)
  {
    t := TreeEndingIn(env, index, m, Metric);
    u := TreeEndingIn(env, index, m, Distance);
    MetricLast(env, m);
    DistanceLast(env, m);
  }

  lemma MetricLast(env: Env, m: Leaves)
    requires MetricSpills(env, m) && Distance in m && Low32(env, m[Distance]) % 2 == 0
    ensures SetMetric(Meaning(env, m - {Metric}).priority, HALF) == (DistanceOf(env, m) + 1) * HALF
  {
    var n := m - {Metric};
    assert DistanceOf(env, n) == DistanceOf(env, m) && MetricOf(env, n) == 0;
    SpillArithmetic(DistanceOf(env, m), 0);
  }

  lemma DistanceLast(env: Env, m: Leaves)
    requires MetricSpills(env, m) && Distance in m
    ensures SetDistance(Meaning(env, m - {Distance}).priority, Low32(env, m[Distance])) == DistanceOf(env, m) * HALF
  {
    var n := m - {Distance};
    assert MetricSpills(env, n);
    SpillArithmetic(0, Low32(env, m[Distance]));
  }

  /** For accepted leaves, the rebuild is independent of the order of the tree exactly when the
      configuration has at most one kind of nexthop and no metric of 65536 beside an even distance. */
  lemma RebuildOrderFreeIff(env: Env, index: int, m: Leaves)
    requires forall p :: p in m ==> Accepted(env, index, p, m[p])
    ensures (forall t, u :: Lists(t, m) && Lists(u, m) ==> Rebuild(env, 4, index, t) == Rebuild(env, 4, index, u))
       <==> Unambiguous(env, index, m)
  {
    if Unambiguous(env, index, m) {
      forall t | Lists(t, m) ensures Rebuild(env, 4, index, t) == Some(Meaning(env, m)) {
        RebuildIsMeaning(env, index, m, t);
      }
    } else if Gateway in m && Ifname in m {
      var t, u := NexthopOrder(env, index, m);
    } else {
      var t, u := MetricOrder(env, index, m);
    }
  }

  // ---------------------------------------------------------------- one write to a stored route

  function Rebuilt(env: Env, index: int, tree: Tree): Option<Route> {
    var r := Rebuild(env, 4, index, tree);
    if r.Some? && RouteValid(r.value) then r else None
  }

  /** What every rebuild of an unambiguous configuration gives. */
  function Wished(env: Env, m: Leaves): Option<Route> {
    if RouteValid(Meaning(env, m)) then Some(Meaning(env, m)) else None
  }

  /** The entry agrees with every rebuild of the configuration. */
  ghost predicate Agrees(env: Env, t: State, index: int, n: Leaves) {
    forall tree :: Lists(tree, n) ==> Lookup(t, index) == Rebuilt(env, index, tree)
  }

  lemma AgreesIffWished(env: Env, t: State, index: int, n: Leaves)
    requires Unambiguous(env, index, n)
    ensures Agrees(env, t, index, n) <==> Lookup(t, index) == Wished(env, n)
  {
    forall tree | Lists(tree, n) ensures Rebuilt(env, index, tree) == Wished(env, n) {
      RebuildIsMeaning(env, index, n, tree);
    }
    var tree := SomeTree(n);
  }

  lemma Disagreement(env: Env, t: State, index: int, n: Leaves, tree: Tree)
    requires Lists(tree, n) && Lookup(t, index) != Rebuilt(env, index, tree)
    ensures !Agrees(env, t, index, n)
  {
  }

  lemma OneOrderDisagrees(env: Env, t: State, index: int, n: Leaves, a: Tree, b: Tree)
    requires Lists(a, n) && Lists(b, n) && Rebuilt(env, index, a) != Rebuilt(env, index, b)
    ensures !Agrees(env, t, index, n)
  {
    if Lookup(t, index) == Rebuilt(env, index, a) {
      Disagreement(env, t, index, n, b);
    } else {
      Disagreement(env, t, index, n, a);
    }
  }

  /** The writes after which the entry of a stored route still is what a rebuild gives. */
  ghost predicate Survives(env: Env, index: int, m: Leaves, parameter: Leaf, value: Option<string>) {
    match value
    case Some(v) =>
      && Accepted(env, index, parameter, v)
      && (parameter == Gateway ==> Ifname !in m)
      && (parameter == Ifname ==> Gateway !in m)
      && (parameter == Distance && MetricSpills(env, m) ==> Low32(env, v) % 2 == 1)
      && (parameter == Metric && MetricSpills(env, m) ==> Distance in m || Low32(env, v) == HALF)
      && (parameter == Metric && Low32(env, v) == HALF && Distance in m ==> Low32(env, m[Distance]) % 2 == 1)
    case None =>
      && parameter != Id
      && (parameter == Gateway || parameter == Ifname ==> parameter in m)
      && (parameter == Distance ==> !MetricSpills(env, m))
      && (parameter == Metric && MetricSpills(env, m) ==> Distance in m)
  }

  /** The packed priority of a configuration. */
  function PriorityOf(env: Env, m: Leaves): uint32 {
    if !MetricSpills(env, m) then DistanceOf(env, m) * HALF + MetricOf(env, m)
    else if Distance in m then DistanceOf(env, m) * HALF
    else HALF
  }

  lemma MeaningPriority(env: Env, m: Leaves)
    ensures Meaning(env, m) == Target(env, m).(priority := PriorityOf(env, m))
  {
  }

  lemma DistanceSetIff(env: Env, index: int, m: Leaves, v: string)
    requires Unambiguous(env, index, m) && Unambiguous(env, index, m[Distance := v])
    ensures SetDistance(PriorityOf(env, m), Low32(env, v)) == PriorityOf(env, m[Distance := v])
  {
    var n := m[Distance := v];
    assert n[Distance] == v && MetricSpills(env, n) == MetricSpills(env, m) && MetricOf(env, n) == MetricOf(env, m);
    SettersAreIndependent(DistanceOf(env, m), MetricOf(env, m), Low32(env, v));
    SettersAreIndependent(DistanceOf(env, m), 0, Low32(env, v));
    SettersAreIndependent(1, 0, Low32(env, v));
  }

  lemma DistanceUnsetIff(env: Env, m: Leaves)
    ensures SetDistance(PriorityOf(env, m), 0) == PriorityOf(env, m - {Distance}) <==> !MetricSpills(env, m)
  {
    var n := m - {Distance};
    assert MetricSpills(env, n) == MetricSpills(env, m) && MetricOf(env, n) == MetricOf(env, m);
    SettersAreIndependent(DistanceOf(env, m), MetricOf(env, m), 0);
    SettersAreIndependent(DistanceOf(env, m), 0, 0);
    SettersAreIndependent(1, 0, 0);
  }

  lemma MetricSetIff(env: Env, index: int, m: Leaves, v: string)
    requires Unambiguous(env, index, m) && Unambiguous(env, index, m[Metric := v])
    ensures Low32(env, v) <= HALF
    ensures SetMetric(PriorityOf(env, m), Low32(env, v)) == PriorityOf(env, m[Metric := v])
       <==> (MetricSpills(env, m) ==> Distance in m || Low32(env, v) == HALF)
  {
    var n, d, x := m[Metric := v], DistanceOf(env, m), Low32(env, v);
    assert Accepted(env, index, Metric, n[Metric]);
    assert n[Metric] == v && DistanceOf(env, n) == d && (Distance in m ==> n[Distance] == m[Distance]);
    assert (d * HALF + MetricOf(env, m)) / HALF == d && d * HALF / HALF == d && HALF / HALF == 1;
    if Distance in m && (MetricSpills(env, m) || x == HALF) {
      assert d % 2 == 1;
    }
  }

  lemma MetricUnsetIff(env: Env, m: Leaves)
    ensures SetMetric(PriorityOf(env, m), 0) == PriorityOf(env, m - {Metric})
       <==> (MetricSpills(env, m) ==> Distance in m)
  {
    var n, d := m - {Metric}, DistanceOf(env, m);
    assert DistanceOf(env, n) == d;
    assert (d * HALF + MetricOf(env, m)) / HALF == d && d * HALF / HALF == d && HALF / HALF == 1;
  }

  lemma SetPriorityIff(env: Env, index: int, m: Leaves, parameter: Leaf, v: string)
    requires Unambiguous(env, index, m) && Unambiguous(env, index, m[parameter := v])
    requires parameter == Distance || parameter == Metric
    ensures var r := Parse(env, Meaning(env, m), index, parameter, Some(v));
            && r.Some? && RouteValid(r.value) == RouteValid(Meaning(env, m[parameter := v]))
            && (r.value == Meaning(env, m[parameter := v]) <==> Survives(env, index, m, parameter, Some(v)))
  {
    var n := m[parameter := v];
    assert Accepted(env, index, parameter, n[parameter]);
    TargetSet(env, m, parameter, v);
    MeaningPriority(env, m);
    MeaningPriority(env, n);
    if parameter == Distance {
      DistanceSetIff(env, index, m, v);
      assert MetricSpills(env, n) == MetricSpills(env, m);
    } else {
      MetricSetIff(env, index, m, v);
      assert Distance in m ==> n[Distance] == m[Distance];
    }
  }

  lemma SetOther(env: Env, index: int, m: Leaves, parameter: Leaf, v: string)
    requires Unambiguous(env, index, m) && Unambiguous(env, index, m[parameter := v])
    requires parameter != Distance && parameter != Metric
    ensures Parse(env, Meaning(env, m), index, parameter, Some(v)) == Some(Meaning(env, m[parameter := v]))
  {
    var n := m[parameter := v];
    assert Accepted(env, index, parameter, n[parameter]);
    assert Gateway in n ==> Ifname !in n;
    TargetSet(env, m, parameter, v);
    MeaningPriority(env, m);
    MeaningPriority(env, n);
    assert PriorityOf(env, n) == PriorityOf(env, m);
    if parameter == Gateway || parameter == Ifname {
      assert ReplaceNexthop(Meaning(env, m), Some(Target(env, n).nexthops[0])) == Meaning(env, n);
    }
  }

  /** Setting one leaf, when the new configuration is unambiguous. */
  lemma SetIff(env: Env, index: int, m: Leaves, parameter: Leaf, v: string)
    requires Unambiguous(env, index, m) && Unambiguous(env, index, m[parameter := v])
    ensures var r := Parse(env, Meaning(env, m), index, parameter, Some(v));
            && r.Some? && RouteValid(r.value) == RouteValid(Meaning(env, m[parameter := v]))
            && (r.value == Meaning(env, m[parameter := v]) <==> Survives(env, index, m, parameter, Some(v)))
  {
    if parameter == Distance || parameter == Metric {
      SetPriorityIff(env, index, m, parameter, v);
    } else {
      SetOther(env, index, m, parameter, v);
      var n := m[parameter := v];
      assert Accepted(env, index, parameter, n[parameter]) && !(Gateway in n && Ifname in n);
    }
  }

  lemma StaysUnambiguous(env: Env, index: int, m: Leaves, parameter: Leaf)
    requires Unambiguous(env, index, m)
    ensures Unambiguous(env, index, m - {parameter})
  {
  }

  /** Deleting one leaf of a stored route; the id and prefix leaves delete the route instead. */
  lemma UnsetIff(env: Env, index: int, m: Leaves, parameter: Leaf)
    requires Unambiguous(env, index, m) && Wished(env, m).Some? && parameter != Id && parameter != Prefix
    ensures var r := Parse(env, Meaning(env, m), index, parameter, None);
            && r.Some?
            && ((if RouteValid(r.value) then r else None) == Wished(env, m - {parameter})
                <==> Survives(env, index, m, parameter, None))
  {
    var n, t := m - {parameter}, Meaning(env, m);
    MeaningPriority(env, m);
    MeaningPriority(env, n);
    if parameter == Gateway || parameter == Ifname {
      assert |t.nexthops| == 1 && !RouteValid(ReplaceNexthop(t, None));
      assert parameter !in m ==> n == m;
    } else if parameter == Distance {
      DistanceUnsetIff(env, m);
      assert Meaning(env, n) == t.(priority := PriorityOf(env, n));
    } else if parameter == Metric {
      MetricUnsetIff(env, m);
      assert Meaning(env, n) == t.(priority := PriorityOf(env, n));
    } else {
      assert Meaning(env, n) == t;
    }
  }

  /** A rejected value leaves the stored route, but no route can be rebuilt any more. */
  lemma RejectedDisagrees(env: Env, t: State, index: int, m: Leaves, parameter: Leaf, v: string)
    requires !Accepted(env, index, parameter, v) && Lookup(t, index).Some?
    ensures !Agrees(env, t, index, m[parameter := v])
  {
    var n := m[parameter := v];
    var tree := SomeTree(n);
    assert n[parameter] == v;
    var i :| 0 <= i < |tree| && tree[i].0 == parameter;
    RejectedTree(env, DefaultRoute(4), index, tree, i);
    Disagreement(env, t, index, n, tree);
  }

  /** An accepted value after which two orders of the tree rebuild different routes. */
  lemma AmbiguousDisagrees(env: Env, t: State, index: int, m: Leaves, parameter: Leaf, v: string)
    requires Unambiguous(env, index, m) && Wished(env, m).Some? && Accepted(env, index, parameter, v)
    requires !Unambiguous(env, index, m[parameter := v])
    ensures !Agrees(env, t, index, m[parameter := v])
  {
    var n := m[parameter := v];
    assert Prefix in n && (Gateway in n || Ifname in n);
    var a: Tree, b: Tree;
    if Gateway in n && Ifname in n {
      a, b := NexthopOrder(env, index, n);
    } else {
      assert n[Distance] == if parameter == Distance then v else m[Distance];
      a, b := MetricOrder(env, index, n);
    }
    ConfiguredIsValid(env, index, n, a);
    ConfiguredIsValid(env, index, n, b);
    OneOrderDisagrees(env, t, index, n, a, b);
  }

  lemma SurvivorIsUnambiguous(env: Env, index: int, m: Leaves, parameter: Leaf, value: Option<string>)
    requires Unambiguous(env, index, m) && Survives(env, index, m, parameter, value)
    ensures Unambiguous(env, index, Written(m, parameter, value))
  {
    var n := Written(m, parameter, value);
    assert forall p :: p in n ==> n[p] == if value.Some? && p == parameter then value.value else m[p];
  }

  /** One write to a stored route: the entry agrees with every rebuild of the new configuration exactly
      when the write is one of `Survives`. */
  lemma UpdateAgreesIff(env: Env, s: State, m: Leaves, e: Event)
    requires e.family == 4 && e.index != 0 && Unambiguous(env, e.index, m)
    requires Wished(env, m).Some? && Lookup(s, e.index) == Wished(env, m)
    requires !Refused(s, Watch(env, s, e))
    ensures Agrees(env, Watch(env, s, e), e.index, Written(m, e.parameter, e.value))
       <==> Survives(env, e.index, m, e.parameter, e.value)
  {
    match e.value
    case None => UpdateUnsetAgreesIff(env, s, m, e);
    case Some(v) => UpdateSetAgreesIff(env, s, m, e, v);
  }

  lemma UpdateUnsetAgreesIff(env: Env, s: State, m: Leaves, e: Event)
    requires e.family == 4 && e.index != 0 && Unambiguous(env, e.index, m) && e.value == None
    requires Wished(env, m).Some? && Lookup(s, e.index) == Wished(env, m)
    requires !Refused(s, Watch(env, s, e))
    ensures Agrees(env, Watch(env, s, e), e.index, m - {e.parameter}) <==> Survives(env, e.index, m, e.parameter, None)
  {
    var n := m - {e.parameter};
    StaysUnambiguous(env, e.index, m, e.parameter);
    AgreesIffWished(env, Watch(env, s, e), e.index, n);
    if e.parameter == Id {
      assert Meaning(env, n) == Meaning(env, m);
    } else if e.parameter != Prefix {
      UnsetIff(env, e.index, m, e.parameter);
      UpdateOutcome(env, s, e, Parse(env, Meaning(env, m), e.index, e.parameter, None).value);
    }
  }

  lemma UpdateSetAgreesIff(env: Env, s: State, m: Leaves, e: Event, v: string)
    requires e.family == 4 && e.index != 0 && Unambiguous(env, e.index, m) && e.value == Some(v)
    requires Wished(env, m).Some? && Lookup(s, e.index) == Wished(env, m)
    requires !Refused(s, Watch(env, s, e))
    ensures Agrees(env, Watch(env, s, e), e.index, m[e.parameter := v])
       <==> Survives(env, e.index, m, e.parameter, Some(v))
  {
    var n, t := m[e.parameter := v], Watch(env, s, e);
    if !Accepted(env, e.index, e.parameter, v) {
      RejectedIff(env, Meaning(env, m), e.index, e.parameter, v);
      RejectedDisagrees(env, t, e.index, m, e.parameter, v);
    } else if !Unambiguous(env, e.index, n) {
      AmbiguousDisagrees(env, t, e.index, m, e.parameter, v);
      if Survives(env, e.index, m, e.parameter, Some(v)) {
        SurvivorIsUnambiguous(env, e.index, m, e.parameter, Some(v));
      }
    } else {
      AgreesIffWished(env, t, e.index, n);
      SetIff(env, e.index, m, e.parameter, v);
      UpdateOutcome(env, s, e, Parse(env, Meaning(env, m), e.index, e.parameter, Some(v)).value);
    }
  }

  // ---------------------------------------------------------------- runs

  /** The new configuration is unambiguous and, when the index holds a route, the write survives. */
  ghost predicate WriteKeeps(env: Env, y: System, e: Event) {
    var m := ConfigOf(y, e.index);
    && e.family == 4 && e.index != 0
    && Unambiguous(env, e.index, Written(m, e.parameter, e.value))
    && Lists(e.tree, Written(m, e.parameter, e.value))
    && (Lookup(y.rib, e.index).Some? ==> Survives(env, e.index, m, e.parameter, e.value))
  }

  ghost predicate WritesKeep(env: Env, y: System, events: seq<Event>)
    decreases |events|
  {
    events == [] || (WriteKeeps(env, y, events[0]) && WritesKeep(env, Write(env, y, events[0]), events[1..]))
  }

  /** The table is the rebuild of every configuration, minus the refused indices. */
  ghost predicate Mirrors(env: Env, y: System) {
    forall i :: Unambiguous(env, i, ConfigOf(y, i))
             && Lookup(y.rib, i) == (if i in y.refused then None else Wished(env, ConfigOf(y, i)))
  }

  lemma RefusedIsAbsent(env: Env, s: State, e: Event)
    requires e.family == 4 && e.index != 0 && Refused(s, Watch(env, s, e))
    ensures Lookup(Watch(env, s, e), e.index) == None
  {
  }

  lemma WriteStaysMirrored(env: Env, s: State, m: Leaves, e: Event)
    requires e.family == 4 && e.index != 0 && Unambiguous(env, e.index, m)
    requires Lookup(s, e.index) == None || Lookup(s, e.index) == Wished(env, m)
    requires Unambiguous(env, e.index, Written(m, e.parameter, e.value))
    requires Lists(e.tree, Written(m, e.parameter, e.value))
    requires Lookup(s, e.index).Some? ==> Survives(env, e.index, m, e.parameter, e.value)
    ensures var t := Watch(env, s, e);
            Lookup(t, e.index) == if Refused(s, t) then None else Wished(env, Written(m, e.parameter, e.value))
  {
    var n, t := Written(m, e.parameter, e.value), Watch(env, s, e);
    if Refused(s, t) {
      RefusedIsAbsent(env, s, e);
    } else if Lookup(s, e.index).Some? {
      UpdateAgreesIff(env, s, m, e);
      AgreesIffWished(env, t, e.index, n);
    } else {
      RebuildIsMeaning(env, e.index, n, e.tree);
    }
  }

  /** The refinement theorem with the exact condition on each write: a metric of 65536 is allowed
      wherever it agrees with a rebuild. */
  lemma {:induction false} RunMirrorsRebuild(env: Env, y: System, events: seq<Event>)
    requires Mirrors(env, y) && WritesKeep(env, y, events)
    ensures Mirrors(env, Writes(env, y, events))
    decreases |events|
  {
    if events != [] {
      var e := events[0];
      WriteStaysMirrored(env, y.rib, ConfigOf(y, e.index), e);
      var y' := Write(env, y, e);
      forall i
        ensures Unambiguous(env, i, ConfigOf(y', i))
        ensures Lookup(y'.rib, i) == (if i in y'.refused then None else Wished(env, ConfigOf(y', i)))
      {
        if i != e.index {
          assert ConfigOf(y', i) == ConfigOf(y, i);
          OtherIndicesUntouched(env, y.rib, e, i);
        }
      }
      RunMirrorsRebuild(env, y', events[1..]);
    }
  }
}
