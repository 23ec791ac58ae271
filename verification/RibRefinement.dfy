/** Incremental update against rebuilding from scratch, for IPv4 routes. */
module RibRefinement {
  import opened Bits
  import opened Libnl
  import opened RibSpec
  import opened Wrappers

  /** The leaves configured under one index. */
  type Leaves = map<Leaf, string>

  /** The tree lists the leaves, each once, in an order the library chooses. */
  ghost predicate Lists(tree: Tree, m: Leaves) {
    && (forall i :: 0 <= i < |tree| ==> tree[i].0 in m && m[tree[i].0] == tree[i].1)
    && (forall i, j :: 0 <= i < j < |tree| ==> tree[i].0 != tree[j].0)
    && (forall p :: p in m ==> exists i :: 0 <= i < |tree| && tree[i].0 == p)
  }

  // ---------------------------------------------------------------- what a configuration means

  /** What a 32-bit variable keeps of a number. */
  function Low32(env: Env, value: string): uint32 {
    env.toNumber(value) % 0x1_0000_0000
  }

  /** The values the parser takes: the id reads as the index, or as 2^64 more for a negative one; distance
      and metric go up to 65536. */
  predicate Accepted(env: Env, index: int, parameter: Leaf, value: string) {
    match parameter
    case Id => env.toNumber(value) == index || env.toNumber(value) == index + 0x1_0000_0000_0000_0000
    case Prefix => env.parseAddress(value, INET).Some?
    case Gateway => env.parseAddress(value, INET).Some?
    case Ifname => env.nameToIndex(value) != 0
    case Distance => 1 <= Low32(env, value) <= 65536
    case Metric => 1 <= Low32(env, value) <= 65536
    case Protocol => value == "static"
    case Other(_) => true
  }

  /** The accepted values that stay inside their half of the priority. */
  predicate LeafOk(env: Env, index: int, parameter: Leaf, value: string) {
    Accepted(env, index, parameter, value) && (parameter == Metric ==> Low32(env, value) < HALF)
  }

  ghost predicate Clean(env: Env, index: int, m: Leaves) {
    && (forall p :: p in m ==> LeafOk(env, index, p, m[p]))
    && !(Gateway in m && Ifname in m)
  }

  function DistanceOf(env: Env, m: Leaves): uint32 {
    if Distance in m then Low32(env, m[Distance]) % HALF else 0
  }

  function MetricOf(env: Env, m: Leaves): uint32 {
    if Metric in m then Low32(env, m[Metric]) % HALF else 0
  }

  /** The route a configuration describes, read leaf by leaf and in no order: a static route (protocol 4)
      of the main table (254). */
  function Target(env: Env, m: Leaves): Route {
    Route(INET, 254, 4,
          if Prefix in m then env.parseAddress(m[Prefix], INET) else None,
          if Gateway in m then [Nexthop(env.parseAddress(m[Gateway], INET), 0)]
          else if Ifname in m then [Nexthop(None, env.nameToIndex(m[Ifname]))]
          else [],
          DistanceOf(env, m) * HALF + MetricOf(env, m))
  }

  function Desired(env: Env, m: Leaves): Option<Route> {
    if RouteValid(Target(env, m)) then Some(Target(env, m)) else None
  }

  // ---------------------------------------------------------------- one leaf

  function Written(m: Leaves, parameter: Leaf, value: Option<string>): Leaves {
    if value.Some? then m[parameter := value.value] else m - {parameter}
  }

  /** The two setters write one half of the priority and keep the other. */
  lemma SettersAreIndependent(d: nat, m: nat, x: uint32)
    requires d < HALF && m < HALF
    ensures SetDistance(d * HALF + m, x) == x % HALF * HALF + m
    ensures x < HALF ==> SetMetric(d * HALF + m, x) == d * HALF + x
  {
    assert (d * HALF + m) % HALF == m;
  }

  /** Each leaf decides one field of the route, except that two decide the nexthop and two the priority. */
  lemma TargetSet(env: Env, m: Leaves, parameter: Leaf, value: string)
    requires (parameter == Gateway ==> Ifname !in m) && (parameter == Ifname ==> Gateway !in m)
    ensures var t, u := Target(env, m), Target(env, m[parameter := value]);
            match parameter
            case Prefix => u == t.(dst := env.parseAddress(value, INET))
            case Gateway => u == t.(nexthops := [Nexthop(env.parseAddress(value, INET), 0)])
            case Ifname => u == t.(nexthops := [Nexthop(None, env.nameToIndex(value))])
            case Distance => u == t.(priority := u.priority)
            case Metric => u == t.(priority := u.priority)
            case _ => u == t
  {
  }

  /** Setting one leaf moves the meaning of the old configuration to the meaning of the new one. */
  lemma ParseSet(env: Env, index: int, m: Leaves, parameter: Leaf, value: string)
    requires Clean(env, index, m) && Clean(env, index, m[parameter := value])
    ensures Parse(env, Target(env, m), index, parameter, Some(value)) == Some(Target(env, m[parameter := value]))
  {
    var n := m[parameter := value];
    var t, u := Target(env, m), Target(env, n);
    assert LeafOk(env, index, parameter, n[parameter]);
    SettersAreIndependent(DistanceOf(env, m), MetricOf(env, m), Low32(env, value));
    assert Gateway in n ==> Ifname !in n;
    TargetSet(env, m, parameter, value);
    match parameter
    case Gateway => assert ReplaceNexthop(t, Some(u.nexthops[0])) == u;
    case Ifname => assert ReplaceNexthop(t, Some(u.nexthops[0])) == u;
    case _ =>
  }

  /** Deleting a leaf likewise, unless it is the prefix or a nexthop leaf that is not set. */
  lemma ParseDelete(env: Env, index: int, m: Leaves, parameter: Leaf)
    requires Clean(env, index, m) && parameter != Prefix
    requires parameter == Gateway || parameter == Ifname ==> parameter in m
    ensures Parse(env, Target(env, m), index, parameter, None) == Some(Target(env, m - {parameter}))
  {
    var t, u := Target(env, m), Target(env, m - {parameter});
    SettersAreIndependent(DistanceOf(env, m), MetricOf(env, m), 0);
    assert parameter == Id || parameter == Protocol || parameter.Other? ==> u == t;
    match parameter
    case Gateway =>
      assert Ifname !in m && |t.nexthops| == 1;
      assert ReplaceNexthop(t, None) == t.(nexthops := []) == u;
    case Ifname =>
      assert Gateway !in m && |t.nexthops| == 1;
      assert ReplaceNexthop(t, None) == t.(nexthops := []) == u;
    case Distance => assert u == t.(priority := u.priority);
    case Metric => assert u == t.(priority := u.priority);
    case _ =>
  }

  // ---------------------------------------------------------------- rebuild

  predicate MetricSpills(env: Env, m: Leaves) {
    Metric in m && Low32(env, m[Metric]) == HALF
  }

  /** The configurations whose rebuild does not depend on the order of the tree. */
  ghost predicate Unambiguous(env: Env, index: int, m: Leaves) {
    && (forall p :: p in m ==> Accepted(env, index, p, m[p]))
    && !(Gateway in m && Ifname in m)
    && (MetricSpills(env, m) && Distance in m ==> Low32(env, m[Distance]) % 2 == 1)
  }

  /** A metric of 65536 sets the low bit of the distance and leaves the metric 0. */
  function Meaning(env: Env, m: Leaves): Route {
    if MetricSpills(env, m) then
      Target(env, m).(priority := if Distance in m then DistanceOf(env, m) * HALF else HALF)
    else Target(env, m)
  }

  lemma CleanIsUnambiguous(env: Env, index: int, m: Leaves)
    requires Clean(env, index, m)
    ensures Unambiguous(env, index, m) && Meaning(env, m) == Target(env, m)
  {
    assert Metric in m ==> LeafOk(env, index, Metric, m[Metric]);
    assert forall p :: p in m ==> LeafOk(env, index, p, m[p]);
  }

  /** What the setters do around a spilled metric. */
  lemma SpillArithmetic(d: nat, x: uint32)
    requires d < HALF
    ensures SetMetric(d * HALF, HALF) == (if d % 2 == 1 then d else d + 1) * HALF
    ensures SetDistance(HALF, x) == x % HALF * HALF
  {
    assert d * HALF / HALF == d;
    assert HALF % HALF == 0;
  }

  lemma BuildDistance(env: Env, index: int, m: Leaves, value: string)
    requires Unambiguous(env, index, m[Distance := value]) && Distance !in m
    ensures Meaning(env, m[Distance := value]).priority == SetDistance(Meaning(env, m).priority, Low32(env, value))
  {
    var n := m[Distance := value];
    assert n[Distance] == value;
    assert MetricSpills(env, n) == MetricSpills(env, m);
    assert MetricOf(env, n) == MetricOf(env, m);
    SettersAreIndependent(0, MetricOf(env, m), Low32(env, value));
    SpillArithmetic(0, Low32(env, value));
  }

  lemma BuildMetric(env: Env, index: int, m: Leaves, value: string)
    requires Unambiguous(env, index, m[Metric := value]) && Metric !in m
    ensures Low32(env, value) <= HALF
    ensures Meaning(env, m[Metric := value]).priority == SetMetric(Meaning(env, m).priority, Low32(env, value))
  {
    var n := m[Metric := value];
    assert Accepted(env, index, Metric, n[Metric]);
    assert DistanceOf(env, n) == DistanceOf(env, m);
    var d := DistanceOf(env, m);
    SettersAreIndependent(d, 0, Low32(env, value));
    SpillArithmetic(d, 0);
    if Distance in m && MetricSpills(env, n) {
      assert n[Distance] == m[Distance];
      assert d % 2 == 1;
    }
  }

  /** One more leaf of a tree adds its meaning to the route built so far. */
  lemma BuildStep(env: Env, index: int, m: Leaves, parameter: Leaf, value: string)
    requires Unambiguous(env, index, m) && Unambiguous(env, index, m[parameter := value]) && parameter !in m
    ensures Parse(env, Meaning(env, m), index, parameter, Some(value)) == Some(Meaning(env, m[parameter := value]))
  {
    var n := m[parameter := value];
    var t, u := Meaning(env, m), Meaning(env, n);
    assert Accepted(env, index, parameter, n[parameter]);
    assert Gateway in n ==> Ifname !in n;
    TargetSet(env, m, parameter, value);
    match parameter
    case Gateway => assert ReplaceNexthop(t, Some(u.nexthops[0])) == u;
    case Ifname => assert ReplaceNexthop(t, Some(u.nexthops[0])) == u;
    case Distance => BuildDistance(env, index, m, value);
    case Metric => BuildMetric(env, index, m, value);
    case _ =>
  }

  lemma {:induction false} ParseAllBuilds(env: Env, index: int, seen: Leaves, m: Leaves, tree: Tree)
    requires Unambiguous(env, index, m) && Lists(tree, m - seen.Keys)
    requires forall p :: p in seen ==> p in m && m[p] == seen[p]
    ensures ParseAll(env, Meaning(env, seen), index, tree) == Some(Meaning(env, m))
    decreases |tree|
  {
    if tree == [] {
      assert forall p :: p in m ==> p in seen || p in m - seen.Keys;
      assert seen == m;
    } else {
      var (p, v) := tree[0];
      var seen' := seen[p := v];
      BuildStep(env, index, seen, p, v);
      forall q | q in m - seen'.Keys ensures exists i :: 0 <= i < |tree[1..]| && tree[1..][i].0 == q {
        assert q in m - seen.Keys;
        var i :| 0 <= i < |tree| && tree[i].0 == q;
        assert tree[1..][i - 1] == tree[i];
      }
      ParseAllBuilds(env, index, seen', m, tree[1..]);
    }
  }

  /** Rebuilding an unambiguous configuration gives its meaning, whatever the order of the tree. */
  lemma RebuildIsMeaning(env: Env, index: int, m: Leaves, tree: Tree)
    requires Unambiguous(env, index, m) && Lists(tree, m)
    ensures Rebuild(env, 4, index, tree) == Some(Meaning(env, m))
  {
    var none: Leaves := map[];
    assert m - none.Keys == m;
    ParseAllBuilds(env, index, none, m, tree);
  }

  lemma RebuildIsTarget(env: Env, index: int, m: Leaves, tree: Tree)
    requires Clean(env, index, m) && Lists(tree, m)
    ensures Rebuild(env, 4, index, tree) == Some(Target(env, m))
  {
    CleanIsUnambiguous(env, index, m);
    RebuildIsMeaning(env, index, m, tree);
  }

  /** Which values the parser takes, for a route of either family: a written value that is accepted, and
      every delete but that of the prefix. */
  lemma ParseAcceptsIff(env: Env, rr: Route, index: int, parameter: Leaf, value: Option<string>)
    requires -0x8000_0000 <= index < 0x8000_0000
    ensures Parse(env, rr, index, parameter, value).Some? <==>
              match value
              case None => parameter != Prefix
              case Some(v) =>
                if parameter == Prefix || parameter == Gateway then env.parseAddress(v, rr.family).Some?
                else Accepted(env, index, parameter, v)
  {
  }

  /** What an accepted value edits, for a route of either family: one field, or one half of the priority.
      A metric of 65536 clears the low half and sets the lowest bit of the high half. */
  lemma ParseEdits(env: Env, rr: Route, index: int, parameter: Leaf, value: Option<string>)
    requires |rr.nexthops| <= 1 && Parse(env, rr, index, parameter, value).Some?
    ensures var q := Parse(env, rr, index, parameter, value).value;
            var n := if value.Some? then Low32(env, value.value) else 0;
            var high, low := rr.priority / 65536, rr.priority % 65536;
            match parameter
            case Prefix => value.Some? && q == rr.(dst := env.parseAddress(value.value, rr.family))
            case Gateway =>
              q == rr.(nexthops := if value.Some? then [Nexthop(env.parseAddress(value.value, rr.family), 0)] else [])
            case Ifname =>
              q == rr.(nexthops := if value.Some? then [Nexthop(None, env.nameToIndex(value.value))] else [])
            case Distance => q == rr.(priority := n % 65536 * 65536 + low)
            case Metric =>
              q == rr.(priority := (if n == 65536 && high % 2 == 0 then high + 1 else high) * 65536 + n % 65536)
            case _ => q == rr
  {
  }

  /** The id leaf, for every route and every C int: accepted exactly when its number is the index, or the
      index plus 2^64 for a negative index. */
  lemma IdAcceptedIff(env: Env, rr: Route, index: int, value: string)
    requires -0x8000_0000 <= index < 0x8000_0000
    ensures Parse(env, rr, index, Id, Some(value)).Some?
       <==> env.toNumber(value) == (if index >= 0 then index else index + 0x1_0000_0000_0000_0000)
    ensures Parse(env, rr, index, Id, Some(value)).Some? ==> Parse(env, rr, index, Id, Some(value)).value == rr
  {
  }

  /** A complete configuration whose id reads as its index is stored, and installed as one route. */
  lemma CompleteIsStored(env: Env, s: State, e: Event, id: string, prefix: string, gateway: string)
    requires e.family == 4 && e.index > 0 && Slot(true, e.index) !in s.table
    requires Lists(e.tree, map[Id := id, Prefix := prefix, Gateway := gateway])
    requires env.toNumber(id) == e.index
    requires env.parseAddress(prefix, INET).Some? && env.parseAddress(gateway, INET).Some?
    ensures var rr := Route(INET, 254, 4, env.parseAddress(prefix, INET),
                            [Nexthop(env.parseAddress(gateway, INET), 0)], 0);
            Accepts(env, s.kernel, rr, e.refuse) ==>
              && Lookup(Watch(env, s, e), e.index) == Some(rr)
              && Watch(env, s, e).kernel == s.kernel + {rr}
  {
    var m: Leaves := map[Id := id, Prefix := prefix, Gateway := gateway];
    assert forall p :: p in m ==> p == Id || p == Prefix || p == Gateway;
    assert Clean(env, e.index, m);
    RebuildIsTarget(env, e.index, m, e.tree);
  }

  /** The same for either family, when the leaves come in this order. */
  lemma EitherFamilyIsStored(env: Env, s: State, e: Event, id: string, prefix: string, gateway: string)
    requires e.index > 0 && Slot(e.family == 4, e.index) !in s.table
    requires e.tree == [(Id, id), (Prefix, prefix), (Gateway, gateway)] && env.toNumber(id) == e.index
    requires var family := if e.family == 4 then INET else INET6;
             env.parseAddress(prefix, family).Some? && env.parseAddress(gateway, family).Some?
    ensures var family, t := if e.family == 4 then INET else INET6, Watch(env, s, e);
            var rr := Route(family, 254, 4, env.parseAddress(prefix, family),
                            [Nexthop(env.parseAddress(gateway, family), 0)], 0);
            Accepts(env, s.kernel, rr, e.refuse) ==>
              t.table == s.table[Slot(e.family == 4, e.index) := rr] && t.kernel == s.kernel + {rr}
  {
    var family := if e.family == 4 then INET else INET6;
    var r0 := DefaultRoute(e.family);
    var r1 := r0.(dst := env.parseAddress(prefix, family));
    var r2 := r1.(nexthops := [Nexthop(env.parseAddress(gateway, family), 0)]);
    var t1, t2 := e.tree[1..], e.tree[1..][1..];
    assert t1 == [(Prefix, prefix), (Gateway, gateway)] && t2 == [(Gateway, gateway)] && t2[1..] == [];
    assert ReplaceNexthop(r1, Some(r2.nexthops[0])) == r2;
    assert Parse(env, r1, e.index, Gateway, Some(gateway)) == Some(r2);
    assert ParseAll(env, r2, e.index, t2[1..]) == Some(r2);
    assert ParseAll(env, r1, e.index, t2) == Some(r2);
    assert ParseAll(env, r0, e.index, t1) == Some(r2);
    assert ParseAll(env, r0, e.index, e.tree) == Some(r2);
  }

  // ---------------------------------------------------------------- one callback

  /** A write after which the incremental route still is the rebuilt one. */
  ghost predicate Harmless(env: Env, index: int, m: Leaves, parameter: Leaf, value: Option<string>) {
    match value
    case Some(v) =>
      && LeafOk(env, index, parameter, v)
      && (parameter == Gateway ==> Ifname !in m)
      && (parameter == Ifname ==> Gateway !in m)
    case None =>
      && parameter != Id
      && (parameter == Gateway || parameter == Ifname ==> parameter in m)
  }

  function Lookup(s: State, index: int): Option<Route> {
    if Slot(true, index) in s.table then Some(s.table[Slot(true, index)]) else None
  }

  /** The callback asked for an add and the kernel refused it. */
  predicate Refused(s: State, t: State) {
    |s.requests| < |t.requests| && t.requests[|t.requests| - 1].Add? && !t.requests[|t.requests| - 1].accepted
  }

  lemma WrittenIsClean(env: Env, index: int, m: Leaves, parameter: Leaf, value: Option<string>)
    requires Clean(env, index, m) && Harmless(env, index, m, parameter, value)
    ensures Clean(env, index, Written(m, parameter, value))
  {
  }

  lemma OtherIndicesUntouched(env: Env, s: State, e: Event, i: int)
    requires e.family == 4 && i != e.index
    ensures Lookup(Watch(env, s, e), i) == Lookup(s, i)
  {
  }

  /** The outcome of an update is the edited route, unless it is invalid or refused. */
  lemma UpdateOutcome(env: Env, s: State, e: Event, edited: Route)
    requires e.family == 4 && e.index != 0 && Slot(true, e.index) in s.table
    requires !(e.value.None? && (e.parameter == Id || e.parameter == Prefix))
    requires Parse(env, s.table[Slot(true, e.index)], e.index, e.parameter, e.value) == Some(edited)
    requires RouteValid(s.table[Slot(true, e.index)])
    ensures var t := Watch(env, s, e);
            Lookup(t, e.index) == (if Refused(s, t) || !RouteValid(edited) then None else Some(edited))
  {
  }

  /** One write to a clean configuration: the entry becomes what the new configuration means, or
      nothing when the kernel refused it. */
  lemma WriteConverges(env: Env, s: State, m: Leaves, e: Event)
    requires e.family == 4 && e.index != 0
    requires Clean(env, e.index, m) && Harmless(env, e.index, m, e.parameter, e.value)
    requires Lookup(s, e.index) == None || Lookup(s, e.index) == Desired(env, m)
    requires Lists(e.tree, Written(m, e.parameter, e.value))
    ensures var n, t := Written(m, e.parameter, e.value), Watch(env, s, e);
            && Clean(env, e.index, n)
            && Lookup(t, e.index) == (if Refused(s, t) then None else Desired(env, n))
  {
    var n := Written(m, e.parameter, e.value);
    WrittenIsClean(env, e.index, m, e.parameter, e.value);
    if Slot(true, e.index) !in s.table {
      RebuildIsTarget(env, e.index, n, e.tree);
    } else if e.value.Some? {
      ParseSet(env, e.index, m, e.parameter, e.value.value);
      UpdateOutcome(env, s, e, Target(env, n));
    } else if e.parameter != Prefix {
      ParseDelete(env, e.index, m, e.parameter);
      UpdateOutcome(env, s, e, Target(env, n));
    }
  }

  // ---------------------------------------------------------------- runs

  /** The daemon, the IPv4 configuration, and the indices whose last add the kernel refused. */
  datatype System = System(rib: State, config: map<int, Leaves>, refused: set<int>)

  function ConfigOf(y: System, index: int): Leaves {
    if index in y.config then y.config[index] else map[]
  }

  function Write(env: Env, y: System, e: Event): System {
    var t := Watch(env, y.rib, e);
    System(t, y.config[e.index := Written(ConfigOf(y, e.index), e.parameter, e.value)],
           if Refused(y.rib, t) then y.refused + {e.index} else y.refused - {e.index})
  }

  ghost predicate WriteOk(env: Env, y: System, e: Event) {
    && e.family == 4 && e.index != 0
    && Harmless(env, e.index, ConfigOf(y, e.index), e.parameter, e.value)
    && Lists(e.tree, Written(ConfigOf(y, e.index), e.parameter, e.value))
  }

  function Writes(env: Env, y: System, events: seq<Event>): System
    decreases |events|
  {
    if events == [] then y else Writes(env, Write(env, y, events[0]), events[1..])
  }

  ghost predicate WritesOk(env: Env, y: System, events: seq<Event>)
    decreases |events|
  {
    events == [] || (WriteOk(env, y, events[0]) && WritesOk(env, Write(env, y, events[0]), events[1..]))
  }

  /** What a rebuild from scratch would put in the IPv4 table, minus the refused indices. */
  ghost predicate Refines(env: Env, y: System) {
    forall i :: Clean(env, i, ConfigOf(y, i))
             && Lookup(y.rib, i) == (if i in y.refused then None else Desired(env, ConfigOf(y, i)))
  }

  /** The main theorem: after every write of every run, each table entry is exactly what rebuilding
      its current configuration gives, unless the kernel refused that index's last add. */
  lemma {:induction false} IncrementalRefinesRebuild(env: Env, y: System, events: seq<Event>)
    requires Refines(env, y) && WritesOk(env, y, events)
    ensures Refines(env, Writes(env, y, events))
    decreases |events|
  {
    if events != [] {
      var e := events[0];
      WriteConverges(env, y.rib, ConfigOf(y, e.index), e);
      var y' := Write(env, y, e);
      forall i
        ensures Clean(env, i, ConfigOf(y', i))
        ensures Lookup(y'.rib, i) == (if i in y'.refused then None else Desired(env, ConfigOf(y', i)))
      {
        if i != e.index {
          assert ConfigOf(y', i) == ConfigOf(y, i);
          OtherIndicesUntouched(env, y.rib, e, i);
        }
      }
      IncrementalRefinesRebuild(env, y', events[1..]);
    }
  }

  /** `Desired` is what the code's own rebuild computes. */
  lemma DesiredIsRebuild(env: Env, index: int, m: Leaves, tree: Tree)
    requires Clean(env, index, m) && Lists(tree, m)
    ensures Desired(env, m) == (var r := Rebuild(env, 4, index, tree);
                                if r.Some? && RouteValid(r.value) then r else None)
  {
    RebuildIsTarget(env, index, m, tree);
  }

  /** Two orders of the same clean configuration give the same table: only the configuration counts. */
  lemma OnlyTheConfigurationCounts(env: Env, y: System, es: seq<Event>, fs: seq<Event>, index: int)
    requires Refines(env, y) && WritesOk(env, y, es) && WritesOk(env, y, fs)
    requires ConfigOf(Writes(env, y, es), index) == ConfigOf(Writes(env, y, fs), index)
    requires index !in Writes(env, y, es).refused && index !in Writes(env, y, fs).refused
    ensures Lookup(Writes(env, y, es).rib, index) == Lookup(Writes(env, y, fs).rib, index)
  {
    IncrementalRefinesRebuild(env, y, es);
    IncrementalRefinesRebuild(env, y, fs);
  }
}
