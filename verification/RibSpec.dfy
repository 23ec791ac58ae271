/** The static-route reconciler as a function on values.

    `Watch` follows the three branches of watch_static_routes; the class in Rib.dfy is proved
    to compute it on routes edited in place. */
module RibSpec {
  import opened Bits
  import opened Libnl
  import opened Wrappers

  type uint64 = x: int | 0 <= x < WORD * WORD

  /** What decides whether the kernel takes two routes for the same one. */
  type Key(==, !new)

  /** The library calls whose results the reconciler only consumes. */
  datatype Env = Env(parseAddress: (string, Family) -> Option<Address>,
                     nameToIndex: string -> int,
                     toNumber: string -> uint64,
                     key: Route -> Key)

  /** The leaves of a rib entry; `Other` covers every name the parser ignores. */
  datatype Leaf = Id | Prefix | Gateway | Ifname | Distance | Metric | Protocol | Other(name: string)

  type Tree = seq<(Leaf, string)>

  // ---------------------------------------------------------------- parameters

  /** strtoull stored in a uint32_t. */
  function Number(env: Env, value: string): uint32 {
    env.toNumber(value) % WORD
  }

  /** The id leaf is compared as unsigned long long with an int. */
  predicate IdMatches(env: Env, value: string, index: int) {
    env.toNumber(value) == if index < 0 then index + WORD * WORD else index
  }

  /** The distance is the high half of the priority; see DistanceBits for the C expression. */
  function SetDistance(priority: uint32, distance: uint32): uint32 {
    distance % HALF * HALF + priority % HALF
  }

  /** The metric is or-ed into the low half, so 65536 lands on the low bit of the distance. */
  function SetMetric(priority: uint32, metric: uint32): uint32
    requires metric <= HALF
  {
    var distance := priority / HALF;
    if metric < HALF then distance * HALF + metric
    else (if distance % 2 == 1 then distance else distance + 1) * HALF
  }

  lemma DistanceBits(priority: uint32, distance: uint32)
    ensures Or(And(priority, 0x0000_FFFF), distance * HALF % WORD) == SetDistance(priority, distance)
  {
    Halves(priority);
    ShiftedHalf(distance);
    OrHalves(distance % HALF, priority % HALF);
  }

  lemma MetricBits(priority: uint32, metric: uint32)
    requires metric <= HALF
    ensures Or(And(priority, 0xFFFF_0000), metric) == SetMetric(priority, metric)
  {
    Halves(priority);
    assert priority - priority % HALF == priority / HALF * HALF;
    OrBit16(priority / HALF, HALF);
    OrHalves(priority / HALF, metric % HALF);
  }

  function ReplaceNexthop(rr: Route, nh: Option<Nexthop>): Route {
    var rest := if rr.nexthops == [] then [] else rr.nexthops[1..];
    rr.(nexthops := if nh.Some? then rest + [nh.value] else rest)
  }

  /** The nexthop described by a nexthop or ifname leaf; the outer None is a parse failure. */
  function ParseNexthop(env: Env, family: Family, parameter: Leaf, value: Option<string>): Option<Option<Nexthop>> {
    if value.None? then Some(None)
    else if parameter == Gateway then
      match env.parseAddress(value.value, family)
      case None => None
      case Some(a) => Some(Some(Nexthop(Some(a), 0)))
    else
      var ifindex := env.nameToIndex(value.value);
      if ifindex == 0 then None else Some(Some(Nexthop(None, ifindex)))
  }

  /** parse_parameter: None when the value is rejected, otherwise the edited route. */
  function Parse(env: Env, rr: Route, index: int, parameter: Leaf, value: Option<string>): Option<Route> {
    if parameter == Id then
      if value.Some? && !IdMatches(env, value.value, index) then None else Some(rr)
    else if parameter == Prefix then
      if value.None? then None
      else
        match env.parseAddress(value.value, rr.family)
        case None => None
        case Some(a) => Some(rr.(dst := Some(a)))
    else if parameter == Gateway || parameter == Ifname then
      match ParseNexthop(env, rr.family, parameter, value)
      case None => None
      case Some(nh) => Some(ReplaceNexthop(rr, nh))
    else if parameter == Distance then
      if value.None? then Some(rr.(priority := SetDistance(rr.priority, 0)))
      else if 1 <= Number(env, value.value) <= HALF then
        Some(rr.(priority := SetDistance(rr.priority, Number(env, value.value))))
      else None
    else if parameter == Metric then
      if value.None? then Some(rr.(priority := SetMetric(rr.priority, 0)))
      else if 1 <= Number(env, value.value) <= HALF then
        Some(rr.(priority := SetMetric(rr.priority, Number(env, value.value))))
      else None
    else if parameter == Protocol then
      if value.Some? && value.value != "static" then None else Some(rr)
    else Some(rr)
  }

  // ---------------------------------------------------------------- rebuild

  function FamilyOf(family: int): Family {
    if family == 4 then INET else INET6
  }

  function DefaultRoute(family: int): Route {
    Route(FamilyOf(family), RT_TABLE_MAIN, RTPROT_STATIC, None, [], 0)
  }

  function ParseAll(env: Env, rr: Route, index: int, tree: Tree): Option<Route>
    decreases |tree|
  {
    if tree == [] then Some(rr)
    else
      match Parse(env, rr, index, tree[0].0, Some(tree[0].1))
      case None => None
      case Some(r) => ParseAll(env, r, index, tree[1..])
  }

  /** apteryx_to_route on the tree found under the index. */
  function Rebuild(env: Env, family: int, index: int, tree: Tree): Option<Route> {
    ParseAll(env, DefaultRoute(family), index, tree)
  }

  predicate RouteValid(rr: Route) {
    rr.dst.Some? && rr.nexthops != []
  }

  // ---------------------------------------------------------------- state machine

  /** An entry of v4_static_routes (family 4) or v6_static_routes (any other family). */
  datatype Slot = Slot(v4: bool, index: int)

  datatype Request = Add(route: Route, accepted: bool) | Delete(route: Route)

  /** `foreign` remembers the kernel routes other programs own; the code has no such variable. */
  datatype State = State(table: map<Slot, Route>, kernel: set<Route>, foreign: set<Route>, requests: seq<Request>)

  /** `tree` is the configuration found under the index if it is read during the callback;
      `refuse` says that the kernel turns an add down for a reason of its own. */
  datatype Event = Event(family: int, index: int, parameter: Leaf, value: Option<string>, tree: Tree, refuse: bool)

  predicate Accepts(env: Env, kernel: set<Route>, rr: Route, refuse: bool) {
    !refuse && forall q | q in kernel :: env.key(q) != env.key(rr)
  }

  function RouteAdd(env: Env, s: State, slot: Slot, rr: Route, refuse: bool): State {
    if Accepts(env, s.kernel, rr, refuse) then
      s.(table := s.table[slot := rr], kernel := s.kernel + {rr}, requests := s.requests + [Add(rr, true)])
    else
      s.(requests := s.requests + [Add(rr, false)])
  }

  /** Index 0 means "leave the lookup table alone". */
  function RouteDel(s: State, slot: Slot, rr: Route): State {
    s.(table := if slot.index != 0 then s.table - {slot} else s.table,
       kernel := s.kernel - {rr},
       requests := s.requests + [Delete(rr)])
  }

  /** The stored route is edited in place, its old contents are deleted from the kernel, and the new
      contents are added when they are valid. */
  function Update(env: Env, s: State, slot: Slot, edited: Route, refuse: bool): State
    requires slot in s.table
  {
    var t := RouteDel(s.(table := s.table[slot := edited]), slot, s.table[slot]);
    if RouteValid(edited) then RouteAdd(env, t, slot, edited, refuse) else t
  }

  function Watch(env: Env, s: State, e: Event): State {
    var slot := Slot(e.family == 4, e.index);
    if slot !in s.table then
      var rr := Rebuild(env, e.family, e.index, e.tree);
      if rr.Some? && RouteValid(rr.value) then RouteAdd(env, s, slot, rr.value, e.refuse) else s
    else
      var rr := s.table[slot];
      if e.value.None? && (e.parameter == Id || e.parameter == Prefix) then
        RouteDel(s, slot, rr)
      else
        var edited := Parse(env, rr, e.index, e.parameter, e.value);
        if edited.None? || edited.value == rr then s else Update(env, s, slot, edited.value, e.refuse)
  }
}
