/** One subscriber of a kernel cache: what it builds from replayed and live events. */
module Mirror {
  import opened Libnl
  import opened Wrappers
  import opened FibKey

  datatype Event = New(route: Route) | Del(route: Route)

  function Follow(s: set<Route>, e: Event): set<Route> {
    if e.New? then s + {e.route} else s - {e.route}
  }

  /** The set a subscriber keeps by following the events. */
  function Fold(start: set<Route>, events: seq<Event>): set<Route>
    decreases |events|
  {
    if events == [] then start else Follow(Fold(start, events[..|events| - 1]), events[|events| - 1])
  }

  // ---------------------------------------------------------------- registration racing with changes

  /** What the registering thread is doing for this subscriber. The walk of the cache has `todo` ahead
      of it and holds at most one object, visited but not yet handed to the callback. */
  datatype Subscriber = Absent | Replaying(todo: set<Route>, held: Option<Route>) | Live

  /** What the monitor thread is doing: the cache is updated first and the callbacks run afterwards;
      `calls` tells whether the walk of the list that has begun includes this subscriber. */
  datatype Monitor = Idle | Changed(event: Event) | Walking(event: Event, calls: bool)

  datatype State = State(cache: set<Route>, sub: Subscriber, monitor: Monitor, delivered: seq<Event>)

  /** One atomic step of either thread. A cache change during a replay may or may not be `noticed` by
      the walk, which takes no lock. */
  datatype Step =
    | Register                                      // prepend the callback and start the replay
    | Visit(route: Route)                           // the walk reaches an object
    | HandOver                                      // and calls back with it
    | FinishReplay
    | CacheAdd(route: Route, noticed: bool)
    | CacheDel(route: Route, noticed: bool)
    | Walk                                          // change_cb reads the head of the list
    | Deliver

  predicate Enabled(s: State, step: Step) {
    match step
    case Register => s.sub.Absent?
    case Visit(r) => s.sub.Replaying? && s.sub.held.None? && r in s.sub.todo
    case HandOver => s.sub.Replaying? && s.sub.held.Some?
    case FinishReplay => s.sub.Replaying? && s.sub.todo == {} && s.sub.held.None?
    case CacheAdd(r, _) => s.monitor.Idle? && r !in s.cache
    case CacheDel(r, _) => s.monitor.Idle? && r in s.cache
    case Walk => s.monitor.Changed?
    case Deliver => s.monitor.Walking?
  }

  function Apply(s: State, step: Step): State
    requires Enabled(s, step)
  {
    match step
    case Register => s.(sub := Replaying(s.cache, None))
    case Visit(r) => s.(sub := Replaying(s.sub.todo - {r}, Some(r)))
    case HandOver => s.(sub := Replaying(s.sub.todo, None), delivered := s.delivered + [New(s.sub.held.value)])
    case FinishReplay => s.(sub := Live)
    case CacheAdd(r, noticed) =>
      s.(cache := s.cache + {r}, monitor := Changed(New(r)),
         sub := if noticed && s.sub.Replaying? then s.sub.(todo := s.sub.todo + {r}) else s.sub)
    case CacheDel(r, noticed) =>
      s.(cache := s.cache - {r}, monitor := Changed(Del(r)),
         sub := if noticed && s.sub.Replaying? then s.sub.(todo := s.sub.todo - {r}) else s.sub)
    case Walk => s.(monitor := Walking(s.monitor.event, !s.sub.Absent?))
    case Deliver =>
      s.(monitor := Idle, delivered := if s.monitor.calls then s.delivered + [s.monitor.event] else s.delivered)
  }

  function View(s: State): set<Route> {
    Fold({}, s.delivered)
  }

  /** The change still to be delivered to this subscriber, if any. */
  function Coming(s: State): Option<Event> {
    if s.monitor.Changed? && !s.sub.Absent? then Some(s.monitor.event)
    else if s.monitor.Walking? && s.monitor.calls then Some(s.monitor.event)
    else None
  }

  /** A replayed object handed over after its deletion was delivered stays in the view until the cache
      gets it again. */
  function Overtaken(late: set<Route>, s: State, step: Step): set<Route>
    requires Enabled(s, step)
  {
    match step
    case HandOver =>
      var r := s.sub.held.value;
      if r !in s.cache && Coming(s) != Some(Del(r)) then late + {r} else late
    case CacheAdd(r, _) => late - {r}
    case _ => late
  }

  /** The view is the cache and the overtaken objects, apart from what the replay and the pending
      change still bring. */
  ghost predicate Inv(s: State, late: set<Route>) {
    && late !! s.cache
    && (s.sub.Absent? ==> s.delivered == [] && late == {} && (s.monitor.Walking? ==> !s.monitor.calls))
    && (!s.monitor.Idle? ==> (s.monitor.event.New? <==> s.monitor.event.route in s.cache))
    && (!s.sub.Absent? ==>
          && late <= View(s)
          && (forall r :: r in late ==> Coming(s) != Some(Del(r)))
          && (forall r :: r in View(s) ==> r in s.cache || r in late || Coming(s) == Some(Del(r)))
          && (forall r :: r in s.cache ==> r in View(s) || Ahead(s.sub, r) || Coming(s) == Some(New(r))))
  }

  predicate Ahead(sub: Subscriber, r: Route) {
    sub.Replaying? && (r in sub.todo || sub.held == Some(r))
  }

  lemma FoldAppend(start: set<Route>, events: seq<Event>, e: Event)
    ensures Fold(start, events + [e]) == Follow(Fold(start, events), e)
  {
    assert (events + [e])[..|events|] == events;
  }

  lemma {:induction false} HandOverKeepsInv(s: State, late: set<Route>)
    requires Inv(s, late) && Enabled(s, HandOver)
    ensures Inv(Apply(s, HandOver), Overtaken(late, s, HandOver))
  {
    FoldAppend({}, s.delivered, New(s.sub.held.value));
    assert View(Apply(s, HandOver)) == View(s) + {s.sub.held.value};
  }

  lemma {:induction false} DeliverKeepsInv(s: State, late: set<Route>)
    requires Inv(s, late) && Enabled(s, Deliver)
    ensures Inv(Apply(s, Deliver), Overtaken(late, s, Deliver))
  {
    if s.monitor.calls {
      FoldAppend({}, s.delivered, s.monitor.event);
      assert View(Apply(s, Deliver)) == Follow(View(s), s.monitor.event);
    }
  }

  lemma {:induction false} StepKeepsInv(s: State, late: set<Route>, step: Step)
    requires Inv(s, late) && Enabled(s, step)
    ensures Inv(Apply(s, step), Overtaken(late, s, step))
  {
    match step
    case HandOver => HandOverKeepsInv(s, late);
    case Deliver => DeliverKeepsInv(s, late);
    case _ => assert Apply(s, step).delivered == s.delivered;
  }

  ghost predicate IsRun(s: State, steps: seq<Step>)
    decreases |steps|
  {
    steps == [] || (Enabled(s, steps[0]) && IsRun(Apply(s, steps[0]), steps[1..]))
  }

  function Final(s: State, steps: seq<Step>): State
    requires IsRun(s, steps)
    decreases |steps|
  {
    if steps == [] then s else Final(Apply(s, steps[0]), steps[1..])
  }

  /** The objects overtaken by their deletion during a run and not in the cache again since. */
  function Late(late: set<Route>, s: State, steps: seq<Step>): set<Route>
    requires IsRun(s, steps)
    decreases |steps|
  {
    if steps == [] then late else Late(Overtaken(late, s, steps[0]), Apply(s, steps[0]), steps[1..])
  }

  lemma {:induction false} RunKeepsInv(s: State, late: set<Route>, steps: seq<Step>)
    requires Inv(s, late) && IsRun(s, steps)
    ensures Inv(Final(s, steps), Late(late, s, steps))
    decreases |steps|
  {
    if steps != [] {
      StepKeepsInv(s, late, steps[0]);
      RunKeepsInv(Apply(s, steps[0]), Overtaken(late, s, steps[0]), steps[1..]);
    }
  }

  function Start(cache: set<Route>): State {
    State(cache, Absent, Idle, [])
  }

  /** Whatever the cache holds and however the threads interleave, a subscriber whose replay is over and
      for which no change is pending has the whole cache and, besides it, exactly the overtaken
      objects; replayed objects may have arrived twice. */
  lemma ReplayPlusDeltas(cache: set<Route>, steps: seq<Step>)
    requires IsRun(Start(cache), steps)
    ensures var s, late := Final(Start(cache), steps), Late({}, Start(cache), steps);
            && late !! s.cache
            && (s.sub.Live? && s.monitor.Idle? ==> View(s) == s.cache + late)
  {
    RunKeepsInv(Start(cache), {}, steps);
  }

  /** So the mirror is exact if and only if no handed-over object was overtaken. */
  lemma MirrorIsExactIff(cache: set<Route>, steps: seq<Step>)
    requires IsRun(Start(cache), steps)
    requires var s := Final(Start(cache), steps); s.sub.Live? && s.monitor.Idle?
    ensures View(Final(Start(cache), steps)) == Final(Start(cache), steps).cache
       <==> Late({}, Start(cache), steps) == {}
  {
    ReplayPlusDeltas(cache, steps);
    var s, late := Final(Start(cache), steps), Late({}, Start(cache), steps);
    if r :| r in late {
      assert r in s.cache + late;
    }
  }

  /** A deletion of the object the replay holds, or of one ahead of it that the walk does not notice. */
  predicate Overtakes(s: State, step: Step) {
    step.CacheDel? && s.sub.Replaying? &&
    (s.sub.held == Some(step.route) || (step.route in s.sub.todo && !step.noticed))
  }

  ghost predicate NoneOvertakes(s: State, steps: seq<Step>)
    requires IsRun(s, steps)
    decreases |steps|
  {
    steps == [] || (!Overtakes(s, steps[0]) && NoneOvertakes(Apply(s, steps[0]), steps[1..]))
  }

  lemma {:induction false} NothingLate(s: State, steps: seq<Step>)
    requires IsRun(s, steps) && NoneOvertakes(s, steps)
    requires forall r :: Ahead(s.sub, r) ==> r in s.cache
    ensures Late({}, s, steps) == {}
    decreases |steps|
  {
    if steps != [] {
      assert s.sub.Replaying? && s.sub.held.Some? ==> Ahead(s.sub, s.sub.held.value);
      assert Overtaken({}, s, steps[0]) == {};
      var t := Apply(s, steps[0]);
      forall r | Ahead(t.sub, r) ensures r in t.cache {
        assert Ahead(s.sub, r) || r in t.cache;
      }
      NothingLate(t, steps[1..]);
    }
  }

  /** Exact in every run in which no deletion overtakes the replay. */
  lemma ReplayPlusDeltasIsExact(cache: set<Route>, steps: seq<Step>)
    requires IsRun(Start(cache), steps) && NoneOvertakes(Start(cache), steps)
    ensures var s := Final(Start(cache), steps);
            s.sub.Live? && s.monitor.Idle? ==> View(s) == s.cache
  {
    NothingLate(Start(cache), steps);
    ReplayPlusDeltas(cache, steps);
  }

  /** For every route there is a run that ends with an empty cache and the route still in the view. */
  lemma {:induction false} StaleRouteIsPossible(r: Route) returns (steps: seq<Step>)
    ensures IsRun(Start({r}), steps)
    ensures var s := Final(Start({r}), steps);
            s.sub.Live? && s.monitor.Idle? && s.cache == {} && View(s) == {r}
  {
    var s0 := State({}, Replaying({}, None), Idle, [Del(r)] + [New(r)]);
    FoldAppend({}, [], Del(r));
    FoldAppend({}, [Del(r)], New(r));
    assert [] + [Del(r)] == [Del(r)];
    var none: seq<Step> := [];
    steps := Then(s0, FinishReplay, none);
    steps := HeldWhileDeleted(r, steps);
  }

  /** The replay holds the object, its deletion is delivered, and then it is handed over. */
  lemma {:induction false} HeldWhileDeleted(r: Route, rest: seq<Step>) returns (steps: seq<Step>)
    requires IsRun(State({}, Replaying({}, None), Idle, [Del(r)] + [New(r)]), rest)
    ensures IsRun(Start({r}), steps)
    ensures Final(Start({r}), steps) == Final(State({}, Replaying({}, None), Idle, [Del(r)] + [New(r)]), rest)
  {
    var s0 := Start({r});
    var s1 := Apply(s0, Register);
    var s2 := Apply(s1, Visit(r));
    var s3 := Apply(s2, CacheDel(r, true));
    var s4 := Apply(s3, Walk);
    var s5 := Apply(s4, Deliver);
    assert s5.delivered == [Del(r)] && s5.cache == {} && s5.sub == Replaying({}, Some(r));
    assert Apply(s5, HandOver) == State({}, Replaying({}, None), Idle, [Del(r)] + [New(r)]);
    steps := Then(s5, HandOver, rest);
    steps := Then(s4, Deliver, steps);
    steps := Then(s3, Walk, steps);
    steps := Then(s2, CacheDel(r, true), steps);
    steps := Then(s1, Visit(r), steps);
    steps := Then(s0, Register, steps);
  }

  lemma Then(s: State, step: Step, rest: seq<Step>) returns (steps: seq<Step>)
    requires Enabled(s, step) && IsRun(Apply(s, step), rest)
    ensures IsRun(s, steps) && Final(s, steps) == Final(Apply(s, step), rest)
  {
    steps := [step] + rest;
    assert steps[1..] == rest;
  }

  // ---------------------------------------------------------------- every replay comes to an end

  function Phase(m: Monitor): nat {
    if m.Changed? then 2 else if m.Walking? then 1 else 0
  }

  function Left(sub: Subscriber): nat {
    match sub
    case Replaying(todo, held) => 2 * |todo| + (if held.Some? then 2 else 1)
    case _ => 0
  }

  /** Steps that end a change and a replay in progress. */
  lemma {:induction false} Finish(s: State) returns (steps: seq<Step>)
    ensures IsRun(s, steps)
    ensures var t := Final(s, steps);
            t.cache == s.cache && t.monitor.Idle? && (if s.sub.Absent? then t.sub.Absent? else t.sub.Live?)
    decreases Phase(s.monitor), Left(s.sub)
  {
    if s.monitor.Idle? && !s.sub.Replaying? {
      steps := [];
    } else {
      var step := NextStep(s);
      var rest := Finish(Apply(s, step));
      steps := Then(s, step, rest);
    }
  }

  lemma {:induction false} NextStep(s: State) returns (step: Step)
    requires !s.monitor.Idle? || s.sub.Replaying?
    ensures Enabled(s, step)
    ensures var t := Apply(s, step);
            && t.cache == s.cache && (t.sub.Absent? <==> s.sub.Absent?)
            && (Phase(t.monitor) < Phase(s.monitor)
                || (t.monitor == s.monitor && Left(t.sub) < Left(s.sub)))
  {
    if !s.monitor.Idle? {
      step := if s.monitor.Changed? then Walk else Deliver;
    } else if s.sub.held.Some? {
      step := HandOver;
    } else if s.sub.todo == {} {
      step := FinishReplay;
    } else {
      var r :| r in s.sub.todo;
      step := Visit(r);
    }
  }

  lemma {:induction false} RunsJoin(s: State, steps: seq<Step>, more: seq<Step>)
    requires IsRun(s, steps) && IsRun(Final(s, steps), more)
    ensures IsRun(s, steps + more) && Final(s, steps + more) == Final(Final(s, steps), more)
    decreases |steps|
  {
    if steps == [] {
      assert steps + more == more;
    } else {
      assert (steps + more)[1..] == steps[1..] + more;
      RunsJoin(Apply(s, steps[0]), steps[1..], more);
    }
  }

  /** No run gets stuck: whatever has happened, steps that leave the cache alone end the replay and the
      delivery, the subscriber then has every object of the cache, and any next change can come. */
  lemma EveryRunCanFinish(cache: set<Route>, steps: seq<Step>) returns (more: seq<Step>)
    requires IsRun(Start(cache), steps)
    ensures IsRun(Final(Start(cache), steps), more)
    ensures var s := Final(Start(cache), steps);
            var t := Final(s, more);
            && t.cache == s.cache && t.monitor.Idle? && (if s.sub.Absent? then Enabled(t, Register) else t.sub.Live?)
            && (!s.sub.Absent? ==> s.cache <= View(t))
            && forall r, noticed ::
                 && (r in s.cache ==> Enabled(t, CacheDel(r, noticed)))
                 && (r !in s.cache ==> Enabled(t, CacheAdd(r, noticed)))
  {
    var s := Final(Start(cache), steps);
    more := Finish(s);
    RunsJoin(Start(cache), steps, more);
    if !s.sub.Absent? {
      ReplayPlusDeltas(cache, steps + more);
    }
  }

  // ---------------------------------------------------------------- the published FIB

  /** A path under the FIB of one family. */
  datatype FibPath = FibPath(family: Family, key: string)

  function PathOf(env: Env, r: Route): FibPath {
    FibPath(r.family, Key(env, r))
  }

  /** nl_route_cb. */
  function RouteCb(env: Env, published: set<FibPath>, e: Event): set<FibPath> {
    if e.New? then published + {PathOf(env, e.route)} else published - {PathOf(env, e.route)}
  }

  function Published(env: Env, start: set<FibPath>, events: seq<Event>): set<FibPath>
    decreases |events|
  {
    if events == [] then start else RouteCb(env, Published(env, start, events[..|events| - 1]), events[|events| - 1])
  }

  function Image(env: Env, routes: set<Route>): set<FibPath> {
    set r | r in routes :: PathOf(env, r)
  }

  /** Publishing a route keeps the FIB the image of the live routes; withdrawing one does exactly when
      no other live route has its path. */
  lemma OneEventIff(env: Env, live: set<Route>, e: Event)
    ensures RouteCb(env, Image(env, live), e) == Image(env, Follow(live, e))
       <==> e.New? || !Shared(env, live, e.route)
  {
    var r := e.route;
    if e.New? {
      assert Image(env, live + {r}) == Image(env, live) + {PathOf(env, r)};
    } else if Shared(env, live, r) {
      var q :| q in live && q != r && PathOf(env, q) == PathOf(env, r);
      assert q in live - {r};
      assert PathOf(env, r) in Image(env, live - {r});
    } else {
      assert Image(env, live) - {PathOf(env, r)} == Image(env, live - {r});
    }
  }

  ghost predicate Shared(env: Env, live: set<Route>, r: Route) {
    exists q :: q in live && q != r && PathOf(env, q) == PathOf(env, r)
  }

  /** The withdrawal at position `k` takes away no path that another live route has. */
  ghost predicate KeepsDistinct(env: Env, start: set<Route>, events: seq<Event>, k: nat)
    requires k < |events|
  {
    !Shared(env, Fold(start, events[..k]), events[k].route)
  }

  /** The published FIB is the key image of the followed set after every prefix of the events. */
  ghost predicate AlwaysImage(env: Env, start: set<Route>, events: seq<Event>) {
    forall n :: 0 <= n <= |events| ==> ImageAfter(env, start, events, n)
  }

  ghost predicate ImageAfter(env: Env, start: set<Route>, events: seq<Event>, n: nat)
    requires n <= |events|
  {
    Published(env, Image(env, start), events[..n]) == Image(env, Fold(start, events[..n]))
  }

  lemma {:induction false} NextImageIff(env: Env, start: set<Route>, events: seq<Event>, n: nat)
    requires n < |events| && ImageAfter(env, start, events, n)
    ensures ImageAfter(env, start, events, n + 1) <==> events[n].New? || KeepsDistinct(env, start, events, n)
  {
    assert events[..n + 1][..n] == events[..n] && events[..n + 1][n] == events[n];
    OneEventIff(env, Fold(start, events[..n]), events[n]);
  }

  lemma {:induction false} ImageSoFar(env: Env, start: set<Route>, events: seq<Event>, n: nat)
    requires n <= |events|
    requires forall k :: 0 <= k < n && events[k].Del? ==> KeepsDistinct(env, start, events, k)
    ensures ImageAfter(env, start, events, n)
    decreases n
  {
    if n > 0 {
      ImageSoFar(env, start, events, n - 1);
      NextImageIff(env, start, events, n - 1);
      assert events[n - 1].Del? ==> KeepsDistinct(env, start, events, n - 1);
    }
  }

  lemma {:induction false} FibIsImage(env: Env, start: set<Route>, events: seq<Event>)
    requires forall k :: 0 <= k < |events| && events[k].Del? ==> KeepsDistinct(env, start, events, k)
    ensures Published(env, Image(env, start), events) == Image(env, Fold(start, events))
  {
    ImageSoFar(env, start, events, |events|);
    assert events[..|events|] == events;
  }

  /** Over any run, the FIB is the key image after every event exactly when no withdrawal takes away a
      path that another live route has. */
  lemma FibIsAlwaysImageIff(env: Env, start: set<Route>, events: seq<Event>)
    ensures AlwaysImage(env, start, events)
       <==> forall k :: 0 <= k < |events| && events[k].Del? ==> KeepsDistinct(env, start, events, k)
  {
    if AlwaysImage(env, start, events) {
      forall k | 0 <= k < |events| && events[k].Del? ensures KeepsDistinct(env, start, events, k) {
        assert ImageAfter(env, start, events, k) && ImageAfter(env, start, events, k + 1);
        NextImageIff(env, start, events, k);
      }
    } else {
      var n :| 0 <= n <= |events| && !ImageAfter(env, start, events, n);
      if forall k :: 0 <= k < |events| && events[k].Del? ==> KeepsDistinct(env, start, events, k) {
        ImageSoFar(env, start, events, n);
      }
    }
  }

  /** The two layers composed: once the replay is over and no change is pending, the published FIB is
      the key image of the kernel's routes and the overtaken ones, provided no withdrawn route ever
      shared its path with a live one. */
  lemma PublishedFib(env: Env, cache: set<Route>, steps: seq<Step>)
    requires IsRun(Start(cache), steps)
    requires var events := Final(Start(cache), steps).delivered;
             forall k :: 0 <= k < |events| && events[k].Del? ==> KeepsDistinct(env, {}, events, k)
    ensures var s := Final(Start(cache), steps);
            s.sub.Live? && s.monitor.Idle? ==>
              Published(env, {}, s.delivered) == Image(env, s.cache + Late({}, Start(cache), steps))
  {
    var s := Final(Start(cache), steps);
    ReplayPlusDeltas(cache, steps);
    FibIsImage(env, {}, s.delivered);
    assert Image(env, {}) == {};
  }

  /** So it is the key image of the kernel's routes when no deletion overtakes the replay. */
  lemma PublishedFibIsExact(env: Env, cache: set<Route>, steps: seq<Step>)
    requires IsRun(Start(cache), steps) && NoneOvertakes(Start(cache), steps)
    requires var events := Final(Start(cache), steps).delivered;
             forall k :: 0 <= k < |events| && events[k].Del? ==> KeepsDistinct(env, {}, events, k)
    ensures var s := Final(Start(cache), steps);
            s.sub.Live? && s.monitor.Idle? ==> Published(env, {}, s.delivered) == Image(env, s.cache)
  {
    NothingLate(Start(cache), steps);
    PublishedFib(env, cache, steps);
    assert Final(Start(cache), steps).cache + {} == Final(Start(cache), steps).cache;
  }

  /** Routes of different families are published apart. */
  lemma FamiliesNeverCollide(env: Env, live: set<Route>, r: Route)
    requires forall q :: q in live ==> q.family != r.family
    ensures RouteCb(env, Image(env, live), Del(r)) == Image(env, live)
    ensures exists p :: p in RouteCb(env, Image(env, live), New(r)) && p.family == r.family
  {
    assert PathOf(env, r) in RouteCb(env, Image(env, live), New(r));
  }

  /** The table of a route is not part of its key: with the same route in two tables, withdrawing one
      unpublishes the other. */
  lemma TwoTablesCollide(env: Env, r: Route, table: int)
    requires table != r.table
    ensures var q := r.(table := table);
            RouteCb(env, Image(env, {r, q}), Del(r)) != Image(env, Follow({r, q}, Del(r)))
  {
    var q := r.(table := table);
    assert FieldsOf(env, q) == FieldsOf(env, r);
    OneEventIff(env, {r, q}, Del(r));
  }
}
