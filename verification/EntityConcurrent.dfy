/** Dynamic entities with both threads running: the watch thread (w) tracks and drops records, the
    netlink thread (n) updates the address cache and then runs its callback. Only the list is locked. */
module EntityConcurrent {
  import opened EntitySpec

  datatype Watcher =
    | WIdle
    | Appended(info: Info)                                // record in the list, scan not begun
    | Scanning(info: Info, todo: set<AddrObject>)         // publishing, without the lock
    | Unlinking(info: Info, todo: set<AddrObject>)        // unlinking and unpublishing, with the lock

  datatype Netlink =
    | NIdle
    | Pending(added: bool, x: AddrObject)                 // cache updated, waiting for the lock
    | Calling(added: bool, x: AddrObject, next: nat)      // in the callback, with the lock

  datatype State = State(infos: seq<Info>, cache: set<AddrObject>, published: set<Path>, w: Watcher, n: Netlink)

  /** One atomic step of either thread. A cache change during a scan may or may not be `noticed` by it. */
  datatype Step =
    | Append(info: Info)
    | BeginScan
    | Publish(x: AddrObject)
    | EndScan
    | BeginUnlink(info: Info)
    | Unlink(at: nat)
    | Unpublish(x: AddrObject)
    | EndUnlink
    | CacheAdd(x: AddrObject, noticed: bool)
    | CacheRemove(x: AddrObject, noticed: bool)
    | Lock
    | Call
    | Unlock

  ghost predicate Enabled(env: Env, s: State, step: Step) {
    match step
    case Append(_) => s.w.WIdle? && !s.n.Calling?
    case BeginScan => s.w.Appended?
    case Publish(x) => s.w.Scanning? && x in s.w.todo && x.local.Some?
    case EndScan => s.w.Scanning? && s.w.todo == {}
    case BeginUnlink(_) => s.w.WIdle? && !s.n.Calling?
    case Unlink(i) => s.w.Unlinking? && s.w.todo == {} && i < |s.infos| && s.infos[i] == s.w.info
    case Unpublish(x) => s.w.Unlinking? && x in s.w.todo && x.local.Some?
    case EndUnlink => s.w.Unlinking? && s.w.todo == {} && s.w.info !in s.infos
    case CacheAdd(x, _) => s.n.NIdle? && x !in s.cache && WellFormed(env, x) && Unshared(s.cache + {x})
    case CacheRemove(x, _) => s.n.NIdle? && x in s.cache
    case Lock => s.n.Pending? && !s.w.Unlinking?
    case Call => s.n.Calling? && s.n.next < |s.infos| && s.n.x.local.Some?
    case Unlock => s.n.Calling? && s.n.next == |s.infos|
  }

  /** What a scan in progress makes of a cache change. */
  function Notice(env: Env, w: Watcher, x: AddrObject, added: bool, noticed: bool): Watcher {
    if noticed && (w.Scanning? || w.Unlinking?) then
      if !added then w.(todo := w.todo - {x})
      else if Matches(env, w.info, x) then w.(todo := w.todo + {x})
      else w
    else w
  }

  ghost function Apply(env: Env, s: State, step: Step): State
    requires Enabled(env, s, step)
  {
    match step
    case Append(info) => s.(infos := s.infos + [info], w := Appended(info))
    case BeginScan => s.(w := Scanning(s.w.info, Matching(env, s.w.info, s.cache)))
    case Publish(x) =>
      s.(published := s.published + {PathOf(env, s.w.info.entity, x)}, w := Scanning(s.w.info, s.w.todo - {x}))
    case EndScan => s.(w := WIdle)
    case BeginUnlink(info) => s.(w := Unlinking(info, {}))
    case Unlink(i) =>
      s.(infos := s.infos[..i] + s.infos[i + 1..], w := Unlinking(s.w.info, Matching(env, s.w.info, s.cache)))
    case Unpublish(x) =>
      s.(published := s.published - {PathOf(env, s.w.info.entity, x)}, w := Unlinking(s.w.info, s.w.todo - {x}))
    case EndUnlink => s.(w := WIdle)
    case CacheAdd(x, noticed) =>
      s.(cache := s.cache + {x}, n := Pending(true, x), w := Notice(env, s.w, x, true, noticed))
    case CacheRemove(x, noticed) =>
      s.(cache := s.cache - {x}, n := Pending(false, x), w := Notice(env, s.w, x, false, noticed))
    case Lock => s.(n := Calling(s.n.added, s.n.x, 0))
    case Call =>
      var info := s.infos[s.n.next];
      var p := PathOf(env, info.entity, s.n.x);
      s.(n := s.n.(next := s.n.next + 1),
         published := if !MatchesByName(env, info, s.n.x) then s.published
                      else if s.n.added then s.published + {p} else s.published - {p})
    case Unlock => s.(n := NIdle)
  }

  // ---------------------------------------------------------------- the invariant

  /** The cached addresses, and the one whose removal has not been announced to the end yet. */
  function Recent(s: State): set<AddrObject> {
    if !s.n.NIdle? && !s.n.added then s.cache + {s.n.x} else s.cache
  }

  /** The match is published, or a step still to come will publish it, or its record is being dropped. */
  ghost predicate Covered(env: Env, s: State, info: Info, x: AddrObject)
    requires x.local.Some?
  {
    || PathOf(env, info.entity, x) in s.published
    || (s.w.Appended? && s.w.info == info)
    || (s.w.Scanning? && s.w.info == info && x in s.w.todo)
    || (s.w.Unlinking? && s.w.info == info)
    || (s.n.Pending? && s.n.added && s.n.x == x)
    || (s.n.Calling? && s.n.added && s.n.x == x && s.n.next <= |s.infos| && info in s.infos[s.n.next..])
  }

  ghost predicate WellShaped(env: Env, s: State) {
    && CacheOk(env, Recent(s)) && Unshared(Recent(s))
    && (!s.n.NIdle? ==> WellFormed(env, s.n.x) && (s.n.added <==> s.n.x in s.cache))
    && (s.n.Calling? ==> s.n.next <= |s.infos| && !s.w.Unlinking?)
    && (s.w.Unlinking? ==> forall x :: x in s.w.todo ==> x in Recent(s) && Matches(env, s.w.info, x))
  }

  ghost predicate NothingLost(env: Env, s: State)
    requires CacheOk(env, s.cache)
  {
    forall info, x :: info in s.infos && x in s.cache && Matches(env, info, x) ==> Covered(env, s, info, x)
  }

  ghost predicate Inv(env: Env, s: State) {
    WellShaped(env, s) && CacheOk(env, s.cache) && NothingLost(env, s)
  }

  lemma StepKeepsShape(env: Env, s: State, step: Step)
    requires EnvOk(env) && Inv(env, s) && Enabled(env, s, step)
    ensures WellShaped(env, Apply(env, s, step)) && CacheOk(env, Apply(env, s, step).cache)
  {
  }

  /** Taking a path away never takes it from a live match: no address is on two interfaces, and while
      one thread unpublishes, the other cannot have finished announcing a replacement. */
  lemma RemovalIsSafe(env: Env, s: State, remover: Info, gone: AddrObject, info: Info, x: AddrObject)
    requires EnvOk(env) && WellShaped(env, s) && gone in Recent(s) && Matches(env, remover, gone)
    requires x in s.cache && Matches(env, info, x) && x.local.Some? && gone.local.Some?
    requires PathOf(env, remover.entity, gone) == PathOf(env, info.entity, x)
    ensures x == gone && info == remover
  {
    PathIsInjective(env, remover.entity, gone, info.entity, x);
    assert x in Recent(s);
    SameAddressSameRecord(env, info, remover, x);
  }

  lemma CallKeepsCover(env: Env, s: State, info: Info, x: AddrObject)
    requires EnvOk(env) && Inv(env, s) && Enabled(env, s, Call)
    requires info in s.infos && x in s.cache && Matches(env, info, x)
    ensures Covered(env, Apply(env, s, Call), info, x)
  {
    var t := Apply(env, s, Call);
    var caller := s.infos[s.n.next];
    FiltersAgree(env, caller, s.n.x);
    assert s.infos[s.n.next..] == [caller] + s.infos[t.n.next..];
    if !s.n.added && MatchesByName(env, caller, s.n.x)
       && PathOf(env, caller.entity, s.n.x) == PathOf(env, info.entity, x) {
      RemovalIsSafe(env, s, caller, s.n.x, info, x);
    }
  }

  lemma UnpublishKeepsCover(env: Env, s: State, gone: AddrObject, info: Info, x: AddrObject)
    requires EnvOk(env) && Inv(env, s) && Enabled(env, s, Unpublish(gone))
    requires info in s.infos && x in s.cache && Matches(env, info, x)
    ensures Covered(env, Apply(env, s, Unpublish(gone)), info, x)
  {
    if PathOf(env, s.w.info.entity, gone) == PathOf(env, info.entity, x) {
      RemovalIsSafe(env, s, s.w.info, gone, info, x);
    }
  }

  lemma StepKeepsCover(env: Env, s: State, step: Step, info: Info, x: AddrObject)
    requires EnvOk(env) && Inv(env, s) && Enabled(env, s, step)
    requires var t := Apply(env, s, step); info in t.infos && x in t.cache && Matches(env, info, x)
    requires x.local.Some?
    ensures Covered(env, Apply(env, s, step), info, x)
  {
    match step
    case Call => CallKeepsCover(env, s, info, x);
    case Unpublish(gone) => UnpublishKeepsCover(env, s, gone, info, x);
    case Unlink(i) =>
      assert info in s.infos;
      assert Covered(env, s, info, x);
    case _ =>
      assert info in s.infos && x in s.cache ==> Covered(env, s, info, x);
  }

  lemma StepKeepsInv(env: Env, s: State, step: Step)
    requires EnvOk(env) && Inv(env, s) && Enabled(env, s, step)
    ensures Inv(env, Apply(env, s, step))
  {
    var t := Apply(env, s, step);
    StepKeepsShape(env, s, step);
    forall info, x | info in t.infos && x in t.cache && Matches(env, info, x) ensures Covered(env, t, info, x) {
      StepKeepsCover(env, s, step, info, x);
    }
  }

  // ---------------------------------------------------------------- runs

  ghost predicate IsRun(env: Env, s: State, steps: seq<Step>)
    decreases |steps|
  {
    steps == [] || (Enabled(env, s, steps[0]) && IsRun(env, Apply(env, s, steps[0]), steps[1..]))
  }

  ghost function Final(env: Env, s: State, steps: seq<Step>): State
    requires IsRun(env, s, steps)
    decreases |steps|
  {
    if steps == [] then s else Final(env, Apply(env, s, steps[0]), steps[1..])
  }

  lemma {:induction false} RunKeepsInv(env: Env, s: State, steps: seq<Step>)
    requires EnvOk(env) && Inv(env, s) && IsRun(env, s, steps)
    ensures Inv(env, Final(env, s, steps))
    decreases |steps|
  {
    if steps != [] {
      StepKeepsInv(env, s, steps[0]);
      RunKeepsInv(env, Apply(env, s, steps[0]), steps[1..]);
    }
  }

  function Start(cache: set<AddrObject>): State {
    State([], cache, {}, WIdle, NIdle)
  }

  /** No subnet is lost, however the threads interleave: in every reachable state each match is
      covered, and whenever both threads are idle each match is published. */
  lemma NoLostSubnet(env: Env, cache: set<AddrObject>, steps: seq<Step>, info: Info, x: AddrObject)
    requires EnvOk(env) && CacheOk(env, cache) && Unshared(cache) && IsRun(env, Start(cache), steps)
    requires var s := Final(env, Start(cache), steps); info in s.infos && x in s.cache && Matches(env, info, x)
    ensures var s := Final(env, Start(cache), steps);
            && x.local.Some? && Covered(env, s, info, x)
            && (s.w.WIdle? && s.n.NIdle? ==> PathOf(env, info.entity, x) in s.published)
  {
    RunKeepsInv(env, Start(cache), steps);
  }

  // ---------------------------------------------------------------- nothing stale

  /** A removal under way: a running unlink still has the path ahead of it, or the callback of a removed
      address still has a record ahead of it under which it will remove the path. */
  ghost predicate Owed(env: Env, s: State, p: Path) {
    OwedByUnlink(env, s, p) || OwedByCallback(env, s, p)
  }

  ghost predicate OwedByUnlink(env: Env, s: State, p: Path) {
    s.w.Unlinking? && exists x :: x in s.w.todo && x.local.Some? && p == PathOf(env, s.w.info.entity, x)
  }

  ghost predicate OwedByCallback(env: Env, s: State, p: Path) {
    && !s.n.NIdle? && !s.n.added && s.n.x.local.Some?
    && exists i :: Visited(env, s, i) && p == PathOf(env, i.entity, s.n.x)
  }

  /** The records the current callback has yet to visit and will act on. */
  ghost predicate Visited(env: Env, s: State, i: Info) {
    && !s.n.NIdle? && MatchesByName(env, i, s.n.x)
    && (if s.n.Pending? then i in s.infos else s.n.next <= |s.infos| && i in s.infos[s.n.next..])
  }

  /** Every published path is wanted or about to be removed. */
  ghost predicate Fresh(env: Env, s: State)
    requires CacheOk(env, s.cache)
  {
    forall p :: p in s.published ==> Wanted(env, p, s.infos, s.cache) || Owed(env, s, p)
  }

  /** A scan publishes matches of a record that is in the list. */
  ghost predicate ScanOk(env: Env, s: State) {
    && (s.w.Appended? || s.w.Scanning? ==> s.w.info in s.infos)
    && (s.w.Scanning? ==> forall x :: x in s.w.todo ==> WellFormed(env, x) && Matches(env, s.w.info, x))
  }

  lemma StepKeepsScan(env: Env, s: State, step: Step)
    requires EnvOk(env) && Inv(env, s) && ScanOk(env, s) && Enabled(env, s, step)
    ensures ScanOk(env, Apply(env, s, step))
  {
  }

  /** A cached object with the same local address under a record of the entity. */
  ghost predicate SameAddressCached(env: Env, s: State, entity: string, x: AddrObject) {
    exists i, y :: i in s.infos && y in s.cache && Matches(env, i, y) && i.entity == entity && y.local == x.local
  }

  /** The callback of a removed object with the same local address has a record of the entity ahead. */
  ghost predicate RemovalAhead(env: Env, s: State, entity: string, x: AddrObject) {
    && !s.n.NIdle? && !s.n.added && s.n.x.local == x.local
    && exists i :: Visited(env, s, i) && i.entity == entity
  }

  /** The steps that leave a path behind: publishing an address that has left the cache, when no removal
      still to come takes the path away again; unlinking the last record that the callback of a removed
      address has not reached yet; and, while a record is unlinked, the removal of an address that the
      walk then passes over. */
  ghost predicate Leaves(env: Env, s: State, step: Step)
    requires Enabled(env, s, step) && CacheOk(env, s.cache)
  {
    match step
    case Publish(x) =>
      x !in s.cache && !SameAddressCached(env, s, s.w.info.entity, x) && !RemovalAhead(env, s, s.w.info.entity, x)
    case Unlink(i) =>
      && s.n.Pending? && !s.n.added && s.n.x.local.Some? && MatchesByName(env, s.w.info, s.n.x)
      && s.w.info !in s.infos[..i] + s.infos[i + 1..] && PathOf(env, s.w.info.entity, s.n.x) in s.published
    case CacheRemove(x, noticed) =>
      && noticed && s.w.Unlinking? && x in s.w.todo && s.w.info !in s.infos
      && x.local.Some? && PathOf(env, s.w.info.entity, x) in s.published
    case _ => false
  }

  lemma SamePath(env: Env, s: State, i: Info, x: AddrObject, j: Info, y: AddrObject)
    requires EnvOk(env) && WellShaped(env, s) && x in Recent(s) && y in Recent(s)
    requires x.local.Some? && y.local.Some? && PathOf(env, i.entity, x) == PathOf(env, j.entity, y)
    requires Matches(env, i, x) && Matches(env, j, y)
    ensures i == j && x == y
  {
    PathIsInjective(env, i.entity, x, j.entity, y);
    SameAddressSameRecord(env, i, j, x);
  }

  /** A match stays one unless the unlink or the removal at hand takes it. */
  lemma MatchStays(env: Env, s: State, step: Step, i: Info, x: AddrObject)
    requires Enabled(env, s, step) && i in s.infos && x in s.cache && Matches(env, i, x)
    ensures var t := Apply(env, s, step);
            || (i in t.infos && x in t.cache)
            || (step.Unlink? && i == s.w.info && x in t.w.todo)
            || (step.CacheRemove? && step.x == x && i in t.infos)
  {
  }

  /** A wanted path stays wanted, or its removal comes under way. */
  lemma WantedStays(env: Env, s: State, step: Step, p: Path)
    requires EnvOk(env) && Inv(env, s) && Enabled(env, s, step)
    requires Wanted(env, p, s.infos, s.cache)
    ensures CacheOk(env, Apply(env, s, step).cache)
    ensures var t := Apply(env, s, step); Wanted(env, p, t.infos, t.cache) || Owed(env, t, p)
  {
    var t := Apply(env, s, step);
    StepKeepsShape(env, s, step);
    var i, x :| i in s.infos && x in s.cache && Matches(env, i, x) && p == PathOf(env, i.entity, x);
    MatchStays(env, s, step, i, x);
    if i !in t.infos {
      assert OwedByUnlink(env, t, p);
    } else if x !in t.cache {
      FiltersAgree(env, i, x);
      assert Visited(env, t, i);
      assert OwedByCallback(env, t, p);
    }
  }

  /** A path whose removal is under way is removed by it, or the removal stays under way. */
  lemma UnlinkStays(env: Env, s: State, step: Step, p: Path)
    requires EnvOk(env) && Inv(env, s) && Enabled(env, s, step) && !Leaves(env, s, step)
    requires OwedByUnlink(env, s, p) && p in s.published && p in Apply(env, s, step).published
    ensures Owed(env, Apply(env, s, step), p)
  {
    var t := Apply(env, s, step);
    var x :| x in s.w.todo && x.local.Some? && p == PathOf(env, s.w.info.entity, x);
    if step.CacheRemove? && step.noticed && step.x == x {
      FiltersAgree(env, s.w.info, x);
      assert Visited(env, t, s.w.info);
    } else {
      assert t.w.Unlinking? && x in t.w.todo;
    }
  }

  lemma CallbackStays(env: Env, s: State, step: Step, p: Path)
    requires EnvOk(env) && Inv(env, s) && Enabled(env, s, step) && !Leaves(env, s, step)
    requires OwedByCallback(env, s, p) && p in s.published && p in Apply(env, s, step).published
    ensures Owed(env, Apply(env, s, step), p)
  {
    var t := Apply(env, s, step);
    var i :| Visited(env, s, i) && p == PathOf(env, i.entity, s.n.x);
    if step.Call? {
      assert s.infos[s.n.next..] == [s.infos[s.n.next]] + s.infos[t.n.next..];
    } else if step.Lock? {
      assert s.infos[0..] == s.infos;
    }
    assert Visited(env, t, i);
  }

  lemma PublishGuard(env: Env, s: State, x: AddrObject)
    requires EnvOk(env) && Inv(env, s) && Enabled(env, s, Publish(x))
    ensures SameAddressCached(env, s, s.w.info.entity, x)
       <==> Wanted(env, PathOf(env, s.w.info.entity, x), s.infos, s.cache)
    ensures RemovalAhead(env, s, s.w.info.entity, x) <==> Owed(env, s, PathOf(env, s.w.info.entity, x))
  {
    var e := s.w.info.entity;
    var p := PathOf(env, e, x);
    if SameAddressCached(env, s, e, x) {
      var i, y :| i in s.infos && y in s.cache && Matches(env, i, y) && i.entity == e && y.local == x.local;
      assert PathOf(env, i.entity, y) == p;
    }
    if Wanted(env, p, s.infos, s.cache) {
      var i, y :| i in s.infos && y in s.cache && Matches(env, i, y) && p == PathOf(env, i.entity, y);
      PathIsInjective(env, e, x, i.entity, y);
    }
    if RemovalAhead(env, s, e, x) {
      var i :| Visited(env, s, i) && i.entity == e;
      assert PathOf(env, i.entity, s.n.x) == p;
    }
    if Owed(env, s, p) {
      var i :| Visited(env, s, i) && p == PathOf(env, i.entity, s.n.x);
      PathIsInjective(env, e, x, i.entity, s.n.x);
    }
  }

  /** A newly published path is wanted. */
  lemma PublishedIsWanted(env: Env, s: State, step: Step, p: Path)
    requires EnvOk(env) && Inv(env, s) && ScanOk(env, s) && Enabled(env, s, step) && !Leaves(env, s, step)
    requires p !in s.published && p in Apply(env, s, step).published
    ensures CacheOk(env, Apply(env, s, step).cache)
    ensures var t := Apply(env, s, step); Wanted(env, p, t.infos, t.cache) || Owed(env, t, p)
  {
    var t := Apply(env, s, step);
    match step
    case Publish(x) =>
      PublishGuard(env, s, x);
      if x !in s.cache && !Wanted(env, p, s.infos, s.cache) {
        assert Owed(env, s, p);
        var i :| Visited(env, s, i) && p == PathOf(env, i.entity, s.n.x);
        assert Visited(env, t, i);
      }
    case Call => FiltersAgree(env, s.infos[s.n.next], s.n.x);
  }

  lemma StepKeepsFresh(env: Env, s: State, step: Step)
    requires EnvOk(env) && Inv(env, s) && ScanOk(env, s) && Fresh(env, s)
    requires Enabled(env, s, step) && !Leaves(env, s, step)
    ensures Inv(env, Apply(env, s, step)) && Fresh(env, Apply(env, s, step))
  {
    StepKeepsInv(env, s, step);
    var t := Apply(env, s, step);
    forall p | p in t.published ensures Wanted(env, p, t.infos, t.cache) || Owed(env, t, p) {
      if p !in s.published {
        PublishedIsWanted(env, s, step, p);
      } else if Wanted(env, p, s.infos, s.cache) {
        WantedStays(env, s, step, p);
      } else {
        if OwedByUnlink(env, s, p) { UnlinkStays(env, s, step, p); } else { CallbackStays(env, s, step, p); }
      }
    }
  }

  /** The path of an address that has left the cache is wanted by no other match, and no record but the
      one that is being unlinked has it. */
  lemma OnlyItsOwn(env: Env, s: State, gone: AddrObject, info: Info, rest: seq<Info>)
    requires EnvOk(env) && WellShaped(env, s) && gone in Recent(s) && Matches(env, info, gone)
    requires CacheOk(env, s.cache - {gone}) && s.cache <= Recent(s) && gone.local.Some? && info !in rest
    ensures !Wanted(env, PathOf(env, info.entity, gone), rest, s.cache - {gone})
    ensures forall j :: j in rest && MatchesByName(env, j, gone) ==>
            PathOf(env, j.entity, gone) != PathOf(env, info.entity, gone)
    ensures forall y :: y in s.cache - {gone} && Matches(env, info, y) ==>
            PathOf(env, info.entity, y) != PathOf(env, info.entity, gone)
  {
    var p := PathOf(env, info.entity, gone);
    forall j, y | y in s.cache - {gone} && Matches(env, j, y) ensures PathOf(env, j.entity, y) != p {
      if PathOf(env, j.entity, y) == p { SamePath(env, s, j, y, info, gone); }
    }
    forall j | j in rest && MatchesByName(env, j, gone) ensures PathOf(env, j.entity, gone) != p {
      FiltersAgree(env, j, gone);
      if PathOf(env, j.entity, gone) == p { SamePath(env, s, j, gone, info, gone); }
    }
  }

  lemma UnlinkLeaves(env: Env, s: State, step: Step)
    requires EnvOk(env) && Inv(env, s) && Enabled(env, s, step) && step.Unlink? && Leaves(env, s, step)
    ensures CacheOk(env, Apply(env, s, step).cache) && !Fresh(env, Apply(env, s, step))
  {
    var t, info, gone := Apply(env, s, step), s.w.info, s.n.x;
    FiltersAgree(env, info, gone);
    OnlyItsOwn(env, s, gone, info, t.infos);
    assert s.cache - {gone} == s.cache;
    assert PathOf(env, info.entity, gone) in t.published;
    assert !OwedByUnlink(env, t, PathOf(env, info.entity, gone));
  }

  lemma RemoveLeaves(env: Env, s: State, step: Step)
    requires EnvOk(env) && Inv(env, s) && Enabled(env, s, step) && step.CacheRemove? && Leaves(env, s, step)
    ensures CacheOk(env, Apply(env, s, step).cache) && !Fresh(env, Apply(env, s, step))
  {
    var t, info, gone := Apply(env, s, step), s.w.info, step.x;
    OnlyItsOwn(env, s, gone, info, t.infos);
    var p := PathOf(env, info.entity, gone);
    assert p in t.published;
    forall y | y in t.w.todo && y.local.Some? ensures PathOf(env, info.entity, y) != p {
      if PathOf(env, info.entity, y) == p { SamePath(env, s, info, y, info, gone); }
    }
    assert !OwedByUnlink(env, t, p);
  }

  /** A step from a fresh state leads to a fresh state exactly when it leaves nothing behind. */
  lemma StepIsFreshIff(env: Env, s: State, step: Step)
    requires EnvOk(env) && Inv(env, s) && ScanOk(env, s) && Fresh(env, s) && Enabled(env, s, step)
    ensures Inv(env, Apply(env, s, step))
    ensures Fresh(env, Apply(env, s, step)) <==> !Leaves(env, s, step)
  {
    StepKeepsInv(env, s, step);
    if !Leaves(env, s, step) {
      StepKeepsFresh(env, s, step);
    } else if step.Publish? {
      PublishGuard(env, s, step.x);
      var t, p := Apply(env, s, step), PathOf(env, s.w.info.entity, step.x);
      assert p in t.published && !OwedByUnlink(env, t, p);
      assert forall i :: Visited(env, t, i) ==> Visited(env, s, i);
    } else if step.Unlink? {
      UnlinkLeaves(env, s, step);
    } else {
      RemoveLeaves(env, s, step);
    }
  }

  ghost predicate AlwaysFresh(env: Env, s: State, steps: seq<Step>)
    requires IsRun(env, s, steps)
    decreases |steps|
  {
    && CacheOk(env, s.cache) && Fresh(env, s)
    && (steps != [] ==> AlwaysFresh(env, Apply(env, s, steps[0]), steps[1..]))
  }

  ghost predicate NoneLeaves(env: Env, s: State, steps: seq<Step>)
    requires IsRun(env, s, steps)
    decreases |steps|
  {
    steps == [] || (CacheOk(env, s.cache) && !Leaves(env, s, steps[0]) &&
        NoneLeaves(env, Apply(env, s, steps[0]), steps[1..]))
  }

  lemma {:induction false} RunIsFreshIff(env: Env, s: State, steps: seq<Step>)
    requires EnvOk(env) && Inv(env, s) && ScanOk(env, s) && Fresh(env, s) && IsRun(env, s, steps)
    ensures AlwaysFresh(env, s, steps) <==> NoneLeaves(env, s, steps)
    ensures Inv(env, Final(env, s, steps))
    ensures NoneLeaves(env, s, steps) ==> Fresh(env, Final(env, s, steps))
    decreases |steps|
  {
    RunKeepsInv(env, s, steps);
    if steps != [] {
      StepIsFreshIff(env, s, steps[0]);
      StepKeepsScan(env, s, steps[0]);
      if !Leaves(env, s, steps[0]) {
        RunIsFreshIff(env, Apply(env, s, steps[0]), steps[1..]);
      }
    }
  }

  /** In every state of a run every published path is wanted or about to be removed, exactly when no step
      of the run leaves a path behind. */
  lemma NoStaleSubnetIff(env: Env, cache: set<AddrObject>, steps: seq<Step>)
    requires EnvOk(env) && CacheOk(env, cache) && Unshared(cache) && IsRun(env, Start(cache), steps)
    ensures AlwaysFresh(env, Start(cache), steps) <==> NoneLeaves(env, Start(cache), steps)
  {
    RunIsFreshIff(env, Start(cache), steps);
  }

  // ---------------------------------------------------------------- two overlaps to avoid

  /** An address is removed while a scan or unlink of the watch thread still has it ahead, or a record is
      unlinked while the removal of one of its addresses waits for the lock. */
  ghost predicate Overlaps(env: Env, s: State, step: Step) {
    || (step.CacheRemove? && (s.w.Scanning? || s.w.Unlinking?) && step.x in s.w.todo)
    || (step.Unlink? && s.w.Unlinking? && s.n.Pending? && !s.n.added && MatchesByName(env, s.w.info, s.n.x))
  }

  ghost predicate NoneOverlaps(env: Env, s: State, steps: seq<Step>)
    requires IsRun(env, s, steps)
    decreases |steps|
  {
    steps == [] || (!Overlaps(env, s, steps[0]) && NoneOverlaps(env, Apply(env, s, steps[0]), steps[1..]))
  }

  lemma {:induction false} NoOverlapLeavesNothing(env: Env, s: State, steps: seq<Step>)
    requires EnvOk(env) && Inv(env, s) && IsRun(env, s, steps) && NoneOverlaps(env, s, steps)
    requires s.w.Scanning? ==> s.w.todo <= s.cache
    ensures NoneLeaves(env, s, steps)
    decreases |steps|
  {
    if steps != [] {
      StepKeepsInv(env, s, steps[0]);
      NoOverlapLeavesNothing(env, Apply(env, s, steps[0]), steps[1..]);
    }
  }

  /** Without the two overlaps the published subnets are the join whenever both threads are idle. */
  lemma JoinWhenIdle(env: Env, cache: set<AddrObject>, steps: seq<Step>)
    requires EnvOk(env) && CacheOk(env, cache) && Unshared(cache)
    requires IsRun(env, Start(cache), steps) && NoneOverlaps(env, Start(cache), steps)
    ensures AlwaysFresh(env, Start(cache), steps)
    ensures var s := Final(env, Start(cache), steps);
            && CacheOk(env, s.cache)
            && (s.w.WIdle? && s.n.NIdle? ==>
                  forall p :: p in s.published <==> Wanted(env, p, s.infos, s.cache))
  {
    NoOverlapLeavesNothing(env, Start(cache), steps);
    RunIsFreshIff(env, Start(cache), steps);
    var s := Final(env, Start(cache), steps);
    if s.w.WIdle? && s.n.NIdle? {
      forall p | Wanted(env, p, s.infos, s.cache) ensures p in s.published {
        var i, x :| i in s.infos && x in s.cache && Matches(env, i, x) && p == PathOf(env, i.entity, x);
        assert Covered(env, s, i, x);
      }
    }
  }

  // ---------------------------------------------------------------- each overlap does harm

  lemma Then(env: Env, s: State, step: Step, rest: seq<Step>) returns (steps: seq<Step>)
    requires Enabled(env, s, step) && IsRun(env, Apply(env, s, step), rest)
    ensures IsRun(env, s, steps) && Final(env, s, steps) == Final(env, Apply(env, s, step), rest)
  {
    steps := [step] + rest;
    assert steps[1..] == rest;
  }

  /** The record is appended and its scan begun. */
  lemma Begun(env: Env, info: Info, x: AddrObject, rest: seq<Step>) returns (steps: seq<Step>)
    requires Matches(env, info, x) && IsRun(env, State([info], {x}, {}, Scanning(info, {x}), NIdle), rest)
    ensures IsRun(env, Start({x}), steps)
    ensures Final(env, Start({x}), steps) == Final(env, State([info], {x}, {}, Scanning(info, {x}), NIdle), rest)
  {
    var s0 := Start({x});
    var s1 := Apply(env, s0, Append(info));
    assert Matching(env, info, {x}) == {x} && [] + [info] == [info];
    assert Apply(env, s1, BeginScan) == State([info], {x}, {}, Scanning(info, {x}), NIdle);
    steps := Then(env, s1, BeginScan, rest);
    steps := Then(env, s0, Append(info), steps);
  }

  /** The record is tracked and the address published. */
  lemma Tracked(env: Env, info: Info, x: AddrObject, rest: seq<Step>) returns (steps: seq<Step>)
    requires EnvOk(env) && WellFormed(env, x) && Matches(env, info, x)
    requires IsRun(env, State([info], {x}, {PathOf(env, info.entity, x)}, WIdle, NIdle), rest)
    ensures IsRun(env, Start({x}), steps)
    ensures Final(env, Start({x}), steps)
         == Final(env, State([info], {x}, {PathOf(env, info.entity, x)}, WIdle, NIdle), rest)
  {
    var s0 := State([info], {x}, {}, Scanning(info, {x}), NIdle);
    var s1 := Apply(env, s0, Publish(x));
    assert s1.w.todo == {};
    assert Apply(env, s1, EndScan) == State([info], {x}, {PathOf(env, info.entity, x)}, WIdle, NIdle);
    steps := Then(env, s1, EndScan, rest);
    steps := Then(env, s0, Publish(x), steps);
    steps := Begun(env, info, x, steps);
  }

  /** A scan that hands an address over after its removal was announced leaves it published. */
  lemma StaleAfterScan(env: Env, info: Info, x: AddrObject) returns (steps: seq<Step>)
    requires EnvOk(env) && WellFormed(env, x) && Matches(env, info, x)
    ensures IsRun(env, Start({x}), steps)
    ensures var s := Final(env, Start({x}), steps);
            s.w.WIdle? && s.n.NIdle? && s.cache == {} && PathOf(env, info.entity, x) in s.published
  {
    var s0 := State([info], {x}, {}, Scanning(info, {x}), NIdle);
    var s1 := Apply(env, s0, CacheRemove(x, false));
    var s2 := Apply(env, s1, Lock);
    var s3 := Apply(env, s2, Call);
    var s4 := Apply(env, s3, Unlock);
    var s5 := Apply(env, s4, Publish(x));
    assert s5.w.todo == {} && s5.cache == {};
    var none: seq<Step> := [];
    steps := Then(env, s5, EndScan, none);
    steps := Then(env, s4, Publish(x), steps);
    steps := Then(env, s3, Unlock, steps);
    steps := Then(env, s2, Call, steps);
    steps := Then(env, s1, Lock, steps);
    steps := Then(env, s0, CacheRemove(x, false), steps);
    steps := Begun(env, info, x, steps);
  }

  /** A record dropped while the removal of its address waits for the lock leaves the address published:
      the unlink no longer finds it in the cache, and the callback no longer finds the record. */
  lemma StaleAfterUnlink(env: Env, info: Info, x: AddrObject) returns (steps: seq<Step>)
    requires EnvOk(env) && WellFormed(env, x) && Matches(env, info, x)
    ensures IsRun(env, Start({x}), steps)
    ensures var s := Final(env, Start({x}), steps);
            s.w.WIdle? && s.n.NIdle? && s.infos == [] && s.cache == {} && PathOf(env, info.entity, x) in s.published
  {
    var s0 := State([info], {x}, {PathOf(env, info.entity, x)}, WIdle, NIdle);
    var s1 := Apply(env, s0, CacheRemove(x, false));
    var s2 := Apply(env, s1, BeginUnlink(info));
    var s3 := Apply(env, s2, Unlink(0));
    assert s3.cache == {} && s3.w.todo == {} && s3.infos == [];
    var s4 := Apply(env, s3, EndUnlink);
    var s5 := Apply(env, s4, Lock);
    var none: seq<Step> := [];
    steps := Then(env, s5, Unlock, none);
    steps := Then(env, s4, Lock, steps);
    steps := Then(env, s3, EndUnlink, steps);
    steps := Then(env, s2, Unlink(0), steps);
    steps := Then(env, s1, BeginUnlink(info), steps);
    steps := Then(env, s0, CacheRemove(x, false), steps);
    steps := Tracked(env, info, x, steps);
  }

  /** So does an address removed while the walk of an unlink has it ahead and then passes over it. */
  lemma StaleDuringUnlink(env: Env, info: Info, x: AddrObject) returns (steps: seq<Step>)
    requires EnvOk(env) && WellFormed(env, x) && Matches(env, info, x)
    ensures IsRun(env, Start({x}), steps)
    ensures var s := Final(env, Start({x}), steps);
            s.w.WIdle? && s.n.NIdle? && s.infos == [] && s.cache == {} && PathOf(env, info.entity, x) in s.published
  {
    var s0 := State([info], {x}, {PathOf(env, info.entity, x)}, WIdle, NIdle);
    var s1 := Apply(env, s0, BeginUnlink(info));
    var s2 := Apply(env, s1, Unlink(0));
    assert s2.w.todo == {x} && s2.infos == [];
    var s3 := Apply(env, s2, CacheRemove(x, true));
    assert s3.cache == {} && s3.w.todo == {};
    var s4 := Apply(env, s3, EndUnlink);
    var s5 := Apply(env, s4, Lock);
    var none: seq<Step> := [];
    steps := Then(env, s5, Unlock, none);
    steps := Then(env, s4, Lock, steps);
    steps := Then(env, s3, EndUnlink, steps);
    steps := Then(env, s2, CacheRemove(x, true), steps);
    steps := Then(env, s1, Unlink(0), steps);
    steps := Then(env, s0, BeginUnlink(info), steps);
    steps := Tracked(env, info, x, steps);
  }

  // ---------------------------------------------------------------- both threads come to an end

  /** A step of a thread that is not idle, towards its end. */
  lemma {:induction false} NextStep(env: Env, s: State) returns (step: Step)
    requires EnvOk(env) && Inv(env, s) && ScanOk(env, s) && !(s.w.WIdle? && s.n.NIdle?)
    ensures Enabled(env, s, step)
    ensures Keeps(s, Apply(env, s, step))
    ensures Nearer(s, Apply(env, s, step))
  {
    if s.n.Calling? {
      step := if s.n.next < |s.infos| then Call else Unlock;
    } else if s.w.Appended? {
      step := BeginScan;
    } else if s.w.Scanning? {
      if s.w.todo == {} { step := EndScan; } else { var x :| x in s.w.todo; step := Publish(x); }
    } else if s.w.Unlinking? {
      if s.w.todo != {} {
        var x :| x in s.w.todo;
        step := Unpublish(x);
      } else if s.w.info in s.infos {
        var i :| 0 <= i < |s.infos| && s.infos[i] == s.w.info;
        step := Unlink(i);
      } else {
        step := EndUnlink;
      }
    } else {
      step := Lock;
    }
  }

  /** The cache is the same, and of the records only the one being dropped may have gone. */
  ghost predicate Keeps(s: State, t: State) {
    && t.cache == s.cache
    && (t.w.Unlinking? ==> s.w.Unlinking? && t.w.info == s.w.info)
    && (if s.w.Unlinking? then forall i :: i in s.infos && i != s.w.info ==> i in t.infos
        else t.infos == s.infos)
  }

  function Phase(w: Watcher): nat {
    if w.Appended? then 2 else if w.WIdle? then 0 else 1
  }

  function Left(w: Watcher): nat {
    if w.Scanning? || w.Unlinking? then |w.todo| else 0
  }

  function CallsLeft(s: State): int {
    match s.n
    case NIdle => 0
    case Pending(_, _) => |s.infos| + 2
    case Calling(_, _, next) => if next <= |s.infos| then |s.infos| - next + 1 else 0
  }

  /** Less is left to do: first of the watch thread, then of the other. */
  predicate Nearer(s: State, t: State) {
    || Phase(t.w) < Phase(s.w)
    || (Phase(t.w) == Phase(s.w) && |t.infos| < |s.infos|)
    || (Phase(t.w) == Phase(s.w) && |t.infos| == |s.infos| && Left(t.w) < Left(s.w))
    || (Phase(t.w) == Phase(s.w) && |t.infos| == |s.infos| && Left(t.w) == Left(s.w) && CallsLeft(t) < CallsLeft(s))
  }

  lemma {:induction false} Finish(env: Env, s: State) returns (steps: seq<Step>)
    requires EnvOk(env) && Inv(env, s) && ScanOk(env, s)
    ensures IsRun(env, s, steps) && Keeps(s, Final(env, s, steps))
    ensures Final(env, s, steps).w.WIdle? && Final(env, s, steps).n.NIdle?
    decreases Phase(s.w), |s.infos|, Left(s.w), CallsLeft(s)
  {
    if s.w.WIdle? && s.n.NIdle? {
      steps := [];
    } else {
      var step := NextStep(env, s);
      StepKeepsInv(env, s, step);
      StepKeepsScan(env, s, step);
      var rest := Finish(env, Apply(env, s, step));
      steps := Then(env, s, step, rest);
    }
  }

  lemma {:induction false} RunKeepsScan(env: Env, s: State, steps: seq<Step>)
    requires EnvOk(env) && Inv(env, s) && ScanOk(env, s) && IsRun(env, s, steps)
    ensures ScanOk(env, Final(env, s, steps))
    decreases |steps|
  {
    if steps != [] {
      StepKeepsInv(env, s, steps[0]);
      StepKeepsScan(env, s, steps[0]);
      RunKeepsScan(env, Apply(env, s, steps[0]), steps[1..]);
    }
  }

  /** The threads never block each other for good: from every state of every run, steps that change
      neither the cache nor begin anything new lead both to the end of what they are doing, where every
      match is published; then the next record and the next address can come. */
  lemma EveryRunCanFinish(env: Env, cache: set<AddrObject>, steps: seq<Step>) returns (more: seq<Step>)
    requires EnvOk(env) && CacheOk(env, cache) && Unshared(cache) && IsRun(env, Start(cache), steps)
    ensures IsRun(env, Final(env, Start(cache), steps), more)
    ensures var s := Final(env, Start(cache), steps);
            var t := Final(env, s, more);
            && t.w.WIdle? && t.n.NIdle? && Keeps(s, t)
            && (forall info, x :: info in t.infos && x in s.cache && Matches(env, info, x) ==>
                  x.local.Some? && PathOf(env, info.entity, x) in t.published)
            && (forall info :: Enabled(env, t, Append(info)) && Enabled(env, t, BeginUnlink(info)))
            && (forall x, noticed :: x in s.cache ==> Enabled(env, t, CacheRemove(x, noticed)))
            && (forall x, noticed :: x !in s.cache && WellFormed(env, x) && Unshared(s.cache + {x}) ==>
                  Enabled(env, t, CacheAdd(x, noticed)))
  {
    var s := Final(env, Start(cache), steps);
    RunKeepsInv(env, Start(cache), steps);
    RunKeepsScan(env, Start(cache), steps);
    more := Finish(env, s);
    RunKeepsInv(env, s, more);
    var t := Final(env, s, more);
    forall info, x | info in t.infos && x in s.cache && Matches(env, info, x)
      ensures x.local.Some? && PathOf(env, info.entity, x) in t.published {
      assert Covered(env, t, info, x);
    }
  }
}
