/** Runs of any callbacks: either family, rejected values, and other programs changing the kernel. */
module RibRuns {
  import opened Libnl
  import opened RibSpec
  import opened RibAgreement
  import opened RibRefinement
  import opened RibExact
  import opened Wrappers

  /** The daemon, the IPv4 configuration, the leaves each stored route was last built and edited from, and
      the indices whose last add the kernel refused. */
  datatype World = World(rib: State, config: map<int, Leaves>, held: map<int, Leaves>, refused: set<int>)

  function At(leaves: map<int, Leaves>, index: int): Leaves {
    if index in leaves then leaves[index] else map[]
  }

  predicate Rejected(env: Env, e: Event) {
    e.value.Some? && !Accepted(env, e.index, e.parameter, e.value.value)
  }

  /** The write of an IPv4 callback, in the configuration and in what the route is made of. */
  function Advance(env: Env, y: World, step: Step): World {
    var t := Next(env, y.rib, step);
    if step.Config? && step.event.family == 4 then
      var e := step.event;
      var m, h := At(y.config, e.index), At(y.held, e.index);
      var n := Written(m, e.parameter, e.value);
      World(t, y.config[e.index := n],
            y.held[e.index := if Lookup(y.rib, e.index).None? then n
                              else if Rejected(env, e) then h
                              else Written(h, e.parameter, e.value)],
            if Refused(y.rib, t) then y.refused + {e.index} else y.refused - {e.index})
    else y.(rib := t)
  }

  function Runs(env: Env, y: World, steps: seq<Step>): World
    decreases |steps|
  {
    if steps == [] then y else Runs(env, Advance(env, y, steps[0]), steps[1..])
  }

  ghost predicate AllAccepted(env: Env, index: int, m: Leaves) {
    forall p :: p in m ==> Accepted(env, index, p, m[p])
  }

  /** Only IPv4 callbacks are restricted: an accepted write to a stored route survives, and a route is
      not rebuilt from an accepted but ambiguous configuration. */
  ghost predicate StepOk(env: Env, y: World, step: Step) {
    step.Config? && step.event.family == 4 ==>
      var e := step.event;
      var n := Written(At(y.config, e.index), e.parameter, e.value);
      && e.index != 0 && Lists(e.tree, n)
      && (if Lookup(y.rib, e.index).Some?
          then Rejected(env, e) || Survives(env, e.index, At(y.held, e.index), e.parameter, e.value)
          else AllAccepted(env, e.index, n) ==> Unambiguous(env, e.index, n))
  }

  ghost predicate StepsOk(env: Env, y: World, steps: seq<Step>)
    decreases |steps|
  {
    steps == [] || (StepOk(env, y, steps[0]) && StepsOk(env, Advance(env, y, steps[0]), steps[1..]))
  }

  /** The leaves of the route are those of the configuration, apart from the rejected ones. */
  ghost predicate Follows(env: Env, index: int, h: Leaves, m: Leaves) {
    && (forall p :: p in h ==> p in m)
    && (forall p :: p in m && Accepted(env, index, p, m[p]) ==> p in h && h[p] == m[p])
  }

  /** A stored route is what its leaves describe; an absent one was refused, cannot be rebuilt or is not
      valid. */
  ghost predicate Tells(env: Env, y: World, i: int) {
    var h, m := At(y.held, i), At(y.config, i);
    if Lookup(y.rib, i).Some? then
      i !in y.refused && Unambiguous(env, i, h) && Lookup(y.rib, i) == Wished(env, h) && Follows(env, i, h, m)
    else
      i in y.refused || !AllAccepted(env, i, m) || (Unambiguous(env, i, m) && Wished(env, m) == None)
  }

  lemma OthersUntouched(env: Env, s: State, step: Step, i: int)
    requires step.Config? && step.event.family == 4 ==> i != step.event.index
    ensures Lookup(Next(env, s, step), i) == Lookup(s, i)
  {
    if step.Config? && step.event.family == 4 { OtherIndicesUntouched(env, s, step.event, i); }
  }

  /** A write to a stored route, rejected or surviving. */
  lemma StoredWrite(env: Env, s: State, h: Leaves, e: Event)
    requires e.family == 4 && e.index != 0 && Unambiguous(env, e.index, h)
    requires Lookup(s, e.index).Some? && Lookup(s, e.index) == Wished(env, h)
    requires Rejected(env, e) || Survives(env, e.index, h, e.parameter, e.value)
    ensures var t := Watch(env, s, e);
            var k := if Rejected(env, e) then h else Written(h, e.parameter, e.value);
            && Unambiguous(env, e.index, k)
            && Lookup(t, e.index) == (if Refused(s, t) then None else Wished(env, k))
  {
    var t := Watch(env, s, e);
    if Rejected(env, e) {
      RejectedIff(env, Meaning(env, h), e.index, e.parameter, e.value.value);
      assert t == s;
    } else {
      SurvivorIsUnambiguous(env, e.index, h, e.parameter, e.value);
      if Refused(s, t) {
        RefusedIsAbsent(env, s, e);
      } else {
        UpdateAgreesIff(env, s, h, e);
        AgreesIffWished(env, t, e.index, Written(h, e.parameter, e.value));
      }
    }
  }

  lemma RejectedLeafFails(env: Env, index: int, n: Leaves, tree: Tree)
    requires Lists(tree, n) && !AllAccepted(env, index, n)
    ensures Rebuild(env, 4, index, tree) == None
  {
    var p :| p in n && !Accepted(env, index, p, n[p]);
    var i :| 0 <= i < |tree| && tree[i].0 == p;
    RejectedTree(env, DefaultRoute(4), index, tree, i);
  }

  /** An index without a route is rebuilt. */
  lemma AbsentOutcome(env: Env, s: State, e: Event)
    requires e.family == 4 && Lookup(s, e.index) == None
    ensures var t := Watch(env, s, e);
            Lookup(t, e.index) == if Refused(s, t) then None else Rebuilt(env, e.index, e.tree)
  {
  }

  /** A write to an index without a route rebuilds it. */
  lemma AbsentWrite(env: Env, s: State, n: Leaves, e: Event)
    requires e.family == 4 && e.index != 0 && Lookup(s, e.index) == None && Lists(e.tree, n)
    requires AllAccepted(env, e.index, n) ==> Unambiguous(env, e.index, n)
    ensures var t := Watch(env, s, e);
            Lookup(t, e.index) ==
              if Refused(s, t) || !AllAccepted(env, e.index, n) then None else Wished(env, n)
  {
    AbsentOutcome(env, s, e);
    if AllAccepted(env, e.index, n) {
      RebuildIsMeaning(env, e.index, n, e.tree);
    } else {
      RejectedLeafFails(env, e.index, n, e.tree);
    }
  }

  lemma FollowsWrite(env: Env, h: Leaves, m: Leaves, e: Event)
    requires Follows(env, e.index, h, m)
    ensures var k := if Rejected(env, e) then h else Written(h, e.parameter, e.value);
            Follows(env, e.index, k, Written(m, e.parameter, e.value))
  {
  }

  lemma FollowsExactly(env: Env, index: int, h: Leaves, m: Leaves)
    requires Follows(env, index, h, m) && AllAccepted(env, index, m)
    ensures h == m
  {
    assert forall p :: p in m ==> p in h && h[p] == m[p];
    assert h.Keys == m.Keys;
  }

  lemma StepTells(env: Env, y: World, step: Step, i: int)
    requires Tells(env, y, i) && StepOk(env, y, step)
    ensures Tells(env, Advance(env, y, step), i)
  {
    if step.Config? && step.event.family == 4 && step.event.index == i {
      var e, m, h := step.event, At(y.config, i), At(y.held, i);
      var z := Advance(env, y, step);
      if Lookup(y.rib, i).Some? {
        StoredWrite(env, y.rib, h, e);
        FollowsWrite(env, h, m, e);
        if AllAccepted(env, i, At(z.config, i)) {
          FollowsExactly(env, i, At(z.held, i), At(z.config, i));
        }
      } else {
        AbsentWrite(env, y.rib, Written(m, e.parameter, e.value), e);
      }
    } else {
      OthersUntouched(env, y.rib, step, i);
    }
  }

  lemma {:induction false} RunTells(env: Env, y: World, steps: seq<Step>, i: int)
    requires Tells(env, y, i) && StepsOk(env, y, steps)
    ensures Tells(env, Runs(env, y, steps), i)
    decreases |steps|
  {
    if steps != [] {
      StepTells(env, y, steps[0], i);
      RunTells(env, Advance(env, y, steps[0]), steps[1..], i);
    }
  }

  /** After any run from the start, with callbacks of both families and other programs changing the
      kernel: an index whose leaves are all accepted holds exactly the rebuild of its configuration,
      unless its last add was refused; with a rejected leaf, a stored route still describes the leaves
      last accepted. */
  lemma EveryRunFollowsTheConfiguration(env: Env, kernel: set<Route>, steps: seq<Step>, i: int)
    requires var y := World(Initial(kernel), map[], map[], {}); StepsOk(env, y, steps)
    ensures var z := Runs(env, World(Initial(kernel), map[], map[], {}), steps);
            var h, m := At(z.held, i), At(z.config, i);
            && (AllAccepted(env, i, m) ==>
                  Lookup(z.rib, i) == if i in z.refused then None else Wished(env, m))
            && (Lookup(z.rib, i).Some? ==> Lookup(z.rib, i) == Wished(env, h) && Follows(env, i, h, m))
  {
    RunTells(env, World(Initial(kernel), map[], map[], {}), steps, i);
    var z := Runs(env, World(Initial(kernel), map[], map[], {}), steps);
    var h, m := At(z.held, i), At(z.config, i);
    if AllAccepted(env, i, m) && Lookup(z.rib, i).Some? {
      FollowsExactly(env, i, h, m);
    }
  }
}
