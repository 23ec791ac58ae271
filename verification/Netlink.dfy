/** netlink.c: who is called back for which kernel cache. */
module Netlink {
  /** A cache_descriptor; callbacks are identified by their addresses, descriptors by serial numbers. */
  datatype Descriptor = Descriptor(serial: nat, kind: string, callbacks: seq<int>)

  type Registry = seq<Descriptor>

  /** The index of the descriptor of a kind, or the length of the list. */
  function Position(caches: Registry, kind: string): (i: nat)
    ensures i <= |caches|
    ensures i < |caches| ==> caches[i].kind == kind
    ensures forall j :: 0 <= j < i ==> caches[j].kind != kind
  {
    if caches == [] || caches[0].kind == kind then 0 else 1 + Position(caches[1..], kind)
  }

  function Callbacks(caches: Registry, kind: string): seq<int> {
    var i := Position(caches, kind);
    if i < |caches| then caches[i].callbacks else []
  }

  /** g_list_remove: the first occurrence. */
  function RemoveFirst<T(==)>(s: seq<T>, x: T): seq<T> {
    if s == [] then [] else if s[0] == x then s[1..] else [s[0]] + RemoveFirst(s[1..], x)
  }

  /** One descriptor a kind, none of them unused. */
  ghost predicate Tidy(caches: Registry) {
    && (forall i :: 0 <= i < |caches| ==> caches[i].callbacks != [])
    && (forall i, j :: 0 <= i < j < |caches| ==> caches[i].kind != caches[j].kind)
  }

  /** `serial` names the new descriptor, if one is made. */
  function Register(caches: Registry, kind: string, cb: int, serial: nat): Registry {
    var i := Position(caches, kind);
    if i == |caches| then [Descriptor(serial, kind, [cb])] + caches
    else caches[i := caches[i].(callbacks := [cb] + caches[i].callbacks)]
  }

  function Unregister(caches: Registry, kind: string, cb: int): Registry {
    var i := Position(caches, kind);
    if i == |caches| then caches
    else
      var callbacks := RemoveFirst(caches[i].callbacks, cb);
      if callbacks == [] then caches[..i] + caches[i + 1..]
      else caches[i := caches[i].(callbacks := callbacks)]
  }

  lemma PositionIs(caches: Registry, kind: string, i: nat)
    requires i < |caches| && caches[i].kind == kind && forall j :: 0 <= j < i ==> caches[j].kind != kind
    ensures Position(caches, kind) == i
  {
  }

  lemma {:induction false} RegisterNew(caches: Registry, kind: string, cb: int, serial: nat, other: string)
    requires Tidy(caches) && Position(caches, kind) == |caches|
    ensures Tidy(Register(caches, kind, cb, serial))
    ensures Callbacks(Register(caches, kind, cb, serial), other) ==
              if other == kind then [cb] else Callbacks(caches, other)
  {
    var d, o := Descriptor(serial, kind, [cb]), Position(caches, other);
    var t := [d] + caches;
    TidyCons(d, caches);
    if other == kind {
      PositionIs(t, other, 0);
    } else if o < |caches| {
      assert forall j :: 0 <= j < o ==> t[j + 1] == caches[j];
      PositionIs(t, other, o + 1);
    }
  }

  lemma {:induction false} TidyCons(d: Descriptor, caches: Registry)
    requires Tidy(caches) && d.callbacks != [] && forall j :: 0 <= j < |caches| ==> caches[j].kind != d.kind
    ensures Tidy([d] + caches)
  {
    var t := [d] + caches;
    assert forall j :: 0 < j < |t| ==> t[j] == caches[j - 1];
  }

  lemma {:induction false} RegisterKnown(caches: Registry, kind: string, cb: int, serial: nat, other: string)
    requires Tidy(caches) && Position(caches, kind) < |caches|
    ensures Tidy(Register(caches, kind, cb, serial))
    ensures Callbacks(Register(caches, kind, cb, serial), other) ==
              (if other == kind then [cb] else []) + Callbacks(caches, other)
  {
    var t, i, o := Register(caches, kind, cb, serial), Position(caches, kind), Position(caches, other);
    assert forall j :: 0 <= j < |t| ==> t[j].kind == caches[j].kind && (j != i ==> t[j] == caches[j]);
    if o < |caches| {
      PositionIs(t, other, o);
      assert o == i <==> other == kind;
    }
  }

  /** Registering adds one call to one kind and disturbs no other subscriber. */
  lemma {:induction false} RegisterAddsOne(caches: Registry, kind: string, cb: int, serial: nat, other: string)
    requires Tidy(caches)
    ensures Tidy(Register(caches, kind, cb, serial))
    ensures Callbacks(Register(caches, kind, cb, serial), other) ==
              (if other == kind then [cb] + Callbacks(caches, kind) else Callbacks(caches, other))
  {
    if Position(caches, kind) == |caches| {
      RegisterNew(caches, kind, cb, serial, other);
    } else {
      RegisterKnown(caches, kind, cb, serial, other);
    }
  }

  lemma {:induction false} UnregisterKeepsTidy(caches: Registry, kind: string, cb: int)
    requires Tidy(caches)
    ensures Tidy(Unregister(caches, kind, cb))
  {
    var t := Unregister(caches, kind, cb);
    var i := Position(caches, kind);
    if i < |caches| && RemoveFirst(caches[i].callbacks, cb) == [] {
      assert forall j :: 0 <= j < |t| ==> t[j] == caches[if j < i then j else j + 1];
    }
  }

  /** Unregistering takes away the latest matching call of one kind and disturbs no other subscriber. */
  lemma {:induction false} UnregisterRemovesOne(caches: Registry, kind: string, cb: int, other: string)
    requires Tidy(caches)
    ensures Tidy(Unregister(caches, kind, cb))
    ensures Callbacks(Unregister(caches, kind, cb), other) ==
              (if other == kind then RemoveFirst(Callbacks(caches, kind), cb) else Callbacks(caches, other))
  {
    var t := Unregister(caches, kind, cb);
    var i, o := Position(caches, kind), Position(caches, other);
    UnregisterKeepsTidy(caches, kind, cb);
    if i < |caches| && RemoveFirst(caches[i].callbacks, cb) == [] {
      DroppedPosition(caches, i, other);
    } else if o < |caches| {
      PositionIs(t, other, o);
    }
  }

  lemma {:induction false} FirstRemoved<T>(s: seq<T>, x: T, k: nat)
    requires k < |s| && s[k] == x && x !in s[..k]
    ensures RemoveFirst(s, x) == s[..k] + s[k + 1..]
    decreases k
  {
    if k == 0 {
      assert s[..0] + s[1..] == s[1..];
    } else {
      assert s[0] == s[..k][0] && s[1..][..k - 1] == s[..k][1..];
      FirstRemoved(s[1..], x, k - 1);
      assert s[1..][k..] == s[k + 1..];
      assert [s[0]] + s[1..][..k - 1] == s[..k];
    }
  }

  lemma {:induction false} NothingRemoved<T>(s: seq<T>, x: T)
    requires x !in s
    ensures RemoveFirst(s, x) == s
  {
    if s != [] {
      NothingRemoved(s[1..], x);
      assert s == [s[0]] + s[1..];
    }
  }

  /** Unregistering takes away the first occurrence and keeps everything else in its order. */
  lemma {:induction false} UnregisterExact(caches: Registry, kind: string, cb: int, k: nat)
    requires Tidy(caches)
    requires var cbs := Callbacks(caches, kind); k < |cbs| && cbs[k] == cb && cb !in cbs[..k]
    ensures var cbs := Callbacks(caches, kind);
            Callbacks(Unregister(caches, kind, cb), kind) == cbs[..k] + cbs[k + 1..]
  {
    FirstRemoved(Callbacks(caches, kind), cb, k);
    UnregisterRemovesOne(caches, kind, cb, kind);
  }

  lemma {:induction false} UnregisterAbsent(caches: Registry, kind: string, cb: int)
    requires Tidy(caches) && cb !in Callbacks(caches, kind)
    ensures Unregister(caches, kind, cb) == caches
  {
    NothingRemoved(Callbacks(caches, kind), cb);
  }

  lemma {:induction false} FirstOccurrence<T>(s: seq<T>, x: T) returns (k: nat)
    requires x in s
    ensures k < |s| && s[k] == x && x !in s[..k]
  {
    if s[0] == x {
      k := 0;
    } else {
      assert s == [s[0]] + s[1..];
      k := FirstOccurrence(s[1..], x);
      k := k + 1;
      assert s[..k] == [s[0]] + s[1..][..k - 1];
    }
  }

  lemma {:induction false} OneLess<T>(s: seq<T>, k: nat)
    requires k < |s|
    ensures multiset(s[..k] + s[k + 1..]) == multiset(s) - multiset{s[k]}
  {
    assert s == s[..k] + [s[k]] + s[k + 1..];
  }

  /** So the departed subscriber is called once less and every other as often as before. */
  lemma {:induction false} UnregisterCounts(caches: Registry, kind: string, cb: int)
    requires Tidy(caches)
    ensures multiset(Callbacks(Unregister(caches, kind, cb), kind)) == multiset(Callbacks(caches, kind)) - multiset{cb}
  {
    var cbs := Callbacks(caches, kind);
    if cb in cbs {
      var k := FirstOccurrence(cbs, cb);
      UnregisterExact(caches, kind, cb, k);
      OneLess(cbs, k);
    } else {
      UnregisterAbsent(caches, kind, cb);
      assert multiset(cbs)[cb] == 0;
    }
  }

  lemma {:induction false} DroppedPosition(caches: Registry, i: nat, other: string)
    requires Tidy(caches) && i < |caches|
    ensures Callbacks(caches[..i] + caches[i + 1..], other) ==
              (if other == caches[i].kind then [] else Callbacks(caches, other))
  {
    var t := caches[..i] + caches[i + 1..];
    var o := Position(caches, other);
    if other != caches[i].kind && o < |caches| {
      PositionIs(t, other, if o < i then o else o - 1);
    }
  }

  /** Unregistering right after registering restores the registry exactly. */
  lemma {:induction false} UnregisterUndoesRegister(caches: Registry, kind: string, cb: int, serial: nat)
    requires Tidy(caches)
    ensures Unregister(Register(caches, kind, cb, serial), kind, cb) == caches
  {
    var t := Register(caches, kind, cb, serial);
    var i := Position(caches, kind);
    if i == |caches| {
      PositionIs(t, kind, 0);
    } else {
      PositionIs(t, kind, i);
      assert t[i].callbacks[1..] == caches[i].callbacks;
    }
  }

  // ---------------------------------------------------------------- what the cache manager holds

  /** The cache manager calls back with the descriptor it was given when the descriptor was made; nothing
      takes a descriptor back from it. */
  datatype Manager = Manager(caches: Registry, held: map<nat, string>, next: nat)

  /** The descriptor is still in the list, and not freed. */
  ghost predicate Live(caches: Registry, serial: nat) {
    exists i :: 0 <= i < |caches| && caches[i].serial == serial
  }

  datatype Call = Reg(kind: string, cb: int) | Unreg(kind: string, cb: int)

  function Next(m: Manager, call: Call): Manager {
    match call
    case Reg(kind, cb) =>
      var isNew := Position(m.caches, kind) == |m.caches|;
      Manager(Register(m.caches, kind, cb, m.next),
              if isNew then m.held[m.next := kind] else m.held,
              if isNew then m.next + 1 else m.next)
    case Unreg(kind, cb) => m.(caches := Unregister(m.caches, kind, cb))
  }

  function Run(m: Manager, calls: seq<Call>): Manager
    decreases |calls|
  {
    if calls == [] then m else Run(Next(m, calls[0]), calls[1..])
  }

  const NONE := Manager([], map[], 0)

  /** Every descriptor in the list was given to the manager under its kind, and no serial is used twice. */
  ghost predicate Tracked(m: Manager) {
    && Tidy(m.caches)
    && (forall i :: 0 <= i < |m.caches| ==>
          m.caches[i].serial in m.held && m.held[m.caches[i].serial] == m.caches[i].kind)
    && (forall d :: d in m.held ==> d < m.next)
  }

  lemma {:induction false} RegKeepsTracked(m: Manager, kind: string, cb: int)
    requires Tracked(m)
    ensures Tracked(Next(m, Reg(kind, cb)))
  {
    var t, i := Next(m, Reg(kind, cb)), Position(m.caches, kind);
    RegisterAddsOne(m.caches, kind, cb, m.next, kind);
    if i == |m.caches| {
      assert forall j :: 0 < j < |t.caches| ==> t.caches[j] == m.caches[j - 1];
    } else {
      assert forall j :: 0 <= j < |t.caches| ==>
          t.caches[j].serial == m.caches[j].serial && t.caches[j].kind == m.caches[j].kind;
    }
  }

  lemma {:induction false} UnregKeepsTracked(m: Manager, kind: string, cb: int)
    requires Tracked(m)
    ensures Tracked(Next(m, Unreg(kind, cb)))
  {
    var t, i := Unregister(m.caches, kind, cb), Position(m.caches, kind);
    UnregisterKeepsTidy(m.caches, kind, cb);
    if i < |m.caches| {
      if RemoveFirst(m.caches[i].callbacks, cb) == [] {
        assert forall j :: 0 <= j < |t| ==> t[j] == m.caches[if j < i then j else j + 1];
      } else {
        assert forall j :: 0 <= j < |t| ==> t[j].serial == m.caches[j].serial && t[j].kind == m.caches[j].kind;
      }
    }
  }

  lemma NextKeepsTracked(m: Manager, call: Call)
    requires Tracked(m)
    ensures Tracked(Next(m, call))
  {
    match call
    case Reg(kind, cb) => RegKeepsTracked(m, kind, cb);
    case Unreg(kind, cb) => UnregKeepsTracked(m, kind, cb);
  }

  lemma {:induction false} RunKeepsTracked(m: Manager, calls: seq<Call>)
    requires Tracked(m)
    ensures Tracked(Run(m, calls))
    decreases |calls|
  {
    if calls != [] {
      NextKeepsTracked(m, calls[0]);
      RunKeepsTracked(Next(m, calls[0]), calls[1..]);
    }
  }

  /** A descriptor of a kind that the manager holds and that is not freed. */
  ghost predicate LiveFor(m: Manager, kind: string, serial: nat) {
    serial in m.held && m.held[serial] == kind && Live(m.caches, serial)
  }

  /** After any calls, a kind has a subscriber exactly when the manager holds a live descriptor for it,
      and it never holds two. */
  lemma SubscribedIffLive(calls: seq<Call>, kind: string)
    ensures var m := Run(NONE, calls);
            && (Callbacks(m.caches, kind) != [] <==> exists d :: LiveFor(m, kind, d))
            && forall d, e :: LiveFor(m, kind, d) && LiveFor(m, kind, e) ==> d == e
  {
    RunKeepsTracked(NONE, calls);
    var m := Run(NONE, calls);
    var i := Position(m.caches, kind);
    if i < |m.caches| {
      assert LiveFor(m, kind, m.caches[i].serial) by { assert Live(m.caches, m.caches[i].serial); }
    }
  }

  ghost predicate AllLive(m: Manager) {
    forall d :: d in m.held ==> Live(m.caches, d)
  }

  /** The last subscriber of a kind leaves. */
  predicate Drops(m: Manager, call: Call) {
    call.Unreg? && Callbacks(m.caches, call.kind) == [call.cb]
  }

  lemma RemovesAllIff(callbacks: seq<int>, cb: int)
    requires callbacks != []
    ensures RemoveFirst(callbacks, cb) == [] <==> callbacks == [cb]
  {
  }

  /** A freed descriptor stays freed: no serial is used twice. */
  lemma {:induction false} DeadStaysDead(m: Manager, call: Call, d: nat)
    requires Tracked(m) && d in m.held && !Live(m.caches, d)
    ensures d in Next(m, call).held && !Live(Next(m, call).caches, d)
  {
    var t, i := Next(m, call).caches, Position(m.caches, call.kind);
    forall j | 0 <= j < |t| ensures t[j].serial != d {
      if call.Reg? {
        assert i == |m.caches| ==> t == [Descriptor(m.next, call.kind, [call.cb])] + m.caches;
        assert i < |m.caches| ==> t[j].serial == m.caches[j].serial;
      } else if i < |m.caches| {
        var k := if RemoveFirst(m.caches[i].callbacks, call.cb) != [] || j < i then j else j + 1;
        assert t[j].serial == m.caches[k].serial;
      }
    }
  }

  lemma {:induction false} KeepsLive(m: Manager, call: Call, d: nat)
    requires Tracked(m) && Live(m.caches, d) && !Drops(m, call)
    ensures Live(Next(m, call).caches, d)
  {
    var t, i := Next(m, call).caches, Position(m.caches, call.kind);
    var j :| 0 <= j < |m.caches| && m.caches[j].serial == d;
    if call.Reg? {
      assert t[if i == |m.caches| then j + 1 else j].serial == d;
    } else {
      if i < |m.caches| { RemovesAllIff(m.caches[i].callbacks, call.cb); }
      assert t[j].serial == d;
    }
  }

  lemma {:induction false} DropKills(m: Manager, call: Call)
    requires Tracked(m) && Drops(m, call)
    ensures !AllLive(Next(m, call))
  {
    var t, i := Next(m, call).caches, Position(m.caches, call.kind);
    var d := m.caches[i].serial;
    RemovesAllIff(m.caches[i].callbacks, call.cb);
    forall j | 0 <= j < |t| ensures t[j].serial != d {
      var k := if j < i then j else j + 1;
      assert t[j] == m.caches[k] && m.caches[k].kind != m.caches[i].kind;
    }
    assert d in Next(m, call).held && !Live(t, d);
  }

  ghost predicate NoneDrops(m: Manager, calls: seq<Call>)
    decreases |calls|
  {
    calls == [] || (!Drops(m, calls[0]) && NoneDrops(Next(m, calls[0]), calls[1..]))
  }

  lemma {:induction false} RunAllLiveIff(m: Manager, calls: seq<Call>)
    requires Tracked(m)
    ensures AllLive(Run(m, calls)) <==> AllLive(m) && NoneDrops(m, calls)
    decreases |calls|
  {
    if calls != [] {
      var t := Next(m, calls[0]);
      NextKeepsTracked(m, calls[0]);
      RunAllLiveIff(t, calls[1..]);
      if !AllLive(m) {
        var d :| d in m.held && !Live(m.caches, d);
        DeadStaysDead(m, calls[0], d);
      } else if Drops(m, calls[0]) {
        DropKills(m, calls[0]);
      } else {
        forall d | d in t.held ensures Live(t.caches, d) {
          if d in m.held { KeepsLive(m, calls[0], d); } else { assert t.caches[0].serial == d; }
        }
      }
    }
  }

  /** Every descriptor that the manager may call back with is live exactly when no call took away the
      last subscriber of a kind. */
  lemma CallbacksAreLiveIff(calls: seq<Call>)
    ensures AllLive(Run(NONE, calls)) <==> NoneDrops(NONE, calls)
  {
    RunAllLiveIff(NONE, calls);
  }

  // ---------------------------------------------------------------- the lists in place

  datatype Action = NEW | DEL

  datatype Event = Event(cb: int, action: Action, obj: int)

  class Monitor {
    var caches: Registry
    /** The descriptors the cache manager was given. */
    var held: map<nat, string>
    var next: nat
    /** The calls made, in order. */
    var calls: seq<Event>

    ghost function Abs(): Manager
      reads this
    {
      Manager(caches, held, next)
    }

    constructor ()
      ensures Abs() == NONE && calls == []
    {
      caches, held, next, calls := [], map[], 0, [];
    }

    /** netlink_register; `content` is what the kernel cache of that kind holds, in its order. */
    method NetlinkRegister(kind: string, cb: int, content: seq<int>)
      modifies this
      ensures Abs() == Next(old(Abs()), Reg(kind, cb))
      ensures calls == old(calls) + seq(|content|, i requires 0 <= i < |content| => Event(cb, NEW, content[i]))
    {
      var i := 0;
      while i < |caches| && caches[i].kind != kind
        invariant 0 <= i <= |caches|
        invariant forall j :: 0 <= j < i ==> caches[j].kind != kind
      {
        i := i + 1;
      }
      if i < |caches| {
        PositionIs(caches, kind, i);
      } else {
        assert Position(caches, kind) == |caches|;
        caches := [Descriptor(next, kind, [])] + caches;
        held, next := held[next := kind], next + 1;
        i := 0;
      }
      ghost var found := caches;
      caches := caches[i := caches[i].(callbacks := [cb] + caches[i].callbacks)];
      if Position(old(caches), kind) == |old(caches)| {
        assert [cb] + found[0].callbacks == [cb];
        assert caches == [Descriptor(old(next), kind, [cb])] + old(caches);
      }
      var k := 0;
      while k < |content|
        invariant 0 <= k <= |content| && Abs() == Next(old(Abs()), Reg(kind, cb))
        invariant calls == old(calls) + seq(k, i requires 0 <= i < k => Event(cb, NEW, content[i]))
      {
        calls := calls + [Event(cb, NEW, content[k])];
        k := k + 1;
      }
    }

    /** netlink_unregister. */
    method NetlinkUnregister(kind: string, cb: int)
      modifies this`caches
      ensures Abs() == Next(old(Abs()), Unreg(kind, cb))
    {
      var i := 0;
      while i < |caches| && caches[i].kind != kind
        invariant 0 <= i <= |caches|
        invariant forall j :: 0 <= j < i ==> caches[j].kind != kind
      {
        i := i + 1;
      }
      if i == |caches| {
        return;
      }
      PositionIs(caches, kind, i);
      var callbacks := RemoveFirst(caches[i].callbacks, cb);
      if callbacks == [] {
        caches := caches[..i] + caches[i + 1..];
      } else {
        caches := caches[i := caches[i].(callbacks := callbacks)];
      }
    }

    /** change_cb: the cache manager hands over the descriptor it holds, which must not be freed, and every
        subscriber of its kind is called once for each time it registered. */
    method ChangeCb(serial: nat, action: Action, obj: int)
      requires Tracked(Abs()) && serial in held && Live(caches, serial)
      modifies this`calls
      ensures var cbs := Callbacks(caches, held[serial]);
              calls == old(calls) + seq(|cbs|, i requires 0 <= i < |cbs| => Event(cbs[i], action, obj))
    {
      var d :| 0 <= d < |caches| && caches[d].serial == serial;
      PositionIs(caches, held[serial], d);
      var cbs := caches[d].callbacks;
      var k := 0;
      while k < |cbs|
        invariant 0 <= k <= |cbs|
        invariant calls == old(calls) + seq(k, i requires 0 <= i < k => Event(cbs[i], action, obj))
      {
        calls := calls + [Event(cbs[k], action, obj)];
        k := k + 1;
      }
    }
  }
}
