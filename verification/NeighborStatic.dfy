/** ip/neighbor-static.c: configured neighbours, installed when their interface is active. */
module NeighborStatic {
  import opened Libnl
  import opened Wrappers

  type LinkAddress = seq<int>

  datatype Env = Env(parseAddress: (string, Family) -> Option<Address>, parseLink: string -> Option<LinkAddress>)

  /** The list entry of a path: interface, family and the text of the address. */
  datatype Entry = Entry(ifname: string, family: Family, ip: string)

  /** A kernel neighbour is found by interface and address. */
  datatype Key = Key(ifindex: int, address: Address)

  type Config = map<Entry, string>
  type Links = map<string, int>
  type Table = map<Key, LinkAddress>

  // ---------------------------------------------------------------- what is meant

  ghost predicate EntryOk(env: Env, e: Entry) {
    env.parseAddress(e.ip, e.family).Some?
  }

  function AddressOf(env: Env, e: Entry): Address
    requires EntryOk(env, e)
  {
    env.parseAddress(e.ip, e.family).value
  }

  /** Every entry is well formed. */
  ghost predicate ConfigOk(env: Env, config: Config) {
    forall e :: e in config ==> EntryOk(env, e) && env.parseLink(config[e]).Some?
  }

  /** Two entries of one interface that spell the same address. */
  ghost predicate Alias(env: Env, e: Entry, f: Entry)
    requires EntryOk(env, e) && EntryOk(env, f)
  {
    e != f && e.ifname == f.ifname && AddressOf(env, e) == AddressOf(env, f)
  }

  ghost predicate NoAliases(env: Env, config: Config)
    requires ConfigOk(env, config)
  {
    forall e, f :: e in config && f in config ==> !Alias(env, e, f)
  }

  ghost predicate LinksOk(links: Links) {
    && (forall n :: n in links ==> links[n] != 0)
    && (forall n, m :: n in links && m in links && links[n] == links[m] ==> n == m)
  }

  function KeyOf(env: Env, links: Links, e: Entry): Key
    requires EntryOk(env, e) && e.ifname in links
  {
    Key(links[e.ifname], AddressOf(env, e))
  }

  /** The kernel's permanent neighbours are exactly the configured entries whose interface is active. */
  ghost predicate Exact(env: Env, config: Config, links: Links, kernel: Table)
    requires ConfigOk(env, config)
  {
    && (forall e :: e in config && e.ifname in links ==>
          KeyOf(env, links, e) in kernel && Some(kernel[KeyOf(env, links, e)]) == env.parseLink(config[e]))
    && (forall k :: k in kernel ==> Configured(env, config, links, k))
  }

  ghost predicate Configured(env: Env, config: Config, links: Links, k: Key)
    requires ConfigOk(env, config)
  {
    exists e :: e in config && e.ifname in links && KeyOf(env, links, e) == k
  }

  /** So the kernel depends on the final configuration and link map alone, not on the order of events. */
  lemma ExactIsUnique(env: Env, config: Config, links: Links, a: Table, b: Table)
    requires ConfigOk(env, config) && Exact(env, config, links, a) && Exact(env, config, links, b)
    ensures a == b
  {
    forall k | k in a ensures k in b && a[k] == b[k] {
      assert Configured(env, config, links, k);
    }
    forall k | k in b ensures k in a {
      assert Configured(env, config, links, k);
    }
  }

  // ---------------------------------------------------------------- the callbacks

  /** apteryx_to_neighbor: the key and link-layer address of the neighbour, or None when the setting
      is not a link-layer address, does not parse, or its interface is not active. */
  function ToNeighbor(env: Env, links: Links, e: Entry, isLinkLayer: bool, value: Option<string>)
    : Option<(Key, Option<LinkAddress>)>
  {
    if !isLinkLayer then None
    else
      match env.parseAddress(e.ip, e.family)
      case None => None
      case Some(address) =>
        var ifindex := if e.ifname in links then links[e.ifname] else 0;
        if ifindex == 0 then None
        else if value.None? then Some((Key(ifindex, address), None))
        else
          match env.parseLink(value.value)
          case None => None
          case Some(lladdr) => Some((Key(ifindex, address), Some(lladdr)))
  }

  /** apteryx_static_neighbors_cb: replace-or-create, or delete. */
  function NeighborsCb(env: Env, links: Links, kernel: Table, e: Entry, isLinkLayer: bool,
                       value: Option<string>): Table {
    match ToNeighbor(env, links, e, isLinkLayer, value)
    case None => kernel
    case Some((key, lladdr)) => if lladdr.Some? then kernel[key := lladdr.value] else kernel - {key}
  }

  /** A write changes the table exactly as far as it names a neighbour: the link-layer leaf, a readable
      address, an active interface, and a readable link-layer address or a delete. */
  lemma WriteIff(env: Env, links: Links, kernel: Table, e: Entry, isLinkLayer: bool, value: Option<string>)
    requires LinksOk(links)
    ensures var t := NeighborsCb(env, links, kernel, e, isLinkLayer, value);
            if isLinkLayer && e.ifname in links && env.parseAddress(e.ip, e.family).Some? then
              var k := Key(links[e.ifname], env.parseAddress(e.ip, e.family).value);
              if value == None then t == kernel - {k}
              else if env.parseLink(value.value) == None then t == kernel
              else t == kernel[k := env.parseLink(value.value).value]
            else t == kernel
  {
  }

  lemma SetKeepsExact(env: Env, config: Config, links: Links, kernel: Table, e: Entry, value: string)
    requires ConfigOk(env, config) && LinksOk(links) && Exact(env, config, links, kernel)
    requires ConfigOk(env, config[e := value]) && NoAliases(env, config[e := value])
    ensures Exact(env, config[e := value], links, NeighborsCb(env, links, kernel, e, true, Some(value)))
  {
    var n := config[e := value];
    var t := NeighborsCb(env, links, kernel, e, true, Some(value));
    assert n[e] == value;
    forall f | f in n && f.ifname in links
      ensures KeyOf(env, links, f) in t && Some(t[KeyOf(env, links, f)]) == env.parseLink(n[f])
    {
      if f != e { assert !Alias(env, e, f); }
    }
    forall k | k in t ensures Configured(env, n, links, k) {
      if k in kernel {
        assert Configured(env, config, links, k);
        var f :| f in config && f.ifname in links && KeyOf(env, links, f) == k;
        assert f in n;
      } else {
        assert e in n;
      }
    }
  }

  /** Deleting an entry of an active interface keeps the table exact exactly when no other entry of
      that interface spells the same address. */
  lemma DeleteKeepsExactIff(env: Env, config: Config, links: Links, kernel: Table, e: Entry)
    requires ConfigOk(env, config) && LinksOk(links) && Exact(env, config, links, kernel)
    requires e in config && e.ifname in links
    ensures Exact(env, config - {e}, links, NeighborsCb(env, links, kernel, e, true, None))
       <==> forall f :: f in config ==> !Alias(env, e, f)
  {
    var n := config - {e};
    var t := NeighborsCb(env, links, kernel, e, true, None);
    if f :| f in config && Alias(env, e, f) {
      assert f in n && KeyOf(env, links, f) !in t;
    } else {
      forall f | f in n && f.ifname in links
        ensures KeyOf(env, links, f) in t && Some(t[KeyOf(env, links, f)]) == env.parseLink(n[f])
      {
        assert !Alias(env, e, f);
      }
      forall k | k in t ensures Configured(env, n, links, k) {
        assert Configured(env, config, links, k);
        var f :| f in config && f.ifname in links && KeyOf(env, links, f) == k;
        assert f in n;
      }
    }
  }

  /** Deleting an entry that is not configured, or whose interface is not active. */
  lemma DeleteInactive(env: Env, config: Config, links: Links, kernel: Table, e: Entry)
    requires ConfigOk(env, config) && LinksOk(links) && Exact(env, config, links, kernel)
    requires e.ifname !in links
    ensures Exact(env, config - {e}, links, NeighborsCb(env, links, kernel, e, true, None))
  {
    forall k | k in kernel ensures Configured(env, config - {e}, links, k) {
      assert Configured(env, config, links, k);
      var f :| f in config && f.ifname in links && KeyOf(env, links, f) == k;
      assert f in config - {e};
    }
  }

  /** The kernel drops the neighbours of an interface that disappears. */
  function Flush(kernel: Table, ifindex: int): Table {
    map k | k in kernel && k.ifindex != ifindex :: kernel[k]
  }

  lemma LinkDownKeepsExact(env: Env, config: Config, links: Links, kernel: Table, ifname: string)
    requires ConfigOk(env, config) && LinksOk(links) && ifname in links && Exact(env, config, links, kernel)
    ensures Exact(env, config, links - {ifname}, Flush(kernel, links[ifname]))
  {
    var t := Flush(kernel, links[ifname]);
    forall k | k in t ensures Configured(env, config, links - {ifname}, k) {
      assert Configured(env, config, links, k);
      var e :| e in config && e.ifname in links && KeyOf(env, links, e) == k;
      assert e.ifname in links - {ifname};
    }
  }

  /** What the replay for a new interface leaves: its IPv4 entries are installed, nothing else changes. */
  ghost predicate Replayed(env: Env, config: Config, links: Links, before: Table, after: Table, es: set<Entry>)
    requires ConfigOk(env, config) && forall e :: e in es ==> e in config && e.ifname in links
  {
    && (forall e :: e in es ==>
          KeyOf(env, links, e) in after && Some(after[KeyOf(env, links, e)]) == env.parseLink(config[e]))
    && (forall k :: k in before ==> k in after)
    && (forall k :: k in after ==>
          (k in before && after[k] == before[k]) || exists e :: e in es && KeyOf(env, links, e) == k)
  }

  function Searched(config: Config, ifname: string): set<Entry> {
    set e | e in config && e.ifname == ifname && e.family == INET
  }

  lemma OldKeysStay(env: Env, config: Config, links: Links, before: Table, ifname: string, ifindex: int)
    requires ConfigOk(env, config) && ifname !in links
    requires LinksOk(links[ifname := ifindex]) && Exact(env, config, links, before)
    ensures forall k :: k in before ==> k.ifindex != ifindex && Configured(env, config, links[ifname := ifindex], k)
  {
    var up := links[ifname := ifindex];
    forall k | k in before ensures k.ifindex != ifindex && Configured(env, config, up, k) {
      assert Configured(env, config, links, k);
      var f :| f in config && f.ifname in links && KeyOf(env, links, f) == k;
      assert KeyOf(env, up, f) == k && up[f.ifname] != up[ifname];
    }
  }

  lemma LinkUpForgetsIPv6(env: Env, config: Config, links: Links, before: Table, after: Table, e: Entry, ifindex: int)
    requires ConfigOk(env, config) && NoAliases(env, config) && e.ifname !in links && e in config && e.family != INET
    requires LinksOk(links[e.ifname := ifindex]) && Exact(env, config, links, before)
    requires Replayed(env, config, links[e.ifname := ifindex], before, after, Searched(config, e.ifname))
    ensures KeyOf(env, links[e.ifname := ifindex], e) !in after
  {
    var up := links[e.ifname := ifindex];
    OldKeysStay(env, config, links, before, e.ifname, ifindex);
    var k := KeyOf(env, up, e);
    if k in after {
      var f :| f in Searched(config, e.ifname) && KeyOf(env, up, f) == k;
      assert Alias(env, e, f);
    }
  }

  lemma LinkUpKeepsExact(env: Env, config: Config, links: Links, before: Table, after: Table, ifname: string,
                         ifindex: int)
    requires ConfigOk(env, config) && NoAliases(env, config) && ifname !in links
    requires LinksOk(links[ifname := ifindex]) && Exact(env, config, links, before)
    requires Replayed(env, config, links[ifname := ifindex], before, after, Searched(config, ifname))
    requires forall e :: e in config && e.ifname == ifname ==> e.family == INET
    ensures Exact(env, config, links[ifname := ifindex], after)
  {
    var up := links[ifname := ifindex];
    var es := Searched(config, ifname);
    OldKeysStay(env, config, links, before, ifname, ifindex);
    forall e | e in config && e.ifname in up
      ensures KeyOf(env, up, e) in after && Some(after[KeyOf(env, up, e)]) == env.parseLink(config[e])
    {
      if e.ifname == ifname {
        assert e in es;
      } else {
        var k := KeyOf(env, links, e);
        assert k in before && KeyOf(env, up, e) == k && k.ifindex != ifindex;
      }
    }
    forall k | k in after ensures Configured(env, config, up, k) {
      if f :| f in es && KeyOf(env, up, f) == k {
        assert f in config;
      } else {
        assert k in before;
      }
    }
  }

  /** A new interface: the table becomes exact exactly when no IPv6 entry waits for the interface,
      because only IPv4 entries are replayed. */
  lemma LinkUpExactIff(env: Env, config: Config, links: Links, before: Table, after: Table, ifname: string,
                       ifindex: int)
    requires ConfigOk(env, config) && NoAliases(env, config) && ifname !in links
    requires LinksOk(links[ifname := ifindex]) && Exact(env, config, links, before)
    requires Replayed(env, config, links[ifname := ifindex], before, after, Searched(config, ifname))
    ensures Exact(env, config, links[ifname := ifindex], after)
       <==> forall e :: e in config && e.ifname == ifname ==> e.family == INET
  {
    if e :| e in config && e.ifname == ifname && e.family != INET {
      LinkUpForgetsIPv6(env, config, links, before, after, e, ifindex);
    } else {
      LinkUpKeepsExact(env, config, links, before, after, ifname, ifindex);
    }
  }

  // ---------------------------------------------------------------- the module and the kernel it drives

  datatype Event =
    | Write(entry: Entry, isLinkLayer: bool, value: Option<string>)
    | LinkUp(ifname: string, ifindex: int)
    | LinkDown(ifname: string)

  class Neighbors {
    const env: Env
    var config: Config
    var links: Links
    var kernel: Table

    ghost predicate Valid()
      reads this
    {
      ConfigOk(env, config) && NoAliases(env, config) && LinksOk(links) && Exact(env, config, links, kernel)
    }

    constructor (env: Env)
      ensures Valid() && config == map[] && links == map[] && kernel == map[] && this.env == env
    {
      this.env := env;
      config, links, kernel := map[], map[], map[];
    }

    /** apteryx_static_neighbors_cb. */
    method StaticNeighborsCb(e: Entry, isLinkLayer: bool, value: Option<string>)
      modifies this`kernel
      ensures kernel == NeighborsCb(env, links, old(kernel), e, isLinkLayer, value)
    {
      var rn := ToNeighbor(env, links, e, isLinkLayer, value);
      if rn.None? {
        return;
      }
      var (key, lladdr) := rn.value;
      if lladdr.Some? {
        kernel := kernel[key := lladdr.value];
      } else {
        kernel := kernel - {key};
      }
    }

    /** nl_if_cb for a new interface: every IPv4 entry of the interface is replayed, in any order. */
    method NlIfCb(ifname: string)
      requires ConfigOk(env, config) && NoAliases(env, config) && LinksOk(links) && ifname in links
      modifies this`kernel
      ensures Replayed(env, config, links, old(kernel), kernel, Searched(config, ifname))
    {
      var todo := Searched(config, ifname);
      ghost var done: set<Entry> := {};
      while todo != {}
        invariant todo <= Searched(config, ifname) && done == Searched(config, ifname) - todo
        invariant Replayed(env, config, links, old(kernel), kernel, done)
        decreases |todo|
      {
        var e :| e in todo;
        todo := todo - {e};
        ghost var before := kernel;
        StaticNeighborsCb(e, true, Some(config[e]));
        ReplayOne(env, config, links, old(kernel), before, kernel, ifname, done, e);
        done := done + {e};
      }
    }

    /** A configuration write followed by its callback; other leaves of the entry are ignored. */
    method ApplyWrite(e: Entry, isLinkLayer: bool, value: Option<string>)
      requires Valid()
      requires isLinkLayer && value.Some? ==>
                 ConfigOk(env, config[e := value.value]) && NoAliases(env, config[e := value.value])
      requires isLinkLayer && value.None? ==> e in config
      modifies this`config, this`kernel
      ensures Valid()
      ensures config == ConfigAfter(old(config), Write(e, isLinkLayer, value))
    {
      if isLinkLayer {
        if value.Some? {
          config := config[e := value.value];
        } else {
          config := config - {e};
        }
      }
      StaticNeighborsCb(e, isLinkLayer, value);
      if isLinkLayer && value.Some? {
        SetKeepsExact(env, old(config), links, old(kernel), e, value.value);
      } else if isLinkLayer && e.ifname in links {
        DeleteKeepsExactIff(env, old(config), links, old(kernel), e);
      } else if isLinkLayer {
        DeleteInactive(env, old(config), links, old(kernel), e);
      }
    }

    /** An interface appears; the library caches it and calls back. */
    method ApplyLinkUp(ifname: string, ifindex: int)
      requires Valid() && ifname !in links && LinksOk(links[ifname := ifindex])
      modifies this`links, this`kernel
      ensures links == old(links)[ifname := ifindex]
      ensures Valid() <==> forall e :: e in config && e.ifname == ifname ==> e.family == INET
    {
      links := links[ifname := ifindex];
      NlIfCb(ifname);
      LinkUpExactIff(env, config, old(links), old(kernel), kernel, ifname, ifindex);
    }

    /** An interface disappears; nl_if_cb ignores the event, the kernel flushes. */
    method ApplyLinkDown(ifname: string)
      requires Valid() && ifname in links
      modifies this`links, this`kernel
      ensures Valid() && links == old(links) - {ifname}
    {
      LinkDownKeepsExact(env, config, links, kernel, ifname);
      kernel := Flush(kernel, links[ifname]);
      links := links - {ifname};
    }
  }

  lemma ReplayOne(env: Env, config: Config, links: Links, start: Table, before: Table, after: Table, ifname: string,
                  done: set<Entry>, e: Entry)
    requires ConfigOk(env, config) && NoAliases(env, config) && LinksOk(links) && ifname in links
    requires done <= Searched(config, ifname) && e in Searched(config, ifname)
    requires Replayed(env, config, links, start, before, done)
    requires after == NeighborsCb(env, links, before, e, true, Some(config[e]))
    ensures Replayed(env, config, links, start, after, done + {e})
  {
    var key := KeyOf(env, links, e);
    assert Some(after[key]) == env.parseLink(config[e]);
    assert forall k :: k in after && k != key ==> k in before && after[k] == before[k];
    forall f | f in done + {e}
      ensures KeyOf(env, links, f) in after && Some(after[KeyOf(env, links, f)]) == env.parseLink(config[f])
    {
      if f != e { assert !Alias(env, e, f); }
    }
    forall k | k in after
      ensures (k in start && after[k] == start[k]) || exists f :: f in done + {e} && KeyOf(env, links, f) == k
    {
      if k == key {
        assert e in done + {e};
      } else if f :| f in done && KeyOf(env, links, f) == k {
        assert f in done + {e};
      }
    }
  }

  // ---------------------------------------------------------------- runs

  function ConfigAfter(config: Config, ev: Event): Config {
    match ev
    case Write(e, isLinkLayer, value) =>
      if !isLinkLayer then config else if value.Some? then config[e := value.value] else config - {e}
    case _ => config
  }

  function LinksAfter(links: Links, ev: Event): Links {
    match ev
    case LinkUp(n, i) => links[n := i]
    case LinkDown(n) => links - {n}
    case _ => links
  }

  /** IPv4 entries that parse and do not alias; deletes of what is set; links that come and go. */
  ghost predicate EventOk(env: Env, config: Config, links: Links, ev: Event)
    requires ConfigOk(env, config)
  {
    match ev
    case Write(e, isLinkLayer, value) =>
      isLinkLayer ==>
        e.family == INET &&
        (if value.Some? then ConfigOk(env, config[e := value.value]) && NoAliases(env, config[e := value.value])
         else e in config)
    case LinkUp(n, i) => n !in links && LinksOk(links[n := i])
    case LinkDown(n) => n in links
  }

  ghost predicate EventsOk(env: Env, config: Config, links: Links, events: seq<Event>)
    requires ConfigOk(env, config)
    decreases |events|
  {
    events == [] ||
    (EventOk(env, config, links, events[0]) && ConfigOk(env, ConfigAfter(config, events[0])) &&
     EventsOk(env, ConfigAfter(config, events[0]), LinksAfter(links, events[0]), events[1..]))
  }

  ghost predicate OnlyIPv4(config: Config) {
    forall e :: e in config ==> e.family == INET
  }

  function ConfigAfterAll(config: Config, events: seq<Event>): Config
    decreases |events|
  {
    if events == [] then config else ConfigAfterAll(ConfigAfter(config, events[0]), events[1..])
  }

  function LinksAfterAll(links: Links, events: seq<Event>): Links
    decreases |events|
  {
    if events == [] then links else LinksAfterAll(LinksAfter(links, events[0]), events[1..])
  }

  /** One event and what it makes of the kernel table. The replay may visit the entries in any order. */
  ghost predicate Leads(env: Env, config: Config, links: Links, before: Table, ev: Event, after: Table)
    requires ConfigOk(env, config) && EventOk(env, config, links, ev)
  {
    match ev
    case Write(e, isLinkLayer, value) => after == NeighborsCb(env, links, before, e, isLinkLayer, value)
    case LinkUp(n, i) => Replayed(env, config, links[n := i], before, after, Searched(config, n))
    case LinkDown(n) => after == Flush(before, links[n])
  }

  /** The kernel tables a run goes through. */
  ghost predicate Trace(env: Env, config: Config, links: Links, tables: seq<Table>, events: seq<Event>)
    requires ConfigOk(env, config) && EventsOk(env, config, links, events)
    decreases |events|
  {
    && |tables| == |events| + 1
    && (events != [] ==>
          && Leads(env, config, links, tables[0], events[0], tables[1])
          && Trace(env, ConfigAfter(config, events[0]), LinksAfter(links, events[0]), tables[1..], events[1..]))
  }

  lemma EventKeepsExact(env: Env, config: Config, links: Links, before: Table, ev: Event, after: Table)
    requires ConfigOk(env, config) && NoAliases(env, config) && LinksOk(links) && OnlyIPv4(config)
    requires EventOk(env, config, links, ev) && Leads(env, config, links, before, ev, after)
    requires Exact(env, config, links, before)
    ensures var c, l := ConfigAfter(config, ev), LinksAfter(links, ev);
            ConfigOk(env, c) && NoAliases(env, c) && LinksOk(l) && OnlyIPv4(c) && Exact(env, c, l, after)
  {
    match ev
    case Write(e, isLinkLayer, value) =>
      if isLinkLayer && value.Some? {
        SetKeepsExact(env, config, links, before, e, value.value);
      } else if isLinkLayer && e.ifname in links {
        DeleteKeepsExactIff(env, config, links, before, e);
      } else if isLinkLayer {
        DeleteInactive(env, config, links, before, e);
      }
    case LinkUp(n, i) => LinkUpKeepsExact(env, config, links, before, after, n, i);
    case LinkDown(n) => LinkDownKeepsExact(env, config, links, before, n);
  }

  lemma {:induction false} TraceIsExact(env: Env, config: Config, links: Links, tables: seq<Table>, events: seq<Event>)
    requires ConfigOk(env, config) && NoAliases(env, config) && LinksOk(links) && OnlyIPv4(config)
    requires EventsOk(env, config, links, events) && Trace(env, config, links, tables, events)
    requires Exact(env, config, links, tables[0])
    ensures ConfigOk(env, ConfigAfterAll(config, events))
    ensures Exact(env, ConfigAfterAll(config, events), LinksAfterAll(links, events), tables[|events|])
    decreases |events|
  {
    if events != [] {
      EventKeepsExact(env, config, links, tables[0], events[0], tables[1]);
      TraceIsExact(env, ConfigAfter(config, events[0]), LinksAfter(links, events[0]), tables[1..], events[1..]);
    }
  }

  /** Two runs from an empty system that end in the same configuration and links end in the same kernel
      table, however their writes and link events were interleaved and their replays ordered. */
  lemma OrderDoesNotMatter(env: Env, es: seq<Event>, fs: seq<Event>, ts: seq<Table>, us: seq<Table>)
    requires EventsOk(env, map[], map[], es) && Trace(env, map[], map[], ts, es) && ts[0] == map[]
    requires EventsOk(env, map[], map[], fs) && Trace(env, map[], map[], us, fs) && us[0] == map[]
    requires ConfigAfterAll(map[], es) == ConfigAfterAll(map[], fs)
    requires LinksAfterAll(map[], es) == LinksAfterAll(map[], fs)
    ensures ts[|es|] == us[|fs|]
  {
    TraceIsExact(env, map[], map[], ts, es);
    TraceIsExact(env, map[], map[], us, fs);
    ExactIsUnique(env, ConfigAfterAll(map[], es), LinksAfterAll(map[], es), ts[|es|], us[|fs|]);
  }

  /** Any interleaving of IPv4 writes and link events leaves the table exact for the configuration and
      links it leads to. */
  method Deliver(n: Neighbors, events: seq<Event>)
    requires n.Valid() && OnlyIPv4(n.config) && EventsOk(n.env, n.config, n.links, events)
    modifies n
    ensures n.Valid() && OnlyIPv4(n.config)
    ensures n.config == ConfigAfterAll(old(n.config), events) && n.links == LinksAfterAll(old(n.links), events)
  {
    var i := 0;
    assert events[0..] == events;
    while i < |events|
      invariant 0 <= i <= |events| && n.Valid() && OnlyIPv4(n.config)
      invariant EventsOk(n.env, n.config, n.links, events[i..])
      invariant ConfigAfterAll(n.config, events[i..]) == ConfigAfterAll(old(n.config), events)
      invariant LinksAfterAll(n.links, events[i..]) == LinksAfterAll(old(n.links), events)
      decreases |events| - i
    {
      assert events[i..][0] == events[i] && events[i..][1..] == events[i + 1..];
      match events[i] {
        case Write(e, isLinkLayer, value) =>
          n.ApplyWrite(e, isLinkLayer, value);
        case LinkUp(ifname, ifindex) =>
          n.ApplyLinkUp(ifname, ifindex);
        case LinkDown(ifname) =>
          n.ApplyLinkDown(ifname);
      }
      i := i + 1;
    }
  }
}
