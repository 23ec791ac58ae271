/** iprouting/fib.c: the key a kernel route is published under. */
module FibKey {
  import opened Bits
  import opened Decimal
  import opened Libnl
  import opened Wrappers

  /** nl_addr2str. */
  datatype Env = Env(text: Address -> string)

  /** What the key is made of. */
  datatype Fields = Fields(dst: string, prefixLen: int, nexthop: string, ifindex: int, protocol: int, priority: uint32)

  /** "%d" of an unsigned word. */
  function Signed(w: uint32): (n: int)
    ensures -0x8000_0000 <= n < 0x8000_0000
  {
    if w < WORD / 2 then w else w - WORD
  }

  function Unspecified(family: Option<Family>): string {
    match family
    case None => ""
    case Some(INET) => "0.0.0.0"
    case Some(INET6) => "::"
  }

  /** The family of the gateway, or else of the destination. */
  function KeyFamily(r: Route): Option<Family> {
    var nh := FirstNexthop(r);
    if nh.Some? && nh.value.gateway.Some? then Some(nh.value.gateway.value.family)
    else if r.dst.Some? then Some(r.dst.value.family)
    else None
  }

  function FullLength(a: Address): Address {
    a.(prefixLen := 8 * |a.octets|)
  }

  function FieldsOf(env: Env, r: Route): Fields {
    var nh := FirstNexthop(r);
    var hasDst := r.dst.Some? && r.dst.value.octets != [];
    Fields(if hasDst then env.text(FullLength(r.dst.value)) else Unspecified(KeyFamily(r)),
           if hasDst then r.dst.value.prefixLen else 0,
           if nh.Some? && nh.value.gateway.Some? then env.text(nh.value.gateway.value) else Unspecified(KeyFamily(r)),
           if nh.Some? then nh.value.ifindex else 0,
           r.protocol, r.priority)
  }

  function KeyOfFields(f: Fields): string {
    f.dst + ("_" + (Render(f.prefixLen) + ("_" + (f.nexthop + ("_" + (Render(f.ifindex) + ("_"
    + (Render(f.protocol) + ("_" + Render(Signed(f.priority)))))))))))
  }

  /** route_to_string. */
  function Key(env: Env, r: Route): string {
    KeyOfFields(FieldsOf(env, r))
  }

  // ---------------------------------------------------------------- reading a key back

  /** The part before the first underscore and the part after it. */
  function Cut(s: string): Option<(string, string)> {
    if s == [] then None
    else if s[0] == '_' then Some(([], s[1..]))
    else
      match Cut(s[1..])
      case None => None
      case Some((a, b)) => Some(([s[0]] + a, b))
  }

  function ReadPriority(s: string): Option<uint32> {
    match Read(s)
    case None => None
    case Some(n) => Some(n % WORD)
  }

  function ReadKey(s: string): Option<Fields> {
    match Cut(s) case None => None case Some((dst, s1)) =>
    match Cut(s1) case None => None case Some((prefixLen, s2)) =>
    match Cut(s2) case None => None case Some((nexthop, s3)) =>
    match Cut(s3) case None => None case Some((ifindex, s4)) =>
    match Cut(s4) case None => None case Some((protocol, priority)) =>
    var p, i, q, w := Read(prefixLen), Read(ifindex), Read(protocol), ReadPriority(priority);
    if p.None? || i.None? || q.None? || w.None? then None
    else Some(Fields(dst, p.value, nexthop, i.value, q.value, w.value))
  }

  lemma {:induction false} CutFirst(a: string, b: string)
    requires '_' !in a
    ensures Cut(a + ("_" + b)) == Some((a, b))
    decreases |a|
  {
    var s := a + ("_" + b);
    if a == [] {
      assert s == "_" + b && ("_" + b)[1..] == b;
    } else {
      assert s[1..] == a[1..] + ("_" + b);
      assert '_' !in a[1..];
      CutFirst(a[1..], b);
      assert [a[0]] + a[1..] == a;
    }
  }

  lemma RenderHasNoUnderscore(n: int)
    ensures '_' !in Render(n)
  {
    assert !IsDigit('_');
  }

  lemma SignedRoundTrip(w: uint32)
    ensures Signed(w) % WORD == w
  {
  }

  /** The key can be read back: destination, prefix length, nexthop, interface, protocol and all 32
      bits of the priority, for any texts without underscores. */
  lemma ReadInvertsKey(f: Fields)
    requires '_' !in f.dst && '_' !in f.nexthop
    ensures ReadKey(KeyOfFields(f)) == Some(f)
  {
    var s4 := Render(f.protocol) + ("_" + Render(Signed(f.priority)));
    var s3 := Render(f.ifindex) + ("_" + s4);
    var s2 := f.nexthop + ("_" + s3);
    var s1 := Render(f.prefixLen) + ("_" + s2);
    RenderHasNoUnderscore(f.prefixLen);
    RenderHasNoUnderscore(f.ifindex);
    RenderHasNoUnderscore(f.protocol);
    CutFirst(f.dst, s1);
    CutFirst(Render(f.prefixLen), s2);
    CutFirst(f.nexthop, s3);
    CutFirst(Render(f.ifindex), s4);
    CutFirst(Render(f.protocol), Render(Signed(f.priority)));
    ReadInverts(f.prefixLen);
    ReadInverts(f.ifindex);
    ReadInverts(f.protocol);
    ReadInverts(Signed(f.priority));
    SignedRoundTrip(f.priority);
  }

  ghost predicate TextsPlain(env: Env) {
    forall a :: '_' !in env.text(a)
  }

  /** The first nexthop's gateway. */
  function GatewayOf(r: Route): Option<Address> {
    if r.nexthops == [] then None else r.nexthops[0].gateway
  }

  /** The text of a missing address: that of the gateway's family, else of the destination's, else empty. */
  function Missing(r: Route): string {
    match (GatewayOf(r), r.dst)
    case (Some(a), _) => if a.family == INET then "0.0.0.0" else "::"
    case (None, Some(a)) => if a.family == INET then "0.0.0.0" else "::"
    case (None, None) => ""
  }

  /** The destination with its full length, without the prefix. */
  function DestinationText(env: Env, r: Route): string {
    match r.dst
    case None => Missing(r)
    case Some(a) =>
      if a.octets == [] then Missing(r) else env.text(Address(a.family, a.octets, 8 * |a.octets|))
  }

  function PrefixLength(r: Route): nat {
    match r.dst
    case None => 0
    case Some(a) => if a.octets == [] then 0 else a.prefixLen
  }

  function GatewayText(env: Env, r: Route): string {
    if GatewayOf(r).Some? then env.text(GatewayOf(r).value) else Missing(r)
  }

  function InterfaceOf(r: Route): int {
    if r.nexthops == [] then 0 else r.nexthops[0].ifindex
  }

  /** The six fields, in terms of the route alone. */
  function RouteFields(env: Env, r: Route): Fields {
    Fields(DestinationText(env, r), PrefixLength(r), GatewayText(env, r), InterfaceOf(r), r.protocol, r.priority)
  }

  lemma FieldsAre(env: Env, r: Route)
    ensures FieldsOf(env, r) == RouteFields(env, r) && '_' !in Missing(r)
  {
  }

  /** What a key reads back as. */
  lemma {:induction false} KeyReadsRoute(env: Env, r: Route)
    requires TextsPlain(env)
    ensures ReadKey(Key(env, r)) == Some(RouteFields(env, r))
  {
    FieldsAre(env, r);
    ReadInvertsKey(FieldsOf(env, r));
  }

  lemma {:induction false} KeysEqualIffFields(env: Env, r: Route, q: Route)
    requires TextsPlain(env)
    ensures Key(env, r) == Key(env, q) <==> RouteFields(env, r) == RouteFields(env, q)
  {
    KeyReadsRoute(env, r);
    KeyReadsRoute(env, q);
    FieldsAre(env, r);
    FieldsAre(env, q);
  }

  /** Two routes share a key exactly when they agree on destination and gateway text, prefix length,
      interface, protocol and priority. */
  lemma {:induction false} KeysEqualIff(env: Env, r: Route, q: Route)
    requires TextsPlain(env)
    ensures Key(env, r) == Key(env, q) <==>
              && DestinationText(env, r) == DestinationText(env, q) && PrefixLength(r) == PrefixLength(q)
              && GatewayText(env, r) == GatewayText(env, q) && InterfaceOf(r) == InterfaceOf(q)
              && r.protocol == q.protocol && r.priority == q.priority
  {
    KeysEqualIffFields(env, r, q);
  }

  /** Prefixes of different lengths never share a key. */
  lemma PrefixesNeverCollide(env: Env, r: Route, a: Address, b: Address)
    requires TextsPlain(env) && a.octets != [] && b.octets != [] && a.prefixLen != b.prefixLen
    ensures Key(env, r.(dst := Some(a))) != Key(env, r.(dst := Some(b)))
  {
    KeysEqualIff(env, r.(dst := Some(a)), r.(dst := Some(b)));
  }

  // ---------------------------------------------------------------- the imperative encoder

  /** An nl_addr whose prefix length the encoder changes for a moment. */
  class NlAddr {
    const family: Family
    const octets: seq<int>
    var prefixLen: nat

    constructor (a: Address)
      ensures Value() == a
    {
      family, octets, prefixLen := a.family, a.octets, a.prefixLen;
    }

    function Value(): Address
      reads this
    {
      Address(family, octets, prefixLen)
    }

    method SetPrefixLen(n: nat)
      modifies this
      ensures prefixLen == n
    {
      prefixLen := n;
    }
  }

  function AddressOf(a: NlAddr?): Option<Address>
    reads a
  {
    if a == null then None else Some(a.Value())
  }

  /** route_to_string on a route with destination `dst` and, when `hasNexthop`, a first nexthop made
      of `gateway` and `ifindex`. The two addresses may be one object. */
  method RouteToString(env: Env, dst: NlAddr?, hasNexthop: bool, gateway: NlAddr?, ifindex: int,
                       protocol: int, priority: uint32) returns (key: string)
    requires !hasNexthop ==> gateway == null && ifindex == 0
    modifies dst
    ensures dst != null ==> dst.prefixLen == old(dst.prefixLen)
    ensures key == old(Key(env, Route(INET, 0, protocol, AddressOf(dst),
                                      if hasNexthop then [Nexthop(AddressOf(gateway), ifindex)] else [], priority)))
  {
    ghost var r := Route(INET, 0, protocol, AddressOf(dst),
                         if hasNexthop then [Nexthop(AddressOf(gateway), ifindex)] else [], priority);
    var family: Option<Family> := None;
    if gateway != null {
      family := Some(gateway.family);
    }
    if family.None? && dst != null {
      family := Some(dst.family);
    }
    assert family == KeyFamily(r);
    var dstText, prefixLen := Unspecified(family), 0;
    if dst != null && dst.octets != [] {
      prefixLen := dst.prefixLen;
      dst.SetPrefixLen(8 * |dst.octets|);
      dstText := env.text(dst.Value());
      dst.SetPrefixLen(prefixLen);
    }
    var nexthopText := Unspecified(family);
    if gateway != null {
      nexthopText := env.text(gateway.Value());
    }
    key := KeyOfFields(Fields(dstText, prefixLen, nexthopText, ifindex, protocol, priority));
  }
}
