/** The DHCPv6 message codec of kernel/networking/application_layer/dhcpv6.c. */
module Dhcpv6 {
  import opened Wrappers
  import opened Tlv

  const CLIENTID := 1
  const SERVERID := 2
  const IA_NA := 3
  const IAADDR := 5
  const ORO := 6
  const ELAPSED := 8
  const DNS_SERVERS := 23
  const IA_PD := 25
  const IAPREFIX := 26
  const NTP_SERVER := 56
  const MAX_SERVER_ID := 128

  function ZeroBytes(n: nat): (z: Bytes)
    ensures |z| == n
  {
    seq(n, i => 0)
  }

  datatype Parsed = Parsed(
    msgType: nat, xid: nat,
    hasServerId: bool, serverId: Bytes,
    hasAddr: bool, addr: Bytes, preferred: nat, valid: nat, t1: nat, t2: nat,
    hasDns: bool, dns: (Bytes, Bytes), hasNtp: bool, ntp: (Bytes, Bytes),
    hasPd: bool, pdPrefix: Bytes, pdLen: nat, pdPreferred: nat, pdValid: nat)

  function Blank(msgType: nat, xid: nat): Parsed {
    Parsed(msgType, xid, false, [], false, ZeroBytes(16), 0, 0, 0, 0,
           false, (ZeroBytes(16), ZeroBytes(16)), false, (ZeroBytes(16), ZeroBytes(16)), false, ZeroBytes(16), 0, 0, 0)
  }

  // What options mean

  /** The first two addresses of a list replace what was there. */
  function Servers(old2: (Bytes, Bytes), data: Bytes): (Bytes, Bytes)
    requires |data| >= 16
  {
    (data[..16], if |data| >= 32 then data[16..32] else old2.1)
  }

  function WithAddress(p: Parsed, data: Bytes): Parsed
    requires |data| >= 12
  {
    var q := p.(t1 := U32(data, 4), t2 := U32(data, 8));
    match First(Decode(data[12..]), IAADDR, 24)
    case None => q
    case Some(a) => q.(addr := a[..16], preferred := U32(a, 16), valid := U32(a, 20), hasAddr := true)
  }

  function WithPrefix(p: Parsed, data: Bytes): Parsed
    requires |data| >= 12
  {
    match First(Decode(data[12..]), IAPREFIX, 25)
    case None => p
    case Some(a) => p.(pdPreferred := U32(a, 0), pdValid := U32(a, 4), pdLen := a[8], pdPrefix := a[9..25],
                       hasPd := true)
  }

  /** One option, for a client with the given identity association; 0 takes any. */
  function Apply(p: Parsed, o: Opt, iaid: nat): Parsed {
    var n := |o.data|;
    if o.code == SERVERID && 0 < n <= MAX_SERVER_ID then p.(serverId := o.data, hasServerId := true)
    else if o.code == DNS_SERVERS && n >= 16 then p.(dns := Servers(p.dns, o.data), hasDns := true)
    else if o.code == NTP_SERVER && n >= 16 then p.(ntp := Servers(p.ntp, o.data), hasNtp := true)
    else if o.code == IA_NA && n >= 12 then (if iaid != 0 && U32(o.data, 0) != iaid then p else WithAddress(p, o.data))
    else if o.code == IA_PD && n >= 12 then WithPrefix(p, o.data)
    else p
  }

  /** All options, in order. */
  function Interpret(p: Parsed, os: seq<Opt>, iaid: nat): Parsed {
    if os == [] then p else Apply(Interpret(p, os[..|os| - 1], iaid), os[|os| - 1], iaid)
  }

  lemma InterpretSnoc(p: Parsed, os: seq<Opt>, o: Opt, iaid: nat)
    ensures Interpret(p, os + [o], iaid) == Apply(Interpret(p, os, iaid), o, iaid)
  {
    assert (os + [o])[..|os|] == os;
  }

  // The parser

  /** The loops over the options inside IA_NA and IA_PD. */
  method FindSub(opt: Bytes, from: nat, end: nat, code: nat, least: nat) returns (sub: Option<nat>)
    requires from <= end <= |opt|
    ensures var d := First(Decode(opt[from..end]), code, least);
            && (sub.None? <==> d.None?)
            && (sub.Some? ==> sub.value + |d.value| <= end && d.value == opt[sub.value..sub.value + |d.value|])
  {
    hide Decode, First, U16;
    var at := from;
    while at + 4 <= end
      invariant from <= at <= end
      invariant First(Decode(opt[from..end]), code, least) == First(Decode(opt[at..end]), code, least)
      decreases end - at
    {
      DecodeAt(opt, at, end);
      NoFirst(code, least);
      var sc, sl := U16(opt, at), U16(opt, at + 2);
      at := at + 4;
      if at + sl > end { return None; }
      FirstCons(Opt(sc, opt[at..at + sl]), Decode(opt[at + sl..end]), code, least);
      if sc == code && sl >= least { return Some(at); }
      at := at + sl;
    }
    DecodeAt(opt, at, end);
    NoFirst(code, least);
    return None;
  }

  lemma NoFirst(code: nat, least: nat)
    ensures First([], code, least) == None
  {
  }

  method ParseAddress(opt: Bytes, off: nat, len: nat, p: Parsed) returns (q: Parsed)
    requires off + len <= |opt| && len >= 12
    ensures q == WithAddress(p, opt[off..off + len])
  {
    hide Decode, First, U32;
    ghost var data := opt[off..off + len];
    U32Slice(opt, off, off + len, 4);
    U32Slice(opt, off, off + len, 8);
    q := p.(t1 := U32(opt, off + 4), t2 := U32(opt, off + 8));
    var sub := FindSub(opt, off + 12, off + len, IAADDR, 24);
    assert data[12..] == opt[off + 12..off + len];
    if sub.Some? {
      var s := sub.value;
      ghost var a := First(Decode(data[12..]), IAADDR, 24).value;
      U32Slice(opt, s, s + |a|, 16);
      U32Slice(opt, s, s + |a|, 20);
      assert a[..16] == opt[s..s + 16];
      q := q.(addr := opt[s..s + 16], preferred := U32(opt, s + 16), valid := U32(opt, s + 20), hasAddr := true);
    }
  }

  method ParsePrefix(opt: Bytes, off: nat, len: nat, p: Parsed) returns (q: Parsed)
    requires off + len <= |opt| && len >= 12
    ensures q == WithPrefix(p, opt[off..off + len])
  {
    hide Decode, First, U32;
    ghost var data := opt[off..off + len];
    q := p;
    var sub := FindSub(opt, off + 12, off + len, IAPREFIX, 25);
    assert data[12..] == opt[off + 12..off + len];
    if sub.Some? {
      var s := sub.value;
      ghost var a := First(Decode(data[12..]), IAPREFIX, 25).value;
      U32Slice(opt, s, s + |a|, 0);
      U32Slice(opt, s, s + |a|, 4);
      assert a[9..25] == opt[s + 9..s + 25] && a[8] == opt[s + 8];
      q := q.(pdPreferred := U32(opt, s), pdValid := U32(opt, s + 4), pdLen := opt[s + 8],
              pdPrefix := opt[s + 9..s + 25], hasPd := true);
    }
  }

  /** The body of the loop of parse_opts, for the option with len bytes at off. */
  method ParseOpt(opt: Bytes, off: nat, code: nat, len: nat, iaid: nat, p: Parsed) returns (q: Parsed)
    requires off + len <= |opt|
    ensures q == Apply(p, Opt(code, opt[off..off + len]), iaid)
  {
    hide WithAddress, WithPrefix, U32;
    ghost var data := opt[off..off + len];
    q := p;
    if code == SERVERID && len > 0 && len <= MAX_SERVER_ID {
      q := q.(serverId := opt[off..off + len], hasServerId := true);
    }
    if code == DNS_SERVERS && len >= 16 {
      Slices(opt, off, off + len, 0, 16);
      if len >= 32 { Slices(opt, off, off + len, 16, 32); }
      q := q.(dns := (opt[off..off + 16], if len / 16 >= 2 then opt[off + 16..off + 32] else q.dns.1), hasDns := true);
    }
    if code == NTP_SERVER && len >= 16 {
      Slices(opt, off, off + len, 0, 16);
      if len >= 32 { Slices(opt, off, off + len, 16, 32); }
      q := q.(ntp := (opt[off..off + 16], if len / 16 >= 2 then opt[off + 16..off + 32] else q.ntp.1), hasNtp := true);
    }
    if code == IA_NA && len >= 12 {
      U32Slice(opt, off, off + len, 0);
      if iaid != 0 && U32(opt, off) != iaid { return; }
      q := ParseAddress(opt, off, len, q);
    }
    if code == IA_PD && len >= 12 {
      q := ParsePrefix(opt, off, len, q);
    }
  }

  /** parse_opts, on any bytes, does what its options mean in order. */
  method ParseOpts(opt: Bytes, iaid: nat, p: Parsed) returns (ok: bool, q: Parsed)
    ensures q == Interpret(p, Decode(opt), iaid)
    ensures ok <==> q.hasAddr || q.hasPd || q.hasServerId
  {
    hide Apply, Interpret, Decode, U16;
    q := p;
    var off := 0;
    ghost var done: seq<Opt> := [];
    assert opt[0..|opt|] == opt && [] + Decode(opt) == Decode(opt);
    NoOptions(p, iaid);
    while off + 4 <= |opt|
      invariant off <= |opt| && Decode(opt) == done + Decode(opt[off..|opt|]) && q == Interpret(p, done, iaid)
      decreases |opt| - off
    {
      DecodeAt(opt, off, |opt|);
      var code, len := U16(opt, off), U16(opt, off + 2);
      off := off + 4;
      if off + len > |opt| { break; }
      ghost var o := Opt(code, opt[off..off + len]);
      q := ParseOpt(opt, off, code, len, iaid, q);
      InterpretSnoc(p, done, o, iaid);
      assert done + ([o] + Decode(opt[off + len..|opt|])) == done + [o] + Decode(opt[off + len..|opt|]);
      done := done + [o];
      off := off + len;
    }
    if off + 4 > |opt| && off <= |opt| { DecodeAt(opt, off, |opt|); }
    assert done == Decode(opt);
    ok := q.hasAddr || q.hasPd || q.hasServerId;
  }

  lemma NoOptions(p: Parsed, iaid: nat)
    ensures Interpret(p, [], iaid) == p
  {
  }

  /** dhcpv6_parse_message */
  method ParseMessage(msg: Bytes, expectXid: nat, iaid: nat) returns (ok: bool, q: Parsed)
    ensures |msg| < 4 ==> !ok
    ensures |msg| >= 4 ==> var xid := U32([0] + msg[1..4], 0);
              if expectXid != 0 && xid != expectXid % 0x100_0000 then !ok
              else && q == Interpret(Blank(msg[0], xid), Decode(msg[4..]), iaid)
                   && (ok <==> q.hasAddr || q.hasPd || q.hasServerId)
  {
    q := Blank(0, 0);
    if |msg| < 4 { return false, q; }
    var xid := msg[1] as int * 0x1_0000 + msg[2] as int * 256 + msg[3];
    q := Blank(msg[0], xid);
    if expectXid != 0 && xid != expectXid % 0x100_0000 { return false, q; }
    ok, q := ParseOpts(msg[4..], iaid, q);
  }

  // The builder

  /** What a client remembers of its lease and its delegated prefix. */
  datatype Runtime = Runtime(serverId: Bytes, iaid: nat, t1: nat, lease: nat, pdLen: Byte, pdPrefix: Bytes,
                             pdPreferred: nat, pdValid: nat)

  predicate RuntimeOk(rt: Runtime) {
    && |rt.serverId| < 0x1_0000 && |rt.pdPrefix| == 16
    && rt.iaid < 0x1_0000_0000 && rt.t1 < 0x1_0000_0000 && rt.lease < 0x1_0000_0000
    && rt.pdPreferred < 0x1_0000_0000 && rt.pdValid < 0x1_0000_0000
  }

  /** The identity association of the prefix is derived from that of the address. */
  function PdIaid(iaid: nat): nat
    requires iaid < 0x1_0000_0000
  {
    if iaid == 0 then 0 else (iaid as bv32 ^ 0xA5A5A5A5) as nat
  }

  function Association(iaid: nat, subs: seq<Opt>): Bytes { Be32(iaid) + Be32(0) + Be32(0) + EncodeAll(subs) }

  function ClientId(mac: Option<Bytes>): Opt {
    Opt(CLIENTID, Be16(3) + Be16(1) + if mac.Some? then mac.value else ZeroBytes(6))
  }

  function AddressSub(rt: Runtime): Opt { Opt(IAADDR, ZeroBytes(16) + Be32(rt.t1) + Be32(rt.lease)) }

  function PrefixSub(rt: Runtime): Opt {
    Opt(IAPREFIX, Be32(rt.pdPreferred) + Be32(rt.pdValid) + [rt.pdLen] + rt.pdPrefix)
  }

  predicate AsksForServers(msgType: nat) { 1 <= msgType <= 11 && msgType != 2 && msgType != 7 && msgType != 10 }

  /** The options every message starts with. */
  function FixedOptions(rt: Option<Runtime>, mac: Option<Bytes>, msgType: nat): seq<Opt> {
    [ClientId(mac)]
    + (if rt.Some? && 0 < |rt.value.serverId| <= MAX_SERVER_ID then [Opt(SERVERID, rt.value.serverId)] else [])
    + [Opt(ELAPSED, ZeroBytes(2))]
    + (if AsksForServers(msgType) then [Opt(ORO, Be16(DNS_SERVERS) + Be16(NTP_SERVER))] else [])
  }

  function AddressOption(rt: Option<Runtime>, select: bool): Opt {
    var iaid := if rt.Some? then rt.value.iaid else 0;
    Opt(IA_NA, Association(iaid, if !select && rt.Some? && rt.value.lease != 0 then [AddressSub(rt.value)] else []))
  }

  function PrefixOption(rt: Runtime, select: bool): Opt
    requires RuntimeOk(rt)
  {
    Opt(IA_PD, Association(PdIaid(rt.iaid), if select then [] else [PrefixSub(rt)]))
  }

  function LeaseOptions(rt: Option<Runtime>, select: bool): seq<Opt>
    requires rt.Some? ==> RuntimeOk(rt.value)
  {
    [AddressOption(rt, select)] + if rt.Some? && rt.value.pdLen != 0 then [PrefixOption(rt.value, select)] else []
  }

  /** The options of a message, in the order the builder appends them. */
  function OptionsOf(rt: Option<Runtime>, mac: Option<Bytes>, msgType: nat, select: bool, wantAddress: bool): seq<Opt>
    requires rt.Some? ==> RuntimeOk(rt.value)
  {
    FixedOptions(rt, mac, msgType) + if wantAddress then LeaseOptions(rt, select) else []
  }

  /** Of the options, those that still fit when their turn comes. */
  function Kept(os: seq<Opt>, room: nat): seq<Opt> {
    if os == [] then []
    else if 4 + |os[0].data| <= room then [os[0]] + Kept(os[1..], room - 4 - |os[0].data|)
    else Kept(os[1..], room)
  }

  lemma {:induction false} KeptSnoc(os: seq<Opt>, o: Opt, room: nat)
    ensures |EncodeAll(Kept(os, room))| <= room
    ensures Kept(os + [o], room) == Kept(os, room) + if |EncodeAll(Kept(os, room))| + 4 + |o.data| <= room then [o]
        else []
  {
    if os != [] {
      assert (os + [o])[1..] == os[1..] + [o];
      if 4 + |os[0].data| <= room {
        var rest := room - 4 - |os[0].data|;
        KeptSnoc(os[1..], o, rest);
        var k := Kept(os[1..], rest);
        assert ([os[0]] + k)[1..] == k;
        assert [os[0]] + (k + [o]) == [os[0]] + k + [o] && [os[0]] + (k + []) == [os[0]] + k + [];
      } else {
        KeptSnoc(os[1..], o, room);
      }
    } else {
      assert os + [o] == [o];
    }
  }

  lemma {:induction false} AllKept(os: seq<Opt>, room: nat)
    requires |EncodeAll(os)| <= room
    ensures Kept(os, room) == os
  {
    if os != [] {
      AllKept(os[1..], room - 4 - |os[0].data|);
      assert os == [os[0]] + os[1..];
    }
  }

  /** opt_append: an option that does not fit is left out. */
  method OptAppend(out: array<Byte>, off: nat, o: Opt, ghost head: Bytes, ghost os: seq<Opt>) returns (next: nat)
    requires off <= out.Length && |head| <= out.Length && out[..off] == head + EncodeAll(Kept(os, out.Length - |head|))
    modifies out
    ensures off <= next <= out.Length && out[..next] == head + EncodeAll(Kept(os + [o], out.Length - |head|))
  {
    hide Kept, EncodeAll, Encode;
    KeptSnoc(os, o, out.Length - |head|);
    EncodeSnoc(Kept(os, out.Length - |head|), o);
    NothingAdded(Kept(os, out.Length - |head|));
    if off + 4 + |o.data| > out.Length { return off; }
    var b := Encode(o);
    EncodeSize(o);
    forall i | 0 <= i < |b| { out[off + i] := b[i]; }
    next := off + 4 + |o.data|;
    assert out[..next] == old(out[..off]) + b;
  }

  lemma NothingAdded(os: seq<Opt>)
    ensures os + [] == os
  {
  }

  lemma EncodeSize(o: Opt)
    ensures |Encode(o)| == 4 + |o.data|
  {
  }

  /** Transaction ids are 24 bits and never 0. */
  function Xid(x: nat): (r: nat)
    ensures 0 < r < 0x100_0000
  {
    if x % 0x100_0000 == 0 then 1 else x % 0x100_0000
  }

  function Header(msgType: Byte, xid: nat): Bytes { [msgType] + Be32(xid)[1..] }

  method WriteHeader(out: array<Byte>, msgType: Byte, x: nat)
    requires out.Length >= 4
    modifies out
    ensures out[..4] == Header(msgType, x)
  {
    out[0], out[1], out[2], out[3] := msgType, x / 0x1_0000 % 256, x / 256 % 256, x % 256;
    assert out[..4] == [out[0], out[1], out[2], out[3]];
    assert Be32(x)[1..] == [x / 0x1_0000 % 256, x / 256 % 256, x % 256];
  }

  method BuildFixed(out: array<Byte>, rt: Option<Runtime>, mac: Option<Bytes>, msgType: Byte, ghost head: Bytes)
    returns (len: nat)
    requires |head| == 4 <= out.Length && out[..4] == head
    modifies out
    ensures len <= out.Length && out[..len] == head + EncodeAll(Kept(FixedOptions(rt, mac, msgType), out.Length - 4))
  {
    hide Kept, EncodeAll, ZeroBytes, ClientId, Be16;
    ghost var os: seq<Opt> := [];
    NothingKept(out.Length - 4);
    assert out[..4] == head + [];
    len := OptAppend(out, 4, ClientId(mac), head, os);
    os := os + [ClientId(mac)];
    assert os == [ClientId(mac)];
    if rt.Some? && |rt.value.serverId| > 0 && |rt.value.serverId| <= MAX_SERVER_ID {
      len := OptAppend(out, len, Opt(SERVERID, rt.value.serverId), head, os);
      os := os + [Opt(SERVERID, rt.value.serverId)];
    }
    len := OptAppend(out, len, Opt(ELAPSED, ZeroBytes(2)), head, os);
    os := os + [Opt(ELAPSED, ZeroBytes(2))];
    if AsksForServers(msgType) {
      len := OptAppend(out, len, Opt(ORO, Be16(DNS_SERVERS) + Be16(NTP_SERVER)), head, os);
      os := os + [Opt(ORO, Be16(DNS_SERVERS) + Be16(NTP_SERVER))];
    }
    assert os == FixedOptions(rt, mac, msgType);
  }

  /** dhcpv6_build_message */
  method Build(out: array<Byte>, rt: Option<Runtime>, mac: Option<Bytes>, msgType: Byte, select: bool, xid: nat,
               wantAddress: bool)
    returns (ok: bool, len: nat)
    requires rt.Some? ==> RuntimeOk(rt.value)
    modifies out
    ensures ok <==> out.Length >= 4
    ensures ok ==> len <= out.Length
    ensures ok ==>
              out[..len] ==
              Header(msgType, Xid(xid)) +
              EncodeAll(Kept(OptionsOf(rt, mac, msgType, select, wantAddress), out.Length - 4))
  {
    hide Kept, EncodeAll, FixedOptions, AddressOption, PrefixOption, Be32;
    if out.Length < 4 { return false, 0; }
    ghost var head := Header(msgType, Xid(xid));
    WriteHeader(out, msgType, Xid(xid));
    len := BuildFixed(out, rt, mac, msgType, head);
    ghost var os := FixedOptions(rt, mac, msgType);
    if wantAddress {
      len := OptAppend(out, len, AddressOption(rt, select), head, os);
      os := os + [AddressOption(rt, select)];
      if rt.Some? && rt.value.pdLen != 0 {
        len := OptAppend(out, len, PrefixOption(rt.value, select), head, os);
        os := os + [PrefixOption(rt.value, select)];
      }
    }
    assert os == OptionsOf(rt, mac, msgType, select, wantAddress);
    return true, len;
  }

  lemma NothingKept(room: nat)
    ensures Kept([], room) == [] && EncodeAll([]) == []
  {
  }

  // Round trip

  lemma FixedMeans(p: Parsed, rt: Runtime, mac: Option<Bytes>, msgType: nat, iaid: nat)
    ensures var q := Interpret(p, FixedOptions(Some(rt), mac, msgType), iaid);
            q == if 0 < |rt.serverId| <= MAX_SERVER_ID then p.(serverId := rt.serverId, hasServerId := true) else p
  {
    hide Interpret, Be16, ZeroBytes;
    var a, c, d := ClientId(mac), Opt(ELAPSED, ZeroBytes(2)), Opt(ORO, Be16(DNS_SERVERS) + Be16(NTP_SERVER));
    var server := if 0 < |rt.serverId| <= MAX_SERVER_ID then [Opt(SERVERID, rt.serverId)] else [];
    NoOptions(p, iaid);
    InterpretSnoc(p, [], a, iaid);
    assert [] + [a] == [a];
    if server != [] { InterpretSnoc(p, [a], server[0], iaid); }
    assert [a] + server == if server != [] then [a] + [server[0]] else [a];
    InterpretSnoc(p, [a] + server, c, iaid);
    InterpretSnoc(p, [a] + server + [c], d, iaid);
    assert FixedOptions(Some(rt), mac, msgType) == if AsksForServers(msgType) then [a] + server + [c] + [d]
        else [a] + server + [c];
  }

  /** Four bytes of a concatenation. */
  lemma Be32At(pre: Bytes, n: nat, post: Bytes)
    requires n < 0x1_0000_0000
    ensures U32(pre + Be32(n) + post, |pre|) == n
  {
    hide Be32;
    var b := pre + Be32(n) + post;
    assert b[|pre|..|pre| + 4] == Be32(n);
    Be32Back(n, b, |pre|);
  }

  lemma AssociationParts(iaid: nat, subs: seq<Opt>)
    requires iaid < 0x1_0000_0000 && forall o :: o in subs ==> Encodable(o)
    ensures var d := Association(iaid, subs);
            |d| >= 12 && U32(d, 0) == iaid && U32(d, 4) == 0 && U32(d, 8) == 0 && Decode(d[12..]) == subs
  {
    hide Decode, EncodeAll, Be32;
    var d, e := Association(iaid, subs), EncodeAll(subs);
    Be32At([], iaid, Be32(0) + Be32(0) + e);
    assert d == [] + Be32(iaid) + (Be32(0) + Be32(0) + e);
    Be32At(Be32(iaid), 0, Be32(0) + e);
    assert d == Be32(iaid) + Be32(0) + (Be32(0) + e);
    Be32At(Be32(iaid) + Be32(0), 0, e);
    assert d == Be32(iaid) + Be32(0) + Be32(0) + e;
    assert d[12..] == e && e + [] == e;
    DecodeAll(subs, []);
    DecodeNothing();
  }

  lemma DecodeNothing()
    ensures Decode([]) == []
  {
  }

  lemma FirstOnly(o: Opt, code: nat, least: nat)
    requires o.code == code && |o.data| >= least
    ensures First([o], code, least) == Some(o.data)
  {
  }

  lemma AddressMeans(p: Parsed, rt: Runtime)
    requires RuntimeOk(rt)
    ensures var q := Apply(p, AddressOption(Some(rt), false), rt.iaid);
            q == if rt.lease != 0
                 then p.(t1 := 0, t2 := 0, addr := ZeroBytes(16), preferred := rt.t1, valid := rt.lease,
                         hasAddr := true)
                 else p.(t1 := 0, t2 := 0)
  {
    hide Decode, U32, Be32, Association, First;
    var subs := if rt.lease != 0 then [AddressSub(rt)] else [];
    var a := AddressSub(rt).data;
    AssociationParts(rt.iaid, subs);
    NoFirst(IAADDR, 24);
    FirstOnly(AddressSub(rt), IAADDR, 24);
    Be32At(ZeroBytes(16), rt.t1, Be32(rt.lease));
    Be32At(ZeroBytes(16) + Be32(rt.t1), rt.lease, []);
    assert a == ZeroBytes(16) + Be32(rt.t1) + Be32(rt.lease) + [] && a[..16] == ZeroBytes(16);
  }

  lemma PrefixMeans(p: Parsed, rt: Runtime, iaid: nat)
    requires RuntimeOk(rt)
    ensures Apply(p, PrefixOption(rt, false), iaid)
         == p.(pdPreferred := rt.pdPreferred, pdValid := rt.pdValid, pdLen := rt.pdLen, pdPrefix := rt.pdPrefix,
               hasPd := true)
  {
    hide Decode, U32, Be32, Association, First, PdIaid;
    var a := PrefixSub(rt).data;
    PdIaidSmall(rt.iaid);
    AssociationParts(PdIaid(rt.iaid), [PrefixSub(rt)]);
    FirstOnly(PrefixSub(rt), IAPREFIX, 25);
    Be32At([], rt.pdPreferred, Be32(rt.pdValid) + [rt.pdLen] + rt.pdPrefix);
    Be32At(Be32(rt.pdPreferred), rt.pdValid, [rt.pdLen] + rt.pdPrefix);
    assert a == [] + Be32(rt.pdPreferred) + (Be32(rt.pdValid) + [rt.pdLen] + rt.pdPrefix);
    assert a == Be32(rt.pdPreferred) + Be32(rt.pdValid) + ([rt.pdLen] + rt.pdPrefix);
    assert a[9..25] == rt.pdPrefix && a[8] == rt.pdLen;
  }

  lemma PdIaidSmall(iaid: nat)
    requires iaid < 0x1_0000_0000
    ensures PdIaid(iaid) < 0x1_0000_0000
  {
  }

  /** What a renewing or rebinding client writes, a parser with its identity association
      reads: the server id, the lifetimes and the delegated prefix. */
  lemma RenewMeans(p: Parsed, rt: Runtime, mac: Option<Bytes>, msgType: nat)
    requires RuntimeOk(rt) && p == Blank(p.msgType, p.xid)
    ensures var q := Interpret(p, OptionsOf(Some(rt), mac, msgType, false, true), rt.iaid);
            && q.msgType == p.msgType && q.xid == p.xid && q.t1 == 0 && q.t2 == 0 && !q.hasDns && !q.hasNtp
            && (q.hasServerId <==> 0 < |rt.serverId| <= MAX_SERVER_ID) && (q.hasServerId ==> q.serverId == rt.serverId)
            && (q.hasAddr <==> rt.lease != 0)
            && (q.hasAddr ==> q.preferred == rt.t1 && q.valid == rt.lease && q.addr == ZeroBytes(16))
            && (q.hasPd <==> rt.pdLen != 0)
            && (q.hasPd ==> q.pdLen == rt.pdLen && q.pdPrefix == rt.pdPrefix)
            && (q.hasPd ==> q.pdPreferred == rt.pdPreferred && q.pdValid == rt.pdValid)
  {
    hide Interpret, FixedOptions, AddressOption, PrefixOption, Apply, ZeroBytes;
    var f, a := FixedOptions(Some(rt), mac, msgType), AddressOption(Some(rt), false);
    FixedMeans(p, rt, mac, msgType, rt.iaid);
    InterpretSnoc(p, f, a, rt.iaid);
    AddressMeans(Interpret(p, f, rt.iaid), rt);
    if rt.pdLen != 0 {
      InterpretSnoc(p, f + [a], PrefixOption(rt, false), rt.iaid);
      PrefixMeans(Interpret(p, f + [a], rt.iaid), rt, rt.iaid);
      assert OptionsOf(Some(rt), mac, msgType, false, true) == f + [a] + [PrefixOption(rt, false)];
    } else {
      assert OptionsOf(Some(rt), mac, msgType, false, true) == f + [a];
    }
  }

  ghost predicate Recovered(q: Parsed, rt: Runtime, msgType: nat, xid: nat) {
    && q.msgType == msgType && q.xid == xid && q.t1 == 0 && q.t2 == 0
    && (q.hasServerId <==> 0 < |rt.serverId| <= MAX_SERVER_ID) && (q.hasServerId ==> q.serverId == rt.serverId)
    && (q.hasAddr <==> rt.lease != 0) && (q.hasAddr ==> q.preferred == rt.t1 && q.valid == rt.lease)
    && (q.hasPd <==> rt.pdLen != 0)
    && (q.hasPd ==> q.pdLen == rt.pdLen && q.pdPrefix == rt.pdPrefix)
    && (q.hasPd ==> q.pdPreferred == rt.pdPreferred && q.pdValid == rt.pdValid)
  }

  lemma AllEncodable(rt: Runtime, mac: Option<Bytes>, msgType: nat, o: Opt)
    requires RuntimeOk(rt) && (mac.Some? ==> |mac.value| == 6) && o in OptionsOf(Some(rt), mac, msgType, false, true)
    ensures Encodable(o)
  {
    hide PdIaid, Be32, Be16, ZeroBytes;
    OneEncoded(AddressSub(rt));
    OneEncoded(PrefixSub(rt));
  }

  lemma OneEncoded(o: Opt)
    ensures EncodeAll([o]) == Encode(o) && EncodeAll([]) == []
  {
    assert [o][1..] == [];
    assert Encode(o) + [] == Encode(o);
  }

  lemma HeaderXid(msgType: Byte, x: nat, rest: Bytes)
    requires x < 0x100_0000
    ensures var m := Header(msgType, x) + rest;
            |m| == 4 + |rest| && m[0] == msgType && U32([0] + m[1..4], 0) == x && m[4..] == rest
  {
    var m := Header(msgType, x) + rest;
    assert m[1..4] == Be32(x)[1..] && [0] + Be32(x)[1..] == Be32(x);
    Be32Back(x, Be32(x), 0);
  }

  /** A Renew or Rebind that fits its buffer, parsed by its sender's rules. */
  method Exchange(out: array<Byte>, rt: Runtime, mac: Option<Bytes>, msgType: Byte, xid: nat)
    returns (ok: bool, q: Parsed)
    requires RuntimeOk(rt) && (mac.Some? ==> |mac.value| == 6)
    requires 4 + |EncodeAll(OptionsOf(Some(rt), mac, msgType, false, true))| <= out.Length
    modifies out
    ensures Recovered(q, rt, msgType, Xid(xid))
    ensures ok <==> rt.lease != 0 || rt.pdLen != 0 || 0 < |rt.serverId| <= MAX_SERVER_ID
  {
    hide Interpret, OptionsOf, EncodeAll, Decode, Kept, U32, Encodable, ZeroBytes;
    var built, len := Build(out, Some(rt), mac, msgType, false, xid, true);
    var msg := out[..len];
    ghost var os := OptionsOf(Some(rt), mac, msgType, false, true);
    AllKept(os, out.Length - 4);
    forall o | o in os ensures Encodable(o) { AllEncodable(rt, mac, msgType, o); }
    HeaderXid(msgType, Xid(xid), EncodeAll(os));
    DecodeAll(os, []);
    DecodeNothing();
    assert EncodeAll(os) + [] == EncodeAll(os) && os + [] == os;
    ok, q := ParseMessage(msg, Xid(xid), rt.iaid);
    RenewMeans(Blank(msgType, Xid(xid)), rt, mac, msgType);
  }
}
