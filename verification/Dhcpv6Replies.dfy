/** What a client reads in a server's message. The message is written out byte by byte
    after sections 21.3, 21.4, 21.6, 21.21 and 21.22 of RFC 8415; lists of name and time
    servers are lists of addresses, as the parser takes them. */
module Dhcpv6Replies {
  import opened Tlv
  import opened Dhcpv6

  datatype Part =
    | Server(id: Bytes)
    | Address(iaid: nat, t1: nat, t2: nat, addr: Bytes, preferred: nat, valid: nat)
    | Prefix(iaid: nat, t1: nat, t2: nat, preferred: nat, valid: nat, len: Byte, prefix: Bytes)
    | Dns(servers: seq<Bytes>)
    | Ntp(servers: seq<Bytes>)

  predicate Word(n: nat) { n < 0x1_0000_0000 }

  predicate Addresses(s: seq<Bytes>) { 0 < |s| <= 4095 && forall i :: 0 <= i < |s| ==> |s[i]| == 16 }

  predicate PartOk(x: Part) {
    match x
    case Server(id) => 0 < |id| <= 128
    case Address(iaid, t1, t2, addr, preferred, valid) =>
      Word(iaid) && Word(t1) && Word(t2) && |addr| == 16 && Word(preferred) && Word(valid)
    case Prefix(iaid, t1, t2, preferred, valid, _, prefix) =>
      Word(iaid) && Word(t1) && Word(t2) && Word(preferred) && Word(valid) && |prefix| == 16
    case Dns(servers) => Addresses(servers)
    case Ntp(servers) => Addresses(servers)
  }

  function Joined(s: seq<Bytes>): Bytes { if s == [] then [] else s[0] + Joined(s[1..]) }

  /** The bytes of a part. */
  function Wire(x: Part): Bytes {
    match x
    case Server(id) => Be16(2) + Be16(|id|) + id
    case Address(iaid, t1, t2, addr, preferred, valid) =>
      Be16(3) + Be16(40) + (Be32(iaid) + Be32(t1) + Be32(t2) +
                            (Be16(5) + Be16(24) + (addr + Be32(preferred) + Be32(valid))))
    case Prefix(iaid, t1, t2, preferred, valid, len, prefix) =>
      Be16(25) + Be16(41) + (Be32(iaid) + Be32(t1) + Be32(t2) +
                             (Be16(26) + Be16(25) + (Be32(preferred) + Be32(valid) + [len] + prefix)))
    case Dns(servers) => Be16(23) + Be16(16 * |servers|) + Joined(servers)
    case Ntp(servers) => Be16(56) + Be16(16 * |servers|) + Joined(servers)
  }

  function WireAll(xs: seq<Part>): Bytes { if xs == [] then [] else WireAll(xs[..|xs| - 1]) + Wire(xs[|xs| - 1]) }

  /** The client expects the part: an address is for its identity association or any. */
  predicate Expected(x: Part, iaid: nat) { x.Address? && iaid != 0 ==> x.iaid == iaid }

  /** Both are about the same thing. */
  predicate SameKind(x: Part, y: Part) {
    || (x.Server? && y.Server?) || (x.Address? && y.Address?) || (x.Prefix? && y.Prefix?)
    || (x.Dns? && y.Dns?) || (x.Ntp? && y.Ntp?)
  }

  /** Each value of the part is in its own field. */
  predicate Says(q: Parsed, x: Part)
    requires PartOk(x)
  {
    match x
    case Server(id) => q.hasServerId && q.serverId == id
    case Address(_, t1, t2, addr, preferred, valid) =>
      q.hasAddr && q.t1 == t1 && q.t2 == t2 && q.addr == addr && q.preferred == preferred && q.valid == valid
    case Prefix(_, _, _, preferred, valid, len, prefix) =>
      q.hasPd && q.pdPreferred == preferred && q.pdValid == valid && q.pdLen == len && q.pdPrefix == prefix
    case Dns(s) => q.hasDns && q.dns.0 == s[0] && (|s| > 1 ==> q.dns.1 == s[1])
    case Ntp(s) => q.hasNtp && q.ntp.0 == s[0] && (|s| > 1 ==> q.ntp.1 == s[1])
  }

  /** The fields of the kind of x are the same. */
  predicate Keeps(q: Parsed, q': Parsed, x: Part) {
    match x
    case Server(_) => q'.hasServerId == q.hasServerId && q'.serverId == q.serverId
    case Address(_, _, _, _, _, _) =>
      && q'.hasAddr == q.hasAddr && q'.t1 == q.t1 && q'.t2 == q.t2 && q'.addr == q.addr
      && q'.preferred == q.preferred && q'.valid == q.valid
    case Prefix(_, _, _, _, _, _, _) =>
      && q'.hasPd == q.hasPd && q'.pdPreferred == q.pdPreferred && q'.pdValid == q.pdValid && q'.pdLen == q.pdLen
      && q'.pdPrefix == q.pdPrefix
    case Dns(_) => q'.hasDns == q.hasDns && q'.dns == q.dns
    case Ntp(_) => q'.hasNtp == q.hasNtp && q'.ntp == q.ntp
  }

  /** As an option of the decoder. */
  function OptOf(x: Part): Opt {
    match x
    case Server(id) => Opt(2, id)
    case Address(iaid, t1, t2, addr, preferred, valid) =>
      Opt(3, Be32(iaid) + Be32(t1) + Be32(t2) + Encode(Opt(5, addr + Be32(preferred) + Be32(valid))))
    case Prefix(iaid, t1, t2, preferred, valid, len, prefix) =>
      Opt(25, Be32(iaid) + Be32(t1) + Be32(t2) + Encode(Opt(26, Be32(preferred) + Be32(valid) + [len] + prefix)))
    case Dns(servers) => Opt(23, Joined(servers))
    case Ntp(servers) => Opt(56, Joined(servers))
  }

  lemma {:induction false} JoinedSize(s: seq<Bytes>)
    requires forall i :: 0 <= i < |s| ==> |s[i]| == 16
    ensures |Joined(s)| == 16 * |s|
    ensures |s| > 0 ==> Joined(s)[..16] == s[0]
    ensures |s| > 1 ==> Joined(s)[16..32] == s[1]
  {
    if s != [] {
      JoinedSize(s[1..]);
      var t := Joined(s[1..]);
      if |s| > 1 { assert Joined(s)[16..32] == t[..16]; }
    }
  }

  lemma WireIs(x: Part)
    requires PartOk(x)
    ensures Encode(OptOf(x)) == Wire(x) && Encodable(OptOf(x))
  {
    hide Be16, Be32, Joined;
    if x.Dns? || x.Ntp? { JoinedSize(x.servers); }
  }

  function Options(xs: seq<Part>): (os: seq<Opt>)
    ensures |os| == |xs|
  {
    if xs == [] then [] else Options(xs[..|xs| - 1]) + [OptOf(xs[|xs| - 1])]
  }

  lemma {:induction false} WiresAre(xs: seq<Part>)
    requires forall i :: 0 <= i < |xs| ==> PartOk(xs[i])
    ensures EncodeAll(Options(xs)) == WireAll(xs) && forall o :: o in Options(xs) ==> Encodable(o)
  {
    hide OptOf, Wire, Encode, PartOk;
    if xs != [] {
      var n := |xs| - 1;
      WiresAre(xs[..n]);
      WireIs(xs[n]);
      EncodeSnoc(Options(xs[..n]), OptOf(xs[n]));
    }
  }

  lemma DecodeWires(xs: seq<Part>)
    requires forall i :: 0 <= i < |xs| ==> PartOk(xs[i])
    ensures Decode(WireAll(xs)) == Options(xs)
  {
    hide Options, WireAll, Decode, EncodeAll, PartOk;
    WiresAre(xs);
    DecodeAll(Options(xs), []);
    DecodeNothing();
    assert WireAll(xs) + [] == WireAll(xs) && Options(xs) + [] == Options(xs);
  }

  /** Identity, both times and the one inner option of an association. */
  lemma AssociationIs(iaid: nat, t1: nat, t2: nat, o: Opt)
    requires Word(iaid) && Word(t1) && Word(t2) && Encodable(o)
    ensures var d := Be32(iaid) + Be32(t1) + Be32(t2) + Encode(o);
            |d| >= 12 && U32(d, 0) == iaid && U32(d, 4) == t1 && U32(d, 8) == t2 && Decode(d[12..]) == [o]
  {
    hide Decode, Encode, Be32, U32;
    var d, e := Be32(iaid) + Be32(t1) + Be32(t2) + Encode(o), Encode(o);
    Be32At([], iaid, Be32(t1) + Be32(t2) + e);
    assert d == [] + Be32(iaid) + (Be32(t1) + Be32(t2) + e);
    Be32At(Be32(iaid), t1, Be32(t2) + e);
    assert d == Be32(iaid) + Be32(t1) + (Be32(t2) + e);
    Be32At(Be32(iaid) + Be32(t1), t2, e);
    assert d == Be32(iaid) + Be32(t1) + Be32(t2) + e;
    assert d[12..] == e && e + [] == e;
    DecodeFirst(o, []);
    DecodeNothing();
  }

  /** An address for another association changes nothing. */
  lemma NotExpected(q: Parsed, x: Part, iaid: nat)
    requires PartOk(x) && !Expected(x, iaid)
    ensures Apply(q, OptOf(x), iaid) == q
  {
    hide Decode, Encode, Be32, U32;
    AssociationIs(x.iaid, x.t1, x.t2, Opt(5, x.addr + Be32(x.preferred) + Be32(x.valid)));
  }

  lemma AddressSaid(q: Parsed, x: Part, iaid: nat)
    requires PartOk(x) && x.Address? && Expected(x, iaid)
    ensures Apply(q, OptOf(x), iaid) == q.(hasAddr := true, t1 := x.t1, t2 := x.t2, addr := x.addr,
                                           preferred := x.preferred, valid := x.valid)
  {
    hide Decode, Encode, Be32, U32, First;
    var a := x.addr + Be32(x.preferred) + Be32(x.valid);
    AssociationIs(x.iaid, x.t1, x.t2, Opt(5, a));
    FirstOnly(Opt(5, a), 5, 24);
    Be32At(x.addr, x.preferred, Be32(x.valid));
    Be32At(x.addr + Be32(x.preferred), x.valid, []);
    assert a + [] == a && a[..16] == x.addr;
  }

  lemma PrefixSaid(q: Parsed, x: Part, iaid: nat)
    requires PartOk(x) && x.Prefix?
    ensures Apply(q, OptOf(x), iaid) == q.(hasPd := true, pdPreferred := x.preferred, pdValid := x.valid,
                                           pdLen := x.len, pdPrefix := x.prefix)
  {
    hide Decode, Encode, Be32, U32, First;
    var a := Be32(x.preferred) + Be32(x.valid) + [x.len] + x.prefix;
    AssociationIs(x.iaid, x.t1, x.t2, Opt(26, a));
    FirstOnly(Opt(26, a), 26, 25);
    Be32At([], x.preferred, Be32(x.valid) + [x.len] + x.prefix);
    assert a == [] + Be32(x.preferred) + (Be32(x.valid) + [x.len] + x.prefix);
    Be32At(Be32(x.preferred), x.valid, [x.len] + x.prefix);
    assert a == Be32(x.preferred) + Be32(x.valid) + ([x.len] + x.prefix);
    assert a[8] == x.len && a[9..25] == x.prefix;
  }

  /** A part that is expected puts its values into its fields and leaves all others alone. */
  lemma Said(q: Parsed, x: Part, iaid: nat, y: Part)
    requires PartOk(x) && Expected(x, iaid)
    ensures var q' := Apply(q, OptOf(x), iaid);
            && Says(q', x) && (!SameKind(x, y) ==> Keeps(q, q', y))
            && q'.msgType == q.msgType && q'.xid == q.xid
  {
    hide OptOf, Apply;
    match x {
      case Address(_, _, _, _, _, _) => AddressSaid(q, x, iaid);
      case Prefix(_, _, _, _, _, _, _) => PrefixSaid(q, x, iaid);
      case _ => PlainSaid(q, x, iaid, y);
    }
  }

  lemma PlainSaid(q: Parsed, x: Part, iaid: nat, y: Part)
    requires PartOk(x) && (x.Server? || x.Dns? || x.Ntp?)
    ensures var q' := Apply(q, OptOf(x), iaid);
            && Says(q', x) && (!SameKind(x, y) ==> Keeps(q, q', y))
            && q'.msgType == q.msgType && q'.xid == q.xid
  {
    hide Joined;
    if x.Dns? || x.Ntp? { JoinedSize(x.servers); }
  }

  /** x is the last expected part of its kind. */
  ghost predicate Last(xs: seq<Part>, i: nat, iaid: nat) {
    i < |xs| && Expected(xs[i], iaid) && forall j :: i < j < |xs| && Expected(xs[j], iaid) ==> !SameKind(xs[j], xs[i])
  }

  /** Some expected part is of the kind of y. */
  ghost predicate Present(xs: seq<Part>, y: Part, iaid: nat) {
    exists i :: 0 <= i < |xs| && Expected(xs[i], iaid) && SameKind(xs[i], y)
  }

  lemma {:induction false} LastSays(p: Parsed, xs: seq<Part>, i: nat, iaid: nat)
    requires (forall k :: 0 <= k < |xs| ==> PartOk(xs[k])) && Last(xs, i, iaid)
    ensures Says(Interpret(p, Options(xs), iaid), xs[i])
  {
    hide Interpret, OptOf, PartOk, Apply;
    var n := |xs| - 1;
    var q := Interpret(p, Options(xs[..n]), iaid);
    InterpretSnoc(p, Options(xs[..n]), OptOf(xs[n]), iaid);
    if Expected(xs[n], iaid) { Said(q, xs[n], iaid, xs[i]); } else { NotExpected(q, xs[n], iaid); }
    if i < n { LastSays(p, xs[..n], i, iaid); }
  }

  lemma {:induction false} AbsentKept(p: Parsed, xs: seq<Part>, y: Part, iaid: nat)
    requires (forall k :: 0 <= k < |xs| ==> PartOk(xs[k])) && !Present(xs, y, iaid)
    ensures var q := Interpret(p, Options(xs), iaid); Keeps(p, q, y)
  {
    hide Interpret, OptOf, PartOk, Apply;
    NoOptions(p, iaid);
    if xs != [] {
      var n := |xs| - 1;
      var q := Interpret(p, Options(xs[..n]), iaid);
      InterpretSnoc(p, Options(xs[..n]), OptOf(xs[n]), iaid);
      AbsentKept(p, xs[..n], y, iaid);
      if Expected(xs[n], iaid) { Said(q, xs[n], iaid, y); } else { NotExpected(q, xs[n], iaid); }
    }
  }

  lemma {:induction false} HeaderKept(p: Parsed, xs: seq<Part>, iaid: nat)
    requires forall k :: 0 <= k < |xs| ==> PartOk(xs[k])
    ensures var q := Interpret(p, Options(xs), iaid); q.msgType == p.msgType && q.xid == p.xid
  {
    hide Interpret, OptOf, PartOk, Apply;
    NoOptions(p, iaid);
    if xs != [] {
      var n := |xs| - 1;
      var q := Interpret(p, Options(xs[..n]), iaid);
      InterpretSnoc(p, Options(xs[..n]), OptOf(xs[n]), iaid);
      HeaderKept(p, xs[..n], iaid);
      if Expected(xs[n], iaid) { Said(q, xs[n], iaid, xs[n]); } else { NotExpected(q, xs[n], iaid); }
    }
  }

  /** The last expected part of a kind, of which there is one if there is any. */
  lemma {:induction false} LastOf(xs: seq<Part>, y: Part, iaid: nat) returns (i: nat)
    requires Present(xs, y, iaid)
    ensures Last(xs, i, iaid) && SameKind(xs[i], y)
  {
    var n := |xs| - 1;
    if Expected(xs[n], iaid) && SameKind(xs[n], y) { return n; }
    assert Present(xs[..n], y, iaid) by {
      var k :| 0 <= k < |xs| && Expected(xs[k], iaid) && SameKind(xs[k], y);
      assert xs[..n][k] == xs[k];
    }
    i := LastOf(xs[..n], y, iaid);
    assert xs[..n][i] == xs[i];
    forall j | i < j < |xs| && Expected(xs[j], iaid) ensures !SameKind(xs[j], xs[i]) {
      if j < n { assert xs[..n][j] == xs[j]; }
    }
  }

  /** What the client has after a message: the values of the last part of each kind that it
      expects, each in its field, and nothing in the fields of other kinds. */
  ghost predicate Received(q: Parsed, xs: seq<Part>, iaid: nat, msgType: nat, xid: nat)
    requires forall k :: 0 <= k < |xs| ==> PartOk(xs[k])
  {
    && q.msgType == msgType && q.xid == xid
    && (forall i: nat :: Last(xs, i, iaid) ==> Says(q, xs[i]))
    && (forall y :: !Present(xs, y, iaid) ==> Keeps(Blank(msgType, xid), q, y))
  }

  /** A server's message of any parts in any order, parsed. */
  method Receive(msgType: Byte, xid: nat, xs: seq<Part>, expectXid: nat, iaid: nat) returns (ok: bool, q: Parsed)
    requires xid < 0x100_0000 && forall k :: 0 <= k < |xs| ==> PartOk(xs[k])
    ensures expectXid == 0 || expectXid % 0x100_0000 == xid ==> Received(q, xs, iaid, msgType, xid)
    ensures ok <==>
      && (expectXid == 0 || expectXid % 0x100_0000 == xid)
      && exists i :: 0 <= i < |xs| && Expected(xs[i], iaid) && !xs[i].Dns? && !xs[i].Ntp?
  {
    hide Interpret, Decode, WireAll, PartOk, Options, Header, Blank, U32;
    var rest := WireAll(xs);
    HeaderXid(msgType, xid, rest);
    DecodeWires(xs);
    var msg := Header(msgType, xid) + rest;
    ok, q := ParseMessage(msg, expectXid, iaid);
    if expectXid == 0 || expectXid % 0x100_0000 == xid {
      var p := Blank(msgType, xid);
      BlankHas(msgType, xid);
      HeaderKept(p, xs, iaid);
      forall i: nat | Last(xs, i, iaid) ensures Says(q, xs[i]) { LastSays(p, xs, i, iaid); }
      forall y | !Present(xs, y, iaid) ensures Keeps(p, q, y) { AbsentKept(p, xs, y, iaid); }
      Flags(q, xs, iaid, msgType, xid);
    }
  }

  lemma BlankHas(msgType: nat, xid: nat)
    ensures var p := Blank(msgType, xid);
            p.msgType == msgType && p.xid == xid && !p.hasAddr && !p.hasPd && !p.hasServerId && !p.hasDns && !p.hasNtp
  {
  }

  lemma Flags(q: Parsed, xs: seq<Part>, iaid: nat, msgType: nat, xid: nat)
    requires (forall k :: 0 <= k < |xs| ==> PartOk(xs[k])) && Received(q, xs, iaid, msgType, xid)
    ensures q.hasAddr || q.hasPd || q.hasServerId <==>
            exists i :: 0 <= i < |xs| && Expected(xs[i], iaid) && !xs[i].Dns? && !xs[i].Ntp?
  {
    hide Blank, PartOk;
    BlankHas(msgType, xid);
    if i :| 0 <= i < |xs| && Expected(xs[i], iaid) && !xs[i].Dns? && !xs[i].Ntp? {
      assert Present(xs, xs[i], iaid);
      var k := LastOf(xs, xs[i], iaid);
    } else {
      var a, b, c := Server([]), Address(0, 0, 0, [], 0, 0), Prefix(0, 0, 0, 0, 0, 0, []);
      assert !Present(xs, a, iaid) && !Present(xs, b, iaid) && !Present(xs, c, iaid);
    }
  }
}
