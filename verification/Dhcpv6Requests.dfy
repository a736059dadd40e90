/** What a server finds in a message of the client: dhcpv6_build_message of
    kernel/networking/application_layer/dhcpv6.c, read by option code and byte. */
module Dhcpv6Requests {
  import opened Wrappers
  import opened Tlv
  import opened Dhcpv6

  /** The data of the first option with this code. */
  ghost function Find(os: seq<Opt>, code: nat): Option<Bytes> { First(os, code, 0) }

  /** Who asks, of whom, since when, and for which servers: the client by its link-layer
      address, the server it has chosen, no time, and DNS (23) and NTP (56) in all but
      advertise, reply and reconfigure messages. */
  ghost predicate Greets(os: seq<Opt>, rt: Option<Runtime>, mac: Bytes, msgType: nat) {
    && Find(os, 1) == Some([0, 3, 0, 1] + mac)
    && Find(os, 2) == (if rt.Some? && 0 < |rt.value.serverId| <= 128 then Some(rt.value.serverId) else None)
    && Find(os, 8) == Some([0, 0])
    && Find(os, 6) == (if msgType in {1, 3, 4, 5, 6, 8, 9, 11} then Some([0, 23, 0, 56]) else None)
  }

  /** An identity association: its id, and no renewal times asked for. */
  ghost predicate Asks(d: Bytes, iaid: nat) {
    |d| >= 12 && U32(d, 0) == iaid && U32(d, 4) == 0 && U32(d, 8) == 0
  }

  /** The address of the client, which it does not name, with the lifetimes it has. */
  ghost predicate AsksAddress(os: seq<Opt>, rt: Option<Runtime>, select: bool) {
    var d := Find(os, 3);
    && d.Some? && Asks(d.value, if rt.Some? then rt.value.iaid else 0)
    && var a := Find(Decode(d.value[12..]), 5);
    && (a.Some? <==> !select && rt.Some? && rt.value.lease != 0)
    && (a.Some? ==>
          |a.value| == 24 && a.value[..16] == Zero16() && U32(a.value, 16) == rt.value.t1
          && U32(a.value, 20) == rt.value.lease)
  }

  ghost function Zero16(): Bytes { [0, 0, 0, 0, 0, 0, 0, 0, 0, 0, 0, 0, 0, 0, 0, 0] }

  /** The prefix, exactly when the client has one to ask for, and by name unless it is to be chosen. */
  ghost predicate AsksPrefix(os: seq<Opt>, rt: Option<Runtime>, select: bool)
    requires rt.Some? ==> RuntimeOk(rt.value)
  {
    var d := Find(os, 25);
    && (d.Some? <==> rt.Some? && rt.value.pdLen != 0)
    && (d.Some? ==> Asks(d.value, Derived(rt.value.iaid)))
    && (d.Some? ==> NamesPrefix(Find(Decode(d.value[12..]), 26), rt.value, select))
  }

  ghost predicate NamesPrefix(a: Option<Bytes>, rt: Runtime, select: bool) {
    && (a.Some? <==> !select)
    && (a.Some? ==>
          |a.value| == 25 && U32(a.value, 0) == rt.pdPreferred && U32(a.value, 4) == rt.pdValid
          && a.value[8] == rt.pdLen && a.value[9..] == rt.pdPrefix)
  }

  /** The identity association of the prefix: another one than that of the address, unless both are 0. */
  ghost function Derived(iaid: nat): nat
    requires iaid < 0x1_0000_0000
  {
    if iaid == 0 then 0 else (iaid as bv32 ^ 0xA5A5_A5A5) as nat
  }

  ghost predicate Finds(os: seq<Opt>, rt: Option<Runtime>, mac: Bytes, msgType: nat, select: bool, wantAddress: bool)
    requires rt.Some? ==> RuntimeOk(rt.value)
  {
    && Greets(os, rt, mac, msgType)
    && (if wantAddress then AsksAddress(os, rt, select) && AsksPrefix(os, rt, select)
        else Find(os, 3) == None && Find(os, 25) == None)
  }

  lemma {:induction false} FindLater(a: seq<Opt>, b: seq<Opt>, code: nat)
    requires forall o :: o in a ==> o.code != code
    ensures Find(a + b, code) == Find(b, code)
  {
    if a == [] {
      assert a + b == b;
    } else {
      FindLater(a[1..], b, code);
      assert a + b == [a[0]] + (a[1..] + b);
      FirstCons(a[0], a[1..] + b, code, 0);
    }
  }

  lemma FindHere(o: Opt, b: seq<Opt>)
    ensures Find([o] + b, o.code) == Some(o.data)
  {
    FirstCons(o, b, o.code, 0);
  }

  lemma FindNone(a: seq<Opt>, code: nat)
    requires forall o :: o in a ==> o.code != code
    ensures Find(a, code) == None
  {
    FindLater(a, [], code);
    assert a + [] == a;
  }

  /** The option with this code, wherever it stands among others. */
  lemma FindAmong(a: seq<Opt>, o: Opt, b: seq<Opt>)
    requires forall x :: x in a ==> x.code != o.code
    ensures Find(a + [o] + b, o.code) == Some(o.data)
  {
    FindLater(a, [o] + b, o.code);
    FindHere(o, b);
    assert a + [o] + b == a + ([o] + b);
  }

  /** The six places of a message, each with its code, some of them empty. */
  ghost predicate Placed(os: seq<Opt>, c: Opt, server: seq<Opt>, e: Opt, oro: seq<Opt>, na: seq<Opt>, pd: seq<Opt>) {
    && os == [c] + server + [e] + oro + na + pd && c.code == 1 && e.code == 8
    && Coded(server, 2) && Coded(oro, 6) && Coded(na, 3) && Coded(pd, 25)
  }

  ghost predicate Coded(s: seq<Opt>, code: nat) { |s| <= 1 && forall o :: o in s ==> o.code == code }

  ghost function Only(s: seq<Opt>): Option<Bytes> { if s == [] then None else Some(s[0].data) }

  lemma FindPlaced(a: seq<Opt>, s: seq<Opt>, b: seq<Opt>, code: nat)
    requires Coded(s, code) && forall o :: o in a + b ==> o.code != code
    ensures Find(a + s + b, code) == Only(s)
  {
    if s == [] {
      FindNone(a + b, code);
      assert a + s + b == a + b;
    } else {
      assert s == [s[0]] && s[0] in s;
      FindAmong(a, s[0], b);
    }
  }

  lemma PlacedFinds(os: seq<Opt>, c: Opt, server: seq<Opt>, e: Opt, oro: seq<Opt>, na: seq<Opt>, pd: seq<Opt>)
    requires Placed(os, c, server, e, oro, na, pd)
    ensures Find(os, 1) == Some(c.data) && Find(os, 2) == Only(server) && Find(os, 8) == Some(e.data)
    ensures Find(os, 6) == Only(oro) && Find(os, 3) == Only(na) && Find(os, 25) == Only(pd)
  {
    hide Find, First;
    assert os == [] + [c] + (server + [e] + oro + na + pd);
    FindPlaced([], [c], server + [e] + oro + na + pd, 1);
    assert os == [c] + server + ([e] + oro + na + pd);
    FindPlaced([c], server, [e] + oro + na + pd, 2);
    assert os == [c] + server + [e] + (oro + na + pd);
    FindPlaced([c] + server, [e], oro + na + pd, 8);
    assert os == [c] + server + [e] + oro + (na + pd);
    FindPlaced([c] + server + [e], oro, na + pd, 6);
    FindPlaced([c] + server + [e] + oro, na, pd, 3);
    assert os == [c] + server + [e] + oro + na + pd + [];
    FindPlaced([c] + server + [e] + oro + na, pd, [], 25);
  }

  lemma OptionsFound(rt: Option<Runtime>, mac: Option<Bytes>, msgType: nat, select: bool, wantAddress: bool)
    requires (rt.Some? ==> RuntimeOk(rt.value)) && msgType < 256
    ensures var hw := if mac.Some? then mac.value else [0, 0, 0, 0, 0, 0];
            Finds(OptionsOf(rt, mac, msgType, select, wantAddress), rt, hw, msgType, select, wantAddress)
  {
    hide Find, First, Decode, U32, Be32, Be16, ZeroBytes, AddressOption, PrefixOption, Asks, NamesPrefix,
      ClientId, Placed;
    var c, e, r := ClientId(mac), Opt(ELAPSED, ZeroBytes(2)), Opt(ORO, Be16(DNS_SERVERS) + Be16(NTP_SERVER));
    var server := if rt.Some? && 0 < |rt.value.serverId| <= MAX_SERVER_ID then [Opt(SERVERID, rt.value.serverId)]
        else [];
    var oro := if AsksForServers(msgType) then [r] else [];
    var na := if wantAddress then [AddressOption(rt, select)] else [];
    var pd := if wantAddress && rt.Some? && rt.value.pdLen != 0 then [PrefixOption(rt.value, select)] else [];
    FixedFound(mac);
    AddressFound(rt, select);
    if rt.Some? { PrefixFound(rt.value, select); }
    AddressIn(OptionsOf(rt, mac, msgType, select, wantAddress), rt, select);
    assert Placed(OptionsOf(rt, mac, msgType, select, wantAddress), c, server, e, oro, na, pd) by {
      IsPlaced(rt, mac, msgType, select, wantAddress, server, oro, na, pd);
    }
    PlacedFinds(OptionsOf(rt, mac, msgType, select, wantAddress), c, server, e, oro, na, pd);
  }

  lemma FixedFound(mac: Option<Bytes>)
    ensures ClientId(mac).code == 1
    ensures ClientId(mac).data == [0, 3, 0, 1] + if mac.Some? then mac.value else [0, 0, 0, 0, 0, 0]
    ensures ZeroBytes(2) == [0, 0] && Be16(DNS_SERVERS) + Be16(NTP_SERVER) == [0, 23, 0, 56]
  {
    assert ZeroBytes(6) == [0, 0, 0, 0, 0, 0];
  }

  lemma IsPlaced(rt: Option<Runtime>, mac: Option<Bytes>, msgType: nat, select: bool, wantAddress: bool,
                 server: seq<Opt>, oro: seq<Opt>, na: seq<Opt>, pd: seq<Opt>)
    requires (rt.Some? ==> RuntimeOk(rt.value)) && Coded(server, 2) && Coded(oro, 6) && Coded(na, 3) && Coded(pd, 25)
    requires FixedOptions(rt, mac, msgType) == [ClientId(mac)] + server + [Opt(ELAPSED, ZeroBytes(2))] + oro
    requires na + pd == if wantAddress then LeaseOptions(rt, select) else []
    ensures Placed(OptionsOf(rt, mac, msgType, select, wantAddress), ClientId(mac), server, Opt(ELAPSED, ZeroBytes(2)),
                   oro, na, pd)
  {
    hide FixedOptions, LeaseOptions, ZeroBytes, Be16;
  }

  /** Whatever else a message holds, its address option says what it says alone. */
  lemma AddressIn(os: seq<Opt>, rt: Option<Runtime>, select: bool)
    requires rt.Some? ==> RuntimeOk(rt.value)
    ensures Find(os, 3) == Some(AddressOption(rt, select).data) ==> AsksAddress(os, rt, select)
  {
    hide Find, First, Decode, U32, AddressOption;
    AddressFound(rt, select);
  }

  lemma AddressFound(rt: Option<Runtime>, select: bool)
    requires rt.Some? ==> RuntimeOk(rt.value)
    ensures AddressOption(rt, select).code == 3 && AsksAddress([AddressOption(rt, select)], rt, select)
    ensures Find([AddressOption(rt, select)], 3) == Some(AddressOption(rt, select).data)
  {
    hide Decode, U32, Be32, Association, First;
    var iaid := if rt.Some? then rt.value.iaid else 0;
    var named := !select && rt.Some? && rt.value.lease != 0;
    var subs := if named then [AddressSub(rt.value)] else [];
    AssociationParts(iaid, subs);
    assert Find([AddressOption(rt, select)], 3) == Some(Association(iaid, subs)) by {
      FindHere(AddressOption(rt, select), []);
      assert [AddressOption(rt, select)] + [] == [AddressOption(rt, select)];
    }
    if named {
      var a := AddressSub(rt.value);
      FindHere(a, []);
      assert [a] + [] == [a] && ZeroBytes(16) == Zero16();
      Be32At(ZeroBytes(16), rt.value.t1, Be32(rt.value.lease));
      Be32At(ZeroBytes(16) + Be32(rt.value.t1), rt.value.lease, []);
      assert a.data == ZeroBytes(16) + Be32(rt.value.t1) + Be32(rt.value.lease) + [] && a.data[..16] == ZeroBytes(16);
    } else {
      FindNone([], 5);
    }
  }

  lemma PrefixFound(rt: Runtime, select: bool)
    requires RuntimeOk(rt)
    ensures var d := PrefixOption(rt, select);
            d.code == 25 && Asks(d.data, Derived(rt.iaid)) && NamesPrefix(Find(Decode(d.data[12..]), 26), rt, select)
  {
    hide Decode, U32, Be32, Association, First;
    var subs := if select then [] else [PrefixSub(rt)];
    AssociationParts(PdIaid(rt.iaid), subs);
    if select {
      FindNone([], 26);
    } else {
      var a := PrefixSub(rt);
      FindHere(a, []);
      assert [a] + [] == [a];
      Be32At([], rt.pdPreferred, Be32(rt.pdValid) + [rt.pdLen] + rt.pdPrefix);
      Be32At(Be32(rt.pdPreferred), rt.pdValid, [rt.pdLen] + rt.pdPrefix);
      assert a.data == [] + Be32(rt.pdPreferred) + (Be32(rt.pdValid) + [rt.pdLen] + rt.pdPrefix);
      assert a.data == Be32(rt.pdPreferred) + Be32(rt.pdValid) + ([rt.pdLen] + rt.pdPrefix);
      assert a.data[9..] == rt.pdPrefix && a.data[8] == rt.pdLen;
    }
  }

  /** At most 249 bytes of options. */
  lemma Short(rt: Option<Runtime>, mac: Option<Bytes>, msgType: nat, select: bool, wantAddress: bool)
    requires (rt.Some? ==> RuntimeOk(rt.value)) && (mac.Some? ==> |mac.value| == 6)
    ensures var os := OptionsOf(rt, mac, msgType, select, wantAddress);
            |EncodeAll(os)| <= 249 && forall o :: o in os ==> Encodable(o)
  {
    hide PdIaid, Be32, Be16, ZeroBytes, EncodeAll;
    var fixed := FixedOptions(rt, mac, msgType);
    FixedShort(rt, mac, msgType);
    LeaseShort(rt, select);
    JoinedSize(fixed, LeaseOptions(rt, select));
    assert fixed + [] == fixed;
  }

  lemma {:induction false} JoinedSize(a: seq<Opt>, b: seq<Opt>)
    ensures EncodeAll(a + b) == EncodeAll(a) + EncodeAll(b)
  {
    if a == [] {
      assert a + b == b;
    } else {
      JoinedSize(a[1..], b);
      assert (a + b)[1..] == a[1..] + b;
    }
  }

  lemma FixedShort(rt: Option<Runtime>, mac: Option<Bytes>, msgType: nat)
    requires mac.Some? ==> |mac.value| == 6
    ensures var os := FixedOptions(rt, mac, msgType);
            |EncodeAll(os)| <= 160 && forall o :: o in os ==> Encodable(o)
  {
    hide EncodeAll;
    var c, e, r := ClientId(mac), Opt(ELAPSED, ZeroBytes(2)), Opt(ORO, Be16(DNS_SERVERS) + Be16(NTP_SERVER));
    var server := if rt.Some? && 0 < |rt.value.serverId| <= MAX_SERVER_ID then [Opt(SERVERID, rt.value.serverId)]
        else [];
    var oro := if AsksForServers(msgType) then [r] else [];
    OneEncoded(c);
    OneEncoded(e);
    OneEncoded(r);
    if server != [] { OneEncoded(server[0]); }
    JoinedSize([c], server);
    JoinedSize([c] + server, [e]);
    JoinedSize([c] + server + [e], oro);
  }

  lemma LeaseShort(rt: Option<Runtime>, select: bool)
    requires rt.Some? ==> RuntimeOk(rt.value)
    ensures var os := LeaseOptions(rt, select);
            |EncodeAll(os)| <= 89 && forall o :: o in os ==> Encodable(o)
  {
    hide PdIaid, Be32, ZeroBytes, EncodeAll;
    OneEncoded(AddressOption(rt, select));
    assert [AddressOption(rt, select)] + [] == [AddressOption(rt, select)];
    if rt.Some? {
      OneEncoded(AddressSub(rt.value));
      OneEncoded(PrefixSub(rt.value));
      OneEncoded(PrefixOption(rt.value, select));
      JoinedSize([AddressOption(rt, select)], [PrefixOption(rt.value, select)]);
    }
  }

  /** A message of any type from any client, decoded by its reader: 253 bytes hold it all. */
  method Ask(out: array<Byte>, rt: Option<Runtime>, mac: Option<Bytes>, msgType: Byte, select: bool, xid: nat,
             wantAddress: bool)
    returns (len: nat, os: seq<Opt>)
    requires (rt.Some? ==> RuntimeOk(rt.value)) && (mac.Some? ==> |mac.value| == 6) && out.Length >= 253
    modifies out
    ensures 4 <= len <= 253 && out[0] == msgType && os == Decode(out[4..len])
    ensures xid % 0x100_0000 != 0 ==> U32([0] + out[1..4], 0) == xid % 0x100_0000
    ensures xid % 0x100_0000 == 0 ==> U32([0] + out[1..4], 0) == 1
    ensures Finds(os, rt, if mac.Some? then mac.value else [0, 0, 0, 0, 0, 0], msgType, select, wantAddress)
  {
    hide OptionsOf, EncodeAll, Decode, Kept, U32, Encodable, Finds;
    var ok;
    ok, len := Build(out, rt, mac, msgType, select, xid, wantAddress);
    ghost var all := OptionsOf(rt, mac, msgType, select, wantAddress);
    Short(rt, mac, msgType, select, wantAddress);
    AllKept(all, out.Length - 4);
    HeaderXid(msgType, Xid(xid), EncodeAll(all));
    DecodeAll(all, []);
    DecodeNothing();
    assert EncodeAll(all) + [] == EncodeAll(all) && all + [] == all;
    var msg := out[..len];
    assert msg[4..] == out[4..len] && msg[1..4] == out[1..4] && msg[0] == out[0];
    os := Decode(out[4..len]);
    OptionsFound(rt, mac, msgType, select, wantAddress);
  }
}
