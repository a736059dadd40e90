/** DHCPv6 options as lists: the encoding of section 21.1 of RFC 8415 and a decoder for it
    that follows its grammar. */
module Tlv {
  import opened Wrappers

  type Byte = b: nat | b < 256

  type Bytes = seq<Byte>

  datatype Opt = Opt(code: nat, data: Bytes)

  function Be16(n: nat): (b: Bytes)
    ensures |b| == 2
  {
    [n / 256 % 256, n % 256]
  }

  function Be32(n: nat): (b: Bytes)
    ensures |b| == 4
  {
    [n / 0x100_0000 % 256, n / 0x1_0000 % 256, n / 256 % 256, n % 256]
  }

  function U16(b: Bytes, at: nat): (n: nat)
    requires at + 2 <= |b|
    ensures n < 0x1_0000
  {
    b[at] as int * 256 + b[at + 1]
  }

  function U32(b: Bytes, at: nat): (n: nat)
    requires at + 4 <= |b|
    ensures n < 0x1_0000_0000
  {
    b[at] as int * 0x100_0000 + b[at + 1] as int * 0x1_0000 + b[at + 2] as int * 256 + b[at + 3]
  }

  lemma Be16Back(n: nat, b: Bytes, at: nat)
    requires n < 0x1_0000 && at + 2 <= |b| && b[at..at + 2] == Be16(n)
    ensures U16(b, at) == n
  {
    assert b[at] == b[at..at + 2][0] && b[at + 1] == b[at..at + 2][1];
  }

  lemma Be32Back(n: nat, b: Bytes, at: nat)
    requires n < 0x1_0000_0000 && at + 4 <= |b| && b[at..at + 4] == Be32(n)
    ensures U32(b, at) == n
  {
    var s := b[at..at + 4];
    assert b[at] == s[0] && b[at + 1] == s[1] && b[at + 2] == s[2] && b[at + 3] == s[3];
    assert n / 256 / 256 == n / 0x1_0000 && n / 0x1_0000 / 256 == n / 0x100_0000;
  }

  predicate Encodable(o: Opt) { o.code < 0x1_0000 && |o.data| < 0x1_0000 }

  function Encode(o: Opt): (b: Bytes)
    ensures |b| == 4 + |o.data|
  {
    Be16(o.code) + Be16(|o.data|) + o.data
  }

  function EncodeAll(os: seq<Opt>): Bytes { if os == [] then [] else Encode(os[0]) + EncodeAll(os[1..]) }

  /** The options of a byte string, up to the first that is cut short. */
  function Decode(b: Bytes): (os: seq<Opt>)
    ensures forall o :: o in os ==> Encodable(o)
    decreases |b|
  {
    if |b| < 4 || 4 + U16(b, 2) > |b| then []
    else [Opt(U16(b, 0), b[4..4 + U16(b, 2)])] + Decode(b[4 + U16(b, 2)..])
  }

  lemma DecodeFirst(o: Opt, rest: Bytes)
    requires Encodable(o)
    ensures Decode(Encode(o) + rest) == [o] + Decode(rest)
  {
    var b := Encode(o) + rest;
    assert b[0..2] == Be16(o.code) && b[2..4] == Be16(|o.data|);
    Be16Back(o.code, b, 0);
    Be16Back(|o.data|, b, 2);
    assert b[4..4 + |o.data|] == o.data && b[4 + |o.data|..] == rest;
  }

  /** Decoding what was encoded. */
  lemma {:induction false} DecodeAll(os: seq<Opt>, rest: Bytes)
    requires forall o :: o in os ==> Encodable(o)
    ensures Decode(EncodeAll(os) + rest) == os + Decode(rest)
  {
    hide Decode, Encode;
    if os == [] {
      assert EncodeAll(os) + rest == rest;
    } else {
      var tail := EncodeAll(os[1..]) + rest;
      assert EncodeAll(os) + rest == Encode(os[0]) + tail;
      DecodeFirst(os[0], tail);
      DecodeAll(os[1..], rest);
      assert os == [os[0]] + os[1..];
    }
  }

  lemma {:induction false} EncodeSnoc(os: seq<Opt>, o: Opt)
    ensures EncodeAll(os + [o]) == EncodeAll(os) + Encode(o)
  {
    if os != [] {
      EncodeSnoc(os[1..], o);
      assert (os + [o])[1..] == os[1..] + [o];
    }
  }

  /** The data of the first option with a code and at least so many bytes. */
  function First(os: seq<Opt>, code: nat, least: nat): (d: Option<Bytes>)
    ensures d.Some? ==> |d.value| >= least
  {
    if os == [] then None
    else if os[0].code == code && |os[0].data| >= least then Some(os[0].data)
    else First(os[1..], code, least)
  }

  lemma FirstCons(o: Opt, os: seq<Opt>, code: nat, least: nat)
    ensures First([o] + os, code, least) == if o.code == code && |o.data| >= least then Some(o.data)
        else First(os, code, least)
  {
    assert ([o] + os)[1..] == os;
  }

  lemma Slices(b: Bytes, from: nat, to: nat, i: nat, j: nat)
    requires from <= to <= |b| && i <= j <= to - from
    ensures b[from..to][i..j] == b[from + i..from + j]
  {
    var x, y := b[from..to][i..j], b[from + i..from + j];
    assert |x| == |y|;
    forall k | 0 <= k < |x| ensures x[k] == y[k] { }
  }

  /** Decoding part of a buffer, by offsets. */
  lemma DecodeAt(b: Bytes, at: nat, end: nat)
    requires at <= end <= |b|
    ensures at + 4 > end ==> Decode(b[at..end]) == []
    ensures at + 4 <= end && at + 4 + U16(b, at + 2) > end ==> Decode(b[at..end]) == []
    ensures at + 4 <= end && at + 4 + U16(b, at + 2) <= end ==>
              var next := at + 4 + U16(b, at + 2);
              Decode(b[at..end]) == [Opt(U16(b, at), b[at + 4..next])] + Decode(b[next..end])
  {
    var c := b[at..end];
    if at + 4 <= end {
      assert U16(c, 0) == U16(b, at) && U16(c, 2) == U16(b, at + 2);
      var n := U16(b, at + 2);
      if at + 4 + n <= end {
        Slices(b, at, end, 4, 4 + n);
        Slices(b, at, end, 4 + n, |c|);
        assert c[4 + n..] == c[4 + n..|c|];
      }
    }
  }

  lemma U32Slice(b: Bytes, from: nat, to: nat, at: nat)
    requires from <= to <= |b| && from + at + 4 <= to
    ensures U32(b[from..to], at) == U32(b, from + at)
  {
  }
}
