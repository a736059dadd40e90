/** Packets and buffers of kernel/networking/netpkt.c as values: who refers to which
    buffer, which pages back it, and the bytes a packet shows. */
module PacketState {
  import opened PacketBank

  const MAX_ALLOC := 65536

  type Bytes = seq<bv8>

  /** data is the memory at [base, base + alloc). */
  datatype Buf = Buf(base: nat, alloc: nat, refs: nat, external: bool, hasFree: bool, data: Bytes)

  datatype Pkt = Pkt(buf: nat, off: nat, cap: nat, head: nat, len: nat, refs: nat, view: bool)

  type Pkts = map<nat, Pkt>
  type Bufs = map<nat, Buf>

  ghost predicate BufOk(b: Buf) {
    && 0 < b.alloc <= MAX_ALLOC && |b.data| == b.alloc && b.base != 0
    && (!b.external ==> b.base % PAGE == 0 && b.alloc % PAGE == 0)
  }

  /** A packet shows part of its window, and its window is part of its buffer; only a
      view has a window smaller than the buffer. */
  ghost predicate PktOk(k: Pkt, bufs: Bufs) {
    && k.buf in bufs && k.refs > 0
    && k.head + k.len <= k.cap && k.off + k.cap <= bufs[k.buf].alloc
    && (!k.view ==> k.off == 0 && k.cap == bufs[k.buf].alloc)
  }

  ghost predicate AllOk(pkts: Pkts, bufs: Bufs) {
    && 0 !in pkts && 0 !in bufs && (forall b :: b in bufs ==> BufOk(bufs[b]))
    && (forall p :: p in pkts ==> PktOk(pkts[p], bufs))
    && (forall p, q :: p in pkts && q in pkts && !pkts[p].view && !pkts[q].view && pkts[p].buf == pkts[q].buf ==>
              p == q)
  }

  ghost function Users(pkts: Pkts, b: nat): set<nat> { set p | p in pkts && pkts[p].buf == b }

  /** Each buffer counts its packets; buffer x, if any, one reference more. */
  ghost predicate RefsOk(pkts: Pkts, bufs: Bufs, x: nat) {
    && 0 !in bufs && (x != 0 ==> x in bufs)
    && forall b :: b in bufs ==> bufs[b].refs > 0 && bufs[b].refs == |Users(pkts, b)| + if b == x then 1 else 0
  }

  ghost predicate InBuf(b: Buf, k: nat) { !b.external && b.base / PAGE <= k < (b.base + b.alloc) / PAGE }

  /** Every payload page belongs to exactly one internal buffer, or is the spare page. */
  ghost predicate TagsOk(bufs: Bufs, spare: nat, tag: map<nat, nat>, pages: set<nat>) {
    && tag.Keys == pages && spare % PAGE == 0
    && (forall k :: k in tag && tag[k] == 0 ==> spare != 0 && k == spare / PAGE)
    && (forall k :: k in tag && tag[k] != 0 ==> tag[k] in bufs && InBuf(bufs[tag[k]], k))
    && (forall b, k {:trigger InBuf(bufs[b], k)} :: b in bufs && InBuf(bufs[b], k) ==> k in tag && tag[k] == b)
    && (spare != 0 ==> spare / PAGE in tag && tag[spare / PAGE] == 0)
  }

  /** The bytes a packet shows. */
  ghost function Show(k: Pkt, bufs: Bufs): Bytes
    requires PktOk(k, bufs) && BufOk(bufs[k.buf])
  {
    bufs[k.buf].data[k.off + k.head..k.off + k.head + k.len]
  }

  /** Packets other than p are there as before, and show what they did; p is 0 for no exception. */
  ghost predicate Undisturbed(pkts0: Pkts, bufs0: Bufs, pkts: Pkts, bufs: Bufs, p: nat)
    requires AllOk(pkts0, bufs0) && AllOk(pkts, bufs)
  {
    forall q :: q in pkts0 && q != p ==>
        q in pkts && pkts[q] == pkts0[q] && Show(pkts[q], bufs) == Show(pkts0[q], bufs0)
  }

  // References

  lemma AttachRefs(pkts: Pkts, bufs: Bufs, p: nat, k: Pkt)
    requires RefsOk(pkts, bufs, k.buf) && k.buf in bufs && p !in pkts
    ensures RefsOk(pkts[p := k], bufs, 0)
  {
    var pkts' := pkts[p := k];
    forall b | b in bufs ensures |Users(pkts', b)| == |Users(pkts, b)| + if b == k.buf then 1 else 0 {
      assert Users(pkts', b) == Users(pkts, b) + if b == k.buf then {p} else {};
    }
  }

  lemma DetachRefs(pkts: Pkts, bufs: Bufs, p: nat)
    requires RefsOk(pkts, bufs, 0) && p in pkts && pkts[p].buf in bufs
    ensures RefsOk(pkts - {p}, bufs, pkts[p].buf)
  {
    var x := pkts[p].buf;
    forall b | b in bufs ensures |Users(pkts, b)| == |Users(pkts - {p}, b)| + if b == x then 1 else 0 {
      assert Users(pkts - {p}, b) == Users(pkts, b) - if b == x then {p} else {};
      assert b == x ==> p in Users(pkts, b);
    }
  }

  /** A packet that keeps its buffer keeps the counts. */
  lemma SameBufRefs(pkts: Pkts, bufs: Bufs, p: nat, k: Pkt)
    requires RefsOk(pkts, bufs, 0) && p in pkts && k.buf == pkts[p].buf
    ensures RefsOk(pkts[p := k], bufs, 0)
  {
    forall b | b in bufs ensures Users(pkts[p := k], b) == Users(pkts, b) { }
  }

  /** A packet that moves to a buffer with a reference to spare leaves one behind. */
  lemma RepointRefs(pkts: Pkts, bufs: Bufs, p: nat, k: Pkt)
    requires RefsOk(pkts, bufs, k.buf) && k.buf in bufs && p in pkts && pkts[p].buf in bufs && pkts[p].buf != k.buf
    ensures RefsOk(pkts[p := k], bufs, pkts[p].buf)
  {
    var was := pkts[p].buf;
    forall b | b in bufs
      ensures |Users(pkts[p := k], b)| == |Users(pkts, b)| + (if b == k.buf then 1 else 0) - (if b == was then 1 else 0)
    {
      assert p in Users(pkts, was) && p !in Users(pkts, k.buf);
      assert Users(pkts[p := k], b) == if b == k.buf then Users(pkts, b) + {p}
          else if b == was then Users(pkts, b) - {p} else Users(pkts, b);
    }
  }

  lemma NewBufRefs(pkts: Pkts, bufs: Bufs, b: nat, d: Buf)
    requires RefsOk(pkts, bufs, 0) && AllOk(pkts, bufs) && b !in bufs && b != 0 && d.refs == 1
    ensures RefsOk(pkts, bufs[b := d], b)
  {
    assert Users(pkts, b) == {};
  }

  lemma MoreRefs(pkts: Pkts, bufs: Bufs, b: nat)
    requires RefsOk(pkts, bufs, 0) && b in bufs
    ensures RefsOk(pkts, bufs[b := bufs[b].(refs := bufs[b].refs + 1)], b)
  {
  }

  lemma FewerRefs(pkts: Pkts, bufs: Bufs, b: nat)
    requires RefsOk(pkts, bufs, b) && b in bufs && bufs[b].refs > 1
    ensures RefsOk(pkts, bufs[b := bufs[b].(refs := bufs[b].refs - 1)], 0)
  {
  }

  lemma LastRef(pkts: Pkts, bufs: Bufs, b: nat)
    requires RefsOk(pkts, bufs, b) && b in bufs && bufs[b].refs <= 1
    ensures RefsOk(pkts, bufs - {b}, 0) && forall p :: p in pkts ==> pkts[p].buf != b
  {
    assert Users(pkts, b) == {};
    forall p | p in pkts ensures pkts[p].buf != b { assert p !in Users(pkts, b); }
  }

  lemma SoleUser(pkts: Pkts, bufs: Bufs, p: nat)
    requires RefsOk(pkts, bufs, 0) && p in pkts && pkts[p].buf in bufs && bufs[pkts[p].buf].refs == 1
    ensures forall q :: q in pkts && pkts[q].buf == pkts[p].buf ==> q == p
  {
    var u := Users(pkts, pkts[p].buf);
    assert |u - {p}| == 0;
    forall q | q in pkts && pkts[q].buf == pkts[p].buf ensures q == p { assert q in u - {p} || q == p; }
  }

  // Pages

  /** The page numbers of an internal buffer, as a run. */
  lemma BufRun(d: Buf, k: nat)
    requires BufOk(d) && !d.external
    ensures InBuf(d, k) <==> k in Run(d.base, d.alloc / PAGE)
  {
    assert (d.base + d.alloc) / PAGE == d.base / PAGE + d.alloc / PAGE;
    assert k in Run(d.base, d.alloc / PAGE) <==> InRun(k, d.base, d.alloc / PAGE);
  }

  ghost function Tagged(tag: map<nat, nat>, r: set<nat>, b: nat): map<nat, nat> { tag + map k | k in r :: b }

  lemma NewBufTags(bufs: Bufs, spare: nat, tag: map<nat, nat>, pages: set<nat>, b: nat, d: Buf)
    requires TagsOk(bufs, spare, tag, pages) && b !in bufs && b != 0 && BufOk(d) && !d.external
    requires Run(d.base, d.alloc / PAGE) !! pages
    ensures var r := Run(d.base, d.alloc / PAGE);
            TagsOk(bufs[b := d], spare, Tagged(tag, r, b), pages + r)
  {
    hide InBuf, Run, BufOk;
    var r := Run(d.base, d.alloc / PAGE);
    forall k ensures InBuf(d, k) <==> k in r { BufRun(d, k); }
    var bufs' := bufs[b := d];
    forall c, k | c in bufs' && InBuf(bufs'[c], k) ensures k in Tagged(tag, r, b) && Tagged(tag, r, b)[k] == c {
      if c != b { assert InBuf(bufs[c], k); }
    }
  }

  lemma SpareBufTags(bufs: Bufs, spare: nat, tag: map<nat, nat>, pages: set<nat>, b: nat, d: Buf)
    requires TagsOk(bufs, spare, tag, pages) && spare != 0 && 0 !in bufs && b !in bufs && b != 0 && BufOk(d)
    requires !d.external
    requires d.base == spare && d.alloc == PAGE
    ensures TagsOk(bufs[b := d], 0, tag[spare / PAGE := b], pages)
  {
    hide InBuf, BufOk, Run;
    var bufs', tag' := bufs[b := d], tag[spare / PAGE := b];
    forall k ensures InBuf(d, k) <==> k == spare / PAGE {
      BufRun(d, k);
      OneRun(spare);
    }
    forall c, k | c in bufs' && InBuf(bufs'[c], k) ensures k in tag' && tag'[k] == c {
      if c != b { assert InBuf(bufs[c], k); }
    }
    forall k | k in tag' && tag'[k] != 0 ensures tag'[k] in bufs' && InBuf(bufs'[tag'[k]], k) { }
  }

  lemma OneRun(base: nat)
    ensures Run(base, 1) == {base / PAGE}
  {
  }

  /** Buffers that keep their place keep their pages. */
  lemma SamePlaceTags(bufs: Bufs, spare: nat, tag: map<nat, nat>, pages: set<nat>, b: nat, d: Buf)
    requires TagsOk(bufs, spare, tag, pages) && b in bufs && b != 0
    requires forall k :: InBuf(d, k) <==> InBuf(bufs[b], k)
    ensures TagsOk(bufs[b := d], spare, tag, pages)
  {
    hide InBuf;
    var bufs' := bufs[b := d];
    forall c, k | c in bufs' && InBuf(bufs'[c], k) ensures k in tag && tag[k] == c {
      assert InBuf(bufs[c], k);
    }
  }

  lemma ExternalTags(bufs: Bufs, spare: nat, tag: map<nat, nat>, pages: set<nat>, b: nat, d: Buf)
    requires TagsOk(bufs, spare, tag, pages) && b !in bufs && b != 0 && d.external
    ensures TagsOk(bufs[b := d], spare, tag, pages)
  {
    var bufs' := bufs[b := d];
    forall c, k | c in bufs' && InBuf(bufs'[c], k) ensures k in tag && tag[k] == c {
      assert c != b;
      assert InBuf(bufs[c], k);
    }
  }

  /** Buffer b keeps only the pages outside r. */
  lemma CutTags(bufs: Bufs, spare: nat, tag: map<nat, nat>, pages: set<nat>, b: nat, d: Buf, r: set<nat>)
    requires TagsOk(bufs, spare, tag, pages) && b in bufs && b != 0
    requires forall k :: InBuf(d, k) <==> InBuf(bufs[b], k) && k !in r
    requires forall k :: k in r ==> InBuf(bufs[b], k)
    ensures TagsOk(bufs[b := d], spare, tag - r, pages - r)
  {
    hide InBuf;
    var bufs', tag' := bufs[b := d], tag - r;
    forall k | k in r ensures k in tag && tag[k] == b { assert InBuf(bufs[b], k); }
    forall c, k | c in bufs' && InBuf(bufs'[c], k) ensures k in tag' && tag'[k] == c {
      assert InBuf(bufs[c], k);
    }
  }

  /** A buffer without pages can go. */
  lemma GoneTags(bufs: Bufs, spare: nat, tag: map<nat, nat>, pages: set<nat>, b: nat)
    requires TagsOk(bufs, spare, tag, pages) && b in bufs && b != 0
    requires forall k :: !InBuf(bufs[b], k)
    ensures TagsOk(bufs - {b}, spare, tag, pages)
  {
    hide InBuf;
    var bufs' := bufs - {b};
    forall k | k in tag && tag[k] != 0 ensures tag[k] in bufs' && InBuf(bufs'[tag[k]], k) {
      assert InBuf(bufs[tag[k]], k);
    }
    forall c, k | c in bufs' && InBuf(bufs'[c], k) ensures k in tag && tag[k] == c {
      assert InBuf(bufs[c], k);
    }
  }

  /** The only page of a buffer becomes the spare page. */
  lemma ToSpareTags(bufs: Bufs, tag: map<nat, nat>, pages: set<nat>, b: nat, base: nat)
    requires TagsOk(bufs, 0, tag, pages) && b in bufs && b != 0 && base != 0 && base % PAGE == 0
    requires forall k :: InBuf(bufs[b], k) <==> k == base / PAGE
    ensures TagsOk(bufs - {b}, base, tag[base / PAGE := 0], pages)
  {
    hide InBuf;
    var bufs', tag' := bufs - {b}, tag[base / PAGE := 0];
    assert InBuf(bufs[b], base / PAGE);
    forall k | k in tag' && tag'[k] != 0 ensures tag'[k] in bufs' && InBuf(bufs'[tag'[k]], k) {
      assert InBuf(bufs[tag[k]], k);
    }
    forall c, k | c in bufs' && InBuf(bufs'[c], k) ensures k in tag' && tag'[k] == c {
      assert InBuf(bufs[c], k);
    }
  }

  lemma BufHolds(bufs: Bufs, spare: nat, tag: map<nat, nat>, held: map<nat, Use>, b: nat, base: nat, n: nat)
    requires TagsOk(bufs, spare, tag, PayloadPages(held)) && b in bufs && base % PAGE == 0
    requires forall k :: k in Run(base, n) ==> InBuf(bufs[b], k)
    ensures Holds(held, base, n, Payload)
  {
    hide InBuf, Run;
    forall k | k in Run(base, n) ensures k in held && held[k] == Payload {
      assert InBuf(bufs[b], k);
      assert k in PayloadPages(held);
    }
  }

  /** All pages of an internal buffer go back. */
  lemma FreeTags(bufs: Bufs, spare: nat, tag: map<nat, nat>, held: map<nat, Use>, b: nat)
    requires TagsOk(bufs, spare, tag, PayloadPages(held)) && b in bufs && b != 0 && BufOk(bufs[b]) && !bufs[b].external
    ensures var r := Run(bufs[b].base, bufs[b].alloc / PAGE);
            && Holds(held, bufs[b].base, bufs[b].alloc / PAGE, Payload)
            && TagsOk(bufs - {b}, spare, tag - r, PayloadPages(held) - r)
  {
    hide TagsOk, Run, PayloadPages;
    var d := bufs[b];
    var none := d.(external := true);
    var r := Run(d.base, d.alloc / PAGE);
    forall k ensures InBuf(d, k) <==> k in r { BufRun(d, k); }
    BufHolds(bufs, spare, tag, held, b, d.base, d.alloc / PAGE);
    CutTags(bufs, spare, tag, PayloadPages(held), b, none, r);
    GoneTags(bufs[b := none], spare, tag - r, PayloadPages(held) - r, b);
    assert bufs[b := none] - {b} == bufs - {b};
  }

  /** The first page of an internal buffer becomes the spare page, the others go back. */
  lemma SpareTags(bufs: Bufs, tag: map<nat, nat>, held: map<nat, Use>, b: nat)
    requires TagsOk(bufs, 0, tag, PayloadPages(held)) && b in bufs && b != 0 && BufOk(bufs[b]) && !bufs[b].external
    ensures var base, n := bufs[b].base, bufs[b].alloc / PAGE;
            var r := Run(base + PAGE, n - 1);
            && Holds(held, base + PAGE, n - 1, Payload)
            && TagsOk(bufs - {b}, base, (tag - r)[base / PAGE := 0], PayloadPages(held) - r)
  {
    hide TagsOk, Run, PayloadPages;
    var d := bufs[b];
    var base, n := d.base, d.alloc / PAGE;
    var r := Run(base + PAGE, n - 1);
    var first := d.(alloc := PAGE, data := d.data[..PAGE]);
    forall k ensures k in r <==> InBuf(d, k) && k != base / PAGE { TailRun(base, n, k); BufRun(d, k); }
    forall k ensures InBuf(first, k) <==> k == base / PAGE { BufRun(first, k); OneRun(base); }
    BufHolds(bufs, 0, tag, held, b, base + PAGE, n - 1);
    assert InBuf(d, base / PAGE) by { BufRun(d, base / PAGE); TailRun(base, n, base / PAGE); }
    CutTags(bufs, 0, tag, PayloadPages(held), b, first, r);
    ToSpareTags(bufs[b := first], tag - r, PayloadPages(held) - r, b, base);
    assert bufs[b := first] - {b} == bufs - {b};
  }

  lemma TailRun(base: nat, n: nat, k: nat)
    requires n > 0
    ensures k in Run(base + PAGE, n - 1) <==> k in Run(base, n) && k != base / PAGE
    ensures base / PAGE in Run(base, n)
  {
    assert k in Run(base + PAGE, n - 1) <==> InRun(k, base + PAGE, n - 1);
    assert k in Run(base, n) <==> InRun(k, base, n);
    assert InRun(base / PAGE, base, n);
  }

  // Contents

  lemma DropPktOk(pkts: Pkts, bufs: Bufs, p: nat)
    requires AllOk(pkts, bufs)
    ensures AllOk(pkts - {p}, bufs) && Undisturbed(pkts, bufs, pkts - {p}, bufs, p)
  {
  }

  /** A buffer nobody uses can go, or come. */
  lemma DropBufOk(pkts: Pkts, bufs: Bufs, b: nat)
    requires AllOk(pkts, bufs) && forall p :: p in pkts ==> pkts[p].buf != b
    ensures AllOk(pkts, bufs - {b}) && Undisturbed(pkts, bufs, pkts, bufs - {b}, 0)
  {
  }

  lemma AddBufOk(pkts: Pkts, bufs: Bufs, b: nat, d: Buf)
    requires AllOk(pkts, bufs) && b !in bufs && b != 0 && BufOk(d)
    ensures AllOk(pkts, bufs[b := d]) && Undisturbed(pkts, bufs, pkts, bufs[b := d], 0)
  {
  }

  lemma RefBufOk(pkts: Pkts, bufs: Bufs, b: nat, refs: nat)
    requires AllOk(pkts, bufs) && b in bufs
    ensures AllOk(pkts, bufs[b := bufs[b].(refs := refs)])
    ensures Undisturbed(pkts, bufs, pkts, bufs[b := bufs[b].(refs := refs)], 0)
  {
    var bufs' := bufs[b := bufs[b].(refs := refs)];
    forall p | p in pkts ensures PktOk(pkts[p], bufs') && Show(pkts[p], bufs') == Show(pkts[p], bufs) { }
  }

  lemma UndisturbedTrans(pkts0: Pkts, bufs0: Bufs, pkts1: Pkts, bufs1: Bufs, pkts2: Pkts, bufs2: Bufs, p: nat,
                         p1: nat, p2: nat)
    requires AllOk(pkts0, bufs0) && AllOk(pkts1, bufs1) && AllOk(pkts2, bufs2) && p1 in {0, p} && p2 in {0, p}
    requires Undisturbed(pkts0, bufs0, pkts1, bufs1, p1) && Undisturbed(pkts1, bufs1, pkts2, bufs2, p2)
    ensures Undisturbed(pkts0, bufs0, pkts2, bufs2, p)
  {
    forall q | q in pkts0 && q != p
      ensures q in pkts2 && pkts2[q] == pkts0[q] && Show(pkts2[q], bufs2) == Show(pkts0[q], bufs0)
    {
      assert q in pkts1 && pkts1[q] == pkts0[q];
    }
  }

  lemma AttachOk(pkts: Pkts, bufs: Bufs, p: nat, k: Pkt)
    requires AllOk(pkts, bufs) && p !in pkts && p != 0 && PktOk(k, bufs)
    requires k.view || forall q :: q in pkts ==> pkts[q].buf != k.buf
    ensures AllOk(pkts[p := k], bufs) && Undisturbed(pkts, bufs, pkts[p := k], bufs, 0)
  {
  }

  /** Packet p changes within its buffer, or moves to one nobody else uses. */
  lemma ChangeOk(pkts: Pkts, bufs: Bufs, p: nat, k: Pkt)
    requires AllOk(pkts, bufs) && p in pkts && PktOk(k, bufs) && k.view == pkts[p].view
    requires k.buf == pkts[p].buf || forall q :: q in pkts ==> pkts[q].buf != k.buf
    ensures AllOk(pkts[p := k], bufs) && Undisturbed(pkts, bufs, pkts[p := k], bufs, p)
  {
  }

  lemma NobodyUses(pkts: Pkts, bufs: Bufs, b: nat)
    requires RefsOk(pkts, bufs, b) && b in bufs && bufs[b].refs == 1
    ensures forall q :: q in pkts ==> pkts[q].buf != b
  {
    LastRef(pkts, bufs, b);
  }

  /** Writing into a buffer is seen only by the packets that use it. */
  lemma WriteOk(pkts: Pkts, bufs: Bufs, b: nat, p: nat, data: Bytes)
    requires AllOk(pkts, bufs) && b in bufs && |data| == bufs[b].alloc
    requires forall q :: q in pkts && pkts[q].buf == b ==> q == p
    ensures AllOk(pkts, bufs[b := bufs[b].(data := data)])
    ensures Undisturbed(pkts, bufs, pkts, bufs[b := bufs[b].(data := data)], p)
  {
    var bufs' := bufs[b := bufs[b].(data := data)];
    forall q | q in pkts ensures PktOk(pkts[q], bufs') && (q != p ==> Show(pkts[q], bufs') == Show(pkts[q], bufs)) { }
  }

  /** The bytes [from, from + |x|) of a buffer replaced. */
  function Stored(data: Bytes, from: nat, x: Bytes): (d: Bytes)
    requires from + |x| <= |data|
    ensures |d| == |data| && d[from..from + |x|] == x
  {
    data[..from] + x + data[from + |x|..]
  }

  lemma DataRefs(pkts: Pkts, bufs: Bufs, b: nat, d: Buf, x: nat)
    requires RefsOk(pkts, bufs, x) && b in bufs && d.refs == bufs[b].refs
    ensures RefsOk(pkts, bufs[b := d], x)
  {
  }

  /** A buffer shortened behind the window of its only packet. */
  lemma ShrinkOk(pkts: Pkts, bufs: Bufs, p: nat, k: Pkt, cap: nat)
    requires AllOk(pkts, bufs) && p in pkts && !k.view && !pkts[p].view && k.buf == pkts[p].buf && PktOk(k, bufs)
    requires forall q :: q in pkts && pkts[q].buf == k.buf ==> q == p
    requires k.head + k.len <= cap <= bufs[k.buf].alloc && 0 < cap && cap % PAGE == 0
    ensures var d := bufs[k.buf];
            var bufs', k' := bufs[k.buf := d.(alloc := cap, data := d.data[..cap])], k.(cap := cap);
            && AllOk(pkts[p := k'], bufs') && Undisturbed(pkts, bufs, pkts[p := k'], bufs', p)
            && Show(k', bufs') == Show(k, bufs)
  {
    var d := bufs[k.buf];
    var bufs', k' := bufs[k.buf := d.(alloc := cap, data := d.data[..cap])], k.(cap := cap);
    forall q | q in pkts && q != p ensures PktOk(pkts[q], bufs') && Show(pkts[q], bufs') == Show(pkts[q], bufs) { }
    assert Show(k', bufs') == Show(k, bufs);
  }

  lemma ShrinkTags(bufs: Bufs, spare: nat, tag: map<nat, nat>, held: map<nat, Use>, b: nat, cap: nat)
    requires TagsOk(bufs, spare, tag, PayloadPages(held)) && b in bufs && b != 0 && BufOk(bufs[b]) && !bufs[b].external
    requires 0 < cap < bufs[b].alloc && cap % PAGE == 0
    ensures var d := bufs[b];
            var n := (d.alloc - cap) / PAGE;
            var r := Run(d.base + cap, n);
            && Holds(held, d.base + cap, n, Payload) && n > 0
            && TagsOk(bufs[b := d.(alloc := cap, data := d.data[..cap])], spare, tag - r, PayloadPages(held) - r)
  {
    hide TagsOk, Run, PayloadPages;
    var d := bufs[b];
    var n := (d.alloc - cap) / PAGE;
    var r, d' := Run(d.base + cap, n), d.(alloc := cap, data := d.data[..cap]);
    forall k ensures k in r <==> InBuf(d, k) && !InBuf(d', k) {
      UpperRun(d.base, d.alloc, cap, k);
      BufRun(d, k);
      BufRun(d', k);
    }
    forall k ensures InBuf(d', k) ==> InBuf(d, k) { }
    BufHolds(bufs, spare, tag, held, b, d.base + cap, n);
    CutTags(bufs, spare, tag, PayloadPages(held), b, d', r);
  }

  lemma UpperRun(base: nat, alloc: nat, cap: nat, k: nat)
    requires base % PAGE == 0 && alloc % PAGE == 0 && cap % PAGE == 0 && cap <= alloc
    ensures k in Run(base + cap, (alloc - cap) / PAGE) <==> k in Run(base, alloc / PAGE) && k !in Run(base, cap / PAGE)
  {
    assert (base + cap) / PAGE == base / PAGE + cap / PAGE && alloc / PAGE == cap / PAGE + (alloc - cap) / PAGE;
    assert k in Run(base + cap, (alloc - cap) / PAGE) <==> InRun(k, base + cap, (alloc - cap) / PAGE);
    assert k in Run(base, alloc / PAGE) <==> InRun(k, base, alloc / PAGE);
    assert k in Run(base, cap / PAGE) <==> InRun(k, base, cap / PAGE);
  }

  ghost function Pick(bufs: Bufs): (b: nat)
    requires bufs != map[]
    ensures b in bufs
  {
    assert bufs.Keys != {};
    var b :| b in bufs.Keys;
    b
  }

  /** The bytes of all internal buffers. */
  ghost function InternalBytes(bufs: Bufs): nat
    decreases |bufs|
  {
    if bufs == map[] then 0
    else
      var b := Pick(bufs);
      SmallerMap(bufs, b);
      (if bufs[b].external then 0 else bufs[b].alloc) + InternalBytes(bufs - {b})
  }

  lemma SmallerMap(bufs: Bufs, b: nat)
    requires b in bufs
    ensures |bufs - {b}| < |bufs|
  {
    assert (bufs - {b}).Keys == bufs.Keys - {b};
    assert |bufs - {b}| == |(bufs - {b}).Keys| && |bufs| == |bufs.Keys|;
  }

  /** The payload pages are those of the internal buffers and the spare page. */
  lemma {:induction false} PayloadSum(bufs: Bufs, spare: nat, tag: map<nat, nat>, pages: set<nat>)
    requires TagsOk(bufs, spare, tag, pages) && 0 !in bufs && forall b :: b in bufs ==> BufOk(bufs[b])
    ensures PAGE * |pages| == InternalBytes(bufs) + if spare != 0 then PAGE else 0
    decreases |bufs|
  {
    if bufs == map[] {
      assert pages == if spare != 0 then {spare / PAGE} else {};
    } else {
      var b := Pick(bufs);
      SmallerMap(bufs, b);
      if bufs[b].external {
        GoneTags(bufs, spare, tag, pages, b);
        PayloadSum(bufs - {b}, spare, tag, pages);
      } else {
        var held := map k | k in pages :: Payload;
        assert PayloadPages(held) == pages;
        var r := Run(bufs[b].base, bufs[b].alloc / PAGE);
        FreeTags(bufs, spare, tag, held, b);
        PayloadSum(bufs - {b}, spare, tag - r, pages - r);
        RunSize(bufs[b].base, bufs[b].alloc / PAGE);
        assert r <= pages;
      }
    }
  }
}
