/** The packet operations of kernel/networking/netpkt.c. */
module Packets {
  import opened Wrappers
  import opened PacketBank
  import opened MetaSlab
  import opened PacketState
  import PageBitmap

  const BUF_SIZE := 48
  const PKT_SIZE := 32

  /** An object of one of the two slabs can be had. */
  ghost predicate HasObject(pages: SlabPages, used: nat, answer: nat) {
    Room(pages) || (answer != 0 && used + PAGE <= MAX_PAGE_BYTES)
  }

  ghost predicate LiveIs(keys: set<nat>, pages: SlabPages) { forall o :: o in keys <==> IsLive(pages, o) }

  /** Pages taken or given back for one slab leave the other slab and the payload alone. */
  lemma OtherTook(qs: set<nat>, held: map<nat, Use>, id: bool, base: nat, n: nat, u: Use)
    requires Banked(qs, held, id) && u != Meta(id) && base != 0 && Answer(held, base, n)
    ensures Banked(qs, Took(held, base, n, u), id)
    ensures PayloadPages(Took(held, base, n, u)) == PayloadPages(held) + if u.Payload? then Run(base, n) else {}
  {
    hide Run;
  }

  lemma OtherGave(qs: set<nat>, held: map<nat, Use>, held': map<nat, Use>, id: bool)
    requires Banked(qs, held, id)
    requires forall k :: k in held' ==> k in held && held'[k] == held[k]
    requires forall k :: k in held && held[k] == Meta(id) ==> k in held'
    ensures Banked(qs, held', id)
  {
  }

  lemma KeepsPayload(held: map<nat, Use>, held': map<nat, Use>, id: bool)
    requires forall k :: k in held' ==> k in held && held'[k] == held[k]
    requires forall k :: k in held && held[k] != Meta(id) ==> k in held'
    ensures PayloadPages(held') == PayloadPages(held)
  {
  }

  lemma GavePayload(qs: set<nat>, held: map<nat, Use>, base: nat, n: nat, id: bool)
    requires Holds(held, base, n, Payload) && Banked(qs, held, id)
    ensures Banked(qs, held - Run(base, n), id)
    ensures PayloadPages(held - Run(base, n)) == PayloadPages(held) - Run(base, n)
  {
    hide Run;
  }

  lemma LiveMore(keys: set<nat>, pages: SlabPages, pages': SlabPages, obj: nat)
    requires LiveIs(keys, pages) && OneMoreLive(pages, pages', obj)
    ensures obj !in keys && LiveIs(keys + {obj}, pages')
  {
  }

  lemma LiveLess(keys: set<nat>, pages: SlabPages, pages': SlabPages, obj: nat)
    requires LiveIs(keys, pages) && OneMoreLive(pages', pages, obj)
    ensures LiveIs(keys - {obj}, pages')
  {
  }

  class Net {
    const bank: Bank
    const bufSlab: Slab
    const pktSlab: Slab
    var pkts: Pkts
    var bufs: Bufs
    var spare: nat
    /** The calls made to free functions of wrapped memory. */
    var callbacks: seq<(nat, nat)>
    /** The buffer each payload page belongs to; 0 for the spare page. */
    ghost var tag: map<nat, nat>

    constructor ()
      ensures Valid() && pkts == map[] && bufs == map[] && spare == 0 && fresh(bank) && fresh(bufSlab) && fresh(pktSlab)
    {
      hide Bank.Valid, Listed, LiveIs, AllOk, RefsOk, TagsOk, Banked, PayloadPages;
      bank := new Bank();
      bufSlab := new Slab(false);
      pktSlab := new Slab(true);
      pkts, bufs, spare, callbacks, tag := map[], map[], 0, [], map[];
      new;
      NothingOk();
      assert bufSlab.pages.Keys == {} && pktSlab.pages.Keys == {} && pkts.Keys == {} && bufs.Keys == {};
    }

    ghost predicate Backing()
      reads this, bank, bufSlab, pktSlab
    {
      && bufSlab != pktSlab && bufSlab.id != pktSlab.id
      && bank.Valid() && bufSlab.Valid(bank) && pktSlab.Valid(bank)
      && (bufSlab.objSize == 0 || bufSlab.objSize == BUF_SIZE) && (pktSlab.objSize == 0 || pktSlab.objSize == PKT_SIZE)
    }

    /** As Valid, but for one reference more to buffer x. */
    ghost predicate ValidBut(x: nat)
      reads this, bank, bufSlab, pktSlab
    {
      && Backing() && LiveIs(bufs.Keys, bufSlab.pages) && LiveIs(pkts.Keys, pktSlab.pages)
      && AllOk(pkts, bufs) && RefsOk(pkts, bufs, x) && TagsOk(bufs, spare, tag, PayloadPages(bank.held))
    }

    ghost predicate Valid()
      reads this, bank, bufSlab, pktSlab
    {
      ValidBut(0)
    }

    /** The byte counters say what is in use: payload bytes are the live internal buffers and
        the spare page, meta bytes the pages of the two slabs, and the total is their
        sum, within 32 MiB. */
    lemma Conserved()
      requires Valid()
      ensures bank.payloadBytes == InternalBytes(bufs) + if spare != 0 then PAGE else 0
      ensures bank.metaBytes == PAGE * (|bufSlab.pages.Keys| + |pktSlab.pages.Keys|)
      ensures bank.pageBytes == bank.payloadBytes + bank.metaBytes <= 32 * 1024 * 1024
    {
      hide Listed, LiveIs, RefsOk, TagsOk, Banked, PayloadPages, MetaPages, InternalBytes;
      MetaCount(bank.held, bufSlab.pages.Keys, pktSlab.pages.Keys, bufSlab.id);
      PayloadSum(bufs, spare, tag, PayloadPages(bank.held));
    }

    /** A new object of one slab. */
    method NewObject(slab: Slab, ghost other: Slab, size: nat, answer: nat) returns (obj: nat)
      requires Backing() && Answer(bank.held, answer, 1)
      requires (slab == bufSlab && other == pktSlab && size == BUF_SIZE)
          || (slab == pktSlab && other == bufSlab && size == PKT_SIZE)
      modifies bank, slab
      ensures Backing() && PayloadPages(bank.held) == old(PayloadPages(bank.held))
      ensures obj == 0 ==> slab.pages == old(slab.pages) && bank.held == old(bank.held)
      ensures obj != 0 ==> OneMoreLive(old(slab.pages), slab.pages, obj)
      ensures obj != 0 <==> old(HasObject(slab.pages, bank.pageBytes, answer))
      ensures bank.pageBytes == old(bank.pageBytes) + if obj == 0 then 0 else old(Charge(slab.pages))
      ensures forall k :: k in bank.held && k !in old(bank.held) ==> answer != 0 && k == answer / PAGE
    {
      hide Bank.Valid, Listed, OneMoreLive, Banked, Took, Answer, Run, PayloadPages, Room;
      ghost var h := bank.held;
      obj := slab.Alloc(bank, size, answer);
      if bank.held != h {
        OtherTook(other.pages.Keys, h, other.id, answer, 1, Meta(slab.id));
        TookOnly(h, answer, Meta(slab.id));
      }
    }

    /** An object given back. */
    method DropObject(slab: Slab, ghost other: Slab, obj: nat)
      requires Backing() && IsLive(slab.pages, obj)
      requires (slab == bufSlab && other == pktSlab) || (slab == pktSlab && other == bufSlab)
      modifies bank, slab
      ensures Backing() && PayloadPages(bank.held) == old(PayloadPages(bank.held))
      ensures OneMoreLive(slab.pages, old(slab.pages), obj)
    {
      hide Bank.Valid, Listed, OneMoreLive, Banked, PayloadPages, IsLive;
      ghost var h := bank.held;
      slab.Free(bank, obj);
      OtherGave(other.pages.Keys, h, bank.held, other.id);
      KeepsPayload(h, bank.held, slab.id);
    }

    /** Payload pages from the page allocator, within the budget. */
    method TakePayload(n: nat, answer: nat) returns (base: nat)
      requires Backing() && n > 0 && Answer(bank.held, answer, n)
      modifies bank
      ensures Backing() && (base == answer || base == 0)
      ensures base == 0 ==> bank.held == old(bank.held)
      ensures base == 0 <==> answer == 0 || MAX_PAGE_BYTES < old(bank.pageBytes) + n * PAGE
      ensures bank.pageBytes == old(bank.pageBytes) + if base == 0 then 0 else n * PAGE
      ensures base != 0 ==> bank.held == Took(old(bank.held), base, n, Payload)
      ensures base != 0 ==> PayloadPages(bank.held) == old(PayloadPages(bank.held)) + Run(base, n)
    {
      hide Bank.Valid, Listed, Banked, Took, Answer, Run, PayloadPages;
      ghost var h := bank.held;
      base := bank.Take(n, Payload, answer);
      if base != 0 {
        OtherTook(bufSlab.pages.Keys, h, bufSlab.id, base, n, Payload);
        OtherTook(pktSlab.pages.Keys, h, pktSlab.id, base, n, Payload);
      }
    }

    method GivePayload(base: nat, n: nat)
      requires Backing() && Holds(bank.held, base, n, Payload)
      modifies bank
      ensures Backing() && PayloadPages(bank.held) == old(PayloadPages(bank.held)) - Run(base, n)
      ensures bank.held == old(bank.held) - Run(base, n)
      ensures bank.pageBytes + n * PAGE == old(bank.pageBytes)
      ensures bank.payloadBytes + n * PAGE == old(bank.payloadBytes) && bank.metaBytes == old(bank.metaBytes)
    {
      hide Bank.Valid, Listed, Banked, Holds, Run, PayloadPages;
      GavePayload(bufSlab.pages.Keys, bank.held, base, n, bufSlab.id);
      GavePayload(pktSlab.pages.Keys, bank.held, base, n, pktSlab.id);
      bank.Give(base, n, Payload);
    }

    /** The payload bytes charged for a buffer of cap bytes: none for the spare page. */
    ghost function PayloadCharge(cap: nat): nat
      reads this
    {
      if cap == PAGE && spare != 0 then 0 else cap
    }

    /** There is memory for a buffer of cap bytes and an object to describe it. */
    ghost predicate CanMake(cap: nat, offer: Offer)
      reads this, bank, bufSlab
    {
      && (PayloadCharge(cap) == 0 || (offer.payload != 0 && bank.pageBytes + cap <= MAX_PAGE_BYTES))
      && HasObject(bufSlab.pages, bank.pageBytes + PayloadCharge(cap), offer.bufPage)
    }

    /** A buffer of cap bytes with its one reference still to be used; 0 is failure, and
        then buffers, spare page, the pages held and the objects in use are as before. */
    method MakeBuf(cap: nat, offer: Offer) returns (b: nat, fromSpare: bool)
      requires Valid() && 0 < cap <= MAX_ALLOC && cap % PAGE == 0 && Fair(bank.held, offer, cap / PAGE)
      modifies this`bufs, this`spare, this`tag, bank, bufSlab
      ensures b == 0 ==> Valid() && bufs == old(bufs) && spare == old(spare)
      ensures b == 0 ==> bank.held == old(bank.held) && bufSlab.pages == old(bufSlab.pages)
      ensures b != 0 <==> old(CanMake(cap, offer))
      ensures b != 0 ==> bank.pageBytes == old(bank.pageBytes + PayloadCharge(cap) + Charge(bufSlab.pages))
      ensures b != 0 ==>
                ValidBut(b) && b !in old(bufs) && bufs.Keys == old(bufs).Keys + {b} && bufs == old(bufs)[b := bufs[b]]
      ensures b != 0 ==> bufs[b].alloc == cap && bufs[b].refs == 1 && !bufs[b].external
      ensures b != 0 ==>
                && spare == (if fromSpare then 0 else old(spare))
                && (fromSpare ==> cap == PAGE && bufs[b].base == old(spare))
      ensures b != 0 ==> Answer(bank.held, offer.pktPage, 1)
      ensures b != 0 && fromSpare ==> bufs[b].data == Zeros(PAGE)
    {
      hide Bank.Valid, Listed, Banked, Holds, Run, PayloadPages, Took, Answer, LiveIs, AllOk, RefsOk, TagsOk,
        OneMoreLive, Zeros, Tagged, Fair, Room, Charge;
      ghost var h, pay, was := bank.held, PayloadPages(bank.held), spare;
      var n := cap / PAGE;
      var mem, data := 0, offer.fill;
      FairParts(h, offer, n);
      SpareAligned(bufs, spare, tag, pay);
      if cap == PAGE && spare != 0 {
        mem, data, fromSpare := spare, Zeros(PAGE), true;
        spare := 0;
      } else {
        fromSpare := false;
        mem := TakePayload(n, offer.payload);
        if mem == 0 { return 0, false; }
        FairAfter(h, offer, n, Payload);
      }
      ghost var h1 := bank.held;
      b := NewObject(bufSlab, pktSlab, BUF_SIZE, offer.bufPage);
      if b == 0 {
        if fromSpare {
          spare := mem;
        } else {
          TookBack(h, mem, n);
          GivePayload(mem, n);
        }
        return 0, false;
      }
      FairLast(h, h1, bank.held, offer, n);
      LiveMore(bufs.Keys, old(bufSlab.pages), bufSlab.pages, b);
      assert BufOk(Buf(mem, cap, 1, false, false, data)) by { assert data == offer.fill || data == Zeros(PAGE); }
      Register(b, mem, cap, data, fromSpare, was, pay);
    }

    /** A new buffer of cap bytes at mem, which was the spare page or is newly held. */
    method Register(b: nat, mem: nat, cap: nat, data: Bytes, fromSpare: bool, ghost was: nat, ghost pay: set<nat>)
      requires Backing() && LiveIs(bufs.Keys + {b}, bufSlab.pages) && LiveIs(pkts.Keys, pktSlab.pages)
      requires AllOk(pkts, bufs) && RefsOk(pkts, bufs, 0) && b !in bufs && b != 0
      requires BufOk(Buf(mem, cap, 1, false, false, data))
      requires TagsOk(bufs, was, tag, pay) && spare == (if fromSpare then 0 else was)
      requires fromSpare ==> was != 0 && mem == was && cap == PAGE && PayloadPages(bank.held) == pay
      requires !fromSpare ==> Run(mem, cap / PAGE) !! pay && PayloadPages(bank.held) == pay + Run(mem, cap / PAGE)
      modifies this`bufs, this`tag
      ensures ValidBut(b) && bufs == old(bufs)[b := Buf(mem, cap, 1, false, false, data)]
      ensures bufs.Keys == old(bufs).Keys + {b}
    {
      hide Bank.Valid, Listed, Banked, Run, PayloadPages, LiveIs, AllOk, RefsOk, TagsOk, Tagged, BufOk;
      var d := Buf(mem, cap, 1, false, false, data);
      NoZero(pkts, bufs);
      NewBufRefs(pkts, bufs, b, d);
      AddBufOk(pkts, bufs, b, d);
      assert bufs[b := d].Keys == bufs.Keys + {b};
      if fromSpare {
        SpareBufTags(bufs, was, tag, pay, b, d);
        tag := tag[was / PAGE := b];
      } else {
        NewBufTags(bufs, spare, tag, pay, b, d);
        tag := Tagged(tag, Run(mem, cap / PAGE), b);
      }
      bufs := bufs[b := d];
    }

    /** The memory of a buffer nobody refers to: back to its owner, kept as the spare page,
        or back to the page allocator. */
    method FreeMemory(b: nat)
      requires Backing() && b in bufs && b != 0 && BufOk(bufs[b]) && TagsOk(bufs, spare, tag, PayloadPages(bank.held))
      modifies this`spare, this`tag, this`callbacks, bank
      ensures Backing() && TagsOk(bufs - {b}, spare, tag, PayloadPages(bank.held))
      ensures callbacks == old(callbacks) + FreeCall(bufs[b].(refs := 0))
    {
      hide Bank.Valid, Listed, Banked, Holds, Run, PayloadPages, TagsOk;
      var d := bufs[b];
      if d.external {
        if d.hasFree { callbacks := callbacks + [(d.base, d.alloc)]; }
        GoneTags(bufs, spare, tag, PayloadPages(bank.held), b);
      } else if spare == 0 && d.base % PAGE == 0 && d.alloc % PAGE == 0 {
        SpareTags(bufs, tag, bank.held, b);
        ghost var r := Run(d.base + PAGE, d.alloc / PAGE - 1);
        spare := d.base;
        tag := (tag - r)[d.base / PAGE := 0];
        if d.alloc > PAGE {
          GivePayload(d.base + PAGE, d.alloc / PAGE - 1);
        } else {
          EmptyRun(d.base + PAGE, PayloadPages(bank.held));
        }
      } else {
        FreeTags(bufs, spare, tag, bank.held, b);
        tag := tag - Run(d.base, d.alloc / PAGE);
        GivePayload(d.base, d.alloc / PAGE);
      }
    }

    /** Dropping one reference to a buffer. */
    method ReleaseRef(b: nat)
      requires ValidBut(b) && b != 0
      modifies this`bufs, this`spare, this`tag, this`callbacks, bank, bufSlab
      ensures Valid() && b in old(bufs) && AllOk(pkts, old(bufs)) && Undisturbed(pkts, old(bufs), pkts, bufs, 0)
      ensures bufs == if old(bufs)[b].refs > 1 then old(bufs)[b := old(bufs)[b].(refs := old(bufs)[b].refs - 1)]
          else old(bufs) - {b}
      ensures callbacks == old(callbacks) + FreeCall(old(bufs)[b])
    {
      hide Bank.Valid, Listed, Banked, PayloadPages, TagsOk, LiveIs, AllOk, RefsOk, OneMoreLive, Undisturbed, IsLive,
        BufOk, InBuf;
      ExtraIn(pkts, bufs, b);
      var d := bufs[b];
      if d.refs > 1 {
        FewerRefs(pkts, bufs, b);
        RefBufOk(pkts, bufs, b, d.refs - 1);
        RefTags(bufs, spare, tag, PayloadPages(bank.held), b, d.refs - 1);
        assert bufs[b := d.(refs := d.refs - 1)].Keys == bufs.Keys;
        bufs := bufs[b := d.(refs := d.refs - 1)];
        return;
      }
      LastRef(pkts, bufs, b);
      DropBufOk(pkts, bufs, b);
      InAllOk(pkts, bufs, b);
      IsAlive(bufs.Keys, bufSlab.pages, b);
      FreeMemory(b);
      ghost var pages := bufSlab.pages;
      DropObject(bufSlab, pktSlab, b);
      LiveLess(bufs.Keys, pages, bufSlab.pages, b);
      assert (bufs - {b}).Keys == bufs.Keys - {b};
      bufs := bufs - {b};
    }

    /** Taking back a buffer that was just made, for want of a packet object. */
    method UndoBuf(b: nat, fromSpare: bool)
      requires ValidBut(b) && b in bufs && bufs[b].refs == 1 && !bufs[b].external
      requires fromSpare ==> spare == 0 && bufs[b].alloc == PAGE
      modifies this`bufs, this`spare, this`tag, bank, bufSlab
      ensures Valid() && bufs == old(bufs) - {b}
      ensures spare == if fromSpare then old(bufs)[b].base else old(spare)
    {
      hide Bank.Valid, Listed, Banked, PayloadPages, TagsOk, LiveIs, AllOk, RefsOk, OneMoreLive, Undisturbed, IsLive,
        InBuf, Holds, Run;
      var d := bufs[b];
      NoZero(pkts, bufs);
      LastRef(pkts, bufs, b);
      DropBufOk(pkts, bufs, b);
      InAllOk(pkts, bufs, b);
      IsAlive(bufs.Keys, bufSlab.pages, b);
      ghost var pages := bufSlab.pages;
      DropObject(bufSlab, pktSlab, b);
      LiveLess(bufs.Keys, pages, bufSlab.pages, b);
      assert (bufs - {b}).Keys == bufs.Keys - {b};
      if fromSpare {
        SpareTags(bufs, tag, bank.held, b);
        EmptyRun(d.base + PAGE, PayloadPages(bank.held));
        tag := (tag - Run(d.base + PAGE, 0))[d.base / PAGE := 0];
        spare := d.base;
      } else {
        FreeTags(bufs, spare, tag, bank.held, b);
        tag := tag - Run(d.base, d.alloc / PAGE);
        GivePayload(d.base, d.alloc / PAGE);
      }
      bufs := bufs - {b};
    }

    /** A packet for a buffer with a reference to spare; 0 is failure. */
    method AddPkt(k: Pkt, answer: nat) returns (p: nat)
      requires ValidBut(k.buf) && PktOk(k, bufs) && Answer(bank.held, answer, 1)
      requires k.view || forall q :: q in pkts ==> pkts[q].buf != k.buf
      modifies this`pkts, bank, pktSlab
      ensures p == 0 ==> ValidBut(k.buf) && pkts == old(pkts)
      ensures p != 0 <==> old(HasObject(pktSlab.pages, bank.pageBytes, answer))
      ensures p != 0 ==> Valid() && p !in old(pkts) && pkts == old(pkts)[p := k]
      ensures p != 0 ==> AllOk(old(pkts), bufs) && Undisturbed(old(pkts), bufs, pkts, bufs, 0)
    {
      hide Bank.Valid, Listed, Banked, PayloadPages, TagsOk, LiveIs, AllOk, RefsOk, OneMoreLive, Undisturbed, BufOk,
        PktOk, Answer;
      p := NewObject(pktSlab, bufSlab, PKT_SIZE, answer);
      if p == 0 { return; }
      InBufs(k, bufs);
      LiveMore(pkts.Keys, old(pktSlab.pages), pktSlab.pages, p);
      AttachRefs(pkts, bufs, p, k);
      AttachOk(pkts, bufs, p, k);
      assert pkts[p := k].Keys == pkts.Keys + {p};
      pkts := pkts[p := k];
    }

    /** A packet of so many bytes can be had: its size is within the limit, and there is a
        buffer for it and, with what that costs, a packet object. */
    ghost predicate CanAlloc(bytes: nat, offer: Offer)
      reads this, bank, bufSlab, pktSlab
    {
      var cap := PagesFor(bytes) * PAGE;
      && bytes <= MAX_ALLOC && CanMake(cap, offer)
      && HasObject(pktSlab.pages, bank.pageBytes + PayloadCharge(cap) + Charge(bufSlab.pages), offer.pktPage)
    }

    /** netpkt_alloc; 0 is failure, and leaves packets, buffers and spare page alone. */
    method Alloc(dataCap: nat, headroom: nat, tailroom: nat, offer: Offer) returns (p: nat)
      requires Valid() && Fair(bank.held, offer, PagesFor(headroom + dataCap + tailroom))
      modifies this`pkts, this`bufs, this`spare, this`tag, bank, bufSlab, pktSlab
      ensures Valid()
      ensures p == 0 ==> pkts == old(pkts) && bufs == old(bufs) && spare == old(spare)
      ensures p != 0 <==> old(CanAlloc(headroom + dataCap + tailroom, offer))
      ensures p != 0 ==> Joined(old(pkts), old(bufs), pkts, bufs, p, []) && !pkts[p].view && pkts[p].refs == 1
      ensures p != 0 ==>
                pkts[p].head == headroom && headroom + dataCap + tailroom <= pkts[p].cap && bufs[pkts[p].buf].refs == 1
      ensures p != 0 ==> LeastPages(pkts[p].cap, headroom + dataCap + tailroom)
    {
      hide Bank.Valid, Listed, Banked, PayloadPages, TagsOk, LiveIs, AllOk, RefsOk, OneMoreLive, Undisturbed, BufOk,
        Answer, Fair, PagesFor, Room;
      var alloc := headroom + dataCap + tailroom;
      if alloc > MAX_ALLOC { return 0; }
      PagesForBounds(alloc);
      // The source tests this against the limit too, which is a whole number of pages.
      var cap := PagesFor(alloc) * PAGE;
      ghost var pkts0, bufs0 := pkts, bufs;
      var b, fromSpare := MakeBuf(cap, offer);
      if b == 0 { return 0; }
      NobodyUses(pkts, bufs, b);
      p := AddPkt(Pkt(b, 0, cap, headroom, 0, 1, false), offer.pktPage);
      if p == 0 {
        assert bufs - {b} == bufs0;
        UndoBuf(b, fromSpare);
        return;
      }
      InAllOk(pkts, bufs, b);
      AddBufOk(pkts0, bufs0, b, bufs[b]);
      UndisturbedTrans(pkts0, bufs0, pkts0, bufs, pkts, bufs, 0, 0, 0);
    }

    /** netpkt_wrap of memory with the given contents. */
    method Wrap(base: nat, alloc: nat, off: nat, len: nat, hasFree: bool, content: Bytes, offer: Offer) returns (p: nat)
      requires Valid() && Fair(bank.held, offer, 0) && |content| == alloc
      modifies this`pkts, this`bufs, bank, bufSlab, pktSlab
      ensures Valid()
      ensures p == 0 ==> pkts == old(pkts) && bufs == old(bufs)
      ensures p != 0 <==>
        && base != 0 && 0 < alloc <= MAX_ALLOC && off + len <= alloc
        && old(HasObject(bufSlab.pages, bank.pageBytes, offer.bufPage))
        && old(HasObject(pktSlab.pages, bank.pageBytes + Charge(bufSlab.pages), offer.pktPage))
      ensures p != 0 ==>
                off + len <= alloc <= MAX_ALLOC && Joined(old(pkts), old(bufs), pkts, bufs, p, content[off..off + len])
      ensures p != 0 ==>
                pkts[p].head == off && !pkts[p].view && bufs[pkts[p].buf] == Buf(base, alloc, 1, true, hasFree, content)
    {
      hide Bank.Valid, Listed, Banked, PayloadPages, TagsOk, LiveIs, AllOk, RefsOk, OneMoreLive, Undisturbed, Answer,
        Fair, Room;
      if base == 0 || alloc == 0 || alloc > MAX_ALLOC || off > alloc || len > alloc - off { return 0; }
      ghost var pkts0, bufs0 := pkts, bufs;
      FairParts(bank.held, offer, 0);
      ghost var h := bank.held;
      var b := NewObject(bufSlab, pktSlab, BUF_SIZE, offer.bufPage);
      if b == 0 { return 0; }
      FairLast(h, h, bank.held, offer, 0);
      LiveMore(bufs.Keys, old(bufSlab.pages), bufSlab.pages, b);
      var d := Buf(base, alloc, 1, true, hasFree, content);
      NewBufRefs(pkts, bufs, b, d);
      AddBufOk(pkts, bufs, b, d);
      ExternalTags(bufs, spare, tag, PayloadPages(bank.held), b, d);
      assert bufs[b := d].Keys == bufs.Keys + {b};
      bufs := bufs[b := d];
      NobodyUses(pkts, bufs, b);
      p := AddPkt(Pkt(b, 0, alloc, off, len, 1, false), offer.pktPage);
      if p == 0 {
        assert bufs - {b} == bufs0;
        UnmakeBuf(b);
        return;
      }
      UndisturbedTrans(pkts0, bufs0, pkts0, bufs, pkts, bufs, 0, 0, 0);
    }

    /** meta_slab_free of a wrapped buffer that was just made. */
    method UnmakeBuf(b: nat)
      requires ValidBut(b) && b in bufs && bufs[b].refs == 1 && bufs[b].external
      modifies this`bufs, bank, bufSlab
      ensures Valid() && bufs == old(bufs) - {b}
    {
      hide Bank.Valid, Listed, Banked, PayloadPages, TagsOk, LiveIs, AllOk, RefsOk, OneMoreLive, Undisturbed, IsLive;
      NoZero(pkts, bufs);
      LastRef(pkts, bufs, b);
      DropBufOk(pkts, bufs, b);
      IsAlive(bufs.Keys, bufSlab.pages, b);
      GoneTags(bufs, spare, tag, PayloadPages(bank.held), b);
      DropObject(bufSlab, pktSlab, b);
      LiveLess(bufs.Keys, old(bufSlab.pages), bufSlab.pages, b);
      assert (bufs - {b}).Keys == bufs.Keys - {b};
      bufs := bufs - {b};
    }

    /** netpkt_view: a packet that shows part of what its parent shows, in the same buffer. */
    method View(parent: nat, off: nat, len: nat, answer: nat) returns (v: nat)
      requires Valid() && parent in pkts && Answer(bank.held, answer, 1)
      modifies this`pkts, this`bufs, bank, pktSlab
      ensures Valid()
      ensures v == 0 ==> pkts == old(pkts) && bufs == old(bufs)
      ensures v != 0 <==> off + len <= old(pkts)[parent].len && old(HasObject(pktSlab.pages, bank.pageBytes, answer))
      ensures v != 0 ==>
                off + len <= old(pkts)[parent].len && Shared(old(pkts), old(bufs), pkts, bufs, parent, v, off, len)
    {
      hide Bank.Valid, Listed, Banked, PayloadPages, TagsOk, LiveIs, AllOk, RefsOk, OneMoreLive, Undisturbed, Answer,
        InBuf;
      var k := pkts[parent];
      PktIn(pkts, bufs, parent);
      if off + len > k.len { return 0; }
      var b := k.buf;
      // The source also tests the end against the buffer; a packet never reaches past it.
      var abs := k.off + k.head + off;
      v := NewObject(pktSlab, bufSlab, PKT_SIZE, answer);
      if v == 0 { return; }
      ghost var pkts0, bufs0 := pkts, bufs;
      NoZero(pkts, bufs);
      var d := bufs[b].(refs := bufs[b].refs + 1);
      MoreRefs(pkts, bufs, b);
      RefBufOk(pkts, bufs, b, d.refs);
      RefTags(bufs, spare, tag, PayloadPages(bank.held), b, d.refs);
      assert bufs[b := d].Keys == bufs.Keys;
      bufs := bufs[b := d];
      var w := Pkt(b, abs, len, 0, len, 1, true);
      LiveMore(pkts.Keys, old(pktSlab.pages), pktSlab.pages, v);
      AttachRefs(pkts, bufs, v, w);
      AttachOk(pkts, bufs, v, w);
      assert pkts[v := w].Keys == pkts.Keys + {v};
      pkts := pkts[v := w];
      UndisturbedTrans(pkts0, bufs0, pkts0, bufs, pkts, bufs, 0, 0, 0);
      ViewPart(k, bufs0, off, len);
      assert Show(w, bufs) == Show(w, bufs0);
    }

    /** netpkt_ref */
    method Ref(p: nat)
      requires Valid() && p in pkts
      modifies this`pkts
      ensures Valid() && pkts == old(pkts)[p := old(pkts)[p].(refs := old(pkts)[p].refs + 1)]
    {
      hide Bank.Valid, Listed, Banked, PayloadPages, TagsOk, LiveIs, AllOk, RefsOk;
      var k := pkts[p].(refs := pkts[p].refs + 1);
      PktIn(pkts, bufs, p);
      SameBufRefs(pkts, bufs, p, k);
      ChangeOk(pkts, bufs, p, k);
      assert pkts[p := k].Keys == pkts.Keys;
      pkts := pkts[p := k];
    }

    /** netpkt_unref. The last reference takes the packet away, and with the last packet
        of a buffer the buffer. */
    method Unref(p: nat)
      requires Valid() && p in pkts
      modifies this, bank, bufSlab, pktSlab
      ensures Valid() && AllOk(old(pkts), old(bufs)) && Undisturbed(old(pkts), old(bufs), pkts, bufs, p)
      ensures if old(pkts)[p].refs > 1
              then pkts == old(pkts)[p := old(pkts)[p].(refs := old(pkts)[p].refs - 1)] && bufs == old(bufs)
                  && callbacks == old(callbacks)
              else pkts == old(pkts) - {p}
      ensures old(pkts)[p].refs <= 1 ==> callbacks == old(callbacks) + FreeCall(old(bufs)[old(pkts)[p].buf])
    {
      hide Bank.Valid, Listed, Banked, PayloadPages, TagsOk, LiveIs, AllOk, RefsOk, OneMoreLive, Undisturbed, IsLive;
      var k := pkts[p];
      ghost var pkts0, bufs0 := pkts, bufs;
      PktIn(pkts, bufs, p);
      if k.refs > 1 {
        var j := k.(refs := k.refs - 1);
        SameBufRefs(pkts, bufs, p, j);
        ChangeOk(pkts, bufs, p, j);
        assert pkts[p := j].Keys == pkts.Keys;
        pkts := pkts[p := j];
        return;
      }
      IsAlive(pkts.Keys, pktSlab.pages, p);
      DropObject(pktSlab, bufSlab, p);
      LiveLess(pkts.Keys, old(pktSlab.pages), pktSlab.pages, p);
      DetachRefs(pkts, bufs, p);
      DropPktOk(pkts, bufs, p);
      NoZero(pkts, bufs);
      assert (pkts - {p}).Keys == pkts.Keys - {p};
      pkts := pkts - {p};
      ReleaseRef(k.buf);
      UndisturbedTrans(pkts0, bufs0, pkts, bufs0, pkts, bufs, p, p, 0);
    }

    /** memcpy into a buffer. */
    method Store(b: nat, from: nat, x: Bytes, ghost extra: nat)
      requires ValidBut(extra) && b in bufs && from + |x| <= bufs[b].alloc && |bufs[b].data| == bufs[b].alloc
      modifies this`bufs
      ensures ValidBut(extra) && bufs == old(bufs)[b := old(bufs)[b].(data := Stored(old(bufs)[b].data, from, x))]
    {
      hide Bank.Valid, Listed, Banked, PayloadPages, TagsOk, LiveIs, AllOk, RefsOk, InBuf, Stored;
      var d := bufs[b].(data := Stored(bufs[b].data, from, x));
      NoZero(pkts, bufs);
      DataRefs(pkts, bufs, b, d, extra);
      DataOk(pkts, bufs, b, d.data);
      DataTags(bufs, spare, tag, PayloadPages(bank.held), b, d.data);
      assert bufs[b := d].Keys == bufs.Keys;
      bufs := bufs[b := d];
    }

    /** There is another buffer of so many bytes. */
    ghost predicate CanMove(bytes: nat, offer: Offer)
      reads this, bank, bufSlab
    {
      bytes <= MAX_ALLOC && CanMake(PagesFor(bytes) * PAGE, offer)
    }

    /** Packet k can have its own buffer: it has it and there is room, or there is another
        with room. A view never can. */
    ghost predicate CanOwn(k: Pkt, roomy: bool, bytes: nat, offer: Offer)
      reads this, bank, bufSlab
    {
      !k.view && ((roomy && k.buf in bufs && bufs[k.buf].refs == 1) || CanMove(bytes, offer))
    }

    /** netpkt_realloc_to: the packet moves to a buffer of its own, with new head room. */
    method Realloc(p: nat, newHead: nat, newAlloc: nat, offer: Offer) returns (ok: bool)
      requires Valid() && p in pkts && Fair(bank.held, offer, PagesFor(newAlloc))
      modifies this, bank, bufSlab
      ensures Valid()
      ensures !ok ==> pkts == old(pkts) && bufs == old(bufs) && spare == old(spare)
      ensures ok <==> !old(pkts)[p].view && newHead + old(pkts)[p].len <= newAlloc && old(CanMove(newAlloc, offer))
      ensures ok ==> Moved(old(pkts), old(bufs), pkts, bufs, p) && pkts[p].head == newHead && newAlloc <= pkts[p].cap
      ensures ok ==> LeastPages(pkts[p].cap, newAlloc)
      ensures callbacks == old(callbacks) + if ok then FreeCall(old(bufs)[old(pkts)[p].buf]) else []
    {
      hide Bank.Valid, Listed, Banked, PayloadPages, TagsOk, LiveIs, AllOk, RefsOk, OneMoreLive, Undisturbed, Answer,
        Fair, PagesFor;
      var k := pkts[p];
      PktIn(pkts, bufs, p);
      if k.view { return false; }
      if newAlloc < newHead + k.len { return false; }
      PagesForBounds(newAlloc);
      var cap := PagesFor(newAlloc) * PAGE;
      if cap > MAX_ALLOC { return false; }
      ghost var pkts0, bufs0 := pkts, bufs;
      var b, fromSpare := MakeBuf(cap, offer);
      if b == 0 { return false; }
      InAllOk(pkts, bufs, b);
      AddBufOk(pkts0, bufs0, b, bufs[b]);
      ghost var bufs1 := bufs;
      MoveTo(p, b, newHead);
      UndisturbedTrans(pkts0, bufs0, pkts0, bufs1, pkts, bufs, p, 0, p);
      return true;
    }

    /** The copy into a new buffer b and the change of buffers. */
    method MoveTo(p: nat, b: nat, newHead: nat)
      requires ValidBut(b) && b in bufs && bufs[b].refs == 1 && p in pkts && !pkts[p].view
      requires newHead + pkts[p].len <= bufs[b].alloc
      modifies this`pkts, this`bufs, this`spare, this`tag, this`callbacks, bank, bufSlab
      ensures Valid() && b in bufs && bufs[b].refs == 1 && AllOk(old(pkts), old(bufs))
      ensures pkts == old(pkts)[p := old(pkts)[p].(buf := b, off := 0, cap := old(bufs)[b].alloc, head := newHead)]
      ensures Show(pkts[p], bufs) == Show(old(pkts)[p], old(bufs)) && Undisturbed(old(pkts), old(bufs), pkts, bufs, p)
      ensures old(pkts)[p].buf in old(bufs) && callbacks == old(callbacks) + FreeCall(old(bufs)[old(pkts)[p].buf])
    {
      hide Bank.Valid, Listed, Banked, PayloadPages, TagsOk, LiveIs, AllOk, RefsOk, Undisturbed;
      var k := pkts[p];
      ghost var pkts0, bufs1 := pkts, bufs;
      PktIn(pkts, bufs, p);
      InAllOk(pkts, bufs, b);
      NobodyUses(pkts, bufs, b);
      NoZero(pkts, bufs);
      var from := k.off + k.head;
      Store(b, newHead, bufs[k.buf].data[from..from + k.len], b);
      WriteOk(pkts0, bufs1, b, p, bufs[b].data);
      var j := k.(buf := b, off := 0, cap := bufs[b].alloc, head := newHead);
      RepointRefs(pkts, bufs, p, j);
      ChangeOk(pkts, bufs, p, j);
      assert pkts[p := j].Keys == pkts.Keys;
      pkts := pkts[p := j];
      ghost var bufs2 := bufs;
      UndisturbedTrans(pkts0, bufs1, pkts0, bufs2, pkts, bufs2, p, p, p);
      ReleaseRef(k.buf);
      UndisturbedTrans(pkts0, bufs1, pkts, bufs2, pkts, bufs, p, p, 0);
      PktIn(pkts, bufs, p);
    }

    /** netpkt_ensure_headroom */
    method EnsureHeadroom(p: nat, need: nat, offer: Offer) returns (ok: bool)
      requires Valid() && p in pkts && Fair(bank.held, offer, PagesFor(HeadRequest(pkts[p], need)))
      modifies this, bank, bufSlab
      ensures Valid()
      ensures !ok ==> pkts == old(pkts) && bufs == old(bufs) && spare == old(spare)
      ensures ok <==> need <= MAX_ALLOC && old(CanOwn(pkts[p], pkts[p].head >= need, HeadRequest(pkts[p], need), offer))
      ensures ok ==> Owns(old(pkts), old(bufs), pkts, bufs, p) && pkts[p].head >= need
      ensures ok ==> RoomIs(old(pkts)[p], old(bufs), pkts[p], bufs, old(pkts)[p].head >= need)
      ensures ok ==> pkts[p].head == if old(pkts)[p].head >= need then old(pkts)[p].head else need
    {
      hide Bank.Valid, Listed, Banked, PayloadPages, TagsOk, LiveIs, AllOk, RefsOk, Undisturbed, Fair, PagesFor,
        CanMake;
      var k := pkts[p];
      PktIn(pkts, bufs, p);
      UndisturbedSelf(pkts, bufs, p);
      if k.view || need > MAX_ALLOC { return false; }
      if k.head >= need {
        if bufs[k.buf].refs == 1 { return true; }
        ok := Realloc(p, k.head, k.cap, offer);
        return;
      }
      var tail := k.cap - (k.head + k.len);
      var alloc, min := need + k.len + tail, k.cap + (need - k.head);
      alloc := if alloc < min then min else alloc;
      if alloc > MAX_ALLOC { return false; }
      ok := Realloc(p, need, alloc, offer);
    }

    /** netpkt_ensure_tailroom */
    method EnsureTailroom(p: nat, need: nat, offer: Offer) returns (ok: bool)
      requires Valid() && p in pkts && Fair(bank.held, offer, PagesFor(TailRequest(pkts[p], need)))
      modifies this, bank, bufSlab
      ensures Valid()
      ensures !ok ==> pkts == old(pkts) && bufs == old(bufs) && spare == old(spare)
      ensures ok <==>
        && need <= MAX_ALLOC
        && old(CanOwn(pkts[p], pkts[p].head + pkts[p].len + need <= pkts[p].cap, TailRequest(pkts[p], need), offer))
      ensures ok ==> Owns(old(pkts), old(bufs), pkts, bufs, p) && pkts[p].head + pkts[p].len + need <= pkts[p].cap
      ensures ok ==>
                var k := old(pkts)[p]; RoomIs(k, old(bufs), pkts[p], bufs, k.head + k.len + need <= k.cap)
      ensures ok ==> pkts[p].head == old(pkts)[p].head
    {
      hide Bank.Valid, Listed, Banked, PayloadPages, TagsOk, LiveIs, AllOk, RefsOk, Undisturbed, Fair, PagesFor,
        CanMake;
      var k := pkts[p];
      PktIn(pkts, bufs, p);
      UndisturbedSelf(pkts, bufs, p);
      if k.view || need > MAX_ALLOC { return false; }
      var tail := k.cap - (k.head + k.len);
      if tail >= need {
        if bufs[k.buf].refs == 1 { return true; }
        ok := Realloc(p, k.head, k.cap, offer);
        return;
      }
      var alloc, min := k.head + k.len + need, k.cap + (need - tail);
      alloc := if alloc < min then min else alloc;
      if alloc > MAX_ALLOC { return false; }
      ok := Realloc(p, k.head, alloc, offer);
    }

    /** netpkt_push: bytes in front of the packet, whatever they are, in a buffer that is
        its own. */
    method Push(p: nat, bytes: nat, offer: Offer) returns (ok: bool)
      requires Valid() && p in pkts && Fair(bank.held, offer, PagesFor(HeadRequest(pkts[p], bytes)))
      modifies this, bank, bufSlab
      ensures Valid()
      ensures !ok ==> pkts == old(pkts) && bufs == old(bufs) && spare == old(spare)
      ensures ok <==>
        || bytes == 0
        || (bytes <= MAX_ALLOC && old(CanOwn(pkts[p], pkts[p].head >= bytes, HeadRequest(pkts[p], bytes), offer)))
      ensures ok && bytes == 0 ==> pkts == old(pkts) && bufs == old(bufs)
      ensures ok && bytes > 0 ==> Grew(old(pkts), old(bufs), pkts, bufs, p, bytes, 0)
    {
      hide Bank.Valid, Listed, Banked, PayloadPages, TagsOk, LiveIs, AllOk, RefsOk, Undisturbed, Fair, PagesFor,
        CanMake;
      if pkts[p].view && bytes > 0 { return false; }
      if bytes == 0 { return true; }
      ghost var pkts0, bufs0 := pkts, bufs;
      ok := EnsureHeadroom(p, bytes, offer);
      if !ok { return; }
      PktIn(pkts, bufs, p);
      ghost var pkts1 := pkts;
      var k := pkts[p].(head := pkts[p].head - bytes, len := pkts[p].len + bytes);
      Change(p, k);
      UndisturbedTrans(pkts0, bufs0, pkts1, bufs, pkts, bufs, p, p, p);
    }

    /** netpkt_put: bytes behind it. */
    method Put(p: nat, bytes: nat, offer: Offer) returns (ok: bool)
      requires Valid() && p in pkts && Fair(bank.held, offer, PagesFor(TailRequest(pkts[p], bytes)))
      modifies this, bank, bufSlab
      ensures Valid()
      ensures !ok ==> pkts == old(pkts) && bufs == old(bufs) && spare == old(spare)
      ensures ok <==> bytes == 0 || (bytes <= MAX_ALLOC
                      && old(CanOwn(pkts[p], pkts[p].head + pkts[p].len + bytes <= pkts[p].cap,
                                    TailRequest(pkts[p], bytes), offer)))
      ensures ok && bytes == 0 ==> pkts == old(pkts) && bufs == old(bufs)
      ensures ok && bytes > 0 ==> Grew(old(pkts), old(bufs), pkts, bufs, p, 0, bytes)
    {
      hide Bank.Valid, Listed, Banked, PayloadPages, TagsOk, LiveIs, AllOk, RefsOk, Undisturbed, Fair, PagesFor,
        CanMake;
      if pkts[p].view && bytes > 0 { return false; }
      if bytes == 0 { return true; }
      ghost var pkts0, bufs0 := pkts, bufs;
      ok := EnsureTailroom(p, bytes, offer);
      if !ok { return; }
      PktIn(pkts, bufs, p);
      ghost var pkts1 := pkts;
      var k := pkts[p].(len := pkts[p].len + bytes);
      Change(p, k);
      UndisturbedTrans(pkts0, bufs0, pkts1, bufs, pkts, bufs, p, p, p);
    }

    /** What callers do with a push: write a header into the new bytes. */
    method Prepend(p: nat, x: Bytes, offer: Offer) returns (ok: bool)
      requires Valid() && p in pkts && Fair(bank.held, offer, PagesFor(HeadRequest(pkts[p], |x|)))
      modifies this, bank, bufSlab
      ensures Valid()
      ensures !ok ==> pkts == old(pkts) && bufs == old(bufs) && spare == old(spare)
      ensures ok <==>
        || |x| == 0
        || (|x| <= MAX_ALLOC && old(CanOwn(pkts[p], pkts[p].head >= |x|, HeadRequest(pkts[p], |x|), offer)))
      ensures ok ==> Became(old(pkts), old(bufs), pkts, bufs, p, x, [])
    {
      hide Bank.Valid, Listed, Banked, PayloadPages, TagsOk, LiveIs, AllOk, RefsOk, Undisturbed, Fair, PagesFor, Stored;
      ghost var pkts0, bufs0 := pkts, bufs;
      UndisturbedSelf(pkts, bufs, p);
      PktIn(pkts, bufs, p);
      ok := Push(p, |x|, offer);
      PktIn(pkts, bufs, p);
      if !ok || |x| == 0 { return; }
      ghost var bufs1 := bufs;
      Fill(p, 0, x);
      FrontFilled(Show(pkts[p], bufs1), x, Show(pkts0[p], bufs0));
      UndisturbedTrans(pkts0, bufs0, pkts, bufs1, pkts, bufs, p, p, p);
    }

    /** And with a put: append data. */
    method Append(p: nat, x: Bytes, offer: Offer) returns (ok: bool)
      requires Valid() && p in pkts && Fair(bank.held, offer, PagesFor(TailRequest(pkts[p], |x|)))
      modifies this, bank, bufSlab
      ensures Valid()
      ensures !ok ==> pkts == old(pkts) && bufs == old(bufs) && spare == old(spare)
      ensures ok <==> |x| == 0 || (|x| <= MAX_ALLOC
                      && old(CanOwn(pkts[p], pkts[p].head + pkts[p].len + |x| <= pkts[p].cap,
                                    TailRequest(pkts[p], |x|), offer)))
      ensures ok ==> Became(old(pkts), old(bufs), pkts, bufs, p, [], x)
    {
      hide Bank.Valid, Listed, Banked, PayloadPages, TagsOk, LiveIs, AllOk, RefsOk, Undisturbed, Fair, PagesFor, Stored;
      ghost var pkts0, bufs0 := pkts, bufs;
      UndisturbedSelf(pkts, bufs, p);
      PktIn(pkts, bufs, p);
      ok := Put(p, |x|, offer);
      PktIn(pkts, bufs, p);
      if !ok || |x| == 0 { return; }
      ghost var bufs1 := bufs;
      Fill(p, pkts[p].len - |x|, x);
      assert Show(pkts[p], bufs1)[0..0 + pkts0[p].len] == Show(pkts0[p], bufs0);
      BackFilled(Show(pkts[p], bufs1), x, Show(pkts0[p], bufs0));
      UndisturbedTrans(pkts0, bufs0, pkts, bufs1, pkts, bufs, p, p, p);
    }

    /** Writing into what a packet shows, when its buffer is its own. */
    method Fill(p: nat, at: nat, x: Bytes)
      requires Valid() && p in pkts && pkts[p].buf in bufs && bufs[pkts[p].buf].refs == 1 && at + |x| <= pkts[p].len
      modifies this`bufs
      ensures Valid() && Filled(pkts, old(bufs), bufs, p, at, x)
    {
      hide Bank.Valid, Listed, Banked, PayloadPages, TagsOk, LiveIs, AllOk, RefsOk, Undisturbed, Stored;
      var k := pkts[p];
      PktIn(pkts, bufs, p);
      SoleUser(pkts, bufs, p);
      ShowStored(k, bufs, x, at);
      Store(k.buf, k.off + k.head + at, x, 0);
      WriteOk(pkts, old(bufs), k.buf, p, bufs[k.buf].data);
    }

    /** A packet changes its bounds within its buffer. */
    method Change(p: nat, k: Pkt)
      requires Valid() && p in pkts && PktOk(k, bufs) && k.view == pkts[p].view && k.buf == pkts[p].buf
      modifies this`pkts
      ensures Valid() && pkts == old(pkts)[p := k] && AllOk(old(pkts), bufs)
      ensures Undisturbed(old(pkts), bufs, pkts, bufs, p)
    {
      hide Bank.Valid, Listed, Banked, PayloadPages, TagsOk, LiveIs, AllOk, RefsOk, Undisturbed, PktOk;
      SameBufRefs(pkts, bufs, p, k);
      ChangeOk(pkts, bufs, p, k);
      assert pkts[p := k].Keys == pkts.Keys;
      pkts := pkts[p := k];
    }

    function Counts(): Counters
      reads bank
    {
      Counters(bank.pageBytes, bank.payloadBytes, bank.metaBytes)
    }

    /** What both netpkt_pull and netpkt_trim end with: whole pages behind the packet go
        back, if the buffer is its own. */
    method Shrink(p: nat)
      requires Valid() && p in pkts
      modifies this`pkts, this`bufs, this`tag, bank
      ensures Valid() && AllOk(old(pkts), old(bufs)) && Undisturbed(old(pkts), old(bufs), pkts, bufs, p)
      ensures p in pkts && Show(pkts[p], bufs) == Show(old(pkts)[p], old(bufs))
      ensures pkts == old(pkts)[p := old(pkts)[p].(cap := pkts[p].cap)] && bufs.Keys == old(bufs).Keys
      ensures Shrunk(old(pkts)[p], old(bufs), old(Counts()), pkts[p], bufs, Counts())
    {
      hide Bank.Valid, Listed, Banked, PayloadPages, TagsOk, LiveIs, AllOk, RefsOk, Undisturbed, Holds, Run, PagesFor,
        InBuf;
      var k := pkts[p];
      PktIn(pkts, bufs, p);
      UndisturbedSelf(pkts, bufs, p);
      if k.view { return; }
      var d := bufs[k.buf];
      if d.external || d.refs != 1 || k.cap <= PAGE { return; }
      var need := k.head + k.len;
      PagesForBounds(need);
      var newCap := PagesFor(need) * PAGE;
      LeastBelow(newCap, need, k.cap);
      if newCap >= k.cap { return; }
      NoZero(pkts, bufs);
      SoleUser(pkts, bufs, p);
      ShrinkOk(pkts, bufs, p, k, newCap);
      ShrinkTags(bufs, spare, tag, bank.held, k.buf, newCap);
      var d' := d.(alloc := newCap, data := d.data[..newCap]);
      var j := k.(cap := newCap);
      DataRefs(pkts, bufs, k.buf, d', 0);
      SameBufRefs(pkts, bufs[k.buf := d'], p, j);
      assert pkts[p := j].Keys == pkts.Keys && bufs[k.buf := d'].Keys == bufs.Keys;
      GivePayload(d.base + newCap, (d.alloc - newCap) / PAGE);
      tag := tag - Run(d.base + newCap, (d.alloc - newCap) / PAGE);
      bufs := bufs[k.buf := d'];
      pkts := pkts[p := j];
    }

    /** netpkt_pull */
    method Pull(p: nat, bytes: nat) returns (ok: bool)
      requires Valid() && p in pkts
      modifies this`pkts, this`bufs, this`tag, bank
      ensures Valid() && (ok <==> bytes <= old(pkts)[p].len)
      ensures !ok ==> pkts == old(pkts) && bufs == old(bufs) && Counts() == old(Counts())
      ensures ok ==> Cut(old(pkts), old(bufs), pkts, bufs, p, bytes, old(pkts)[p].len)
      ensures ok ==>
                var k := old(pkts)[p];
                Shrunk(k.(head := k.head + bytes, len := k.len - bytes), old(bufs), old(Counts()), pkts[p], bufs,
                       Counts())
    {
      hide Bank.Valid, Listed, Banked, PayloadPages, TagsOk, LiveIs, AllOk, RefsOk, Undisturbed;
      var k := pkts[p];
      PktIn(pkts, bufs, p);
      if bytes > k.len { return false; }
      ghost var pkts0, bufs0 := pkts, bufs;
      Change(p, k.(head := k.head + bytes, len := k.len - bytes));
      ghost var pkts1 := pkts;
      Shrink(p);
      UndisturbedTrans(pkts0, bufs0, pkts1, bufs0, pkts, bufs, p, p, p);
      ShowPart(k, bufs0, bytes, k.len);
      return true;
    }

    /** netpkt_trim */
    method Trim(p: nat, newLen: nat) returns (ok: bool)
      requires Valid() && p in pkts
      modifies this`pkts, this`bufs, this`tag, bank
      ensures Valid() && (ok <==> newLen <= old(pkts)[p].len)
      ensures !ok ==> pkts == old(pkts) && bufs == old(bufs) && Counts() == old(Counts())
      ensures ok ==> Cut(old(pkts), old(bufs), pkts, bufs, p, 0, newLen)
      ensures ok ==>
                Shrunk(old(pkts)[p].(len := newLen), old(bufs), old(Counts()), pkts[p], bufs, Counts())
    {
      hide Bank.Valid, Listed, Banked, PayloadPages, TagsOk, LiveIs, AllOk, RefsOk, Undisturbed;
      var k := pkts[p];
      PktIn(pkts, bufs, p);
      if newLen > k.len { return false; }
      ghost var pkts0, bufs0 := pkts, bufs;
      Change(p, k.(len := newLen));
      ghost var pkts1 := pkts;
      Shrink(p);
      UndisturbedTrans(pkts0, bufs0, pkts1, bufs0, pkts, bufs, p, p, p);
      ShowPart(k, bufs0, 0, newLen);
      return true;
    }
  }

  lemma MetaCount(held: map<nat, Use>, bufPages: set<nat>, pktPages: set<nat>, id: bool)
    requires Banked(bufPages, held, id) && Banked(pktPages, held, !id)
    ensures |MetaPages(held)| == |bufPages| + |pktPages|
    ensures |held.Keys| == |MetaPages(held)| + |PayloadPages(held)|
  {
    BankedCount(bufPages, held, id);
    BankedCount(pktPages, held, !id);
    assert MetaPages(held) == PagesOf(held, id) + PagesOf(held, !id) && PagesOf(held, id) !! PagesOf(held, !id);
    assert held.Keys == MetaPages(held) + PayloadPages(held) && MetaPages(held) !! PayloadPages(held);
  }

  lemma UndisturbedSelf(pkts: Pkts, bufs: Bufs, p: nat)
    requires AllOk(pkts, bufs)
    ensures Undisturbed(pkts, bufs, pkts, bufs, p)
  {
  }

  function HeadRequest(k: Pkt, need: nat): nat { if k.head >= need then k.cap else k.cap + need - k.head }

  function TailRequest(k: Pkt, need: nat): nat {
    if k.cap >= k.head + k.len + need then k.cap else k.head + k.len + need
  }

  /** Packet p shows what it did from a buffer that is its own. */
  ghost predicate Owns(pkts0: Pkts, bufs0: Bufs, pkts: Pkts, bufs: Bufs, p: nat) {
    && AllOk(pkts0, bufs0) && AllOk(pkts, bufs) && p in pkts0 && p in pkts && pkts == pkts0[p := pkts[p]]
    && !pkts[p].view && pkts[p].len == pkts0[p].len && pkts[p].buf in bufs && bufs[pkts[p].buf].refs == 1
    && Show(pkts[p], bufs) == Show(pkts0[p], bufs0) && Undisturbed(pkts0, bufs0, pkts, bufs, p)
  }

  /** Packet p shows so many more bytes in front of and behind what it showed, from a
      buffer that is its own. */
  ghost predicate Grew(pkts0: Pkts, bufs0: Bufs, pkts: Pkts, bufs: Bufs, p: nat, front: nat, back: nat) {
    && AllOk(pkts0, bufs0) && AllOk(pkts, bufs) && p in pkts0 && p in pkts && pkts == pkts0[p := pkts[p]]
    && pkts[p].len == front + pkts0[p].len + back
    && Show(pkts[p], bufs)[front..front + pkts0[p].len] == Show(pkts0[p], bufs0)
    && pkts[p].buf in bufs && bufs[pkts[p].buf].refs == 1 && Undisturbed(pkts0, bufs0, pkts, bufs, p)
  }

  /** Packet p shows front, what it showed, and back. */
  ghost predicate Became(pkts0: Pkts, bufs0: Bufs, pkts: Pkts, bufs: Bufs, p: nat, front: Bytes, back: Bytes) {
    && AllOk(pkts0, bufs0) && AllOk(pkts, bufs) && p in pkts0 && p in pkts
    && Show(pkts[p], bufs) == front + Show(pkts0[p], bufs0) + back && Undisturbed(pkts0, bufs0, pkts, bufs, p)
  }

  /** Packet p shows x at the given place, and otherwise what it showed. */
  ghost predicate Filled(pkts: Pkts, bufs0: Bufs, bufs: Bufs, p: nat, at: nat, x: Bytes) {
    && AllOk(pkts, bufs0) && AllOk(pkts, bufs) && p in pkts && at + |x| <= pkts[p].len
    && (var was := Show(pkts[p], bufs0); Show(pkts[p], bufs) == was[..at] + x + was[at + |x|..])
    && Undisturbed(pkts, bufs0, pkts, bufs, p)
  }

  lemma ShowStored(k: Pkt, bufs: Bufs, x: Bytes, at: nat)
    requires PktOk(k, bufs) && BufOk(bufs[k.buf]) && at + |x| <= k.len
    ensures var d := bufs[k.buf];
            var bufs' := bufs[k.buf := d.(data := Stored(d.data, k.off + k.head + at, x))];
            Show(k, bufs') == Show(k, bufs)[..at] + x + Show(k, bufs)[at + |x|..]
  {
    StoredSlice(bufs[k.buf].data, k.off + k.head, k.len, at, x);
  }

  /** A packet with narrower bounds shows part of what it showed. */
  lemma ShowPart(k: Pkt, bufs: Bufs, from: nat, to: nat)
    requires PktOk(k, bufs) && BufOk(bufs[k.buf]) && from <= to <= k.len
    ensures var j := k.(head := k.head + from, len := to - from);
              PktOk(j, bufs) && Show(j, bufs) == Show(k, bufs)[from..to]
  {
    SliceSlice(bufs[k.buf].data, k.off + k.head, k.len, from, to);
  }

  lemma ViewPart(k: Pkt, bufs: Bufs, off: nat, len: nat)
    requires PktOk(k, bufs) && BufOk(bufs[k.buf]) && off + len <= k.len
    ensures var w := Pkt(k.buf, k.off + k.head + off, len, 0, len, 1, true);
              PktOk(w, bufs) && Show(w, bufs) == Show(k, bufs)[off..off + len]
  {
    SliceSlice(bufs[k.buf].data, k.off + k.head, k.len, off, off + len);
  }

  lemma SliceSlice(data: Bytes, base: nat, len: nat, from: nat, to: nat)
    requires base + len <= |data| && from <= to <= len
    ensures data[base + from..base + to] == data[base..base + len][from..to]
  {
    var s, t := data[base + from..base + to], data[base..base + len][from..to];
    assert |s| == |t|;
    forall i | 0 <= i < |s|
      ensures s[i] == t[i]
    {
      assert t[i] == data[base..base + len][from + i] == data[base + from + i];
    }
  }

  lemma FrontFilled(was: Bytes, x: Bytes, s: Bytes)
    requires |was| == |x| + |s| && was[|x|..|x| + |s|] == s
    ensures was[..0] + x + was[|x|..] == x + s + []
  {
    assert was[|x|..] == s && was[..0] == [];
  }

  lemma BackFilled(was: Bytes, x: Bytes, s: Bytes)
    requires |was| == |s| + |x| && was[..|s|] == s
    ensures was[..|s|] + x + was[|s| + |x|..] == [] + s + x
  {
    assert was[|s| + |x|..] == [];
  }

  lemma StoredSlice(data: Bytes, from: nat, len: nat, at: nat, x: Bytes)
    requires at + |x| <= len && from + len <= |data|
    ensures |Stored(data, from + at, x)| == |data|
    ensures Stored(data, from + at, x)[from..from + len] == data[from..from + len][..at] + x
        + data[from..from + len][at + |x|..]
  {
    var s, was := Stored(data, from + at, x), data[from..from + len];
    var t := was[..at] + x + was[at + |x|..];
    assert |s| == |data| && |t| == len;
    forall i | 0 <= i < len ensures s[from..from + len][i] == t[i] {
      assert s[from..from + len][i] == s[from + i] && was[i] == data[from + i];
      if i >= at + |x| { assert t[i] == was[at + |x|..][i - at - |x|]; }
    }
  }

  /** The three byte counters. */
  datatype Counters = Counters(total: nat, payload: nat, meta: nat)

  /** So many bytes are the least whole pages, at least one, that hold need bytes. */
  predicate LeastPages(cap: nat, need: nat) {
    cap % 4096 == 0 && cap >= 4096 && cap >= need && (cap > 4096 ==> cap - 4096 < need)
  }

  lemma LeastBelow(least: nat, need: nat, cap: nat)
    requires LeastPages(least, need) && cap % 4096 == 0
    ensures least < cap <==> cap > 4096 && need + 4096 <= cap
    ensures least <= cap ==> (cap - least) % 4096 == 0 && (cap - least) / 4096 * 4096 == cap - least
  {
    var a, b := least / 4096, cap / 4096;
    assert least == a * 4096 && cap == b * 4096;
  }

  /** A packet that has room and its buffer for itself stays as it is; any other has got
      another buffer, with no less room behind it. */
  ghost predicate RoomIs(k: Pkt, bufs0: Bufs, k': Pkt, bufs: Bufs, roomy: bool) {
    if roomy && k.buf in bufs0 && bufs0[k.buf].refs == 1 then k' == k && bufs == bufs0
    else k'.buf !in bufs0 && k'.cap + k.head >= k.cap + k'.head
  }

  /** A page or more lies unused behind a packet that is alone in its own buffer. */
  predicate Slack(k: Pkt, bufs: Bufs) {
    && !k.view && k.buf in bufs && !bufs[k.buf].external && bufs[k.buf].refs == 1
    && k.cap > 4096 && k.head + k.len + 4096 <= k.cap
  }

  /** Exactly then buffer and packet keep the least whole pages that hold the packet, and
      the counters fall by what goes back; otherwise all is as before. */
  ghost predicate Shrunk(k: Pkt, bufs0: Bufs, c0: Counters, k': Pkt, bufs: Bufs, c: Counters) {
    if Slack(k, bufs0) then
      && LeastPages(k'.cap, k.head + k.len) && k'.cap <= |bufs0[k.buf].data| && k'.cap <= k.cap
      && k' == k.(cap := k'.cap)
      && bufs == bufs0[k.buf := bufs0[k.buf].(alloc := k'.cap, data := bufs0[k.buf].data[..k'.cap])]
      && c0.total == c.total + (k.cap - k'.cap) && c0.payload == c.payload + (k.cap - k'.cap) && c.meta == c0.meta
    else k' == k && bufs == bufs0 && c == c0
  }

  /** Packet p shows the part [from, to) of what it showed. */
  ghost predicate Cut(pkts0: Pkts, bufs0: Bufs, pkts: Pkts, bufs: Bufs, p: nat, from: nat, to: nat) {
    && AllOk(pkts0, bufs0) && AllOk(pkts, bufs) && p in pkts0 && p in pkts && from <= to <= pkts0[p].len
    && Show(pkts[p], bufs) == Show(pkts0[p], bufs0)[from..to] && Undisturbed(pkts0, bufs0, pkts, bufs, p)
    && pkts.Keys == pkts0.Keys && bufs.Keys == bufs0.Keys
  }

  lemma DataOk(pkts: Pkts, bufs: Bufs, b: nat, data: Bytes)
    requires AllOk(pkts, bufs) && b in bufs && |data| == |bufs[b].data|
    ensures AllOk(pkts, bufs[b := bufs[b].(data := data)])
  {
  }

  lemma DataTags(bufs: Bufs, spare: nat, tag: map<nat, nat>, pages: set<nat>, b: nat, data: Bytes)
    requires TagsOk(bufs, spare, tag, pages) && b in bufs && b != 0
    ensures TagsOk(bufs[b := bufs[b].(data := data)], spare, tag, pages)
  {
    SamePlaceTags(bufs, spare, tag, pages, b, bufs[b].(data := data));
  }

  /** Packet p shows what it did, but from a new buffer that is its own. */
  ghost predicate Moved(pkts0: Pkts, bufs0: Bufs, pkts: Pkts, bufs: Bufs, p: nat) {
    && AllOk(pkts0, bufs0) && AllOk(pkts, bufs) && p in pkts0 && p in pkts && !pkts0[p].view
    && pkts == pkts0[p := pkts0[p].(buf := pkts[p].buf, off := 0, cap := pkts[p].cap, head := pkts[p].head)]
    && pkts[p].buf in bufs && pkts[p].buf !in bufs0 && bufs[pkts[p].buf].refs == 1
    && Show(pkts[p], bufs) == Show(pkts0[p], bufs0) && Undisturbed(pkts0, bufs0, pkts, bufs, p)
  }

  lemma PktIn(pkts: Pkts, bufs: Bufs, p: nat)
    requires AllOk(pkts, bufs) && p in pkts
    ensures PktOk(pkts[p], bufs) && BufOk(bufs[pkts[p].buf])
  {
  }

  /** View v shows part of its parent, whose buffer has one more reference. */
  ghost predicate Shared(pkts0: Pkts, bufs0: Bufs, pkts: Pkts, bufs: Bufs, parent: nat, v: nat, off: nat, len: nat) {
    && AllOk(pkts0, bufs0) && parent in pkts0 && off + len <= pkts0[parent].len
    && Joined(pkts0, bufs0, pkts, bufs, v, Show(pkts0[parent], bufs0)[off..off + len])
    && pkts[v].view && pkts[v].buf == pkts0[parent].buf && pkts[v].cap == pkts[v].len && pkts[v].refs == 1
  }

  /** count_pages(n ? n : 1, PAGE_SIZE) */
  function PagesFor(n: nat): nat { PageBitmap.CountPages(if n == 0 then 1 else n, PAGE) }

  lemma PagesForBounds(n: nat)
    ensures n <= PagesFor(n) * PAGE <= n + PAGE && PagesFor(n) > 0 && LeastPages(PagesFor(n) * PAGE, n)
    ensures n <= MAX_ALLOC ==> PagesFor(n) * PAGE <= MAX_ALLOC
  {
  }

  /** Packet p is new and shows x; nothing else has changed for any packet. */
  ghost predicate Joined(pkts0: Pkts, bufs0: Bufs, pkts: Pkts, bufs: Bufs, p: nat, x: Bytes) {
    && p !in pkts0 && p in pkts && pkts == pkts0[p := pkts[p]]
    && AllOk(pkts0, bufs0) && AllOk(pkts, bufs) && Undisturbed(pkts0, bufs0, pkts, bufs, 0)
    && Show(pkts[p], bufs) == x && pkts[p].buf in bufs
  }

  lemma InBufs(k: Pkt, bufs: Bufs)
    requires PktOk(k, bufs)
    ensures k.buf in bufs
  {
  }

  /** The call a buffer's last reference makes when it goes. */
  function FreeCall(d: Buf): seq<(nat, nat)> {
    if d.refs <= 1 && d.external && d.hasFree then [(d.base, d.alloc)] else []
  }

  lemma EmptyRun(base: nat, pages: set<nat>)
    ensures Run(base, 0) == {} && pages - Run(base, 0) == pages
  {
  }

  lemma ExtraIn(pkts: Pkts, bufs: Bufs, b: nat)
    requires RefsOk(pkts, bufs, b) && b != 0
    ensures b in bufs
  {
  }

  lemma InAllOk(pkts: Pkts, bufs: Bufs, b: nat)
    requires AllOk(pkts, bufs) && b in bufs
    ensures BufOk(bufs[b])
  {
  }

  lemma IsAlive(keys: set<nat>, pages: SlabPages, obj: nat)
    requires LiveIs(keys, pages) && obj in keys
    ensures IsLive(pages, obj)
  {
  }

  lemma RefTags(bufs: Bufs, spare: nat, tag: map<nat, nat>, pages: set<nat>, b: nat, refs: nat)
    requires TagsOk(bufs, spare, tag, pages) && b in bufs && b != 0
    ensures TagsOk(bufs[b := bufs[b].(refs := refs)], spare, tag, pages)
  {
    SamePlaceTags(bufs, spare, tag, pages, b, bufs[b].(refs := refs));
  }

  lemma FairParts(held: map<nat, Use>, o: Offer, n: nat)
    requires Fair(held, o, n)
    ensures Answer(held, o.payload, n) && Answer(held, o.bufPage, 1) && Answer(held, o.pktPage, 1)
    ensures |o.fill| == n * PAGE
    ensures o.payload % PAGE == 0 && (o.payload != 0 ==> Run(o.payload, n) !! PayloadPages(held))
  {
  }

  lemma FairAfter(held: map<nat, Use>, o: Offer, n: nat, u: Use)
    requires Fair(held, o, n) && o.payload != 0
    ensures Answer(Took(held, o.payload, n, u), o.bufPage, 1) && Answer(Took(held, o.payload, n, u), o.pktPage, 1)
  {
    assert Took(held, o.payload, n, u).Keys == held.Keys + Run(o.payload, n);
  }

  /** The page for the packet object is still not held when its turn comes. */
  lemma FairLast(h0: map<nat, Use>, h1: map<nat, Use>, h2: map<nat, Use>, o: Offer, n: nat)
    requires Fair(h0, o, n) && Answer(h1, o.pktPage, 1)
    requires forall k :: k in h2 && k !in h1 ==> o.bufPage != 0 && k == o.bufPage / PAGE
    ensures Answer(h2, o.pktPage, 1)
  {
    OneRun(o.pktPage);
    OneRun(o.bufPage);
    assert o.bufPage != 0 && o.pktPage != 0 ==> o.bufPage / PAGE !in Run(o.pktPage, 1);
  }

  lemma TookBack(held: map<nat, Use>, base: nat, n: nat)
    requires Answer(held, base, n) && base != 0
    ensures Holds(Took(held, base, n, Payload), base, n, Payload)
    ensures PayloadPages(held) + Run(base, n) - Run(base, n) == PayloadPages(held)
    ensures Took(held, base, n, Payload) - Run(base, n) == held
  {
    hide Run;
  }

  lemma NoZero(pkts: Pkts, bufs: Bufs)
    requires AllOk(pkts, bufs)
    ensures 0 !in pkts && 0 !in bufs
  {
  }

  lemma SpareAligned(bufs: Bufs, spare: nat, tag: map<nat, nat>, pages: set<nat>)
    requires TagsOk(bufs, spare, tag, pages)
    ensures spare % PAGE == 0
  {
  }

  /** What palloc would answer to the three requests an operation may make. */
  datatype Offer = Offer(payload: nat, fill: Bytes, bufPage: nat, pktPage: nat)

  predicate Fair(held: map<nat, Use>, o: Offer, n: nat) {
    && Answer(held, o.payload, n) && Answer(held, o.bufPage, 1) && Answer(held, o.pktPage, 1) && |o.fill| == n * PAGE
    && (o.payload != 0 && o.bufPage != 0 ==> Run(o.payload, n) !! Run(o.bufPage, 1))
    && (o.payload != 0 && o.pktPage != 0 ==> Run(o.payload, n) !! Run(o.pktPage, 1))
    && (o.bufPage != 0 && o.pktPage != 0 ==> Run(o.bufPage, 1) !! Run(o.pktPage, 1))
  }

  /** A page allocator with nothing left is fair. */
  lemma NothingLeft(held: map<nat, Use>, fill: Bytes, n: nat)
    requires |fill| == n * PAGE
    ensures Fair(held, Offer(0, fill, 0, 0), n)
  {
  }

  lemma NothingOk()
    ensures LiveIs({}, map[]) && AllOk(map[], map[]) && RefsOk(map[], map[], 0)
    ensures TagsOk(map[], 0, map[], PayloadPages(map[])) && forall id :: Banked({}, map[], id)
  {
  }

  lemma TookOnly(held: map<nat, Use>, answer: nat, u: Use)
    requires answer != 0 && Answer(held, answer, 1)
    ensures forall k :: k in Took(held, answer, 1, u) && k !in held ==> k == answer / PAGE
  {
    OneRun(answer);
  }
}
