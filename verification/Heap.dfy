/** What a program gets from syscall_palloc: pages that are not there yet, come in when
    they are used, and read zero. Across kernel/process/syscall.c,
    kernel/memory/mm_process.c and kernel/process/uaccess.c. */
module Heap {
  import opened Wrappers
  import opened Descriptors
  import opened Vmas
  import opened ProcessState
  import PageBitmap
  import opened Backing
  import opened AddressSpace
  import opened UserAreas
  import opened Process
  import opened UserBytes
  import opened Uaccess

  /** The whole region of a palloc of size bytes, in bytes. */
  function RegionBytes(size: nat): nat { PageBitmap.CountPages(size, PAGE) * PAGE }

  /** The attributes of every address of the region. */
  ghost predicate InRegion(vs: seq<Vma>, a: nat) { AttrAt(vs, a) == Some(Attr(MEM_RW, KIND_ANON, PALLOC_FLAGS)) }

  lemma RegionAttr(s: Snap, t: Snap, c: Limits, pages: nat, va: nat, a: nat)
    requires PallocSpec(s, t, c, pages, va) && va != 0 && va <= a < va + pages * PAGE
    ensures InRegion(t.vs, a)
  {
    hide AttrAt, UserVmas;
  }

  lemma RegionAligned(s: Snap, t: Snap, c: Limits, pages: nat, va: nat)
    requires Sound(t, c) && PallocSpec(s, t, c, pages, va) && va != 0
    ensures AlignedTo(va)
  {
    hide AttrAt, FramesOk, StackMapped, Counted;
    assert PallocArea(va, pages) in UserVmas(t.vs);
    assert PallocArea(va, pages) in t.vs;
  }

  /** A page of the region is not mapped yet. */
  lemma RegionUnmapped(s: Snap, t: Snap, c: Limits, pages: nat, va: nat, a: nat)
    requires PallocSpec(s, t, c, pages, va) && va != 0 && va <= a < va + pages * PAGE && AlignedTo(va)
    ensures a / PAGE !in t.pages && va <= Down(a) < va + pages * PAGE
  {
    hide AttrAt, UserVmas;
    assert Down(a) == a / PAGE * PAGE && va / PAGE * PAGE == va;
  }

  /** Any data access to a region's page is allowed, a fetch is not. */
  lemma RegionAllowed(t: Snap, c: Limits, sp: nat, page: nat, access: Access)
    requires InRegion(t.vs, page) && t.rssAnon < c.capAnon
    ensures Allowed(t, c, sp, page, access) <==> !access.exec
    ensures Wanted(t, page) == 1
  {
    hide AttrAt, RightsOf, UserAttr, Attributes;
    assert RightsOf(UserAttr(MEM_RW)) == Rights(true, true, false, true, false) by { DataRights(); }
  }

  lemma DataRights()
    ensures RightsOf(UserAttr(MEM_RW)) == Rights(true, true, false, true, false)
  {
    hide RightsOf, Attributes;
    GrantedRights(MAIR_IDX_NORMAL, MEM_RW, User);
  }

  lemma RegionLeaf(s: Snap, ram0: Ram, t: Snap, ram: Ram, c: Limits, sp: nat, far: nat, esr: nat)
    requires FaultSpec(s, ram0, t, ram, c, sp, far, esr, Handled) && IsTranslation(esr) && InRegion(s.vs, Down(far))
    ensures far / PAGE in t.pages
    ensures var l := t.pages[far / PAGE];
            && RightsOf(l.attr) == Rights(true, true, false, true, false)
            && l.frame in ram && ram[l.frame] == ZERO_PAGE
  {
    hide AttrAt, RightsOf, UserAttr, Attributes, FramesIn, Kept, AccessOf, InReach, Permits;
    DataRights();
    assert Down(far) == far / PAGE * PAGE;
  }

  /** A fault on an address of a fresh region: a read or a write is served whenever there
      is a frame and three tables, and the leaf it brings in can be read and written, not
      executed, and holds zeros. A fetch is refused. */
  method FirstUse(u: User, size: nat, off: nat, esr: nat) returns (va: nat, r: Outcome)
    requires u.Ready() && size < SPACE && off < RegionBytes(size) && IsTranslation(esr)
    modifies u.mm`vmaCount, u.mm`freeCount, u.mm`cursor, u.mm.vmas, u.mm.mmapFree
    modifies u`stack, u`rssStack, u`rssAnon, u.mem`ram, u.mem.pt, u.mem.frames`hint, u.mem.frames.bitmap
    ensures va != 0 && AccessOf(esr).exec ==> r.Refused?
    ensures va != 0 && !AccessOf(esr).exec && Affords(old(u.Now()), old(u.Bounds()), |old(u.mem.pt.pool)|, 1) ==>
              r.Handled?
    ensures va != 0 && r.Handled? ==>
              && u.Valid() && (va + off) / PAGE in u.mem.Pages() && (va + off) / PAGE !in old(u.mem.Pages())
              && var l := u.mem.Pages()[(va + off) / PAGE];
              && RightsOf(l.attr) == Rights(true, true, false, true, false)
              && l.frame in u.mem.ram && u.mem.ram[l.frame] == ZERO_PAGE
  {
    hide Sound, UserMap, UsedSet, Memory.Valid, Mm.Valid, FaultSpec, Admitted, Allowed, Affords, Wanted, Grants,
      RightsOf, AccessOf, AttrAt, TablesFor, Memory.Books, PallocSpec, InRegion;
    ghost var s, ram0 := u.Now(), u.mem.ram;
    va := u.Palloc(size);
    if va == 0 { return va, Refused; }
    ghost var t, c, pages := u.Now(), u.Bounds(), PageBitmap.CountPages(size, PAGE);
    FreshAt(s, t, c, pages, va, va + off, u.sp, AccessOf(esr));
    r := u.HandleFault(va + off, esr);
    if r.Handled? { RegionLeaf(t, ram0, u.Now(), u.mem.ram, c, u.sp, va + off, esr); }
  }

  lemma FreshAt(s: Snap, t: Snap, c: Limits, pages: nat, va: nat, a: nat, sp: nat, access: Access)
    requires Sound(t, c) && PallocSpec(s, t, c, pages, va) && va != 0 && va <= a < va + pages * PAGE
    ensures a / PAGE !in t.pages && InRegion(t.vs, Down(a)) && a < LOWER_HALF
    ensures Allowed(t, c, sp, Down(a), access) <==> !access.exec
    ensures Admitted(t, c, sp, Down(a), access) <==> !access.exec
    ensures Wanted(t, Down(a)) == 1 && t == s.(vs := t.vs)
    ensures forall pool :: Affords(t, c, pool, 1) <==> Affords(s, c, pool, 1)
  {
    hide AttrAt, UserVmas, Allowed, Admitted, Wanted, FramesOk, StackMapped, Counted;
    RegionAligned(s, t, c, pages, va);
    AllowedIs(t, c, sp, Down(a), access);
    RegionUnmapped(s, t, c, pages, va, a);
    RegionAttr(s, t, c, pages, va, a);
    RegionAttr(s, t, c, pages, va, Down(a));
    RegionAllowed(t, c, sp, Down(a), access);
  }

  lemma SpanWithin(va: nat, off: nat, size: nat, pages: nat)
    requires AlignedTo(va) && off + size <= pages * PAGE
    ensures Span(va + off, size) <= pages
  {
    if size > 0 {
      assert va / PAGE * PAGE == va;
      assert (va + off + size - 1) / PAGE <= va / PAGE + pages - 1;
    }
  }

  /** Every table, and every frame, that the stack and so many pages besides could take. */
  ghost predicate Plenty(s: Snap, c: Limits, pool: nat, span: nat) {
    Worst(s, span) <= pool && |s.used| + Pages(s.stack.limit, s.stack.commit) + span <= c.hi - c.lo
  }

  /** With plenty of frames no copy within a region is denied. */
  lemma NotDenied(s: Snap, x: Snap, c: Limits, sp: nat, src: nat, size: nat, done: nat, pages: nat, write: bool)
    requires Spent(s, x, Span(src, done)) && done < size && ByPages(src, size, done) && Span(src, size) <= pages
    requires s.rssAnon + pages <= c.capAnon && InRegion(x.vs, Down(src + done))
    requires s.stack.limit <= x.stack.commit <= s.stack.commit
    requires |s.used| + Pages(s.stack.limit, s.stack.commit) + Span(src, size) <= c.hi - c.lo
    ensures !Denied(x, c, sp, src + done, write)
  {
    hide AttrAt, InRegion, Allowed, Admitted, Wanted, Span, ByPages;
    SpanChunk(src, size, done);
    RegionAllowed(x, c, sp, Down(src + done), Access(false, write));
    AllowedIs(x, c, sp, Down(src + done), Access(false, write));
  }

  lemma RegionCovered(s: Snap, t: Snap, c: Limits, pages: nat, va: nat, off: nat, size: nat, write: bool)
    requires PallocSpec(s, t, c, pages, va) && va != 0 && off + size <= pages * PAGE
    ensures Covers(t.vs, va + off, size, write)
  {
    hide AttrAt, PallocSpec;
    forall a | va + off <= a < va + off + size
      ensures AttrAt(t.vs, a).Some? && (write ==> AttrAt(t.vs, a).value.prot & MEM_RW != 0)
    {
      RegionAttr(s, t, c, pages, va, a);
    }
  }

  /** What a copy reads from a region nobody has used is zero. */
  lemma ReadsZero(s: Snap, t: Snap, ram0: Ram, x: Snap, ram: Ram, c: Limits, pages: nat, va: nat, off: nat, data: Bytes)
    requires Sound(t, c) && PallocSpec(s, t, c, pages, va) && va != 0 && off + |data| <= pages * PAGE
    requires Served(t, ram0, x, ram, c) && Backed(x.pages, ram) && Reads(x.pages, ram, va + off, data)
    ensures forall i :: 0 <= i < |data| ==> data[i] == 0
  {
    hide AttrAt, PallocSpec, InRegion, Sound, Extends, OthersKept, Zeroing;
    RegionAligned(s, t, c, pages, va);
    forall i | 0 <= i < |data| ensures data[i] == 0 {
      var a := va + off + i;
      RegionUnmapped(s, t, c, pages, va, a);
      RegionAttr(s, t, c, pages, va, Down(a));
      RegionZeroing(t.vs, Down(a));
      assert Down(a) == a / PAGE * PAGE;
      assert ByteAt(x.pages, ram, va + off + i) == Some(data[i]);
    }
  }

  lemma RegionZeroing(vs: seq<Vma>, a: nat)
    requires InRegion(vs, a)
    ensures Zeroing(vs, a)
  {
    hide AttrAt;
  }

  /** A read within a region that has room under the cap fails only for want of frames or tables. */
  method ReadRegion(u: User, src: nat, size: nat, ghost pages: nat) returns (r: CopyResult, data: Bytes)
    requires u.Valid() && src < SPACE && size < SPACE && Fresh(u.Now(), u.Bounds(), pages, src, size)
    requires Covers(u.mm.Areas(), src, size, false)
    modifies u`stack, u`rssStack, u`rssAnon, u.mem`ram, u.mem.pt, u.mem.frames`hint, u.mem.frames.bitmap
    ensures r.Copied? ==>
              && |data| == size && Backed(u.mem.Pages(), u.mem.ram) && Reads(u.mem.Pages(), u.mem.ram, src, data)
              && Served(old(u.Now()), old(u.mem.ram), u.Now(), u.mem.ram, old(u.Bounds()))
    ensures Plenty(old(u.Now()), old(u.Bounds()), |old(u.mem.pt.pool)|, Span(src, size)) ==> r.Copied?
  {
    hide Sound, UserMap, UsedSet, Memory.Valid, Mm.Valid, AttrAt, TablesFor, Memory.Books, InRegion, Served, Paid,
      Spent, Denied, Covers, Reads, Backed, Mapped, Span, ByPages, Worst, Pages, Plenty, Fresh;
    ghost var t, c, pool := u.Now(), u.Bounds(), |u.mem.pt.pool|;
    r, data := CopyFromUser(u, src, size);
    if r.Faulted? {
      NotFaulted(t, u.Now(), c, u.sp, src, size, |data|, pages, pool, |u.mem.pt.pool|, false);
    } else if r.Panic? {
      NotPanicked(t, c, pool, Span(src, size));
    }
  }

  /** Storing within such a region fails only for want of frames or tables too. */
  method StoreRegion(u: User, dst: nat, data: Bytes, ghost pages: nat) returns (r: CopyResult)
    requires u.Valid() && dst < SPACE && |data| < SPACE && Fresh(u.Now(), u.Bounds(), pages, dst, |data|)
    requires Covers(u.mm.Areas(), dst, |data|, true)
    modifies u`stack, u`rssStack, u`rssAnon, u.mem`ram, u.mem.pt, u.mem.frames`hint, u.mem.frames.bitmap
    ensures r.Copied? ==>
              && u.Valid() && u.mm.Areas() == old(u.mm.Areas())
              && Wrote(old(u.mem.Pages()), old(u.mem.ram), u.mem.Pages(), u.mem.ram, dst, data, |data|)
    ensures Plenty(old(u.Now()), old(u.Bounds()), |old(u.mem.pt.pool)|, Span(dst, |data|)) ==> r.Copied?
  {
    hide Sound, UserMap, UsedSet, Memory.Valid, Mm.Valid, AttrAt, TablesFor, Memory.Books, InRegion, Served, Paid,
      Spent, Denied, Covers, Wrote, Backed, Mapped, Span, ByPages, Worst, Pages, Plenty, Fresh;
    ghost var t, c, pool := u.Now(), u.Bounds(), |u.mem.pt.pool|;
    ghost var done;
    r, done := CopyToUser(u, dst, data);
    if r.Faulted? {
      NotFaulted(t, u.Now(), c, u.sp, dst, |data|, done, pages, pool, |u.mem.pt.pool|, true);
    } else if r.Panic? {
      NotPanicked(t, c, pool, Span(dst, |data|));
    }
  }

  /** Reading a region before anything was stored: with plenty of frames and tables the
      copy succeeds, and all it yields is zeros. */
  method ReadFresh(u: User, size: nat, off: nat, count: nat) returns (va: nat, r: CopyResult, data: Bytes)
    requires u.Ready() && size < SPACE && off + count <= RegionBytes(size)
    modifies u.mm`vmaCount, u.mm`freeCount, u.mm`cursor, u.mm.vmas, u.mm.mmapFree
    modifies u`stack, u`rssStack, u`rssAnon, u.mem`ram, u.mem.pt, u.mem.frames`hint, u.mem.frames.bitmap
    ensures va != 0 && r.Copied? ==> |data| == count && forall i :: 0 <= i < count ==> data[i] == 0
    ensures va != 0 && Plenty(old(u.Now()), old(u.Bounds()), |old(u.mem.pt.pool)|, Span(va + off, count)) ==> r.Copied?
  {
    hide Sound, UserMap, UsedSet, Memory.Valid, Mm.Valid, AttrAt, TablesFor, Memory.Books, PallocSpec, InRegion,
      Served, Covers, Reads, Backed, Span, Plenty, Fresh;
    ghost var s, ram0 := u.Now(), u.mem.ram;
    va := u.Palloc(size);
    data := [];
    if va == 0 { return va, Faulted, data; }
    ghost var t, c, pages := u.Now(), u.Bounds(), PageBitmap.CountPages(size, PAGE);
    FreshRange(s, t, c, pages, va, off, count, false, |u.mem.pt.pool|);
    r, data := ReadRegion(u, va + off, count, pages);
    if r.Copied? { ReadsZero(s, t, ram0, u.Now(), u.mem.ram, c, pages, va, off, data); }
  }

  /** Storing into a region nobody has used: with plenty of frames and tables it
      succeeds, and what is stored is read back. */
  method StoreFresh(u: User, size: nat, off: nat, data: Bytes) returns (va: nat, r: CopyResult, back: Bytes)
    requires u.Ready() && size < SPACE && off + |data| <= RegionBytes(size)
    modifies u.mm`vmaCount, u.mm`freeCount, u.mm`cursor, u.mm.vmas, u.mm.mmapFree
    modifies u`stack, u`rssStack, u`rssAnon, u.mem`ram, u.mem.pt, u.mem.frames`hint, u.mem.frames.bitmap
    ensures va != 0 && r.Copied? ==> back == data
    ensures va != 0 && Plenty(old(u.Now()), old(u.Bounds()), |old(u.mem.pt.pool)|, Span(va + off, |data|)) ==> r.Copied?
  {
    hide Sound, UserMap, UsedSet, Memory.Valid, Mm.Valid, AttrAt, TablesFor, Memory.Books, PallocSpec, InRegion,
      Served, Covers, Reads, Backed, Span, Plenty, Fresh, Wrote, Paid, Spent, Denied, Worst, Mapped;
    ghost var s := u.Now();
    va := u.Palloc(size);
    back := [];
    if va == 0 { return va, Faulted, back; }
    ghost var t, c, pages := u.Now(), u.Bounds(), PageBitmap.CountPages(size, PAGE);
    FreshRange(s, t, c, pages, va, off, |data|, true, |u.mem.pt.pool|);
    FreshRange(s, t, c, pages, va, off, |data|, false, |u.mem.pt.pool|);
    ghost var ram0 := u.mem.ram;
    r := StoreRegion(u, va + off, data, pages);
    if r.Copied? { back := ReadBack(u, va + off, data, t.pages, ram0); }
  }

  method ReadBack(u: User, dst: nat, data: Bytes, ghost p0: PageMap, ghost ram0: Ram) returns (back: Bytes)
    requires u.Valid() && dst < SPACE && |data| < SPACE && Covers(u.mm.Areas(), dst, |data|, false)
    requires Wrote(p0, ram0, u.mem.Pages(), u.mem.ram, dst, data, |data|)
    modifies u`stack, u`rssStack, u`rssAnon, u.mem`ram, u.mem.pt, u.mem.frames`hint, u.mem.frames.bitmap
    ensures back == data
  {
    hide Sound, UserMap, UsedSet, Memory.Valid, Mm.Valid, AttrAt, TablesFor, Memory.Books, Served, Covers, Reads,
      Backed, Span, Wrote, Paid, Spent, Denied, Worst, Mapped, BackedBy;
    StoredMapped(p0, ram0, u.mem.Pages(), u.mem.ram, dst, data);
    var r;
    r, back := CopyFromUser(u, dst, |data|);
    ReadsSame(u.mem.Pages(), u.mem.ram, dst, data, back);
  }

  lemma NotFaulted(t: Snap, x: Snap, c: Limits, sp: nat, src: nat, size: nat, done: nat, pages: nat,
                   pool0: nat, pool: nat, write: bool)
    requires x.vs == t.vs && Fresh(t, c, pages, src, size)
    requires Paid(t, pool0, x, pool, Span(src, size)) && Spent(t, x, Span(src, done))
    requires done < size && ByPages(src, size, done) && Denied(x, c, sp, src + done, write)
    ensures !Plenty(t, c, pool0, Span(src, size))
  {
    hide InRegion, Spent, Denied, Span, ByPages, Paid, Pages;
    PaidSpent(t, pool0, x, pool, Span(src, size));
    if Plenty(t, c, pool0, Span(src, size)) { NotDenied(t, x, c, sp, src, size, done, pages, write); }
  }

  lemma NotPanicked(t: Snap, c: Limits, pool0: nat, span: nat)
    requires pool0 < Worst(t, span)
    ensures !Plenty(t, c, pool0, span)
  {
  }

  /** The range lies in a region of so many pages, which the cap has room for. */
  ghost predicate Fresh(t: Snap, c: Limits, pages: nat, src: nat, size: nat) {
    && Span(src, size) <= pages && t.rssAnon + pages <= c.capAnon
    && forall a: nat :: src <= a < src + size ==> InRegion(t.vs, Down(a))
  }

  lemma FreshRange(s: Snap, t: Snap, c: Limits, pages: nat, va: nat, off: nat, size: nat, write: bool,
                   pool: nat)
    requires Sound(t, c) && PallocSpec(s, t, c, pages, va) && va != 0 && off + size <= pages * PAGE
    ensures Covers(t.vs, va + off, size, write) && Fresh(t, c, pages, va + off, size) && t == s.(vs := t.vs)
    ensures va + off < SPACE && size < SPACE
    ensures Plenty(t, c, pool, Span(va + off, size)) <==> Plenty(s, c, pool, Span(va + off, size))
  {
    hide AttrAt, InRegion, Span;
    RegionCovered(s, t, c, pages, va, off, size, write);
    RegionAligned(s, t, c, pages, va);
    SpanWithin(va, off, size, pages);
    forall a | va + off <= a < va + off + size ensures InRegion(t.vs, Down(a)) {
      RegionUnmapped(s, t, c, pages, va, a);
      RegionAttr(s, t, c, pages, va, Down(a));
    }
  }
}
