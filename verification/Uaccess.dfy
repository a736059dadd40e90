/** Kernel access to user memory: kernel/process/uaccess.c. */
module Uaccess {
  import opened Wrappers
  import opened Descriptors
  import opened Vmas
  import opened ProcessState
  import opened Backing
  import opened AddressSpace
  import opened Process
  import opened UserBytes

  datatype CopyResult = Copied | Invalid | Faulted | TooLong | Panic

  /** Every address of the range lies in an area, a writable one if need be. */
  ghost predicate Covers(vs: seq<Vma>, addr: nat, size: nat, write: bool) {
    forall a :: addr <= a < addr + size ==> AttrAt(vs, a).Some? && (write ==> AttrAt(vs, a).value.prot & MEM_RW != 0)
  }

  /** The syndrome the kernel makes up: a translation fault at level 3 on a data access. */
  function FaultCode(write: bool): nat { 0x24 * 0x400_0000 + 7 + if write then 64 else 0 }

  lemma FaultCodeMeans(write: bool)
    ensures IsTranslation(FaultCode(write)) && !IsAccessFlag(FaultCode(write))
    ensures AccessOf(FaultCode(write)) == Access(false, write)
  {
  }

  lemma AreaCovers(vs: seq<Vma>, m: Vma, addr: nat, cur: nat, write: bool)
    requires Sorted(vs) && m in vs && m.start <= cur < m.end && addr <= cur && Covers(vs, addr, cur - addr, write)
    requires write ==> m.prot & MEM_RW != 0
    ensures Covers(vs, addr, m.end - addr, write)
  {
    var i :| 0 <= i < |vs| && vs[i] == m;
    forall a | addr <= a < m.end ensures AttrAt(vs, a).Some? && (write ==> AttrAt(vs, a).value.prot & MEM_RW != 0) {
      if a >= cur { AttrAtHit(vs, i, a); }
    }
  }

  /** access_ok_range, on 64-bit arithmetic. */
  method AccessOk(u: User, addr: nat, size: nat, write: bool) returns (ok: bool)
    requires u.Valid() && addr < SPACE && size < SPACE
    ensures ok <==> Covers(u.mm.Areas(), addr, size, write)
  {
    hide AttrAt, Sorted, Sound, Memory.Valid, Coalesced;
    if size == 0 { return true; }
    ghost var vs := u.mm.Areas();
    LowAddresses(u.Now(), u.Bounds());
    assert AttrAt(vs, addr + size - 1).Some? ==> addr + size - 1 < LOWER_HALF;
    assert AttrAt(vs, addr).Some? ==> addr < LOWER_HALF;
    if addr / LOWER_HALF % 2 == 1 { return false; }
    var end := (addr + size - 1) % SPACE;
    if end < addr { return false; }
    if end / LOWER_HALF % 2 == 1 { return false; }
    var cur := addr;
    while cur <= end
      invariant addr <= cur <= end && end == addr + size - 1 && vs == u.mm.Areas()
      invariant Covers(vs, addr, cur - addr, write)
      decreases end - cur
    {
      var m := u.mm.FindVma(cur);
      if m.None? { return false; }
      if write && m.value.prot & MEM_RW == 0 { return false; }
      AreaCovers(vs, m.value, addr, cur, write);
      var next := m.value.end;
      if next == 0 || next - 1 >= end { return true; }
      cur := next;
    }
    return true;
  }

  lemma LowAddresses(s: Snap, c: Limits)
    requires Sound(s, c)
    ensures Sorted(s.vs) && forall a: nat :: AttrAt(s.vs, a).Some? ==> a < LOWER_HALF
  {
  }

  /** A snapshot together with the memory it stands on. */
  ghost predicate BackedBy(s: Snap, c: Limits, ram: Ram) {
    Sound(s, c) && c.ram == ram.Keys && Backed(s.pages, ram)
  }

  lemma SoundBacked(s: Snap, c: Limits, ram: Ram)
    requires Sound(s, c) && c.ram == ram.Keys && forall f :: f in ram ==> |ram[f]| == PAGE
    ensures BackedBy(s, c, ram)
  {
    hide AttrAt, LowAreas, StackMapped, Counted;
  }

  lemma ValidBacked(u: User)
    requires u.Valid()
    ensures BackedBy(u.Now(), u.Bounds(), u.mem.ram)
  {
    hide Sound, BackedBy, Mm.Valid, UserMap, UsedSet;
    SoundBacked(u.Now(), u.Bounds(), u.mem.ram);
  }

  /** What a fault leaves of the memory a process sees: all of it. */
  lemma FaultExtends(s: Snap, ram0: Ram, t: Snap, ram: Ram, c: Limits, sp: nat, far: nat, esr: nat, r: Outcome)
    requires BackedBy(s, c, ram0) && FaultSpec(s, ram0, t, ram, c, sp, far, esr, r) && !r.Panicked?
    ensures Served(s, ram0, t, ram, c)
    ensures r.Handled? && IsTranslation(esr) ==> far / PAGE in t.pages
    ensures r.Refused? ==> t == s
  {
    hide AttrAt, LowAreas, StackMapped, Counted, Admitted, WithAf, FaultedIn, Extends, OthersKept, Scarce, Wanted,
      FramesOk, Zeroing;
    if r.Refused? {
      KeptServed(s, ram0, s.pages, ram, c);
    } else if IsAccessFlag(esr) {
      KeptServed(s, ram0, t.pages, ram, c);
    } else {
      GrownServed(s, ram0, t, ram, c, far);
    }
  }

  /** Pages that stay on their frames keep their bytes. */
  lemma KeptServed(s: Snap, ram0: Ram, pages: PageMap, ram: Ram, c: Limits)
    requires BackedBy(s, c, ram0) && Kept(ram, ram0, s.used, c)
    requires forall n :: n in s.pages ==> n in pages && pages[n].frame == s.pages[n].frame
    ensures Extends(s.pages, ram0, pages, ram) && OthersKept(ram0, ram, s.used, c, pages)
  {
    hide AttrAt, LowAreas, StackMapped, Counted;
  }

  lemma GrownServed(s: Snap, ram0: Ram, t: Snap, ram: Ram, c: Limits, far: nat)
    requires BackedBy(s, c, ram0) && Kept(ram, ram0, s.used, c) && FaultedIn(s, t, ram, Down(far))
    ensures Extends(s.pages, ram0, t.pages, ram) && s.used <= t.used && OthersKept(ram0, ram, s.used, c, t.pages)
    ensures far / PAGE in t.pages && t.vs == s.vs && t.stack.limit == s.stack.limit && CameZeroed(s, t, ram)
  {
    hide AttrAt, LowAreas, StackMapped, Counted, ZeroedIn, Extends, OthersKept, BackedBy, FramesIn, CameZeroed;
    assert Down(far) / PAGE == far / PAGE && Down(far) == far / PAGE * PAGE;
    FaultZeroed(s, t, ram, Down(far));
    KeptServed(s, ram0, t.pages, ram, c);
  }

  /** Pages have at most come in: nothing the process or anyone else could read has changed. */
  ghost predicate Served(s: Snap, ram0: Ram, t: Snap, ram: Ram, c: Limits) {
    && Extends(s.pages, ram0, t.pages, ram) && s.used <= t.used && t.vs == s.vs && t.stack.limit == s.stack.limit
    && OthersKept(ram0, ram, s.used, c, t.pages) && CameZeroed(s, t, ram)
  }

  /** A page brought in for address a is cleared first: its area asks for it (bit 2 of the
      flags), or is not anonymous. */
  ghost predicate Zeroing(vs: seq<Vma>, a: nat) {
    AttrAt(vs, a).Some? && (AttrAt(vs, a).value.kind != KIND_ANON || AttrAt(vs, a).value.flags & 4 != 0)
  }

  /** What came in from s to t where areas have their pages cleared reads zero. */
  ghost predicate CameZeroed(s: Snap, t: Snap, ram: Ram) {
    forall n :: n in t.pages && n !in s.pages && Zeroing(s.vs, n * PAGE) ==>
      t.pages[n].frame in ram && ram[t.pages[n].frame] == ZERO_PAGE
  }

  lemma FaultZeroed(s: Snap, t: Snap, ram: Ram, page: nat)
    requires FaultedIn(s, t, ram, page) && AlignedTo(page)
    ensures CameZeroed(s, t, ram)
  {
    hide FaultedIn, Zeroing;
    forall n | n in t.pages && n !in s.pages && Zeroing(s.vs, n * PAGE)
      ensures t.pages[n].frame in ram && ram[t.pages[n].frame] == ZERO_PAGE
    {
      CameIn(s, t, ram, page, n);
      if !ZeroedIn(t.pages, ram, page, FaultEnd(s, page)) { NotZeroing(s, t, ram, page); }
    }
  }

  lemma CameIn(s: Snap, t: Snap, ram: Ram, page: nat, n: nat)
    requires FaultedIn(s, t, ram, page) && AlignedTo(page) && n in t.pages && n !in s.pages
    ensures page <= n * PAGE < FaultEnd(s, page) && (FaultEnd(s, page) == page + PAGE ==> n * PAGE == page)
  {
    hide AttrAt, FramesIn, ZeroedIn, UserAttr;
  }

  lemma NotZeroing(s: Snap, t: Snap, ram: Ram, page: nat)
    requires FaultedIn(s, t, ram, page) && !ZeroedIn(t.pages, ram, page, FaultEnd(s, page))
    ensures !Zeroing(s.vs, page) && FaultEnd(s, page) == page + PAGE
  {
    hide AttrAt, Grown, ZeroedIn, UserAttr;
  }

  /** The table frames that s and span more pages outside the stack can take at most. */
  ghost function Worst(s: Snap, span: nat): nat { 3 * (Pages(s.stack.limit, s.stack.commit) + span) }

  /** From s to t the pool and the frames have paid for stack growth and for span pages besides. */
  ghost predicate Paid(s: Snap, pool0: nat, t: Snap, pool: nat, span: nat) {
    && AlignedTo(s.stack.limit) && AlignedTo(s.stack.commit) && AlignedTo(t.stack.commit)
    && s.stack.limit == t.stack.limit <= t.stack.commit <= s.stack.commit
    && pool0 <= pool + 3 * (Pages(t.stack.commit, s.stack.commit) + span)
    && Spent(s, t, span)
  }

  /** From s to t at most span frames have gone, besides those of stack growth, and as much of the anonymous cap. */
  ghost predicate Spent(s: Snap, t: Snap, span: nat) {
    |t.used| <= |s.used| + Pages(t.stack.commit, s.stack.commit) + span && t.rssAnon <= s.rssAnon + span
  }

  lemma PaidSpent(s: Snap, pool0: nat, t: Snap, pool: nat, span: nat)
    requires Paid(s, pool0, t, pool, span)
    ensures Spent(s, t, span) && s.stack.limit <= t.stack.commit <= s.stack.commit
    ensures Pages(t.stack.commit, s.stack.commit) <= Pages(s.stack.limit, s.stack.commit)
  {
  }

  lemma PaidNothing(s: Snap, c: Limits, pool: nat)
    requires Sound(s, c)
    ensures Paid(s, pool, s, pool, 0)
  {
  }

  lemma PaidTrans(s0: Snap, pool0: nat, s1: Snap, pool1: nat, s2: Snap, pool2: nat, a: nat, b: nat)
    requires Paid(s0, pool0, s1, pool1, a) && Paid(s1, pool1, s2, pool2, b)
    ensures Paid(s0, pool0, s2, pool2, a + b)
  {
  }

  lemma PaidWorst(s0: Snap, pool0: nat, s1: Snap, pool1: nat, a: nat, b: nat, span: nat)
    requires Paid(s0, pool0, s1, pool1, a) && pool1 < Worst(s1, b) && a + b <= span
    ensures pool0 < Worst(s0, span)
  {
  }

  /** A fault that is served pays as it goes; one that panics could not. */
  lemma FaultPaid(s: Snap, ram0: Ram, t: Snap, ram: Ram, c: Limits, sp: nat, far: nat, esr: nat, pool0: nat, pool: nat)
    requires Sound(s, c) && Sound(t, c) && FaultSpec(s, ram0, t, ram, c, sp, far, esr, Handled) && IsTranslation(esr)
    requires pool >= pool0 - 3 * Wanted(s, Down(far))
    ensures Paid(s, pool0, t, pool, 1)
  {
    hide AttrAt, LowAreas, FramesOk, Counted, Grown, ZeroedIn, Admitted;
    DownAligned(far);
    GrownCount(s.pages, s.used, t.pages, t.used, Down(far), FaultEnd(s, Down(far)),
               UserAttr(AttrAt(s.vs, Down(far)).value.prot));
  }

  lemma GrownCount(p0: PageMap, u0: set<nat>, p: PageMap, u: set<nat>, lo: nat, hi: nat, attr: bv64)
    requires Grown(p0, u0, p, u, lo, hi, attr) && AlignedTo(lo) && AlignedTo(hi) && lo <= hi
    ensures |u| <= |u0| + Pages(lo, hi)
  {
    FramesInCount(p, lo, hi);
  }

  lemma FaultWorst(s: Snap, c: Limits, sp: nat, page: nat, access: Access)
    requires Sound(s, c) && Admitted(s, c, sp, page, access) && AlignedTo(page)
    ensures 3 * Wanted(s, page) <= Worst(s, 1)
  {
    hide AttrAt, LowAreas, FramesOk, Counted;
  }

  /** The page of a is not mapped, and a fault there is not allowed or finds no frame. */
  ghost predicate Denied(s: Snap, c: Limits, sp: nat, a: nat, write: bool) {
    && a / PAGE !in s.pages
    && (Admitted(s, c, sp, Down(a), Access(false, write)) ==> Scarce(s.used, c.lo, c.hi, Wanted(s, Down(a))))
  }

  /** Translating an address, taking the fault on its behalf where it is not mapped. */
  method EnsureMapped(u: User, va: nat, write: bool) returns (r: Outcome, f: nat)
    requires u.Valid() && va < LOWER_HALF
    modifies u`stack, u`rssStack, u`rssAnon, u.mem`ram, u.mem.pt, u.mem.frames`hint, u.mem.frames.bitmap
    ensures !r.Panicked? ==>
              && u.Valid() && Served(old(u.Now()), old(u.mem.ram), u.Now(), u.mem.ram, u.Bounds())
              && u.Bounds() == old(u.Bounds())
    ensures r.Handled? ==> va / PAGE in u.mem.Pages() && f == u.mem.Pages()[va / PAGE].frame && f in u.mem.ram
    ensures va / PAGE in old(u.mem.Pages()) ==> r.Handled? && u.Now() == old(u.Now()) && u.mem.ram == old(u.mem.ram)
    ensures r.Refused? ==> u.Now() == old(u.Now()) && Denied(u.Now(), u.Bounds(), u.sp, va, write)
    ensures !r.Panicked? ==> u.mem.Books() == old(u.mem.Books())
    ensures !r.Panicked? ==> Paid(old(u.Now()), |old(u.mem.pt.pool)|, u.Now(), |u.mem.pt.pool|, 1)
    ensures r.Panicked? ==> |old(u.mem.pt.pool)| < Worst(old(u.Now()), 1)
  {
    hide AttrAt, Sorted, Sound, Memory.Valid, Mm.Valid, UserMap, UsedSet, FaultSpec, FaultCode, TablesFor, Paid,
      Worst, Wanted, Admitted, Scarce, Served, BackedBy, Memory.Books;
    ghost var s, c, ram0 := u.Now(), u.Bounds(), u.mem.ram;
    ghost var pool0 := |u.mem.pt.pool|;
    ValidBacked(u);
    BackedPages(s, c, ram0);
    ServedNothing(s, c, ram0);
    PaidNothing(s, c, pool0);
    PaidMore(s, pool0, s, pool0);
    u.mem.BooksAre();
    var pa := u.mem.Translate(va);
    if pa.None? {
      FaultCodeMeans(write);
      r := u.HandleFault(va, FaultCode(write));
      if r.Panicked? {
        DownAligned(va);
        FaultWorst(s, c, u.sp, Down(va), Access(false, write));
        return r, 0;
      }
      FaultExtends(s, ram0, u.Now(), u.mem.ram, c, u.sp, va, FaultCode(write), r);
      ValidBacked(u);
      BackedPages(u.Now(), u.Bounds(), u.mem.ram);
      if r.Refused? {
        RefusedDenied(s, ram0, u.mem.ram, c, u.sp, va, write);
        u.mem.BooksAre();
        return r, 0;
      }
      FaultPaid(s, ram0, u.Now(), u.mem.ram, c, u.sp, va, FaultCode(write), pool0, |u.mem.pt.pool|);
      pa := u.mem.Translate(va);
    }
    // The source tests the second translation too; after a fault that was served it cannot fail.
    assert pa.Some?;
    return Handled, pa.value;
  }

  lemma PaidMore(s: Snap, pool0: nat, t: Snap, pool: nat)
    requires Paid(s, pool0, t, pool, 0)
    ensures Paid(s, pool0, t, pool, 1)
  {
  }

  lemma DownAligned(a: nat)
    ensures AlignedTo(Down(a))
  {
  }

  lemma RefusedDenied(s: Snap, ram0: Ram, ram: Ram, c: Limits, sp: nat, va: nat, write: bool)
    requires FaultSpec(s, ram0, s, ram, c, sp, va, FaultCode(write), Refused) && va / PAGE !in s.pages
    ensures Denied(s, c, sp, va, write)
  {
    hide Admitted, Scarce, Wanted;
    FaultCodeMeans(write);
  }

  lemma BackedPages(s: Snap, c: Limits, ram: Ram)
    requires BackedBy(s, c, ram)
    ensures forall n :: n in s.pages ==> s.pages[n].frame in ram
  {
  }

  lemma ServedNothing(s: Snap, c: Limits, ram: Ram)
    requires BackedBy(s, c, ram)
    ensures Served(s, ram, s, ram, c)
  {
  }

  lemma ServedTrans(s0: Snap, ram0: Ram, s1: Snap, ram1: Ram, s2: Snap, ram2: Ram, c: Limits)
    requires Served(s0, ram0, s1, ram1, c) && Served(s1, ram1, s2, ram2, c) && ram0.Keys == ram1.Keys == ram2.Keys
    ensures Served(s0, ram0, s2, ram2, c)
  {
    ExtendsTrans(s0.pages, ram0, s1.pages, ram1, s2.pages, ram2);
    OthersTrans(s0, ram0, s1, ram1, s2, ram2, c);
  }

  lemma OthersTrans(s0: Snap, ram0: Ram, s1: Snap, ram1: Ram, s2: Snap, ram2: Ram, c: Limits)
    requires OthersKept(ram0, ram1, s0.used, c, s1.pages) && OthersKept(ram1, ram2, s1.used, c, s2.pages)
    requires s0.used <= s1.used
    requires forall n :: n in s1.pages ==> n in s2.pages && s2.pages[n].frame == s1.pages[n].frame
    ensures OthersKept(ram0, ram2, s0.used, c, s2.pages)
  {
    forall f | f in ram2 && (f in s0.used || !(c.lo <= f < c.hi))
        && (forall n :: n in s2.pages ==> s2.pages[n].frame != f)
      ensures ram2[f] == ram0[f]
    {
      assert forall n :: n in s1.pages ==> s1.pages[n].frame != f;
    }
  }

  /** The part of a range that lies in the page of va. */
  function Chunk(va: nat, size: nat): nat {
    if PAGE - va % PAGE > size then size else PAGE - va % PAGE
  }

  lemma ChunkSize(va: nat, size: nat)
    ensures Chunk(va, size) <= size && va % PAGE + Chunk(va, size) <= PAGE && (size > 0 ==> Chunk(va, size) > 0)
  {
  }

  /** The number of pages a range touches. */
  function Span(addr: nat, size: nat): nat {
    if size == 0 then 0 else (addr + size - 1) / PAGE - addr / PAGE + 1
  }

  /** All of a range done up to a page boundary. */
  predicate ByPages(addr: nat, size: nat, done: nat) { done == 0 || done == size || (addr + done) % PAGE == 0 }

  lemma SpanChunk(addr: nat, size: nat, done: nat)
    requires done < size && ByPages(addr, size, done)
    ensures var more := done + Chunk(addr + done, size - done);
            more <= size && ByPages(addr, size, more) && Span(addr, more) == Span(addr, done) + 1 <= Span(addr, size)
  {
    var more := done + Chunk(addr + done, size - done);
    assert (addr + more - 1) / PAGE == (addr + done) / PAGE;
  }

  /** validate_address: true means that every page of the range translates. */
  method ValidateAddress(u: User, addr: nat, size: nat, write: bool) returns (r: CopyResult)
    requires u.Valid() && addr < SPACE && size < SPACE
    modifies u`stack, u`rssStack, u`rssAnon, u.mem`ram, u.mem.pt, u.mem.frames`hint, u.mem.frames.bitmap
    ensures !r.Panic? ==> u.Valid() && Served(old(u.Now()), old(u.mem.ram), u.Now(), u.mem.ram, u.Bounds())
    ensures r.Copied? ==>
              && Covers(u.mm.Areas(), addr, size, write)
              && forall a :: addr <= a < addr + size ==> a / PAGE in u.mem.Pages()
    ensures (&& (addr != 0 || size == 0) && Covers(old(u.mm.Areas()), addr, size, write)
             && Mapped(old(u.mem.Pages()), addr, size)) ==> r.Copied?
    ensures r.Faulted? && (addr != 0 || size == 0) && Covers(old(u.mm.Areas()), addr, size, write) ==>
              exists a :: addr <= a < addr + size && Denied(u.Now(), u.Bounds(), u.sp, a, write)
    ensures !r.Panic? ==> u.mem.Books() == old(u.mem.Books())
    ensures r.Panic? ==> |old(u.mem.pt.pool)| < Worst(old(u.Now()), Span(addr, size))
    ensures r.Copied? || r.Faulted? || r.Panic?
  {
    hide AttrAt, Sorted, Sound, Memory.Valid, Mm.Valid, UserMap, UsedSet, Extends, OthersKept, Served, Covers,
      TablesFor, Paid, Worst, Denied, Span, ByPages, Chunk, Memory.Books;
    ghost var pool0 := |u.mem.pt.pool|;
    ghost var s, c, ram0 := u.Now(), u.Bounds(), u.mem.ram;
    ValidBacked(u);
    ServedNothing(s, c, ram0);
    if addr == 0 && size != 0 { return Faulted; }
    var ok := AccessOk(u, addr, size, write);
    if !ok { return Faulted; }
    LowAddresses(s, c);
    PaidNothing(s, c, pool0);
    SpanNone(addr, size);
    var done := 0;
    while done < size
      invariant done <= size && u.Valid() && u.Bounds() == c && u.mm.Areas() == s.vs
      invariant Served(s, ram0, u.Now(), u.mem.ram, c)
      invariant Mapped(u.mem.Pages(), addr, done) && u.mem.Books() == old(u.mem.Books())
      invariant ByPages(addr, size, done) && Paid(s, pool0, u.Now(), |u.mem.pt.pool|, Span(addr, done))
      decreases size - done
    {
      CoversAt(s.vs, addr, size, write, addr + done);
      ServedMapped(s, ram0, u.Now(), u.mem.ram, c, addr, size, addr + done);
      ghost var t, ram, pool := u.Now(), u.mem.ram, |u.mem.pt.pool|;
      var chunk := Chunk(addr + done, size - done);
      ChunkSize(addr + done, size - done);
      SpanChunk(addr, size, done);
      var q, f := EnsureMapped(u, addr + done, write);
      if q.Panicked? {
        PaidWorst(s, pool0, t, pool, Span(addr, done), 1, Span(addr, size));
        return Panic;
      }
      PaidTrans(s, pool0, t, pool, u.Now(), |u.mem.pt.pool|, Span(addr, done), 1);
      ServedTrans(s, ram0, t, ram, u.Now(), u.mem.ram, c);
      if q.Refused? { return Faulted; }
      MappedMore(t, ram, u.Now(), u.mem.ram, c, addr, done, chunk);
      done := done + chunk;
    }
    return Copied;
  }

  lemma SpanNone(addr: nat, size: nat)
    ensures Span(addr, 0) == 0 && ByPages(addr, size, 0)
  {
  }

  ghost predicate Mapped(p: PageMap, addr: nat, size: nat) { forall a :: addr <= a < addr + size ==> a / PAGE in p }

  lemma MappedMore(s: Snap, ram0: Ram, t: Snap, ram: Ram, c: Limits, addr: nat, done: nat, chunk: nat)
    requires Served(s, ram0, t, ram, c) && Mapped(s.pages, addr, done) && (addr + done) / PAGE in t.pages
    requires (addr + done) % PAGE + chunk <= PAGE
    ensures Mapped(t.pages, addr, done + chunk)
  {
    forall a | addr <= a < addr + done + chunk ensures a / PAGE in t.pages {
      if a >= addr + done { assert a / PAGE == (addr + done) / PAGE; }
    }
  }

  lemma CoversAt(vs: seq<Vma>, addr: nat, size: nat, write: bool, a: nat)
    requires Covers(vs, addr, size, write) && addr <= a < addr + size
    requires forall b: nat :: AttrAt(vs, b).Some? ==> b < LOWER_HALF
    ensures a < LOWER_HALF && AttrAt(vs, a).Some?
  {
    assert AttrAt(vs, a).Some?;
  }

  /** One round of copy_to_user, within one page; mid is memory between fault and store. */
  method StoreChunk(u: User, va: nat, b: Bytes) returns (q: Outcome, ghost mid: Ram)
    requires u.Valid() && va < LOWER_HALF && va % PAGE + |b| <= PAGE
    modifies u`stack, u`rssStack, u`rssAnon, u.mem`ram, u.mem.pt, u.mem.frames`hint, u.mem.frames.bitmap
    ensures !q.Panicked? ==> u.Valid() && u.Bounds() == old(u.Bounds()) && u.mm.Areas() == old(u.mm.Areas())
    ensures !q.Panicked? ==>
              Served(old(u.Now()), old(u.mem.ram), u.Now(), mid, u.Bounds()) && Backed(u.mem.Pages(), mid)
    ensures q.Handled? ==> va / PAGE in u.mem.Pages()
    ensures q.Handled? ==> var f := u.mem.Pages()[va / PAGE].frame;
                           f in mid && |mid[f]| == PAGE && u.mem.ram == mid[f := Splice(mid[f], va % PAGE, b)]
    ensures q.Refused? ==> u.mem.ram == mid && u.Now() == old(u.Now()) && Denied(u.Now(), u.Bounds(), u.sp, va, true)
    ensures va / PAGE in old(u.mem.Pages()) ==> q.Handled?
    ensures !q.Panicked? ==> u.mem.Books() == old(u.mem.Books())
    ensures !q.Panicked? ==> Paid(old(u.Now()), |old(u.mem.pt.pool)|, u.Now(), |u.mem.pt.pool|, 1)
    ensures q.Panicked? ==> |old(u.mem.pt.pool)| < Worst(old(u.Now()), 1)
  {
    hide AttrAt, Sorted, Sound, Memory.Valid, Mm.Valid, UserMap, UsedSet, Served, Backed, Splice, TablesFor, Paid,
      Worst, Denied, Memory.Books;
    var f;
    q, f := EnsureMapped(u, va, true);
    mid := u.mem.ram;
    if q.Panicked? { return; }
    ValidBacked(u);
    if q.Handled? { u.mem.Store(f, va % PAGE, b); }
  }

  /** copy_to_user. A copy that fails half way has written a prefix, and nothing else. */
  method CopyToUser(u: User, dst: nat, data: Bytes) returns (r: CopyResult, ghost done: nat)
    requires u.Valid() && dst < SPACE && |data| < SPACE
    modifies u`stack, u`rssStack, u`rssAnon, u.mem`ram, u.mem.pt, u.mem.frames`hint, u.mem.frames.bitmap
    ensures done <= |data| && (r.Copied? ==> done == |data|)
    ensures !r.Panic? ==> u.Valid() && u.mm.Areas() == old(u.mm.Areas()) && u.stack.limit == old(u.stack.limit)
    ensures !r.Panic? ==> u.Bounds() == old(u.Bounds())
    ensures !r.Panic? ==> Wrote(old(u.mem.Pages()), old(u.mem.ram), u.mem.Pages(), u.mem.ram, dst, data, done)
    ensures !r.Panic? ==> OthersKept(old(u.mem.ram), u.mem.ram, old(u.mem.Used()), u.Bounds(), u.mem.Pages())
    ensures r.Copied? ==> Covers(u.mm.Areas(), dst, |data|, true)
    ensures !Covers(old(u.mm.Areas()), dst, |data|, true) ==>
              r.Faulted? && u.Now() == old(u.Now()) && u.mem.ram == old(u.mem.ram)
    ensures Covers(old(u.mm.Areas()), dst, |data|, true) && Mapped(old(u.mem.Pages()), dst, |data|) ==> r.Copied?
    ensures r.Faulted? && Covers(old(u.mm.Areas()), dst, |data|, true) ==>
              done < |data| && ByPages(dst, |data|, done) && Denied(u.Now(), u.Bounds(), u.sp, dst + done, true)
    ensures r.Faulted? ==> Spent(old(u.Now()), u.Now(), Span(dst, done))
    ensures !r.Panic? ==> u.mem.Books() == old(u.mem.Books())
    ensures !r.Panic? ==> Paid(old(u.Now()), |old(u.mem.pt.pool)|, u.Now(), |u.mem.pt.pool|, Span(dst, |data|))
    ensures r.Panic? ==> |old(u.mem.pt.pool)| < Worst(old(u.Now()), Span(dst, |data|))
    ensures r.Copied? || r.Faulted? || r.Panic?
  {
    hide AttrAt, Sorted, Sound, Memory.Valid, Mm.Valid, UserMap, UsedSet, Extends, OthersKept, Wrote, Covers, Backed,
      Mapped, Splice, TablesFor, Paid, Worst, Denied, Span, ByPages, Chunk, Served, Memory.Books, Spent,
      User.Separate;
    ghost var pool0 := |u.mem.pt.pool|;
    ghost var s, c, ram0 := u.Now(), u.Bounds(), u.mem.ram;
    ValidBacked(u);
    ServedNothing(s, c, ram0);
    ServedParts(s, ram0, s, ram0, c);
    WroteNothing(s.pages, ram0, dst, data);
    done := 0;
    CoversNone(s.vs, dst, true);
    PaidNothing(s, c, pool0);
    SpanNone(dst, |data|);
    PaidUpTo(s, pool0, s, pool0, 0, Span(dst, |data|));
    PaidSpent(s, pool0, s, pool0, 0);
    if |data| == 0 { return Copied, 0; }
    var ok := AccessOk(u, dst, |data|, true);
    if !ok { return Faulted, 0; }
    LowAddresses(s, c);
    var k := 0;
    while k < |data|
      invariant k <= |data| && u.Valid() && u.Bounds() == c && u.mm.Areas() == s.vs && s.used <= u.mem.Used()
      invariant u.stack.limit == s.stack.limit
      invariant Wrote(s.pages, ram0, u.mem.Pages(), u.mem.ram, dst, data, k)
      invariant OthersKept(ram0, u.mem.ram, s.used, c, u.mem.Pages())
      invariant u.mem.Books() == old(u.mem.Books())
      invariant ByPages(dst, |data|, k) && Paid(s, pool0, u.Now(), |u.mem.pt.pool|, Span(dst, k))
      decreases |data| - k
    {
      CoversAt(s.vs, dst, |data|, true, dst + k);
      WroteMapped(s.pages, ram0, u.mem.Pages(), u.mem.ram, dst, data, k, |data|);
      ghost var t, ram, pool := u.Now(), u.mem.ram, |u.mem.pt.pool|;
      PaidSpent(s, pool0, t, pool, Span(dst, k));
      var chunk := Chunk(dst + k, |data| - k);
      ChunkSize(dst + k, |data| - k);
      SpanChunk(dst, |data|, k);
      done := k;
      var q;
      ghost var mid;
      q, mid := StoreChunk(u, dst + k, data[k..k + chunk]);
      if q.Panicked? {
        PaidWorst(s, pool0, t, pool, Span(dst, k), 1, Span(dst, |data|));
        return Panic, k;
      }
      PaidTrans(s, pool0, t, pool, u.Now(), |u.mem.pt.pool|, Span(dst, k), 1);
      PaidUpTo(s, pool0, u.Now(), |u.mem.pt.pool|, Span(dst, k) + 1, Span(dst, |data|));
      ServedParts(t, ram, u.Now(), mid, c);
      FaultedFor(s, ram0, t, ram, u.Now(), mid, c, dst, data, k);
      if q.Refused? { return Faulted, k; }
      StoredMore(s, ram0, u.Now(), mid, u.mem.ram, c, dst, data, k, chunk);
      k := k + chunk;
    }
    return Copied, k;
  }

  lemma ServedParts(s: Snap, ram0: Ram, t: Snap, ram: Ram, c: Limits)
    requires Served(s, ram0, t, ram, c)
    ensures OthersKept(ram0, ram, s.used, c, t.pages) && s.used <= t.used && t.stack.limit == s.stack.limit
  {
  }

  /** Bringing a page in for a copy disturbs nothing that has been written. */
  lemma FaultedFor(s: Snap, ram0: Ram, t: Snap, ram: Ram, x: Snap, mid: Ram, c: Limits, dst: nat, data: Bytes, k: nat)
    requires k <= |data| && Wrote(s.pages, ram0, t.pages, ram, dst, data, k) && Served(t, ram, x, mid, c)
    requires OthersKept(ram0, ram, s.used, c, t.pages) && s.used <= t.used && Backed(x.pages, mid)
    ensures Wrote(s.pages, ram0, x.pages, mid, dst, data, k) && OthersKept(ram0, mid, s.used, c, x.pages)
    ensures s.used <= x.used
  {
    hide Wrote, OthersKept, Extends, Backed;
    ServedOthers(s, ram0, t, ram, x, mid, c);
    WroteExtends(s.pages, ram0, t.pages, ram, x.pages, mid, dst, data, k);
  }

  lemma StoredMore(s: Snap, ram0: Ram, x: Snap, mid: Ram, ram: Ram, c: Limits, dst: nat, data: Bytes,
                   k: nat, chunk: nat)
    requires k + chunk <= |data| && (dst + k) % PAGE + chunk <= PAGE && (dst + k) / PAGE in x.pages
    requires Wrote(s.pages, ram0, x.pages, mid, dst, data, k) && OthersKept(ram0, mid, s.used, c, x.pages)
    requires var f := x.pages[(dst + k) / PAGE].frame;
             && f in mid && |mid[f]| == PAGE
             && ram == mid[f := Splice(mid[f], (dst + k) % PAGE, data[k..k + chunk])]
    ensures Wrote(s.pages, ram0, x.pages, ram, dst, data, k + chunk) && OthersKept(ram0, ram, s.used, c, x.pages)
  {
    hide Wrote, OthersKept, Splice;
    var n := (dst + k) / PAGE;
    WroteChunk(s.pages, ram0, x.pages, mid, dst, data, k, chunk);
    OwnStore(ram0, mid, s.used, c, x.pages, n, ram[x.pages[n].frame]);
  }

  lemma PaidUpTo(s: Snap, pool0: nat, t: Snap, pool: nat, a: nat, b: nat)
    requires Paid(s, pool0, t, pool, a) && a <= b
    ensures Paid(s, pool0, t, pool, b)
  {
  }

  lemma CoversNone(vs: seq<Vma>, addr: nat, write: bool)
    ensures Covers(vs, addr, 0, write)
  {
  }

  lemma ServedOthers(s0: Snap, ram0: Ram, s1: Snap, ram1: Ram, s2: Snap, ram2: Ram, c: Limits)
    requires OthersKept(ram0, ram1, s0.used, c, s1.pages) && s0.used <= s1.used && Served(s1, ram1, s2, ram2, c)
    ensures OthersKept(ram0, ram2, s0.used, c, s2.pages) && s0.used <= s2.used
  {
    OthersTrans(s0, ram0, s1, ram1, s2, ram2, c);
  }

  lemma OwnStore(ram0: Ram, ram: Ram, used0: set<nat>, c: Limits, p: PageMap, n: nat, b: Bytes)
    requires OthersKept(ram0, ram, used0, c, p) && n in p && p[n].frame in ram
    ensures OthersKept(ram0, ram[p[n].frame := b], used0, c, p)
  {
  }

  lemma WroteMapped(p0: PageMap, ram0: Ram, p: PageMap, ram: Ram, dst: nat, data: Bytes, k: nat, size: nat)
    requires k <= |data| && Wrote(p0, ram0, p, ram, dst, data, k)
    ensures Mapped(p0, dst, size) ==> Mapped(p, dst, size)
    ensures Mapped(p0, dst, size) && k < size ==> (dst + k) / PAGE in p
  {
  }

  /** One round of the reading copies. */
  method LoadChunk(u: User, va: nat, size: nat) returns (q: Outcome, b: Bytes)
    requires u.Valid() && va < LOWER_HALF && va % PAGE + size <= PAGE
    modifies u`stack, u`rssStack, u`rssAnon, u.mem`ram, u.mem.pt, u.mem.frames`hint, u.mem.frames.bitmap
    ensures !q.Panicked? ==> u.Valid() && u.Bounds() == old(u.Bounds()) && u.mm.Areas() == old(u.mm.Areas())
    ensures !q.Panicked? ==>
              Served(old(u.Now()), old(u.mem.ram), u.Now(), u.mem.ram, u.Bounds()) && Backed(u.mem.Pages(), u.mem.ram)
    ensures q.Handled? ==> |b| == size && Reads(u.mem.Pages(), u.mem.ram, va, b)
    ensures va / PAGE in old(u.mem.Pages()) ==> q.Handled? && u.Now() == old(u.Now()) && u.mem.ram == old(u.mem.ram)
    ensures q.Refused? ==> u.Now() == old(u.Now()) && Denied(u.Now(), u.Bounds(), u.sp, va, false)
    ensures !q.Panicked? ==> u.mem.Books() == old(u.mem.Books())
    ensures !q.Panicked? ==> Paid(old(u.Now()), |old(u.mem.pt.pool)|, u.Now(), |u.mem.pt.pool|, 1)
    ensures q.Panicked? ==> |old(u.mem.pt.pool)| < Worst(old(u.Now()), 1)
  {
    hide AttrAt, Sorted, Sound, Memory.Valid, Mm.Valid, UserMap, UsedSet, Served, TablesFor, Paid, Worst, Denied,
      Memory.Books;
    var f;
    q, f := EnsureMapped(u, va, false);
    if !q.Handled? {
      if q.Refused? { ValidBacked(u); }
      return q, [];
    }
    ValidBacked(u);
    b := u.mem.Load(f, va % PAGE, size);
    ReadsNothing(u.mem.Pages(), u.mem.ram, va);
    ReadsChunk(u.mem.Pages(), u.mem.ram, va, [], size);
    assert [] + b == b;
  }

  /** copy_from_user */
  method CopyFromUser(u: User, src: nat, size: nat) returns (r: CopyResult, data: Bytes)
    requires u.Valid() && src < SPACE && size < SPACE
    modifies u`stack, u`rssStack, u`rssAnon, u.mem`ram, u.mem.pt, u.mem.frames`hint, u.mem.frames.bitmap
    ensures !r.Panic? ==> u.Valid() && Served(old(u.Now()), old(u.mem.ram), u.Now(), u.mem.ram, u.Bounds())
    ensures !r.Panic? ==> u.Bounds() == old(u.Bounds())
    ensures r.Copied? ==>
              |data| == size && Backed(u.mem.Pages(), u.mem.ram) && Reads(u.mem.Pages(), u.mem.ram, src, data)
    ensures r.Copied? ==> Covers(u.mm.Areas(), src, size, false)
    ensures Covers(old(u.mm.Areas()), src, size, false) && Mapped(old(u.mem.Pages()), src, size) ==>
              r.Copied? && u.Now() == old(u.Now()) && u.mem.ram == old(u.mem.ram)
    ensures !Covers(old(u.mm.Areas()), src, size, false) ==>
              r.Faulted? && u.Now() == old(u.Now()) && u.mem.ram == old(u.mem.ram)
    ensures r.Faulted? && Covers(old(u.mm.Areas()), src, size, false) ==>
              |data| < size && ByPages(src, size, |data|) && Denied(u.Now(), u.Bounds(), u.sp, src + |data|, false)
    ensures r.Faulted? ==> Spent(old(u.Now()), u.Now(), Span(src, |data|))
    ensures !r.Panic? ==> u.mem.Books() == old(u.mem.Books())
    ensures !r.Panic? ==> Paid(old(u.Now()), |old(u.mem.pt.pool)|, u.Now(), |u.mem.pt.pool|, Span(src, size))
    ensures r.Panic? ==> |old(u.mem.pt.pool)| < Worst(old(u.Now()), Span(src, size))
    ensures r.Copied? || r.Faulted? || r.Panic?
  {
    hide AttrAt, Sorted, Sound, Memory.Valid, Mm.Valid, UserMap, UsedSet, Extends, OthersKept, Served, Reads, Covers,
      Backed, Mapped, TablesFor, Paid, Worst, Denied, Span, ByPages, Chunk, Memory.Books, Spent;
    ghost var pool0 := |u.mem.pt.pool|;
    ghost var s, c, ram0 := u.Now(), u.Bounds(), u.mem.ram;
    ValidBacked(u);
    ServedNothing(s, c, ram0);
    ReadsNothing(s.pages, ram0, src);
    CoversNone(s.vs, src, false);
    PaidNothing(s, c, pool0);
    SpanNone(src, size);
    PaidUpTo(s, pool0, s, pool0, 0, Span(src, size));
    PaidSpent(s, pool0, s, pool0, 0);
    data := [];
    if size == 0 { return Copied, data; }
    var ok := AccessOk(u, src, size, false);
    if !ok { return Faulted, data; }
    LowAddresses(s, c);
    while |data| < size
      invariant |data| <= size && u.Valid() && u.Bounds() == c && u.mm.Areas() == s.vs
      invariant Served(s, ram0, u.Now(), u.mem.ram, c)
      invariant Mapped(s.pages, src, size) ==> u.Now() == s && u.mem.ram == ram0
      invariant Backed(u.mem.Pages(), u.mem.ram) && Reads(u.mem.Pages(), u.mem.ram, src, data)
      invariant u.mem.Books() == old(u.mem.Books())
      invariant ByPages(src, size, |data|) && Paid(s, pool0, u.Now(), |u.mem.pt.pool|, Span(src, |data|))
      decreases size - |data|
    {
      var va := src + |data|;
      CoversAt(s.vs, src, size, false, va);
      ServedMapped(s, ram0, u.Now(), u.mem.ram, c, src, size, va);
      ghost var t, ram, pool := u.Now(), u.mem.ram, |u.mem.pt.pool|;
      PaidSpent(s, pool0, t, pool, Span(src, |data|));
      var chunk := Chunk(va, size - |data|);
      ChunkSize(va, size - |data|);
      SpanChunk(src, size, |data|);
      var q, b := LoadChunk(u, va, chunk);
      if q.Panicked? {
        PaidWorst(s, pool0, t, pool, Span(src, |data|), 1, Span(src, size));
        return Panic, data;
      }
      PaidTrans(s, pool0, t, pool, u.Now(), |u.mem.pt.pool|, Span(src, |data|), 1);
      PaidUpTo(s, pool0, u.Now(), |u.mem.pt.pool|, Span(src, |data|) + 1, Span(src, size));
      ServedTrans(s, ram0, t, ram, u.Now(), u.mem.ram, c);
      if q.Refused? { return Faulted, data; }
      ServedReads(t, ram, u.Now(), u.mem.ram, c, src, data);
      ReadsJoin(u.mem.Pages(), u.mem.ram, src, data, b);
      data := data + b;
    }
    return Copied, data;
  }

  lemma ReadsNothing(p: PageMap, ram: Ram, src: nat)
    requires Backed(p, ram)
    ensures Reads(p, ram, src, [])
  {
  }

  lemma ServedMapped(s: Snap, ram0: Ram, t: Snap, ram: Ram, c: Limits, addr: nat, size: nat, a: nat)
    requires Served(s, ram0, t, ram, c) && addr <= a < addr + size
    ensures Mapped(s.pages, addr, size) ==> a / PAGE in t.pages
  {
    assert Mapped(s.pages, addr, size) ==> a / PAGE in s.pages;
  }

  lemma ServedReads(s: Snap, ram0: Ram, t: Snap, ram: Ram, c: Limits, src: nat, data: Bytes)
    requires Served(s, ram0, t, ram, c) && Backed(s.pages, ram0) && Backed(t.pages, ram)
    requires Reads(s.pages, ram0, src, data)
    ensures Reads(t.pages, ram, src, data)
  {
    ReadsExtends(s.pages, ram0, t.pages, ram, src, data);
  }

  /** Whatever copy_to_user has stored, copy_from_user reads back, without another fault:
      only the first of the two can fail, and the second leaves all as it is. */
  method Echo(u: User, dst: nat, data: Bytes) returns (r: CopyResult, back: Bytes)
    requires u.Valid() && dst < SPACE && |data| < SPACE
    modifies u`stack, u`rssStack, u`rssAnon, u.mem`ram, u.mem.pt, u.mem.frames`hint, u.mem.frames.bitmap
    ensures r.Copied? ==>
              && back == data
              && Wrote(old(u.mem.Pages()), old(u.mem.ram), u.mem.Pages(), u.mem.ram, dst, data, |data|)
    ensures !r.Panic? ==> u.Valid() && u.mm.Areas() == old(u.mm.Areas())
    ensures !r.Panic? ==> OthersKept(old(u.mem.ram), u.mem.ram, old(u.mem.Used()), u.Bounds(), u.mem.Pages())
    ensures !Covers(old(u.mm.Areas()), dst, |data|, true) ==> r.Faulted?
    ensures Covers(old(u.mm.Areas()), dst, |data|, true) && Mapped(old(u.mem.Pages()), dst, |data|) ==> r.Copied?
    ensures r.Faulted? && Covers(old(u.mm.Areas()), dst, |data|, true) ==>
              exists a :: dst <= a < dst + |data| && Denied(u.Now(), u.Bounds(), u.sp, a, true)
    ensures r.Panic? ==> |old(u.mem.pt.pool)| < Worst(old(u.Now()), Span(dst, |data|))
    ensures r.Copied? || r.Faulted? || r.Panic?
  {
    hide AttrAt, Sorted, Sound, Memory.Valid, Mm.Valid, UserMap, UsedSet, Extends, OthersKept, Backed, Denied,
      Worst, Paid;
    ghost var done;
    r, done := CopyToUser(u, dst, data);
    if !r.Copied? { return r, []; }
    ghost var p, ram := u.mem.Pages(), u.mem.ram;
    StoredMapped(old(u.mem.Pages()), old(u.mem.ram), p, ram, dst, data);
    ghost var t := u.Now();
    ValidBacked(u);
    r, back := CopyFromUser(u, dst, |data|);
    assert r.Copied?;
    ValidBacked(u);
    ServedReads(t, ram, u.Now(), u.mem.ram, u.Bounds(), dst, data);
    ReadsSame(u.mem.Pages(), u.mem.ram, dst, data, back);
  }

  lemma StoredMapped(p0: PageMap, ram0: Ram, p: PageMap, ram: Ram, dst: nat, data: Bytes)
    requires Wrote(p0, ram0, p, ram, dst, data, |data|)
    ensures Mapped(p, dst, |data|) && Reads(p, ram, dst, data)
  {
    forall a | dst <= a < dst + |data| ensures a / PAGE in p {
      assert ByteAt(p, ram, dst + (a - dst)) == Some(data[a - dst]);
    }
  }

  lemma ReadsSame(p: PageMap, ram: Ram, src: nat, x: Bytes, y: Bytes)
    requires Backed(p, ram) && Reads(p, ram, src, x) && Reads(p, ram, src, y) && |x| == |y|
    ensures x == y
  {
    forall i | 0 <= i < |x| ensures x[i] == y[i] {
      assert ByteAt(p, ram, src + i) == Some(x[i]);
      assert ByteAt(p, ram, src + i) == Some(y[i]);
    }
  }

  ghost predicate NoNul(b: Bytes) { forall i :: 0 <= i < |b| ==> b[i] != 0 }

  method FirstNul(b: Bytes) returns (i: nat)
    ensures i <= |b| && NoNul(b[..i]) && (i < |b| ==> b[i] == 0)
  {
    i := 0;
    while i < |b| && b[i] != 0
      invariant i <= |b| && NoNul(b[..i])
    {
      i := i + 1;
    }
  }

  /** One round of copy_str_from_user; i is where the string ends, if it does. */
  method LoadStr(u: User, va: nat, left: nat) returns (q: Outcome, b: Bytes, i: nat)
    requires u.Valid() && va < SPACE && 0 < left < SPACE
    modifies u`stack, u`rssStack, u`rssAnon, u.mem`ram, u.mem.pt, u.mem.frames`hint, u.mem.frames.bitmap
    ensures !q.Panicked? ==> u.Valid() && u.Bounds() == old(u.Bounds()) && u.mm.Areas() == old(u.mm.Areas())
    ensures !q.Panicked? ==>
              Served(old(u.Now()), old(u.mem.ram), u.Now(), u.mem.ram, u.Bounds()) && Backed(u.mem.Pages(), u.mem.ram)
    ensures q.Handled? ==> |b| == Chunk(va, left) && Reads(u.mem.Pages(), u.mem.ram, va, b) && va + |b| <= LOWER_HALF
    ensures q.Handled? ==> i <= |b| && NoNul(b[..i]) && (i < |b| ==> b[i] == 0)
    ensures q.Refused? ==> Unreadable(u.Now(), u.Bounds(), u.sp, va, left)
    ensures Covers(old(u.mm.Areas()), va, Chunk(va, left), false) && va / PAGE in old(u.mem.Pages()) ==> q.Handled?
    ensures !q.Panicked? ==> u.mem.Books() == old(u.mem.Books())
    ensures !q.Panicked? ==> Paid(old(u.Now()), |old(u.mem.pt.pool)|, u.Now(), |u.mem.pt.pool|, 1)
    ensures q.Panicked? ==> |old(u.mem.pt.pool)| < Worst(old(u.Now()), 1)
  {
    hide AttrAt, Sorted, Sound, Memory.Valid, Mm.Valid, UserMap, UsedSet, Extends, OthersKept, Served, Reads, Covers,
      Backed, Chunk, TablesFor, Paid, Worst, Denied, Memory.Books;
    ghost var s, c := u.Now(), u.Bounds();
    ValidBacked(u);
    ServedNothing(s, c, u.mem.ram);
    PaidNothing(s, c, |u.mem.pt.pool|);
    PaidUpTo(s, |u.mem.pt.pool|, s, |u.mem.pt.pool|, 0, 1);
    LowAddresses(s, c);
    var chunk := Chunk(va, left);
    ChunkSize(va, left);
    var ok := AccessOk(u, va, chunk, false);
    if !ok { return Refused, [], 0; }
    CoversAt(s.vs, va, chunk, false, va);
    CoversAt(s.vs, va, chunk, false, va + chunk - 1);
    q, b := LoadChunk(u, va, chunk);
    i := 0;
    if q.Handled? { i := FirstNul(b); }
  }

  /** The part of the page of va that is asked for lies outside the areas, or cannot be brought in. */
  ghost predicate Unreadable(s: Snap, c: Limits, sp: nat, va: nat, left: nat) {
    Covers(s.vs, va, Chunk(va, left), false) ==> Denied(s, c, sp, va, false)
  }

  /** copy_str_from_user: the string at src with its terminator, or, when that does not
      fit, as much of it as does. */
  method CopyStrFromUser(u: User, size: nat, src: nat) returns (r: CopyResult, text: Bytes)
    requires u.Valid() && src < SPACE && size < SPACE
    modifies u`stack, u`rssStack, u`rssAnon, u.mem`ram, u.mem.pt, u.mem.frames`hint, u.mem.frames.bitmap
    ensures !r.Panic? ==> u.Valid() && Served(old(u.Now()), old(u.mem.ram), u.Now(), u.mem.ram, u.Bounds())
    ensures r.Invalid? <==> size == 0
    ensures r.Copied? || r.TooLong? ==> Backed(u.mem.Pages(), u.mem.ram) && Reads(u.mem.Pages(), u.mem.ram, src, text)
    ensures r.Copied? ==> 0 < |text| < size && NoNul(text[..|text| - 1]) && text[|text| - 1] == 0
    ensures r.TooLong? ==> |text| == size - 1 && NoNul(text)
    ensures r.Faulted? && src / LOWER_HALF % 2 == 0 ==>
              |text| + 1 < size && Unreadable(u.Now(), u.Bounds(), u.sp, src + |text|, size - 1 - |text|)
    ensures (&& size > 0 && src < LOWER_HALF && Covers(old(u.mm.Areas()), src, size - 1, false)
             && Mapped(old(u.mem.Pages()), src, size - 1)) ==> r.Copied? || r.TooLong?
    ensures !r.Panic? ==> u.mem.Books() == old(u.mem.Books())
    ensures r.Panic? ==> size > 0 && |old(u.mem.pt.pool)| < Worst(old(u.Now()), Span(src, size - 1))
  {
    hide AttrAt, Sorted, Sound, Memory.Valid, Mm.Valid, UserMap, UsedSet, Extends, OthersKept, Served, Reads, Covers,
      Backed, Chunk, TablesFor, Paid, Worst, Unreadable, Span, ByPages, Mapped, Memory.Books;
    ghost var s, c, ram0, pool0 := u.Now(), u.Bounds(), u.mem.ram, |u.mem.pt.pool|;
    ValidBacked(u);
    ServedNothing(s, c, ram0);
    ReadsNothing(s.pages, ram0, src);
    PaidNothing(s, c, pool0);
    text := [];
    if size == 0 { return Invalid, text; }
    if src / LOWER_HALF % 2 == 1 { return Faulted, text; }
    SpanNone(src, size - 1);
    while |text| + 1 < size
      invariant |text| < size && src + |text| < SPACE && NoNul(text) && u.Valid() && u.Bounds() == c
      invariant u.mm.Areas() == s.vs
      invariant Served(s, ram0, u.Now(), u.mem.ram, c) && u.mem.Books() == old(u.mem.Books())
      invariant Backed(u.mem.Pages(), u.mem.ram) && Reads(u.mem.Pages(), u.mem.ram, src, text)
      invariant ByPages(src, size - 1, |text|) && Paid(s, pool0, u.Now(), |u.mem.pt.pool|, Span(src, |text|))
      decreases size - |text|
    {
      var va := src + |text|;
      ghost var t, ram, pool, k := u.Now(), u.mem.ram, |u.mem.pt.pool|, Span(src, |text|);
      ChunkSize(va, size - 1 - |text|);
      SpanChunk(src, size - 1, |text|);
      CoversPart(s.vs, src, size - 1, |text|, Chunk(va, size - 1 - |text|));
      ServedMapped(s, ram0, t, ram, c, src, size - 1, va);
      var q, b, i := LoadStr(u, va, size - 1 - |text|);
      if q.Panicked? {
        PaidWorst(s, pool0, t, pool, k, 1, Span(src, size - 1));
        return Panic, text;
      }
      PaidTrans(s, pool0, t, pool, u.Now(), |u.mem.pt.pool|, k, 1);
      ServedTrans(s, ram0, t, ram, u.Now(), u.mem.ram, c);
      if q.Refused? { return Faulted, text; }
      ServedReads(t, ram, u.Now(), u.mem.ram, c, src, text);
      ReadsJoin(u.mem.Pages(), u.mem.ram, src, text, b);
      if i < |b| {
        CutAtNul(u.mem.Pages(), u.mem.ram, src, text, b, i);
        text := text + b[..i + 1];
        return Copied, text;
      }
      NoNulJoin(text, b, i);
      text := text + b;
    }
    return TooLong, text;
  }

  lemma CoversPart(vs: seq<Vma>, addr: nat, size: nat, done: nat, chunk: nat)
    requires done + chunk <= size
    ensures Covers(vs, addr, size, false) ==> Covers(vs, addr + done, chunk, false)
  {
    hide AttrAt;
  }

  lemma NoNulJoin(text: Bytes, b: Bytes, i: nat)
    requires NoNul(text) && i == |b| && NoNul(b[..i])
    ensures NoNul(text + b)
  {
    assert b[..i] == b;
  }

  lemma ReadsJoin(p: PageMap, ram: Ram, src: nat, text: Bytes, b: Bytes)
    requires Backed(p, ram) && Reads(p, ram, src, text) && Reads(p, ram, src + |text|, b)
    ensures Reads(p, ram, src, text + b)
  {
    forall i | 0 <= i < |text + b| ensures ByteAt(p, ram, src + i) == Some((text + b)[i]) {
      if i < |text| {
        assert ByteAt(p, ram, src + i) == Some(text[i]);
      } else {
        assert ByteAt(p, ram, src + |text| + (i - |text|)) == Some(b[i - |text|]);
      }
    }
  }

  lemma CutAtNul(p: PageMap, ram: Ram, src: nat, text: Bytes, b: Bytes, i: nat)
    requires Backed(p, ram) && Reads(p, ram, src, text + b) && i < |b| && NoNul(text) && NoNul(b[..i])
    ensures var cut := text + b[..i + 1]; Reads(p, ram, src, cut) && NoNul(cut[..|cut| - 1]) && cut[|cut| - 1] == b[i]
  {
    ReadsPrefix(p, ram, src, text + b, |text| + i + 1);
    assert (text + b)[..|text| + i + 1] == text + b[..i + 1];
    assert (text + b[..i + 1])[..|text| + i] == text + b[..i];
  }

  lemma ReadsPrefix(p: PageMap, ram: Ram, src: nat, data: Bytes, k: nat)
    requires Backed(p, ram) && Reads(p, ram, src, data) && k <= |data|
    ensures Reads(p, ram, src, data[..k])
  {
    forall i | 0 <= i < k ensures ByteAt(p, ram, src + i) == Some(data[..k][i]) {
      assert ByteAt(p, ram, src + i) == Some(data[i]);
    }
  }
}
