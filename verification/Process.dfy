/** Demand paging and user allocation for one process: mm_try_handle_page_fault of
    kernel/memory/mm_process.c, syscall_palloc and syscall_pfree of kernel/process/syscall.c. */
module Process {
  import opened Wrappers
  import opened TableForest
  import opened Descriptors
  import opened Vmas
  import opened MmapWindow
  import opened ProcessState
  import PageBitmap
  import opened Backing
  import opened AddressSpace
  import opened UserAreas

  const FLAG_DEMAND: bv8 := 1
  const FLAG_ZERO: bv8 := 4

  class User {
    const mem: Memory
    const mm: Mm
    const capStack: nat
    const capAnon: nat
    var stack: Stack
    var sp: nat
    var rssStack: nat
    var rssAnon: nat

    constructor (mem: Memory, mm: Mm, capStack: nat, capAnon: nat, stack: Stack, sp: nat)
      ensures this.mem == mem && this.mm == mm && this.capStack == capStack && this.capAnon == capAnon
      ensures this.stack == stack && this.sp == sp && rssStack == 0 && rssAnon == 0
    {
      this.mem, this.mm, this.capStack, this.capAnon := mem, mm, capStack, capAnon;
      this.stack, this.sp, rssStack, rssAnon := stack, sp, 0, 0;
    }

    /** The parts do not overlap in memory. */
    ghost predicate Separate()
      reads this, mem, mm
    {
      && mm.vmas as object != mem.frames.bitmap as object && mm.mmapFree as object != mem.frames.bitmap as object
    }

    ghost function Snapshot(commit: nat): Snap
      reads this, mem, mem.pt, mem.frames, mem.frames.bitmap, mm, mm.vmas
      requires mm.vmaCount <= mm.vmas.Length
    {
      Snap(mem.Pages(), mem.Used(), mm.Areas(), stack.(commit := commit), rssStack, rssAnon)
    }

    ghost function Now(): Snap
      reads this, mem, mem.pt, mem.frames, mem.frames.bitmap, mm, mm.vmas
      requires mm.vmaCount <= mm.vmas.Length
    {
      Snapshot(stack.commit)
    }

    ghost function Bounds(): Limits
      reads this, mem, mem.frames
    {
      Limits(mem.frames.min, mem.frames.max, mem.ram.Keys, capStack, capAnon)
    }

    /** As Valid, were the stack committed down to the given address. */
    ghost predicate ValidAt(commit: nat)
      reads this, mem, mem.pt, mem.frames, mem.frames.bitmap, mm, mm.vmas, mm.mmapFree
    {
      && Separate() && mem.Valid() && mm.Valid() && mm.vmaCount <= mm.vmas.Length
      && Sound(Snapshot(commit), Bounds())
    }

    ghost predicate Valid()
      reads this, mem, mem.pt, mem.frames, mem.frames.bitmap, mm, mm.vmas, mm.mmapFree
    {
      ValidAt(stack.commit)
    }

    /** Unmaps and frees the lowest page of a stack committed down to `undo`. */
    method UndoOne(undo: nat)
      requires ValidAt(undo) && undo < stack.top
      modifies this`rssStack, mem.pt, mem.frames`hint, mem.frames.bitmap
      ensures ValidAt(undo + PAGE)
      ensures undo / PAGE in old(mem.Pages()) && mem.Pages() == old(mem.Pages()) - {undo / PAGE}
      ensures mem.Used() == old(mem.Used()) - {old(mem.Pages())[undo / PAGE].frame} && mem.Books() == old(mem.Books())
    {
      hide Sound, AlignedTo, UserMap, UsedSet, Memory.Valid, Mm.Valid, TablesFor, Memory.Books;
      ghost var s := Snapshot(undo);
      SoundStack(s, Bounds());
      ShrinkOne(s, Bounds());
      var f := mem.Unmap(undo / PAGE);
      if f.Some? {
        mem.FreeFrame(f.value);
        if rssStack > 0 { rssStack := rssStack - 1; }
      }
    }

    /** The loop of a stack fault that gives back what it mapped: pages [from, commit). */
    method UndoGrowth(from: nat, ghost p0: PageMap, ghost u0: set<nat>, ghost attr: bv64)
      requires ValidAt(from) && from <= stack.commit && AlignedTo(stack.commit) && stack.commit <= stack.top
      requires Grown(p0, u0, mem.Pages(), mem.Used(), from, stack.commit, attr)
      modifies this`rssStack, mem.pt, mem.frames`hint, mem.frames.bitmap
      ensures Valid() && mem.Pages() == p0 && mem.Used() == u0 && mem.Books() == old(mem.Books())
    {
      hide Sound, Grown, AlignedTo, UserMap, UsedSet, Memory.Valid, Mm.Valid, TablesFor, Memory.Books;
      var undo := from;
      SoundStack(Snapshot(undo), Bounds());
      while undo < stack.commit
        invariant from <= undo <= stack.commit && ValidAt(undo) && mem.Books() == old(mem.Books())
        invariant Grown(p0, u0, mem.Pages(), mem.Used(), undo, stack.commit, attr)
      {
        SoundStack(Snapshot(undo), Bounds());
        ShrinkOne(Snapshot(undo), Bounds());
        OwnFrame(Snapshot(undo), Bounds(), undo / PAGE);
        GrownUp(p0, u0, mem.Pages(), mem.Used(), undo, stack.commit, attr);
        AlignedNext(undo, stack.commit);
        UndoOne(undo);
        undo := undo + PAGE;
      }
      GrownBack(p0, u0, mem.Pages(), mem.Used(), stack.commit, attr);
    }

    /** One round of the growth loop: the page below `cur`. */
    method GrowOneMore(cur: nat, prot: bv8) returns (r: Outcome, ghost l: Leaf)
      requires ValidAt(cur) && stack.limit + PAGE <= cur && rssStack < capStack
      modifies this`rssStack, mem`ram, mem.pt, mem.frames`hint, mem.frames.bitmap
      ensures (r.Panicked? ==> |old(mem.pt.pool)| < 3) && |mem.pt.pool| >= |old(mem.pt.pool)| - 3
      ensures !r.Panicked? ==> mem.Books() == old(mem.Books())
      ensures r.Refused? ==>
                && ValidAt(cur) && mem.Pages() == old(mem.Pages()) && mem.Used() == old(mem.Used())
                && mem.ram == old(mem.ram)
      ensures r.Refused? ==>
                rssStack == old(rssStack) && forall f :: mem.frames.min <= f < mem.frames.max ==> f in mem.Used()
      ensures r.Handled? ==> ValidAt(cur - PAGE) && rssStack == old(rssStack) + 1 && cur / PAGE >= 1
      ensures r.Handled? ==> cur / PAGE - 1 !in old(mem.Pages()) && mem.Pages() == old(mem.Pages())[cur / PAGE - 1 := l]
      ensures r.Handled? ==>
                l.attr == UserAttr(prot) && l.frame !in old(mem.Used()) && mem.Used() == old(mem.Used()) + {l.frame}
      ensures r.Handled? ==>
                && l.frame in old(mem.ram) && mem.ram == old(mem.ram)[l.frame := ZERO_PAGE]
                && mem.frames.min <= l.frame < mem.frames.max
    {
      hide Sound, AlignedTo, UserMap, UsedSet, Memory.Valid, Mm.Valid, Attributes, TablesFor, Memory.Books;
      ghost var s, c := Snapshot(cur), Bounds();
      SoundStack(s, c);
      StackPageFree(s, c);
      var f;
      r, f := mem.Populate(cur / PAGE - 1, prot, true);
      l := Leaf(f, UserAttr(prot));
      if r.Handled? {
        GrowOne(s, c, l);
        rssStack := rssStack + 1;
      }
    }

    /** The stack case of mm_try_handle_page_fault: either every page from growTo to
        the commit point is mapped and zeroed, or nothing has changed. */
    method GrowStack(growTo: nat, prot: bv8) returns (r: Outcome)
      requires Valid() && AlignedTo(growTo) && stack.limit <= growTo <= stack.commit
      requires (stack.top - growTo) / PAGE <= capStack
      modifies this`stack, this`rssStack, mem`ram, mem.pt, mem.frames`hint, mem.frames.bitmap
      ensures !r.Panicked? ==> Valid() && Kept(mem.ram, old(mem.ram), old(mem.Used()), Bounds())
      ensures !r.Panicked? ==>
                && mem.Books() == old(mem.Books())
                && |mem.pt.pool| >= |old(mem.pt.pool)| - 3 * Pages(growTo, old(stack.commit))
      ensures r.Panicked? ==> |old(mem.pt.pool)| < 3 * Pages(growTo, old(stack.commit))
      ensures r.Refused? ==> mem.Pages() == old(mem.Pages()) && mem.Used() == old(mem.Used())
      ensures r.Refused? ==> stack == old(stack) && rssStack == old(rssStack)
      ensures r.Refused? ==> Scarce(old(mem.Used()), mem.frames.min, mem.frames.max, (stack.commit - growTo) / PAGE)
      ensures r.Handled? ==> stack == old(stack).(commit := growTo)
      ensures r.Handled? ==>
          Grown(old(mem.Pages()), old(mem.Used()), mem.Pages(), mem.Used(), growTo, old(stack.commit), UserAttr(prot))
      ensures r.Handled? ==> ZeroedIn(mem.Pages(), mem.ram, growTo, old(stack.commit))
    {
      hide Sound, AlignedTo, UserMap, UsedSet, Memory.Valid, Mm.Valid, Attributes, Grown, TablesFor, Pages,
        Memory.Books;
      ghost var p0, u0, attr, c := mem.Pages(), mem.Used(), UserAttr(prot), Bounds();
      mem.BooksAre();
      SoundStack(Snapshot(stack.commit), Bounds());
      GrownNothing(p0, u0, stack.commit, attr);
      var cur := stack.commit;
      while cur > growTo
        invariant growTo <= cur <= stack.commit && stack == old(stack) && ValidAt(cur)
        invariant Grown(p0, u0, mem.Pages(), mem.Used(), cur, stack.commit, attr)
        invariant Kept(mem.ram, old(mem.ram), u0, c) && Bounds() == c
        invariant mem.Books() == old(mem.Books())
        invariant |mem.pt.pool| >= |old(mem.pt.pool)| - 3 * Pages(cur, stack.commit)
        invariant ZeroedIn(mem.Pages(), mem.ram, cur, stack.commit)
      {
        SoundStack(Snapshot(cur), Bounds());
        AlignedNext(growTo, cur);
        StackRoom(Snapshot(cur), Bounds(), growTo);
        PagesDown(growTo, cur, stack.commit);
        ghost var p, u, m := mem.Pages(), mem.Used(), mem.ram;
        ghost var l;
        r, l := GrowOneMore(cur, prot);
        if r.Panicked? { return; }
        if r.Refused? {
          GrownScarce(p0, u0, p, u, growTo, cur, stack.commit, attr, c);
          UndoGrowth(cur, p0, u0, attr);
          mem.BooksAre();
          SoundStack(Snapshot(stack.commit), Bounds());
          return;
        }
        GrownDown(p0, u0, p, u, cur, stack.commit, attr, l);
        ZeroedDown(p0, u0, p, u, m, cur, stack.commit, attr, l);
        cur := cur - PAGE;
      }
      stack := stack.(commit := growTo);
      return Handled;
    }

    /** The stack branch of mm_try_handle_page_fault. */
    method FaultStack(page: nat, prot: bv8) returns (r: Outcome)
      requires Valid() && AlignedTo(page) && page / PAGE !in mem.Pages()
      modifies this`stack, this`rssStack, mem`ram, mem.pt, mem.frames`hint, mem.frames.bitmap
      ensures !r.Panicked? ==>
                Valid() && Kept(mem.ram, old(mem.ram), old(mem.Used()), Bounds()) && mem.Books() == old(mem.Books())
      ensures r.Panicked? ==>
                InReach(page, old(stack), sp, capStack) && |old(mem.pt.pool)| < 3 * Pages(page, old(stack.commit))
      ensures r.Handled? ==> |mem.pt.pool| >= |old(mem.pt.pool)| - 3 * Pages(page, old(stack.commit))
      ensures r.Refused? ==> mem.Pages() == old(mem.Pages()) && mem.Used() == old(mem.Used())
      ensures r.Refused? ==> stack == old(stack) && rssStack == old(rssStack)
      ensures r.Refused? && InReach(page, stack, sp, capStack) ==>
                && page <= stack.commit
                && Scarce(old(mem.Used()), mem.frames.min, mem.frames.max, (stack.commit - page) / PAGE)
      ensures r.Handled? ==> InReach(page, old(stack), sp, capStack) && page < old(stack.commit)
      ensures r.Handled? ==>
                stack == old(stack).(commit := page) && ZeroedIn(mem.Pages(), mem.ram, page, old(stack.commit))
      ensures r.Handled? ==>
          Grown(old(mem.Pages()), old(mem.Used()), mem.Pages(), mem.Used(), page, old(stack.commit), UserAttr(prot))
    {
      hide Sound, AlignedTo, UserMap, UsedSet, Memory.Valid, Mm.Valid, Attributes, Grown, Down, TablesFor, Pages,
        Memory.Books;
      SoundStack(Snapshot(stack.commit), Bounds());
      var low := StackLow(sp, stack.limit);
      if page < low || page < stack.limit || page >= stack.top { return Refused; }
      UnmappedStack(Snapshot(stack.commit), Bounds(), page);
      var growTo := if page < stack.commit then page else stack.commit;
      if (stack.top - growTo) / PAGE > capStack { return Refused; }
      r := GrowStack(growTo, prot);
    }

    /** The other kinds: one page. */
    method FaultPage(page: nat, m: Vma) returns (r: Outcome)
      requires Valid() && AlignedTo(page) && page / PAGE !in mem.Pages() && m.kind != KIND_STACK
      requires AttrAt(mm.Areas(), page) == Some(AttrOf(m))
      modifies this`rssAnon, mem`ram, mem.pt, mem.frames`hint, mem.frames.bitmap
      ensures !r.Panicked? ==>
                Valid() && Kept(mem.ram, old(mem.ram), old(mem.Used()), Bounds()) && mem.Books() == old(mem.Books())
      ensures r.Panicked? ==> |old(mem.pt.pool)| < 3 && (m.kind == KIND_ANON ==> old(rssAnon) < capAnon)
      ensures |mem.pt.pool| >= |old(mem.pt.pool)| - 3
      ensures r.Refused? ==> mem.Pages() == old(mem.Pages()) && mem.Used() == old(mem.Used()) && rssAnon == old(rssAnon)
      ensures r.Refused? && (m.kind == KIND_ANON ==> rssAnon < capAnon) ==>
                Scarce(old(mem.Used()), mem.frames.min, mem.frames.max, 1)
      ensures r.Handled? ==> (m.kind == KIND_ANON ==> old(rssAnon) < capAnon)
      ensures r.Handled? ==> rssAnon == old(rssAnon) + if m.kind == KIND_ANON then 1 else 0
      ensures r.Handled? ==>
                Grown(old(mem.Pages()), old(mem.Used()), mem.Pages(), mem.Used(), page, page + PAGE, UserAttr(m.prot))
      ensures r.Handled? && (m.kind != KIND_ANON || m.flags & FLAG_ZERO != 0) ==>
                ZeroedIn(mem.Pages(), mem.ram, page, page + PAGE)
    {
      hide Sound, UserMap, UsedSet, Memory.Valid, Mm.Valid, Attributes, Grown, AttrAt, FramesIn, TablesFor,
        Memory.Books;
      ghost var s, c := Snapshot(stack.commit), Bounds();
      if m.kind == KIND_ANON && rssAnon >= capAnon { return Refused; }
      var n := page / PAGE;
      AreaBelow(s, c, page);
      var f;
      r, f := mem.Populate(n, m.prot, m.kind != KIND_ANON || m.flags & FLAG_ZERO != 0);
      ghost var l := Leaf(f, UserAttr(m.prot));
      if r.Refused? && c.lo <= c.hi {
        RangeSize(c.lo, c.hi, mem.Used());
      }
      if r.Handled? {
        FaultOne(s, c, n, l);
        GrownOne(s.pages, s.used, n, l);
        ZeroedOne(s.pages, n, l, mem.ram);
        if m.kind == KIND_ANON { rssAnon := rssAnon + 1; }
      }
    }

    /** The access flag branch: the page is marked accessed, and nothing else. */
    method FaultAccess(far: nat) returns (r: Outcome)
      requires Valid() && far < SPACE
      modifies mem.pt`mem, mem.pt`view
      ensures Valid() && mem.Used() == old(mem.Used()) && !r.Panicked? && mem.Books() == old(mem.Books())
      ensures r.Handled? <==> LookupPage(far) in old(mem.Pages())
      ensures mem.Pages() == if r.Handled? then Accessed(old(mem.Pages()), LookupPage(far)) else old(mem.Pages())
    {
      hide Sound, UserMap, UsedSet, Memory.Valid, Mm.Valid, WithAf, LookupPage, TablesFor, Memory.Books;
      ghost var s, c, n := Snapshot(stack.commit), Bounds(), LookupPage(far);
      var hit := mem.Touch(far);
      if hit {
        TouchSound(s, c, n, WithAf(s.pages[n].attr));
        return Handled;
      }
      return Refused;
    }

    /** mm_try_handle_page_fault. The hardware reports a translation fault only for a
        page that is not mapped. */
    method HandleFault(far: nat, esr: nat) returns (r: Outcome)
      requires Valid() && far < SPACE
      requires IsTranslation(esr) ==> far / PAGE !in mem.Pages()
      modifies this`stack, this`rssStack, this`rssAnon, mem`ram, mem.pt, mem.frames`hint, mem.frames.bitmap
      ensures !r.Panicked? ==> Valid() && FaultSpec(old(Now()), old(mem.ram), Now(), mem.ram, Bounds(), sp, far, esr, r)
      ensures !r.Panicked? ==> Bounds() == old(Bounds()) && stack == old(stack).(commit := stack.commit)
      ensures !r.Panicked? ==> mem.Books() == old(mem.Books())
      ensures r.Handled? ==> |mem.pt.pool| >= |old(mem.pt.pool)| - 3 * Wanted(old(Now()), Down(far))
      ensures r.Panicked? ==> IsTranslation(esr) && Admitted(old(Now()), old(Bounds()), sp, Down(far), AccessOf(esr))
      ensures r.Panicked? ==> |old(mem.pt.pool)| < 3 * Wanted(old(Now()), Down(far))
      ensures IsTranslation(esr) && r.Handled? ==>
                && far / PAGE in mem.Pages() && Grants(RightsOf(mem.Pages()[far / PAGE].attr), AccessOf(esr))
                && Allowed(old(Now()), old(Bounds()), sp, Down(far), AccessOf(esr))
      ensures IsTranslation(esr) && Allowed(old(Now()), old(Bounds()), sp, Down(far), AccessOf(esr)) ==>
                Affords(old(Now()), old(Bounds()), |old(mem.pt.pool)|, Wanted(old(Now()), Down(far))) ==> r.Handled?
    {
      hide Sound, UserMap, UsedSet, Memory.Valid, Mm.Valid, FaultSpec, Admitted, Allowed, Affords, Wanted, Grants,
        RightsOf, AccessOf, AttrAt, TablesFor, Memory.Books, Separate;
      ghost var s, ram0, c, pool := Now(), mem.ram, Bounds(), |mem.pt.pool|;
      r := SortFault(far, esr);
      FaultMeans(s, ram0, Now(), mem.ram, c, sp, far, esr, pool, r);
    }

    /** The branches of mm_try_handle_page_fault. */
    method SortFault(far: nat, esr: nat) returns (r: Outcome)
      requires Valid() && far < SPACE
      requires IsTranslation(esr) ==> far / PAGE !in mem.Pages()
      modifies this`stack, this`rssStack, this`rssAnon, mem`ram, mem.pt, mem.frames`hint, mem.frames.bitmap
      ensures !r.Panicked? ==> Valid() && FaultSpec(old(Now()), old(mem.ram), Now(), mem.ram, Bounds(), sp, far, esr, r)
      ensures !r.Panicked? ==> Bounds() == old(Bounds()) && stack == old(stack).(commit := stack.commit)
      ensures !r.Panicked? ==> mem.Books() == old(mem.Books())
      ensures r.Handled? ==> |mem.pt.pool| >= |old(mem.pt.pool)| - 3 * Wanted(old(Now()), Down(far))
      ensures r.Panicked? ==> IsTranslation(esr) && Admitted(old(Now()), old(Bounds()), sp, Down(far), AccessOf(esr))
      ensures r.Panicked? ==> |old(mem.pt.pool)| < 3 * Wanted(old(Now()), Down(far))
    {
      hide Sound, UserMap, UsedSet, Memory.Valid, Mm.Valid, Attributes, Grown, AttrAt, ZeroedIn, Scarce, StackLow,
        WithAf, LookupPage, TablesFor, Memory.Books;
      if IsAccessFlag(esr) {
        r := FaultAccess(far);
        return;
      }
      if 0xD <= esr % 64 <= 0xF { return Refused; }
      if esr % 64 < 4 || esr % 64 > 7 { return Refused; }
      var page := Down(far);
      assert page / PAGE == far / PAGE && AlignedTo(page);
      var m := mm.FindVma(page);
      if m.None? { return Refused; }
      if !Permits(m.value.prot, AccessOf(esr)) { return Refused; }
      if m.value.flags & FLAG_DEMAND == 0 { return Refused; }
      if m.value.kind == KIND_STACK {
        r := FaultStack(page, m.value.prot);
      } else {
        r := FaultPage(page, m.value);
      }
    }

    /** The mmap window is in place below the stack. */
    ghost predicate Ready()
      reads this, mem, mem.pt, mem.frames, mem.frames.bitmap, mm, mm.vmas, mm.mmapFree
    {
      && Valid() && mm.Window() && mm.top <= stack.limit && mm.vmaCount <= mm.vmas.Length
      && NoStack(mm.Areas(), mm.cursor, mm.top) && Anchored(mm.Areas(), mm.Guard(), mm.top)
      && UserInWindow(mm.Areas(), mm.Guard(), mm.top)
    }

    /** No region of so many pages fits between the areas or below the cursor. */
    ghost predicate NoRoom(pages: nat)
      reads mm, mm.vmas, mm.mmapFree
      requires mm.freeCount <= mm.mmapFree.Length
    {
      || mm.vmaCount == MAX_VMAS
      || (mm.cursor < mm.Guard() + pages * PAGE && forall i :: 0 <= i < mm.freeCount ==>
          !Fits(mm.FreeList(), i, pages * PAGE))
    }

    /** syscall_palloc of a process with its own tables; 0 is failure. */
    method Palloc(size: nat) returns (va: nat)
      requires Ready() && size < SPACE
      modifies mm`vmaCount, mm`freeCount, mm`cursor, mm.vmas, mm.mmapFree
      ensures Ready() && PallocSpec(old(Now()), Now(), Bounds(), PageBitmap.CountPages(size, PAGE), va)
      ensures va == 0 <==>
        || size == 0 || size > SPACE - PAGE || rssAnon + PageBitmap.CountPages(size, PAGE) > capAnon
        || old(NoRoom(PageBitmap.CountPages(size, PAGE)))
    {
      hide Sound, UserMap, UsedSet, Memory.Valid, AttrAt, Sorted, Coalesced, Added, Tiled, NoStack, Anchored,
        UserInWindow, PallocSpec, Placed, Fits, Up;
      ghost var s, c := Now(), Bounds();
      PallocFails(s, c, PageBitmap.CountPages(size, PAGE));
      if size == 0 { return 0; }
      var pages := PageBitmap.CountPages(size, PAGE);
      var bytes := pages * PAGE % SPACE;
      if rssAnon + pages > capAnon { return 0; }
      assert bytes == (if size > SPACE - PAGE then 0 else pages * PAGE) && AlignedTo(bytes);
      RoundingAligned(bytes);
      WindowTop(mm.Areas(), mm.FreeList(), mm.Guard(), mm.cursor, mm.top);
      va := mm.AllocMmap(bytes, MEM_RW, KIND_ANON, PALLOC_FLAGS);
      if va != 0 {
        PlacedIs(PallocArea(va, pages), s.vs, mm.Areas(), mm.Guard(), mm.top);
        PallocOk(s, c, pages, va, mm.Guard(), mm.top);
      }
    }

    /** The snapshot, were the areas still vs. */
    ghost function SnapWith(vs: seq<Vma>): Snap
      reads this, mem, mem.pt, mem.frames, mem.frames.bitmap
    {
      Snap(mem.Pages(), mem.Used(), vs, stack, rssStack, rssAnon)
    }

    /** One round of it. */
    method ReleaseOne(a: nat, ghost vs: seq<Vma>)
      requires mem.Valid() && Sound(SnapWith(vs), Bounds()) && AlignedTo(a) && a < LOWER_HALF
      requires KindAt(vs, a, KIND_ANON)
      modifies this`rssAnon, mem.pt, mem.frames`hint, mem.frames.bitmap
      ensures mem.Valid() && Sound(SnapWith(vs), Bounds())
      ensures a / PAGE in old(mem.Pages()) ==> old(rssAnon) > 0
      ensures mem.Books() == old(mem.Books())
      ensures SnapWith(vs) == ReleasedOne(old(SnapWith(vs)), a / PAGE)
    {
      hide Sound, UserMap, UsedSet, Memory.Valid, KindAt, TablesFor, Memory.Books;
      ghost var t, n := SnapWith(vs), a / PAGE;
      assert n * PAGE == a;
      if n in t.pages {
        UnmapAnon(t, Bounds(), n);
      } else {
        assert t.pages - {n} == t.pages;
      }
      var f := mem.Unmap(a / PAGE);
      if f.Some? {
        mem.FreeFrame(f.value);
        if rssAnon > 0 { rssAnon := rssAnon - 1; }
      }
    }

    /** The unmapping loop of syscall_pfree. */
    method ReleaseRange(lo: nat, hi: nat, ghost vs: seq<Vma>)
      requires mem.Valid() && Sound(SnapWith(vs), Bounds()) && AlignedTo(lo) && AlignedTo(hi) && lo <= hi <= LOWER_HALF
      requires forall a :: lo <= a < hi ==> KindAt(vs, a, KIND_ANON)
      modifies this`rssAnon, mem.pt, mem.frames`hint, mem.frames.bitmap
      ensures mem.Valid() && Sound(SnapWith(vs), Bounds())
      ensures |Resident(old(mem.Pages()), lo, hi)| <= old(rssAnon) && mem.Books() == old(mem.Books())
      ensures SnapWith(vs) == Released(old(SnapWith(vs)), lo, hi)
    {
      hide Sound, UserMap, UsedSet, Memory.Valid, AttrAt, Resident, Released, ReleasedOne, KindAt, TablesFor,
        Memory.Books;
      ghost var s := SnapWith(vs);
      ReleasedNone(s, lo);
      var a := lo;
      while a < hi
        invariant lo <= a <= hi && AlignedTo(a) && mem.Valid() && stack == old(stack) && rssStack == old(rssStack)
        invariant mem.Books() == old(mem.Books())
        invariant |Resident(s.pages, lo, a)| <= s.rssAnon && SnapWith(vs) == Released(s, lo, a)
        invariant Sound(SnapWith(vs), Bounds())
      {
        AlignedNext(a, hi);
        ReleaseOne(a, vs);
        ReleasedStep(s, lo, a);
        a := a + PAGE;
      }
    }

    /** syscall_pfree of a process with its own tables. */
    method Pfree(va: nat)
      requires Ready() && va < SPACE
      modifies this`rssAnon, mem.pt, mem.frames`hint, mem.frames.bitmap
      modifies mm`vmaCount, mm`freeCount, mm`cursor, mm.vmas, mm.mmapFree
      ensures Ready() && PfreeSpec(old(Now()), Now(), va) && mem.Books() == old(mem.Books())
    {
      hide Sound, UserMap, UsedSet, Memory.Valid, AttrAt, Sorted, Coalesced, Removed, Returned, Tiled, NoStack,
        Anchored, UserInWindow, PfreeSpec, Released, Owner, UserVmas, Up, Down, TablesFor, Memory.Books;
      ghost var s, c := Now(), Bounds();
      if va == 0 {
        NullUnowned(s.vs, mm.FreeList(), mm.Guard(), mm.cursor, mm.top);
        PfreeNothing(s, va);
        return;
      }
      var m := mm.FindVma(va);
      if m.None? {
        NoOwner(s.vs, va);
        PfreeNothing(s, va);
        return;
      }
      OwnerIs(s.vs, va, m.value, mm.Guard(), mm.top);
      if m.value.kind != KIND_ANON || m.value.flags & USERALLOC == 0 {
        PfreeNothing(s, va);
        return;
      }
      var start, end := m.value.start, m.value.end;
      OwnerBounds(s, c, va, m.value, mm.FreeList(), mm.Guard(), mm.cursor, mm.top);
      RoundingAligned(start);
      RoundingAligned(end);
      var ok := mm.RemoveVma(start, end);
      ReleaseRange(start, end, s.vs);
      PfreeOk(s, c, va, m.value, mm.Guard(), mm.top);
    }
  }

  lemma NullUnowned(vs: seq<Vma>, fs: seq<Range>, guard: nat, cursor: nat, top: nat)
    requires Tiled(vs, fs, guard, cursor, top) && UserInWindow(vs, guard, top)
    ensures forall v :: !Owner(vs, 0, v)
  {
  }

  lemma OwnerIs(vs: seq<Vma>, va: nat, m: Vma, guard: nat, top: nat)
    requires Sorted(vs) && UserInWindow(vs, guard, top) && m in vs && m.start <= va < m.end
    ensures forall v :: Owner(vs, va, v) <==> v == m && m.kind == KIND_ANON && m.flags & USERALLOC != 0
  {
    OnlyOwner(vs, va, m);
    assert IsUserAlloc(m) ==> m in UserVmas(vs);
  }

  lemma OwnerBounds(s: Snap, c: Limits, va: nat, v: Vma, fs: seq<Range>, guard: nat, cursor: nat, top: nat)
    requires Sound(s, c) && Owner(s.vs, va, v) && UserInWindow(s.vs, guard, top) && Tiled(s.vs, fs, guard, cursor, top)
    ensures AlignedTo(v.start) && AlignedTo(v.end) && cursor <= v.start < v.end <= top && v.end <= LOWER_HALF
    ensures v.end < SPACE
    ensures Removed(s.vs, v.start, v.end).Some?
    ensures forall a :: v.start <= a < v.end ==> KindAt(s.vs, a, KIND_ANON)
  {
    hide AttrAt, Removed;
    RemovesOwner(s.vs, v);
    assert AttrAt(s.vs, v.start).Some? && AttrAt(s.vs, v.end - 1).Some?;
  }

  lemma WindowTop(vs: seq<Vma>, fs: seq<Range>, guard: nat, cursor: nat, top: nat)
    requires Tiled(vs, fs, guard, cursor, top)
    ensures 0 < guard <= cursor <= top < SPACE
  {
  }

  lemma PlacedIs(v: Vma, vs: seq<Vma>, vs': seq<Vma>, lo: nat, hi: nat)
    requires Placed(v, vs, vs', lo, hi)
    ensures vs' == Added(vs, v)
  {
  }

  lemma PallocFails(s: Snap, c: Limits, pages: nat)
    ensures PallocSpec(s, s, c, pages, 0)
  {
  }

  /** What a fault may do: set an access flag, bring pages in, or nothing at all; and a
      fault that should have been served is refused only when frames run out. */
  ghost predicate FaultSpec(s: Snap, ram0: map<nat, Bytes>, t: Snap, ram: map<nat, Bytes>, c: Limits, sp: nat,
                            far: nat, esr: nat, r: Outcome) {
    && Kept(ram, ram0, s.used, c)
    && (r.Refused? ==> t == s)
    && (IsAccessFlag(esr) ==>
          && (r.Handled? <==> LookupPage(far) in s.pages)
          && t == if r.Handled? then s.(pages := Accessed(s.pages, LookupPage(far))) else s)
    && (!IsAccessFlag(esr) && r.Handled? ==>
          IsTranslation(esr) && Admitted(s, c, sp, Down(far), AccessOf(esr)) && FaultedIn(s, t, ram, Down(far)))
    && (IsTranslation(esr) && r.Refused? && Admitted(s, c, sp, Down(far), AccessOf(esr)) ==>
          Scarce(s.used, c.lo, c.hi, Wanted(s, Down(far))))
  }

  /** The areas, the stack bounds and the caps allow this access to this page. */
  ghost predicate Admitted(s: Snap, c: Limits, sp: nat, page: nat, access: Access) {
    var a := AttrAt(s.vs, page);
    && a.Some? && Permits(a.value.prot, access) && a.value.flags & FLAG_DEMAND != 0
    && (a.value.kind == KIND_STACK ==> InReach(page, s.stack, sp, c.capStack))
    && (a.value.kind == KIND_ANON ==> s.rssAnon < c.capAnon)
  }

  /** The end of the pages a fault brings in: a stack fault fills the gap up to the commit point. */
  ghost function FaultEnd(s: Snap, page: nat): nat {
    if KindAt(s.vs, page, KIND_STACK) then s.stack.commit else page + PAGE
  }

  ghost function Wanted(s: Snap, page: nat): nat { Pages(page, FaultEnd(s, page)) }

  /** The whole pages from lo to hi. */
  ghost function Pages(lo: nat, hi: nat): nat { if lo <= hi then (hi - lo) / PAGE else 0 }

  lemma PagesDown(lo: nat, cur: nat, hi: nat)
    requires AlignedTo(lo) && AlignedTo(cur) && AlignedTo(hi) && lo < cur <= hi
    ensures Pages(cur - PAGE, hi) == Pages(cur, hi) + 1 <= Pages(lo, hi)
  {
  }

  /** t is s with the faulting page, and for a stack the gap above it, brought in with
      the area's rights; zeroed, except for an anonymous area that did not ask for it. */
  ghost predicate FaultedIn(s: Snap, t: Snap, ram: map<nat, Bytes>, page: nat) {
    var a := AttrAt(s.vs, page);
    && a.Some? && page < FaultEnd(s, page) && t.vs == s.vs
    && Grown(s.pages, s.used, t.pages, t.used, page, FaultEnd(s, page), UserAttr(a.value.prot))
    && t.stack == (if a.value.kind == KIND_STACK then s.stack.(commit := page) else s.stack)
    && t.rssAnon == s.rssAnon + (if a.value.kind == KIND_ANON then 1 else 0)
    && ((a.value.kind == KIND_ANON && a.value.flags & FLAG_ZERO == 0)
        || ZeroedIn(t.pages, ram, page, FaultEnd(s, page)))
  }

  /** What a data or instruction abort was about, from the syndrome register. */
  datatype Access = Access(exec: bool, write: bool)

  function AccessOf(esr: nat): Access {
    var exec := esr / 0x400_0000 % 64 == 0x20;
    Access(exec, !exec && esr / 64 % 2 == 1)
  }

  predicate IsTranslation(esr: nat) { 4 <= esr % 64 <= 7 }

  predicate IsAccessFlag(esr: nat) { 9 <= esr % 64 <= 0xB }

  predicate Permits(prot: bv8, a: Access) { (a.exec ==> prot & MEM_EXEC != 0) && (a.write ==> prot & MEM_RW != 0) }

  /** Frames for so many pages are free, and three tables for each. */
  ghost predicate Affords(s: Snap, c: Limits, pool: nat, pages: nat) {
    |s.used| + pages <= c.hi - c.lo && 3 * pages <= pool
  }

  /** A leaf with these rights lets user mode make the access. */
  predicate Grants(r: Rights, a: Access) { r.userRead && (a.write ==> r.userWrite) && (a.exec ==> r.userExec) }

  /** What a program may have of a page that is not there yet: the page lies in an area
      filled on demand (bit 0 of its flags), a leaf with the area's protection grants the
      access, a stack page is at most 128 KiB below the page of the stack pointer and the
      stack stays under its cap, and the anonymous pages are below theirs. */
  ghost predicate Allowed(s: Snap, c: Limits, sp: nat, page: nat, access: Access) {
    var a := AttrAt(s.vs, page);
    && a.Some? && a.value.flags & 1 != 0 && Grants(RightsOf(UserAttr(a.value.prot)), access)
    && (a.value.kind == KIND_STACK ==>
          && sp - sp % 4096 <= page + 0x2_0000 && s.stack.limit <= page < s.stack.top
          && (s.stack.top - page) / 4096 <= c.capStack && (s.stack.top - s.stack.commit) / 4096 <= c.capStack)
    && (a.value.kind == KIND_ANON ==> s.rssAnon < c.capAnon)
  }

  lemma PermitsGrants(prot: bv8, a: Access)
    ensures Permits(prot, a) <==> Grants(RightsOf(UserAttr(prot)), a)
  {
    hide RightsOf, Attributes;
    GrantedRights(MAIR_IDX_NORMAL, prot, User);
  }

  lemma AllowedIs(s: Snap, c: Limits, sp: nat, page: nat, access: Access)
    ensures Allowed(s, c, sp, page, access) <==> Admitted(s, c, sp, page, access)
  {
    hide AttrAt, RightsOf, Permits, Grants, UserAttr, Attributes;
    if AttrAt(s.vs, page).Some? { PermitsGrants(AttrAt(s.vs, page).value.prot, access); }
  }

  /** A fault that was served brings in a leaf that grants the access. */
  lemma ServedGrants(s: Snap, ram0: map<nat, Bytes>, t: Snap, ram: map<nat, Bytes>, c: Limits, sp: nat, far: nat,
                     esr: nat)
    requires FaultSpec(s, ram0, t, ram, c, sp, far, esr, Handled) && IsTranslation(esr)
    ensures far / PAGE in t.pages && Grants(RightsOf(t.pages[far / PAGE].attr), AccessOf(esr))
  {
    hide AttrAt, RightsOf, Permits, Grants, UserAttr, Attributes, FramesIn, ZeroedIn, Kept, AccessOf, InReach;
    assert Down(far) == far / PAGE * PAGE;
    PermitsGrants(AttrAt(s.vs, Down(far)).value.prot, AccessOf(esr));
  }

  lemma FaultMeans(s: Snap, ram0: map<nat, Bytes>, t: Snap, ram: map<nat, Bytes>, c: Limits, sp: nat, far: nat,
                   esr: nat, pool: nat, r: Outcome)
    requires if r.Panicked? then pool < 3 * Wanted(s, Down(far)) else FaultSpec(s, ram0, t, ram, c, sp, far, esr, r)
    ensures IsTranslation(esr) && r.Handled? ==>
              && far / PAGE in t.pages && Grants(RightsOf(t.pages[far / PAGE].attr), AccessOf(esr))
              && Allowed(s, c, sp, Down(far), AccessOf(esr))
    ensures IsTranslation(esr) && Allowed(s, c, sp, Down(far), AccessOf(esr)) ==>
              Affords(s, c, pool, Wanted(s, Down(far))) ==> r.Handled?
  {
    hide Admitted, Allowed, Wanted, Kept, AccessOf, FaultedIn, Accessed, LookupPage, Grants, RightsOf;
    AllowedIs(s, c, sp, Down(far), AccessOf(esr));
    if IsTranslation(esr) && r.Handled? { ServedGrants(s, ram0, t, ram, c, sp, far, esr); }
  }

  /** The syndrome register by its fields: bits 31 to 26 tell a fetch by user mode, bit 6
      a write, and bits 5 to 0 a translation fault (4 to 7) or an access flag fault. */
  lemma SyndromeMeans(above: nat, class_: nat, between: nat, wnr: nat, status: nat)
    requires class_ < 64 && between < 0x8_0000 && wnr < 2 && status < 64
    ensures var esr := above * 0x1_0000_0000 + class_ * 0x400_0000 + between * 128 + wnr * 64 + status;
            && AccessOf(esr) == Access(class_ == 0x20, class_ != 0x20 && wnr == 1)
            && (IsTranslation(esr) <==> status in {4, 5, 6, 7}) && (IsAccessFlag(esr) <==> status in {9, 10, 11})
  {
    var low := between * 128 + wnr * 64 + status;
    var esr := above * 0x1_0000_0000 + class_ * 0x400_0000 + low;
    assert esr / 0x400_0000 == above * 64 + class_;
    assert esr / 64 == above * 0x400_0000 + class_ * 0x10_0000 + between * 2 + wnr;
    assert esr % 64 == status;
  }

  /** Faults may reach 32 pages below the stack pointer. */
  function StackLow(sp: nat, limit: nat): nat {
    if Down(sp) > 32 * PAGE then Down(sp) - 32 * PAGE else limit
  }

  predicate InReach(page: nat, s: Stack, sp: nat, capStack: nat) {
    && StackLow(sp, s.limit) <= page && s.limit <= page < s.top
    && (s.top - if page < s.commit then page else s.commit) / PAGE <= capStack
  }

  /** An unmapped page of the stack lies below the commit point. */
  lemma UnmappedStack(s: Snap, c: Limits, page: nat)
    requires Sound(s, c) && AlignedTo(page) && page / PAGE !in s.pages && s.stack.limit <= page < s.stack.top
    ensures page < s.stack.commit
  {
    assert page / PAGE * PAGE == page;
  }

  lemma AreaBelow(s: Snap, c: Limits, page: nat)
    requires Sound(s, c) && AttrAt(s.vs, page).Some?
    ensures page < LOWER_HALF && page / PAGE < USER_PAGES
  {
  }

  lemma ZeroedOne(p: PageMap, n: nat, l: Leaf, ram: map<nat, Bytes>)
    requires l.frame in ram
    ensures ram[l.frame] == ZERO_PAGE ==> ZeroedIn(p[n := l], ram, n * PAGE, n * PAGE + PAGE)
  {
    forall m ensures n * PAGE <= m * PAGE < n * PAGE + PAGE <==> m == n { }
  }

  /** Frames that were in use, and memory the allocator does not manage, keep their contents. */
  ghost predicate Kept(ram: map<nat, Bytes>, ram0: map<nat, Bytes>, used0: set<nat>, c: Limits) {
    && ram.Keys == ram0.Keys
    && forall f :: f in ram && (f in used0 || !(c.lo <= f < c.hi)) ==> ram[f] == ram0[f]
  }

  ghost predicate ZeroedIn(pages: PageMap, ram: map<nat, Bytes>, lo: nat, hi: nat) {
    forall n :: n in pages && lo <= n * PAGE < hi ==> pages[n].frame in ram && ram[pages[n].frame] == ZERO_PAGE
  }

  lemma ZeroedDown(p0: PageMap, u0: set<nat>, p: PageMap, u: set<nat>, ram: map<nat, Bytes>, lo: nat, hi: nat,
                   attr: bv64, l: Leaf)
    requires Grown(p0, u0, p, u, lo, hi, attr) && ZeroedIn(p, ram, lo, hi) && l.frame !in u && AlignedTo(lo)
    requires PAGE <= lo
    ensures ZeroedIn(p[lo / PAGE - 1 := l], ram[l.frame := ZERO_PAGE], lo - PAGE, hi) && l.frame !in u0
  {
    var n := lo / PAGE - 1;
    assert n * PAGE == lo - PAGE;
    forall m | m in p && lo <= m * PAGE < hi ensures p[m].frame != l.frame {
      assert p[m].frame in FramesIn(p, lo, hi);
    }
    forall m ensures lo - PAGE <= m * PAGE < hi <==> lo <= m * PAGE < hi || (m == n && lo - PAGE < hi) { }
  }

  /** There is room under the cap for as long as growTo is not reached. */
  lemma StackRoom(s: Snap, c: Limits, growTo: nat)
    requires Sound(s, c) && AlignedTo(growTo) && growTo < s.stack.commit && (s.stack.top - growTo) / PAGE <= c.capStack
    ensures s.rssStack < c.capStack
  {
  }

  /** The page below the commit point is not mapped yet. */
  lemma StackPageFree(s: Snap, c: Limits)
    requires Sound(s, c) && s.stack.limit + PAGE <= s.stack.commit
    ensures s.stack.commit / PAGE >= 1 && s.stack.commit / PAGE - 1 !in s.pages
    ensures s.stack.commit / PAGE - 1 < USER_PAGES
  {
    var n := s.stack.commit / PAGE - 1;
    assert n * PAGE == s.stack.commit - PAGE;
  }

  lemma AlignedNext(x: nat, y: nat)
    requires AlignedTo(x) && AlignedTo(y) && x < y
    ensures x + PAGE <= y
  {
  }

  lemma SoundStack(s: Snap, c: Limits)
    requires Sound(s, c)
    ensures AlignedTo(s.stack.limit) && AlignedTo(s.stack.commit) && AlignedTo(s.stack.top)
    ensures PAGE <= s.stack.limit <= s.stack.commit <= s.stack.top <= LOWER_HALF
    ensures s.rssStack * PAGE == s.stack.top - s.stack.commit
  {
  }

  lemma OwnFrame(s: Snap, c: Limits, n: nat)
    requires Sound(s, c) && n in s.pages
    ensures forall m :: m in s.pages && s.pages[m].frame == s.pages[n].frame ==> m == n
  {
  }
}
