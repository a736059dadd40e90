/** Whole runs of one process: faults, allocations, releases and kernel copies in any order. */
module ProcessRuns {
  import opened Vmas
  import opened MmapWindow
  import opened ProcessState
  import PageBitmap
  import opened Backing
  import opened AddressSpace
  import opened UserAreas
  import opened Process
  import opened UserBytes
  import opened Uaccess

  datatype Call =
    | Fault(far: nat, esr: nat)
    | Alloc(size: nat)
    | Release(va: nat)
    | CopyTo(dst: nat, data: Bytes)
    | CopyFrom(src: nat, size: nat)
    | Move(to: nat)

  /** Arguments are 64-bit words. */
  predicate Machine(call: Call) {
    match call
    case Fault(far, _) => far < SPACE
    case Alloc(size) => size < SPACE
    case Release(va) => va < SPACE
    case CopyTo(dst, data) => dst < SPACE && |data| < SPACE
    case CopyFrom(src, size) => src < SPACE && size < SPACE
    case Move(to) => to < SPACE
  }

  predicate Frees(call: Call, v: Vma) { call.Release? && v.start <= call.va < v.end }

  predicate Writes(call: Call, a: nat) { call.CopyTo? && call.dst <= a < call.dst + |call.data| }

  /** The byte at a, if there is one, is the same. */
  ghost predicate SameByte(s: Snap, ram0: Ram, t: Snap, ram: Ram, a: nat)
    requires Backed(s.pages, ram0) && Backed(t.pages, ram)
  {
    ByteAt(s.pages, ram0, a).Some? ==> ByteAt(t.pages, ram, a) == ByteAt(s.pages, ram0, a)
  }

  /** A region stays unless it is released, and so does each byte of it unless it is
      written. Outside the window w, where image and stack are, no area changes and no
      byte unless it is written. */
  ghost predicate Keeps(s: Snap, ram0: Ram, t: Snap, ram: Ram, w: Range, v: Vma, a: nat, freed: bool, written: bool)
    requires Backed(s.pages, ram0) && Backed(t.pages, ram)
  {
    && (v in UserVmas(s.vs) && !freed ==>
              v in UserVmas(t.vs) && (v.start <= a < v.end && !written ==> SameByte(s, ram0, t, ram, a)))
    && (!(w.start <= a < w.end) ==> AttrAt(t.vs, a) == AttrAt(s.vs, a) && (!written ==> SameByte(s, ram0, t, ram, a)))
  }

  lemma ServedKeeps(s: Snap, ram0: Ram, t: Snap, ram: Ram, c: Limits, w: Range, v: Vma, a: nat)
    requires Served(s, ram0, t, ram, c) && Backed(s.pages, ram0) && Backed(t.pages, ram)
    ensures Keeps(s, ram0, t, ram, w, v, a, false, false) && t.stack.limit == s.stack.limit
  {
    hide AttrAt;
  }

  lemma PfreeKeeps(s: Snap, c: Limits, t: Snap, ram: Ram, va: nat, w: Range, v: Vma, a: nat)
    requires Sound(s, c) && PfreeSpec(s, t, va) && Backed(s.pages, ram) && Backed(t.pages, ram)
    requires UserInWindow(s.vs, w.start, w.end)
    ensures Keeps(s, ram, t, ram, w, v, a, v.start <= va < v.end, false) && t.stack == s.stack
    ensures t.pages.Keys <= s.pages.Keys
  {
    hide AttrAt, Sound;
    SoundAreasSorted(s, c);
    if x :| Owner(s.vs, va, x) {
      InsidePages(s.vs, x, a);
      if v in UserVmas(s.vs) && v != x {
        ApartPages(s.vs, v, x, a);
      }
    }
  }

  lemma InsidePages(vs: seq<Vma>, v: Vma, a: nat)
    requires Sorted(vs) && v in vs
    ensures v.start <= a / PAGE * PAGE < v.end ==> v.start <= a < v.end
  {
    var i :| 0 <= i < |vs| && vs[i] == v;
    assert AlignedTo(v.end);
  }

  /** A page of one region is no page of another. */
  lemma ApartPages(vs: seq<Vma>, v: Vma, w: Vma, a: nat)
    requires Sorted(vs) && v in vs && w in vs && v != w
    ensures v.start <= a < v.end ==> !(w.start <= a / PAGE * PAGE < w.end)
  {
    var i :| 0 <= i < |vs| && vs[i] == v;
    var j :| 0 <= j < |vs| && vs[j] == w;
    assert i < j || j < i;
    assert v.start <= a < v.end ==> v.start <= a / PAGE * PAGE;
  }

  lemma CopyKeeps(s: Snap, ram0: Ram, t: Snap, ram: Ram, dst: nat, data: Bytes, done: nat, w: Range, v: Vma, a: nat)
    requires done <= |data| && Wrote(s.pages, ram0, t.pages, ram, dst, data, done) && t.vs == s.vs
    ensures Keeps(s, ram0, t, ram, w, v, a, false, dst <= a < dst + |data|)
  {
    hide AttrAt;
  }

  lemma PallocKeeps(s: Snap, t: Snap, c: Limits, pages: nat, va: nat, ram: Ram, w: Range, v: Vma, a: nat)
    requires PallocSpec(s, t, c, pages, va) && Backed(s.pages, ram) && UserInWindow(t.vs, w.start, w.end)
    ensures t.pages == s.pages && t.stack == s.stack && Keeps(s, ram, t, ram, w, v, a, false, false)
  {
    hide AttrAt, Added;
  }

  lemma HighUnmapped(s: Snap, c: Limits, far: nat)
    requires Sound(s, c)
    ensures far >= LOWER_HALF ==> far / PAGE !in s.pages
  {
    assert far >= LOWER_HALF ==> far / PAGE * PAGE >= LOWER_HALF;
  }

  ghost predicate AnyFrees(calls: seq<Call>, v: Vma) { exists i :: 0 <= i < |calls| && Frees(calls[i], v) }

  ghost predicate AnyWrites(calls: seq<Call>, a: nat) { exists i :: 0 <= i < |calls| && Writes(calls[i], a) }

  /** The pages outside the stack that a call may bring in. */
  function Load(call: Call): nat {
    match call
    case Fault(_, _) => 1
    case CopyTo(dst, data) => Span(dst, |data|)
    case CopyFrom(src, size) => Span(src, size)
    case _ => 0
  }

  function TotalLoad(calls: seq<Call>): nat {
    if calls == [] then 0 else TotalLoad(calls[..|calls| - 1]) + Load(calls[|calls| - 1])
  }

  lemma NoLoad()
    ensures TotalLoad([]) == 0
  {
  }

  lemma NextLoad(calls: seq<Call>, i: nat)
    requires i < |calls|
    ensures TotalLoad(calls[..i + 1]) == TotalLoad(calls[..i]) + Load(calls[i]) <= TotalLoad(calls)
  {
    hide Load;
    TotalLoadPrefix(calls, i + 1);
    assert calls[..i + 1][..i] == calls[..i];
  }

  lemma {:induction false} TotalLoadPrefix(calls: seq<Call>, i: nat)
    requires i <= |calls|
    ensures TotalLoad(calls[..i]) <= TotalLoad(calls)
  {
    if i < |calls| {
      TotalLoadPrefix(calls[..|calls| - 1], i);
      assert calls[..|calls| - 1][..i] == calls[..i];
    } else {
      assert calls[..i] == calls;
    }
  }

  ghost function WindowOf(u: User): Range
    reads u, u.mm
  {
    Range(u.mm.Guard(), u.mm.top)
  }

  /** A process at one moment: what it has, its memory, its stack pointer, and what palloc
      can choose from. */
  datatype Moment = Moment(snap: Snap, ram: Ram, sp: nat, free: seq<Range>, cursor: nat)

  ghost function At(u: User): Moment
    reads u, u.mem, u.mem.pt, u.mem.frames, u.mem.frames.bitmap, u.mm, u.mm.vmas, u.mm.mmapFree
    requires u.mm.vmaCount <= u.mm.vmas.Length && u.mm.freeCount <= u.mm.mmapFree.Length
  {
    Moment(u.Now(), u.mem.ram, u.sp, u.mm.FreeList(), u.mm.cursor)
  }

  /** No region of so many pages fits between the areas or below the cursor. */
  ghost predicate Full(m: Moment, pages: nat, guard: nat) {
    || |m.snap.vs| == MAX_VMAS
    || (m.cursor < guard + pages * PAGE && forall i :: 0 <= i < |m.free| ==> !Fits(m.free, i, pages * PAGE))
  }

  /** A palloc fails exactly for these reasons. */
  ghost predicate PallocFails(m: Moment, size: nat, c: Limits, guard: nat) {
    var pages := PageBitmap.CountPages(size, PAGE);
    size == 0 || size > SPACE - PAGE || m.snap.rssAnon + pages > c.capAnon || Full(m, pages, guard)
  }

  /** What a call does that does not panic. */
  ghost predicate Did(m: Moment, call: Call, m': Moment, c: Limits, guard: nat) {
    && (!call.Move? ==> m'.sp == m.sp)
    && match call
       case Fault(far, esr) =>
         && m'.free == m.free && m'.cursor == m.cursor
         && if IsTranslation(esr) && far / PAGE in m.snap.pages then m' == m
            else exists r: Outcome :: !r.Panicked? && FaultSpec(m.snap, m.ram, m'.snap, m'.ram, c, m.sp, far, esr, r)
       case Alloc(size) =>
         && m'.ram == m.ram
         && exists va :: PallocSpec(m.snap, m'.snap, c, PageBitmap.CountPages(size, PAGE), va)
                         && (va == 0 <==> PallocFails(m, size, c, guard))
       case Release(va) => m'.ram == m.ram && PfreeSpec(m.snap, m'.snap, va)
       case CopyTo(dst, data) =>
         && m'.free == m.free && m'.cursor == m.cursor
         && if !Covers(m.snap.vs, dst, |data|, true) then m' == m
            else exists done: nat ::
                   && done <= |data| && Wrote(m.snap.pages, m.ram, m'.snap.pages, m'.ram, dst, data, done)
                   && (done < |data| ==> Denied(m'.snap, c, m.sp, dst + done, true))
       case CopyFrom(src, size) =>
         && m'.free == m.free && m'.cursor == m.cursor
         && if Covers(m.snap.vs, src, size, false) then Served(m.snap, m.ram, m'.snap, m'.ram, c) else m' == m
       case Move(to) => m' == m.(sp := to)
  }

  /** The moments before, between and after the calls: each in order, each from the one
      before by its call. */
  ghost predicate Traced(trace: seq<Moment>, calls: seq<Call>, c: Limits, guard: nat) {
    && |trace| == |calls| + 1
    && (forall i :: 0 <= i < |trace| ==> BackedBy(trace[i].snap, c, trace[i].ram))
    && (forall i :: 0 <= i < |calls| ==> Did(trace[i], calls[i], trace[i + 1], c, guard))
  }

  lemma TracedNone(trace: seq<Moment>, c: Limits, guard: nat)
    requires |trace| == 1 && BackedBy(trace[0].snap, c, trace[0].ram)
    ensures Traced(trace, [], c, guard)
  {
    hide BackedBy;
  }

  lemma TracedMore(trace: seq<Moment>, calls: seq<Call>, call: Call, m: Moment, c: Limits, guard: nat)
    requires Traced(trace, calls, c, guard) && |trace| == |calls| + 1 && Did(trace[|calls|], call, m, c, guard)
    requires BackedBy(m.snap, c, m.ram)
    ensures Traced(trace + [m], calls + [call], c, guard)
  {
    hide Did, BackedBy;
  }

  lemma DidFault(m: Moment, m': Moment, far: nat, esr: nat, c: Limits, guard: nat, r: Outcome)
    requires !r.Panicked? && FaultSpec(m.snap, m.ram, m'.snap, m'.ram, c, m.sp, far, esr, r)
    requires IsTranslation(esr) ==> far / PAGE !in m.snap.pages
    requires m'.sp == m.sp && m'.free == m.free && m'.cursor == m.cursor
    ensures Did(m, Fault(far, esr), m', c, guard)
  {
    hide FaultSpec;
  }

  lemma DidAlloc(m: Moment, m': Moment, size: nat, c: Limits, guard: nat, va: nat)
    requires PallocSpec(m.snap, m'.snap, c, PageBitmap.CountPages(size, PAGE), va)
    requires m'.ram == m.ram && m'.sp == m.sp
    requires va == 0 <==> PallocFails(m, size, c, guard)
    ensures Did(m, Alloc(size), m', c, guard)
  {
    hide PallocSpec, PallocFails;
  }

  lemma DidCopyTo(m: Moment, m': Moment, dst: nat, data: Bytes, c: Limits, guard: nat, done: nat)
    requires done <= |data| && Wrote(m.snap.pages, m.ram, m'.snap.pages, m'.ram, dst, data, done)
    requires m'.sp == m.sp && m'.free == m.free && m'.cursor == m.cursor
    requires if Covers(m.snap.vs, dst, |data|, true) then done < |data| ==> Denied(m'.snap, c, m.sp, dst + done, true)
             else m' == m
    ensures Did(m, CopyTo(dst, data), m', c, guard)
  {
    hide Wrote, Denied, Covers;
  }

  lemma DidNothing(m: Moment, far: nat, esr: nat, c: Limits, guard: nat)
    requires IsTranslation(esr) && far / PAGE in m.snap.pages
    ensures Did(m, Fault(far, esr), m, c, guard)
  {
  }

  lemma DidRelease(m: Moment, m': Moment, va: nat, c: Limits, guard: nat)
    requires m'.ram == m.ram && m'.sp == m.sp && PfreeSpec(m.snap, m'.snap, va)
    ensures Did(m, Release(va), m', c, guard)
  {
    hide PfreeSpec;
  }

  lemma DidCopyFrom(m: Moment, m': Moment, src: nat, size: nat, c: Limits, guard: nat)
    requires m'.sp == m.sp && m'.free == m.free && m'.cursor == m.cursor && Served(m.snap, m.ram, m'.snap, m'.ram, c)
    requires !Covers(m.snap.vs, src, size, false) ==> m' == m
    ensures Did(m, CopyFrom(src, size), m', c, guard) && m'.ram.Keys == m.ram.Keys
  {
    hide Covers;
  }

  lemma ReadyHas(u: User)
    requires u.Ready()
    ensures u.mm.vmaCount <= u.mm.vmas.Length && u.mm.freeCount <= u.mm.mmapFree.Length
  {
    hide Sound, Memory.Valid;
  }

  /** The reasons for failure, as palloc finds them. */
  lemma Fails(u: User, size: nat)
    requires u.Ready()
    ensures PallocFails(At(u), size, u.Bounds(), WindowOf(u).start) <==>
      || size == 0 || size > SPACE - PAGE || u.rssAnon + PageBitmap.CountPages(size, PAGE) > u.capAnon
      || u.NoRoom(PageBitmap.CountPages(size, PAGE))
  {
    hide Sound, Memory.Valid, Tiled, NoStack, Anchored, UserInWindow;
  }

  lemma SameKeys(ram0: Ram, ram: Ram, used: set<nat>, c: Limits, p: PageMap)
    requires OthersKept(ram0, ram, used, c, p)
    ensures ram.Keys == ram0.Keys
  {
  }

  /** What holds of a call: it has its effect, keeps what it neither releases nor writes,
      changes nothing outside the process and has paid for its tables. */
  ghost predicate Stepped(m: Moment, pool0: nat, books0: Ledger, call: Call, m': Moment, pool: nat, books: Ledger,
                          c: Limits, w: Range, v: Vma, a: nat) {
    && Backed(m.snap.pages, m.ram) && Backed(m'.snap.pages, m'.ram) && books == books0
    && Keeps(m.snap, m.ram, m'.snap, m'.ram, w, v, a, Frees(call, v), Writes(call, a))
    && Did(m, call, m', c, w.start) && Paid(m.snap, pool0, m'.snap, pool, Load(call))
  }

  /** A fault. A page that is mapped raises no translation fault. */
  method StepFault(u: User, far: nat, esr: nat, ghost v: Vma, ghost a: nat) returns (ok: bool)
    requires u.Ready() && far < SPACE
    modifies u`stack, u`rssStack, u`rssAnon, u.mem`ram, u.mem.pt, u.mem.frames`hint, u.mem.frames.bitmap
    ensures ok ==> u.Ready() && u.Bounds() == old(u.Bounds())
    ensures ok ==> Stepped(old(At(u)), old(|u.mem.pt.pool|), old(u.mem.Books()), Fault(far, esr),
                          At(u), |u.mem.pt.pool|, u.mem.Books(), u.Bounds(), WindowOf(u), v, a)
    ensures !ok ==> |old(u.mem.pt.pool)| < Worst(old(u.Now()), 1)
  {
    hide AttrAt, Sorted, Sound, Memory.Valid, Mm.Valid, UserMap, UsedSet, Extends, OthersKept, Served, Backed, Wrote,
      PfreeSpec, PallocSpec, FaultSpec, Tiled, NoStack, Anchored, UserInWindow, Keeps, Coalesced, TablesFor, Paid,
      Worst, Wanted, Admitted, Denied, Did, PallocFails, Covers, Memory.Books;
    ReadyHas(u);
    ghost var s, c, ram0, w, pool0 := u.Now(), u.Bounds(), u.mem.ram, WindowOf(u), |u.mem.pt.pool|;
    ghost var m := At(u);
    ValidBacked(u);
    HighUnmapped(s, c, far);
    if IsTranslation(esr) && far < LOWER_HALF {
      var f := u.mem.Translate(far);
      if f.Some? {
        DidNothing(m, far, esr, c, w.start);
        ServedNothing(s, c, ram0);
        ServedKeeps(s, ram0, s, ram0, c, w, v, a);
        PaidNothing(s, c, pool0);
        PaidUpTo(s, pool0, s, pool0, 0, 1);
        return true;
      }
    }
    u.mem.BooksAre();
    var r := u.HandleFault(far, esr);
    if r.Panicked? {
      DownAligned(far);
      FaultWorst(s, c, u.sp, Down(far), AccessOf(esr));
      return false;
    }
    FaultExtends(s, ram0, u.Now(), u.mem.ram, c, u.sp, far, esr, r);
    u.mem.BooksAre();
    FaultPays(s, ram0, u.Now(), u.mem.ram, c, u.sp, far, esr, r, pool0, |u.mem.pt.pool|);
    ValidBacked(u);
    ServedKeeps(s, ram0, u.Now(), u.mem.ram, c, w, v, a);
    DidFault(m, At(u), far, esr, c, w.start, r);
    return true;
  }

  method StepAlloc(u: User, size: nat, ghost v: Vma, ghost a: nat)
    requires u.Ready() && size < SPACE
    modifies u.mm`vmaCount, u.mm`freeCount, u.mm`cursor, u.mm.vmas, u.mm.mmapFree
    ensures u.Ready() && u.Bounds() == old(u.Bounds())
    ensures Stepped(old(At(u)), old(|u.mem.pt.pool|), old(u.mem.Books()), Alloc(size),
                          At(u), |u.mem.pt.pool|, u.mem.Books(), u.Bounds(), WindowOf(u), v, a)
  {
    hide AttrAt, Sorted, Sound, Memory.Valid, Mm.Valid, UserMap, UsedSet, Extends, OthersKept, Served, Backed, Wrote,
      PfreeSpec, PallocSpec, FaultSpec, Tiled, NoStack, Anchored, UserInWindow, Keeps, Coalesced, TablesFor, Paid,
      Worst, Wanted, Admitted, Denied, Did, PallocFails, Covers, Memory.Books;
    ReadyHas(u);
    ghost var s, c, ram0, w, pool0 := u.Now(), u.Bounds(), u.mem.ram, WindowOf(u), |u.mem.pt.pool|;
    ghost var m := At(u);
    ValidBacked(u);
    Fails(u, size);
    var va := u.Palloc(size);
    ReadyHas(u);
    DidAlloc(m, At(u), size, c, w.start, va);
    PallocKeeps(s, u.Now(), u.Bounds(), PageBitmap.CountPages(size, PAGE), va, ram0, w, v, a);
    PaidSame(s, c, u.Now(), pool0, pool0);
  }

  method StepRelease(u: User, va: nat, ghost v: Vma, ghost a: nat)
    requires u.Ready() && va < SPACE
    modifies u`rssAnon, u.mem.pt, u.mem.frames`hint, u.mem.frames.bitmap
    modifies u.mm`vmaCount, u.mm`freeCount, u.mm`cursor, u.mm.vmas, u.mm.mmapFree
    ensures u.Ready() && u.Bounds() == old(u.Bounds())
    ensures Stepped(old(At(u)), old(|u.mem.pt.pool|), old(u.mem.Books()), Release(va),
                          At(u), |u.mem.pt.pool|, u.mem.Books(), u.Bounds(), WindowOf(u), v, a)
  {
    hide AttrAt, Sorted, Sound, Memory.Valid, Mm.Valid, UserMap, UsedSet, Extends, OthersKept, Served, Backed, Wrote,
      PfreeSpec, PallocSpec, FaultSpec, Tiled, NoStack, Anchored, UserInWindow, Keeps, Coalesced, TablesFor, Paid,
      Worst, Wanted, Admitted, Denied, Did, PallocFails, Covers;
    ReadyHas(u);
    ghost var s, c, ram0, w, pool0 := u.Now(), u.Bounds(), u.mem.ram, WindowOf(u), |u.mem.pt.pool|;
    ghost var m := At(u);
    ValidBacked(u);
    u.Pfree(va);
    ValidBacked(u);
    PfreeKeeps(s, c, u.Now(), u.mem.ram, va, w, v, a);
    TablesForFewer(u.mem.root, u.mem.Pages().Keys, s.pages.Keys);
    PfreeSpends(s, u.Now(), va);
    PaidSame(s, c, u.Now(), pool0, |u.mem.pt.pool|);
    ReadyHas(u);
    DidRelease(m, At(u), va, c, w.start);
  }

  method StepCopyTo(u: User, dst: nat, data: Bytes, ghost v: Vma, ghost a: nat) returns (ok: bool)
    requires u.Ready() && dst < SPACE && |data| < SPACE
    modifies u`stack, u`rssStack, u`rssAnon, u.mem`ram, u.mem.pt, u.mem.frames`hint, u.mem.frames.bitmap
    ensures ok ==> u.Ready() && u.Bounds() == old(u.Bounds())
    ensures ok ==> Stepped(old(At(u)), old(|u.mem.pt.pool|), old(u.mem.Books()), CopyTo(dst, data),
                          At(u), |u.mem.pt.pool|, u.mem.Books(), u.Bounds(), WindowOf(u), v, a)
    ensures !ok ==> |old(u.mem.pt.pool)| < Worst(old(u.Now()), Span(dst, |data|))
  {
    hide AttrAt, Sorted, Sound, Memory.Valid, Mm.Valid, UserMap, UsedSet, Extends, OthersKept, Served, Backed, Wrote,
      PfreeSpec, PallocSpec, FaultSpec, Tiled, NoStack, Anchored, UserInWindow, Keeps, Coalesced, TablesFor, Paid,
      Worst, Wanted, Admitted, Denied, Did, PallocFails, Covers, Memory.Books;
    ReadyHas(u);
    ghost var s, c, ram0, w, pool0 := u.Now(), u.Bounds(), u.mem.ram, WindowOf(u), |u.mem.pt.pool|;
    ghost var m := At(u);
    ValidBacked(u);
    var r;
    ghost var done;
    r, done := CopyToUser(u, dst, data);
    if r.Panic? { return false; }
    ValidBacked(u);
    CopyKeeps(s, ram0, u.Now(), u.mem.ram, dst, data, done, w, v, a);
    SameKeys(ram0, u.mem.ram, s.used, u.Bounds(), u.mem.Pages());
    DidCopyTo(m, At(u), dst, data, c, w.start, done);
    return true;
  }

  method StepCopyFrom(u: User, src: nat, size: nat, ghost v: Vma, ghost a: nat) returns (ok: bool)
    requires u.Ready() && src < SPACE && size < SPACE
    modifies u`stack, u`rssStack, u`rssAnon, u.mem`ram, u.mem.pt, u.mem.frames`hint, u.mem.frames.bitmap
    ensures ok ==> u.Ready() && u.Bounds() == old(u.Bounds())
    ensures ok ==> Stepped(old(At(u)), old(|u.mem.pt.pool|), old(u.mem.Books()), CopyFrom(src, size),
                          At(u), |u.mem.pt.pool|, u.mem.Books(), u.Bounds(), WindowOf(u), v, a)
    ensures !ok ==> |old(u.mem.pt.pool)| < Worst(old(u.Now()), Span(src, size))
  {
    hide AttrAt, Sorted, Sound, Memory.Valid, Mm.Valid, UserMap, UsedSet, Extends, OthersKept, Served, Backed, Wrote,
      PfreeSpec, PallocSpec, FaultSpec, Tiled, NoStack, Anchored, UserInWindow, Keeps, Coalesced, TablesFor, Paid,
      Worst, Wanted, Admitted, Denied, Did, PallocFails, Covers, Memory.Books;
    ReadyHas(u);
    ghost var s, c, ram0, w, pool0 := u.Now(), u.Bounds(), u.mem.ram, WindowOf(u), |u.mem.pt.pool|;
    ghost var m := At(u);
    ValidBacked(u);
    var r, data := CopyFromUser(u, src, size);
    if r.Panic? { return false; }
    ValidBacked(u);
    ServedKeeps(s, ram0, u.Now(), u.mem.ram, u.Bounds(), w, v, a);
    DidCopyFrom(m, At(u), src, size, u.Bounds(), w.start);
    return true;
  }

  /** User code moves the stack pointer. */
  method StepMove(u: User, to: nat, ghost v: Vma, ghost a: nat)
    requires u.Ready()
    modifies u`sp
    ensures u.Ready() && u.Bounds() == old(u.Bounds())
    ensures Stepped(old(At(u)), old(|u.mem.pt.pool|), old(u.mem.Books()), Move(to),
                          At(u), |u.mem.pt.pool|, u.mem.Books(), u.Bounds(), WindowOf(u), v, a)
  {
    hide AttrAt, Sorted, Sound, Memory.Valid, Mm.Valid, UserMap, UsedSet, Extends, OthersKept, Served, Backed, Wrote,
      PfreeSpec, PallocSpec, FaultSpec, Tiled, NoStack, Anchored, UserInWindow, Keeps, Coalesced, TablesFor, Paid,
      Worst, Wanted, Admitted, Denied, PallocFails, Covers, Memory.Books;
    ReadyHas(u);
    ghost var s, c, ram0, w, pool0 := u.Now(), u.Bounds(), u.mem.ram, WindowOf(u), |u.mem.pt.pool|;
    ghost var m := At(u);
    ValidBacked(u);
    ServedNothing(s, c, ram0);
    ServedKeeps(s, ram0, s, ram0, c, w, v, a);
    PaidNothing(s, c, pool0);
    u.sp := to;
  }

  /** One call; false when the kernel panics, which takes a pool too small for the stack
      and what the call may bring in. */
  method Step(u: User, call: Call, ghost v: Vma, ghost a: nat) returns (ok: bool)
    requires u.Ready() && Machine(call)
    modifies u`sp, u`stack, u`rssStack, u`rssAnon, u.mem`ram, u.mem.pt, u.mem.frames`hint, u.mem.frames.bitmap
    modifies u.mm`vmaCount, u.mm`freeCount, u.mm`cursor, u.mm.vmas, u.mm.mmapFree
    ensures ok ==> u.Ready() && u.Bounds() == old(u.Bounds())
    ensures ok ==> Stepped(old(At(u)), old(|u.mem.pt.pool|), old(u.mem.Books()), call,
                          At(u), |u.mem.pt.pool|, u.mem.Books(), u.Bounds(), WindowOf(u), v, a)
    ensures !ok ==> |old(u.mem.pt.pool)| < Worst(old(u.Now()), Load(call))
  {
    hide User.Ready, Stepped, Worst, Memory.Books;
    ok := true;
    match call {
      case Fault(far, esr) => ok := StepFault(u, far, esr, v, a);
      case Alloc(size) => StepAlloc(u, size, v, a);
      case Release(va) => StepRelease(u, va, v, a);
      case CopyTo(dst, data) => ok := StepCopyTo(u, dst, data, v, a);
      case CopyFrom(src, size) => ok := StepCopyFrom(u, src, size, v, a);
      case Move(to) => StepMove(u, to, v, a);
    }
  }

  /** A pfree only gives back. */
  lemma PfreeSpends(s: Snap, t: Snap, va: nat)
    requires PfreeSpec(s, t, va)
    ensures |t.used| <= |s.used| && t.rssAnon <= s.rssAnon
  {
    hide AttrAt, UserVmas;
    if v :| Owner(s.vs, va, v) { Fewer(t.used, s.used); }
  }

  lemma Fewer(a: set<nat>, b: set<nat>)
    requires a <= b
    ensures |a| <= |b|
  {
    assert b == a + (b - a);
  }

  lemma PaidSame(s: Snap, c: Limits, t: Snap, pool0: nat, pool: nat)
    requires Sound(s, c) && t.stack == s.stack && pool0 <= pool && |t.used| <= |s.used| && t.rssAnon <= s.rssAnon
    ensures Paid(s, pool0, t, pool, 0)
  {
  }

  lemma FaultPays(s: Snap, ram0: Ram, t: Snap, ram: Ram, c: Limits, sp: nat, far: nat, esr: nat, r: Outcome,
                  pool0: nat, pool: nat)
    requires Sound(s, c) && Sound(t, c) && FaultSpec(s, ram0, t, ram, c, sp, far, esr, r) && !r.Panicked?
    requires t.pages.Keys == s.pages.Keys ==> pool == pool0
    requires r.Handled? ==> pool >= pool0 - 3 * Wanted(s, Down(far))
    ensures Paid(s, pool0, t, pool, 1)
  {
    hide AttrAt, LowAreas, FramesOk, Counted, Grown, ZeroedIn, Admitted, FaultedIn, Scarce, Wanted;
    if r.Handled? && !IsAccessFlag(esr) {
      FaultPaid(s, ram0, t, ram, c, sp, far, esr, pool0, pool);
    } else {
      assert t.pages.Keys == s.pages.Keys;
    }
  }

  lemma KeepsTrans(s: Snap, ram0: Ram, t: Snap, ram1: Ram, x: Snap, ram2: Ram, w: Range, v: Vma, a: nat,
                   calls: seq<Call>, call: Call)
    requires Backed(s.pages, ram0) && Backed(t.pages, ram1) && Backed(x.pages, ram2)
    requires Keeps(s, ram0, t, ram1, w, v, a, AnyFrees(calls, v), AnyWrites(calls, a))
    requires Keeps(t, ram1, x, ram2, w, v, a, Frees(call, v), Writes(call, a))
    ensures Keeps(s, ram0, x, ram2, w, v, a, AnyFrees(calls + [call], v), AnyWrites(calls + [call], a))
  {
    hide AttrAt;
    var more := calls + [call];
    assert more[|calls|] == call;
    assert AnyFrees(calls, v) ==> AnyFrees(more, v) by {
      if i :| 0 <= i < |calls| && Frees(calls[i], v) { assert Frees(more[i], v); }
    }
    assert AnyWrites(calls, a) ==> AnyWrites(more, a) by {
      if i :| 0 <= i < |calls| && Writes(calls[i], a) { assert Writes(more[i], a); }
    }
  }

  /** After any run the process is in order; every region that no call released is still
      there, and every byte of it and of image and stack that was resident and that no
      copy wrote; the table frames are those of before, between pool and page map. A run
      that panics had too small a pool for its stack and all its calls. The trace has
      every moment of the run, up to the panic if there is one. */
  method Run(u: User, calls: seq<Call>, ghost v: Vma, ghost a: nat) returns (ok: bool, ghost trace: seq<Moment>)
    requires u.Ready() && forall i :: 0 <= i < |calls| ==> Machine(calls[i])
    modifies u`sp, u`stack, u`rssStack, u`rssAnon, u.mem`ram, u.mem.pt, u.mem.frames`hint, u.mem.frames.bitmap
    modifies u.mm`vmaCount, u.mm`freeCount, u.mm`cursor, u.mm.vmas, u.mm.mmapFree
    ensures ok ==> u.Ready() && Backed(old(u.mem.Pages()), old(u.mem.ram)) && Backed(u.mem.Pages(), u.mem.ram)
    ensures ok ==> Keeps(old(u.Now()), old(u.mem.ram), u.Now(), u.mem.ram, WindowOf(u), v, a, AnyFrees(calls, v),
                         AnyWrites(calls, a))
    ensures ok ==> u.mem.Books() == old(u.mem.Books())
    ensures !ok ==> |old(u.mem.pt.pool)| < Worst(old(u.Now()), TotalLoad(calls))
    ensures ok ==> u.rssStack <= u.capStack && u.rssAnon <= u.capAnon
    ensures 0 < |trace| <= |calls| + 1 && trace[0] == old(At(u))
    ensures Traced(trace, calls[..|trace| - 1], old(u.Bounds()), old(WindowOf(u)).start)
    ensures if ok then |trace| == |calls| + 1 && trace[|calls|] == At(u) else |trace| <= |calls|
  {
    hide AttrAt, Sorted, Sound, Memory.Valid, Mm.Valid, UserMap, UsedSet, Served, Backed, Tiled, NoStack, Anchored,
      UserInWindow, Keeps, Coalesced, AnyFrees, AnyWrites, Frees, Writes, TablesFor, Paid, Worst, Load, TotalLoad,
      Machine, Traced, Did, Memory.Books;
    ReadyHas(u);
    trace := [At(u)];
    ghost var s, c, ram0, w, pool0 := u.Now(), u.Bounds(), u.mem.ram, WindowOf(u), |u.mem.pt.pool|;
    ValidBacked(u);
    ServedNothing(s, c, ram0);
    ServedKeeps(s, ram0, s, ram0, c, w, v, a);
    KeepsNone(s, ram0, s, ram0, w, v, a);
    PaidNothing(s, c, pool0);
    NoLoad();
    TracedNone(trace, c, w.start);
    var i := 0;
    while i < |calls|
      invariant i <= |calls| && u.Ready() && Backed(u.mem.Pages(), u.mem.ram)
      invariant Keeps(s, ram0, u.Now(), u.mem.ram, w, v, a, AnyFrees(calls[..i], v), AnyWrites(calls[..i], a))
      invariant WindowOf(u) == w && u.mem.Books() == old(u.mem.Books()) && u.Bounds() == c
      invariant u.mm.vmaCount <= u.mm.vmas.Length && u.mm.freeCount <= u.mm.mmapFree.Length
      invariant Traced(trace, calls[..i], c, w.start) && |trace| == i + 1
      invariant trace[0] == old(At(u)) && trace[i] == At(u)
      invariant Paid(s, pool0, u.Now(), |u.mem.pt.pool|, TotalLoad(calls[..i]))
    {
      ghost var t, ram, pool := u.Now(), u.mem.ram, |u.mem.pt.pool|;
      NextLoad(calls, i);
      ok := Step(u, calls[i], v, a);
      if !ok {
        PaidWorst(s, pool0, t, pool, TotalLoad(calls[..i]), Load(calls[i]), TotalLoad(calls));
        return;
      }
      PaidTrans(s, pool0, t, pool, u.Now(), |u.mem.pt.pool|, TotalLoad(calls[..i]), Load(calls[i]));
      KeepsTrans(s, ram0, t, ram, u.Now(), u.mem.ram, w, v, a, calls[..i], calls[i]);
      ReadyHas(u);
      ValidBacked(u);
      TracedMore(trace, calls[..i], calls[i], At(u), c, w.start);
      assert calls[..i] + [calls[i]] == calls[..i + 1];
      trace := trace + [At(u)];
      i := i + 1;
    }
    assert calls[..i] == calls;
    WithinCaps(u.Now(), u.Bounds());
    ok := true;
  }

  lemma KeepsNone(s: Snap, ram0: Ram, t: Snap, ram: Ram, w: Range, v: Vma, a: nat)
    requires Backed(s.pages, ram0) && Backed(t.pages, ram) && Keeps(s, ram0, t, ram, w, v, a, false, false)
    ensures Keeps(s, ram0, t, ram, w, v, a, AnyFrees([], v), AnyWrites([], a))
  {
    hide AttrAt;
  }

  lemma WithinCaps(s: Snap, c: Limits)
    requires Sound(s, c)
    ensures s.rssStack <= c.capStack && s.rssAnon <= c.capAnon
  {
  }
}
