/** create_process of kernel/process/loading/process_loader.c: from a list of segments to
    an address space in which demand paging, palloc and the kernel's copies can start. */
module Loading {
  import opened Wrappers
  import opened Descriptors
  import opened TableForest
  import opened PageTables
  import opened TableTeardown
  import TableRuns
  import opened TableCounts
  import PageBitmap
  import opened Vmas
  import opened MmapWindow
  import opened AddressSpace
  import opened ProcessState
  import opened Backing
  import opened UserAreas
  import opened Process

  datatype Segment = Segment(start: nat, size: nat, perms: bv8)

  function End(g: Segment): nat { g.start + g.size }

  /** What the ELF loader passes on: at least one segment and none of them empty. They
      leave room for two more areas, and none reaches the last pages of the 64-bit space,
      where sums of addresses wrap. */
  predicate Loadable(segs: seq<Segment>) {
    0 < |segs| <= MAX_VMAS - 2 && forall i :: 0 <= i < |segs| ==> segs[i].size > 0 && End(segs[i]) <= SPACE - 7 * PAGE
  }

  function Lowest(segs: seq<Segment>): nat
    requires segs != []
  {
    if |segs| == 1 || segs[|segs| - 1].start < Lowest(segs[..|segs| - 1]) then segs[|segs| - 1].start
        else Lowest(segs[..|segs| - 1])
  }

  function Highest(segs: seq<Segment>): nat
    requires segs != []
  {
    if |segs| == 1 || End(segs[|segs| - 1]) > Highest(segs[..|segs| - 1]) then End(segs[|segs| - 1])
        else Highest(segs[..|segs| - 1])
  }

  lemma {:induction false} Extremes(segs: seq<Segment>)
    requires Loadable(segs)
    ensures Lowest(segs) < Highest(segs) <= SPACE - 7 * PAGE
    ensures forall i :: 0 <= i < |segs| ==> Lowest(segs) <= segs[i].start && End(segs[i]) <= Highest(segs)
  {
    if |segs| > 1 { Extremes(segs[..|segs| - 1]); }
  }

  lemma {:induction false} ExtremesMet(segs: seq<Segment>)
    requires Loadable(segs)
    ensures exists i :: 0 <= i < |segs| && segs[i].start == Lowest(segs)
    ensures exists i :: 0 <= i < |segs| && End(segs[i]) == Highest(segs)
  {
    var n := |segs| - 1;
    if n > 0 {
      ExtremesMet(segs[..n]);
      var i :| 0 <= i < n && segs[..n][i].start == Lowest(segs[..n]);
      var j :| 0 <= j < n && End(segs[..n][j]) == Highest(segs[..n]);
      assert segs[i].start == Lowest(segs[..n]) && End(segs[j]) == Highest(segs[..n]);
    }
    assert segs[n].start == Lowest(segs) || n > 0;
    assert End(segs[n]) == Highest(segs) || n > 0;
  }

  /** Some byte of the segment lies in the page at va. */
  predicate Touches(g: Segment, va: nat) { g.start < va + PAGE && va < End(g) }

  predicate Any(segs: seq<Segment>, va: nat) { exists i :: 0 <= i < |segs| && Touches(segs[i], va) }

  predicate Grants(segs: seq<Segment>, va: nat, right: bv8) {
    exists i :: 0 <= i < |segs| && Touches(segs[i], va) && segs[i].perms & right != 0
  }

  /** The page is to be written and to be executed. */
  ghost predicate Clash(segs: seq<Segment>, va: nat) {
    AlignedTo(va) && Grants(segs, va, MEM_RW) && Grants(segs, va, MEM_EXEC)
  }

  /** The rights of a page: those of all its segments, but not to execute what can be written. */
  function PageProt(segs: seq<Segment>, va: nat, allowRwx: bool): bv8 {
    var rw, ex := Grants(segs, va, MEM_RW), Grants(segs, va, MEM_EXEC);
    (if rw then MEM_RW else 0) | (if ex && !(rw && !allowRwx) then MEM_EXEC else 0)
  }

  /** The first loop: the addresses from the lowest segment to the highest. */
  method Extent(segs: seq<Segment>) returns (lo: nat, hi: nat)
    requires Loadable(segs)
    ensures lo == Lowest(segs) && hi == Highest(segs)
  {
    lo, hi := SPACE - 1, 0;
    var i := 0;
    while i < |segs|
      invariant i <= |segs|
      invariant (if i == 0 then lo == SPACE - 1 && hi == 0 else lo == Lowest(segs[..i]) && hi == Highest(segs[..i]))
    {
      assert segs[..i + 1][..i] == segs[..i];
      if segs[i].start < lo { lo := segs[i].start; }
      if End(segs[i]) > hi { hi := End(segs[i]); }
      i := i + 1;
    }
    assert segs[..i] == segs;
  }

  /** The inner loop: what the segments in one page ask for. */
  method Rights(segs: seq<Segment>, va: nat) returns (any: bool, rw: bool, ex: bool)
    ensures any == Any(segs, va) && rw == Grants(segs, va, MEM_RW) && ex == Grants(segs, va, MEM_EXEC)
  {
    any, rw, ex := false, false, false;
    var i := 0;
    while i < |segs|
      invariant i <= |segs|
      invariant any == exists j :: 0 <= j < i && Touches(segs[j], va)
      invariant rw == exists j :: 0 <= j < i && Touches(segs[j], va) && segs[j].perms & MEM_RW != 0
      invariant ex == exists j :: 0 <= j < i && Touches(segs[j], va) && segs[j].perms & MEM_EXEC != 0
    {
      var g := segs[i];
      if !(va + PAGE <= g.start) && !(va >= End(g)) {
        assert Touches(segs[i], va);
        any := true;
        if g.perms & MEM_RW != 0 { rw := true; }
        if g.perms & MEM_EXEC != 0 { ex := true; }
      }
      i := i + 1;
    }
  }

  /** The pages [lo, cur) that hold something are mapped to the run of frames from dest on. */
  ghost predicate ImageMapped(p: PageMap, segs: seq<Segment>, lo: nat, cur: nat, dest: nat, allowRwx: bool) {
    && (forall n :: n in p <==> lo <= n * PAGE < cur && Any(segs, n * PAGE))
    && (forall n :: n in p ==>
              n >= lo / PAGE && p[n] == Leaf(dest + (n - lo / PAGE), UserAttr(PageProt(segs, n * PAGE, allowRwx))))
  }

  lemma ImageNext(p: PageMap, segs: seq<Segment>, lo: nat, cur: nat, dest: nat, allowRwx: bool)
    requires ImageMapped(p, segs, lo, cur, dest, allowRwx) && AlignedTo(lo) && AlignedTo(cur) && lo <= cur
    ensures cur / PAGE !in p
    ensures Any(segs, cur) ==>
              ImageMapped(p[cur / PAGE := Leaf(dest + (cur - lo) / PAGE, UserAttr(PageProt(segs, cur, allowRwx)))],
                          segs, lo, cur + PAGE, dest, allowRwx)
    ensures !Any(segs, cur) ==> ImageMapped(p, segs, lo, cur + PAGE, dest, allowRwx)
  {
    hide Any, PageProt;
    assert cur / PAGE * PAGE == cur && (cur - lo) / PAGE == cur / PAGE - lo / PAGE;
    forall n: nat ensures lo <= n * PAGE < cur + PAGE <==> lo <= n * PAGE < cur || n == cur / PAGE { }
  }

  /** The mapping loop. Refused is a page that asks to be written and executed. */
  method MapImage(mem: Memory, segs: seq<Segment>, lo: nat, hi: nat, dest: nat, allowRwx: bool) returns (r: Outcome)
    requires mem.Valid() && mem.Pages() == map[] && AlignedTo(lo) && AlignedTo(hi) && lo <= hi <= LOWER_HALF
    requires dest + Pages(lo, hi) <= FRAMES
    modifies mem.pt
    ensures !r.Panicked? ==> mem.Valid() && mem.Books() == old(mem.Books())
    ensures r.Handled? ==> ImageMapped(mem.Pages(), segs, lo, hi, dest, allowRwx)
    ensures r.Handled? && !allowRwx ==> forall n :: n in mem.Pages() ==> !Clash(segs, n * PAGE)
    ensures r.Refused? ==> !allowRwx && exists a :: lo <= a < hi && Clash(segs, a)
    ensures r.Panicked? ==> |old(mem.pt.pool)| < 3 * Pages(lo, hi)
    ensures |mem.pt.pool| >= |old(mem.pt.pool)| - 3 * Pages(lo, hi)
  {
    hide Memory.Valid, UserMap, UsedSet, TablesFor, ImageMapped, Any, Grants, PageProt, Attributes, Pages,
      Memory.Books;
    var va := lo;
    ImageNone(segs, lo, dest, allowRwx);
    while va < hi
      invariant lo <= va <= hi && AlignedTo(va) && mem.Valid() && mem.Books() == old(mem.Books())
      invariant ImageMapped(mem.Pages(), segs, lo, va, dest, allowRwx)
      invariant |mem.pt.pool| >= |old(mem.pt.pool)| - 3 * Pages(lo, va)
      invariant !allowRwx ==> forall n :: n in mem.Pages() ==> !Clash(segs, n * PAGE)
    {
      ImageNext(mem.Pages(), segs, lo, va, dest, allowRwx);
      PagesUp(lo, va, hi);
      PageNumber(va, lo, hi);
      var any, rw, ex := Rights(segs, va);
      if any {
        if rw && ex && !allowRwx {
          assert Clash(segs, va);
          return Refused;
        }
        var attr := (if rw then MEM_RW else 0) | (if ex && !(rw && !allowRwx) then MEM_EXEC else 0);
        ProtIs(segs, va, allowRwx, attr);
        var ok := mem.MapFrame(va / PAGE, dest + (va - lo) / PAGE, attr, User);
        if !ok { return Panicked; }
      }
      va := va + PAGE;
    }
    return Handled;
  }

  lemma ProtIs(segs: seq<Segment>, va: nat, allowRwx: bool, attr: bv8)
    requires attr == (if Grants(segs, va, MEM_RW) then MEM_RW else 0)
                     | (if Grants(segs, va, MEM_EXEC) && !(Grants(segs, va, MEM_RW) && !allowRwx) then MEM_EXEC else 0)
    ensures PageProt(segs, va, allowRwx) == attr
  {
    hide Grants;
  }

  lemma ImageNone(segs: seq<Segment>, lo: nat, dest: nat, allowRwx: bool)
    ensures ImageMapped(map[], segs, lo, lo, dest, allowRwx) && Pages(lo, lo) == 0
  {
  }

  lemma PagesUp(lo: nat, va: nat, hi: nat)
    requires AlignedTo(lo) && AlignedTo(va) && AlignedTo(hi) && lo <= va < hi
    ensures va + PAGE <= hi && AlignedTo(va + PAGE) && Pages(lo, va + PAGE) == Pages(lo, va) + 1 <= Pages(lo, hi)
  {
  }

  lemma PageNumber(va: nat, lo: nat, hi: nat)
    requires AlignedTo(va) && AlignedTo(lo) && lo <= va < hi <= LOWER_HALF && AlignedTo(hi)
    ensures va / PAGE * PAGE == va && va / PAGE < USER_PAGES && (va - lo) / PAGE < Pages(lo, hi)
  {
  }

  /** Page by page, no two segments meet. */
  ghost predicate Apart(segs: seq<Segment>) {
    forall i, j :: 0 <= i < j < |segs| ==>
        Up(End(segs[i])) <= Down(segs[j].start) || Up(End(segs[j])) <= Down(segs[i].start)
  }

  ghost predicate InPages(segs: seq<Segment>, a: nat) {
    exists i :: 0 <= i < |segs| && Down(segs[i].start) <= a < Up(End(segs[i]))
  }

  /** Areas of the image lie in the pages of segments and are of its kind. */
  ghost predicate FromImage(vs: seq<Vma>, segs: seq<Segment>) {
    forall a: nat :: AttrAt(vs, a).Some? ==>
        InPages(segs, a) && AttrAt(vs, a).value.kind == KIND_ELF && AttrAt(vs, a).value.flags == 0
  }

  ghost predicate AllCovered(vs: seq<Vma>, segs: seq<Segment>) {
    forall a: nat :: InPages(segs, a) ==> AttrAt(vs, a).Some?
  }

  lemma InPagesMore(segs: seq<Segment>, g: Segment)
    ensures forall a: nat :: InPages(segs + [g], a) <==> InPages(segs, a) || Down(g.start) <= a < Up(End(g))
  {
    hide Up, Down;
    var more := segs + [g];
    forall a: nat ensures InPages(more, a) <==> InPages(segs, a) || Down(g.start) <= a < Up(End(g)) {
      if i :| 0 <= i < |segs| && Down(segs[i].start) <= a < Up(End(segs[i])) { assert more[i] == segs[i]; }
      assert more[|segs|] == g;
    }
  }

  function AreaOf(g: Segment): Vma { Vma(Down(g.start), Up(End(g)), g.perms & (MEM_RW | MEM_EXEC), KIND_ELF, 0) }

  /** The area of a segment: whole pages round it, and its rights to write and to execute. */
  lemma AreaMeans(g: Segment)
    requires Loadable([g])
    ensures var v := AreaOf(g);
            && v.start % 4096 == 0 && v.start <= g.start < v.start + 4096
            && v.end % 4096 == 0 && v.end < g.start + g.size + 4096 && g.start + g.size <= v.end
            && (v.prot & 1 != 0 <==> g.perms & 1 != 0) && (v.prot & 2 != 0 <==> g.perms & 2 != 0) && v.prot < 4
            && v.kind == 1 && v.flags == 0
  {
    assert [g][0] == g;
    RoundingAligned(End(g));
  }

  /** One segment more: its area is added, or refused because it meets another or the list is full. */
  lemma AreaMore(vs: seq<Vma>, segs: seq<Segment>, g: Segment)
    requires Sorted(vs) && Coalesced(vs) && FromImage(vs, segs) && Loadable([g])
    requires CanAdd(vs, AreaOf(g).start, AreaOf(g).end)
    ensures FromImage(Added(vs, AreaOf(g)), segs + [g]) && 0 < |Added(vs, AreaOf(g))| <= |vs| + 1
    ensures AllCovered(vs, segs) ==> AllCovered(Added(vs, AreaOf(g)), segs + [g])
  {
    hide AttrAt, Added, Sorted, CanAdd, Up, Down, InPages;
    var v := AreaOf(g);
    InPagesMore(segs, g);
    Whole([g], 0);
    AddedCoalesced(vs, v);
    forall a: nat
      ensures AttrAt(Added(vs, v), a) == if v.start <= a < v.end then Some(AttrOf(v)) else AttrAt(vs, a)
    {
      AddedAttr(vs, v, a);
    }
    assert AttrAt(Added(vs, v), v.start).Some?;
    NotEmpty(Added(vs, v), v.start);
  }

  lemma NotEmpty(vs: seq<Vma>, a: nat)
    requires AttrAt(vs, a).Some?
    ensures |vs| > 0
  {
  }

  lemma AreaKept(vs: seq<Vma>, segs: seq<Segment>, g: Segment)
    requires FromImage(vs, segs)
    ensures FromImage(vs, segs + [g])
  {
    hide AttrAt, InPages;
    InPagesMore(segs, g);
  }

  /** The pages of a segment, as whole pages. */
  lemma Whole(segs: seq<Segment>, i: nat)
    requires Loadable(segs) && i < |segs|
    ensures AlignedTo(Down(segs[i].start)) && AlignedTo(Up(End(segs[i])))
    ensures Down(segs[i].start) < Up(End(segs[i])) < SPACE
  {
    RoundingAligned(segs[i].start);
    RoundingAligned(End(segs[i]));
  }

  /** A segment apart from the others is not refused, while there is room. */
  lemma AddsApart(vs: seq<Vma>, segs: seq<Segment>, n: nat)
    requires Loadable(segs) && Apart(segs) && n < |segs| && Sorted(vs) && FromImage(vs, segs[..n]) && |vs| < MAX_VMAS
    ensures CanAdd(vs, AreaOf(segs[n]).start, AreaOf(segs[n]).end)
  {
    hide Up, Down, AlignedTo, InPages, Apart;
    var v := AreaOf(segs[n]);
    Whole(segs, n);
    forall i | 0 <= i < |vs| ensures vs[i].end <= v.start || v.end <= vs[i].start {
      var a := if vs[i].start <= v.start then v.start else vs[i].start;
      if a < vs[i].end && a < v.end {
        AttrAtHit(vs, i, a);
        ApartFrom(segs, n, a);
      }
    }
    CanAddIffDisjoint(vs, v.start, v.end);
  }

  lemma ApartFrom(segs: seq<Segment>, n: nat, a: nat)
    requires Loadable(segs) && Apart(segs) && n < |segs| && InPages(segs[..n], a)
    ensures !(Down(segs[n].start) <= a < Up(End(segs[n])))
  {
    hide Up, Down;
    var j :| 0 <= j < |segs[..n]| && Down(segs[..n][j].start) <= a < Up(End(segs[..n][j]));
    assert segs[..n][j] == segs[j];
  }

  /** Two segments share a page. */
  ghost predicate Meets(g: Segment, h: Segment) {
    Down(g.start) < Up(End(h)) && Down(h.start) < Up(End(g))
  }

  /** The segment meets none that has got its area. */
  ghost predicate Unmet(segs: seq<Segment>, got: seq<bool>, g: Segment)
    requires |got| == |segs|
  {
    forall j :: 0 <= j < |segs| && got[j] ==> !Meets(segs[j], g)
  }

  /** Which segments get an area: those that meet no earlier one that has. */
  ghost predicate Gets(segs: seq<Segment>, got: seq<bool>) {
    |got| == |segs| && forall i :: 0 <= i < |segs| ==> (got[i] <==> Unmet(segs[..i], got[..i], segs[i]))
  }

  /** Every segment gets its area exactly when no two share a page. */
  lemma AllGet(segs: seq<Segment>, got: seq<bool>)
    requires Gets(segs, got)
    ensures (forall i :: 0 <= i < |segs| ==> got[i]) <==> Apart(segs)
  {
    hide Up, Down;
    forall i, j | 0 <= i < j < |segs| && got[i] && got[j] ensures !Meets(segs[i], segs[j]) {
      assert Unmet(segs[..j], got[..j], segs[j]) && segs[..j][i] == segs[i] && got[..j][i];
    }
    if Apart(segs) {
      forall i | 0 <= i < |segs| ensures got[i] {
        forall j | 0 <= j < i && got[..i][j] ensures !Meets(segs[..i][j], segs[i]) { assert segs[..i][j] == segs[j]; }
      }
    }
  }

  /** Segment i has got its area and a lies in its pages. */
  ghost predicate GotAt(segs: seq<Segment>, got: seq<bool>, i: nat, a: nat) {
    i < |segs| && i < |got| && got[i] && Down(segs[i].start) <= a < Up(End(segs[i]))
  }

  /** The areas are exactly those of the segments that get one, with their rights. */
  ghost predicate Laid(vs: seq<Vma>, segs: seq<Segment>, got: seq<bool>) {
    && (forall a: nat :: AttrAt(vs, a).Some? ==> exists i: nat :: GotAt(segs, got, i, a))
    && (forall i: nat, a: nat :: GotAt(segs, got, i, a) ==> AttrAt(vs, a) == Some(AttrOf(AreaOf(segs[i]))))
  }

  lemma AddsUnmet(vs: seq<Vma>, segs: seq<Segment>, got: seq<bool>, g: Segment)
    requires |got| == |segs| && Laid(vs, segs, got) && Sorted(vs) && Loadable([g]) && |vs| < MAX_VMAS
    requires segs == [] || Loadable(segs)
    ensures CanAdd(vs, AreaOf(g).start, AreaOf(g).end) <==> Unmet(segs, got, g)
  {
    hide Up, Down, AlignedTo, AttrAt;
    var v := AreaOf(g);
    Whole([g], 0);
    CanAddIffDisjoint(vs, v.start, v.end);
    if !Unmet(segs, got, g) {
      var j :| 0 <= j < |segs| && got[j] && Meets(segs[j], g);
      Whole(segs, j);
      var a := if Down(segs[j].start) <= v.start then v.start else Down(segs[j].start);
      assert GotAt(segs, got, j, a);
      SomeHit(vs, a);
    }
    forall i | 0 <= i < |vs| ensures vs[i].end <= v.start || v.end <= vs[i].start || !Unmet(segs, got, g) {
      var a := if vs[i].start <= v.start then v.start else vs[i].start;
      if a < vs[i].end && a < v.end {
        AttrAtHit(vs, i, a);
        var j: nat :| GotAt(segs, got, j, a);
        assert Meets(segs[j], g);
      }
    }
  }

  lemma SomeHit(vs: seq<Vma>, a: nat)
    requires AttrAt(vs, a).Some?
    ensures exists i :: 0 <= i < |vs| && vs[i].start <= a < vs[i].end
  {
    var i := IndexAt(vs, a);
    assert Hit(vs, i, a);
  }

  lemma LaidMore(vs: seq<Vma>, segs: seq<Segment>, got: seq<bool>, g: Segment)
    requires |got| == |segs| && Laid(vs, segs, got) && Sorted(vs) && Loadable([g])
    requires CanAdd(vs, AreaOf(g).start, AreaOf(g).end) && Unmet(segs, got, g)
    ensures Laid(Added(vs, AreaOf(g)), segs + [g], got + [true])
  {
    hide Up, Down, AlignedTo, AttrAt, Added, CanAdd, Sorted;
    var v, more, got' := AreaOf(g), segs + [g], got + [true];
    Whole([g], 0);
    forall a: nat
      ensures AttrAt(Added(vs, v), a) == if v.start <= a < v.end then Some(AttrOf(v)) else AttrAt(vs, a)
    {
      AddedAttr(vs, v, a);
    }
    forall a: nat | AttrAt(Added(vs, v), a).Some? ensures exists i: nat :: GotAt(more, got', i, a) {
      if v.start <= a < v.end {
        assert GotAt(more, got', |segs|, a);
      } else {
        var i: nat :| GotAt(segs, got, i, a);
        assert GotAt(more, got', i, a);
      }
    }
    forall i: nat, a: nat | GotAt(more, got', i, a)
      ensures AttrAt(Added(vs, v), a) == Some(AttrOf(AreaOf(more[i])))
    {
      if i < |segs| { assert GotAt(segs, got, i, a) && !Meets(segs[i], g); }
    }
  }

  lemma LaidSame(vs: seq<Vma>, segs: seq<Segment>, got: seq<bool>, g: Segment)
    requires |got| == |segs| && Laid(vs, segs, got)
    ensures Laid(vs, segs + [g], got + [false])
  {
    hide Up, Down, AttrAt;
    var more, got' := segs + [g], got + [false];
    forall a: nat | AttrAt(vs, a).Some? ensures exists i: nat :: GotAt(more, got', i, a) {
      var i: nat :| GotAt(segs, got, i, a);
      assert GotAt(more, got', i, a);
    }
    forall i: nat, a: nat | GotAt(more, got', i, a) ensures GotAt(segs, got, i, a) { }
  }

  lemma GetsMore(segs: seq<Segment>, got: seq<bool>, g: Segment, b: bool)
    requires Gets(segs, got) && (b <==> Unmet(segs, got, g))
    ensures Gets(segs + [g], got + [b])
  {
    hide Unmet;
    var more, got' := segs + [g], got + [b];
    forall i | 0 <= i < |more| ensures got'[i] <==> Unmet(more[..i], got'[..i], more[i]) {
      assert more[..i] == segs[..i] && got'[..i] == got[..i];
      if i == |segs| { assert segs[..i] == segs && got[..i] == got; }
    }
  }

  /** The loop that adds an area for each segment, and does not ask whether it was added. */
  method AddAreas(mm: Mm, segs: seq<Segment>) returns (ghost got: seq<bool>)
    requires mm.Unset() && mm.vmaCount == 0 && Loadable(segs)
    modifies mm`vmaCount, mm.vmas
    ensures mm.Unset() && 0 < mm.vmaCount && FromImage(mm.Areas(), segs)
    ensures mm.vmaCount <= |segs| && (Apart(segs) ==> AllCovered(mm.Areas(), segs))
    ensures Gets(segs, got) && Laid(mm.Areas(), segs, got)
    ensures (forall i :: 0 <= i < |segs| ==> got[i]) <==> Apart(segs)
  {
    hide AttrAt, Added, Sorted, CanAdd, Up, Down, FromImage, AllCovered, Apart, AlignedTo, InPages, Laid, Gets, Unmet;
    var i := 0;
    got := [];
    assert Gets(segs[..0], got) && Laid(mm.Areas(), segs[..0], got) by { NoneLaid(mm.Areas()); }
    NothingYet(mm.Areas(), segs);
    while i < |segs|
      invariant i <= |segs| && mm.Unset() && FromImage(mm.Areas(), segs[..i]) && (i > 0 ==> mm.vmaCount > 0)
      invariant (i == 0 ==> mm.vmaCount == 0)
      invariant mm.vmaCount <= i && (Apart(segs) ==> AllCovered(mm.Areas(), segs[..i]))
      invariant |got| == i && Gets(segs[..i], got) && Laid(mm.Areas(), segs[..i], got)
    {
      var g := segs[i];
      ghost var vs := mm.Areas();
      if Apart(segs) { AddsApart(vs, segs, i); }
      if i == 0 { AddsFirst(vs, segs); }
      if CanAdd(vs, AreaOf(g).start, AreaOf(g).end) { AreaMore(vs, segs[..i], g); } else { AreaKept(vs, segs[..i], g); }
      assert segs[..i + 1] == segs[..i] + [g];
      AddsUnmet(vs, segs[..i], got, g);
      ghost var adds := CanAdd(vs, AreaOf(g).start, AreaOf(g).end);
      if adds { LaidMore(vs, segs[..i], got, g); } else { LaidSame(vs, segs[..i], got, g); }
      GetsMore(segs[..i], got, g, adds);
      got := got + [adds];
      var ok := mm.AddVma(g.start, End(g), g.perms & (MEM_RW | MEM_EXEC), KIND_ELF, 0);
      i := i + 1;
    }
    assert segs[..i] == segs;
    AllGet(segs, got);
  }

  lemma NoneLaid(vs: seq<Vma>)
    requires vs == []
    ensures Gets([], []) && Laid(vs, [], [])
  {
    forall a: nat ensures AttrAt(vs, a) == None { }
  }

  lemma NothingYet(vs: seq<Vma>, segs: seq<Segment>)
    requires vs == []
    ensures FromImage(vs, segs[..0]) && AllCovered(vs, segs[..0])
  {
  }

  lemma AddsFirst(vs: seq<Vma>, segs: seq<Segment>)
    requires vs == [] && Loadable(segs)
    ensures CanAdd(vs, AreaOf(segs[0]).start, AreaOf(segs[0]).end)
  {
    hide Up, Down;
    Whole(segs, 0);
  }

  lemma AttrAppend(vs: seq<Vma>, more: seq<Vma>, a: nat)
    requires Sorted(vs + more)
    ensures AttrAt(vs + more, a) == if AttrAt(vs, a).Some? then AttrAt(vs, a) else AttrAt(more, a)
  {
    hide AlignedTo;
    var all := vs + more;
    if Covered(all, a) {
      var i := IndexAt(all, a);
      if i < |vs| { assert Hit(vs, i, a); } else { assert Hit(more, i - |vs|, a); }
    }
    if Covered(vs, a) {
      AttrAtHit(all, IndexAt(vs, a), a);
    } else if Covered(more, a) {
      AttrAtHit(all, |vs| + IndexAt(more, a), a);
    }
  }

  /** The areas of a new process, address by address. */
  lemma LaidAttr(vs0: seq<Vma>, vs: seq<Vma>, a: nat)
    requires vs == vs0 + [SHARED_AREA, STACK_AREA] && Sorted(vs)
    ensures AttrAt(vs, a) ==
            if AttrAt(vs0, a).Some? then AttrAt(vs0, a)
            else if SHARED_BASE <= a < STACK_LIMIT then Some(AttrOf(SHARED_AREA))
            else if STACK_LIMIT <= a < STACK_TOP then Some(AttrOf(STACK_AREA))
            else None
  {
    hide Sorted, AttrAt;
    AttrAppend(vs0, [SHARED_AREA, STACK_AREA], a);
    TailAttr(a);
  }

  lemma TailAttr(a: nat)
    ensures AttrAt([SHARED_AREA, STACK_AREA], a) ==
            if SHARED_BASE <= a < STACK_LIMIT then Some(AttrOf(SHARED_AREA))
            else if STACK_LIMIT <= a < STACK_TOP then Some(AttrOf(STACK_AREA))
            else None
  {
    var tail := [SHARED_AREA, STACK_AREA];
    assert SHARED_BASE <= a < STACK_LIMIT ==> Hit(tail, 0, a);
    assert STACK_LIMIT <= a < STACK_TOP ==> Hit(tail, 1, a);
  }

  /** The frames a new process is given: a run for the image, and one that all processes share. */
  ghost predicate Given(c: Limits, used: set<nat>, dest: nat, n: nat, shared: nat) {
    && (forall f :: dest <= f < dest + n || f == shared ==> f in c.ram && (c.lo <= f < c.hi ==> f in used))
    && !(dest <= shared < dest + n)
  }

  /** A page that a segment touches is one of its whole pages. */
  lemma TouchedWhole(segs: seq<Segment>, va: nat)
    requires Loadable(segs) && AlignedTo(va)
    ensures Any(segs, va) <==> InPages(segs, va)
  {
    hide Up, Down, Touches, AlignedTo;
    forall i | 0 <= i < |segs| ensures Touches(segs[i], va) <==> Down(segs[i].start) <= va < Up(End(segs[i])) {
      TouchOne(segs[i], va);
    }
  }

  lemma TouchOne(g: Segment, va: nat)
    requires End(g) <= SPACE - 7 * PAGE && AlignedTo(va)
    ensures Touches(g, va) <==> Down(g.start) <= va < Up(End(g))
  {
    RoundingAligned(g.start);
    RoundingAligned(End(g));
    assert g.start < Down(g.start) + PAGE;
    hide Up, Down;
    NextAligned(Down(g.start), va);
    NextAligned(Up(End(g)), va);
  }

  lemma NextAligned(x: nat, y: nat)
    requires AlignedTo(x) && AlignedTo(y)
    ensures x < y + PAGE ==> x <= y
    ensures y < x ==> y + PAGE <= x
  {
  }

  /** The pages of an image with all its areas, and the shared page above it. */
  datatype Image = Image(segs: seq<Segment>, areas: seq<Vma>, pages: PageMap, dest: nat, shared: nat, allowRwx: bool)

  ghost predicate Complete(m: Image) {
    && Loadable(m.segs) && FromImage(m.areas, m.segs) && AllCovered(m.areas, m.segs) && Sorted(AllAreas(m))
    && ImageMapped(m.pages, m.segs, Down(Lowest(m.segs)), Up(Highest(m.segs)), m.dest, m.allowRwx)
    && Up(Highest(m.segs)) <= SHARED_BASE
  }

  ghost function AllAreas(m: Image): seq<Vma> { m.areas + [SHARED_AREA, STACK_AREA] }

  ghost function AllPages(m: Image): PageMap { m.pages[SHARED_BASE / PAGE := Leaf(m.shared, UserAttr(MEM_EXEC))] }

  /** What the new page map maps, and where. */
  lemma NewPages(m: Image, n: nat)
    requires Complete(m) && n in AllPages(m)
    ensures n * PAGE < STACK_LIMIT && AttrAt(AllAreas(m), n * PAGE).Some?
    ensures AttrAt(AllAreas(m), n * PAGE).value.kind == if n == SHARED_BASE / PAGE then KIND_SPECIAL else KIND_ELF
    ensures n != SHARED_BASE / PAGE ==>
              var lo := Down(Lowest(m.segs));
              && lo / PAGE <= n && (n - lo / PAGE) < Pages(lo, Up(Highest(m.segs)))
              && AllPages(m)[n].frame == m.dest + (n - lo / PAGE)
    ensures n == SHARED_BASE / PAGE ==> AllPages(m)[n].frame == m.shared
  {
    hide AttrAt, Sorted, Any, InPages, Up, Down, UserAttr, PageProt, Lowest, Highest, ImageMapped, FromImage,
      AllCovered, Pages, AlignedTo;
    LaidAttr(m.areas, AllAreas(m), n * PAGE);
    if n == SHARED_BASE / PAGE { SharedPage(m.areas, m.segs); } else { ImagePage(m, n); }
  }

  /** The shared page lies above the image. */
  lemma SharedPage(vs: seq<Vma>, segs: seq<Segment>)
    requires Loadable(segs) && FromImage(vs, segs) && Up(Highest(segs)) <= SHARED_BASE
    ensures AttrAt(vs, SHARED_BASE) == None && SHARED_BASE / PAGE * PAGE == SHARED_BASE
  {
    hide AttrAt, InPages, Up, Highest;
    LayOutAligned();
    if InPages(segs, SHARED_BASE) { Below(segs, SHARED_BASE); }
  }

  lemma ImagePage(m: Image, n: nat)
    requires Complete(m) && n in m.pages
    ensures n * PAGE < SHARED_BASE && AttrAt(m.areas, n * PAGE).Some?
    ensures AttrAt(m.areas, n * PAGE).value.kind == KIND_ELF
    ensures var lo := Down(Lowest(m.segs));
            && lo / PAGE <= n && (n - lo / PAGE) < Pages(lo, Up(Highest(m.segs)))
            && m.pages[n].frame == m.dest + (n - lo / PAGE)
  {
    hide AttrAt, Sorted, Any, InPages, Up, Down, UserAttr, PageProt, Lowest, Highest, Coalesced, AllAreas;
    Extremes(m.segs);
    RoundingAligned(Lowest(m.segs));
    RoundingAligned(Highest(m.segs));
    TouchedWhole(m.segs, n * PAGE);
  }

  lemma Below(segs: seq<Segment>, a: nat)
    requires Loadable(segs) && InPages(segs, a)
    ensures a < Up(Highest(segs))
  {
    Extremes(segs);
    var i :| 0 <= i < |segs| && Down(segs[i].start) <= a < Up(End(segs[i]));
    UpMonotone(End(segs[i]), Highest(segs));
  }

  lemma UpMonotone(x: nat, y: nat)
    requires x <= y <= SPACE - PAGE
    ensures Up(x) <= Up(y)
  {
  }

  lemma NewFrames(m: Image, c: Limits, used: set<nat>)
    requires Complete(m) && Given(c, used, m.dest, Pages(Down(Lowest(m.segs)), Up(Highest(m.segs))), m.shared)
    ensures FramesOk(AllPages(m), used, c.lo, c.hi, c.ram, AllAreas(m)) && Anon(AllPages(m), AllAreas(m)) == {}
    ensures forall n :: n in AllPages(m) ==> n * PAGE < STACK_LIMIT
  {
    hide AttrAt, Complete, AllAreas, AllPages, Pages, Up, Down, Lowest, Highest;
    var p, vs := AllPages(m), AllAreas(m);
    forall n | n in p
      ensures p[n].frame in c.ram && (c.lo <= p[n].frame < c.hi ==> p[n].frame in used) && AttrAt(vs, n * PAGE).Some?
      ensures !KindAt(vs, n * PAGE, KIND_ANON) && !KindAt(vs, n * PAGE, KIND_STACK) && n * PAGE < STACK_LIMIT
    {
      NewPages(m, n);
    }
    forall n, k | n in p && k in p && p[n].frame == p[k].frame ensures n == k {
      NewPages(m, n);
      NewPages(m, k);
    }
  }

  lemma NewAreas(m: Image, a: nat)
    requires Complete(m)
    ensures AttrAt(AllAreas(m), a).Some? ==> a < LOWER_HALF
    ensures STACK_LIMIT <= a < STACK_TOP ==> KindAt(AllAreas(m), a, KIND_STACK)
  {
    hide AttrAt, Sorted, Up, Down, InPages, ImageMapped;
    LaidAttr(m.areas, AllAreas(m), a);
    if InPages(m.segs, a) { Below(m.segs, a); }
  }

  /** A new process is in order. */
  lemma NewSound(m: Image, c: Limits, used: set<nat>)
    requires Complete(m) && Given(c, used, m.dest, Pages(Down(Lowest(m.segs)), Up(Highest(m.segs))), m.shared)
    ensures Sound(Snap(AllPages(m), used, AllAreas(m), Stack(STACK_LIMIT, STACK_TOP, STACK_TOP), 0, 0), c)
  {
    hide AttrAt, AllAreas, AllPages, FramesOk, Pages, Up, Down, Sorted, KindAt, Given;
    NewFrames(m, c, used);
    LayOutAligned();
    forall a: nat
      ensures AttrAt(AllAreas(m), a).Some? ==> a < LOWER_HALF
      ensures STACK_LIMIT <= a < STACK_TOP ==> KindAt(AllAreas(m), a, KIND_STACK)
    {
      NewAreas(m, a);
    }
  }

  /** A new root maps nothing and has no table below it. */
  lemma FreshRoot(mem: Mem, place: map<Frame, Place>, v: View, root: Frame)
    requires Forest(mem, place) && Shows(mem, place, v) && root !in place
    ensures NoBlocks(v, root) && UserMap(v, root) == map[]
    ensures Pruned(mem[root := EMPTY_TABLE], place[root := L0(root)], root)
    ensures PageTables.Without(v, root) == v
    ensures place[root := L0(root)] - TablesOf(place[root := L0(root)], root) == place
  {
    hide Forest;
    forall t | t in place ensures place[t].root != root { RootIn(mem, place, t); }
    forall q | q in v.pages ensures q.root != root { }
    assert UserMap(v, root) == map[];
    TableRuns.WithoutNew(mem, place, v, root);
    assert TablesOf(place[root := L0(root)], root) == {root};
  }

  /** Tearing down what has been mapped so far leaves the tables as they were. */
  method Abandon(pt: Tables, root: Frame, ghost view: View, ghost place: map<Frame, Place>, ghost pool: seq<Frame>)
    requires pt.Valid() && IsRoot(pt.place, root) && pt.Owned() == place.Keys + InPool(pool)
    requires PageTables.Without(pt.view, root) == view && pt.place - TablesOf(pt.place, root) == place
    requires (forall i, j :: 0 <= i < j < |pool| ==> pool[i] != pool[j]) && forall n :: n in pool ==> n !in place
    modifies pt
    ensures pt.Valid() && pt.view == view && pt.place == place && multiset(pt.pool) == multiset(pool)
  {
    hide Forest, Shows, TablesOf, PageTables.Without;
    pt.FreeTtbr(root);
    SameKeys(pt.mem, pt.place);
    TableRuns.SamePool(pool, pt.pool, place.Keys);
  }

  lemma RootIn(mem: Mem, place: map<Frame, Place>, t: Frame)
    requires Forest(mem, place) && t in place
    ensures place[t].root in place
  {
    TableSize(mem, place, t);
  }

  datatype Result = Loaded(user: User) | Failed | Panic

  /** The pages of RAM that tables and allocator stand on. */
  ghost predicate Backs(pt: Tables, frames: PageBitmap.Allocator, ram: map<nat, Bytes>)
    reads pt, frames, frames.bitmap
  {
    && pt.Valid() && pt.kernelRoots <= pt.mem.Keys && frames.Valid() && frames.max <= FRAMES
    && (forall f :: frames.min <= f < frames.max ==> f in ram) && (forall f :: f in ram ==> |ram[f]| == GRANULE)
  }

  const STACK_PAGES := 0x80_0000 / PAGE

  function AnonCap(totalPages: nat): nat {
    var half := (if totalPages == 0 then 1 else totalPages) / 2;
    if half < 128 then 128 else half
  }

  /** An image page is never both writable and executable, unless that was allowed. */
  lemma WriteXorExecute(segs: seq<Segment>, va: nat)
    ensures PageProt(segs, va, false) & MEM_RW == 0 || PageProt(segs, va, false) & MEM_EXEC == 0
  {
  }

  /** What user mode may do with an image page: read it; write it exactly when a segment
      that touches it may be written; execute it exactly when one may be executed and
      either none may be written or both were allowed at once. The kernel never executes it. */
  lemma PageRights(segs: seq<Segment>, va: nat, allowRwx: bool)
    ensures var r := RightsOf(UserAttr(PageProt(segs, va, allowRwx)));
            var rw := exists i :: 0 <= i < |segs| && Touches(segs[i], va) && segs[i].perms & 1 != 0;
            var ex := exists i :: 0 <= i < |segs| && Touches(segs[i], va) && segs[i].perms & 2 != 0;
            r.userRead && !r.kernelExec && (r.userWrite <==> rw) && (r.userExec <==> ex && (allowRwx || !rw))
  {
    hide RightsOf, Attributes, Touches;
    GrantedRights(MAIR_IDX_NORMAL, PageProt(segs, va, allowRwx), User);
  }

  /** The areas of the image, as the layout needs them. */
  lemma ImageBelow(vs: seq<Vma>, segs: seq<Segment>, i: nat)
    requires Loadable(segs) && FromImage(vs, segs) && Sorted(vs) && i < |vs|
    ensures vs[i].end <= Up(Highest(segs)) && vs[i].kind == KIND_ELF && !IsUserAlloc(vs[i])
  {
    hide Up, Down, AlignedTo, InPages, AttrAt;
    AttrAtHit(vs, i, vs[i].end - 1);
    Below(segs, vs[i].end - 1);
  }

  ghost function ImageStart(segs: seq<Segment>): nat
    requires segs != []
  {
    Down(Lowest(segs))
  }

  ghost function ImageEnd(segs: seq<Segment>): nat
    requires segs != []
  {
    Up(Highest(segs))
  }

  /** The image ends far enough below the stack for an mmap window. */
  ghost predicate Roomy(segs: seq<Segment>)
    requires segs != []
  {
    Up(ImageEnd(segs) + 4 * PAGE) + GAP_PAGES * PAGE <= SHARED_BASE
  }

  /** The mmap window of a new process is in place, if the image leaves room for one. */
  ghost predicate WindowSet(mm: Mm, segs: seq<Segment>)
    requires segs != []
    reads mm, mm.vmas, mm.mmapFree
  {
    && mm.Valid() && mm.top == SHARED_BASE && mm.vmaCount <= mm.vmas.Length && UserVmas(mm.Areas()) == {}
    && (Roomy(segs) ==>
              mm.Window() && NoStack(mm.Areas(), mm.cursor, mm.top) && Anchored(mm.Areas(), mm.Guard(), mm.top))
  }

  /** The areas of a new process. */
  method LayOutAreas(segs: seq<Segment>, maxMap: nat) returns (mm: Mm, ghost areas: seq<Vma>)
    requires Loadable(segs) && maxMap == ImageEnd(segs) && Up(maxMap + 4 * PAGE) <= SHARED_BASE
    ensures fresh(mm) && fresh(mm.vmas) && fresh(mm.mmapFree) && WindowSet(mm, segs)
    ensures mm.Areas() == areas + [SHARED_AREA, STACK_AREA] && FromImage(areas, segs)
    ensures (Apart(segs) ==> AllCovered(areas, segs))
  {
    hide Up, Down, Lowest, Highest, Apart, FromImage, AllCovered, Tiled, NoStack, Anchored, AlignedTo, UserVmas,
      Sorted, Coalesced, AttrAt;
    mm := new Mm();
    ghost var got := AddAreas(mm, segs);
    areas := mm.Areas();
    forall i | 0 <= i < |areas|
      ensures areas[i].end <= ImageEnd(segs) && areas[i].kind == KIND_ELF && !IsUserAlloc(areas[i])
    {
      ImageBelow(areas, segs, i);
    }
    Extremes(segs);
    RoundingAligned(Highest(segs));
    var ok := mm.LayOut(maxMap);
  }

  /** How a new process starts: 8 MB of stack below the top of user space, none of it
      committed and all of it filled on demand; no anonymous page; caps of the whole stack,
      and of half the user RAM, but at least 128 pages, for anonymous ones. The page below
      the stack can be executed and is never freed. */
  ghost predicate Starts(u: User, totalPages: nat)
    reads u, u.mm, u.mm.vmas
  {
    && u.stack == Stack(0x7FFF_FF7F_F000, 0x7FFF_FFFF_F000, 0x7FFF_FFFF_F000) && u.sp == 0x7FFF_FFFF_F000
    && u.rssStack == 0 && u.rssAnon == 0 && u.capStack == 2048
    && 128 <= u.capAnon && totalPages / 2 <= u.capAnon && (u.capAnon == 128 || u.capAnon == totalPages / 2)
    && 2 <= u.mm.vmaCount <= u.mm.vmas.Length
    && u.mm.vmas[u.mm.vmaCount - 2] == Vma(0x7FFF_FF7F_E000, 0x7FFF_FF7F_F000, 2, KIND_SPECIAL, 8)
    && u.mm.vmas[u.mm.vmaCount - 1] == Vma(0x7FFF_FF7F_F000, 0x7FFF_FFFF_F000, 1, KIND_STACK, 1)
  }

  /** A new process may read and write the 128 KiB below its stack pointer, and what comes
      in then is the stack from there up. */
  lemma FirstPush(u: User, totalPages: nat, far: nat, write: bool)
    requires u.Valid() && Starts(u, totalPages) && u.sp - 0x2_0000 <= far < u.sp
    ensures Allowed(u.Now(), u.Bounds(), u.sp, Down(far), Access(false, write))
    ensures Wanted(u.Now(), Down(far)) == (u.sp - Down(far)) / PAGE <= 32
  {
    hide AttrAt, Memory.Valid, Mm.Valid, UserMap, UsedSet, RightsOf, Attributes, FramesOk, StackMapped, Counted;
    GrantedRights(MAIR_IDX_NORMAL, 1, User);
    AttrAtHit(u.mm.Areas(), u.mm.vmaCount - 1, Down(far));
  }

  /** The second half of create_process: areas, window, shared page, stack and counters. */
  method Furnish(mem: Memory, segs: seq<Segment>, maxMap: nat, dest: nat, shared: nat, totalPages: nat, allowRwx: bool)
    returns (r: Result)
    requires mem.Valid() && Loadable(segs) && shared < FRAMES && maxMap == ImageEnd(segs)
    requires Up(maxMap + 4 * PAGE) <= SHARED_BASE
    requires ImageMapped(mem.Pages(), segs, ImageStart(segs), ImageEnd(segs), dest, allowRwx)
    modifies mem.pt
    ensures r.Loaded? || r.Panic?
    ensures r.Loaded? ==> fresh(r.user) && r.user.mem == mem && mem.Books() == old(mem.Books())
    ensures r.Loaded? ==> Starts(r.user, totalPages)
    ensures r.Loaded? ==> mem.Pages() == old(mem.Pages())[SHARED_BASE / PAGE := Leaf(shared, UserAttr(MEM_EXEC))]
    ensures (&& r.Loaded? && Apart(segs)
             && old(Given(Limits(mem.frames.min, mem.frames.max, mem.ram.Keys, 0, 0), mem.Used(), dest,
                          Pages(ImageStart(segs), ImageEnd(segs)), shared))) ==>
              r.user.Valid() && (Roomy(segs) ==> r.user.Ready())
    ensures r.Panic? ==> |old(mem.pt.pool)| < 3
  {
    hide Memory.Valid, UserMap, UsedSet, TablesFor, ImageMapped, Up, Down, Sound, Lowest, Highest, Given, Apart,
      FromImage, AllCovered, Tiled, NoStack, Anchored, Pages, AlignedTo, Attributes, UserVmas, Sorted, Coalesced,
      AttrAt, Mm.Window, Memory.Books;
    ghost var image, c := mem.Pages(), Limits(mem.frames.min, mem.frames.max, mem.ram.Keys, 0, 0);
    var mm;
    ghost var areas;
    mm, areas := LayOutAreas(segs, maxMap);
    ghost var m := Image(segs, areas, image, dest, shared, allowRwx);
    ImageFits(segs);
    SharedFree(image, segs, dest, allowRwx);
    SharedAttr(MEM_EXEC, Shared);
    var mapped := mem.MapFrame(SHARED_BASE / PAGE, shared, MEM_EXEC, Shared);
    if !mapped { return Panic; }
    var u := new User(mem, mm, STACK_PAGES, AnonCap(totalPages), Stack(STACK_LIMIT, STACK_TOP, STACK_TOP), STACK_TOP);
    if Apart(segs) && Given(c, mem.Used(), dest, Pages(ImageStart(segs), ImageEnd(segs)), shared) {
      GivenCaps(c, u.Bounds(), mem.Used(), dest, Pages(ImageStart(segs), ImageEnd(segs)), shared);
      NewSound(m, u.Bounds(), mem.Used());
      NoUsersInside(mm.Areas(), mm.Guard(), mm.top);
      assert u.Now() == Snap(AllPages(m), mem.Used(), AllAreas(m), Stack(STACK_LIMIT, STACK_TOP, STACK_TOP), 0, 0);
    }
    return Loaded(u);
  }

  lemma NoUsersInside(vs: seq<Vma>, guard: nat, top: nat)
    requires UserVmas(vs) == {}
    ensures UserInWindow(vs, guard, top)
  {
  }

  lemma ImageFits(segs: seq<Segment>)
    requires Loadable(segs) && Up(ImageEnd(segs) + 4 * PAGE) <= SHARED_BASE
    ensures AlignedTo(ImageStart(segs)) && AlignedTo(ImageEnd(segs))
    ensures ImageStart(segs) <= ImageEnd(segs) <= SHARED_BASE < LOWER_HALF
  {
    hide Up, Down, Lowest, Highest;
    Extremes(segs);
    RoundingAligned(Lowest(segs));
    RoundingAligned(Highest(segs));
    RoundingAligned(ImageEnd(segs) + 4 * PAGE);
  }

  lemma GivenCaps(c: Limits, d: Limits, used: set<nat>, dest: nat, n: nat, shared: nat)
    requires Given(c, used, dest, n, shared) && (d.lo, d.hi, d.ram) == (c.lo, c.hi, c.ram)
    ensures Given(d, used, dest, n, shared)
  {
  }

  lemma SharedFree(image: PageMap, segs: seq<Segment>, dest: nat, allowRwx: bool)
    requires Loadable(segs) && ImageMapped(image, segs, ImageStart(segs), ImageEnd(segs), dest, allowRwx)
    requires ImageEnd(segs) <= SHARED_BASE
    ensures SHARED_BASE / PAGE !in image && SHARED_BASE / PAGE < USER_PAGES
  {
    hide Up, Down, Any, PageProt, Lowest, Highest;
    LayOutAligned();
  }

  /** What palloc has answered: whole frames that nobody else has. */
  ghost predicate Answered(frames: PageBitmap.Allocator, ram: map<nat, Bytes>, segs: seq<Segment>, dest: nat,
                           shared: nat)
    requires segs != []
    reads frames, frames.bitmap
  {
    var n := Pages(ImageStart(segs), ImageEnd(segs));
    && shared < FRAMES && dest + n <= FRAMES
    && Given(Limits(frames.min, frames.max, ram.Keys, 0, 0), UsedSet(frames.bitmap[..], frames.min, frames.max), dest,
             n, shared)
  }

  /** The pages of the image are mapped with their rights; and where no two segments
      share a page the process is in order, with room for palloc if the image leaves it. */
  ghost predicate Furnished(u: User, segs: seq<Segment>, dest: nat, allowRwx: bool)
    requires segs != []
    reads u, u.mem, u.mem.pt, u.mem.frames, u.mem.frames.bitmap, u.mm, u.mm.vmas, u.mm.mmapFree
  {
    && ImageMapped(u.mem.Pages() - {SHARED_BASE / PAGE}, segs, ImageStart(segs), ImageEnd(segs), dest, allowRwx)
    && (Apart(segs) ==> u.Valid() && (Roomy(segs) ==> u.Ready()))
  }

  /** create_process, given the frames that palloc answers with. The address check comes
      first here; in the source it follows the mapping, which is then undone. */
  method Create(pt: Tables, frames: PageBitmap.Allocator, ram: map<nat, Bytes>, segs: seq<Segment>,
                dest: Option<nat>, shared: Option<nat>, totalPages: nat, allowRwx: bool) returns (r: Result)
    requires Backs(pt, frames, ram) && Loadable(segs)
    requires dest.Some? && shared.Some? ==> Answered(frames, ram, segs, dest.value, shared.value)
    modifies pt
    ensures r.Loaded? ==> fresh(r.user) && r.user.mem.pt == pt && r.user.mem.frames == frames && r.user.mem.ram == ram
    ensures r.Loaded? ==> dest.Some? && shared.Some? && Furnished(r.user, segs, dest.value, allowRwx)
    ensures r.Loaded? ==> r.user.mem.root !in old(pt.place) && r.user.mem.Books().others == old(pt.view)
    ensures r.Loaded? ==> Starts(r.user, totalPages)
    ensures r.Failed? ==>
              && pt.Valid() && pt.view == old(pt.view) && pt.place == old(pt.place)
              && multiset(pt.pool) == multiset(old(pt.pool))
    ensures Up(ImageEnd(segs) + 4 * PAGE) > SHARED_BASE || (old(pt.pool) != [] && (dest.None? || shared.None?)) ==>
              r.Failed?
    ensures r.Failed? ==>
      || Up(ImageEnd(segs) + 4 * PAGE) > SHARED_BASE || dest.None? || shared.None?
      || (!allowRwx && exists a :: Clash(segs, a))
    ensures r.Loaded? && !allowRwx ==> forall a: nat :: !Clash(segs, a)
    ensures r.Panic? ==> |old(pt.pool)| < 3 * Pages(ImageStart(segs), ImageEnd(segs)) + 4
  {
    hide Forest, Shows, Empty, UserMap, UsedSet, TablesFor, ImageMapped, Up, Down, Sound, Lowest, Highest, Given,
      Apart, FromImage, AllCovered, PageBitmap.SealedBits, Tiled, NoStack, Anchored, Pages, PageProt, Clash, AlignedTo,
      Attributes, UserVmas, Sorted, Coalesced, User.Valid, User.Ready, Roomy, Any, Starts,
      TablesOf, PageTables.Without;
    var lo, hi := Extent(segs);
    Extremes(segs);
    RoundingAligned(lo);
    RoundingAligned(hi);
    var minMap, maxMap := Down(lo), Up(hi);
    RoundingAligned(maxMap + 4 * PAGE);
    if Up(maxMap + 4 * PAGE) > SHARED_BASE { return Failed; }
    SameKeys(pt.mem, pt.place);
    ghost var mem0, place0, view0, pool0 := pt.mem, pt.place, pt.view, pt.pool;
    var root := pt.NewTtbr();
    if root.None? { return Panic; }
    FreshRoot(mem0, place0, view0, root.value);
    if dest.None? || shared.None? {
      Abandon(pt, root.value, view0, place0, pool0);
      return Failed;
    }
    var mem := new Memory(pt, frames, root.value, ram);
    ImageFits(segs);
    var q := MapImage(mem, segs, minMap, maxMap, dest.value, allowRwx);
    if q.Panicked? { return Panic; }
    if q.Refused? {
      Abandon(pt, root.value, view0, place0, pool0);
      return Failed;
    }
    ghost var image := mem.Pages();
    NoClash(image, segs, dest.value, allowRwx);
    SharedFree(image, segs, dest.value, allowRwx);
    r := Furnish(mem, segs, maxMap, dest.value, shared.value, totalPages, allowRwx);
    if r.Loaded? { assert mem.Pages() - {SHARED_BASE / PAGE} == image; }
  }

  /** Every page that clashes is one of the image. */
  lemma NoClash(image: PageMap, segs: seq<Segment>, dest: nat, allowRwx: bool)
    requires Loadable(segs) && ImageMapped(image, segs, ImageStart(segs), ImageEnd(segs), dest, allowRwx)
    ensures (forall n :: n in image ==> !Clash(segs, n * PAGE)) ==> forall a: nat :: !Clash(segs, a)
  {
    hide Lowest, Highest, PageProt, UserAttr, Clash, Any, Up, Down;
    forall a: nat | Clash(segs, a)
      ensures a / PAGE in image && a / PAGE * PAGE == a
    {
      ClashInside(segs, a);
    }
  }

  lemma ClashInside(segs: seq<Segment>, a: nat)
    requires Loadable(segs) && Clash(segs, a)
    ensures a / PAGE * PAGE == a && Any(segs, a) && Down(Lowest(segs)) <= a < Up(Highest(segs))
  {
    hide Lowest, Highest, Up, InPages;
    var i :| 0 <= i < |segs| && Touches(segs[i], a);
    Extremes(segs);
    TouchedWhole(segs, a);
    Below(segs, a);
  }

  /** Segments that share a page: the second gets no area, and none of its pages outside the first. */
  lemma SharedPageRefused(g: Segment, h: Segment)
    requires Loadable([g]) && Loadable([h]) && Down(h.start) < Up(End(g)) && Down(g.start) < Up(End(h))
    ensures var vs := Added([], AreaOf(g));
            && !CanAdd(vs, AreaOf(h).start, AreaOf(h).end)
            && forall a: nat :: Down(h.start) <= a < Up(End(h)) && !(Down(g.start) <= a < Up(End(g))) ==>
                   AttrAt(vs, a) == None
  {
    hide Up, Down, AlignedTo, AttrAt;
    var v := AreaOf(g);
    Whole([g], 0);
    Whole([h], 0);
    AddsFirst([], [g]);
    assert Added([], v) == [v];
    AddedAttr([], v, 0);
    CanAddIffDisjoint([v], AreaOf(h).start, AreaOf(h).end);
    forall a: nat | !(v.start <= a < v.end) ensures AttrAt([v], a) == None {
      AddedAttr([], v, a);
      NoArea(a);
    }
  }

  lemma NoArea(a: nat)
    ensures AttrAt([], a) == None
  {
  }

  /** From boot to a first process of one page: the state that every run starts from. */
  method FirstProcess(tables: seq<Frame>, start: nat, end: nat, ram: map<nat, Bytes>, g: Segment, totalPages: nat)
    returns (r: Result)
    requires |tables| >= 12 && forall i, j :: 0 <= i < j < |tables| ==> tables[i] != tables[j]
    requires var own := PageBitmap.CountPages((end + 63) / 64 * 8, 4096);
              start + own + 2 <= end <= FRAMES && (start + own) / 64 * 64 >= start
    requires (forall f :: start <= f < end ==> f in ram) && (forall f :: f in ram ==> |ram[f]| == GRANULE)
    requires Loadable([g]) && Up(End(g)) == Down(g.start) + PAGE && Up(End(g)) <= SHARED_BASE - 20 * PAGE
    ensures r.Loaded? && r.user.Ready()
  {
    hide Up, Down, ImageMapped, Lowest, Highest, Apart, UsedSet, User.Valid, User.Ready, Forest, Shows,
      PageBitmap.Allocator.Valid, Any;
    OnePage(g);
    var pt := new Tables(tables, start * PAGE, end * PAGE);
    SameKeys(pt.mem, pt.place);
    var frames, dest, shared := TwoFrames(start, end);
    r := Create(pt, frames, ram, [g], Some(dest), Some(shared), totalPages, true);
  }

  lemma OnePage(g: Segment)
    requires Loadable([g]) && Up(End(g)) == Down(g.start) + PAGE && Up(End(g)) <= SHARED_BASE - 20 * PAGE
    ensures Apart([g]) && Roomy([g]) && Pages(ImageStart([g]), ImageEnd([g])) == 1
    ensures Up(ImageEnd([g]) + 4 * PAGE) <= SHARED_BASE
  {
    hide Up, Down, AlignedTo;
    RoundingAligned(End(g));
    RoundingAligned(Up(End(g)) + 4 * PAGE);
    AlignedSum(Up(End(g)));
  }

  lemma AlignedSum(x: nat)
    requires AlignedTo(x)
    ensures AlignedTo(x + 4 * PAGE)
  {
  }

  /** Two frames from a new allocator. */
  method TwoFrames(start: nat, end: nat) returns (frames: PageBitmap.Allocator, dest: nat, shared: nat)
    requires var own := PageBitmap.CountPages((end + 63) / 64 * 8, 4096);
              start + own + 2 <= end && (start + own) / 64 * 64 >= start
    ensures fresh(frames) && fresh(frames.bitmap) && frames.Valid() && start <= frames.min && frames.max == end
    ensures start <= dest < end && start <= shared < end && dest != shared
    ensures var used := UsedSet(frames.bitmap[..], frames.min, frames.max); dest in used && shared in used
  {
    hide PageBitmap.SealedBits, PageBitmap.Rewritten, UsedSet;
    frames := new PageBitmap.Allocator(start, end);
    ghost var min := frames.min;
    frames.BitsUsed();
    dest := OneFrame(frames, min);
    shared := OneFrame(frames, if dest == min then min + 1 else min);
  }

  /** A frame, while p is free. */
  method OneFrame(frames: PageBitmap.Allocator, ghost p: nat) returns (f: nat)
    requires frames.Valid() && frames.min <= p < frames.max && !PageBitmap.Bit(frames.bitmap[..], p)
    modifies frames`hint, frames.bitmap
    ensures frames.Valid() && frames.min <= f < frames.max && !PageBitmap.Bit(old(frames.bitmap[..]), f)
    ensures UsedSet(frames.bitmap[..], frames.min, frames.max) ==
            UsedSet(old(frames.bitmap[..]), frames.min, frames.max) + {f}
    ensures PageBitmap.Bit(frames.bitmap[..], f)
    ensures forall q: nat :: frames.min <= q < frames.max && q != f ==>
              (PageBitmap.Bit(frames.bitmap[..], q) <==> PageBitmap.Bit(old(frames.bitmap[..]), q))
  {
    hide PageBitmap.SealedBits, PageBitmap.Rewritten, UsedSet, PageBitmap.Bit;
    var got := frames.AllocPage();
    f := got.value;
    Taken(old(frames.bitmap[..]), frames.bitmap[..], frames.min, frames.max, f);
  }

  lemma Taken(ws: seq<PageBitmap.Word>, vs: seq<PageBitmap.Word>, min: nat, max: nat, p: nat)
    requires PageBitmap.Rewritten(ws, vs, p, p + 1, true) && min <= p < max && max <= |ws| * 64
    ensures UsedSet(vs, min, max) == UsedSet(ws, min, max) + {p} && PageBitmap.Bit(vs, p)
    ensures forall q: nat :: min <= q < max && q != p ==> (PageBitmap.Bit(vs, q) <==> PageBitmap.Bit(ws, q))
  {
    UsedSetSet(ws, vs, min, max, p, true);
    forall q: nat | min <= q < max ensures PageBitmap.Bit(vs, q) == if q == p then true else PageBitmap.Bit(ws, q) {
      PageBitmap.RewrittenAt(ws, vs, p, p + 1, true, q);
    }
  }
}
