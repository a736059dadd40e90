/** What allocating and releasing a region does to a process: the areas change, the
    pages of every other area, the stack and the counters do not. */
module UserAreas {
  import opened Wrappers
  import opened Descriptors
  import opened Vmas
  import opened MmapWindow
  import opened ProcessState
  import opened AddressSpace

  /** VMA_FLAG_DEMAND | VMA_FLAG_USERALLOC | VMA_FLAG_ZERO */
  const PALLOC_FLAGS: bv8 := 7

  /** Regions of one palloc each are anonymous and lie in the mmap window. */
  ghost predicate UserInWindow(vs: seq<Vma>, guard: nat, top: nat) {
    forall v :: v in UserVmas(vs) ==> v.kind == KIND_ANON && guard <= v.start && v.end <= top
  }

  /** v is the one region of one palloc that the address lies in. */
  ghost predicate Owner(vs: seq<Vma>, va: nat, v: Vma) { v in UserVmas(vs) && v.start <= va < v.end }

  lemma OwnerUnique(vs: seq<Vma>, va: nat, v: Vma, w: Vma)
    requires Sorted(vs) && Owner(vs, va, v) && v.start <= va < v.end && w in vs && w.start <= va < w.end
    ensures v == w
  {
    hide AlignedTo;
    var i :| 0 <= i < |vs| && vs[i] == v;
    var j :| 0 <= j < |vs| && vs[j] == w;
    HitUnique(vs, i, j, va);
  }

  /** Areas may change wherever nothing is mapped and no stack lies. */
  lemma SoundAreas(s: Snap, c: Limits, vs: seq<Vma>)
    requires Sound(s, c) && Sorted(vs) && forall a: nat :: AttrAt(vs, a).Some? ==> a < LOWER_HALF
    requires forall n :: n in s.pages ==> AttrAt(vs, n * PAGE) == AttrAt(s.vs, n * PAGE)
    requires forall a :: s.stack.limit <= a < s.stack.top ==> AttrAt(vs, a) == AttrAt(s.vs, a)
    ensures Sound(s.(vs := vs), c)
  {
    hide AttrAt, Sorted;
    assert Anon(s.pages, vs) == Anon(s.pages, s.vs);
    forall a | s.stack.limit <= a < s.stack.top ensures KindAt(vs, a, KIND_STACK) {
      assert KindAt(s.vs, a, KIND_STACK);
    }
  }

  /** A region placed where nothing was keeps the process sound. */
  lemma AddedSound(s: Snap, c: Limits, v: Vma, top: nat)
    requires Sound(s, c) && WellPlaced(v) && CanAdd(s.vs, v.start, v.end) && v.end <= top <= s.stack.limit
    ensures Sound(s.(vs := Added(s.vs, v)), c)
    ensures forall n :: v.start <= n * PAGE < v.end ==> n !in s.pages
  {
    hide AttrAt, Sorted, Added, CanAdd, AlignedTo;
    var vs := Added(s.vs, v);
    CanAddIffDisjoint(s.vs, v.start, v.end);
    AddedAttr(s.vs, v, 0);
    forall a: nat ensures AttrAt(vs, a) == if v.start <= a < v.end then Some(AttrOf(v)) else AttrAt(s.vs, a) {
      AddedAttr(s.vs, v, a);
    }
    forall a | v.start <= a < v.end ensures AttrAt(s.vs, a) == None {
      DisjointAttr(s.vs, v, a);
    }
    SoundAreas(s, c, vs);
  }

  lemma DisjointAttr(vs: seq<Vma>, v: Vma, a: nat)
    requires v.start <= a < v.end && forall i :: 0 <= i < |vs| ==> vs[i].end <= v.start || v.end <= vs[i].start
    ensures AttrAt(vs, a) == None
  {
    assert Covered(vs, a) ==> Hit(vs, IndexAt(vs, a), a);
  }

  /** A region that backs no page any more can go. */
  lemma DroppedSound(s: Snap, c: Limits, vs: seq<Vma>, v: Vma)
    requires Sound(s, c) && Sorted(vs) && (s.stack.top <= v.start || v.end <= s.stack.limit)
    requires forall n :: v.start <= n * PAGE < v.end ==> n !in s.pages
    requires forall a: nat :: AttrAt(vs, a) == if v.start <= a < v.end then None else AttrAt(s.vs, a)
    ensures Sound(s.(vs := vs), c)
  {
    hide AttrAt, Sorted, AlignedTo;
    SoundAreas(s, c, vs);
  }

  /** Releasing one anonymous page. */
  lemma UnmapAnon(s: Snap, c: Limits, n: nat)
    requires Sound(s, c) && n in s.pages && KindAt(s.vs, n * PAGE, KIND_ANON)
    ensures s.rssAnon > 0 && s.pages[n].frame in s.used
    ensures Sound(s.(pages := s.pages - {n}, used := s.used - {s.pages[n].frame}, rssAnon := s.rssAnon - 1), c)
  {
    hide AttrAt, Sorted;
    UnmapFrames(s.pages, s.used, c.lo, c.hi, c.ram, s.vs, n);
    forall m | s.stack.limit <= m * PAGE < s.stack.top ensures m != n { assert KindAt(s.vs, m * PAGE, KIND_STACK); }
    assert n in Anon(s.pages, s.vs);
    assert Anon(s.pages - {n}, s.vs) == Anon(s.pages, s.vs) - {n};
  }

  ghost function Resident(p: PageMap, lo: nat, hi: nat): set<nat> { set n | n in p && lo <= n * PAGE < hi }

  ghost function Without(p: PageMap, lo: nat, hi: nat): PageMap { p - Resident(p, lo, hi) }

  /** s with the pages [lo, hi) released. */
  ghost function Released(s: Snap, lo: nat, hi: nat): Snap
    requires |Resident(s.pages, lo, hi)| <= s.rssAnon
  {
    s.(pages := Without(s.pages, lo, hi), used := s.used - FramesIn(s.pages, lo, hi),
       rssAnon := s.rssAnon - |Resident(s.pages, lo, hi)|)
  }

  lemma ReleasedNone(s: Snap, lo: nat)
    ensures Resident(s.pages, lo, lo) == {} && Released(s, lo, lo) == s
  {
    assert Resident(s.pages, lo, lo) == {} && FramesIn(s.pages, lo, lo) == {};
  }

  /** The next page of the region. */
  lemma ReleasedNext(s: Snap, lo: nat, hi: nat)
    requires AlignedTo(hi) && lo <= hi
    ensures var n := hi / PAGE;
            && Resident(s.pages, lo, hi + PAGE) == Resident(s.pages, lo, hi) + (if n in s.pages then {n} else {})
            && FramesIn(s.pages, lo, hi + PAGE) == FramesIn(s.pages, lo, hi)
                + (if n in s.pages then {s.pages[n].frame} else {})
            && n !in Resident(s.pages, lo, hi) && (n in Without(s.pages, lo, hi) <==> n in s.pages)
            && Without(s.pages, lo, hi + PAGE) == Without(s.pages, lo, hi) - {n}
  {
    var n := hi / PAGE;
    assert n * PAGE == hi;
    forall m ensures lo <= m * PAGE < hi + PAGE <==> lo <= m * PAGE < hi || m == n { }
    assert Resident(s.pages, lo, hi + PAGE) == Resident(s.pages, lo, hi) + if n in s.pages then {n} else {};
    FramesInNext(s.pages, lo, hi);
  }

  /** s with page n released, if it is there. */
  ghost function ReleasedOne(s: Snap, n: nat): Snap
    requires n in s.pages ==> s.rssAnon > 0
  {
    if n in s.pages then s.(pages := s.pages - {n}, used := s.used - {s.pages[n].frame}, rssAnon := s.rssAnon - 1)
        else s
  }

  lemma ReleasedStep(s: Snap, lo: nat, hi: nat)
    requires AlignedTo(hi) && lo <= hi && |Resident(s.pages, lo, hi)| <= s.rssAnon
    requires hi / PAGE in Released(s, lo, hi).pages ==> Released(s, lo, hi).rssAnon > 0
    ensures |Resident(s.pages, lo, hi + PAGE)| <= s.rssAnon
    ensures Released(s, lo, hi + PAGE) == ReleasedOne(Released(s, lo, hi), hi / PAGE)
  {
    hide Resident, FramesIn;
    ReleasedNext(s, lo, hi);
    var n := hi / PAGE;
    if n !in s.pages { assert Without(s.pages, lo, hi) - {n} == Without(s.pages, lo, hi); }
  }

  lemma FramesInNext(p: PageMap, lo: nat, hi: nat)
    requires AlignedTo(hi) && lo <= hi
    ensures FramesIn(p, lo, hi + PAGE) == FramesIn(p, lo, hi) + if hi / PAGE in p then {p[hi / PAGE].frame} else {}
  {
    var n := hi / PAGE;
    assert n * PAGE == hi;
    forall m ensures lo <= m * PAGE < hi + PAGE <==> lo <= m * PAGE < hi || m == n { }
  }

  /** The region a palloc of so many pages at va makes. */
  function PallocArea(va: nat, pages: nat): Vma { Vma(va, va + pages * PAGE, MEM_RW, KIND_ANON, PALLOC_FLAGS) }

  /** A palloc adds one region of its own, on addresses that belonged to no area and
      backed no page, and changes nothing else. */
  ghost predicate PallocSpec(s: Snap, t: Snap, c: Limits, pages: nat, va: nat) {
    var v := PallocArea(va, pages);
    if va == 0 then t == s
    else
      && t == s.(vs := t.vs) && t.vs == Added(s.vs, v) && s.rssAnon + pages <= c.capAnon
      && UserVmas(t.vs) == UserVmas(s.vs) + {v} && v !in UserVmas(s.vs)
      && (forall a: nat :: AttrAt(t.vs, a) == if va <= a < v.end then Some(AttrOf(v)) else AttrAt(s.vs, a))
      && (forall a :: va <= a < v.end ==> AttrAt(s.vs, a) == None)
      && (forall n :: va <= n * PAGE < v.end ==> n !in s.pages)
  }

  lemma PallocOk(s: Snap, c: Limits, pages: nat, va: nat, guard: nat, top: nat)
    requires Sound(s, c) && Placed(PallocArea(va, pages), s.vs, Added(s.vs, PallocArea(va, pages)), guard, top)
    requires va != 0 && pages > 0 && |s.vs| < MAX_VMAS && top <= s.stack.limit && s.rssAnon + pages <= c.capAnon
    requires Anchored(s.vs, guard, top) && UserInWindow(s.vs, guard, top) && top < SPACE
    ensures var t := s.(vs := Added(s.vs, PallocArea(va, pages)));
            && Sound(t, c) && PallocSpec(s, t, c, pages, va) && Anchored(t.vs, guard, top)
            && UserInWindow(t.vs, guard, top)
  {
    hide AttrAt, Sorted, Added, CanAdd, UserVmas, Anchored;
    var v := PallocArea(va, pages);
    assert IsUserAlloc(v);
    assert WellPlaced(v);
    CanAddIffDisjoint(s.vs, v.start, v.end);
    AddedSound(s, c, v, top);
    AddedUser(s.vs, v);
    forall a: nat
      ensures AttrAt(Added(s.vs, v), a) == if v.start <= a < v.end then Some(AttrOf(v)) else AttrAt(s.vs, a)
    {
      AddedAttr(s.vs, v, a);
    }
    forall a | v.start <= a < v.end ensures AttrAt(s.vs, a) == None {
      DisjointAttr(s.vs, v, a);
    }
    NotAnArea(s.vs, v);
    AnchoredSize(s.vs, guard, top);
    AddedAnchored(s.vs, v, guard, top);
    UserPlaced(s.vs, Added(s.vs, v), v, guard, top);
  }

  lemma UserPlaced(vs: seq<Vma>, vs': seq<Vma>, v: Vma, guard: nat, top: nat)
    requires UserInWindow(vs, guard, top) && UserVmas(vs') == UserVmas(vs) + {v}
    requires v.kind == KIND_ANON && guard <= v.start && v.end <= top
    ensures UserInWindow(vs', guard, top)
  {
  }

  lemma AnchoredSize(vs: seq<Vma>, guard: nat, top: nat)
    requires Anchored(vs, guard, top)
    ensures |vs| >= 2
  {
  }

  lemma NotAnArea(vs: seq<Vma>, v: Vma)
    requires v.start < v.end && forall i :: 0 <= i < |vs| ==> vs[i].end <= v.start || v.end <= vs[i].start
    ensures v !in UserVmas(vs)
  {
  }

  /** A pfree of any address of a region made by palloc releases exactly that region:
      its pages are unmapped, their frames returned, the counter lowered by their
      number. A pfree of any other address changes nothing. */
  ghost predicate PfreeSpec(s: Snap, t: Snap, va: nat) {
    && ((forall v :: !Owner(s.vs, va, v)) ==> t == s)
    && forall v :: Owner(s.vs, va, v) ==>
         && |Resident(s.pages, v.start, v.end)| <= s.rssAnon
         && t == Released(s, v.start, v.end).(vs := t.vs)
         && UserVmas(t.vs) == UserVmas(s.vs) - {v}
         && (forall a: nat :: AttrAt(t.vs, a) == if v.start <= a < v.end then None else AttrAt(s.vs, a))
  }

  lemma NoOwner(vs: seq<Vma>, va: nat)
    requires Sorted(vs) && AttrAt(vs, va) == None
    ensures forall v :: !Owner(vs, va, v)
  {
    hide AlignedTo;
    forall v ensures !Owner(vs, va, v) {
      if Owner(vs, va, v) {
        var i :| 0 <= i < |vs| && vs[i] == v;
        AttrAtHit(vs, i, va);
      }
    }
  }

  lemma OnlyOwner(vs: seq<Vma>, va: nat, m: Vma)
    requires Sorted(vs) && m in vs && m.start <= va < m.end
    ensures forall v :: Owner(vs, va, v) <==> v == m && IsUserAlloc(m)
  {
    hide Sorted;
    forall v ensures Owner(vs, va, v) <==> v == m && IsUserAlloc(m) {
      if Owner(vs, va, v) { OwnerUnique(vs, va, v, m); }
    }
  }

  /** Removing a region by its own bounds removes it and nothing else. */
  lemma RemovesOwner(vs: seq<Vma>, v: Vma)
    requires Sorted(vs) && v in UserVmas(vs)
    ensures var r := Removed(vs, v.start, v.end);
            && r.Some? && Sorted(r.value.rest) && UserVmas(r.value.rest) == UserVmas(vs) - {v}
            && (forall a: nat :: AttrAt(r.value.rest, a) == if v.start <= a < v.end then None else AttrAt(vs, a))
            && (forall a :: v.start <= a < v.end ==> AttrAt(vs, a) == Some(AttrOf(v)))
  {
    hide AttrAt, Removed, AlignedTo;
    var k :| 0 <= k < |vs| && vs[k] == v;
    RemoveExact(vs, k);
    var rest := Delete(vs, k);
    DeleteSorted(vs, k);
    assert vs == vs[..k] + [v] + vs[k + 1..];
    assert v !in vs[..k] && v !in vs[k + 1..];
    forall a: nat ensures AttrAt(rest, a) == if v.start <= a < v.end then None else AttrAt(vs, a) {
      DeleteAttr(vs, k, a);
    }
    forall a | v.start <= a < v.end ensures AttrAt(vs, a) == Some(AttrOf(v)) {
      AttrAtHit(vs, k, a);
    }
  }

  lemma PfreeNothing(s: Snap, va: nat)
    requires forall v :: !Owner(s.vs, va, v)
    ensures PfreeSpec(s, s, va)
  {
  }

  lemma PfreeOk(s: Snap, c: Limits, va: nat, v: Vma, guard: nat, top: nat)
    requires Sound(s, c) && Owner(s.vs, va, v) && UserInWindow(s.vs, guard, top) && top <= s.stack.limit
    requires |Resident(s.pages, v.start, v.end)| <= s.rssAnon && Sound(Released(s, v.start, v.end), c)
    ensures var r := Removed(s.vs, v.start, v.end);
            && r.Some? && UserInWindow(r.value.rest, guard, top)
            && PfreeSpec(s, Released(s, v.start, v.end).(vs := r.value.rest), va)
            && Sound(Released(s, v.start, v.end).(vs := r.value.rest), c)
  {
    hide AttrAt, Removed, AlignedTo, Sound;
    SoundAreasSorted(s, c);
    RemovesOwner(s.vs, v);
    OnlyOwner(s.vs, va, v);
    var rest := Removed(s.vs, v.start, v.end).value.rest;
    DroppedSound(Released(s, v.start, v.end), c, rest, v);
  }

  lemma SoundAreasSorted(s: Snap, c: Limits)
    requires Sound(s, c)
    ensures Sorted(s.vs) && forall a: nat :: AttrAt(s.vs, a).Some? ==> a < LOWER_HALF
  {
  }
}
