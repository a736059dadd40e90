/** The mmap window of kernel/memory/mm_process.c: areas and free ranges tile the
    part of the window handed out so far, whatever is allocated and released. */
module MmapWindow {
  import opened Wrappers
  import opened Vmas

  const GAP_PAGES := 16
  const KIND_STACK := 2

  predicate InRange(fs: seq<Range>, i: int, a: nat) { 0 <= i < |fs| && fs[i].start <= a < fs[i].end }

  ghost predicate Free(fs: seq<Range>, a: nat) { exists i :: InRange(fs, i, a) }

  /** Free ranges are aligned, not empty, within [lo, hi), in order, and never touch. */
  ghost predicate FreeOk(fs: seq<Range>, lo: nat, hi: nat) {
    && (forall i :: 0 <= i < |fs| ==>
              lo <= fs[i].start < fs[i].end <= hi && AlignedTo(fs[i].start) && AlignedTo(fs[i].end))
    && (forall i, j :: 0 <= i < j < |fs| ==> fs[i].end < fs[j].start)
  }

  function FreePos(fs: seq<Range>, x: nat): (k: nat)
    ensures k <= |fs| && (forall i :: 0 <= i < k ==> fs[i].start < x) && (k < |fs| ==> fs[k].start >= x)
  {
    if fs == [] || fs[0].start >= x then 0 else 1 + FreePos(fs[1..], x)
  }

  function Max(x: nat, y: nat): nat { if x < y then y else x }

  /** The loop that lets range i swallow the ranges it touches. */
  function Absorb(fs: seq<Range>, i: nat): seq<Range>
    decreases |fs|
  {
    if i + 1 < |fs| && fs[i].end >= fs[i + 1].start then
      Absorb(Join(fs, i), i)
    else fs
  }

  function Join(fs: seq<Range>, i: nat): seq<Range>
    requires i + 1 < |fs|
  {
    Delete(fs[i := Range(fs[i].start, Max(fs[i].end, fs[i + 1].end))], i + 1)
  }

  /** The free list after a range is returned to it; None where the list is full
      and the range would be forgotten. */
  function Returned(fs: seq<Range>, r: Range): Option<seq<Range>> {
    var k := FreePos(fs, r.start);
    if k > 0 && fs[k - 1].end >= r.start then
      Some(Absorb(fs[k - 1 := Range(fs[k - 1].start, Max(fs[k - 1].end, r.end))], k - 1))
    else if |fs| >= MAX_VMAS then None
    else Some(Absorb(Insert(fs, k, r), k))
  }

  /** The loop that gives ranges just below the cursor back to it. */
  function PullBack(fs: seq<Range>, cursor: nat): (seq<Range>, nat)
    decreases |fs|
  {
    if fs != [] && fs[|fs| - 1].end == cursor then PullBack(fs[..|fs| - 1], fs[|fs| - 1].start) else (fs, cursor)
  }

  /** Range i touches or precedes its right neighbour; otherwise the list is in order. */
  ghost predicate FreeOkBut(fs: seq<Range>, lo: nat, hi: nat, k: nat) {
    && (forall i :: 0 <= i < |fs| ==>
              lo <= fs[i].start < fs[i].end <= hi && AlignedTo(fs[i].start) && AlignedTo(fs[i].end))
    && (forall i, j :: 0 <= i < j < |fs| ==>
              if i == k && j == k + 1 then fs[i].end <= fs[j].start else fs[i].end < fs[j].start)
  }

  lemma JoinEntries(fs: seq<Range>, lo: nat, hi: nat, k: nat)
    requires FreeOkBut(fs, lo, hi, k) && k + 1 < |fs|
    ensures |Join(fs, k)| == |fs| - 1
    ensures forall i :: 0 <= i < |fs| - 1 ==>
      Join(fs, k)[i] == Range(fs[if i <= k then i else i + 1].start, fs[if i < k then i else i + 1].end)
  {
    hide AlignedTo;
    assert fs[k].end <= fs[k + 1].start;
  }

  lemma JoinOk(fs: seq<Range>, lo: nat, hi: nat, k: nat)
    requires FreeOkBut(fs, lo, hi, k) && k + 1 < |fs| && fs[k].end == fs[k + 1].start
    ensures FreeOk(Join(fs, k), lo, hi)
  {
    hide AlignedTo;
    JoinEntries(fs, lo, hi, k);
    hide Join;
    assert fs[k].start < fs[k + 1].end;
  }

  lemma JoinFree(fs: seq<Range>, lo: nat, hi: nat, k: nat, a: nat)
    requires FreeOkBut(fs, lo, hi, k) && k + 1 < |fs| && fs[k].end == fs[k + 1].start
    ensures Free(Join(fs, k), a) <==> Free(fs, a)
  {
    hide AlignedTo;
    JoinEntries(fs, lo, hi, k);
    assert fs[k + 1].start < fs[k + 1].end;
    var t := Join(fs, k);
    if Free(fs, a) {
      var i :| InRange(fs, i, a);
      assert InRange(t, if i <= k then i else i - 1, a);
    }
    if Free(t, a) {
      var j :| InRange(t, j, a);
      assert InRange(fs, if j < k || (j == k && a < fs[k].end) then j else j + 1, a);
    }
  }

  lemma AbsorbOk(fs: seq<Range>, lo: nat, hi: nat, k: nat, a: nat)
    requires FreeOkBut(fs, lo, hi, k) && k < |fs|
    ensures FreeOk(Absorb(fs, k), lo, hi) && (Free(Absorb(fs, k), a) <==> Free(fs, a)) && |Absorb(fs, k)| <= |fs|
  {
    hide AlignedTo, Join;
    if k + 1 < |fs| && fs[k].end >= fs[k + 1].start {
      JoinEntries(fs, lo, hi, k);
      JoinOk(fs, lo, hi, k);
      JoinFree(fs, lo, hi, k, a);
      assert Absorb(Join(fs, k), k) == Join(fs, k);
    }
  }

  lemma Apart(fs: seq<Range>, lo: nat, hi: nat, r: Range)
    requires FreeOk(fs, lo, hi) && r.start < r.end
    requires forall b :: r.start <= b < r.end ==> !Free(fs, b)
    ensures forall i :: 0 <= i < |fs| ==> fs[i].end <= r.start || r.end <= fs[i].start
  {
    hide AlignedTo;
    forall i | 0 <= i < |fs| ensures fs[i].end <= r.start || r.end <= fs[i].start {
      var b := Max(fs[i].start, r.start);
      assert InRange(fs, i, b) ==> Free(fs, b);
    }
  }

  lemma ExtendOk(fs: seq<Range>, lo: nat, hi: nat, r: Range, k: nat, a: nat)
    requires FreeOk(fs, lo, hi) && k < |fs| && fs[k].end == r.start < r.end <= hi && AlignedTo(r.end)
    requires k + 1 < |fs| ==> r.end <= fs[k + 1].start
    ensures var t := fs[k := Range(fs[k].start, r.end)];
            FreeOkBut(t, lo, hi, k) && (Free(t, a) <==> Free(fs, a) || r.start <= a < r.end)
  {
    hide AlignedTo;
    var t := fs[k := Range(fs[k].start, r.end)];
    forall j | k + 1 < j < |fs| ensures r.end < fs[j].start { assert fs[k + 1].end < fs[j].start; }
    if Free(fs, a) { var i :| InRange(fs, i, a); assert InRange(t, i, a); }
    assert r.start <= a < r.end ==> InRange(t, k, a);
    if Free(t, a) { var j :| InRange(t, j, a); assert InRange(fs, j, a) || r.start <= a < r.end; }
  }

  lemma PlaceOk(fs: seq<Range>, lo: nat, hi: nat, r: Range, k: nat)
    requires FreeOk(fs, lo, hi) && k <= |fs| && lo <= r.start < r.end <= hi && AlignedTo(r.start) && AlignedTo(r.end)
    requires (k < |fs| ==> r.end <= fs[k].start) && (k > 0 ==> fs[k - 1].end < r.start)
    ensures FreeOkBut(Insert(fs, k, r), lo, hi, k)
  {
    hide AlignedTo;
    var t := Insert(fs, k, r);
    forall i, j | 0 <= i < j < |t|
      ensures if i == k && j == k + 1 then t[i].end <= t[j].start else t[i].end < t[j].start
    {
      if i < k - 1 && j == k { assert fs[i].end < fs[k - 1].start; }
      if i == k && j > k + 1 { assert fs[k].end < fs[j - 1].start; }
    }
  }

  lemma PlaceFree(fs: seq<Range>, r: Range, k: nat, a: nat)
    requires k <= |fs|
    ensures Free(Insert(fs, k, r), a) <==> Free(fs, a) || r.start <= a < r.end
  {
    var t := Insert(fs, k, r);
    if Free(fs, a) { var i :| InRange(fs, i, a); assert InRange(t, if i < k then i else i + 1, a); }
    assert r.start <= a < r.end ==> InRange(t, k, a);
    if Free(t, a) { var j :| InRange(t, j, a); assert j == k || InRange(fs, if j < k then j else j - 1, a); }
  }

  /** Returning a range that no free range overlaps adds exactly its addresses. */
  lemma ReturnedOk(fs: seq<Range>, lo: nat, hi: nat, r: Range, a: nat)
    requires FreeOk(fs, lo, hi) && |fs| < MAX_VMAS && lo <= r.start < r.end <= hi && AlignedTo(r.start)
    requires AlignedTo(r.end)
    requires forall b :: r.start <= b < r.end ==> !Free(fs, b)
    ensures Returned(fs, r).Some? && FreeOk(Returned(fs, r).value, lo, hi)
    ensures Free(Returned(fs, r).value, a) <==> Free(fs, a) || r.start <= a < r.end
  {
    hide AlignedTo, Absorb, Free, FreeOkBut;
    var k := FreePos(fs, r.start);
    Apart(fs, lo, hi, r);
    if k > 0 && fs[k - 1].end >= r.start {
      ExtendOk(fs, lo, hi, r, k - 1, a);
      AbsorbOk(fs[k - 1 := Range(fs[k - 1].start, r.end)], lo, hi, k - 1, a);
    } else {
      PlaceOk(fs, lo, hi, r, k);
      PlaceFree(fs, r, k, a);
      AbsorbOk(Insert(fs, k, r), lo, hi, k, a);
    }
  }

  /** Every address handed out so far is in exactly one area or exactly one free
      range, and nothing below the cursor is mapped. */
  ghost predicate Tiled(vs: seq<Vma>, fs: seq<Range>, guard: nat, cursor: nat, top: nat) {
    && Sorted(vs) && FreeOk(fs, cursor, top)
    && 0 < guard <= cursor <= top < SPACE && AlignedTo(guard) && AlignedTo(cursor) && AlignedTo(top)
    && (forall a :: cursor <= a < top ==> (AttrAt(vs, a).Some? <==> !Free(fs, a)))
    && (forall a :: guard <= a < cursor ==> AttrAt(vs, a) == None)
  }

  /** No stack lies between lo and hi; mm_remove_vma would not return its range. */
  ghost predicate NoStack(vs: seq<Vma>, lo: nat, hi: nat) {
    forall a :: lo <= a < hi && AttrAt(vs, a).Some? ==> AttrAt(vs, a).value.kind != KIND_STACK
  }

  /** Releasing inside the window loses nothing: what leaves the areas joins the
      free ranges, and the cursor stays. */
  lemma RemoveTiled(vs: seq<Vma>, fs: seq<Range>, guard: nat, cursor: nat, top: nat, start: nat, end: nat)
    requires Tiled(vs, fs, guard, cursor, top) && cursor <= start && end <= top && AlignedTo(start) && AlignedTo(end)
    requires Removed(vs, start, end).Some? && |fs| < MAX_VMAS && NoStack(vs, cursor, top)
    ensures var r := Removed(vs, start, end).value;
            && r.kind != KIND_STACK && Returned(fs, r.freed).Some?
            && Tiled(r.rest, Returned(fs, r.freed).value, guard, cursor, top) && NoStack(r.rest, cursor, top)
            && PullBack(Returned(fs, r.freed).value, cursor) == (Returned(fs, r.freed).value, cursor)
  {
    hide AlignedTo, Removed, Returned, AttrAt, Sorted, Free;
    var r := Removed(vs, start, end).value;
    RemovedAttr(vs, start, end, start);
    forall b | r.freed.start <= b < r.freed.end
      ensures !Free(fs, b) && AttrAt(vs, b).Some? && AttrAt(vs, b).value.kind == r.kind
    {
      RemovedAttr(vs, start, end, b);
    }
    assert AttrAt(vs, r.freed.start).Some?;
    ReturnedOk(fs, cursor, top, r.freed, start);
    var fs' := Returned(fs, r.freed).value;
    forall a | guard <= a < top
      ensures AttrAt(r.rest, a) == (if r.freed.start <= a < r.freed.end then None else AttrAt(vs, a))
      ensures Free(fs', a) <==> Free(fs, a) || r.freed.start <= a < r.freed.end
    {
      RemovedAttr(vs, start, end, a);
      ReturnedOk(fs, cursor, top, r.freed, a);
    }
  }

  /** The free list after an allocation takes the upper end of range i. */
  function Taken(fs: seq<Range>, i: nat, size: nat): seq<Range>
    requires i < |fs| && size <= fs[i].end - fs[i].start
  {
    if fs[i].end - size == fs[i].start then Delete(fs, i) else fs[i := Range(fs[i].start, fs[i].end - size)]
  }

  lemma TakenOk(fs: seq<Range>, lo: nat, hi: nat, i: nat, size: nat)
    requires FreeOk(fs, lo, hi) && i < |fs| && 0 < size <= fs[i].end - fs[i].start && AlignedTo(fs[i].end - size)
    ensures FreeOk(Taken(fs, i, size), lo, hi)
  {
    hide AlignedTo;
    var t := Taken(fs, i, size);
    var gone := |t| < |fs|;
    forall k | 0 <= k < |t|
      ensures lo <= t[k].start < t[k].end <= hi && AlignedTo(t[k].start) && AlignedTo(t[k].end)
    {
      assert lo <= fs[if gone && k >= i then k + 1 else k].start;
    }
    forall j, k | 0 <= j < k < |t| ensures t[j].end < t[k].start {
      assert fs[if gone && j >= i then j + 1 else j].end < fs[if gone && k >= i then k + 1 else k].start;
    }
  }

  lemma TakenFree(fs: seq<Range>, lo: nat, hi: nat, i: nat, size: nat, a: nat)
    requires FreeOk(fs, lo, hi) && i < |fs| && 0 < size <= fs[i].end - fs[i].start
    ensures Free(Taken(fs, i, size), a) <==> Free(fs, a) && !(fs[i].end - size <= a < fs[i].end)
  {
    hide AlignedTo;
    var t := Taken(fs, i, size);
    if Free(t, a) {
      var j :| InRange(t, j, a);
      assert InRange(fs, if |t| == |fs| || j < i then j else j + 1, a);
    }
    if Free(fs, a) && !(fs[i].end - size <= a < fs[i].end) {
      var k :| InRange(fs, k, a);
      assert InRange(t, if |t| == |fs| || k < i then k else k - 1, a);
    }
  }

  lemma FreeIsUnmapped(vs: seq<Vma>, fs: seq<Range>, guard: nat, cursor: nat, top: nat, i: nat, j: nat)
    requires Tiled(vs, fs, guard, cursor, top) && i < |fs| && j < |vs|
    ensures vs[j].end <= fs[i].start || fs[i].end <= vs[j].start
  {
    hide AlignedTo, AttrAt;
    var b := Max(fs[i].start, vs[j].start);
    if Hit(vs, j, b) { AttrAtHit(vs, j, b); }
    assert InRange(fs, i, b) ==> Free(fs, b);
  }

  /** An allocation from a free range keeps the tiling. */
  lemma AllocFreeTiled(vs: seq<Vma>, fs: seq<Range>, guard: nat, cursor: nat, top: nat, i: nat, v: Vma)
    requires Tiled(vs, fs, guard, cursor, top) && i < |fs| && |vs| < MAX_VMAS
    requires fs[i].start <= v.start < v.end == fs[i].end && AlignedTo(v.start)
    ensures CanAdd(vs, v.start, v.end) && Tiled(Added(vs, v), Taken(fs, i, v.end - v.start), guard, cursor, top)
    ensures NoStack(vs, cursor, top) && v.kind != KIND_STACK ==> NoStack(Added(vs, v), cursor, top)
  {
    hide AlignedTo, AttrAt, Free, Added, Taken, CanAdd;
    forall j | 0 <= j < |vs| ensures vs[j].end <= v.start || v.end <= vs[j].start {
      FreeIsUnmapped(vs, fs, guard, cursor, top, i, j);
    }
    CanAddIffDisjoint(vs, v.start, v.end);
    TakenOk(fs, cursor, top, i, v.end - v.start);
    AddedAttr(vs, v, cursor);
    forall a | guard <= a < top
      ensures AttrAt(Added(vs, v), a) == (if v.start <= a < v.end then Some(AttrOf(v)) else AttrAt(vs, a))
      ensures Free(Taken(fs, i, v.end - v.start), a) <==> Free(fs, a) && !(v.start <= a < v.end)
    {
      AddedAttr(vs, v, a);
      TakenFree(fs, cursor, top, i, v.end - v.start, a);
    }
  }

  /** An allocation below the cursor keeps the tiling and moves the cursor down to it. */
  lemma AllocCursorTiled(vs: seq<Vma>, fs: seq<Range>, guard: nat, cursor: nat, top: nat, v: Vma)
    requires Tiled(vs, fs, guard, cursor, top) && |vs| < MAX_VMAS
    requires guard <= v.start < v.end == cursor && AlignedTo(v.start)
    ensures CanAdd(vs, v.start, v.end) && Tiled(Added(vs, v), fs, guard, v.start, top)
    ensures NoStack(vs, cursor, top) && v.kind != KIND_STACK ==> NoStack(Added(vs, v), v.start, top)
  {
    hide AlignedTo, AttrAt, Free, Added, CanAdd;
    forall j | 0 <= j < |vs| ensures vs[j].end <= v.start || v.end <= vs[j].start {
      var b := Max(v.start, vs[j].start);
      if Hit(vs, j, b) { AttrAtHit(vs, j, b); }
    }
    CanAddIffDisjoint(vs, v.start, v.end);
    AddedAttr(vs, v, cursor);
    forall a | guard <= a < top
      ensures AttrAt(Added(vs, v), a) == (if v.start <= a < v.end then Some(AttrOf(v)) else AttrAt(vs, a))
      ensures v.start <= a < v.end ==> !Free(fs, a)
    {
      AddedAttr(vs, v, a);
      FreeAbove(fs, cursor, top, a);
    }
  }

  lemma FreeAbove(fs: seq<Range>, lo: nat, hi: nat, a: nat)
    requires FreeOk(fs, lo, hi)
    ensures Free(fs, a) ==> lo <= a < hi
  {
    hide AlignedTo;
  }

  /** The image lies below the window and the stack above it. */
  ghost predicate Anchored(vs: seq<Vma>, guard: nat, top: nat) {
    |vs| >= 2 && vs[0].end <= guard && vs[|vs| - 1].start >= top
  }

  /** Pigeonhole: between any two free ranges lies an area of its own, so the free
      list is shorter than the list of areas and can never overflow. */
  lemma FreeListFits(vs: seq<Vma>, fs: seq<Range>, guard: nat, cursor: nat, top: nat)
    requires Tiled(vs, fs, guard, cursor, top) && Anchored(vs, guard, top)
    ensures |fs| < |vs|
  {
    if |fs| >= 2 {
      var k := AreaAfter(vs, fs, guard, cursor, top, |fs| - 2);
    }
  }

  lemma {:induction false} AreaAfter(vs: seq<Vma>, fs: seq<Range>, guard: nat, cursor: nat, top: nat, i: nat)
    returns (k: nat)
    requires Tiled(vs, fs, guard, cursor, top) && Anchored(vs, guard, top) && i + 1 < |fs|
    ensures i < k < |vs| - 1 && Hit(vs, k, fs[i].end)
  {
    hide AlignedTo, AttrAt;
    var a := fs[i].end;
    assert fs[i].end < fs[i + 1].start;
    assert !Free(fs, a);
    assert AttrAt(vs, a).Some?;
    k := IndexFromAttr(vs, a);
    assert k != 0 && k != |vs| - 1;
    if i > 0 {
      var k' := AreaAfter(vs, fs, guard, cursor, top, i - 1);
      FreeIsUnmapped(vs, fs, guard, cursor, top, i, k');
      assert vs[k'].end <= fs[i].start;
    }
  }

  lemma IndexFromAttr(vs: seq<Vma>, a: nat) returns (k: nat)
    requires AttrAt(vs, a).Some?
    ensures Hit(vs, k, a)
  {
    k := IndexAt(vs, a);
  }

  /** v and w are never fused, wherever they lie. */
  predicate NeverFused(v: Vma, w: Vma) { IsUserAlloc(v) || AttrOf(v) != AttrOf(w) }

  lemma FuseEnds(s: seq<Vma>, i: nat)
    requires 0 < i && i + 2 < |s|
    ensures |Fuse(s, i)| == |s| - 1 && Fuse(s, i)[0] == s[0] && Fuse(s, i)[|s| - 2] == s[|s| - 1]
    ensures Fuse(s, i)[i].start == s[i].start && AttrOf(Fuse(s, i)[i]) == AttrOf(s[i]) && Fuse(s, i)[i + 1] == s[i + 2]
  {
  }

  lemma AnchorPos(vs: seq<Vma>, x: nat, guard: nat, top: nat)
    requires Sorted(vs) && Anchored(vs, guard, top) && guard <= x < top
    ensures 0 < Pos(vs, x) < |vs|
  {
    hide AlignedTo;
  }

  lemma AddedAnchored(vs: seq<Vma>, v: Vma, guard: nat, top: nat)
    requires Sorted(vs) && Anchored(vs, guard, top) && guard <= v.start < v.end <= top
    requires NeverFused(v, vs[0]) && NeverFused(v, vs[|vs| - 1])
    ensures Anchored(Added(vs, v), guard, top)
  {
    hide Fuse, Sorted;
    var k := Pos(vs, v.start);
    AnchorPos(vs, v.start, guard, top);
    var t := Insert(vs, k, v);
    assert t[0] == vs[0] && t[|t| - 1] == vs[|vs| - 1] && t[k] == v;
    if Mergeable(t[k - 1], t[k]) {
      FuseEnds(t, k - 1);
      var u := Fuse(t, k - 1);
      if Mergeable(u[k - 1], u[k]) { FuseEnds(u, k - 1); }
    } else if Mergeable(t[k], t[k + 1]) {
      FuseEnds(t, k);
    }
  }

  lemma RemovedAnchored(vs: seq<Vma>, start: nat, end: nat, guard: nat, top: nat)
    requires Sorted(vs) && Anchored(vs, guard, top) && guard <= start && end <= top && Removed(vs, start, end).Some?
    ensures Anchored(Removed(vs, start, end).value.rest, guard, top)
  {
    hide AlignedTo;
    var k := FirstEndingAfter(vs, start);
    assert 0 < k < |vs| - 1;
    var t := Removed(vs, start, end).value.rest;
    assert t[0] == vs[0] && t[|t| - 1] == vs[|vs| - 1];
  }

  /** Removing the exact extent of an area deletes that area and nothing else. */
  lemma RemoveExact(vs: seq<Vma>, k: nat)
    requires Sorted(vs) && k < |vs|
    ensures Removed(vs, vs[k].start, vs[k].end) ==
            Some(Removal(Delete(vs, k), Range(vs[k].start, vs[k].end), vs[k].kind))
  {
    hide AlignedTo;
    assert FirstEndingAfter(vs, vs[k].start) == k;
  }
}
