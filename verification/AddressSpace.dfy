/** mm_struct and the operations on it of kernel/memory/mm_process.c: two fixed
    arrays edited in place, proved against the list functions of Vmas and MmapWindow. */
module AddressSpace {
  import opened Wrappers
  import opened Vmas
  import opened MmapWindow

  function Down(x: nat): nat { x - x % PAGE }

  /** (x + PAGE_SIZE - 1) & ~(PAGE_SIZE - 1) on 64 bits. */
  function Up(x: nat): nat { Down((x + PAGE - 1) % SPACE) }

  lemma RoundingAligned(x: nat)
    ensures AlignedTo(Down(x)) && AlignedTo(Up(x)) && Down(x) <= x && Up(x) < SPACE
    ensures AlignedTo(x) ==> Down(x) == x
    ensures AlignedTo(x) && x < SPACE ==> Up(x) == x
    ensures x <= SPACE - PAGE ==> x <= Up(x) < x + PAGE
    ensures SPACE - PAGE < x < SPACE ==> Up(x) == 0
  {
  }

  /** for (i = n; i > k; i--) a[i] = a[i - 1] */
  method ShiftUp<T>(a: array<T>, n: nat, k: nat)
    requires k <= n < a.Length
    modifies a
    ensures a[..k + 1] == old(a[..k + 1]) && a[k + 1..n + 1] == old(a[k..n])
  {
    ghost var s := a[..];
    var i := n;
    while i > k
      invariant k <= i <= n
      invariant forall j :: 0 <= j <= i ==> a[j] == s[j]
      invariant forall j :: i < j <= n ==> a[j] == s[j - 1]
    {
      a[i] := a[i - 1];
      i := i - 1;
    }
    assert s[k..n] == old(a[k..n]) && s[..k + 1] == old(a[..k + 1]);
    assert a[k + 1..n + 1] == s[k..n] && a[..k + 1] == s[..k + 1];
  }

  /** for (i = k; i + 1 < n; i++) a[i] = a[i + 1] */
  method ShiftDown<T>(a: array<T>, n: nat, k: nat)
    requires k < n <= a.Length
    modifies a
    ensures a[..k] == old(a[..k]) && a[k..n - 1] == old(a[k + 1..n])
  {
    ghost var s := a[..];
    var i := k;
    while i + 1 < n
      invariant k <= i < n
      invariant forall j :: 0 <= j < k || i <= j < n ==> a[j] == s[j]
      invariant forall j :: k <= j < i ==> a[j] == s[j + 1]
    {
      a[i] := a[i + 1];
      i := i + 1;
    }
    assert s[k + 1..n] == old(a[k + 1..n]) && s[..k] == old(a[..k]);
    assert a[k..n - 1] == s[k + 1..n] && a[..k] == s[..k];
  }

  class Mm {
    const vmas: array<Vma>
    var vmaCount: nat
    const mmapFree: array<Range>
    var freeCount: nat
    var bottom: nat
    var top: nat
    var cursor: nat

    /** memset of a new mm_struct */
    constructor ()
      ensures Unset() && Shut() && vmaCount == 0 && fresh(vmas) && fresh(mmapFree)
    {
      vmas, mmapFree := new Vma[MAX_VMAS](_ => Vma(0, 0, 0, 0, 0)), new Range[MAX_VMAS](_ => Range(0, 0));
      vmaCount, freeCount, bottom, top, cursor := 0, 0, 0, 0, 0;
    }

    ghost predicate Valid()
      reads this, vmas, mmapFree
    {
      && vmas.Length == MAX_VMAS && mmapFree.Length == MAX_VMAS && vmas as object != mmapFree as object
      && vmaCount <= MAX_VMAS && freeCount <= MAX_VMAS
      && Sorted(Areas()) && Coalesced(Areas())
    }

    ghost function Areas(): seq<Vma>
      reads this, vmas
      requires vmaCount <= vmas.Length
    {
      vmas[..vmaCount]
    }

    ghost function FreeList(): seq<Range>
      reads this, mmapFree
      requires freeCount <= mmapFree.Length
    {
      mmapFree[..freeCount]
    }

    function Guard(): nat
      reads this
    {
      bottom + GAP_PAGES * PAGE
    }

    /** The mmap window is set up, and tiled. */
    ghost predicate Window()
      reads this, vmas, mmapFree
    {
      Valid() && Tiled(Areas(), FreeList(), Guard(), cursor, top)
    }

    /** mm_find_vma */
    method FindVma(va: nat) returns (m: Option<Vma>)
      requires Valid()
      ensures m.Some? ==>
                m.value in Areas() && m.value.start <= va < m.value.end && AttrAt(Areas(), va) == Some(AttrOf(m.value))
      ensures m.None? ==> AttrAt(Areas(), va) == None
    {
      hide AlignedTo, AttrAt, Coalesced;
      var i := 0;
      while i < vmaCount
        invariant 0 <= i <= vmaCount && forall k :: 0 <= k < i ==> Areas()[k].end <= va
      {
        var v := vmas[i];
        assert Areas()[i] == v;
        if va < v.start {
          GapAttr(Areas(), i, va);
          return None;
        }
        if va < v.end {
          AttrAtHit(Areas(), i, va);
          return Some(v);
        }
        i := i + 1;
      }
      NoHit(Areas(), va);
      return None;
    }

    /** Fusing area i with its right neighbour, in place. */
    method FuseAt(i: nat)
      requires vmaCount <= vmas.Length && i + 1 < vmaCount
      modifies this`vmaCount, vmas
      ensures vmaCount == old(vmaCount) - 1 && Areas() == Fuse(old(Areas()), i)
    {
      ghost var s, n := Areas(), vmaCount;
      vmas[i] := vmas[i].(end := vmas[i + 1].end);
      ghost var t := vmas[..n];
      assert t == s[i := s[i].(end := s[i + 1].end)];
      ShiftDown(vmas, vmaCount, i + 1);
      vmaCount := vmaCount - 1;
      assert vmas[..i + 1] == t[..i + 1] && vmas[i + 1..n - 1] == t[i + 2..];
      assert Areas() == vmas[..i + 1] + vmas[i + 1..n - 1];
    }

    /** mm_add_vma */
    method AddVma(from: nat, to: nat, prot: bv8, kind: nat, flags: bv8) returns (ok: bool)
      requires Valid() && from < SPACE && to < SPACE
      modifies this`vmaCount, vmas
      ensures Valid()
      ensures ok <==> CanAdd(old(Areas()), Down(from), Up(to))
      ensures Areas() == if ok then Added(old(Areas()), Vma(Down(from), Up(to), prot, kind, flags)) else old(Areas())
    {
      hide AlignedTo, Sorted, Coalesced, Up, Down, Added;
      var start, end := Down(from), Up(to);
      RoundingAligned(from);
      RoundingAligned(to);
      if start >= end { return false; }
      if vmaCount >= MAX_VMAS { return false; }
      var v := Vma(start, end, prot, kind, flags);
      var ins := PosOf(start);
      if ins > 0 && start < vmas[ins - 1].end { return false; }
      if ins < vmaCount && end > vmas[ins].start { return false; }
      AddedAttr(Areas(), v, 0);
      AddedCoalesced(Areas(), v);
      PutAndFuse(ins, v);
      return true;
    }

    /** The insertion and the two attempts to fuse. */
    method PutAndFuse(k: nat, v: Vma)
      requires vmaCount < vmas.Length && k == Pos(Areas(), v.start)
      modifies this`vmaCount, vmas
      ensures vmaCount <= vmas.Length && Areas() == Added(old(Areas()), v)
    {
      hide Fuse, Mergeable, Pos;
      var ins := k;
      PutAt(ins, v);
      hide Insert;
      ghost var t := Areas();
      if ins > 0 && Mergeable(vmas[ins - 1], vmas[ins]) {
        FuseAt(ins - 1);
        ins := ins - 1;
      }
      ghost var u := Areas();
      if ins + 1 < vmaCount && Mergeable(vmas[ins], vmas[ins + 1]) {
        FuseAt(ins);
      }
      assert Areas() == FuseIf(u, ins);
    }

    /** The scan for the insertion point. */
    method PosOf(start: nat) returns (ins: nat)
      requires vmaCount <= vmas.Length
      ensures ins == Pos(Areas(), start)
    {
      ins := 0;
      while ins < vmaCount && vmas[ins].start < start
        invariant ins <= vmaCount && Pos(Areas(), start) == ins + Pos(Areas()[ins..], start)
      {
        ins := ins + 1;
      }
      assert ins < vmaCount ==> Areas()[ins..][0] == vmas[ins];
    }

    /** Shifting the tail up and writing v at index k. */
    method PutAt(k: nat, v: Vma)
      requires k <= vmaCount < vmas.Length
      modifies this`vmaCount, vmas
      ensures vmaCount == old(vmaCount) + 1 && Areas() == Insert(old(Areas()), k, v)
    {
      ghost var s, n := Areas(), vmaCount;
      ShiftUp(vmas, vmaCount, k);
      assert vmas[..k] == s[..k] && vmas[k + 1..n + 1] == s[k..];
      vmas[k] := v;
      vmaCount := vmaCount + 1;
      assert vmas[..k] == s[..k] && vmas[k + 1..n + 1] == s[k..];
      assert Areas() == vmas[..k] + [vmas[k]] + vmas[k + 1..n + 1];
    }

    /** Shifting the tail down over index k. */
    method DropAt(k: nat)
      requires k < vmaCount <= vmas.Length
      modifies this`vmaCount, vmas
      ensures vmaCount == old(vmaCount) - 1 && Areas() == Delete(old(Areas()), k)
    {
      ghost var s, n := Areas(), vmaCount;
      ShiftDown(vmas, vmaCount, k);
      vmaCount := vmaCount - 1;
      assert vmas[..k] == s[..k] && vmas[k..n - 1] == s[k + 1..];
      assert Areas() == vmas[..k] + vmas[k..n - 1];
    }

    method SetAt(k: nat, v: Vma)
      requires k < vmaCount <= vmas.Length
      modifies vmas
      ensures Areas() == old(Areas())[k := v]
    {
      vmas[k] := v;
    }

    /** The scan of mm_remove_vma. */
    method FirstOverlap(start: nat, end: nat) returns (k: Option<nat>)
      requires Valid() && start < end
      ensures var n := FirstEndingAfter(Areas(), start);
              k == if n < vmaCount && Areas()[n].start < end then Some(n) else None
    {
      hide AlignedTo, Coalesced;
      var i := 0;
      while i < vmaCount
        invariant i <= vmaCount && FirstEndingAfter(Areas(), start) == i + FirstEndingAfter(Areas()[i..], start)
      {
        var m := vmas[i];
        assert Areas()[i..][0] == m && Areas()[i] == m;
        if end <= m.start { return None; }
        if start < m.end { return Some(i); }
        i := i + 1;
      }
      return None;
    }

    /** The four cases of mm_remove_vma on area k; None if splitting it would overflow the list. */
    method Cut(k: nat, start: nat, end: nat) returns (freed: Option<Range>)
      requires vmaCount <= vmas.Length == MAX_VMAS && start < end
      requires k == FirstEndingAfter(Areas(), start) && k < vmaCount && Areas()[k].start < end
      modifies this`vmaCount, vmas
      ensures vmaCount <= MAX_VMAS
      ensures freed.None? <==> Removed(old(Areas()), start, end).None?
      ensures freed.None? ==> Areas() == old(Areas())
      ensures freed.Some? ==>
                var r := Removed(old(Areas()), start, end).value; Areas() == r.rest && freed.value == r.freed
    {
      hide FirstEndingAfter;
      var m := vmas[k];
      assert Areas()[k] == m;
      if start <= m.start && end >= m.end {
        DropAt(k);
        return Some(Range(m.start, m.end));
      } else if start <= m.start {
        SetAt(k, m.(start := end));
        return Some(Range(m.start, end));
      } else if end >= m.end {
        SetAt(k, m.(end := start));
        return Some(Range(start, m.end));
      }
      if vmaCount >= MAX_VMAS { return None; }
      SetAt(k, m.(end := start));
      PutAt(k + 1, m.(start := end));
      return Some(Range(start, end));
    }

    method FreePosOf(start: nat) returns (ins: nat)
      requires freeCount <= mmapFree.Length
      ensures ins == FreePos(FreeList(), start)
    {
      ins := 0;
      while ins < freeCount && mmapFree[ins].start < start
        invariant ins <= freeCount && FreePos(FreeList(), start) == ins + FreePos(FreeList()[ins..], start)
      {
        ins := ins + 1;
      }
      assert ins < freeCount ==> FreeList()[ins..][0] == mmapFree[ins];
    }

    method ExtendRange(i: nat, end: nat)
      requires i < freeCount <= mmapFree.Length
      modifies mmapFree
      ensures FreeList() == old(FreeList()[i := Range(FreeList()[i].start, Max(FreeList()[i].end, end))])
    {
      if mmapFree[i].end < end { mmapFree[i] := Range(mmapFree[i].start, end); }
    }

    method DropRange(i: nat)
      requires i < freeCount <= mmapFree.Length
      modifies this`freeCount, mmapFree
      ensures freeCount == old(freeCount) - 1 && FreeList() == Delete(old(FreeList()), i)
    {
      ghost var s, n := FreeList(), freeCount;
      ShiftDown(mmapFree, freeCount, i);
      freeCount := freeCount - 1;
      assert mmapFree[..i] == s[..i] && mmapFree[i..n - 1] == s[i + 1..];
      assert FreeList() == mmapFree[..i] + mmapFree[i..n - 1];
    }

    method PutRange(k: nat, r: Range)
      requires k <= freeCount < mmapFree.Length
      modifies this`freeCount, mmapFree
      ensures freeCount == old(freeCount) + 1 && FreeList() == Insert(old(FreeList()), k, r)
    {
      ghost var s, n := FreeList(), freeCount;
      ShiftUp(mmapFree, freeCount, k);
      assert mmapFree[..k] == s[..k] && mmapFree[k + 1..n + 1] == s[k..];
      mmapFree[k] := r;
      freeCount := freeCount + 1;
      assert mmapFree[..k] == s[..k] && mmapFree[k + 1..n + 1] == s[k..];
      assert FreeList() == mmapFree[..k] + [mmapFree[k]] + mmapFree[k + 1..n + 1];
    }

    /** The loop fusing range i with the ranges to its right that it touches. */
    method AbsorbFrom(i: nat)
      requires i < freeCount <= mmapFree.Length
      modifies this`freeCount, mmapFree
      ensures freeCount <= old(freeCount) && FreeList() == Absorb(old(FreeList()), i)
    {
      hide Delete;
      while i + 1 < freeCount && mmapFree[i].end >= mmapFree[i + 1].start
        invariant i < freeCount <= old(freeCount) && Absorb(FreeList(), i) == Absorb(old(FreeList()), i)
      {
        ExtendRange(i, mmapFree[i + 1].end);
        DropRange(i + 1);
      }
    }

    /** Giving a range back to the free list, and ranges just below the cursor back to it. */
    method ReturnRange(r: Range)
      requires freeCount <= mmapFree.Length == MAX_VMAS
      modifies this`freeCount, this`cursor, mmapFree
      ensures freeCount <= MAX_VMAS
      ensures match Returned(old(FreeList()), r)
              case None => FreeList() == old(FreeList()) && cursor == old(cursor)
              case Some(fs) => (FreeList(), cursor) == PullBack(fs, old(cursor))
    {
      hide Absorb, Insert, PullBack;
      var ins := FreePosOf(r.start);
      if ins > 0 && mmapFree[ins - 1].end >= r.start {
        ins := ins - 1;
        ExtendRange(ins, r.end);
      } else {
        if freeCount >= MAX_VMAS { return; }
        PutRange(ins, r);
      }
      AbsorbFrom(ins);
      PullCursor();
    }

    method PullCursor()
      requires freeCount <= mmapFree.Length
      modifies this`freeCount, this`cursor
      ensures freeCount <= old(freeCount) && (FreeList(), cursor) == PullBack(old(FreeList()), old(cursor))
    {
      while freeCount > 0
        invariant freeCount <= old(freeCount)
        invariant PullBack(FreeList(), cursor) == PullBack(old(FreeList()), old(cursor))
      {
        var last := mmapFree[freeCount - 1];
        assert FreeList()[freeCount - 1] == last;
        if last.end != cursor { break; }
        ghost var fs := FreeList();
        cursor := last.start;
        freeCount := freeCount - 1;
        assert FreeList() == fs[..|fs| - 1];
      }
    }

    /** mm_remove_vma. Inside a tiled window nothing is lost: the range taken out of the
        areas is found in the free list, which cannot have been full. */
    method RemoveVma(from: nat, to: nat) returns (ok: bool)
      requires Valid() && from < SPACE && to < SPACE
      modifies this`vmaCount, this`freeCount, this`cursor, vmas, mmapFree
      ensures Valid()
      ensures ok <==> Removed(old(Areas()), Down(from), Up(to)).Some?
      ensures !ok ==> Areas() == old(Areas()) && FreeList() == old(FreeList()) && cursor == old(cursor)
      ensures ok ==> var r := Removed(old(Areas()), Down(from), Up(to)).value;
                     && Areas() == r.rest
                     && (FreeList(), cursor) == ReturnedTo(r, old(FreeList()), old(cursor))
      ensures ok && old(Window() && NoStack(Areas(), cursor, top) && Anchored(Areas(), Guard(), top))
                 && old(cursor) <= Down(from) && Up(to) <= top ==>
                && Window() && NoStack(Areas(), cursor, top) && Anchored(Areas(), Guard(), top) && cursor == old(cursor)
                && Some(FreeList()) == Returned(old(FreeList()), Removed(old(Areas()), Down(from), Up(to)).value.freed)
    {
      hide AlignedTo, Sorted, Coalesced, Up, Down, Removed, Returned, PullBack, Tiled, NoStack, Anchored;
      var start, end := Down(from), Up(to);
      RoundingAligned(from);
      RoundingAligned(to);
      if start >= end {
        EmptyRemoval(Areas(), start, end);
        return false;
      }
      var k := FirstOverlap(start, end);
      OverlapRemoval(Areas(), start, end);
      if k.None? { return false; }
      var stack := vmas[k.value].kind == KIND_STACK;
      ghost var s, fs := Areas(), FreeList();
      var freed := Cut(k.value, start, end);
      if freed.None? { return false; }
      RemovedAttr(s, start, end, 0);
      RemovedCoalesced(s, start, end);
      if old(Window() && NoStack(Areas(), cursor, top) && Anchored(Areas(), Guard(), top)) && cursor <= start
          && end <= top {
        FreeListFits(s, fs, Guard(), cursor, top);
        RemoveTiled(s, fs, Guard(), cursor, top, start, end);
        TiledGuard(s, fs, Guard(), cursor, top);
        RemovedAnchored(s, start, end, Guard(), top);
      }
      if !stack { ReturnRange(freed.value); }
      return true;
    }

    /** The search of mm_alloc_mmap for the first free range of n bytes. */
    method FirstFit(n: nat) returns (k: Option<nat>)
      requires freeCount <= mmapFree.Length && forall i :: 0 <= i < freeCount ==> mmapFree[i].start <= mmapFree[i].end
      ensures k.Some? ==>
                && k.value < freeCount && Fits(FreeList(), k.value, n)
                && forall i :: 0 <= i < k.value ==> !Fits(FreeList(), i, n)
      ensures k.None? ==> forall i :: 0 <= i < freeCount ==> !Fits(FreeList(), i, n)
    {
      var i := 0;
      while i < freeCount
        invariant i <= freeCount && forall j :: 0 <= j < i ==> !Fits(FreeList(), j, n)
      {
        var r := mmapFree[i];
        assert FreeList()[i] == r;
        if r.end - r.start >= n { return Some(i); }
        i := i + 1;
      }
      return None;
    }

    /** As memset leaves a new mm_struct: no mmap window yet. */
    ghost predicate Unset()
      reads this, vmas, mmapFree
    {
      Valid() && cursor == 0 && freeCount == 0
    }

    /** The end of create_process: mmap window, shared page and stack above an image
        that ends at maxMap. */
    method LayOut(maxMap: nat) returns (ok: bool)
      requires Unset() && 1 <= vmaCount <= MAX_VMAS - 2 && maxMap <= SPACE - 6 * PAGE
      requires forall i :: 0 <= i < vmaCount ==>
                Areas()[i].end <= maxMap && Areas()[i].kind == KIND_ELF && !IsUserAlloc(Areas()[i])
      modifies this`vmaCount, this`bottom, this`top, this`cursor, vmas
      ensures ok <==> Up(maxMap + 4 * PAGE) <= SHARED_BASE
      ensures ok ==> Valid() && Areas() == old(Areas()) + [SHARED_AREA, STACK_AREA] && top == cursor == SHARED_BASE
      ensures ok ==> Guard() == Up(maxMap + 4 * PAGE) + GAP_PAGES * PAGE >= maxMap
      ensures ok && Guard() <= cursor ==> Window() && NoStack(Areas(), cursor, top) && Anchored(Areas(), Guard(), top)
      ensures ok && Guard() > cursor ==> Shut()
      ensures ok ==>
                && UserVmas(Areas()) == {}
                && forall a :: STACK_LIMIT <= a < STACK_TOP ==> AttrAt(Areas(), a) == Some(AttrOf(STACK_AREA))
    {
      hide AlignedTo, Up, Down, Added, Coalesced, AttrAt, Sorted, CanAdd, Tiled, NoStack, Anchored, UserVmas;
      RoundingAligned(maxMap + 4 * PAGE);
      bottom := Up(maxMap + 4 * PAGE);
      if bottom > SHARED_BASE { return false; }
      top, cursor := SHARED_BASE, SHARED_BASE;
      LayOutAligned();
      RoundingAligned(SHARED_BASE);
      RoundingAligned(STACK_LIMIT);
      RoundingAligned(STACK_TOP);
      ghost var vs := Areas();
      AppendArea(vs, SHARED_AREA);
      var first := AddVma(SHARED_BASE, STACK_LIMIT, 2, KIND_SPECIAL, 8);
      AppendArea(vs + [SHARED_AREA], STACK_AREA);
      var second := AddVma(STACK_LIMIT, STACK_TOP, 1, KIND_STACK, 1);
      GuardAligned(bottom);
      if Guard() <= cursor { LaidOut(vs, Areas(), Guard()); }
      NoUsers(Areas());
      AttrAtAll(Areas(), |vs| + 1);
      return true;
    }

    /** No mmap window: none has been set up, or the image comes too close to the stack. */
    ghost predicate Shut()
      reads this, vmas, mmapFree
    {
      Valid() && freeCount == 0 && (cursor == 0 || cursor < Guard()) && AlignedTo(cursor) && cursor <= top < SPACE
    }

    /** mm_alloc_mmap; 0 is failure. */
    method AllocMmap(size: nat, prot: bv8, kind: nat, flags: bv8) returns (base: nat)
      requires (Window() || Shut()) && size < SPACE
      modifies this`vmaCount, this`freeCount, this`cursor, vmas, mmapFree
      ensures (old(Window()) ==> Window()) && (old(Shut()) ==> Shut() && base == 0)
      ensures base == 0 ==> Areas() == old(Areas()) && FreeList() == old(FreeList()) && cursor == old(cursor)
      ensures base == 0 <==>
        || Up(size) == 0 || old(vmaCount) == MAX_VMAS || old(cursor) == 0
        || (old(cursor) < Guard() + Up(size) && forall i :: 0 <= i < old(freeCount) ==>
            !Fits(old(FreeList()), i, Up(size)))
      ensures base != 0 ==> Placed(Vma(base, base + Up(size), prot, kind, flags), old(Areas()), Areas(), Guard(), top)
      ensures base != 0 && kind != KIND_STACK && old(NoStack(Areas(), cursor, top)) ==> NoStack(Areas(), cursor, top)
    {
      hide AlignedTo, Sorted, Coalesced, Up, Down, Added, Tiled, NoStack, CanAdd, Taken;
      if size == 0 {
        RoundingAligned(0);
        return 0;
      }
      var n := Up(size);
      RoundingAligned(size);
      if Window() {
        TiledGuard(Areas(), FreeList(), Guard(), cursor, top);
        TiledRanges(Areas(), FreeList(), Guard(), cursor, top);
      }
      var k := FirstFit(n);
      if k.Some? {
        base := AllocFromRange(k.value, n, prot, kind, flags);
        return;
      }
      if cursor == 0 { return 0; }
      base := AllocBelowCursor(n, prot, kind, flags);
    }

    /** The upper end of free range k. */
    method AllocFromRange(k: nat, n: nat, prot: bv8, kind: nat, flags: bv8) returns (base: nat)
      requires Window() && k < freeCount && Fits(FreeList(), k, n) && AlignedTo(n) && n < SPACE
      modifies this`vmaCount, this`freeCount, vmas, mmapFree
      ensures Window()
      ensures base == 0 <==> n == 0 || old(vmaCount) == MAX_VMAS
      ensures base == 0 ==> Areas() == old(Areas()) && FreeList() == old(FreeList())
      ensures base != 0 ==> Placed(Vma(base, base + n, prot, kind, flags), old(Areas()), Areas(), cursor, top)
      ensures base != 0 ==> FreeList() == Taken(old(FreeList()), k, n)
      ensures base != 0 && kind != KIND_STACK && old(NoStack(Areas(), cursor, top)) ==> NoStack(Areas(), cursor, top)
    {
      hide AlignedTo, Sorted, Coalesced, Up, Down, Added, Tiled, NoStack, CanAdd;
      TiledRanges(Areas(), FreeList(), Guard(), cursor, top);
      TiledGuard(Areas(), FreeList(), Guard(), cursor, top);
      var r := mmapFree[k];
      assert FreeList()[k] == r;
      AlignedDifference(r.end, n);
      RoundingAligned(r.end - n);
      RoundingAligned(r.end);
      base := Down(r.end - n);
      ghost var v := Vma(base, base + n, prot, kind, flags);
      if n == 0 || vmaCount == MAX_VMAS {
        CannotAdd(Areas(), base, base + n);
      } else {
        AllocFreeTiled(Areas(), FreeList(), Guard(), cursor, top, k, v);
        CanAddIffDisjoint(Areas(), v.start, v.end);
      }
      var ok := AddVma(base, base + n, prot, kind, flags);
      if !ok { return 0; }
      if base == r.start && base + n == r.end {
        DropRange(k);
      } else {
        mmapFree[k] := Range(r.start, base);
      }
      assert FreeList() == Taken(old(FreeList()), k, n);
    }

    /** The n bytes below the cursor, on 64-bit arithmetic. */
    method AllocBelowCursor(n: nat, prot: bv8, kind: nat, flags: bv8) returns (base: nat)
      requires (Window() || Shut()) && AlignedTo(n) && n < SPACE
      modifies this`vmaCount, this`cursor, vmas
      ensures Valid() && (old(Window()) ==> Window()) && (old(Shut()) ==> Shut() && base == 0)
      ensures FreeList() == old(FreeList())
      ensures base == 0 <==> n == 0 || old(vmaCount) == MAX_VMAS || old(cursor) < Guard() + n
      ensures base == 0 ==> Areas() == old(Areas()) && cursor == old(cursor)
      ensures base != 0 ==> Placed(Vma(base, base + n, prot, kind, flags), old(Areas()), Areas(), Guard(), top)
      ensures base != 0 ==> cursor == base == old(cursor) - n
      ensures base != 0 && kind != KIND_STACK && old(NoStack(Areas(), cursor, top)) ==> NoStack(Areas(), cursor, top)
    {
      hide AlignedTo, Sorted, Coalesced, Up, Down, Added, Tiled, NoStack, CanAdd;
      if Window() {
        TiledRanges(Areas(), FreeList(), Guard(), cursor, top);
        TiledGuard(Areas(), FreeList(), Guard(), cursor, top);
      }
      CursorBase(cursor, n);
      base := Down((cursor + SPACE - n) % SPACE);
      if base < Guard() { return 0; }
      var end := (base + n) % SPACE;
      if end > top { return 0; }
      RoundingAligned(base);
      RoundingAligned(end);
      ghost var v := Vma(base, base + n, prot, kind, flags);
      if n == 0 || vmaCount == MAX_VMAS || cursor < n {
        CannotAdd(Areas(), base, end);
      } else {
        AllocCursorTiled(Areas(), FreeList(), Guard(), cursor, top, v);
        CanAddIffDisjoint(Areas(), v.start, v.end);
      }
      var ok := AddVma(base, end, prot, kind, flags);
      if !ok { return 0; }
      cursor := base;
    }
  }

  const KIND_ELF := 1
  const KIND_SPECIAL := 4
  const STACK_TOP := 0x7FFF_FFFF_F000
  const STACK_LIMIT := STACK_TOP - 0x80_0000
  const SHARED_BASE := STACK_LIMIT - PAGE
  const SHARED_AREA := Vma(SHARED_BASE, STACK_LIMIT, 2, KIND_SPECIAL, 8)
  const STACK_AREA := Vma(STACK_LIMIT, STACK_TOP, 1, KIND_STACK, 1)

  lemma LayOutAligned()
    ensures AlignedTo(SHARED_BASE) && AlignedTo(STACK_LIMIT) && AlignedTo(STACK_TOP)
  {
  }

  lemma GuardAligned(bottom: nat)
    requires AlignedTo(bottom)
    ensures AlignedTo(bottom + GAP_PAGES * PAGE)
  {
  }

  lemma NoUsers(vs: seq<Vma>)
    requires forall i :: 0 <= i < |vs| ==> !IsUserAlloc(vs[i])
    ensures UserVmas(vs) == {}
  {
  }

  /** Adding an area above all others, different from the last, appends it. */
  lemma AppendArea(vs: seq<Vma>, v: Vma)
    requires 0 < |vs| < MAX_VMAS && v.start < v.end && Sorted(vs) && vs[|vs| - 1].end <= v.start
    requires vs[|vs| - 1].kind != v.kind
    ensures CanAdd(vs, v.start, v.end) && Added(vs, v) == vs + [v]
  {
    hide AlignedTo;
    assert Pos(vs, v.start) == |vs|;
    assert Insert(vs, |vs|, v) == vs + [v];
  }

  lemma AttrAtAll(vs: seq<Vma>, k: nat)
    requires Sorted(vs) && k < |vs|
    ensures forall a :: vs[k].start <= a < vs[k].end ==> AttrAt(vs, a) == Some(AttrOf(vs[k]))
  {
    hide Sorted, AttrAt;
    forall a | vs[k].start <= a < vs[k].end ensures AttrAt(vs, a) == Some(AttrOf(vs[k])) {
      AttrAtHit(vs, k, a);
    }
  }

  lemma LaidOut(image: seq<Vma>, vs: seq<Vma>, guard: nat)
    requires Sorted(vs) && vs == image + [SHARED_AREA, STACK_AREA] && image != [] && 0 < guard <= SHARED_BASE
    requires AlignedTo(guard)
    requires forall i :: 0 <= i < |image| ==> image[i].end <= guard
    ensures Tiled(vs, [], guard, SHARED_BASE, SHARED_BASE) && NoStack(vs, SHARED_BASE, SHARED_BASE)
    ensures Anchored(vs, guard, SHARED_BASE)
  {
    forall a | guard <= a < SHARED_BASE ensures AttrAt(vs, a) == None {
      GapAttr(vs, |image|, a);
    }
  }

  /** The free list and cursor after an area of the given kind lost a range. */
  function ReturnedTo(r: Removal, fs: seq<Range>, cursor: nat): (seq<Range>, nat) {
    var gs := Returned(fs, r.freed);
    if r.kind == KIND_STACK || gs.None? then (fs, cursor) else PullBack(gs.value, cursor)
  }

  predicate Fits(fs: seq<Range>, i: nat, n: nat)
    requires i < |fs|
  {
    fs[i].start + n <= fs[i].end
  }

  lemma TiledRanges(vs: seq<Vma>, fs: seq<Range>, guard: nat, cursor: nat, top: nat)
    requires Tiled(vs, fs, guard, cursor, top)
    ensures forall i :: 0 <= i < |fs| ==> cursor <= fs[i].start < fs[i].end <= top && AlignedTo(fs[i].end)
    ensures AlignedTo(cursor)
  {
  }

  lemma AlignedDifference(x: nat, y: nat)
    requires AlignedTo(x) && AlignedTo(y) && y <= x
    ensures AlignedTo(x - y)
  {
  }

  lemma CannotAdd(s: seq<Vma>, start: nat, end: nat)
    requires start >= end || |s| >= MAX_VMAS
    ensures !CanAdd(s, start, end)
  {
  }

  /** vs' is vs with area v added between lo and hi, where nothing was. */
  ghost predicate Placed(v: Vma, vs: seq<Vma>, vs': seq<Vma>, lo: nat, hi: nat) {
    && AlignedTo(v.start) && lo <= v.start && v.end <= hi
    && (forall i :: 0 <= i < |vs| ==> vs[i].end <= v.start || v.end <= vs[i].start)
    && vs' == Added(vs, v)
  }

  /** cursor - size wraps exactly when the request is larger than what lies below the cursor. */
  lemma CursorBase(cursor: nat, n: nat)
    requires AlignedTo(cursor) && AlignedTo(n) && cursor < SPACE && n < SPACE
    ensures var base := Down((cursor + SPACE - n) % SPACE);
            && base < SPACE && AlignedTo(base) && (base + n) % SPACE == cursor
            && base == (if n <= cursor then cursor - n else cursor + SPACE - n)
  {
    var x := if n <= cursor then cursor - n else cursor + SPACE - n;
    assert (cursor + SPACE - n) % SPACE == x && x % PAGE == 0;
  }

  lemma EmptyRemoval(s: seq<Vma>, start: nat, end: nat)
    requires start >= end
    ensures Removed(s, start, end) == None
  {
  }

  lemma OverlapRemoval(s: seq<Vma>, start: nat, end: nat)
    requires start < end
    ensures var n := FirstEndingAfter(s, start);
            && (n == |s| || end <= s[n].start ==> Removed(s, start, end) == None)
            && (Removed(s, start, end).Some? ==> Removed(s, start, end).value.kind == s[n].kind)
  {
  }

  lemma TiledGuard(vs: seq<Vma>, fs: seq<Range>, guard: nat, cursor: nat, top: nat)
    requires Tiled(vs, fs, guard, cursor, top)
    ensures Sorted(vs) && 0 < guard <= cursor <= top < SPACE
  {
  }

  lemma NoHit(s: seq<Vma>, a: nat)
    requires forall i :: 0 <= i < |s| ==> s[i].end <= a
    ensures AttrAt(s, a) == None
  {
  }
}
