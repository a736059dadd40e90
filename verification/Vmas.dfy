/** The virtual memory areas and free ranges of one process as kernel/memory/mm_process.c
    keeps them, on sequences: what inserting, fusing, trimming, splitting and
    deleting entries does to the attribute of every address. */
module Vmas {
  import opened Wrappers

  const PAGE := 4096
  const SPACE := 0x1_0000_0000_0000_0000
  const MAX_VMAS := 128
  const USERALLOC: bv8 := 2

  datatype Vma = Vma(start: nat, end: nat, prot: bv8, kind: nat, flags: bv8)
  datatype Attr = Attr(prot: bv8, kind: nat, flags: bv8)
  datatype Range = Range(start: nat, end: nat)

  function AttrOf(v: Vma): Attr { Attr(v.prot, v.kind, v.flags) }

  predicate IsUserAlloc(v: Vma) { v.flags & USERALLOC != 0 }

  predicate AlignedTo(x: nat) { x % PAGE == 0 }

  /** Areas are page aligned, not empty, in address order and disjoint. */
  ghost predicate Sorted(s: seq<Vma>) {
    && (forall i :: 0 <= i < |s| ==> s[i].start < s[i].end < SPACE && AlignedTo(s[i].start) && AlignedTo(s[i].end))
    && (forall i, j :: 0 <= i < j < |s| ==> s[i].end <= s[j].start)
  }

  /** The test for fusing two neighbours. */
  predicate Mergeable(a: Vma, b: Vma) {
    a.end == b.start && AttrOf(a) == AttrOf(b) && !IsUserAlloc(a) && !IsUserAlloc(b)
  }

  /** Areas that touch differ in protection, kind or flags, or belong to a palloc (bit 1 of the flags). */
  ghost predicate Coalesced(s: seq<Vma>) {
    forall i :: 0 <= i && i + 1 < |s| && s[i].end == s[i + 1].start ==>
      s[i].prot != s[i + 1].prot || s[i].kind != s[i + 1].kind || s[i].flags != s[i + 1].flags || s[i].flags & 2 != 0
  }

  predicate Hit(s: seq<Vma>, i: int, a: nat) { 0 <= i < |s| && s[i].start <= a < s[i].end }

  ghost predicate Covered(s: seq<Vma>, a: nat) { exists i :: Hit(s, i, a) }

  ghost function IndexAt(s: seq<Vma>, a: nat): (i: int)
    ensures if Covered(s, a) then Hit(s, i, a) else i == -1
  {
    if Covered(s, a) then var i :| Hit(s, i, a); i else -1
  }

  /** The attribute map the list stands for. */
  ghost function AttrAt(s: seq<Vma>, a: nat): Option<Attr> {
    var i := IndexAt(s, a);
    if i >= 0 then Some(AttrOf(s[i])) else None
  }

  lemma HitUnique(s: seq<Vma>, i: int, j: int, a: nat)
    requires Sorted(s) && Hit(s, i, a) && Hit(s, j, a)
    ensures i == j
  {
  }

  lemma AttrAtHit(s: seq<Vma>, i: nat, a: nat)
    requires Sorted(s) && Hit(s, i, a)
    ensures IndexAt(s, a) == i && AttrAt(s, a) == Some(AttrOf(s[i]))
  {
    HitUnique(s, i, IndexAt(s, a), a);
  }

  function Insert<T>(s: seq<T>, k: nat, v: T): seq<T>
    requires k <= |s|
  {
    s[..k] + [v] + s[k..]
  }

  function Delete<T>(s: seq<T>, k: nat): seq<T>
    requires k < |s|
  {
    s[..k] + s[k + 1..]
  }

  lemma InsertSorted(s: seq<Vma>, k: nat, v: Vma)
    requires Sorted(s) && k <= |s| && v.start < v.end < SPACE && AlignedTo(v.start) && AlignedTo(v.end)
    requires (k > 0 ==> s[k - 1].end <= v.start) && (k < |s| ==> v.end <= s[k].start)
    ensures Sorted(Insert(s, k, v))
  {
    hide AlignedTo;
    var t := Insert(s, k, v);
    forall i, j | 0 <= i < j < |t| ensures t[i].end <= t[j].start {
      if i < k - 1 && j == k { assert s[i].end <= s[k - 1].start; }
      if i == k && j > k + 1 { assert s[k].end <= s[j - 1].start; }
    }
  }

  lemma InsertAttr(s: seq<Vma>, k: nat, v: Vma, a: nat)
    requires Sorted(s) && k <= |s| && Sorted(Insert(s, k, v))
    ensures AttrAt(Insert(s, k, v), a) == if v.start <= a < v.end then Some(AttrOf(v)) else AttrAt(s, a)
  {
    hide AlignedTo;
    var t := Insert(s, k, v);
    if Covered(t, a) && IndexAt(t, a) != k {
      var j := IndexAt(t, a);
      assert Hit(s, if j < k then j else j - 1, a);
    }
    if v.start <= a < v.end {
      assert Hit(t, k, a);
      AttrAtHit(t, k, a);
    } else if Covered(s, a) {
      var i := IndexAt(s, a);
      var j := if i < k then i else i + 1;
      assert Hit(t, j, a);
      AttrAtHit(t, j, a);
    }
  }

  lemma DeleteSorted(s: seq<Vma>, k: nat)
    requires Sorted(s) && k < |s|
    ensures Sorted(Delete(s, k))
  {
    hide AlignedTo;
    var t := Delete(s, k);
    assert forall i :: 0 <= i < |t| ==> t[i] == s[if i < k then i else i + 1];
  }

  lemma DeleteAttr(s: seq<Vma>, k: nat, a: nat)
    requires Sorted(s) && k < |s|
    ensures AttrAt(Delete(s, k), a) == if s[k].start <= a < s[k].end then None else AttrAt(s, a)
  {
    hide AlignedTo;
    DeleteSorted(s, k);
    var t := Delete(s, k);
    if Covered(s, a) && IndexAt(s, a) != k {
      var i := IndexAt(s, a);
      assert Hit(t, if i < k then i else i - 1, a);
    }
    if Covered(t, a) {
      var j := IndexAt(t, a);
      var i := if j < k then j else j + 1;
      assert Hit(s, i, a);
      AttrAtHit(s, i, a);
      if Hit(s, k, a) { HitUnique(s, i, k, a); }
    }
  }

  /** Trimming an area to part of itself. */
  lemma TrimAttr(s: seq<Vma>, k: nat, v: Vma, a: nat)
    requires Sorted(s) && k < |s| && s[k].start <= v.start < v.end <= s[k].end && AttrOf(v) == AttrOf(s[k])
    requires AlignedTo(v.start) && AlignedTo(v.end)
    ensures Sorted(s[k := v])
    ensures AttrAt(s[k := v], a)
         == if s[k].start <= a < s[k].end && !(v.start <= a < v.end) then None else AttrAt(s, a)
  {
    hide AlignedTo;
    var t := s[k := v];
    if Covered(s, a) && (IndexAt(s, a) != k || v.start <= a < v.end) { assert Hit(t, IndexAt(s, a), a); }
    if Covered(t, a) {
      var j := IndexAt(t, a);
      assert Hit(s, j, a);
      AttrAtHit(s, j, a);
      if Hit(s, k, a) { HitUnique(s, j, k, a); }
    }
  }

  function Fuse(s: seq<Vma>, i: nat): seq<Vma>
    requires i + 1 < |s|
  {
    s[..i] + [s[i].(end := s[i + 1].end)] + s[i + 2..]
  }

  lemma FuseSorted(s: seq<Vma>, i: nat)
    requires Sorted(s) && i + 1 < |s| && Mergeable(s[i], s[i + 1])
    ensures Sorted(Fuse(s, i))
  {
    hide AlignedTo, AttrOf;
    var t := Fuse(s, i);
    assert forall k :: 0 <= k < |t| ==> t[k].start == s[if k <= i then k else k + 1].start;
    assert forall k :: 0 <= k < |t| ==> t[k].end == s[if k < i then k else k + 1].end;
  }

  /** Fusing neighbours of equal attribute changes no address. */
  lemma FuseAttr(s: seq<Vma>, i: nat, a: nat)
    requires Sorted(s) && i + 1 < |s| && Mergeable(s[i], s[i + 1])
    ensures AttrAt(Fuse(s, i), a) == AttrAt(s, a)
  {
    hide AlignedTo;
    FuseSorted(s, i);
    var t := Fuse(s, i);
    if Covered(t, a) {
      var j := IndexAt(t, a);
      assert Hit(s, if j < i || (j == i && a < s[i].end) then j else j + 1, a);
    }
    if Covered(s, a) {
      var k := IndexAt(s, a);
      var j := if k <= i then k else k - 1;
      assert Hit(t, j, a);
      AttrAtHit(t, j, a);
    }
  }

  /** The index of the first area that starts at or after x. */
  function Pos(s: seq<Vma>, x: nat): (k: nat)
    ensures k <= |s| && (forall i :: 0 <= i < k ==> s[i].start < x) && (k < |s| ==> s[k].start >= x)
  {
    if s == [] || s[0].start >= x then 0 else 1 + Pos(s[1..], x)
  }

  /** mm_add_vma's tests, after rounding. */
  predicate CanAdd(s: seq<Vma>, start: nat, end: nat) {
    var k := Pos(s, start);
    && start < end && |s| < MAX_VMAS
    && (k > 0 ==> s[k - 1].end <= start)
    && (k < |s| ==> end <= s[k].start)
  }

  /** They refuse exactly the overlapping requests, and any request to a full list. */
  lemma CanAddIffDisjoint(s: seq<Vma>, start: nat, end: nat)
    requires Sorted(s) && start < end
    ensures CanAdd(s, start, end) <==>
              |s| < MAX_VMAS && forall i :: 0 <= i < |s| ==> s[i].end <= start || end <= s[i].start
  {
    hide AlignedTo;
    var k := Pos(s, start);
    forall i | 0 <= i < |s| && CanAdd(s, start, end) ensures s[i].end <= start || end <= s[i].start {
      if i + 1 < k { assert s[i].end <= s[k - 1].start; }
      if i > k { assert s[k].end <= s[i].start; }
    }
  }

  function FuseIf(s: seq<Vma>, i: nat): seq<Vma> {
    if i + 1 < |s| && Mergeable(s[i], s[i + 1]) then Fuse(s, i) else s
  }

  /** The list after mm_add_vma: insert, then fuse with either neighbour where allowed. */
  function Added(s: seq<Vma>, v: Vma): seq<Vma> {
    var k := Pos(s, v.start);
    var t := Insert(s, k, v);
    if k > 0 && Mergeable(t[k - 1], t[k]) then FuseIf(Fuse(t, k - 1), k - 1) else FuseIf(t, k)
  }

  lemma FuseIfAttr(s: seq<Vma>, i: nat, a: nat)
    requires Sorted(s)
    ensures Sorted(FuseIf(s, i)) && AttrAt(FuseIf(s, i), a) == AttrAt(s, a)
  {
    if i + 1 < |s| && Mergeable(s[i], s[i + 1]) {
      FuseSorted(s, i);
      FuseAttr(s, i, a);
    }
  }

  predicate WellPlaced(v: Vma) { v.start < v.end < SPACE && AlignedTo(v.start) && AlignedTo(v.end) }

  /** mm_add_vma is an update of the attribute map. */
  lemma AddedAttr(s: seq<Vma>, v: Vma, a: nat)
    requires Sorted(s) && WellPlaced(v) && CanAdd(s, v.start, v.end)
    ensures Sorted(Added(s, v))
    ensures AttrAt(Added(s, v), a) == if v.start <= a < v.end then Some(AttrOf(v)) else AttrAt(s, a)
  {
    hide AlignedTo, Sorted, AttrAt, Fuse;
    var k := Pos(s, v.start);
    var t := Insert(s, k, v);
    InsertSorted(s, k, v);
    InsertAttr(s, k, v, a);
    if k > 0 && Mergeable(t[k - 1], t[k]) {
      FuseSorted(t, k - 1);
      FuseAttr(t, k - 1, a);
      FuseIfAttr(Fuse(t, k - 1), k - 1, a);
    } else {
      FuseIfAttr(t, k, a);
    }
  }

  /** No fusible neighbours but perhaps at index k. */
  ghost predicate CoalescedBut(s: seq<Vma>, k: int) {
    forall i :: 0 <= i && i + 1 < |s| && i != k ==> !Mergeable(s[i], s[i + 1])
  }

  lemma FuseIfCoalesced(s: seq<Vma>, k: nat)
    requires CoalescedBut(s, k)
    ensures Coalesced(FuseIf(s, k))
  {
    if k + 1 < |s| && Mergeable(s[k], s[k + 1]) {
      var t := Fuse(s, k);
      forall i | 0 <= i && i + 1 < |t| ensures !Mergeable(t[i], t[i + 1]) {
        if i + 1 <= k { assert !Mergeable(s[i], s[i + 1]); } else { assert !Mergeable(s[i + 1], s[i + 2]); }
      }
    }
  }

  /** mm_add_vma keeps the list maximally coalesced. */
  lemma AddedCoalesced(s: seq<Vma>, v: Vma)
    requires Coalesced(s)
    ensures Coalesced(Added(s, v)) && |Added(s, v)| <= |s| + 1
  {
    var k := Pos(s, v.start);
    var t := Insert(s, k, v);
    if k > 0 && Mergeable(t[k - 1], t[k]) {
      var u := Fuse(t, k - 1);
      forall i | 0 <= i && i + 1 < |u| && i != k - 1 ensures !Mergeable(u[i], u[i + 1]) {
        if i + 1 <= k - 1 { assert !Mergeable(s[i], s[i + 1]); } else { assert !Mergeable(s[i], s[i + 1]); }
      }
      FuseIfCoalesced(u, k - 1);
    } else {
      forall i | 0 <= i && i + 1 < |t| && i != k ensures !Mergeable(t[i], t[i + 1]) {
        if i + 1 < k { assert !Mergeable(s[i], s[i + 1]); }
        if i > k { assert !Mergeable(s[i - 1], s[i]); }
      }
      FuseIfCoalesced(t, k);
    }
  }

  /** The regions made by one allocation each. */
  ghost function UserVmas(s: seq<Vma>): set<Vma> { set v | v in s && IsUserAlloc(v) }

  lemma FuseIfUser(s: seq<Vma>, i: nat)
    ensures UserVmas(FuseIf(s, i)) == UserVmas(s)
  {
    if i + 1 < |s| && Mergeable(s[i], s[i + 1]) {
      var t := Fuse(s, i);
      assert s == s[..i] + [s[i]] + [s[i + 1]] + s[i + 2..];
      assert !IsUserAlloc(t[i]);
      assert forall v :: v in t <==> v in s[..i] || v == t[i] || v in s[i + 2..];
    }
  }

  /** Regions made by one allocation each are never fused. */
  lemma AddedUser(s: seq<Vma>, v: Vma)
    ensures UserVmas(Added(s, v)) == UserVmas(s) + if IsUserAlloc(v) then {v} else {}
  {
    hide Mergeable;
    var k := Pos(s, v.start);
    var t := Insert(s, k, v);
    assert s == s[..k] + s[k..];
    assert UserVmas(t) == UserVmas(s) + if IsUserAlloc(v) then {v} else {};
    if k > 0 && Mergeable(t[k - 1], t[k]) {
      FuseIfUser(t, k - 1);
      FuseIfUser(Fuse(t, k - 1), k - 1);
    } else {
      FuseIfUser(t, k);
    }
  }

  /** The index of the first area that ends after x. */
  function FirstEndingAfter(s: seq<Vma>, x: nat): (k: nat)
    ensures k <= |s| && (forall i :: 0 <= i < k ==> s[i].end <= x) && (k < |s| ==> s[k].end > x)
  {
    if s == [] || s[0].end > x then 0 else 1 + FirstEndingAfter(s[1..], x)
  }

  datatype Removal = Removal(rest: seq<Vma>, freed: Range, kind: nat)

  /** The list after mm_remove_vma, the range it took out and the kind it belonged to;
      None where it refuses. Only the first overlapping area is touched. */
  function Removed(s: seq<Vma>, start: nat, end: nat): Option<Removal> {
    var k := FirstEndingAfter(s, start);
    if start >= end || k == |s| || end <= s[k].start then None
    else
      var m := s[k];
      if start <= m.start && end >= m.end then Some(Removal(Delete(s, k), Range(m.start, m.end), m.kind))
      else if start <= m.start then Some(Removal(s[k := m.(start := end)], Range(m.start, end), m.kind))
      else if end >= m.end then Some(Removal(s[k := m.(end := start)], Range(start, m.end), m.kind))
      else if |s| >= MAX_VMAS then None
      else Some(Removal(Insert(s[k := m.(end := start)], k + 1, m.(start := end)), Range(start, end), m.kind))
  }

  /** mm_remove_vma erases from the attribute map exactly the overlap of the
      request with the first area it meets. */
  lemma RemovedAttr(s: seq<Vma>, start: nat, end: nat, a: nat)
    requires Sorted(s) && AlignedTo(start) && AlignedTo(end) && end < SPACE && Removed(s, start, end).Some?
    ensures var r := Removed(s, start, end).value;
            && Sorted(r.rest)
            && start <= r.freed.start < r.freed.end <= end && AlignedTo(r.freed.start) && AlignedTo(r.freed.end)
            && AttrAt(r.rest, a) == (if r.freed.start <= a < r.freed.end then None else AttrAt(s, a))
            && (r.freed.start <= a < r.freed.end ==> AttrAt(s, a).Some? && AttrAt(s, a).value.kind == r.kind)
            && (start <= a < r.freed.start ==> AttrAt(s, a) == None)
  {
    hide AlignedTo, AttrAt, IndexAt;
    var k := FirstEndingAfter(s, start);
    var m, r := s[k], Removed(s, start, end).value;
    if r.freed.start <= a < r.freed.end { AttrAtHit(s, k, a); }
    if start <= a < r.freed.start { GapAttr(s, k, a); }
    if start <= m.start && end >= m.end {
      DeleteSorted(s, k);
      DeleteAttr(s, k, a);
    } else if start <= m.start {
      TrimAttr(s, k, m.(start := end), a);
    } else if end >= m.end {
      TrimAttr(s, k, m.(end := start), a);
    } else {
      var t := s[k := m.(end := start)];
      TrimAttr(s, k, m.(end := start), a);
      InsertSorted(t, k + 1, m.(start := end));
      InsertAttr(t, k + 1, m.(start := end), a);
      if m.start <= a < m.end { AttrAtHit(s, k, a); }
    }
  }

  lemma GapAttr(s: seq<Vma>, k: nat, a: nat)
    requires Sorted(s) && k < |s| && a < s[k].start && (forall i :: 0 <= i < k ==> s[i].end <= a)
    ensures AttrAt(s, a) == None
  {
    hide AlignedTo;
    assert Covered(s, a) ==> Hit(s, IndexAt(s, a), a);
  }

  /** A removal is refused exactly when it overlaps nothing, or would split an area of a full list. */
  lemma NothingRemoved(s: seq<Vma>, start: nat, end: nat)
    requires Sorted(s) && start < end
    ensures Removed(s, start, end).None? <==>
      || (forall a :: start <= a < end ==> AttrAt(s, a) == None)
      || (|s| >= MAX_VMAS && exists i :: 0 <= i < |s| && s[i].start < start && end < s[i].end)
  {
    hide AlignedTo, AttrAt;
    var k := FirstEndingAfter(s, start);
    if k == |s| || end <= s[k].start {
      forall a | start <= a < end ensures AttrAt(s, a) == None { NoneBetween(s, k, a); }
    } else {
      var a := if start <= s[k].start then s[k].start else start;
      AttrAtHit(s, k, a);
      forall i | 0 <= i < |s| && s[i].start < start && end < s[i].end ensures i == k { HitUnique(s, i, k, a); }
    }
  }

  lemma NoneBetween(s: seq<Vma>, k: nat, a: nat)
    requires Sorted(s) && k <= |s| && (forall i :: 0 <= i < k ==> s[i].end <= a) && (k < |s| ==> a < s[k].start)
    ensures AttrAt(s, a) == None
  {
    hide AlignedTo;
    assert Covered(s, a) ==> Hit(s, IndexAt(s, a), a);
  }

  lemma DeleteCoalesced(s: seq<Vma>, k: nat)
    requires Sorted(s) && Coalesced(s) && k < |s|
    ensures Coalesced(Delete(s, k))
  {
    hide AlignedTo;
    var t := Delete(s, k);
    forall i | 0 <= i && i + 1 < |t| ensures !Mergeable(t[i], t[i + 1]) {
      if i + 1 < k { assert !Mergeable(s[i], s[i + 1]); }
      else if i >= k { assert !Mergeable(s[i + 1], s[i + 2]); }
      else { assert s[k - 1].end <= s[k].start < s[k].end <= s[k + 1].start; }
    }
  }

  lemma TrimCoalesced(s: seq<Vma>, k: nat, v: Vma)
    requires Sorted(s) && Coalesced(s) && k < |s| && s[k].start <= v.start && v.end <= s[k].end
    requires AttrOf(v) == AttrOf(s[k])
    ensures Coalesced(s[k := v])
  {
    hide AlignedTo;
    var t := s[k := v];
    forall i | 0 <= i && i + 1 < |t| ensures !Mergeable(t[i], t[i + 1]) {
      assert !Mergeable(s[i], s[i + 1]) && s[i].end <= s[i + 1].start;
    }
  }

  /** mm_remove_vma keeps the list maximally coalesced. */
  lemma RemovedCoalesced(s: seq<Vma>, start: nat, end: nat)
    requires Sorted(s) && Coalesced(s) && Removed(s, start, end).Some?
    ensures Coalesced(Removed(s, start, end).value.rest) && |Removed(s, start, end).value.rest| <= |s| + 1
  {
    hide AlignedTo, Sorted;
    var k := FirstEndingAfter(s, start);
    var m, t := s[k], Removed(s, start, end).value.rest;
    if start <= m.start && end >= m.end {
      DeleteCoalesced(s, k);
    } else if start <= m.start {
      TrimCoalesced(s, k, m.(start := end));
    } else {
      TrimCoalesced(s, k, m.(end := start));
      if end < m.end {
        var u := s[k := m.(end := start)];
        forall i | 0 <= i && i + 1 < |t| ensures !Mergeable(t[i], t[i + 1]) {
          if i < k { assert !Mergeable(u[i], u[i + 1]); }
          if i > k { assert !Mergeable(s[i - 1], s[i]); }
        }
      }
    }
  }
}
