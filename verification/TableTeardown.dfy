/** mmu_free_ttbr of kernel/memory/mmu.c: the iterative, depth-first release of
    every table of one root, with an explicit stack of at most four frames. */
module TableTeardown {
  import opened Wrappers
  import opened TableForest

  datatype Visit = Visit(table: Frame, i: nat)

  function Idx(p: Place, k: nat): Index
    requires k < Level(p)
  {
    if k == 0 then p.i0 else if k == 1 then p.i1 else p.i2
  }

  /** p is the table that frame k of the stack is visiting. */
  ghost predicate OnPath(stack: seq<Visit>, root: Frame, p: Place, k: nat)
    requires k <= |stack|
  {
    p.root == root && Level(p) == k && forall j :: 0 <= j < k ==> Idx(p, j) == stack[j].i - 1
  }

  ghost predicate StackOk(stack: seq<Visit>, place: map<Frame, Place>, root: Frame) {
    && |stack| <= 4
    && forall k :: 0 <= k < |stack| ==>
         stack[k].table in place && stack[k].i <= ENTRIES && OnPath(stack, root, place[stack[k].table], k)
  }

  /** The subtree at p, which agrees with the stack above frame k, has been released. */
  ghost predicate Done(stack: seq<Visit>, p: Place, k: nat)
    decreases |stack| - k
  {
    if k >= |stack| then true
    else if Level(p) <= k then false
    else if Idx(p, k) == stack[k].i - 1 then Done(stack, p, k + 1)
    else Idx(p, k) < stack[k].i - 1
  }

  ghost predicate Agrees(stack: seq<Visit>, p: Place, k: nat)
    requires k <= |stack|
  {
    Level(p) >= k && forall j :: 0 <= j < k ==> Idx(p, j) == stack[j].i - 1
  }

  lemma PlaceExt(p: Place, q: Place)
    requires p.root == q.root && Level(p) == Level(q) && forall j :: 0 <= j < Level(p) ==> Idx(p, j) == Idx(q, j)
    ensures p == q
  {
    if Level(p) > 0 { assert Idx(p, 0) == Idx(q, 0); }
    if Level(p) > 1 { assert Idx(p, 1) == Idx(q, 1); }
    if Level(p) > 2 { assert Idx(p, 2) == Idx(q, 2); }
  }

  /** Releasing the table on top finishes exactly that table. */
  lemma {:induction false} PopDone(stack: seq<Visit>, place: map<Frame, Place>, root: Frame, p: Place, k: nat)
    requires StackOk(stack, place, root) && k < |stack| && stack[|stack| - 1].i == ENTRIES
    requires p.root == root && Agrees(stack, p, k)
    ensures var top := place[stack[|stack| - 1].table];
            Done(stack[..|stack| - 1], p, k) <==> Done(stack, p, k) || p == top
    decreases |stack| - k
  {
    var n := |stack| - 1;
    var rest, top := stack[..n], place[stack[n].table];
    assert OnPath(stack, root, top, n);
    if k == n {
      if Level(p) <= n { PlaceExt(p, top); }
    } else if Level(p) > k && Idx(p, k) == stack[k].i - 1 {
      PopDone(stack, place, root, p, k + 1);
    } else if p == top {
      assert Idx(top, k) == stack[k].i - 1;
    }
  }

  /** p hangs at entry i of the table on top, or beneath it. */
  ghost predicate AtTop(stack: seq<Visit>, p: Place, i: int)
    requires stack != []
  {
    var n := |stack| - 1;
    Agrees(stack, p, n) && Level(p) > n && Idx(p, n) == i
  }

  function Advance(stack: seq<Visit>): seq<Visit>
    requires stack != []
  {
    var n := |stack| - 1;
    stack[n := Visit(stack[n].table, stack[n].i + 1)]
  }

  /** Moving on to the next entry finishes nothing but what hangs at this one. */
  lemma {:induction false} AdvanceDone(stack: seq<Visit>, p: Place, k: nat)
    requires k < |stack| && Agrees(stack, p, k)
    ensures Done(Advance(stack), p, k) <==> Done(stack, p, k) || AtTop(stack, p, stack[|stack| - 1].i)
    ensures AtTop(stack, p, stack[|stack| - 1].i) ==> !Done(stack, p, k)
    decreases |stack| - k
  {
    if k < |stack| - 1 && Level(p) > k && Idx(p, k) == stack[k].i - 1 {
      AdvanceDone(stack, p, k + 1);
    }
  }

  /** Descending into the entry just passed puts off what hangs there. */
  lemma {:induction false} PushDone(stack: seq<Visit>, c: Frame, p: Place, k: nat)
    requires k < |stack| && Agrees(stack, p, k)
    ensures Done(stack + [Visit(c, 0)], p, k) <==> Done(stack, p, k) && !AtTop(stack, p, stack[|stack| - 1].i - 1)
    decreases |stack| - k
  {
    if k < |stack| - 1 && Level(p) > k && Idx(p, k) == stack[k].i - 1 {
      PushDone(stack, c, p, k + 1);
    }
  }

  /** Nothing hangs at an entry without a table descriptor, nor below level 3. */
  lemma SkipNothing(mem: Mem, place: map<Frame, Place>, stack: seq<Visit>, root: Frame, t: Frame)
    requires Forest(mem, place) && StackOk(stack, place, root) && stack != [] && t in place && place[t].root == root
    requires var v := stack[|stack| - 1]; v.i < ENTRIES && (place[v.table].L3? || !Slot(mem, v.table, v.i).Table?)
    ensures !AtTop(stack, place[t], stack[|stack| - 1].i)
  {
    var v, p := stack[|stack| - 1], place[t];
    var q := place[v.table];
    assert OnPath(stack, root, q, |stack| - 1);
    if AtTop(stack, p, v.i) {
      if Level(q) > 0 { assert Idx(p, 0) == Idx(q, 0); }
      if Level(q) > 1 { assert Idx(p, 1) == Idx(q, 1); }
      NothingBelow(mem, place, v.table, v.i, p);
    }
  }

  /** The stack after descending is still a path in the forest. */
  lemma PushStack(mem: Mem, place: map<Frame, Place>, stack: seq<Visit>, root: Frame, c: Frame)
    requires Forest(mem, place) && StackOk(stack, place, root) && stack != []
    requires var v := stack[|stack| - 1];
             v.i < ENTRIES && !place[v.table].L3? && Slot(mem, v.table, v.i).Table? && c == Slot(mem, v.table, v.i).addr
    ensures StackOk(Advance(stack), place, root) && StackOk(Advance(stack) + [Visit(c, 0)], place, root)
  {
    var v := stack[|stack| - 1];
    var next := Advance(stack);
    assert EntryOk(mem, place, v.table, v.i);
    assert OnPath(stack, root, place[v.table], |stack| - 1);
    forall k | 0 <= k < |stack| ensures OnPath(next + [Visit(c, 0)], root, place[stack[k].table], k) {
      assert OnPath(stack, root, place[stack[k].table], k);
    }
    assert OnPath(next + [Visit(c, 0)], root, place[c], |stack|);
  }

  /** A table on the stack is still to be released. */
  lemma {:induction false} StackNotDone(stack: seq<Visit>, place: map<Frame, Place>, root: Frame, m: nat, k: nat)
    requires StackOk(stack, place, root) && k <= m < |stack|
    ensures !Done(stack, place[stack[m].table], k)
    decreases m - k
  {
    assert OnPath(stack, root, place[stack[m].table], m);
    if k < m { StackNotDone(stack, place, root, m, k + 1); }
  }

  /** freed lists exactly the tables of root the stack has finished with. */
  ghost predicate Finished(stack: seq<Visit>, place: map<Frame, Place>, root: Frame, freed: seq<Frame>) {
    forall t :: t in freed <==> t in place && place[t].root == root && Done(stack, place[t], 0)
  }

  lemma FinishedPop(mem: Mem, place: map<Frame, Place>, stack: seq<Visit>, root: Frame, freed: seq<Frame>)
    requires Forest(mem, place) && StackOk(stack, place, root) && stack != [] && Finished(stack, place, root, freed)
    requires stack[|stack| - 1].i == ENTRIES
    ensures var n := |stack| - 1;
            var t := stack[n].table;
            StackOk(stack[..n], place, root) && t !in freed && Finished(stack[..n], place, root, [t] + freed)
  {
    var n := |stack| - 1;
    var t := stack[n].table;
    StackNotDone(stack, place, root, n, 0);
    assert OnPath(stack, root, place[t], n);
    forall k | 0 <= k < n ensures OnPath(stack[..n], root, place[stack[k].table], k) {
      assert OnPath(stack, root, place[stack[k].table], k);
    }
    forall u ensures u in [t] + freed <==> u in place && place[u].root == root && Done(stack[..n], place[u], 0) {
      if u in place && place[u].root == root {
        PopDone(stack, place, root, place[u], 0);
        if place[u] == place[t] { PlaceInjective(mem, place, u, t); }
      }
    }
  }

  lemma FinishedSkip(mem: Mem, place: map<Frame, Place>, stack: seq<Visit>, root: Frame, freed: seq<Frame>)
    requires Forest(mem, place) && StackOk(stack, place, root) && stack != [] && Finished(stack, place, root, freed)
    requires var v := stack[|stack| - 1]; v.i < ENTRIES && (place[v.table].L3? || !Slot(mem, v.table, v.i).Table?)
    ensures StackOk(Advance(stack), place, root) && Finished(Advance(stack), place, root, freed)
  {
    forall k | 0 <= k < |stack| ensures OnPath(Advance(stack), root, place[stack[k].table], k) {
      assert OnPath(stack, root, place[stack[k].table], k);
    }
    forall u | u in place && place[u].root == root
      ensures Done(Advance(stack), place[u], 0) <==> Done(stack, place[u], 0)
    {
      AdvanceDone(stack, place[u], 0);
      SkipNothing(mem, place, stack, root, u);
    }
  }

  lemma FinishedPush(mem: Mem, place: map<Frame, Place>, stack: seq<Visit>, root: Frame, freed: seq<Frame>, c: Frame)
    requires Forest(mem, place) && StackOk(stack, place, root) && stack != [] && Finished(stack, place, root, freed)
    requires var v := stack[|stack| - 1];
             v.i < ENTRIES && !place[v.table].L3? && Slot(mem, v.table, v.i).Table? && c == Slot(mem, v.table, v.i).addr
    ensures var next := Advance(stack) + [Visit(c, 0)]; StackOk(next, place, root) && Finished(next, place, root, freed)
  {
    PushStack(mem, place, stack, root, c);
    var next := Advance(stack) + [Visit(c, 0)];
    forall u | u in place && place[u].root == root ensures Done(next, place[u], 0) <==> Done(stack, place[u], 0) {
      AdvanceDone(stack, place[u], 0);
      PushDone(Advance(stack), c, place[u], 0);
    }
  }

  ghost function TablesOf(place: map<Frame, Place>, root: Frame): set<Frame> {
    set t | t in place && place[t].root == root
  }

  /** Taking all tables of one root away moves no table of another. */
  lemma OtherLocate(mem: Mem, place: map<Frame, Place>, root: Frame, q: Place)
    requires Forest(mem, place) && IsRoot(place, q.root) && q.root != root
    ensures Locate(mem - TablesOf(place, root), q) == Locate(mem, q)
    decreases Level(q)
  {
    match q
    case L0(_) =>
    case L1(r, a) =>
    case L2(r, a, b) =>
      OtherLocate(mem, place, root, L1(r, a));
      if T1(mem, r, a).Some? { LocateInverse(mem, place, L1(r, a)); }
    case L3(r, a, b, c) =>
      OtherLocate(mem, place, root, L2(r, a, b));
      if T2(mem, r, a, b).Some? { LocateInverse(mem, place, L2(r, a, b)); }
  }

  lemma OtherWalk(mem: Mem, place: map<Frame, Place>, root: Frame, q: Page)
    requires Forest(mem, place) && IsRoot(place, q.root) && q.root != root
    ensures Walk(mem - TablesOf(place, root), q) == Walk(mem, q)
    ensures IsBlock(mem - TablesOf(place, root), Region(q)) == IsBlock(mem, Region(q))
  {
    var p2 := L2(q.root, q.i0, q.i1);
    OtherLocate(mem, place, root, p2);
    if Locate(mem, p2).Some? {
      LocateInverse(mem, place, p2);
      if Locate(mem, Region(q)).Some? { LocateInverse(mem, place, Region(q)); }
    }
  }

  lemma OtherForest(mem: Mem, place: map<Frame, Place>, root: Frame)
    requires Forest(mem, place)
    ensures Forest(mem - TablesOf(place, root), place - TablesOf(place, root))
  {
    var gone := TablesOf(place, root);
    var mem', place' := mem - gone, place - gone;
    forall t | t in place' ensures Locate(mem', place[t]) == Some(t) {
      OtherLocate(mem, place, root, place[t]);
      assert Locate(mem, place[t]) == Some(t);
    }
    forall t, i: Index | t in place' ensures EntryOk(mem', place', t, i) {
      assert EntryOk(mem, place, t, i);
    }
  }

  lemma FinishedStart(place: map<Frame, Place>, root: Frame)
    requires IsRoot(place, root)
    ensures StackOk([Visit(root, 0)], place, root) && Finished([Visit(root, 0)], place, root, [])
  {
  }

  lemma FinishedEnd(place: map<Frame, Place>, root: Frame, freed: seq<Frame>)
    requires Finished([], place, root, freed)
    ensures forall t :: t in freed <==> t in TablesOf(place, root)
  {
  }

  /** The table on top is still allocated, and is at the level its frame says. */
  lemma TopLive(place: map<Frame, Place>, stack: seq<Visit>, root: Frame, freed: seq<Frame>)
    requires StackOk(stack, place, root) && stack != [] && Finished(stack, place, root, freed)
    ensures var v := stack[|stack| - 1];
            && v.table in place && v.table !in freed && v.i <= ENTRIES && Level(place[v.table]) == |stack| - 1
            && |stack| <= 4
  {
    var n := |stack| - 1;
    assert OnPath(stack, root, place[stack[n].table], n);
    StackNotDone(stack, place, root, n, 0);
  }
}
