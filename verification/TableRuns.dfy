/** Whole runs of the mapping operations on one root, the kernel's or a user's, and the
    life of a user root from mmu_new_ttbr to mmu_free_ttbr. */
module TableRuns {
  import opened Wrappers
  import opened TableForest
  import opened TableTeardown
  import opened Descriptors
  import opened PageTables

  datatype Op =
    | MapPage(va: Address, pa: Address, attrIndex: bv64, memAttr: bv8, level: Privilege)
    | MapBlock(va: Address, pa: Address, attrIndex: bv64, memAttr: bv8, level: Privilege)
    | Unmap(va: Address)
    | UnmapTable(va: Address, pa: Address)
    | Touch(va: Address)

  /** The globals the mapping operations read. */
  datatype Globals = Globals(roots: set<Frame>, ramStart: nat, ramEnd: nat)

  function GlobalsOf(t: Tables): Globals { Globals(t.kernelRoots, t.ramStart, t.ramEnd) }

  /** v' is the page map after op on the root. */
  ghost predicate Step(c: Globals, v: View, root: Frame, op: Op, v': View) {
    match op
    case MapPage(va, pa, ai, ma, level) =>
      && !(root in c.roots && level.User?)
      && MapPageView(v, PageOf(root, va), pa, Attributes(ai, ma, level),
                     root in c.roots && c.ramStart <= pa - pa % GRANULE < c.ramEnd) == Some(v')
    case MapBlock(va, pa, ai, ma, level) =>
      var b := Region(PageOf(root, va));
      && va % 0x20_0000 == 0 && pa % 0x20_0000 == 0
      && exists tabled: bool ::
           && (tabled || b in v.blocks || Unmapped(v, b))
           && MapBlockView(v, b, FrameOf(pa), Attributes(ai, ma, level), tabled) == Some(v')
    case Unmap(va) =>
      var q := PageOf(root, va);
      v' == if q in v.pages then Drop(Split(v, Region(q)), q) else v
    case UnmapTable(va, pa) =>
      UnmapView(v, PageOf(root, va), FrameOf(pa)) == Some(v')
    case Touch(va) =>
      v' == SetAfView(v, PageOf(root, va))
  }

  /** The page map allows no step: the operation panics whatever the tables look like. */
  ghost predicate Refused(c: Globals, v: View, root: Frame, op: Op) {
    forall v' :: !Step(c, v, root, op, v')
  }

  /** Every step is a step of the page map: the run refines a run on page maps. */
  ghost predicate Refines(c: Globals, views: seq<View>, root: Frame, ops: seq<Op>) {
    |views| == |ops| + 1 && forall i :: 0 <= i < |ops| ==> Step(c, views[i], root, ops[i], views[i + 1])
  }

  /** One operation, which panics only where the page map refuses it or tables run out. */
  method Apply(t: Tables, root: Frame, op: Op) returns (ok: bool)
    requires t.Valid() && IsRoot(t.place, root)
    modifies t
    ensures t.Valid() && t.Owned() == old(t.Owned()) && Confined(old(t.place), t.place, root)
    ensures ok ==> Step(GlobalsOf(t), old(t.view), root, op, t.view)
    ensures !ok ==> |old(t.pool)| < 3 || Refused(GlobalsOf(t), old(t.view), root, op)
    ensures |t.pool| >= |old(t.pool)| - 3
    ensures ok && root !in t.kernelRoots && !op.UnmapTable? ==> Empties(t.mem, t.place) <= old(Empties(t.mem, t.place))
  {
    hide Forest, Shows, Empty, PageOf, FrameOf, Attributes, MapPageView, MapBlockView, UnmapView;
    match op
    case MapPage(va, pa, ai, ma, level) =>
      ok := t.MapPage(root, va, pa, ai, ma, level);
    case MapBlock(va, pa, ai, ma, level) =>
      ok := ApplyBlock(t, root, va, pa, ai, ma, level);
    case Unmap(va) =>
      var found;
      ok, found := t.UnmapAndGetPa(root, va);
    case UnmapTable(va, pa) =>
      ok := t.UnmapTable(root, va, pa);
    case Touch(va) =>
      var hit := t.SetAccessFlag(root, va);
      ok := true;
  }

  method ApplyBlock(t: Tables, root: Frame, va: Address, pa: Address, ai: bv64, ma: bv8, level: Privilege)
    returns (ok: bool)
    requires t.Valid() && IsRoot(t.place, root)
    modifies t
    ensures t.Valid() && t.Owned() == old(t.Owned()) && Confined(old(t.place), t.place, root)
    ensures ok ==> Step(GlobalsOf(t), old(t.view), root, MapBlock(va, pa, ai, ma, level), t.view)
    ensures !ok ==> |old(t.pool)| < 2 || Refused(GlobalsOf(t), old(t.view), root, MapBlock(va, pa, ai, ma, level))
    ensures |t.pool| >= |old(t.pool)| - 2
    ensures ok ==> Empties(t.mem, t.place) <= old(Empties(t.mem, t.place))
  {
    hide Forest, Shows, Empty, PageOf, FrameOf, Attributes, MapBlockView, Unmapped, Locate;
    PageOfRoot(root, va);
    ghost var v, b, attr := t.view, Region(PageOf(root, va)), Attributes(ai, ma, level);
    ghost var tabled := Locate(t.mem, b).Some?;
    if !tabled && b !in v.blocks { UntabledEmpty(t.mem, t.place, v, b); }
    OneMeaning(v, b, FrameOf(pa), attr, tabled);
    ok := t.MapBlock(root, va, pa, ai, ma, level);
  }

  /** Where a region may or may not have a table, both agree on whether a block fits. */
  lemma OneMeaning(v: View, b: Place, base: Frame, attr: bv64, tabled: bool)
    requires b.L3? && (tabled || b in v.blocks || Unmapped(v, b))
    ensures MapBlockView(v, b, base, attr, tabled).None? ==>
              forall other: bool :: (other || b in v.blocks || Unmapped(v, b)) ==>
                MapBlockView(v, b, base, attr, other).None?
  {
  }

  /** No step on one root changes what another root translates. */
  lemma StepElsewhere(c: Globals, v: View, root: Frame, op: Op, v': View)
    requires Step(c, v, root, op, v')
    ensures Without(v', root) == Without(v, root)
  {
    hide PageOf, FrameOf, Attributes, Remap;
    PageOfRoot(root, op.va);
    var b := Region(PageOf(root, op.va));
    assert forall q :: q in PagesOf(b) ==> q.root == root;
    assert Without(v', root).pages == Without(v, root).pages;
    assert Without(v', root).blocks == Without(v, root).blocks;
  }

  /** Any sequence of operations, with the page map after each. A run that stops has met
      an operation that the page map refuses, or has used up the pool. */
  method Run(t: Tables, root: Frame, ops: seq<Op>) returns (ok: bool, ghost views: seq<View>)
    requires t.Valid() && IsRoot(t.place, root)
    modifies t
    ensures t.Valid() && t.Owned() == old(t.Owned()) && Confined(old(t.place), t.place, root)
    ensures 0 < |views| <= |ops| + 1 && views[0] == old(t.view)
    ensures Refines(GlobalsOf(t), views, root, ops[..|views| - 1])
    ensures ok ==> |views| == |ops| + 1 && views[|ops|] == t.view
    ensures !ok ==> |views| <= |ops|
    ensures !ok ==> |old(t.pool)| < 3 * |views| || Refused(GlobalsOf(t), views[|views| - 1], root, ops[|views| - 1])
    ensures forall i :: 0 <= i < |views| ==> Without(views[i], root) == Without(old(t.view), root)
    ensures ok && root !in t.kernelRoots && (forall i :: 0 <= i < |ops| ==> !ops[i].UnmapTable?) ==>
              Empties(t.mem, t.place) <= old(Empties(t.mem, t.place))
  {
    hide Forest, Shows, Empty, Step, Without, Refused;
    views := [t.view];
    var i := 0;
    while i < |ops|
      invariant 0 <= i <= |ops| && |views| == i + 1 && views[0] == old(t.view) && views[i] == t.view
      invariant t.Valid() && t.Owned() == old(t.Owned()) && Confined(old(t.place), t.place, root)
      invariant |t.pool| >= |old(t.pool)| - 3 * i
      invariant forall k :: 0 <= k < i ==> Step(GlobalsOf(t), views[k], root, ops[k], views[k + 1])
      invariant forall k :: 0 <= k <= i ==> Without(views[k], root) == Without(old(t.view), root)
      invariant root !in t.kernelRoots && (forall i :: 0 <= i < |ops| ==> !ops[i].UnmapTable?) ==>
                  Empties(t.mem, t.place) <= old(Empties(t.mem, t.place))
    {
      ghost var v := t.view;
      ok := Apply(t, root, ops[i]);
      if !ok { return; }
      StepElsewhere(GlobalsOf(t), v, root, ops[i], t.view);
      views := views + [t.view];
      i := i + 1;
    }
    return true, views;
  }

  /** A table that is not empty leads to a page, if those below it are not empty either. */
  lemma {:induction false} PageBelow(mem: Mem, place: map<Frame, Place>, v: View, t: Frame) returns (q: Page)
    requires Forest(mem, place) && Shows(mem, place, v) && t in place && !Empty(mem[t])
    requires forall u :: u in place && place[u].root == place[t].root && !place[u].L0? ==> !Empty(mem[u])
    ensures q in v.pages && q.root == place[t].root
    ensures place[t].L3? ==> Region(q) == place[t]
    ensures place[t].L2? ==> (q.i0, q.i1) == (place[t].i0, place[t].i1)
    ensures place[t].L1? ==> q.i0 == place[t].i0
    decreases 3 - Level(place[t])
  {
    hide Shows;
    TableSize(mem, place, t);
    var k: Index :| !mem[t][k].Absent?;
    if place[t].L3? {
      q := PageIn(place[t], k);
      LeafMeaning(mem, place, v, q, t);
    } else {
      ChildEntry(mem, place, t, k);
      if Slot(mem, t, k).Block? {
        q := PageIn(Child(place[t], k), 0);
        SlotMeaning(mem, place, v, q, t);
      } else {
        q := PageBelow(mem, place, v, Slot(mem, t, k).addr);
      }
    }
  }

  /** With no empty table left behind, an address space that maps nothing owns its root and nothing else. */
  lemma OnlyRootLeft(mem: Mem, place: map<Frame, Place>, v: View, root: Frame)
    requires Forest(mem, place) && Shows(mem, place, v) && IsRoot(place, root)
    requires forall t :: t in Empties(mem, place) ==> place[t].root != root
    requires forall q :: q in v.pages ==> q.root != root
    ensures TablesOf(place, root) == {root}
  {
    forall t | t in TablesOf(place, root) ensures t == root {
      if !place[t].L0? {
        var q := PageBelow(mem, place, v, t);
      } else {
        PlaceInjective(mem, place, t, root);
      }
    }
  }

  /** An address space from creation to teardown: whatever was mapped in between,
      no other address space changes and every table frame is back in the pool. It fails
      only with too small a pool or at an operation that the page map refuses. */
  method Lifetime(t: Tables, ops: seq<Op>) returns (ok: bool, root: Option<Frame>, ghost views: seq<View>)
    requires t.Valid() && t.kernelRoots <= t.mem.Keys
    modifies t
    ensures t.Valid()
    ensures ok ==> t.view == old(t.view) && t.place == old(t.place)
    ensures ok ==> |t.pool| == |old(t.pool)| && multiset(t.pool) == multiset(old(t.pool))
    ensures (root.None? <==> old(t.pool) == []) && (root.None? ==> !ok)
    ensures root.Some? ==>
              && 0 < |views| <= |ops| + 1 && views[0] == old(t.view)
              && Refines(GlobalsOf(t), views, root.value, ops[..|views| - 1])
    ensures ok ==> |views| == |ops| + 1
    ensures root.Some? && !ok ==>
              && 0 < |views| <= |ops|
              && (|old(t.pool)| <= 3 * |views|
                  || Refused(GlobalsOf(t), views[|views| - 1], root.value, ops[|views| - 1]))
  {
    hide Forest, Shows, Empty, Refines, Refused;
    SameKeys(t.mem, t.place);
    root := t.NewTtbr();
    if root.None? { return false, None, []; }
    WithoutNew(old(t.mem), old(t.place), old(t.view), root.value);
    ok, views := Run(t, root.value, ops);
    if !ok { return; }
    PlacesRestored(old(t.mem), old(t.place), t.place, root.value);
    t.FreeTtbr(root.value);
    SameKeys(t.mem, t.place);
    SamePool(old(t.pool), t.pool, t.mem.Keys);
  }

  lemma PlacesRestored(mem: Mem, place0: map<Frame, Place>, place: map<Frame, Place>, root: Frame)
    requires Forest(mem, place0) && root !in place0 && Confined(place0[root := L0(root)], place, root)
    ensures place - TablesOf(place, root) == place0
  {
    forall u | u in place0 ensures u in place && place[u] == place0[u] && place0[u].root != root {
      TableSize(mem, place0, u);
    }
  }

  lemma WithoutNew(mem: Mem, place: map<Frame, Place>, v: View, n: Frame)
    requires Shows(mem, place, v) && n !in place
    ensures Without(v, n) == v
  {
    assert Without(v, n).pages == v.pages && Without(v, n).blocks == v.blocks;
  }

  /** Two duplicate-free lists of the same frames are permutations of each other. */
  lemma SamePool(a: seq<Frame>, b: seq<Frame>, used: set<Frame>)
    requires (forall i, j :: 0 <= i < j < |a| ==> a[i] != a[j]) && (forall i, j :: 0 <= i < j < |b| ==> b[i] != b[j])
    requires (forall n :: n in a ==> n !in used) && (forall n :: n in b ==> n !in used)
    requires used + (set n | n in a) == used + set n | n in b
    ensures multiset(a) == multiset(b) && |a| == |b|
  {
    assert forall n :: n in a <==> n in used + (set m | m in a) && n !in used;
    assert forall n :: n in b <==> n in used + (set m | m in b) && n !in used;
    Multiplicity(a);
    Multiplicity(b);
    assert multiset(a) == multiset(b);
    assert |multiset(a)| == |a| && |multiset(b)| == |b|;
  }

  lemma {:induction false} Multiplicity(a: seq<Frame>)
    requires forall i, j :: 0 <= i < j < |a| ==> a[i] != a[j]
    ensures forall n :: multiset(a)[n] == if n in a then 1 else 0
  {
    if a != [] {
      Multiplicity(a[1..]);
      assert a == [a[0]] + a[1..];
    }
  }
}
