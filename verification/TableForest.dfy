/** Translation tables of kernel/memory/mmu.c as a forest in physical memory.

    `mem` holds the 4 KB frames in use as tables. `place` is the proof's record
    of where each of them hangs. Forest says that every table descriptor leads
    to a table recorded exactly one step below, and that every recorded table
    is found again by walking to its place: so tables are never shared, never
    cyclic and never lost. The lemmas give the effect of the six elementary
    writes the kernel makes. */
module TableForest {
  import opened Wrappers

  const ENTRIES := 512
  const FRAMES := 0x100_0000_0000

  type Frame = nat
  type Index = i: nat | i < ENTRIES
  type Mem = map<Frame, seq<Pte>>

  /** Absent is any word with bit 0 clear, Block a word ending in 01, Table one
      ending in 11. At level 3 the Table type denotes a 4 KB page. */
  datatype Pte = Absent | Block(addr: Frame, attr: bv64) | Table(addr: Frame, attr: bv64)

  datatype Place =
    | L0(root: Frame)
    | L1(root: Frame, i0: Index)
    | L2(root: Frame, i0: Index, i1: Index)
    | L3(root: Frame, i0: Index, i1: Index, i2: Index)

  datatype Page = Page(root: Frame, i0: Index, i1: Index, i2: Index, i3: Index)
  datatype Leaf = Leaf(frame: Frame, attr: bv64)

  function Level(p: Place): nat {
    match p case L0(_) => 0 case L1(_, _) => 1 case L2(_, _, _) => 2 case L3(_, _, _, _) => 3
  }

  function Child(p: Place, i: Index): Place
    requires !p.L3?
  {
    match p
    case L0(r) => L1(r, i)
    case L1(r, a) => L2(r, a, i)
    case L2(r, a, b) => L3(r, a, b, i)
  }

  function Slot(mem: Mem, t: Frame, i: Index): Pte {
    if t in mem && |mem[t]| == ENTRIES then mem[t][i] else Absent
  }

  function Step(mem: Mem, t: Option<Frame>, i: Index): Option<Frame> {
    if t.Some? && Slot(mem, t.value, i).Table? then Some(Slot(mem, t.value, i).addr) else None
  }

  function T1(mem: Mem, r: Frame, i0: Index): Option<Frame> { Step(mem, Some(r), i0) }
  function T2(mem: Mem, r: Frame, i0: Index, i1: Index): Option<Frame> { Step(mem, T1(mem, r, i0), i1) }
  function T3(mem: Mem, r: Frame, i0: Index, i1: Index, i2: Index): Option<Frame> {
    Step(mem, T2(mem, r, i0, i1), i2)
  }

  /** The table found by walking table descriptors to a place. */
  function Locate(mem: Mem, p: Place): Option<Frame> {
    match p
    case L0(r) => Some(r)
    case L1(r, a) => T1(mem, r, a)
    case L2(r, a, b) => T2(mem, r, a, b)
    case L3(r, a, b, c) => T3(mem, r, a, b, c)
  }

  function BlockAt(mem: Mem, p: Place): Pte
    requires p.L3?
  {
    var t2 := T2(mem, p.root, p.i0, p.i1);
    if t2.Some? then Slot(mem, t2.value, p.i2) else Absent
  }

  predicate IsBlock(mem: Mem, p: Place)
    requires p.L3?
  {
    BlockAt(mem, p).Block?
  }

  function Region(q: Page): Place { L3(q.root, q.i0, q.i1, q.i2) }

  /** What the hardware walk yields for a page. */
  function Walk(mem: Mem, p: Page): Option<Leaf> {
    var e := BlockAt(mem, L3(p.root, p.i0, p.i1, p.i2));
    match e
    case Absent => None
    case Block(b, a) => Some(Leaf(b + p.i3, a))
    case Table(t, _) =>
      var l := Slot(mem, t, p.i3);
      if l.Table? then Some(Leaf(l.addr, l.attr)) else None
  }

  /** A 2 MB aligned frame number within PTE_ADDR_MASK. */
  predicate BlockBase(b: Frame) { b % ENTRIES == 0 && b + ENTRIES <= FRAMES }

  ghost predicate EntryOk(mem: Mem, place: map<Frame, Place>, t: Frame, i: Index)
    requires t in place
  {
    var e := Slot(mem, t, i);
    && (e.Block? ==> place[t].L2? && BlockBase(e.addr))
    && (e.Table? && !place[t].L3? ==> e.addr in place && place[e.addr] == Child(place[t], i))
  }

  ghost predicate Forest(mem: Mem, place: map<Frame, Place>) {
    && mem.Keys == place.Keys
    && (forall t :: t in mem ==> |mem[t]| == ENTRIES)
    && (forall t :: t in place ==> place[t].root in place && place[place[t].root] == L0(place[t].root))
    && (forall t, i: Index :: t in place ==> EntryOk(mem, place, t, i))
    && (forall t {:trigger Locate(mem, place[t])} :: t in place ==> Locate(mem, place[t]) == Some(t))
  }

  predicate IsRoot(place: map<Frame, Place>, r: Frame) { r in place && place[r] == L0(r) }

  /** Walking from a root to any place ends at the table recorded there. */
  lemma LocateInverse(mem: Mem, place: map<Frame, Place>, p: Place)
    requires Forest(mem, place) && IsRoot(place, p.root) && Locate(mem, p).Some?
    ensures var t := Locate(mem, p).value; t in place && place[t] == p
    decreases Level(p)
  {
    match p
    case L0(_) =>
    case L1(r, a) => assert EntryOk(mem, place, r, a);
    case L2(r, a, b) =>
      LocateInverse(mem, place, L1(r, a));
      assert EntryOk(mem, place, T1(mem, r, a).value, b);
    case L3(r, a, b, c) =>
      LocateInverse(mem, place, L2(r, a, b));
      assert EntryOk(mem, place, T2(mem, r, a, b).value, c);
  }

  /** No two tables share a place, so no table is referenced twice. */
  lemma PlaceInjective(mem: Mem, place: map<Frame, Place>, t: Frame, u: Frame)
    requires Forest(mem, place) && t in place && u in place && place[t] == place[u]
    ensures t == u
  {
    assert Locate(mem, place[t]) == Some(t);
  }

  /** Each non-root table is named by exactly one descriptor in the whole forest. */
  lemma ReferencedOnce(mem: Mem, place: map<Frame, Place>, t: Frame, i: Index, u: Frame, j: Index)
    requires Forest(mem, place) && t in place && u in place && !place[t].L3? && !place[u].L3?
    requires Slot(mem, t, i).Table? && Slot(mem, u, j).Table? && Slot(mem, t, i).addr == Slot(mem, u, j).addr
    ensures t == u && i == j
  {
    assert EntryOk(mem, place, t, i) && EntryOk(mem, place, u, j);
    assert place[t] == place[u];
    PlaceInjective(mem, place, t, u);
  }

  /** q is Child(p, i) or lies beneath it. */
  predicate Below(p: Place, i: Index, q: Place) {
    && p.root == q.root
    && match p
       case L0(_) => !q.L0? && q.i0 == i
       case L1(_, a) => (q.L2? || q.L3?) && q.i0 == a && q.i1 == i
       case L2(_, a, b) => q.L3? && q.i0 == a && q.i1 == b && q.i2 == i
       case L3(_, _, _, _) => false
  }

  function WriteSlot(mem: Mem, t: Frame, i: Index, e: Pte): Mem
    requires t in mem && |mem[t]| == ENTRIES
  {
    mem[t := mem[t][i := e]]
  }

  /** A write to slot (t, i) moves no table that does not hang below it. */
  lemma LocateFrame(mem: Mem, place: map<Frame, Place>, t: Frame, i: Index, e: Pte, q: Place)
    requires Forest(mem, place) && t in place && IsRoot(place, q.root) && !Below(place[t], i, q)
    ensures Locate(WriteSlot(mem, t, i, e), q) == Locate(mem, q)
    decreases Level(q)
  {
    var mem' := WriteSlot(mem, t, i, e);
    match q
    case L0(_) =>
    case L1(r, a) =>
    case L2(r, a, b) =>
      LocateFrame(mem, place, t, i, e, L1(r, a));
      if T1(mem, r, a).Some? { LocateInverse(mem, place, L1(r, a)); }
    case L3(r, a, b, c) =>
      LocateFrame(mem, place, t, i, e, L2(r, a, b));
      if T2(mem, r, a, b).Some? { LocateInverse(mem, place, L2(r, a, b)); }
  }

  /** Nothing is reached through a slot that holds no table descriptor. */
  lemma NothingBelow(mem: Mem, place: map<Frame, Place>, t: Frame, i: Index, q: Place)
    requires Forest(mem, place) && t in place && Below(place[t], i, q) && !Slot(mem, t, i).Table?
    ensures Locate(mem, q) == None
  {
    assert Locate(mem, place[t]) == Some(t);
  }

  /** The pages reached through slot (t, i). */
  predicate Covers(p: Place, i: Index, q: Page) {
    match p
    case L3(r, a, b, c) => q == Page(r, a, b, c, i)
    case _ => Below(p, i, Region(q))
  }

  /** A write to slot (t, i) changes the translation of no page outside it. */
  lemma WalkFrame(mem: Mem, place: map<Frame, Place>, t: Frame, i: Index, e: Pte, q: Page)
    requires Forest(mem, place) && t in place && IsRoot(place, q.root) && !Covers(place[t], i, q)
    ensures Walk(WriteSlot(mem, t, i, e), q) == Walk(mem, q)
    ensures IsBlock(WriteSlot(mem, t, i, e), Region(q)) == IsBlock(mem, Region(q))
  {
    var b := Region(q);
    LocateFrame(mem, place, t, i, e, L2(q.root, q.i0, q.i1));
    LocateFrame(mem, place, t, i, e, b);
    var t2 := T2(mem, q.root, q.i0, q.i1);
    if t2.Some? {
      LocateInverse(mem, place, L2(q.root, q.i0, q.i1));
      if T3(mem, q.root, q.i0, q.i1, q.i2).Some? { LocateInverse(mem, place, b); }
    }
  }

  function PageIn(p: Place, i: Index): Page
    requires p.L3?
  {
    Page(p.root, p.i0, p.i1, p.i2, i)
  }

  /** Writing a page descriptor keeps the forest and sets that page's translation. */
  lemma LeafForest(mem: Mem, place: map<Frame, Place>, t: Frame, i: Index, e: Pte)
    requires Forest(mem, place) && t in place && place[t].L3? && !e.Block?
    ensures Forest(WriteSlot(mem, t, i, e), place)
  {
    hide Locate;
    var mem' := WriteSlot(mem, t, i, e);
    forall u | u in place ensures Locate(mem', place[u]) == Some(u) {
      LocateFrame(mem, place, t, i, e, place[u]);
    }
    forall u, j: Index | u in place ensures EntryOk(mem', place, u, j) {
      assert EntryOk(mem, place, u, j);
    }
  }

  lemma LeafWalk(mem: Mem, place: map<Frame, Place>, t: Frame, i: Index, e: Pte)
    requires Forest(mem, place) && t in place && place[t].L3?
    ensures Walk(WriteSlot(mem, t, i, e), PageIn(place[t], i)) == if e.Table? then Some(Leaf(e.addr, e.attr)) else None
    ensures !IsBlock(WriteSlot(mem, t, i, e), place[t]) && !IsBlock(mem, place[t])
  {
    assert Locate(mem, place[t]) == Some(t);
    LocateFrame(mem, place, t, i, e, place[t]);
  }

  /** Writing a 2 MB block over an empty slot or another block. */
  lemma BlockForest(mem: Mem, place: map<Frame, Place>, t: Frame, i: Index, b: Frame, attr: bv64)
    requires Forest(mem, place) && t in place && place[t].L2? && !Slot(mem, t, i).Table? && BlockBase(b)
    ensures Forest(WriteSlot(mem, t, i, Block(b, attr)), place)
  {
    var e := Block(b, attr);
    var mem' := WriteSlot(mem, t, i, e);
    forall u | u in place ensures Locate(mem', place[u]) == Some(u) {
      if Below(place[t], i, place[u]) { NothingBelow(mem, place, t, i, place[u]); }
      LocateFrame(mem, place, t, i, e, place[u]);
    }
    forall u, j: Index | u in place ensures EntryOk(mem', place, u, j) {
      assert EntryOk(mem, place, u, j);
    }
  }

  lemma BlockWalk(mem: Mem, place: map<Frame, Place>, t: Frame, i: Index, b: Frame, attr: bv64, k: Index)
    requires Forest(mem, place) && t in place && place[t].L2?
    ensures Walk(WriteSlot(mem, t, i, Block(b, attr)), PageIn(Child(place[t], i), k)) == Some(Leaf(b + k, attr))
    ensures IsBlock(WriteSlot(mem, t, i, Block(b, attr)), Child(place[t], i))
  {
    assert Locate(mem, place[t]) == Some(t);
    LocateFrame(mem, place, t, i, Block(b, attr), place[t]);
  }

  /** A table that refers to no further table when hung at p. */
  ghost predicate Terminal(p: Place, fill: seq<Pte>) {
    && |fill| == ENTRIES
    && (forall k: Index :: !fill[k].Block?)
    && (!p.L3? ==> forall k: Index :: fill[k].Absent?)
  }

  function Attached(mem: Mem, t: Frame, i: Index, n: Frame, fill: seq<Pte>): Mem
    requires t in mem && |mem[t]| == ENTRIES && n != t
  {
    WriteSlot(mem[n := fill], t, i, Table(n, 0))
  }

  /** Hanging a new table below a slot that held none. */
  lemma AttachForest(mem: Mem, place: map<Frame, Place>, t: Frame, i: Index, n: Frame, fill: seq<Pte>)
    requires Forest(mem, place) && t in place && !place[t].L3? && !Slot(mem, t, i).Table? && n !in place
    requires Terminal(Child(place[t], i), fill)
    ensures Forest(Attached(mem, t, i, n, fill), place[n := Child(place[t], i)])
  {
    var mem', place' := Attached(mem, t, i, n, fill), place[n := Child(place[t], i)];
    forall u | u in place ensures Locate(mem', place[u]) == Some(u) {
      AttachLocate(mem, place, t, i, n, fill, place[u]);
    }
    assert Locate(mem', place'[n]) == Some(n) by { assert Locate(mem', place[t]) == Some(t); }
    forall u, j: Index | u in place' ensures EntryOk(mem', place', u, j) {
      if u != n { assert EntryOk(mem, place, u, j); }
    }
  }

  lemma AttachLocate(mem: Mem, place: map<Frame, Place>, t: Frame, i: Index, n: Frame, fill: seq<Pte>, q: Place)
    requires Forest(mem, place) && t in place && !place[t].L3? && !Slot(mem, t, i).Table? && n !in place
    requires IsRoot(place, q.root) && Locate(mem, q).Some?
    ensures Locate(Attached(mem, t, i, n, fill), q) == Locate(mem, q)
    decreases Level(q)
  {
    if Below(place[t], i, q) { NothingBelow(mem, place, t, i, q); }
    match q
    case L0(_) =>
    case L1(r, a) =>
    case L2(r, a, b) =>
      AttachLocate(mem, place, t, i, n, fill, L1(r, a));
      LocateInverse(mem, place, L1(r, a));
    case L3(r, a, b, c) =>
      AttachLocate(mem, place, t, i, n, fill, L2(r, a, b));
      LocateInverse(mem, place, L2(r, a, b));
  }

  /** fill says page by page what e said: nothing, or the 512 pages of a block. */
  ghost predicate SameMeaning(e: Pte, fill: seq<Pte>)
    requires |fill| == ENTRIES
  {
    match e
    case Absent => forall k: Index :: fill[k].Absent?
    case Block(b, a) => forall k: Index :: fill[k] == Table(b + k, a)
    case Table(_, _) => false
  }

  /** Nothing is translated below a slot with no table, nor below an empty table. */
  lemma NoWalk(mem: Mem, place: map<Frame, Place>, q: Page)
    requires Forest(mem, place) && IsRoot(place, q.root)
    requires var t2 := T2(mem, q.root, q.i0, q.i1); t2.Some? ==> t2.value in mem && Empty(mem[t2.value])
    ensures Walk(mem, q) == None && !IsBlock(mem, Region(q))
  {
  }

  lemma AttachWalkAside(mem: Mem, place: map<Frame, Place>, t: Frame, i: Index, n: Frame, fill: seq<Pte>, q: Page)
    requires Forest(mem, place) && t in place && !place[t].L3? && n !in place && IsRoot(place, q.root)
    requires !Slot(mem, t, i).Table?
    requires Locate(mem, L2(q.root, q.i0, q.i1)).Some? && Region(q) != Child(place[t], i)
    ensures Walk(Attached(mem, t, i, n, fill), q) == Walk(mem, q)
    ensures IsBlock(Attached(mem, t, i, n, fill), Region(q)) == (IsBlock(mem, Region(q))
                                                                 && Region(q) != Child(place[t], i))
  {
    var p2, p3 := L2(q.root, q.i0, q.i1), Region(q);
    LocateInverse(mem, place, p2);
    AttachLocate(mem, place, t, i, n, fill, p2);
    if Locate(mem, p3).Some? { LocateInverse(mem, place, p3); }
  }

  /** Hanging an empty table, or splitting a block into its 512 pages, changes no translation. */
  lemma AttachWalk(mem: Mem, place: map<Frame, Place>, t: Frame, i: Index, n: Frame, fill: seq<Pte>, q: Page)
    requires Forest(mem, place) && t in place && !place[t].L3? && n !in place && IsRoot(place, q.root)
    requires Terminal(Child(place[t], i), fill) && SameMeaning(Slot(mem, t, i), fill)
    ensures Walk(Attached(mem, t, i, n, fill), q) == Walk(mem, q)
    ensures IsBlock(Attached(mem, t, i, n, fill), Region(q)) == (IsBlock(mem, Region(q))
                                                                 && Region(q) != Child(place[t], i))
  {
    var p2, p3 := L2(q.root, q.i0, q.i1), Region(q);
    if p3 == Child(place[t], i) {
      assert Locate(mem, place[t]) == Some(t);
      AttachLocate(mem, place, t, i, n, fill, p2);
    } else if Locate(mem, p2).Some? {
      AttachWalkAside(mem, place, t, i, n, fill, q);
    } else {
      AttachForest(mem, place, t, i, n, fill);
      var mem', place' := Attached(mem, t, i, n, fill), place[n := Child(place[t], i)];
      if Locate(mem', p2).Some? {
        LocateInverse(mem', place', p2);
        assert Locate(mem', p2) == Some(n);
      }
      NoWalk(mem', place', q);
    }
  }

  function Detached(mem: Mem, t: Frame, i: Index, n: Frame): Mem
    requires t in mem && |mem[t]| == ENTRIES
  {
    WriteSlot(mem, t, i, Absent) - {n}
  }

  ghost predicate Empty(table: seq<Pte>) {
    |table| == ENTRIES && forall k: Index :: table[k].Absent?
  }

  lemma DetachLocate(mem: Mem, place: map<Frame, Place>, t: Frame, i: Index, n: Frame, q: Place)
    requires Forest(mem, place) && t in place && !place[t].L3? && n in place && place[n] == Child(place[t], i)
    requires IsRoot(place, q.root) && Locate(mem, q).Some? && q != place[n] && Empty(mem[n])
    ensures Locate(Detached(mem, t, i, n), q) == Locate(mem, q)
    decreases Level(q)
  {
    LocateInverse(mem, place, q);
    match q
    case L0(_) =>
    case L1(r, a) =>
    case L2(r, a, b) =>
      LocateInverse(mem, place, L1(r, a));
      DetachLocate(mem, place, t, i, n, L1(r, a));
    case L3(r, a, b, c) =>
      LocateInverse(mem, place, L2(r, a, b));
      DetachLocate(mem, place, t, i, n, L2(r, a, b));
  }

  /** Unhanging an empty table: the forest stays one, and no translation changes. */
  lemma DetachForest(mem: Mem, place: map<Frame, Place>, t: Frame, i: Index, n: Frame)
    requires Forest(mem, place) && t in place && !place[t].L3? && n in place && place[n] == Child(place[t], i)
    requires Empty(mem[n])
    ensures Forest(Detached(mem, t, i, n), place - {n})
  {
    hide Locate, EntryOk;
    var mem', place' := Detached(mem, t, i, n), place - {n};
    forall u | u in place' ensures Locate(mem', place[u]) == Some(u) {
      if place[u] == place[n] { PlaceInjective(mem, place, u, n); }
      DetachLocate(mem, place, t, i, n, place[u]);
    }
    forall u, j: Index | u in place' ensures EntryOk(mem', place', u, j) { DetachEntry(mem, place, t, i, n, u, j); }
  }

  lemma DetachEntry(mem: Mem, place: map<Frame, Place>, t: Frame, i: Index, n: Frame, u: Frame, j: Index)
    requires Forest(mem, place) && t in place && !place[t].L3? && n in place && place[n] == Child(place[t], i)
    requires u in place && u != n
    ensures EntryOk(Detached(mem, t, i, n), place - {n}, u, j)
  {
    hide Locate;
    assert EntryOk(mem, place, u, j);
    if Slot(mem, u, j).Table? && Slot(mem, u, j).addr == n && !place[u].L3? {
      PlaceInjective(mem, place, u, t);
    }
  }

  lemma DetachWalkAside(mem: Mem, place: map<Frame, Place>, t: Frame, i: Index, n: Frame, q: Page)
    requires Forest(mem, place) && t in place && !place[t].L3? && n in place && place[n] == Child(place[t], i)
    requires Empty(mem[n]) && IsRoot(place, q.root)
    requires Locate(mem, L2(q.root, q.i0, q.i1)).Some? && L2(q.root, q.i0, q.i1) != place[n]
    requires Region(q) != place[n]
    ensures Walk(Detached(mem, t, i, n), q) == Walk(mem, q)
    ensures IsBlock(Detached(mem, t, i, n), Region(q)) == IsBlock(mem, Region(q))
  {
    var p2, p3 := L2(q.root, q.i0, q.i1), Region(q);
    LocateInverse(mem, place, p2);
    DetachLocate(mem, place, t, i, n, p2);
    var mem' := Detached(mem, t, i, n);
    var t2 := Locate(mem, p2).value;
    assert Slot(mem', t2, q.i2) == Slot(mem, t2, q.i2);
    if Slot(mem, t2, q.i2).Table? {
      assert EntryOk(mem, place, t2, q.i2);
      assert Slot(mem', Slot(mem, t2, q.i2).addr, q.i3) == Slot(mem, Slot(mem, t2, q.i2).addr, q.i3);
    }
  }

  lemma DetachWalk(mem: Mem, place: map<Frame, Place>, t: Frame, i: Index, n: Frame, q: Page)
    requires Forest(mem, place) && t in place && !place[t].L3? && n in place && place[n] == Child(place[t], i)
    requires Empty(mem[n]) && IsRoot(place, q.root)
    ensures Walk(Detached(mem, t, i, n), q) == Walk(mem, q)
    ensures IsBlock(Detached(mem, t, i, n), Region(q)) == IsBlock(mem, Region(q))
  {
    var p2, p3 := L2(q.root, q.i0, q.i1), Region(q);
    if p3 == place[n] {
      assert Locate(mem, place[n]) == Some(n) && Locate(mem, place[t]) == Some(t);
      DetachLocate(mem, place, t, i, n, p2);
    } else if Locate(mem, p2).Some? && p2 != place[n] {
      DetachWalkAside(mem, place, t, i, n, q);
    } else {
      if p2 == place[n] { assert Locate(mem, place[n]) == Some(n); }
      NoWalk(mem, place, q);
      DetachNothing(mem, place, t, i, n, p2);
    }
  }

  lemma DetachNothing(mem: Mem, place: map<Frame, Place>, t: Frame, i: Index, n: Frame, q: Place)
    requires Forest(mem, place) && t in place && !place[t].L3? && n in place && place[n] == Child(place[t], i)
    requires Empty(mem[n]) && IsRoot(place, q.root) && (Locate(mem, q) == None || q == place[n])
    ensures Locate(Detached(mem, t, i, n), q) == None
  {
    DetachForest(mem, place, t, i, n);
    var mem', place' := Detached(mem, t, i, n), place - {n};
    if Locate(mem', q).Some? {
      LocateInverse(mem', place', q);
    }
  }
}
