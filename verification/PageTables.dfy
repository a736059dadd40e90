/** The mapping operations of kernel/memory/mmu.c on a forest of translation tables.

    The tables live in `mem`; `view` is the page map they stand for: which frame
    and attribute bits each page of each root translates to, and which 2 MB
    regions are still blocks. Every operation is specified on `view` alone.
    A result of false (or None) from an operation is the source's panic. */
module PageTables {
  import opened Wrappers
  import opened TableForest
  import opened TableTeardown
  import opened Descriptors

  const GRANULE := 4096
  const ADDRESSES := 0x1_0000_0000_0000_0000

  type Address = a: nat | a < ADDRESSES

  function PageOf(root: Frame, va: Address): Page {
    Page(root, (va / 0x80_0000_0000) % 512, (va / 0x4000_0000) % 512, (va / 0x20_0000) % 512, (va / 0x1000) % 512)
  }

  /** pa & PTE_ADDR_MASK, as a frame number. */
  function FrameOf(pa: Address): Frame { (pa / GRANULE) % FRAMES }

  /** Bits 63..48 repeat bit 47. */
  predicate Canonical(va: Address) {
    va / 0x1_0000_0000_0000 == if (va / 0x8000_0000_0000) % 2 == 1 then 0xFFFF else 0
  }

  /** They are the 128 TB at either end of the 64-bit space. */
  lemma CanonicalMeans(va: Address)
    ensures Canonical(va) <==> va < 0x8000_0000_0000 || va >= 0xFFFF_8000_0000_0000
  {
  }

  const TR_OK := 0
  const TR_ERR_PARAM := 1
  const TR_ERR_L1 := 2
  const TR_ERR_L2 := 3
  const TR_ERR_L3 := 4
  const TR_ERR_L4 := 5

  /** A canonical address is determined by its page and its offset. */
  lemma PageOfInjective(root: Frame, va: Address, vb: Address)
    requires Canonical(va) && Canonical(vb) && PageOf(root, va) == PageOf(root, vb) && va % GRANULE == vb % GRANULE
    requires (va / 0x8000_0000_0000) % 2 == (vb / 0x8000_0000_0000) % 2
    ensures va == vb
  {
    PageParts(root, va);
    PageParts(root, vb);
  }

  lemma PageParts(root: Frame, va: Address)
    ensures var q := PageOf(root, va);
            va == (va / 0x1_0000_0000_0000) * 0x1_0000_0000_0000 + q.i0 * 0x80_0000_0000 + q.i1 * 0x4000_0000
                + q.i2 * 0x20_0000 + q.i3 * 0x1000 + va % 0x1000
  {
    var a3, a2, a1, a0 := va / 0x1000, va / 0x20_0000, va / 0x4000_0000, va / 0x80_0000_0000;
    assert a3 / 512 == a2 && a2 / 512 == a1 && a1 / 512 == a0 && a0 / 512 == va / 0x1_0000_0000_0000;
  }

  lemma PageOfRoot(root: Frame, va: Address)
    ensures PageOf(root, va).root == root
  {
  }

  datatype View = View(pages: map<Page, Leaf>, blocks: set<Place>)

  function Lookup(v: View, q: Page): Option<Leaf> { if q in v.pages then Some(v.pages[q]) else None }

  function Put(v: View, q: Page, l: Leaf): View { v.(pages := v.pages[q := l]) }

  function Drop(v: View, q: Page): View { v.(pages := v.pages - {q}) }

  function Split(v: View, b: Place): View { v.(blocks := v.blocks - {b}) }

  function PagesOf(b: Place): set<Page>
    requires b.L3?
  {
    set k: nat | k < ENTRIES :: PageIn(b, k)
  }

  function PutBlock(v: View, b: Place, base: Frame, attr: bv64): View
    requires b.L3?
  {
    View(v.pages + map q | q in PagesOf(b) :: Leaf(base + q.i3, attr), v.blocks + {b})
  }

  ghost predicate ShowsAt(mem: Mem, v: View, q: Page) {
    && Walk(mem, q) == Lookup(v, q)
    && (IsBlock(mem, Region(q)) <==> Region(q) in v.blocks)
  }

  /** The tables mean exactly v. */
  ghost predicate Shows(mem: Mem, place: map<Frame, Place>, v: View) {
    && (forall q: Page :: IsRoot(place, q.root) ==> ShowsAt(mem, v, q))
    && (forall q :: q in v.pages ==> IsRoot(place, q.root))
    && (forall b :: b in v.blocks ==> b.L3? && IsRoot(place, b.root))
  }

  lemma ShowsLeaf(mem: Mem, place: map<Frame, Place>, v: View, t: Frame, i: Index, e: Pte)
    requires Forest(mem, place) && Shows(mem, place, v) && t in place && place[t].L3?
    ensures Shows(WriteSlot(mem, t, i, e), place,
                  if e.Table? then Put(v, PageIn(place[t], i), Leaf(e.addr, e.attr)) else Drop(v, PageIn(place[t], i)))
  {
    hide Forest, Walk, BlockAt;
    TableSize(mem, place, t);
    var mem', p := WriteSlot(mem, t, i, e), PageIn(place[t], i);
    var v' := if e.Table? then Put(v, p, Leaf(e.addr, e.attr)) else Drop(v, p);
    forall q: Page | IsRoot(place, q.root) ensures ShowsAt(mem', v', q) {
      assert ShowsAt(mem, v, q);
      if q == p {
        LeafWalk(mem, place, t, i, e);
      } else {
        WalkFrame(mem, place, t, i, e, q);
      }
    }
  }

  lemma ShowsBlockAt(mem: Mem, place: map<Frame, Place>, v: View, t: Frame, i: Index, b: Frame, attr: bv64, q: Page)
    requires Forest(mem, place) && ShowsAt(mem, v, q) && t in place && place[t].L2? && IsRoot(place, q.root)
    ensures ShowsAt(WriteSlot(mem, t, i, Block(b, attr)), PutBlock(v, Child(place[t], i), b, attr), q)
  {
    var c := Child(place[t], i);
    if Region(q) == c {
      BlockWalk(mem, place, t, i, b, attr, q.i3);
      assert q == PageIn(c, q.i3) && q in PagesOf(c);
    } else {
      WalkFrame(mem, place, t, i, Block(b, attr), q);
    }
  }

  lemma ShowsBlock(mem: Mem, place: map<Frame, Place>, v: View, t: Frame, i: Index, b: Frame, attr: bv64)
    requires Forest(mem, place) && Shows(mem, place, v) && t in place && place[t].L2?
    ensures Shows(WriteSlot(mem, t, i, Block(b, attr)), place, PutBlock(v, Child(place[t], i), b, attr))
  {
    hide Forest, ShowsAt;
    TableSize(mem, place, t);
    var mem', v' := WriteSlot(mem, t, i, Block(b, attr)), PutBlock(v, Child(place[t], i), b, attr);
    forall q: Page | IsRoot(place, q.root) ensures ShowsAt(mem', v', q) {
      ShowsBlockAt(mem, place, v, t, i, b, attr, q);
    }
  }

  lemma ShowsAttachAt(mem: Mem, place: map<Frame, Place>, v: View, t: Frame, i: Index, n: Frame, fill: seq<Pte>,
                      q: Page)
    requires Forest(mem, place) && ShowsAt(mem, v, q) && t in place && !place[t].L3? && n !in place
    requires Terminal(Child(place[t], i), fill) && SameMeaning(Slot(mem, t, i), fill) && IsRoot(place, q.root)
    ensures ShowsAt(Attached(mem, t, i, n, fill), Split(v, Child(place[t], i)), q)
  {
    AttachWalk(mem, place, t, i, n, fill, q);
  }

  lemma ShowsAttach(mem: Mem, place: map<Frame, Place>, v: View, t: Frame, i: Index, n: Frame, fill: seq<Pte>)
    requires Forest(mem, place) && Shows(mem, place, v) && t in place && !place[t].L3? && n !in place
    requires Terminal(Child(place[t], i), fill) && SameMeaning(Slot(mem, t, i), fill)
    ensures Shows(Attached(mem, t, i, n, fill), place[n := Child(place[t], i)], Split(v, Child(place[t], i)))
  {
    hide Forest, ShowsAt, Terminal, SameMeaning;
    TableSize(mem, place, t);
    var mem', place' := Attached(mem, t, i, n, fill), place[n := Child(place[t], i)];
    forall q: Page | IsRoot(place', q.root) ensures ShowsAt(mem', Split(v, Child(place[t], i)), q) {
      ShowsAttachAt(mem, place, v, t, i, n, fill, q);
    }
  }

  lemma ShowsDetachAt(mem: Mem, place: map<Frame, Place>, v: View, t: Frame, i: Index, n: Frame, q: Page)
    requires Forest(mem, place) && ShowsAt(mem, v, q) && t in place && !place[t].L3? && IsRoot(place, q.root)
    requires n in place && place[n] == Child(place[t], i) && Empty(mem[n])
    ensures ShowsAt(Detached(mem, t, i, n), v, q)
  {
    DetachWalk(mem, place, t, i, n, q);
  }

  lemma ShowsDetach(mem: Mem, place: map<Frame, Place>, v: View, t: Frame, i: Index, n: Frame)
    requires Forest(mem, place) && Shows(mem, place, v) && t in place && !place[t].L3?
    requires n in place && place[n] == Child(place[t], i) && Empty(mem[n])
    ensures Shows(Detached(mem, t, i, n), place - {n}, v)
  {
    hide Forest, ShowsAt, Empty;
    TableSize(mem, place, t);
    var mem' := Detached(mem, t, i, n);
    forall q: Page | IsRoot(place - {n}, q.root) ensures ShowsAt(mem', v, q) {
      ShowsDetachAt(mem, place, v, t, i, n, q);
    }
  }

  const EMPTY_TABLE: seq<Pte> := seq(ENTRIES, _ => Absent)

  /** The 512 page descriptors a block splits into. */
  function SplitTable(b: Frame, attr: bv64): seq<Pte> { seq(ENTRIES, (k: nat) => Table(b + k, attr)) }

  lemma SplitMeaning(b: Frame, attr: bv64, p: Place)
    requires p.L3?
    ensures var fill := SplitTable(b, attr); SameMeaning(Block(b, attr), fill) && Terminal(p, fill) && !Empty(fill)
  {
    assert SplitTable(b, attr)[0].Table?;
  }

  lemma TableSize(mem: Mem, place: map<Frame, Place>, t: Frame)
    requires Forest(mem, place) && t in place
    ensures mem.Keys == place.Keys && |mem[t]| == ENTRIES && IsRoot(place, place[t].root)
  {
  }

  lemma ChildEntry(mem: Mem, place: map<Frame, Place>, t: Frame, i: Index)
    requires Forest(mem, place) && t in place && !place[t].L3?
    ensures match Slot(mem, t, i)
            case Absent => true
            case Block(_, _) => place[t].L2?
            case Table(c, _) => c in place && place[c] == Child(place[t], i)
  {
    assert EntryOk(mem, place, t, i);
  }

  lemma SplitAbove(mem: Mem, place: map<Frame, Place>, v: View, p: Place)
    requires Shows(mem, place, v) && !p.L3?
    ensures Split(v, p) == v
  {
  }

  lemma NotTable(e: Pte, fill: seq<Pte>)
    requires |fill| == ENTRIES && SameMeaning(e, fill)
    ensures !e.Table?
  {
  }

  ghost function InPool(pool: seq<Frame>): set<Frame> { set n | n in pool }

  /** Tables other than roots that hold no valid entry. */
  ghost function Empties(mem: Mem, place: map<Frame, Place>): set<Frame> {
    set t | t in mem && t in place && !place[t].L0? && Empty(mem[t])
  }

  /** Hanging n below t leaves t non-empty; only n may be empty besides. */
  lemma AttachEmpties(mem: Mem, place: map<Frame, Place>, t: Frame, i: Index, n: Frame, fill: seq<Pte>)
    requires t in mem && t in place && |mem[t]| == ENTRIES && n !in place && n != t && !place[t].L3?
    ensures var rest := Empties(mem, place) - {t};
            Empties(Attached(mem, t, i, n, fill), place[n := Child(place[t], i)]) <= if Empty(fill) then rest + {n}
                else rest
  {
    assert Attached(mem, t, i, n, fill)[t][i] == Table(n, 0);
  }

  lemma LeafEmpties(mem: Mem, place: map<Frame, Place>, t: Frame, i: Index, e: Pte)
    requires t in mem && t in place && |mem[t]| == ENTRIES && !e.Absent?
    ensures Empties(WriteSlot(mem, t, i, e), place) <= Empties(mem, place) - {t}
  {
    assert WriteSlot(mem, t, i, e)[t][i] == e;
  }

  lemma OccupiedTable(mem: Mem, place: map<Frame, Place>, t: Frame, i: Index)
    requires !Slot(mem, t, i).Absent?
    ensures t !in Empties(mem, place)
  {
  }

  /** What the view says of a page, read off its level 2 slot. */
  lemma SlotMeaning(mem: Mem, place: map<Frame, Place>, v: View, q: Page, l2: Frame)
    requires Forest(mem, place) && Shows(mem, place, v) && l2 in place && place[l2] == L2(q.root, q.i0, q.i1)
    ensures match Slot(mem, l2, q.i2)
            case Absent => q !in v.pages && Region(q) !in v.blocks
            case Block(b, a) => Lookup(v, q) == Some(Leaf(b + q.i3, a)) && Region(q) in v.blocks && BlockBase(b)
            case Table(l3, _) => l3 in place && place[l3] == Region(q)
  {
    assert Locate(mem, place[l2]) == Some(l2);
    assert EntryOk(mem, place, l2, q.i2);
    assert ShowsAt(mem, v, q);
  }

  /** The same, read off its level 3 slot. */
  lemma LeafMeaning(mem: Mem, place: map<Frame, Place>, v: View, q: Page, l3: Frame)
    requires Forest(mem, place) && Shows(mem, place, v) && l3 in place && place[l3] == Region(q)
    ensures Region(q) !in v.blocks
    ensures match Slot(mem, l3, q.i3)
            case Absent => q !in v.pages
            case Block(_, _) => false
            case Table(f, a) => Lookup(v, q) == Some(Leaf(f, a))
  {
    assert Locate(mem, place[l3]) == Some(l3);
    assert EntryOk(mem, place, l3, q.i3);
    assert ShowsAt(mem, v, q);
  }

  /** Tables already in place stay where they are; new ones hang below root. */
  ghost predicate Grows(place0: map<Frame, Place>, place: map<Frame, Place>, root: Frame) {
    && (forall u :: u in place0 ==> u in place && place[u] == place0[u])
    && (forall u :: u in place && u !in place0 ==> !place[u].L0? && place[u].root == root)
  }

  /** No root, and no table of a root other than this one, comes, goes or moves. */
  ghost predicate Confined(place0: map<Frame, Place>, place: map<Frame, Place>, root: Frame) {
    && (forall u :: u in place0 && (place0[u].L0? || place0[u].root != root) ==> u in place && place[u] == place0[u])
    && (forall u :: u in place && (place[u].L0? || place[u].root != root) ==> u in place0 && place0[u] == place[u])
  }

  lemma RootNotEmpty(mem: Mem, place: map<Frame, Place>, r: Frame)
    ensures IsRoot(place, r) ==> r !in Empties(mem, place)
  {
  }

  lemma ConfinedSelf(place: map<Frame, Place>, root: Frame)
    ensures Confined(place, place, root)
  {
  }

  lemma ConfinedDrop(place0: map<Frame, Place>, place: map<Frame, Place>, n: Frame, root: Frame)
    requires Confined(place0, place, root) && n in place && !place[n].L0? && place[n].root == root
    ensures Confined(place0, place - {n}, root)
  {
  }

  /** What mmu_map_4kb leaves in a descriptor that was already valid; None where it panics. */
  function Remap(had: Leaf, want: Leaf, kernelRam: bool): Option<Leaf> {
    if had.frame != want.frame then None
    else if SameButAf(had.attr, want.attr) then Some(had)
    else if kernelRam && DiffersIn(AP_MASK, had.attr, want.attr) then Some(Leaf(had.frame, KernelOnly(had.attr)))
    else if kernelRam && !DiffersIn(FIXED_BITS, had.attr, want.attr) then Some(want)
    else None
  }

  predicate SameButAf(a: bv64, b: bv64) { (a ^ b) & !AF == 0 }

  /** All but attribute index, shareability and the execute bits. */
  const FIXED_BITS: bv64 := !(ATTR_INDEX_MASK | SH_MASK | PXN | UXN)

  function KernelOnly(attr: bv64): bv64 { attr & !AP_MASK }

  predicate DiffersIn(bits: bv64, a: bv64, b: bv64) { ((a ^ b) & !AF) & bits != 0 }

  /** User mode has the same access to data, and the kernel the same right to write. */
  predicate SameAccess(a: bv64, b: bv64) {
    RightsOf(a).userRead == RightsOf(b).userRead && RightsOf(a).kernelWrite == RightsOf(b).kernelWrite
  }

  /** The words agree in all bits but these. */
  predicate SameBut(bits: bv64, a: bv64, b: bv64) { a | bits == b | bits }

  /** The bits in which a page of kernel RAM may be given other attributes: attribute
      index, access flag, shareability and both execute bits. */
  const FREE_BITS: bv64 := 0x0060_0000_0000_071C

  /** What mapping a page that is mapped already to the same frame makes of it. On kernel
      RAM a change of access leaves it to the kernel, writable, with the old execute
      bits; any other change takes effect. Elsewhere nothing changes. */
  predicate Remapped(had: Leaf, want: bv64, now: Leaf, kernelRam: bool) {
    && now.frame == had.frame
    && if !kernelRam || WithAf(had.attr) == WithAf(want) then now == had
       else if SameAccess(had.attr, want) then now.attr == want
       else && RightsOf(now.attr) == RightsOf(had.attr).(userRead := false, userWrite := false, kernelWrite := true)
            && SameBut(0xC0, now.attr, had.attr)
  }

  /** Where mapping a page that is mapped already panics: another frame, or attributes that
      differ where they must not. */
  predicate Conflict(had: Leaf, frame: Frame, want: bv64, kernelRam: bool) {
    || had.frame != frame
    || (!kernelRam && WithAf(had.attr) != WithAf(want))
    || (SameAccess(had.attr, want) && !SameBut(FREE_BITS, had.attr, want))
  }

  lemma RemapMeans(had: Leaf, want: Leaf, kernelRam: bool)
    ensures var l := Remap(had, want, kernelRam);
            && (l.None? <==> Conflict(had, want.frame, want.attr, kernelRam))
            && (l.Some? ==> Remapped(had, want.attr, l.value, kernelRam))
  {
    hide RightsOf, SameAccess, WithAf, SameBut, Remap, KernelOnly;
    RemapCases(had, want, kernelRam);
    FlagFree(had.attr, want.attr);
    ForcedRights(had.attr);
    ForcedBits(had.attr);
  }

  lemma RemapCases(had: Leaf, want: Leaf, kernelRam: bool)
    ensures Remap(had, want, kernelRam) ==
            if had.frame != want.frame then None
            else if WithAf(had.attr) == WithAf(want.attr) then Some(had)
            else if kernelRam && !SameAccess(had.attr, want.attr) then Some(Leaf(had.frame, KernelOnly(had.attr)))
            else if kernelRam && SameBut(FREE_BITS, had.attr, want.attr) then Some(want)
            else None
  {
    hide RightsOf, SameAccess, WithAf, SameBut, SameButAf, DiffersIn, KernelOnly;
    FlagBit(had.attr, want.attr);
    AccessBits(had.attr, want.attr);
    FreeBits(had.attr, want.attr);
  }

  lemma FlagBit(a: bv64, b: bv64)
    ensures SameButAf(a, b) <==> WithAf(a) == WithAf(b)
  {
    FlagXor(a, b);
    XorZero(WithAf(a), WithAf(b));
  }

  lemma XorZero(a: bv64, b: bv64)
    ensures a ^ b == 0 <==> a == b
  {
    assert a == b ==> a ^ b == 0;
  }

  lemma FlagXor(a: bv64, b: bv64)
    ensures WithAf(a) ^ WithAf(b) == (a ^ b) & !AF
  {
  }

  lemma AccessBits(a: bv64, b: bv64)
    ensures SameAccess(a, b) <==> !DiffersIn(AP_MASK, a, b)
  {
    assert ((a ^ b) & !AF) & AP_MASK == (a ^ b) & AP_MASK;
    assert (a ^ b) & AP_MASK == 0 <==> a & 0x40 == b & 0x40 && a & 0x80 == b & 0x80;
    assert a & 0x40 == 0 || a & 0x40 == 0x40;
    assert b & 0x40 == 0 || b & 0x40 == 0x40;
    assert a & 0x80 == 0 || a & 0x80 == 0x80;
    assert b & 0x80 == 0 || b & 0x80 == 0x80;
  }

  lemma FreeBits(a: bv64, b: bv64)
    ensures !DiffersIn(FIXED_BITS, a, b) <==> SameBut(FREE_BITS, a, b)
  {
    hide SameBut;
    FreeXor(a, b);
    SameButXor(FREE_BITS, a, b);
  }

  lemma SameButXor(bits: bv64, a: bv64, b: bv64)
    ensures SameBut(bits, a, b) <==> (a ^ b) & !bits == 0
  {
    OrXor(bits, a, b);
    XorZero(a | bits, b | bits);
  }

  lemma OrXor(bits: bv64, a: bv64, b: bv64)
    ensures (a | bits) ^ (b | bits) == (a ^ b) & !bits
  {
  }

  lemma FreeXor(a: bv64, b: bv64)
    ensures ((a ^ b) & !AF) & FIXED_BITS == (a ^ b) & !FREE_BITS
  {
    assert !AF & FIXED_BITS == !FREE_BITS;
    assert ((a ^ b) & !AF) & FIXED_BITS == (a ^ b) & (!AF & FIXED_BITS);
  }

  lemma FlagFree(a: bv64, b: bv64)
    ensures WithAf(a) == WithAf(b) ==> SameBut(FREE_BITS, a, b)
  {
  }

  lemma ForcedBits(a: bv64)
    ensures SameBut(0xC0, KernelOnly(a), a)
  {
  }

  lemma ForcedRights(a: bv64)
    ensures RightsOf(KernelOnly(a)) == RightsOf(a).(userRead := false, userWrite := false, kernelWrite := true)
  {
    ForcedUser(a);
    ForcedOnly(a);
    ForcedUxn(a);
    ForcedPxn(a);
  }

  lemma ForcedUser(a: bv64)
    ensures KernelOnly(a) & 0x40 == 0
  {
  }

  lemma ForcedOnly(a: bv64)
    ensures KernelOnly(a) & 0x80 == 0
  {
  }

  lemma ForcedUxn(a: bv64)
    ensures KernelOnly(a) & UXN == a & UXN
  {
  }

  lemma ForcedPxn(a: bv64)
    ensures KernelOnly(a) & PXN == a & PXN
  {
  }

  /** Mapping a page again never opens it to reads or writes of user mode. It lets user
      mode execute what it could not exactly on kernel RAM, with the access unchanged and
      the right asked for. */
  lemma RemapOpens(had: Leaf, want: bv64, now: Leaf, kernelRam: bool)
    requires Remapped(had, want, now, kernelRam)
    ensures var h, w, r := RightsOf(had.attr), RightsOf(want), RightsOf(now.attr);
            && (r.userRead ==> h.userRead) && (r.userWrite ==> h.userWrite)
            && (r.userExec && !h.userExec <==> kernelRam && SameAccess(had.attr, want) && w.userExec && !h.userExec)
  {
    hide RightsOf, WithAf;
    WriteRights(had.attr);
    WriteRights(want);
    if WithAf(had.attr) == WithAf(want) { SameUxn(had.attr, want); }
  }

  /** User mode writes where it reads and the kernel writes. */
  lemma WriteRights(a: bv64)
    ensures RightsOf(a).userWrite <==> RightsOf(a).userRead && RightsOf(a).kernelWrite
  {
  }

  lemma SameUxn(a: bv64, b: bv64)
    requires WithAf(a) == WithAf(b)
    ensures RightsOf(a).userExec == RightsOf(b).userExec
  {
    assert (a | AF) & UXN == a & UXN && (b | AF) & UXN == b & UXN;
  }

  /** A shared page of kernel RAM that is mapped again as executable. */
  lemma OpenedExample(f: Frame)
    ensures var had, want := Attributes(1, MEM_RW, Shared), Attributes(1, MEM_RW | MEM_EXEC, Shared);
            && !Conflict(Leaf(f, had), f, want, true) && !RightsOf(had).userExec
            && forall now :: Remapped(Leaf(f, had), want, now, true) ==> RightsOf(now.attr).userExec
  {
    GrantedRights(1, MEM_RW, Shared);
    GrantedRights(1, MEM_RW | MEM_EXEC, Shared);
    var had, want := Attributes(1, MEM_RW, Shared), Attributes(1, MEM_RW | MEM_EXEC, Shared);
    assert had == 0x0060_0000_0000_0F44 && want == 0x0020_0000_0000_0F44;
  }

  /** A page of kernel RAM that was shared stays bound to an identifier when the kernel
      takes it, so that taking it a second time panics exactly when it is to be written. */
  lemma TakenTwice(f: Frame, rw: bv8, memAttr: bv8, now: Leaf)
    requires Remapped(Leaf(f, Attributes(1, rw, Shared)), Attributes(1, memAttr, Kernel), now, true)
    ensures !Conflict(Leaf(f, Attributes(1, rw, Shared)), f, Attributes(1, memAttr, Kernel), true)
    ensures Conflict(now, f, Attributes(1, memAttr, Kernel), true) <==> memAttr & MEM_RW != 0
  {
    hide RightsOf, Attributes, WithAf, SameBut;
    var a, b := Attributes(1, rw, Shared), Attributes(1, memAttr, Kernel);
    GrantedRights(1, rw, Shared);
    GrantedRights(1, memAttr, Kernel);
    GivenSharing(1, rw, Shared);
    GivenSharing(1, memAttr, Kernel);
    if WithAf(a) == WithAf(b) { SameBinding(a, b); }
    KeptBinding(a, now.attr);
    FreeBinding(now.attr, b);
  }

  lemma SameBinding(a: bv64, b: bv64)
    requires WithAf(a) == WithAf(b)
    ensures a & 0x800 == b & 0x800
  {
    assert (a | AF) & 0x800 == a & 0x800 && (b | AF) & 0x800 == b & 0x800;
  }

  lemma KeptBinding(a: bv64, b: bv64)
    ensures SameBut(0xC0, b, a) ==> a & 0x800 == b & 0x800
  {
    assert (a | 0xC0) & 0x800 == a & 0x800 && (b | 0xC0) & 0x800 == b & 0x800;
  }

  lemma FreeBinding(a: bv64, b: bv64)
    ensures SameBut(FREE_BITS, a, b) ==> a & 0x800 == b & 0x800
  {
    assert (a | FREE_BITS) & 0x800 == a & 0x800 && (b | FREE_BITS) & 0x800 == b & 0x800;
  }

  function SetPageView(v: View, q: Page, want: Leaf, kernelRam: bool): Option<View> {
    if q !in v.pages then Some(Put(v, q, want))
    else
      var l := Remap(v.pages[q], want, kernelRam);
      if l.Some? then Some(Put(v, q, l.value)) else None
  }

  /** The effect of mmu_map_4kb on the page map; None where it panics. */
  function MapPageView(v: View, q: Page, pa: Address, attr: bv64, kernelRam: bool): Option<View> {
    if Region(q) in v.blocks && Lookup(v, q) == Some(Leaf((pa / GRANULE), attr)) then Some(v)
    else SetPageView(Split(v, Region(q)), q, Leaf(FrameOf(pa), attr), kernelRam)
  }

  /** Mapping a page that is mapped already, in terms of its old and new descriptor. */
  ghost predicate MapsAgain(v: View, q: Page, frame: Frame, attr: bv64, kernelRam: bool, w: Option<View>) {
    q in v.pages ==>
      && (w.None? <==> Conflict(v.pages[q], frame, attr, kernelRam))
      && (w.Some? ==> q in w.value.pages && Remapped(v.pages[q], attr, w.value.pages[q], kernelRam))
      && (w.Some? ==> forall p :: p != q ==> Lookup(w.value, p) == Lookup(v, p))
  }

  lemma MapAgain(v: View, q: Page, pa: Address, attr: bv64, kernelRam: bool)
    requires q in v.pages && Region(q) in v.blocks ==> v.pages[q].frame < FRAMES
    ensures MapsAgain(v, q, FrameOf(pa), attr, kernelRam, MapPageView(v, q, pa, attr, kernelRam))
  {
    hide Remap, WithAf, RightsOf, SameAccess, SameBut;
    if q in v.pages { RemapMeans(v.pages[q], Leaf(FrameOf(pa), attr), kernelRam); }
    FlagFree(attr, attr);
  }

  /** The frames of a block lie within PTE_ADDR_MASK. */
  lemma BlockFrame(mem: Mem, place: map<Frame, Place>, v: View, q: Page)
    requires Forest(mem, place) && Shows(mem, place, v) && IsRoot(place, q.root)
    ensures q in v.pages && Region(q) in v.blocks ==> v.pages[q].frame < FRAMES
  {
    hide Forest, Walk;
    if q in v.pages && Region(q) in v.blocks {
      assert ShowsAt(mem, v, q);
      var p := L2(q.root, q.i0, q.i1);
      LocateInverse(mem, place, p);
      SlotMeaning(mem, place, v, q, Locate(mem, p).value);
    }
  }

  /** The page has this frame and, but for the access flag, these attributes. */
  predicate MappedAs(v: View, q: Page, frame: Frame, attr: bv64) {
    q in v.pages && v.pages[q].frame == frame && WithAf(v.pages[q].attr) == WithAf(attr)
  }

  /** Page k of the region is mapped, and not as the block would map it. */
  predicate InTheWay(v: View, b: Place, base: Frame, attr: bv64, k: Index)
    requires b.L3?
  {
    && PageIn(b, k) in v.pages
    && if b in v.blocks then v.pages[PageIn(b, k)].frame != base + k else !MappedAs(v, PageIn(b, k), base + k, attr)
  }

  /** Mapping a block panics exactly where a page of the region is in the way. */
  lemma BlockRefused(v: View, b: Place, base: Frame, attr: bv64, tabled: bool)
    requires b.L3? && (tabled || b in v.blocks || Unmapped(v, b)) && (b in v.blocks ==> IsWhole(v, b))
    ensures MapBlockView(v, b, base, attr, tabled).None? <==> exists k: Index :: InTheWay(v, b, base, attr, k)
  {
    hide WithAf, SameButAf, PutBlock, Fill;
    if b in v.blocks {
      if v.pages[PageIn(b, 0)].frame != base { assert InTheWay(v, b, base, attr, 0); }
    } else if tabled {
      forall k: Index
        ensures InTheWay(v, b, base, attr, k) <==>
                PageIn(b, k) in v.pages &&
                !(v.pages[PageIn(b, k)].frame == base + k && SameButAf(v.pages[PageIn(b, k)].attr, attr))
      {
        if PageIn(b, k) in v.pages { FlagBit(v.pages[PageIn(b, k)].attr, attr); }
      }
    }
  }

  /** Otherwise all 512 pages are mapped to the frames from base on with the attributes
      asked for, but for the access flag; pages that were mapped one by one are as they
      were, and so is every page of another region. */
  lemma BlockMeans(v: View, b: Place, base: Frame, attr: bv64, tabled: bool)
    requires b.L3? && (tabled || b in v.blocks || Unmapped(v, b)) && MapBlockView(v, b, base, attr, tabled).Some?
    ensures var w := MapBlockView(v, b, base, attr, tabled).value;
            && (forall k: Index :: MappedAs(w, PageIn(b, k), base + k, attr))
            && (forall p: Page :: Region(p) != b || (p in v.pages && b !in v.blocks) ==> Lookup(w, p) == Lookup(v, p))
  {
    hide WithAf, SameButAf, PutBlock, Fill, Fits, Mixed;
    var w := MapBlockView(v, b, base, attr, tabled).value;
    forall k: Index ensures MappedAs(w, PageIn(b, k), base + k, attr) {
      if b in v.blocks { KeptFlag(attr, v.pages[PageIn(b, 0)].attr); }
      PutBlockAt(v, b, base, if b in v.blocks then Mixed(AF, attr, v.pages[PageIn(b, 0)].attr) else attr, k);
      FillAt(v, b, base, attr, k);
      if PageIn(b, k) in v.pages { FlagBit(v.pages[PageIn(b, k)].attr, attr); }
    }
    forall p: Page | Region(p) != b || (p in v.pages && b !in v.blocks) ensures Lookup(w, p) == Lookup(v, p) {
      PutBlockOther(v, b, base, if b in v.blocks then Mixed(AF, attr, v.pages[PageIn(b, 0)].attr) else attr, p);
      FillOther(v, b, base, attr, p);
      if Region(p) == b { assert p == PageIn(b, p.i3); }
    }
  }

  lemma PutBlockAt(v: View, b: Place, base: Frame, attr: bv64, k: Index)
    requires b.L3?
    ensures Lookup(PutBlock(v, b, base, attr), PageIn(b, k)) == Some(Leaf(base + k, attr))
  {
    assert PageIn(b, k) in PagesOf(b);
  }

  lemma PutBlockOther(v: View, b: Place, base: Frame, attr: bv64, p: Page)
    requires b.L3?
    ensures Region(p) != b ==> Lookup(PutBlock(v, b, base, attr), p) == Lookup(v, p)
  {
  }

  lemma FillAt(v: View, b: Place, base: Frame, attr: bv64, k: Index)
    requires b.L3?
    ensures var q := PageIn(b, k);
            && Lookup(Fill(v, b, base, attr, ENTRIES), q)
               == (if q in v.pages then Lookup(v, q) else Some(Leaf(base + k, attr)))
            && (Fits(v, b, base, attr, ENTRIES) && q in v.pages ==>
                  v.pages[q].frame == base + k && SameButAf(v.pages[q].attr, attr))
  {
    hide SameButAf;
    assert PageIn(b, k) in PagesOf(b);
  }

  lemma FillOther(v: View, b: Place, base: Frame, attr: bv64, p: Page)
    requires b.L3?
    ensures Region(p) != b || p in v.pages ==> Lookup(Fill(v, b, base, attr, ENTRIES), p) == Lookup(v, p)
  {
  }

  /** A block maps its region as a whole. */
  ghost predicate IsWhole(v: View, b: Place)
    requires b.L3?
  {
    && PageIn(b, 0) in v.pages
    && forall k: Index :: PageIn(b, k) in v.pages
                          && v.pages[PageIn(b, k)] == Leaf(v.pages[PageIn(b, 0)].frame + k, v.pages[PageIn(b, 0)].attr)
  }

  lemma BlockWhole(mem: Mem, place: map<Frame, Place>, v: View, b: Place)
    requires Forest(mem, place) && Shows(mem, place, v) && b in v.blocks
    ensures b.L3? && IsWhole(v, b)
  {
    hide Forest, BlockAt;
    forall k: Index ensures ShowsAt(mem, v, PageIn(b, k)) { }
    assert IsBlock(mem, Region(PageIn(b, 0)));
  }

  /** The word a, with these bits as in b. */
  function Mixed(bits: bv64, a: bv64, b: bv64): bv64 { (a & !bits) | (b & bits) }

  lemma KeptFlag(attr: bv64, had: bv64)
    ensures WithAf(Mixed(AF, attr, had)) == WithAf(attr)
  {
    hide Mixed;
    KeptBits(AF, attr, had);
  }

  lemma KeptBits(bits: bv64, a: bv64, b: bv64)
    ensures Mixed(bits, a, b) | bits == a | bits
  {
  }

  /** Setting an access flag leaves every page its frame and its rights. The page has its
      flag, and only pages of its block have got theirs with it. */
  lemma TouchMeans(v: View, q: Page)
    requires q in v.pages && Region(q) in v.blocks ==> IsWhole(v, Region(q))
    ensures var w := SetAfView(v, q);
            && w.pages.Keys == v.pages.Keys && w.blocks == v.blocks
            && (q in v.pages ==> w.pages[q].attr & 0x400 != 0)
            && (forall p :: p in v.pages ==>
                  w.pages[p].frame == v.pages[p].frame && RightsOf(w.pages[p].attr) == RightsOf(v.pages[p].attr))
            && (forall p :: p in v.pages && w.pages[p] != v.pages[p] ==>
                  p == q || (Region(p) == Region(q) && Region(q) in v.blocks))
  {
    hide RightsOf, WithAf, PutBlock, IsWhole;
    if q in v.pages {
      FlagSet(v.pages[q].attr);
      if Region(q) in v.blocks {
        TouchBlock(v, q);
      } else {
        assert SetAfView(v, q).pages.Keys == v.pages.Keys;
      }
    }
  }

  lemma TouchBlock(v: View, q: Page)
    requires q in v.pages && Region(q) in v.blocks && IsWhole(v, Region(q))
    ensures var w, b := SetAfView(v, q), Region(q);
            && w.pages.Keys == v.pages.Keys && w.blocks == v.blocks && w.pages[q].attr == WithAf(v.pages[q].attr)
            && (forall p :: p in v.pages && Region(p) != b ==> w.pages[p] == v.pages[p])
            && (forall p :: p in v.pages && Region(p) == b ==>
                  w.pages[p].frame == v.pages[p].frame && RightsOf(w.pages[p].attr) == RightsOf(v.pages[p].attr))
  {
    hide RightsOf, WithAf;
    var b, w := Region(q), SetAfView(v, q);
    FlagSet(v.pages[q].attr);
    assert forall p :: p in PagesOf(b) ==> p == PageIn(b, p.i3);
    assert q == PageIn(b, q.i3);
    assert forall p :: p in PagesOf(b) ==> w.pages[p] == Leaf(v.pages[p].frame, WithAf(v.pages[q].attr));
    assert w.pages.Keys == v.pages.Keys && w.blocks == v.blocks;
  }

  lemma FlagSet(a: bv64)
    ensures WithAf(a) & 0x400 != 0 && RightsOf(WithAf(a)) == RightsOf(a)
  {
    assert (a | AF) & 0x400 == 0x400;
    assert (a | AF) & 0x40 == a & 0x40;
    assert (a | AF) & 0x80 == a & 0x80;
    assert (a | AF) & UXN == a & UXN;
    assert (a | AF) & PXN == a & PXN;
  }

  /** The first n pages of region b are absent or already as wanted. */
  ghost predicate Fits(v: View, b: Place, base: Frame, attr: bv64, n: nat)
    requires b.L3?
  {
    forall k: Index :: k < n && PageIn(b, k) in v.pages ==>
      v.pages[PageIn(b, k)].frame == base + k && SameButAf(v.pages[PageIn(b, k)].attr, attr)
  }

  /** The first n pages of region b, where absent, mapped to consecutive frames. */
  function Fill(v: View, b: Place, base: Frame, attr: bv64, n: nat): View
    requires b.L3?
  {
    v.(pages := v.pages + map q | q in PagesOf(b) && q.i3 < n && q !in v.pages :: Leaf(base + q.i3, attr))
  }

  /** The effect of mmu_map_2mb on the page map; None where it panics. tabled
      says whether the region already has a level 3 table. */
  ghost function MapBlockView(v: View, b: Place, base: Frame, attr: bv64, tabled: bool): Option<View>
    requires b.L3?
  {
    if b in v.blocks then
      var had := Lookup(v, PageIn(b, 0));
      if had.Some? && had.value.frame == base then Some(PutBlock(v, b, base, Mixed(AF, attr, had.value.attr)))
          else None
    else if !tabled then Some(PutBlock(v, b, base, attr))
    else if Fits(v, b, base, attr, ENTRIES) then Some(Fill(v, b, base, attr, ENTRIES))
    else None
  }

  /** Without a level 3 table and without a block, a region maps nothing. */
  lemma UntabledEmpty(mem: Mem, place: map<Frame, Place>, v: View, b: Place)
    requires Shows(mem, place, v) && b.L3? && IsRoot(place, b.root) && Locate(mem, b).None? && b !in v.blocks
    ensures Unmapped(v, b)
  {
    forall k: Index ensures PageIn(b, k) !in v.pages { assert ShowsAt(mem, v, PageIn(b, k)); }
  }

  ghost predicate Unmapped(v: View, b: Place)
    requires b.L3?
  {
    forall k: Index :: PageIn(b, k) !in v.pages
  }

  lemma FillStep(v: View, b: Place, base: Frame, attr: bv64, i: Index)
    requires b.L3?
    ensures var q := PageIn(b, i);
            Fill(v, b, base, attr, i + 1)
              == if q in v.pages then Fill(v, b, base, attr, i)
                  else Put(Fill(v, b, base, attr, i), q, Leaf(base + i, attr))
    ensures Lookup(Fill(v, b, base, attr, i), PageIn(b, i)) == Lookup(v, PageIn(b, i))
  {
    var q := PageIn(b, i);
    assert q in PagesOf(b);
    assert forall p :: p in PagesOf(b) && p.i3 == i ==> p == q;
  }

  lemma FillNone(v: View, b: Place, base: Frame, attr: bv64)
    requires b.L3?
    ensures Fill(v, b, base, attr, 0) == v && Fits(v, b, base, attr, 0)
  {
    assert Fill(v, b, base, attr, 0).pages == v.pages;
  }

  lemma FitsStep(v: View, b: Place, base: Frame, attr: bv64, i: Index)
    requires b.L3?
    ensures var q := PageIn(b, i);
            Fits(v, b, base, attr, i + 1) <==>
              && Fits(v, b, base, attr, i)
              && (q in v.pages ==> v.pages[q].frame == base + i && SameButAf(v.pages[q].attr, attr))
  {
  }

  lemma FitsPrefix(v: View, b: Place, base: Frame, attr: bv64, n: nat)
    requires b.L3? && n <= ENTRIES && Fits(v, b, base, attr, ENTRIES)
    ensures Fits(v, b, base, attr, n)
  {
  }

  lemma BlockFrames(pa: Address, k: Index)
    requires pa % 0x20_0000 == 0
    ensures BlockBase(FrameOf(pa)) && pa + k * GRANULE < ADDRESSES && FrameOf(pa + k * GRANULE) == FrameOf(pa) + k
  {
    var n := pa / 0x20_0000;
    var m, r := n / 0x8000_0000, n % 0x8000_0000;
    assert pa + k * GRANULE == (n * 512 + k) * GRANULE && n * 512 + k == m * FRAMES + (r * 512 + k);
    FrameOfSum(n * 512 + k, m, r * 512 + k);
    FrameOfSum(n * 512, m, r * 512);
  }

  lemma FrameOfPage(pa: Address)
    ensures var page := pa - pa % GRANULE;
            page % GRANULE == 0 && page / GRANULE == pa / GRANULE && FrameOf(page) == FrameOf(pa)
  {
  }

  lemma FrameOfSum(f: nat, m: nat, s: nat)
    requires f == m * FRAMES + s && s < FRAMES && f * GRANULE < ADDRESSES
    ensures FrameOf(f * GRANULE) == s
  {
    assert f * GRANULE / GRANULE == f;
  }

  ghost predicate NoNewLeafTable(place0: map<Frame, Place>, place: map<Frame, Place>) {
    forall t :: t in place && t !in place0 ==> !place[t].L3?
  }

  /** The effect of mmu_unmap_table on the page map; None where it panics. */
  function UnmapView(v: View, q: Page, frame: Frame): Option<View> {
    if q !in v.pages then Some(v)
    else if v.pages[q].frame != frame then None
    else Some(Drop(Split(v, Region(q)), q))
  }

  /** Clearing one of several valid entries empties nothing. */
  lemma DropEmpties(mem: Mem, place: map<Frame, Place>, t: Frame, i: Index, k: Index)
    requires t in mem && |mem[t]| == ENTRIES && k != i && !mem[t][k].Absent?
    ensures Empties(WriteSlot(mem, t, i, Absent), place) <= Empties(mem, place)
  {
    assert !WriteSlot(mem, t, i, Absent)[t][k].Absent?;
  }

  lemma DetachEmpties(mem: Mem, place: map<Frame, Place>, t: Frame, i: Index, n: Frame)
    requires t in mem && |mem[t]| == ENTRIES && t != n
    ensures Empties(Detached(mem, t, i, n), place - {n}) <= Empties(mem, place) - {n} + {t}
  {
  }

  /** Walking to level 2 opens no level 3 table: tables already hung stay, and
      the new ones are empty. */
  lemma TabledKept(mem0: Mem, place0: map<Frame, Place>, mem: Mem, place: map<Frame, Place>, q: Page, l2: Frame)
    requires Forest(mem0, place0) && Forest(mem, place) && Grows(place0, place, q.root) && IsRoot(place0, q.root)
    requires l2 in place && place[l2] == L2(q.root, q.i0, q.i1)
    requires NoNewLeafTable(place0, place)
    ensures Locate(mem0, Region(q)).Some? <==> Slot(mem, l2, q.i2).Table?
  {
    assert Locate(mem, place[l2]) == Some(l2);
    if Locate(mem0, Region(q)).Some? {
      LocateInverse(mem0, place0, Region(q));
      var t := Locate(mem0, Region(q)).value;
      assert Locate(mem, place[t]) == Some(t);
    }
    if Slot(mem, l2, q.i2).Table? {
      assert EntryOk(mem, place, l2, q.i2);
      var t := Slot(mem, l2, q.i2).addr;
      assert Locate(mem0, place0[t]) == Some(t);
    }
  }

  /** The page map without one root. */
  function Without(v: View, root: Frame): View {
    View(map q | q in v.pages && q.root != root :: v.pages[q], set b | b in v.blocks && b.root != root)
  }

  lemma ShowsWithout(mem: Mem, place: map<Frame, Place>, v: View, root: Frame)
    requires Forest(mem, place) && Shows(mem, place, v)
    ensures Shows(mem - TablesOf(place, root), place - TablesOf(place, root), Without(v, root))
  {
    hide Forest, Walk, BlockAt;
    forall q: Page | IsRoot(place - TablesOf(place, root), q.root)
      ensures ShowsAt(mem - TablesOf(place, root), Without(v, root), q)
    {
      OtherWalk(mem, place, root, q);
      assert ShowsAt(mem, v, q);
    }
  }

  lemma SameKeys(mem: Mem, place: map<Frame, Place>)
    requires Forest(mem, place)
    ensures mem.Keys == place.Keys
  {
  }

  lemma NewRootLocate(mem: Mem, place: map<Frame, Place>, n: Frame, q: Place)
    requires Forest(mem, place) && n !in place && IsRoot(place, q.root)
    ensures Locate(mem[n := EMPTY_TABLE], q) == Locate(mem, q)
    decreases Level(q)
  {
    match q
    case L0(_) =>
    case L1(r, a) =>
    case L2(r, a, b) =>
      NewRootLocate(mem, place, n, L1(r, a));
      if T1(mem, r, a).Some? { LocateInverse(mem, place, L1(r, a)); }
    case L3(r, a, b, c) =>
      NewRootLocate(mem, place, n, L2(r, a, b));
      if T2(mem, r, a, b).Some? { LocateInverse(mem, place, L2(r, a, b)); }
  }

  lemma NewRootForest(mem: Mem, place: map<Frame, Place>, n: Frame)
    requires Forest(mem, place) && n !in place
    ensures Forest(mem[n := EMPTY_TABLE], place[n := L0(n)])
  {
    var mem', place' := mem[n := EMPTY_TABLE], place[n := L0(n)];
    forall t | t in place ensures Locate(mem', place[t]) == Some(t) {
      NewRootLocate(mem, place, n, place[t]);
      assert Locate(mem, place[t]) == Some(t);
    }
    forall t, i: Index | t in place' ensures EntryOk(mem', place', t, i) {
      if t != n { assert EntryOk(mem, place, t, i); }
    }
  }

  lemma NewRootAt(mem: Mem, place: map<Frame, Place>, v: View, n: Frame, q: Page)
    requires Forest(mem, place) && Shows(mem, place, v) && n !in place && IsRoot(place[n := L0(n)], q.root)
    ensures ShowsAt(mem[n := EMPTY_TABLE], v, q)
  {
    hide EntryOk;
    if q.root != n {
      var p2 := L2(q.root, q.i0, q.i1);
      NewRootLocate(mem, place, n, p2);
      if Locate(mem, p2).Some? {
        LocateInverse(mem, place, p2);
        if Locate(mem, Region(q)).Some? { LocateInverse(mem, place, Region(q)); }
      }
      assert ShowsAt(mem, v, q);
    }
  }

  lemma NewRootShows(mem: Mem, place: map<Frame, Place>, v: View, n: Frame)
    requires Forest(mem, place) && Shows(mem, place, v) && n !in place
    ensures Shows(mem[n := EMPTY_TABLE], place[n := L0(n)], v)
  {
    hide Forest, ShowsAt;
    forall q: Page | IsRoot(place[n := L0(n)], q.root) ensures ShowsAt(mem[n := EMPTY_TABLE], v, q) {
      NewRootAt(mem, place, v, n, q);
    }
  }

  /** The effect of mmu_set_access_flag on the page map. */
  function SetAfView(v: View, q: Page): View {
    if q !in v.pages then v
    else if Region(q) in v.blocks then
      PutBlock(v, Region(q), if v.pages[q].frame >= q.i3 then v.pages[q].frame - q.i3 else 0, WithAf(v.pages[q].attr))
    else Put(v, q, Leaf(v.pages[q].frame, WithAf(v.pages[q].attr)))
  }

  /** What is left to visit at depth k of the teardown stack. */
  function Left(stack: seq<Visit>, k: nat): int {
    if k < |stack| then ENTRIES + 1 - stack[k].i else 0
  }

  class Tables {
    var mem: Mem
    var pool: seq<Frame>
    const kernelRoots: set<Frame>
    const ramStart: nat
    const ramEnd: nat
    ghost var place: map<Frame, Place>
    ghost var view: View

    /** The tables as mmu_init starts them: two empty kernel roots. */
    constructor (frames: seq<Frame>, ramStart: nat, ramEnd: nat)
      requires |frames| >= 2 && forall i, j :: 0 <= i < j < |frames| ==> frames[i] != frames[j]
      ensures Valid() && view == View(map[], {}) && kernelRoots == {frames[0], frames[1]}
      ensures this.ramStart == ramStart && this.ramEnd == ramEnd
      ensures place == map[frames[0] := L0(frames[0]), frames[1] := L0(frames[1])] && pool == frames[2..]
    {
      this.ramStart, this.ramEnd := ramStart, ramEnd;
      kernelRoots := {frames[0], frames[1]};
      pool := frames[2..];
      mem := map[frames[0] := EMPTY_TABLE, frames[1] := EMPTY_TABLE];
      place := map[frames[0] := L0(frames[0]), frames[1] := L0(frames[1])];
      view := View(map[], {});
      new;
      assert map[][frames[0] := EMPTY_TABLE][frames[1] := EMPTY_TABLE] == mem;
      NewRootForest(map[], map[], frames[0]);
      NewRootForest(map[frames[0] := EMPTY_TABLE], map[frames[0] := L0(frames[0])], frames[1]);
      NewRootShows(map[], map[], view, frames[0]);
      NewRootShows(map[frames[0] := EMPTY_TABLE], map[frames[0] := L0(frames[0])], view, frames[1]);
    }

    ghost predicate Valid()
      reads this
    {
      && Forest(mem, place)
      && Shows(mem, place, view)
      && (forall i, j :: 0 <= i < j < |pool| ==> pool[i] != pool[j])
      && (forall n :: n in pool ==> n !in mem)
    }

    /** Every frame the table allocator handed out or still holds. */
    ghost function Owned(): set<Frame>
      reads this
    {
      mem.Keys + InPool(pool)
    }

    /** mmu_alloc followed by the write of a table descriptor to slot (t, i). */
    method Hang(t: Frame, i: Index, fill: seq<Pte>) returns (n: Frame)
      requires Valid() && pool != [] && t in place && !place[t].L3?
      requires Terminal(Child(place[t], i), fill) && SameMeaning(Slot(mem, t, i), fill)
      modifies this
      ensures Valid() && view == Split(old(view), Child(old(place)[t], i))
      ensures n == old(pool)[0] && n !in old(place) && pool == old(pool)[1..]
      ensures place == old(place)[n := Child(old(place)[t], i)] && mem == Attached(old(mem), t, i, n, fill)
      ensures Owned() == old(Owned())
    {
      hide Forest, Shows, SameMeaning;
      n := pool[0];
      TableSize(mem, place, t);
      NotTable(Slot(mem, t, i), fill);
      AttachForest(mem, place, t, i, n, fill);
      ShowsAttach(mem, place, view, t, i, n, fill);
      mem := WriteSlot(mem[n := fill], t, i, Table(n, 0));
      pool := pool[1..];
      view := Split(view, Child(place[t], i));
      place := place[n := Child(place[t], i)];
      assert old(pool) == [n] + pool;
    }

    /** Writing one page descriptor of a level 3 table. */
    method WriteLeaf(t: Frame, i: Index, e: Pte)
      requires Valid() && t in place && place[t].L3? && !e.Block?
      modifies this`mem, this`view
      ensures Valid() && mem == WriteSlot(old(mem), t, i, e)
      ensures var q := PageIn(place[t], i);
              view == if e.Table? then Put(old(view), q, Leaf(e.addr, e.attr)) else Drop(old(view), q)
    {
      hide Forest, Shows;
      TableSize(mem, place, t);
      LeafForest(mem, place, t, i, e);
      ShowsLeaf(mem, place, view, t, i, e);
      mem := WriteSlot(mem, t, i, e);
      var q := PageIn(place[t], i);
      view := if e.Table? then Put(view, q, Leaf(e.addr, e.attr)) else Drop(view, q);
    }

    /** temp_free of an empty table and the clearing of the slot that named it. */
    method Prune(t: Frame, i: Index, n: Frame)
      requires Valid() && t in place && !place[t].L3? && n in place && place[n] == Child(place[t], i) && Empty(mem[n])
      modifies this`mem, this`pool, this`place
      ensures Valid() && mem == Detached(old(mem), t, i, n) && place == old(place) - {n} && pool == [n] + old(pool)
      ensures Owned() == old(Owned())
    {
      hide Forest, Shows, Empty;
      TableSize(mem, place, t);
      DetachForest(mem, place, t, i, n);
      ShowsDetach(mem, place, view, t, i, n);
      mem := WriteSlot(mem, t, i, Absent) - {n};
      pool := [n] + pool;
      place := place - {n};
    }

    /** walk_or_alloc; its bad-type panic cannot happen, as blocks occur at level 2 only. */
    method WalkOrAlloc(t: Frame, i: Index) returns (n: Option<Frame>)
      requires Valid() && t in place && (place[t].L0? || place[t].L1?)
      modifies this
      ensures Valid() && view == old(view) && Owned() == old(Owned()) && Grows(old(place), place, old(place)[t].root)
      ensures n.None? ==> old(pool) == []
      ensures n.Some? ==> n.value in place && place[n.value] == Child(old(place)[t], i)
      ensures |pool| >= |old(pool)| - 1 && NoNewLeafTable(old(place), place)
      ensures n.Some? ==> Empties(mem, place) <= old(Empties(mem, place)) - {t} + {n.value}
    {
      hide Forest, Shows, Empty;
      var e := Slot(mem, t, i);
      ChildEntry(mem, place, t, i);
      TableSize(mem, place, t);
      if e.Absent? {
        if pool == [] { return None; }
        AttachEmpties(mem, place, t, i, pool[0], EMPTY_TABLE);
        SplitAbove(mem, place, view, Child(place[t], i));
        var f := Hang(t, i, EMPTY_TABLE);
        n := Some(f);
      } else {
        OccupiedTable(mem, place, t, i);
        n := Some(e.addr);
      }
    }

    /** The two levels every mapping walks first. */
    method WalkToLevel2(q: Page) returns (l2: Option<Frame>)
      requires Valid() && IsRoot(place, q.root)
      modifies this
      ensures Valid() && view == old(view) && Owned() == old(Owned()) && Grows(old(place), place, q.root)
      ensures l2.None? ==> |old(pool)| < 2
      ensures l2.Some? ==> l2.value in place && place[l2.value] == L2(q.root, q.i0, q.i1)
      ensures |pool| >= |old(pool)| - 2 && NoNewLeafTable(old(place), place)
      ensures l2.Some? ==> Empties(mem, place) <= old(Empties(mem, place)) + {l2.value}
    {
      hide Forest, Shows, Empty;
      var l1 := WalkOrAlloc(q.root, q.i0);
      if l1.None? { return None; }
      l2 := WalkOrAlloc(l1.value, q.i1);
    }

    /** The loop that spells out a block as 512 page descriptors. */
    method ExpandBlock(b: Frame, attr: bv64) returns (fill: seq<Pte>)
      ensures fill == SplitTable(b, attr)
    {
      fill := [];
      while |fill| < ENTRIES
        invariant |fill| <= ENTRIES && fill == SplitTable(b, attr)[..|fill|]
      {
        fill := fill + [Table(b + |fill|, attr)];
      }
    }

    /** Replaces the block in slot (l2, q.i2) by a table of the same 512 pages. */
    method SplitBlock(q: Page, l2: Frame) returns (l3: Frame)
      requires Valid() && l2 in place && place[l2] == L2(q.root, q.i0, q.i1) && Slot(mem, l2, q.i2).Block? && pool != []
      modifies this
      ensures Valid() && view == Split(old(view), Region(q)) && Owned() == old(Owned())
      ensures Grows(old(place), place, q.root)
      ensures l3 in place && place[l3] == Region(q) && |pool| == |old(pool)| - 1
      ensures Empties(mem, place) <= old(Empties(mem, place)) - {l2}
      ensures q in view.pages && mem[l3] == SplitTable(old(Slot(mem, l2, q.i2)).addr, old(Slot(mem, l2, q.i2)).attr)
    {
      hide Forest, Shows, SameMeaning, Terminal, Empty;
      var e := Slot(mem, l2, q.i2);
      SlotMeaning(mem, place, view, q, l2);
      TableSize(mem, place, l2);
      var fill := ExpandBlock(e.addr / ENTRIES * ENTRIES, e.attr);
      SplitMeaning(e.addr, e.attr, Region(q));
      AttachEmpties(mem, place, l2, q.i2, pool[0], fill);
      l3 := Hang(l2, q.i2, fill);
    }

    /** The last step of mmu_map_4kb: the level 3 descriptor of page q. */
    method SetPage(q: Page, l3: Frame, want: Pte, kernelRam: bool) returns (ok: bool)
      requires Valid() && l3 in place && place[l3] == Region(q) && want.Table?
      modifies this`mem, this`view
      ensures Valid() && mem.Keys == old(mem.Keys)
      ensures SetPageView(old(view), q, Leaf(want.addr, want.attr), kernelRam) == if ok then Some(view) else None
      ensures ok ==> Empties(mem, place) <= old(Empties(mem, place)) - {l3}
    {
      hide Forest, Shows, Empty;
      TableSize(mem, place, l3);
      LeafMeaning(mem, place, view, q, l3);
      var had := Slot(mem, l3, q.i3);
      if had.Absent? {
        LeafEmpties(mem, place, l3, q.i3, want);
        WriteLeaf(l3, q.i3, want);
        return true;
      }
      OccupiedTable(mem, place, l3, q.i3);
      var l := Remap(Leaf(had.addr, had.attr), Leaf(want.addr, want.attr), kernelRam);
      hide Remap;
      if l.None? { return false; }
      if l.value == Leaf(had.addr, had.attr) {
        assert Put(view, q, l.value) == view;
      } else {
        LeafEmpties(mem, place, l3, q.i3, Table(l.value.frame, l.value.attr));
        WriteLeaf(l3, q.i3, Table(l.value.frame, l.value.attr));
      }
      return true;
    }

    /** The level 3 table of page q, hung or split from a block where need be.
        Done when a block already maps q as wanted. */
    method OpenLevel3(q: Page, l2: Frame, page: Address, attr: bv64) returns (done: bool, l3: Option<Frame>)
      requires Valid() && l2 in place && place[l2] == L2(q.root, q.i0, q.i1) && page % GRANULE == 0
      modifies this
      ensures Valid() && Owned() == old(Owned()) && Grows(old(place), place, q.root)
      ensures done <==> Region(q) in old(view).blocks && Lookup(old(view), q) == Some(Leaf(page / GRANULE, attr))
      ensures done ==> view == old(view) && Empties(mem, place) <= old(Empties(mem, place)) - {l2}
      ensures !done && l3.None? ==> old(pool) == []
      ensures |pool| >= |old(pool)| - 1
      ensures !done && l3.Some? ==>
                l3.value in place && place[l3.value] == Region(q) && view == Split(old(view), Region(q))
      ensures !done && l3.Some? ==> Empties(mem, place) <= old(Empties(mem, place)) - {l2} + {l3.value}
    {
      hide Forest, Shows, Empty;
      SlotMeaning(mem, place, view, q, l2);
      var e := Slot(mem, l2, q.i2);
      if !e.Absent? { OccupiedTable(mem, place, l2, q.i2); }
      if e.Block? {
        if page == (e.addr / ENTRIES * ENTRIES + q.i3) * GRANULE && e.attr == attr { return true, None; }
        if pool == [] { return false, None; }
        var f := SplitBlock(q, l2);
        return false, Some(f);
      }
      assert Split(view, Region(q)) == view by {
        if e.Table? { LeafMeaning(mem, place, view, q, e.addr); }
      }
      if e.Table? { return false, Some(e.addr); }
      if pool == [] { return false, None; }
      var f := HangEmpty(q, l2);
      return false, Some(f);
    }

    /** mmu_map_4kb */
    method MapPage(root: Frame, va: Address, pa: Address, attrIndex: bv64, memAttr: bv8, level: Privilege)
      returns (ok: bool)
      requires Valid() && IsRoot(place, root)
      modifies this
      ensures Valid() && Owned() == old(Owned()) && Grows(old(place), place, root)
      ensures ok ==> Some(view) == MapView(old(view), root, va, pa, attrIndex, memAttr, level)
      ensures ok <== MapView(old(view), root, va, pa, attrIndex, memAttr, level).Some? && |old(pool)| >= 3
      ensures |pool| >= |old(pool)| - 3
      ensures ok ==> Empties(mem, place) <= old(Empties(mem, place))
      ensures level.User? && root in kernelRoots ==> !ok
      ensures !(level.User? && root in kernelRoots) && (ok || |old(pool)| >= 3) ==>
                MapsAgain(old(view), PageOf(root, va), FrameOf(pa), Attributes(attrIndex, memAttr, level),
                          root in kernelRoots && ramStart <= pa - pa % GRANULE < ramEnd,
                          if ok then Some(view) else None)
    {
      hide Forest, Shows, Empty, Attributes, SetPageView, PageOf, MapsAgain, FrameOf;
      PageOfRoot(root, va);
      BlockFrame(mem, place, view, PageOf(root, va));
      MapAgain(view, PageOf(root, va), pa, Attributes(attrIndex, memAttr, level),
               root in kernelRoots && ramStart <= pa - pa % GRANULE < ramEnd);
      FrameOfPage(pa);
      if root in kernelRoots && level.User? { return false; }
      var q := PageOf(root, va);
      assert q.root == root by { PageOfRoot(root, va); }
      var page := pa - pa % GRANULE;
      var attr := Attributes(attrIndex, memAttr, level);
      var kernelRam := root in kernelRoots && ramStart <= page < ramEnd;
      var l2 := WalkToLevel2(q);
      if l2.None? { return false; }
      var done, l3 := OpenLevel3(q, l2.value, page, attr);
      if done { return true; }
      if l3.None? { return false; }
      ok := SetPage(q, l3.value, Table(FrameOf(page), attr), kernelRam);
    }

    /** MapPageView with the arguments and the globals mmu_map_4kb reads. */
    ghost function MapView(v: View, root: Frame, va: Address, pa: Address, attrIndex: bv64, memAttr: bv8,
                           level: Privilege): Option<View> {
      if root in kernelRoots && level.User? then None
      else MapPageView(v, PageOf(root, va), pa, Attributes(attrIndex, memAttr, level),
                       root in kernelRoots && ramStart <= pa - pa % GRANULE < ramEnd)
    }

    /** An empty level 3 table in slot (l2, q.i2). */
    method HangEmpty(q: Page, l2: Frame) returns (l3: Frame)
      requires Valid() && l2 in place && place[l2] == L2(q.root, q.i0, q.i1) && Slot(mem, l2, q.i2).Absent?
      requires pool != []
      modifies this
      ensures Valid() && view == old(view) && Owned() == old(Owned()) && Grows(old(place), place, q.root)
      ensures l3 in place && place[l3] == Region(q) && |pool| == |old(pool)| - 1
      ensures Empties(mem, place) <= old(Empties(mem, place)) - {l2} + {l3}
    {
      hide Forest, Shows, Empty;
      SlotMeaning(mem, place, view, q, l2);
      TableSize(mem, place, l2);
      assert view == Split(view, Region(q));
      AttachEmpties(mem, place, l2, q.i2, pool[0], EMPTY_TABLE);
      l3 := Hang(l2, q.i2, EMPTY_TABLE);
    }

    /** The loop of mmu_map_2mb over a region that already has a level 3 table. */
    method FillTable(b: Place, l3: Frame, pa: Address, attr: bv64) returns (ok: bool)
      requires Valid() && b.L3? && l3 in place && place[l3] == b && pa % 0x20_0000 == 0
      modifies this`mem, this`view
      ensures Valid() && mem.Keys == old(mem.Keys)
      ensures ok <==> Fits(old(view), b, FrameOf(pa), attr, ENTRIES)
      ensures ok ==> view == Fill(old(view), b, FrameOf(pa), attr, ENTRIES)
      ensures ok ==> Empties(mem, place) <= old(Empties(mem, place)) - {l3}
    {
      hide Forest, Shows, Empty, FrameOf, Fill, Fits, PagesOf, Put, SameButAf, Slot;
      TableSize(mem, place, l3);
      FillNone(view, b, FrameOf(pa), attr);
      ghost var base := FrameOf(pa);
      var i := 0;
      while i < ENTRIES
        invariant 0 <= i <= ENTRIES && Valid() && mem.Keys == old(mem.Keys)
        invariant Fits(old(view), b, base, attr, i)
        invariant view == Fill(old(view), b, base, attr, i)
        invariant Empties(mem, place) <= old(Empties(mem, place)) && (i > 0 ==> l3 !in Empties(mem, place))
      {
        var q := PageIn(b, i);
        FillStep(old(view), b, base, attr, i);
        FitsStep(old(view), b, base, attr, i);
        TableSize(mem, place, l3);
        LeafMeaning(mem, place, view, q, l3);
        BlockFrames(pa, i);
        var f := FrameOf(pa + i * GRANULE);
        var e := Slot(mem, l3, i);
        if e.Absent? {
          LeafEmpties(mem, place, l3, i, Table(f, attr));
          WriteLeaf(l3, i, Table(f, attr));
        } else {
          OccupiedTable(mem, place, l3, i);
          if !SameButAf(e.attr, attr) || e.addr != f {
            if Fits(old(view), b, base, attr, ENTRIES) { FitsPrefix(old(view), b, base, attr, i + 1); }
            return false;
          }
        }
        i := i + 1;
      }
      return true;
    }

    method WriteBlock(t: Frame, i: Index, b: Frame, attr: bv64)
      requires Valid() && t in place && place[t].L2? && !Slot(mem, t, i).Table? && BlockBase(b)
      modifies this`mem, this`view
      ensures Valid() && mem == WriteSlot(old(mem), t, i, Block(b, attr))
      ensures view == PutBlock(old(view), Child(place[t], i), b, attr)
    {
      hide Forest, Shows;
      TableSize(mem, place, t);
      BlockForest(mem, place, t, i, b, attr);
      ShowsBlock(mem, place, view, t, i, b, attr);
      mem := WriteSlot(mem, t, i, Block(b, attr));
      view := PutBlock(view, Child(place[t], i), b, attr);
    }

    /** The last step of mmu_map_2mb: the level 2 slot of region Region(q). */
    method SetRegion(q: Page, l2: Frame, pa: Address, attr: bv64) returns (ok: bool)
      requires Valid() && l2 in place && place[l2] == L2(q.root, q.i0, q.i1) && pa % 0x20_0000 == 0 && q.i3 == 0
      modifies this`mem, this`view
      ensures Valid() && mem.Keys == old(mem.Keys)
      ensures old(MapBlockView(view, Region(q), FrameOf(pa), attr, Slot(mem, l2, q.i2).Table?)).Some? == ok
      ensures ok ==> Some(view) == old(MapBlockView(view, Region(q), FrameOf(pa), attr, Slot(mem, l2, q.i2).Table?))
      ensures ok ==> Empties(mem, place) <= old(Empties(mem, place)) - {l2}
    {
      hide Forest, Shows, Empty, FrameOf, PutBlock, Fill, Fits;
      BlockFrames(pa, 0);
      TableSize(mem, place, l2);
      SlotMeaning(mem, place, view, q, l2);
      var e := Slot(mem, l2, q.i2);
      if e.Table? {
        OccupiedTable(mem, place, l2, q.i2);
        LeafMeaning(mem, place, view, q, e.addr);
        ok := FillTable(Region(q), e.addr, pa, attr);
        return;
      }
      if e.Block? && e.addr != FrameOf(pa) { return false; }
      var newAttr := if e.Absent? then attr else (attr & !AF) | (e.attr & AF);
      LeafEmpties(mem, place, l2, q.i2, Block(FrameOf(pa), newAttr));
      WriteBlock(l2, q.i2, FrameOf(pa), newAttr);
      return true;
    }

    /** MapBlockView with the arguments mmu_map_2mb is given. */
    ghost function BlockSpec(root: Frame, va: Address, pa: Address, attrIndex: bv64, memAttr: bv8,
                             level: Privilege): Option<View>
      reads this
    {
      var b := Region(PageOf(root, va));
      if va % 0x20_0000 != 0 || pa % 0x20_0000 != 0 then None
      else MapBlockView(view, b, FrameOf(pa), Attributes(attrIndex, memAttr, level), Locate(mem, b).Some?)
    }

    /** mmu_map_2mb */
    method MapBlock(root: Frame, va: Address, pa: Address, attrIndex: bv64, memAttr: bv8, level: Privilege)
      returns (ok: bool)
      requires Valid() && IsRoot(place, root)
      modifies this
      ensures Valid() && Owned() == old(Owned()) && Grows(old(place), place, root)
      ensures ok ==> Some(view) == old(BlockSpec(root, va, pa, attrIndex, memAttr, level))
      ensures ok <== |old(pool)| >= 2 && old(BlockSpec(root, va, pa, attrIndex, memAttr, level)).Some?
      ensures |pool| >= |old(pool)| - 2
      ensures ok ==> Empties(mem, place) <= old(Empties(mem, place))
    {
      hide Forest, Shows, Empty, Attributes, PageOf, FrameOf, MapBlockView, Locate, Slot;
      if va % 0x20_0000 != 0 || pa % 0x20_0000 != 0 { return false; }
      var q := PageIn(Region(PageOf(root, va)), 0);
      PageOfRoot(root, va);
      ghost var mem0, place0 := mem, place;
      var l2 := WalkToLevel2(q);
      if l2.None? { return false; }
      TabledKept(mem0, place0, mem, place, q, l2.value);
      ok := SetRegion(q, l2.value, pa, Attributes(attrIndex, memAttr, level));
    }

    /** The two table descriptors every unmap and every translation reads first. */
    method FindLevel2(q: Page) returns (l1: Frame, l2: Option<Frame>)
      requires Valid() && IsRoot(place, q.root)
      ensures l2 == T2(mem, q.root, q.i0, q.i1)
      ensures l2.Some? ==> l2.value in place && place[l2.value] == L2(q.root, q.i0, q.i1)
      ensures l2.Some? ==> l1 in place && place[l1] == L1(q.root, q.i0)
      ensures l2.None? ==> q !in view.pages && Region(q) !in view.blocks
    {
      assert EntryOk(mem, place, q.root, q.i0) && ShowsAt(mem, view, q);
      var e0 := Slot(mem, q.root, q.i0);
      if !e0.Table? { return 0, None; }
      assert EntryOk(mem, place, e0.addr, q.i1);
      var e1 := Slot(mem, e0.addr, q.i1);
      if !e1.Table? { return 0, None; }
      return e0.addr, Some(e1.addr);
    }

    /** mmu_unmap_table */
    method UnmapTable(root: Frame, va: Address, pa: Address) returns (ok: bool)
      requires Valid() && IsRoot(place, root)
      modifies this
      ensures Valid() && Owned() == old(Owned()) && Grows(old(place), place, root)
      ensures ok ==> Some(view) == UnmapView(old(view), PageOf(root, va), FrameOf(pa))
      ensures ok <== UnmapView(old(view), PageOf(root, va), FrameOf(pa)).Some? && old(pool) != []
      ensures |pool| >= |old(pool)| - 1
      ensures ok && Region(PageOf(root, va)) in old(view).blocks ==> Empties(mem, place) <= old(Empties(mem, place))
    {
      hide Forest, Shows, Empty, PageOf, FrameOf;
      var q := PageOf(root, va);
      PageOfRoot(root, va);
      var l1, l2 := FindLevel2(q);
      if l2.None? { return true; }
      SlotMeaning(mem, place, view, q, l2.value);
      var e := Slot(mem, l2.value, q.i2);
      var l3;
      if e.Absent? { return true; }
      if e.Block? {
        if pool == [] { return false; }
        l3 := SplitBlock(q, l2.value);
      } else {
        l3 := e.addr;
      }
      LeafMeaning(mem, place, view, q, l3);
      TableSize(mem, place, l3);
      var had := Slot(mem, l3, q.i3);
      assert view == Split(old(view), Region(q));
      if had.Absent? { return true; }
      if had.addr != FrameOf(pa) { return false; }
      if e.Block? { DropEmpties(mem, place, l3, q.i3, if q.i3 == 0 then 1 else 0); }
      WriteLeaf(l3, q.i3, Absent);
      return true;
    }

    /** The loop asking whether a table still holds a valid entry. */
    method AnyValid(t: Frame) returns (any: bool)
      requires t in mem && |mem[t]| == ENTRIES
      ensures any <==> !Empty(mem[t])
    {
      var i := 0;
      while i < ENTRIES
        invariant 0 <= i <= ENTRIES
        invariant forall k: Index :: k < i ==> mem[t][k].Absent?
      {
        if !mem[t][i].Absent? { return true; }
        i := i + 1;
      }
      return false;
    }

    /** Frees table n, hung at slot (t, i), if it holds nothing any more. */
    method PruneIfEmpty(t: Frame, i: Index, n: Frame) returns (any: bool)
      requires Valid() && t in place && !place[t].L3? && n in place && place[n] == Child(place[t], i)
      modifies this`mem, this`pool, this`place
      ensures Valid() && Owned() == old(Owned()) && |pool| >= |old(pool)|
      ensures any ==> mem == old(mem) && place == old(place) && n !in Empties(mem, place)
      ensures !any ==>
                place == old(place) - {n} && t in place && Empties(mem, place) <= old(Empties(mem, place)) - {n} + {t}
    {
      hide Forest, Shows, Empty;
      TableSize(mem, place, n);
      TableSize(mem, place, t);
      any := AnyValid(n);
      if !any {
        DetachEmpties(mem, place, t, i, n);
        Prune(t, i, n);
      }
    }

    /** The block case of mmu_unmap_and_get_pa. */
    method UnmapBlockPage(q: Page, va: Address, frame: Frame) returns (ok: bool)
      requires Valid() && IsRoot(place, q.root) && q == PageOf(q.root, va) && Region(q) in view.blocks
      requires Lookup(view, q).Some? && view.pages[q].frame == frame && frame < FRAMES
      modifies this
      ensures Valid() && Owned() == old(Owned()) && Grows(old(place), place, q.root)
      ensures ok ==> view == Drop(Split(old(view), Region(q)), q) && Empties(mem, place) <= old(Empties(mem, place))
      ensures (!ok ==> old(pool) == []) && |pool| >= |old(pool)| - 1
    {
      hide Forest, Shows, Empty, PageOf;
      assert FrameOf(frame * GRANULE) == frame;
      ok := UnmapTable(q.root, va, frame * GRANULE);
    }

    /** The page case of mmu_unmap_and_get_pa: clear the descriptor, then free
        the tables this leaves empty, bottom up, unless the root is the kernel's. */
    method ClearAndPrune(q: Page, l1: Frame, l2: Frame, l3: Frame) returns (found: Option<Frame>)
      requires Valid() && l2 in place && place[l2] == L2(q.root, q.i0, q.i1) && l3 in place && place[l3] == Region(q)
      requires l1 in place && place[l1] == L1(q.root, q.i0) && IsRoot(place, q.root)
      modifies this
      ensures Valid() && Owned() == old(Owned()) && Confined(old(place), place, q.root) && |pool| >= |old(pool)|
      ensures view == Drop(old(view), q)
      ensures found == if q in old(view).pages then Some(old(view).pages[q].frame) else None
      ensures q.root !in kernelRoots ==> Empties(mem, place) <= old(Empties(mem, place))
    {
      hide Forest, Shows, Empty;
      LeafMeaning(mem, place, view, q, l3);
      TableSize(mem, place, l3);
      var had := Slot(mem, l3, q.i3);
      if had.Absent? {
        assert Drop(view, q) == view;
        return None;
      }
      WriteLeaf(l3, q.i3, Absent);
      found := Some(had.addr);
      if q.root in kernelRoots { return; }
      assert Empties(mem, place) <= old(Empties(mem, place)) + {l3};
      PruneUp(q, l1, l2, l3);
    }

    method PruneUp(q: Page, l1: Frame, l2: Frame, l3: Frame)
      requires Valid() && l2 in place && place[l2] == L2(q.root, q.i0, q.i1) && l3 in place && place[l3] == Region(q)
      requires l1 in place && place[l1] == L1(q.root, q.i0) && IsRoot(place, q.root)
      modifies this`mem, this`pool, this`place
      ensures Valid() && Owned() == old(Owned()) && Confined(old(place), place, q.root) && |pool| >= |old(pool)|
      ensures Empties(mem, place) <= old(Empties(mem, place)) - {l3}
    {
      hide Tables.Valid, Forest, Shows, Empties, Confined, Owned;
      ConfinedSelf(place, q.root);
      var any := PruneIfEmpty(l2, q.i2, l3);
      if any { return; }
      ConfinedDrop(old(place), old(place), l3, q.root);
      ghost var place1 := place;
      any := PruneIfEmpty(l1, q.i1, l2);
      if any { return; }
      ConfinedDrop(old(place), place1, l2, q.root);
      ghost var place2 := place;
      any := PruneIfEmpty(q.root, q.i0, l1);
      if !any { ConfinedDrop(old(place), place2, l1, q.root); }
      RootNotEmpty(mem, place, q.root);
    }

    /** mmu_unmap_and_get_pa; found is the frame it stores through pa. */
    method UnmapAndGetPa(root: Frame, va: Address) returns (ok: bool, found: Option<Frame>)
      requires Valid() && IsRoot(place, root)
      modifies this
      ensures Valid() && Owned() == old(Owned()) && Confined(old(place), place, root)
      ensures var q := PageOf(root, va);
              ok ==> && view == (if q in old(view).pages then Drop(Split(old(view), Region(q)), q) else old(view))
                     && found == if q in old(view).pages then Some(old(view).pages[q].frame) else None
      ensures !ok ==> Region(PageOf(root, va)) in old(view).blocks && old(pool) == []
      ensures |pool| >= |old(pool)| - 1
      ensures ok && root !in kernelRoots ==> Empties(mem, place) <= old(Empties(mem, place))
    {
      hide Forest, Shows, Empty, PageOf, FrameOf;
      var q := PageOf(root, va);
      PageOfRoot(root, va);
      var l1, l2 := FindLevel2(q);
      if l2.None? { return true, None; }
      SlotMeaning(mem, place, view, q, l2.value);
      var e := Slot(mem, l2.value, q.i2);
      if e.Absent? { return true, None; }
      if e.Block? {
        var frame := e.addr / ENTRIES * ENTRIES + q.i3;
        ok := UnmapBlockPage(q, va, frame);
        return ok, Some(frame);
      }
      LeafMeaning(mem, place, view, q, e.addr);
      assert Split(view, Region(q)) == view;
      found := ClearAndPrune(q, l1, l2.value, e.addr);
      if found.None? { assert Drop(old(view), q) == old(view); }
      return true, found;
    }

    /** The loop of mmu_free_ttbr; its stack-overflow panic cannot happen. */
    method ReleaseTables(root: Frame) returns (ghost freed: seq<Frame>)
      requires Forest(mem, place) && IsRoot(place, root)
      modifies this`mem, this`pool
      ensures pool == freed + old(pool) && mem == old(mem) - TablesOf(place, root)
      ensures forall i, j :: 0 <= i < j < |freed| ==> freed[i] != freed[j]
      ensures forall t :: t in freed <==> t in TablesOf(place, root)
    {
      hide Forest, Finished, StackOk;
      FinishedStart(place, root);
      freed := [];
      var stack := [Visit(root, 0)];
      while stack != []
        invariant StackOk(stack, place, root) && Finished(stack, place, root, freed)
        invariant pool == freed + old(pool) && mem == old(mem) - set t | t in freed
        invariant forall i, j :: 0 <= i < j < |freed| ==> freed[i] != freed[j]
        decreases Left(stack, 0), Left(stack, 1), Left(stack, 2), Left(stack, 3)
      {
        var n := |stack| - 1;
        var v := stack[n];
        TopLive(place, stack, root, freed);
        if v.i >= ENTRIES {
          FinishedPop(old(mem), place, stack, root, freed);
          pool := [v.table] + pool;
          mem := mem - {v.table};
          freed := [v.table] + freed;
          stack := stack[..n];
        } else {
          var e := Slot(mem, v.table, v.i);
          if n < 3 && e.Table? {
            FinishedPush(old(mem), place, stack, root, freed, e.addr);
            stack := stack[n := Visit(v.table, v.i + 1)] + [Visit(e.addr, 0)];
          } else {
            FinishedSkip(old(mem), place, stack, root, freed);
            stack := stack[n := Visit(v.table, v.i + 1)];
          }
        }
      }
      FinishedEnd(place, root, freed);
      assert (set t | t in freed) == TablesOf(place, root);
    }

    /** mmu_free_ttbr */
    method FreeTtbr(root: Frame)
      requires Valid() && IsRoot(place, root)
      modifies this
      ensures Valid() && view == Without(old(view), root) && Owned() == old(Owned())
      ensures mem == old(mem) - TablesOf(old(place), root) && place == old(place) - TablesOf(old(place), root)
      ensures var n := |pool| - |old(pool)|;
              n >= 0 && pool[n..] == old(pool) && (forall t :: t in pool[..n] <==> t in TablesOf(old(place), root))
    {
      hide Forest, Shows;
      TableSize(mem, place, root);
      OtherForest(mem, place, root);
      ShowsWithout(mem, place, view, root);
      ghost var freed := ReleaseTables(root);
      view := Without(view, root);
      place := place - TablesOf(place, root);
      assert pool[..|freed|] == freed;
      forall i, j | 0 <= i < j < |pool| ensures pool[i] != pool[j] {
        assert i < |freed| ==> pool[i] in freed && pool[i] in old(mem);
        assert j >= |freed| ==> pool[j] in old(pool);
      }
    }

    /** mmu_new_ttbr */
    method NewTtbr() returns (root: Option<Frame>)
      requires Valid()
      modifies this
      ensures Valid() && view == old(view) && Owned() == old(Owned())
      ensures root.None? <==> old(pool) == []
      ensures root.None? ==> mem == old(mem) && pool == old(pool) && place == old(place)
      ensures root.Some? ==> root.value !in old(place) && place == old(place)[root.value := L0(root.value)]
      ensures root.Some? ==> pool == old(pool)[1..] && mem == old(mem)[root.value := EMPTY_TABLE]
    {
      hide Forest, Shows;
      if pool == [] { return None; }
      var n := pool[0];
      assert n !in place && mem.Keys == place.Keys by { SameKeys(mem, place); }
      NewRootForest(mem, place, n);
      NewRootShows(mem, place, view, n);
      mem, pool := mem[n := EMPTY_TABLE], pool[1..];
      place := place[n := L0(n)];
      assert old(pool) == [n] + pool;
      return Some(n);
    }

    /** mmu_translate on a given root. */
    method Translate(root: Frame, va: Address) returns (status: nat, pa: nat)
      requires Valid() && IsRoot(place, root)
      ensures var q := PageOf(root, va);
              && (status == TR_OK <==> Canonical(va) && q in view.pages)
              && (status == TR_OK ==> pa == view.pages[q].frame * GRANULE + va % GRANULE)
              && (status != TR_OK ==> pa == 0)
              && (status == TR_ERR_PARAM <==> !Canonical(va))
              && (status == TR_ERR_L4 <==> Canonical(va) && q !in view.pages && T3(mem, root, q.i0, q.i1, q.i2).Some?)
              && (status == TR_ERR_L1 <==> Canonical(va) && T1(mem, root, q.i0).None?)
              && (status == TR_ERR_L2 <==>
                        Canonical(va) && T1(mem, root, q.i0).Some? && T2(mem, root, q.i0, q.i1).None?)
              && (status == TR_ERR_L3 <==>
                    && Canonical(va) && T2(mem, root, q.i0, q.i1).Some? && T3(mem, root, q.i0, q.i1, q.i2).None?
                    && Region(q) !in view.blocks)
              && status <= TR_ERR_L4
    {
      hide Forest, Shows, PageOf;
      if !Canonical(va) { return TR_ERR_PARAM, 0; }
      var q := PageOf(root, va);
      PageOfRoot(root, va);
      var e0 := Slot(mem, root, q.i0);
      var l1, l2 := FindLevel2(q);
      if !e0.Table? { return TR_ERR_L1, 0; }
      if l2.None? { return TR_ERR_L2, 0; }
      SlotMeaning(mem, place, view, q, l2.value);
      var e2 := Slot(mem, l2.value, q.i2);
      if e2.Absent? { return TR_ERR_L3, 0; }
      if e2.Block? {
        return TR_OK, (e2.addr / ENTRIES * ENTRIES + q.i3) * GRANULE + va % GRANULE;
      }
      LeafMeaning(mem, place, view, q, e2.addr);
      var e3 := Slot(mem, e2.addr, q.i3);
      if e3.Absent? { return TR_ERR_L4, 0; }
      return TR_OK, e3.addr * GRANULE + va % GRANULE;
    }

    /** mmu_set_access_flag */
    method SetAccessFlag(root: Frame, va: Address) returns (ok: bool)
      requires Valid() && IsRoot(place, root)
      modifies this`mem, this`view
      ensures Valid() && mem.Keys == old(mem.Keys)
      ensures var q := PageOf(root, va);
              && (ok <==> q in old(view).pages)
              && view == SetAfView(old(view), q)
      ensures Empties(mem, place) <= old(Empties(mem, place))
    {
      hide Forest, Shows, PageOf, Empty, PutBlock;
      var q := PageOf(root, va);
      PageOfRoot(root, va);
      TableSize(mem, place, root);
      var l1, l2 := FindLevel2(q);
      if l2.None? { return false; }
      TableSize(mem, place, l2.value);
      SlotMeaning(mem, place, view, q, l2.value);
      var e2 := Slot(mem, l2.value, q.i2);
      if e2.Absent? { return false; }
      if e2.Block? {
        SlotMeaning(mem, place, view, PageIn(Region(q), 0), l2.value);
        LeafEmpties(mem, place, l2.value, q.i2, Block(e2.addr, WithAf(e2.attr)));
        WriteBlock(l2.value, q.i2, e2.addr, WithAf(e2.attr));
        return true;
      }
      LeafMeaning(mem, place, view, q, e2.addr);
      TableSize(mem, place, e2.addr);
      var e3 := Slot(mem, e2.addr, q.i3);
      if e3.Absent? { return false; }
      LeafEmpties(mem, place, e2.addr, q.i3, Table(e3.addr, WithAf(e3.attr)));
      WriteLeaf(e2.addr, q.i3, Table(e3.addr, WithAf(e3.attr)));
      return true;
    }
  }
}
