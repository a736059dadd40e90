/** What a user process stands on: its translation tables, the physical page
    allocator and the contents of physical memory. The process model sees the
    tables as a map from user page numbers and the allocator as a set of frames. */
module Backing {
  import opened Wrappers
  import opened TableForest
  import opened Descriptors
  import opened PageTables
  import opened TableTeardown
  import opened TableCounts
  import opened PageBitmap

  const MAIR_IDX_NORMAL: bv64 := 1
  const USER_PAGES := 0x8_0000_0000

  type Bytes = seq<bv8>

  function PageAt(root: Frame, n: nat): Page {
    Page(root, (n / 0x800_0000) % 512, (n / 0x4_0000) % 512, (n / 0x200) % 512, n % 512)
  }

  function NumberOf(q: Page): nat { ((q.i0 * 512 + q.i1) * 512 + q.i2) * 512 + q.i3 }

  lemma NumberRoundTrip(root: Frame, n: nat)
    requires n < 0x10_0000_0000
    ensures NumberOf(PageAt(root, n)) == n
  {
    assert n / 0x200 / 512 == n / 0x4_0000 && n / 0x4_0000 / 512 == n / 0x800_0000;
  }

  lemma PageRoundTrip(q: Page)
    ensures PageAt(q.root, NumberOf(q)) == q
  {
    var a, b := q.i0 * 512 + q.i1, (q.i0 * 512 + q.i1) * 512 + q.i2;
    var n := NumberOf(q);
    assert n / 512 == b && b / 512 == a && a / 512 == q.i0;
    assert n / 0x4_0000 == a && n / 0x800_0000 == q.i0;
  }

  lemma PageOfNumber(root: Frame, va: Address)
    requires va < 0x1_0000_0000_0000
    ensures PageOf(root, va) == PageAt(root, va / GRANULE) && (va < USER_PAGES * GRANULE ==> Canonical(va))
  {
    var n := va / GRANULE;
    assert n / 0x200 == va / 0x20_0000 && n / 0x4_0000 == va / 0x4000_0000 && n / 0x800_0000 == va / 0x80_0000_0000;
  }

  /** The number of the page an address is looked up at: bits 63 to 48 do not take part. */
  function LookupPage(va: nat): nat { va / GRANULE % 0x10_0000_0000 }

  lemma PageOfLookup(root: Frame, va: Address)
    ensures PageOf(root, va) == PageAt(root, LookupPage(va))
  {
    var n := va / GRANULE;
    assert n / 0x200 == va / 0x20_0000 && n / 0x4_0000 == va / 0x4000_0000 && n / 0x800_0000 == va / 0x80_0000_0000;
    LowIndices(n / 0x10_0000_0000, LookupPage(va));
  }

  lemma LowIndices(h: nat, m: nat)
    ensures var n := h * 0x10_0000_0000 + m;
            && n % 512 == m % 512 && n / 0x200 % 512 == m / 0x200 % 512
            && n / 0x4_0000 % 512 == m / 0x4_0000 % 512 && n / 0x800_0000 % 512 == m / 0x800_0000 % 512
  {
    Low0(h, m);
    Low1(h, m);
    Low2(h, m);
    Low3(h, m);
  }

  lemma Low0(h: nat, m: nat)
    ensures (h * 0x10_0000_0000 + m) % 512 == m % 512
  {
  }

  lemma Low1(h: nat, m: nat)
    ensures (h * 0x10_0000_0000 + m) / 0x200 % 512 == m / 0x200 % 512
  {
    assert (h * 0x10_0000_0000 + m) / 0x200 == h * 0x800_0000 + m / 0x200;
  }

  lemma Low2(h: nat, m: nat)
    ensures (h * 0x10_0000_0000 + m) / 0x4_0000 % 512 == m / 0x4_0000 % 512
  {
    assert (h * 0x10_0000_0000 + m) / 0x4_0000 == h * 0x4_0000 + m / 0x4_0000;
  }

  lemma Low3(h: nat, m: nat)
    ensures (h * 0x10_0000_0000 + m) / 0x800_0000 % 512 == m / 0x800_0000 % 512
  {
    assert (h * 0x10_0000_0000 + m) / 0x800_0000 == h * 0x200 + m / 0x800_0000;
  }

  /** The pages of one root, by page number. */
  ghost function UserMap(v: View, root: Frame): map<nat, Leaf> {
    map n | n in (set q | q in v.pages && q.root == root :: NumberOf(q)) && PageAt(root, n) in v.pages ::
        v.pages[PageAt(root, n)]
  }

  lemma UserMapAt(v: View, root: Frame, n: nat)
    requires n < 0x10_0000_0000
    ensures n in UserMap(v, root) <==> PageAt(root, n) in v.pages
    ensures n in UserMap(v, root) ==> UserMap(v, root)[n] == v.pages[PageAt(root, n)]
  {
    NumberRoundTrip(root, n);
  }

  ghost function AsPages(root: Frame, ns: set<nat>): set<Page> { set n | n in ns :: PageAt(root, n) }

  /** The tables below the root that these pages take. */
  ghost function TablesFor(root: Frame, ns: set<nat>): nat { |Above(AsPages(root, ns))| }

  lemma UserPages(v: View, root: Frame)
    ensures PagesUnder(v, root) == AsPages(root, UserMap(v, root).Keys)
  {
    forall q | q in PagesUnder(v, root) ensures q in AsPages(root, UserMap(v, root).Keys) {
      PageRoundTrip(q);
      assert NumberOf(q) in UserMap(v, root).Keys;
    }
  }

  lemma TablesForFewer(root: Frame, ns: set<nat>, more: set<nat>)
    requires ns <= more
    ensures TablesFor(root, ns) <= TablesFor(root, more)
  {
    hide Above, PageAt;
    AboveFewer(AsPages(root, ns), AsPages(root, more));
  }

  lemma UserMapPut(v: View, root: Frame, n: nat, l: Leaf)
    requires n < 0x10_0000_0000
    ensures UserMap(Put(v, PageAt(root, n), l), root) == UserMap(v, root)[n := l]
  {
    var v' := Put(v, PageAt(root, n), l);
    forall m ensures m in UserMap(v', root) <==> m in UserMap(v, root)[n := l] {
      if m < 0x10_0000_0000 {
        UserMapAt(v, root, m);
        UserMapAt(v', root, m);
        NumberRoundTrip(root, n);
        NumberRoundTrip(root, m);
      }
    }
    forall m | m in UserMap(v', root) ensures UserMap(v', root)[m] == UserMap(v, root)[n := l][m] {
      NumberRoundTrip(root, n);
      NumberRoundTrip(root, m);
    }
  }

  lemma UserMapDrop(v: View, root: Frame, n: nat)
    requires n < 0x10_0000_0000
    ensures UserMap(Drop(v, PageAt(root, n)), root) == UserMap(v, root) - {n}
  {
    var v' := Drop(v, PageAt(root, n));
    forall m ensures m in UserMap(v', root) <==> m in UserMap(v, root) - {n} {
      if m < 0x10_0000_0000 {
        UserMapAt(v, root, m);
        UserMapAt(v', root, m);
        NumberRoundTrip(root, n);
        NumberRoundTrip(root, m);
      }
    }
  }

  /** The page map with the access flag of page n set. */
  function Accessed(pages: map<nat, Leaf>, n: nat): map<nat, Leaf>
    requires n in pages
  {
    pages[n := Leaf(pages[n].frame, WithAf(pages[n].attr))]
  }

  /** The managed pages marked used. */
  ghost function UsedSet(ws: seq<Word>, min: nat, max: nat): set<nat> {
    set p | min <= p < max && p / WORD < |ws| && ws[p / WORD][p % WORD]
  }

  lemma UsedSetSet(ws: seq<Word>, vs: seq<Word>, min: nat, max: nat, p: nat, value: bool)
    requires Rewritten(ws, vs, p, p + 1, value) && min <= p < max && max <= |ws| * WORD
    ensures UsedSet(vs, min, max) == if value then UsedSet(ws, min, max) + {p} else UsedSet(ws, min, max) - {p}
  {
    forall k | min <= k < max
      ensures vs[k / WORD][k % WORD] == if k == p then value else ws[k / WORD][k % WORD]
    {
      assert k / WORD * WORD + k % WORD == k;
    }
  }

  function UserAttr(prot: bv8): bv64 { Attributes(MAIR_IDX_NORMAL, prot, User) }

  function Splice(page: Bytes, off: nat, b: Bytes): Bytes
    requires off + |b| <= |page|
  {
    page[..off] + b + page[off + |b|..]
  }

  class Memory {
    const pt: Tables
    const frames: Allocator
    const root: Frame
    var ram: map<nat, Bytes>

    constructor (pt: Tables, frames: Allocator, root: Frame, ram: map<nat, Bytes>)
      ensures this.pt == pt && this.frames == frames && this.root == root && this.ram == ram
    {
      this.pt, this.frames, this.root, this.ram := pt, frames, root, ram;
    }

    ghost predicate Valid()
      reads this, pt, frames, frames.bitmap
    {
      && pt.Valid() && IsRoot(pt.place, root) && root !in pt.kernelRoots
      && NoBlocks(pt.view, root) && Pruned(pt.mem, pt.place, root)
      && frames.Valid() && frames.max <= FRAMES
      && (forall f :: frames.min <= f < frames.max ==> f in ram)
      && (forall f :: f in ram ==> |ram[f]| == GRANULE)
    }

    ghost function Pages(): map<nat, Leaf>
      reads pt
    {
      UserMap(pt.view, root)
    }

    ghost function Used(): set<nat>
      reads this, frames, frames.bitmap
    {
      UsedSet(frames.bitmap[..], frames.min, frames.max)
    }

    ghost function Books(): Ledger
      reads pt
    {
      Ledger(Without(pt.view, root), pt.place - TablesOf(pt.place, root), pt.Owned(),
             |pt.pool| + TablesFor(root, Pages().Keys))
    }

    lemma BooksAre()
      ensures Books().tables == |pt.pool| + TablesFor(root, Pages().Keys)
    {
    }

    /** palloc_inner for one page, without mapping it. */
    method AllocFrame() returns (f: Option<nat>)
      requires Valid()
      modifies frames`hint, frames.bitmap
      ensures Valid()
      ensures f.Some? ==>
                f.value !in old(Used()) && frames.min <= f.value < frames.max && Used() == old(Used()) + {f.value}
      ensures f.None? ==> Used() == old(Used()) && forall p :: frames.min <= p < frames.max ==> p in Used()
    {
      hide Forest, Shows, Empty, SealedBits, Rewritten;
      f := frames.AllocPage();
      if f.Some? {
        UsedSetSet(old(frames.bitmap[..]), frames.bitmap[..], frames.min, frames.max, f.value, true);
      } else {
        forall p: nat | frames.min <= p < frames.max ensures p in Used() { assert Bit(old(frames.bitmap[..]), p); }
      }
    }

    /** pfree of one page that the allocator handed out. */
    method FreeFrame(f: nat)
      requires Valid() && f in Used()
      modifies frames`hint, frames.bitmap
      ensures Valid() && Used() == old(Used()) - {f}
    {
      hide Forest, Shows, Empty, SealedBits, Rewritten;
      var ok := frames.Free(f, 1);
      UsedSetSet(old(frames.bitmap[..]), frames.bitmap[..], frames.min, frames.max, f, false);
    }

    /** mmu_map_4kb of an unmapped user page; false is its panic for want of a table. */
    method MapFrame(n: nat, f: nat, prot: bv8, level: Privilege) returns (ok: bool)
      requires Valid() && n < USER_PAGES && n !in Pages() && f < FRAMES && !level.Kernel?
      modifies pt
      ensures (ok <== |old(pt.pool)| >= 3) && |pt.pool| >= |old(pt.pool)| - 3
      ensures ok ==> Valid() && Pages() == old(Pages())[n := Leaf(f, UserAttr(prot))] && Books() == old(Books())
    {
      hide Forest, Shows, Empty, SealedBits, UserMap, PageOf, Attributes, FrameOf, PageAt, Without, TablesOf, MapsAgain,
        MapPageView, Put, NoBlocks;
      FreshView(pt.view, root, n, f, prot, level);
      ghost var mem0, place0, view0, pool0 := pt.mem, pt.place, pt.view, pt.pool;
      ok := pt.MapPage(root, n * GRANULE, f * GRANULE, MAIR_IDX_NORMAL, prot, level);
      if ok { Balanced(mem0, place0, view0, pool0); }
    }

    lemma Balanced(mem0: Mem, place0: map<Frame, Place>, v0: View, pool0: seq<Frame>)
      requires Valid()
      requires Forest(mem0, place0) && Shows(mem0, place0, v0) && IsRoot(place0, root) && NoBlocks(v0, root)
      requires Pruned(mem0, place0, root)
      requires Confined(place0, pt.place, root) && mem0.Keys + InPool(pool0) == pt.Owned()
      requires (forall i, j :: 0 <= i < j < |pool0| ==> pool0[i] != pool0[j]) && (forall n :: n in pool0 ==> n !in mem0)
      ensures Books().tables == |pool0| + TablesFor(root, UserMap(v0, root).Keys)
      ensures Books().places == place0 - TablesOf(place0, root)
    {
      hide Forest, Shows, Confined, NoBlocks, Pruned, UserMap, AsPages, PagesUnder, Above;
      Balance(mem0, place0, v0, pool0, pt.mem, pt.place, pt.view, pt.pool, root);
      OtherPlaces(place0, pt.place, root);
      UserPages(v0, root);
      UserPages(pt.view, root);
    }

    /** mmu_unmap_and_get_pa of a user page. */
    method Unmap(n: nat) returns (f: Option<nat>)
      requires Valid() && n < USER_PAGES
      modifies pt
      ensures Valid() && Pages() == old(Pages()) - {n} && Books() == old(Books())
      ensures f == if n in old(Pages()) then Some(old(Pages())[n].frame) else None
    {
      hide Forest, Shows, Empty, SealedBits, UserMap, PageOf, PageAt, TablesFor, Without, TablesOf;
      PageOfNumber(root, n * GRANULE);
      UserMapAt(pt.view, root, n);
      UserMapDrop(pt.view, root, n);
      AtRoot(root, n);
      NoSplit(pt.view, PageAt(root, n));
      assert n !in Pages() ==> Pages() - {n} == Pages();
      ghost var mem0, place0, view0, pool0 := pt.mem, pt.place, pt.view, pt.pool;
      DropElsewhere(pt.view, PageAt(root, n));
      var ok;
      ok, f := pt.UnmapAndGetPa(root, n * GRANULE);
      Balanced(mem0, place0, view0, pool0);
    }

    /** mmu_translate of a user address: the frame it lies in. */
    method Translate(va: nat) returns (f: Option<nat>)
      requires Valid() && va < USER_PAGES * GRANULE
      ensures f == if va / GRANULE in Pages() then Some(Pages()[va / GRANULE].frame) else None
    {
      hide Forest, Shows, Empty, SealedBits, UserMap, PageOf, PageAt, Canonical;
      PageOfNumber(root, va);
      UserMapAt(pt.view, root, va / GRANULE);
      var status, pa := pt.Translate(root, va);
      if status != TR_OK { return None; }
      return Some(pa / GRANULE);
    }

    /** A new frame for an unmapped user page, zeroed on request. */
    method Populate(n: nat, prot: bv8, zero: bool) returns (r: Outcome, f: nat)
      requires Valid() && n < USER_PAGES && n !in Pages()
      modifies this`ram, pt, frames`hint, frames.bitmap
      ensures !r.Panicked? ==> Valid()
      ensures r.Refused? ==> Pages() == old(Pages()) && Used() == old(Used()) && ram == old(ram)
      ensures r.Refused? ==> forall p :: frames.min <= p < frames.max ==> p in Used()
      ensures r.Handled? ==> f !in old(Used()) && frames.min <= f < frames.max && Used() == old(Used()) + {f}
      ensures r.Handled? ==> Pages() == old(Pages())[n := Leaf(f, UserAttr(prot))]
      ensures r.Handled? ==> f in old(ram) && ram.Keys == old(ram).Keys
      ensures r.Handled? ==> ram == old(ram)[f := if zero then ZERO_PAGE else old(ram)[f]]
      ensures (r.Panicked? ==> |old(pt.pool)| < 3) && |pt.pool| >= |old(pt.pool)| - 3
      ensures !r.Panicked? ==> Books() == old(Books())
    {
      hide Forest, Shows, Empty, SealedBits, UserMap, UsedSet, Pruned, NoBlocks, Attributes, TablesFor;
      var got := AllocFrame();
      if got.None? { return Refused, 0; }
      f := got.value;
      if zero { ram := ram[f := ZERO_PAGE]; }
      var ok := MapFrame(n, f, prot, User);
      return (if ok then Handled else Panicked), f;
    }

    /** memcpy into a frame through the direct map. */
    method Store(f: nat, off: nat, b: Bytes)
      requires Valid() && f in ram && off + |b| <= GRANULE
      modifies this`ram
      ensures Valid() && ram.Keys == old(ram.Keys) && |old(ram)[f]| == GRANULE
      ensures ram == old(ram)[f := Splice(old(ram)[f], off, b)]
    {
      hide Forest, Shows, Empty, SealedBits, Pruned, NoBlocks;
      ram := ram[f := Splice(ram[f], off, b)];
    }

    /** memcpy out of one. */
    method Load(f: nat, off: nat, size: nat) returns (b: Bytes)
      requires Valid() && f in ram && off + size <= GRANULE
      ensures |b| == size && b == ram[f][off..off + size]
    {
      b := ram[f][off..off + size];
    }

    /** mmu_set_access_flag */
    method Touch(va: Address) returns (hit: bool)
      requires Valid()
      modifies pt`mem, pt`view
      ensures Valid() && (hit <==> LookupPage(va) in old(Pages())) && Books() == old(Books())
      ensures Pages() == if hit then Accessed(old(Pages()), LookupPage(va)) else old(Pages())
    {
      hide Forest, Shows, Empty, SealedBits, UserMap, UsedSet, PageOf, PageAt, SetAfView, WithAf, LookupPage, TablesFor,
        Without, TablesOf;
      LookupBound(va);
      var n := LookupPage(va);
      PageOfLookup(root, va);
      UserMapAt(pt.view, root, n);
      AtRoot(root, n);
      if n in Pages() {
        UserMapPut(pt.view, root, n, Leaf(Pages()[n].frame, WithAf(Pages()[n].attr)));
      }
      TouchView(pt.view, PageAt(root, n));
      if n in Pages() { PutElsewhere(pt.view, PageAt(root, n), Leaf(Pages()[n].frame, WithAf(Pages()[n].attr))); }
      hit := pt.SetAccessFlag(root, va);
      assert Pages().Keys == old(Pages()).Keys;
    }
  }

  /** What no operation of a process changes: what the other roots map and their tables,
      which frames are tables or in the pool, and how many of them are in the pool or
      under the root. */
  datatype Ledger = Ledger(others: View, places: map<Frame, Place>, owned: set<Frame>, tables: nat)

  lemma OtherPlaces(place0: map<Frame, Place>, place: map<Frame, Place>, root: Frame)
    requires Confined(place0, place, root)
    ensures place - TablesOf(place, root) == place0 - TablesOf(place0, root)
  {
    var a, b := place - TablesOf(place, root), place0 - TablesOf(place0, root);
    assert forall u :: u in a <==> u in b;
  }

  /** Mapping an unmapped user page adds it to the pages of its root and changes nothing else. */
  lemma FreshView(v: View, root: Frame, n: nat, f: nat, prot: bv8, level: Privilege)
    requires NoBlocks(v, root) && n < USER_PAGES && n !in UserMap(v, root) && f < FRAMES && !level.Kernel?
    ensures var w := Put(v, PageAt(root, n), Leaf(f, UserAttr(prot)));
            && MapPageView(v, PageOf(root, n * GRANULE), f * GRANULE, Attributes(MAIR_IDX_NORMAL, prot, level), false)
               == Some(w)
            && UserMap(w, root) == UserMap(v, root)[n := Leaf(f, UserAttr(prot))]
            && Without(w, root) == Without(v, root) && NoBlocks(w, root)
  {
    hide UserMap, PageOf, Attributes, FrameOf, PageAt, Without, Remap;
    PageOfNumber(root, n * GRANULE);
    UserMapAt(v, root, n);
    UserMapPut(v, root, n, Leaf(f, UserAttr(prot)));
    FrameOfSum(f, 0, f);
    AtRoot(root, n);
    NoSplit(v, PageAt(root, n));
    SharedAttr(prot, level);
    PutElsewhere(v, PageAt(root, n), Leaf(f, UserAttr(prot)));
  }

  lemma PutElsewhere(v: View, q: Page, l: Leaf)
    ensures Without(Put(v, q, l), q.root) == Without(v, q.root)
  {
    assert Without(Put(v, q, l), q.root).pages == Without(v, q.root).pages;
  }

  lemma DropElsewhere(v: View, q: Page)
    ensures Without(Drop(v, q), q.root) == Without(v, q.root)
  {
    assert Without(Drop(v, q), q.root).pages == Without(v, q.root).pages;
  }

  datatype Outcome = Handled | Refused | Panicked

  const ZERO_PAGE: Bytes := Zeros(GRANULE)

  lemma NoSplit(v: View, q: Page)
    requires NoBlocks(v, q.root)
    ensures Split(v, Region(q)) == v && Region(q) !in v.blocks
  {
    assert Region(q) !in v.blocks;
  }

  lemma TouchView(v: View, q: Page)
    requires NoBlocks(v, q.root)
    ensures SetAfView(v, q) == if q in v.pages then Put(v, q, Leaf(v.pages[q].frame, WithAf(v.pages[q].attr))) else v
    ensures SetAfView(v, q).blocks == v.blocks
  {
  }

  lemma LookupBound(va: nat)
    ensures LookupPage(va) < 0x10_0000_0000
  {
  }

  /** Shared pages have the descriptors of user pages. */
  lemma SharedAttr(prot: bv8, level: Privilege)
    requires !level.Kernel?
    ensures Attributes(MAIR_IDX_NORMAL, prot, level) == UserAttr(prot)
  {
  }

  lemma AtRoot(root: Frame, n: nat)
    ensures PageAt(root, n).root == root
  {
  }
}
