/** How many tables an address space takes: with no empty table left behind, its page map
    decides which there are, and the pool holds the rest. */
module TableCounts {
  import opened TableForest
  import opened TableTeardown
  import opened PageTables
  import opened TableRuns

  ghost predicate NoBlocks(v: View, root: Frame) {
    forall b :: b in v.blocks ==> b.root != root
  }

  /** No table of root is empty, so unmapping leaves none behind. */
  ghost predicate Pruned(mem: Mem, place: map<Frame, Place>, root: Frame) {
    forall t :: t in Empties(mem, place) ==> place[t].root != root
  }

  /** The places below the root on the way to some page. */
  ghost function Above(pages: set<Page>): set<Place> {
    (set q | q in pages :: L1(q.root, q.i0)) + (set q | q in pages :: L2(q.root, q.i0, q.i1)) + set q | q in pages ::
        Region(q)
  }

  ghost function PagesUnder(v: View, root: Frame): set<Page> { set q | q in v.pages && q.root == root }

  lemma WayDown(mem: Mem, place: map<Frame, Place>, v: View, q: Page)
    requires Forest(mem, place) && Shows(mem, place, v) && q in v.pages && NoBlocks(v, q.root)
    ensures exists t :: t in place && place[t] == L1(q.root, q.i0)
    ensures exists t :: t in place && place[t] == L2(q.root, q.i0, q.i1)
    ensures exists t :: t in place && place[t] == Region(q)
  {
    hide Forest;
    assert ShowsAt(mem, v, q) && Locate(mem, Region(q)).Some?;
    LocateInverse(mem, place, L1(q.root, q.i0));
    LocateInverse(mem, place, L2(q.root, q.i0, q.i1));
    LocateInverse(mem, place, Region(q));
  }

  ghost function PlacesOf(place: map<Frame, Place>, root: Frame): set<Place> {
    set t | t in place && place[t].root == root :: place[t]
  }

  /** The tables of a root are the root and those on the way to its pages. */
  lemma PlacesAre(mem: Mem, place: map<Frame, Place>, v: View, root: Frame)
    requires Forest(mem, place) && Shows(mem, place, v) && IsRoot(place, root) && NoBlocks(v, root)
    requires Pruned(mem, place, root)
    ensures PlacesOf(place, root) == {L0(root)} + Above(PagesUnder(v, root))
  {
    hide Forest, Shows, Empty;
    forall u | u in place && place[u].root == root && !place[u].L0?
      ensures u in mem && !Empty(mem[u])
    {
      NotEmpty(mem, place, u);
    }
    forall t | t in place && place[t].root == root
      ensures place[t] == L0(root) || place[t] in Above(PagesUnder(v, root))
    {
      if !place[t].L0? {
        var q := PageBelow(mem, place, v, t);
        assert q in PagesUnder(v, root);
      }
    }
    forall q | q in PagesUnder(v, root)
      ensures L1(q.root, q.i0) in PlacesOf(place, root) && L2(q.root, q.i0, q.i1) in PlacesOf(place, root)
      ensures Region(q) in PlacesOf(place, root)
    {
      WayDown(mem, place, v, q);
    }
    assert L0(root) in PlacesOf(place, root);
  }

  lemma NotEmpty(mem: Mem, place: map<Frame, Place>, u: Frame)
    requires Forest(mem, place) && u in place && !place[u].L0? && Pruned(mem, place, place[u].root)
    ensures u in mem && !Empty(mem[u])
  {
    hide Forest, Empty;
    SameKeys(mem, place);
  }

  lemma {:induction false} SameSize(place: map<Frame, Place>, ts: set<Frame>)
    requires ts <= place.Keys && forall t, u :: t in ts && u in ts && place[t] == place[u] ==> t == u
    ensures |set t | t in ts :: place[t]| == |ts|
  {
    if ts != {} {
      var t :| t in ts;
      var rest := ts - {t};
      SameSize(place, rest);
      assert (set u | u in ts :: place[u]) == (set u | u in rest :: place[u]) + {place[t]};
      assert place[t] !in set u | u in rest :: place[u];
    }
  }

  /** So many tables, the root among them. */
  lemma CountTables(mem: Mem, place: map<Frame, Place>, v: View, root: Frame)
    requires Forest(mem, place) && Shows(mem, place, v) && IsRoot(place, root) && NoBlocks(v, root)
    requires Pruned(mem, place, root)
    ensures |TablesOf(place, root)| == 1 + |Above(PagesUnder(v, root))|
  {
    hide Forest, Shows, Empty, Above, PagesUnder, NoBlocks, Pruned;
    PlacesAre(mem, place, v, root);
    var ts := TablesOf(place, root);
    forall t, u | t in ts && u in ts && place[t] == place[u] ensures t == u { PlaceInjective(mem, place, t, u); }
    SameSize(place, ts);
    assert PlacesOf(place, root) == set t | t in ts :: place[t];
    BelowRoot(PagesUnder(v, root), root);
  }

  lemma BelowRoot(pages: set<Page>, root: Frame)
    ensures |{L0(root)} + Above(pages)| == 1 + |Above(pages)|
  {
    assert L0(root) !in Above(pages);
  }

  lemma {:induction false} SeqSize(s: seq<Frame>)
    requires forall i, j :: 0 <= i < j < |s| ==> s[i] != s[j]
    ensures |InPool(s)| == |s|
  {
    if s != [] {
      var rest := s[1..];
      forall i, j | 0 <= i < j < |rest| ensures rest[i] != rest[j] { assert s[i + 1] != s[j + 1]; }
      SeqSize(rest);
      assert s[0] !in InPool(rest) && InPool(s) == InPool(rest) + {s[0]} by { assert s == [s[0]] + rest; }
    }
  }

  /** Frames move between the pool and one root: what one gains the other loses. */
  lemma Exchange(place0: map<Frame, Place>, pool0: seq<Frame>, place: map<Frame, Place>, pool: seq<Frame>, root: Frame)
    requires Confined(place0, place, root) && IsRoot(place0, root)
    requires (forall i, j :: 0 <= i < j < |pool0| ==> pool0[i] != pool0[j])
    requires (forall i, j :: 0 <= i < j < |pool| ==> pool[i] != pool[j])
    requires (forall n :: n in pool0 ==> n !in place0) && (forall n :: n in pool ==> n !in place)
    requires place0.Keys + InPool(pool0) == place.Keys + InPool(pool)
    ensures |pool| + |TablesOf(place, root)| == |pool0| + |TablesOf(place0, root)|
  {
    SeqSize(pool0);
    SeqSize(pool);
    assert place0.Keys - TablesOf(place0, root) == place.Keys - TablesOf(place, root);
    Swap(place0.Keys, InPool(pool0), TablesOf(place0, root), place.Keys, InPool(pool), TablesOf(place, root));
  }

  lemma Swap<T>(k0: set<T>, a0: set<T>, t0: set<T>, k: set<T>, a: set<T>, t: set<T>)
    requires k0 !! a0 && k !! a && t0 <= k0 && t <= k && k0 + a0 == k + a && k0 - t0 == k - t
    ensures |a| + |t| == |a0| + |t0|
  {
    Union(a0, t0);
    Union(a, t);
    assert a0 + t0 == (k0 + a0) - (k0 - t0);
    assert a + t == (k + a) - (k - t);
  }

  /** Pool and page map together are as before, whatever was mapped and unmapped. */
  lemma Balance(mem0: Mem, place0: map<Frame, Place>, v0: View, pool0: seq<Frame>,
                mem: Mem, place: map<Frame, Place>, v: View, pool: seq<Frame>, root: Frame)
    requires Forest(mem0, place0) && Shows(mem0, place0, v0) && IsRoot(place0, root) && NoBlocks(v0, root)
    requires Pruned(mem0, place0, root)
    requires Forest(mem, place) && Shows(mem, place, v) && IsRoot(place, root) && NoBlocks(v, root)
    requires Pruned(mem, place, root)
    requires Confined(place0, place, root) && mem0.Keys + InPool(pool0) == mem.Keys + InPool(pool)
    requires (forall i, j :: 0 <= i < j < |pool0| ==> pool0[i] != pool0[j])
    requires (forall i, j :: 0 <= i < j < |pool| ==> pool[i] != pool[j])
    requires (forall n :: n in pool0 ==> n !in mem0) && (forall n :: n in pool ==> n !in mem)
    ensures |pool| + |Above(PagesUnder(v, root))| == |pool0| + |Above(PagesUnder(v0, root))|
  {
    hide Forest, Shows, Empty, Confined, NoBlocks, Pruned, Above;
    SameKeys(mem0, place0);
    SameKeys(mem, place);
    CountTables(mem0, place0, v0, root);
    CountTables(mem, place, v, root);
    Exchange(place0, pool0, place, pool, root);
  }

  /** A page more takes at most three tables more. */
  lemma AboveMore(pages: set<Page>, q: Page)
    ensures |Above(pages)| <= |Above(pages + {q})| <= |Above(pages)| + 3
  {
    hide Above;
    var more := {L1(q.root, q.i0), L2(q.root, q.i0, q.i1), Region(q)};
    AboveAdded(pages, q);
    var added := more - Above(pages);
    assert Above(pages) + more == Above(pages) + added;
    Union(Above(pages), added);
    SubsetSize(added, more);
  }

  lemma AboveAdded(pages: set<Page>, q: Page)
    ensures Above(pages + {q}) == Above(pages) + {L1(q.root, q.i0), L2(q.root, q.i0, q.i1), Region(q)}
  {
    assert forall r :: r in pages + {q} <==> r in pages || r == q;
    Parts(pages, q);
  }

  lemma Parts(pages: set<Page>, q: Page)
    ensures (set r | r in pages + {q} :: L1(r.root, r.i0)) == (set r | r in pages :: L1(r.root, r.i0))
        + {L1(q.root, q.i0)}
    ensures (set r | r in pages + {q} :: L2(r.root, r.i0, r.i1)) == (set r | r in pages :: L2(r.root, r.i0, r.i1))
        + {L2(q.root, q.i0, q.i1)}
    ensures (set r | r in pages + {q} :: Region(r)) == (set r | r in pages :: Region(r)) + {Region(q)}
  {
    assert q in pages + {q};
    forall r | r in pages ensures r in pages + {q} { }
  }

  lemma Union<T>(a: set<T>, b: set<T>)
    ensures a !! b ==> |a + b| == |a| + |b|
  {
  }

  lemma {:induction false} SubsetSize<T>(a: set<T>, b: set<T>)
    requires a <= b
    ensures |a| <= |b|
  {
    assert b == a + (b - a);
  }

  /** Fewer pages take no more tables. */
  lemma AboveFewer(pages: set<Page>, more: set<Page>)
    requires pages <= more
    ensures |Above(pages)| <= |Above(more)|
  {
    SubsetSize(Above(pages), Above(more));
  }
}
