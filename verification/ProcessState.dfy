/** What holds of a user process between any two system calls, faults or copies:
    the agreement of page map, frames, areas, stack bounds and resident counters
    kept by kernel/memory/mm_process.c and kernel/process/syscall.c. */
module ProcessState {
  import opened TableForest
  import opened Vmas
  import opened MmapWindow

  const KIND_ANON := 3
  const LOWER_HALF := 0x8000_0000_0000

  type PageMap = map<nat, Leaf>

  ghost predicate KindAt(vs: seq<Vma>, a: nat, kind: nat) {
    AttrAt(vs, a).Some? && AttrAt(vs, a).value.kind == kind
  }

  /** Mapped pages of anonymous areas. */
  ghost function Anon(pages: PageMap, vs: seq<Vma>): set<nat> {
    set n | n in pages && KindAt(vs, n * PAGE, KIND_ANON)
  }

  /** Mapped pages lie in areas, on distinct frames with contents; the frames of
      stack and anonymous pages are the allocator's and in use. */
  ghost predicate FramesOk(pages: PageMap, used: set<nat>, lo: nat, hi: nat, ram: set<nat>, vs: seq<Vma>) {
    && (forall n :: n in pages ==> pages[n].frame in ram && AttrAt(vs, n * PAGE).Some?)
    && (forall n :: n in pages && lo <= pages[n].frame < hi ==> pages[n].frame in used)
    && (forall n, m :: n in pages && m in pages && pages[n].frame == pages[m].frame ==> n == m)
    && (forall n :: n in pages && (KindAt(vs, n * PAGE, KIND_ANON) || KindAt(vs, n * PAGE, KIND_STACK)) ==>
              lo <= pages[n].frame < hi)
  }

  datatype Stack = Stack(limit: nat, commit: nat, top: nat)

  /** Of the stack area exactly the pages from the commit point up are mapped. */
  ghost predicate StackMapped(pages: PageMap, vs: seq<Vma>, s: Stack) {
    && AlignedTo(s.limit) && AlignedTo(s.commit) && AlignedTo(s.top)
    && PAGE <= s.limit <= s.commit <= s.top <= LOWER_HALF
    && (forall a :: s.limit <= a < s.top ==> KindAt(vs, a, KIND_STACK))
    && (forall n :: s.limit <= n * PAGE < s.top ==> (n in pages <==> n * PAGE >= s.commit))
  }

  /** The counters say what is resident, and respect the caps. */
  ghost predicate Counted(pages: PageMap, vs: seq<Vma>, s: Stack, rssStack: nat, capStack: nat, rssAnon: nat,
                          capAnon: nat) {
    && rssStack * PAGE == s.top - s.commit && rssStack <= capStack
    && rssAnon == |Anon(pages, vs)| && rssAnon <= capAnon
  }

  ghost predicate LowAreas(vs: seq<Vma>) {
    Sorted(vs) && forall a: nat :: AttrAt(vs, a).Some? ==> a < LOWER_HALF
  }

  /** A fresh frame for an unmapped page of an area keeps the frames in order. */
  lemma MapFrames(pages: PageMap, used: set<nat>, lo: nat, hi: nat, ram: set<nat>, vs: seq<Vma>, n: nat, l: Leaf)
    requires FramesOk(pages, used, lo, hi, ram, vs) && l.frame !in used && lo <= l.frame < hi && l.frame in ram
    requires AttrAt(vs, n * PAGE).Some?
    ensures FramesOk(pages[n := l], used + {l.frame}, lo, hi, ram, vs)
  {
  }

  lemma UnmapFrames(pages: PageMap, used: set<nat>, lo: nat, hi: nat, ram: set<nat>, vs: seq<Vma>, n: nat)
    requires FramesOk(pages, used, lo, hi, ram, vs) && n in pages
    ensures FramesOk(pages - {n}, used - {pages[n].frame}, lo, hi, ram, vs)
  {
  }

  lemma AnonMap(pages: PageMap, vs: seq<Vma>, n: nat, l: Leaf)
    requires n !in pages
    ensures Anon(pages[n := l], vs) == if KindAt(vs, n * PAGE, KIND_ANON) then Anon(pages, vs) + {n}
        else Anon(pages, vs)
    ensures |Anon(pages[n := l], vs)| == |Anon(pages, vs)| + if KindAt(vs, n * PAGE, KIND_ANON) then 1 else 0
  {
    assert n !in Anon(pages, vs);
    assert Anon(pages[n := l], vs) == if KindAt(vs, n * PAGE, KIND_ANON) then Anon(pages, vs) + {n}
        else Anon(pages, vs);
  }

  /** Everything that must agree, as one snapshot. */
  datatype Snap = Snap(pages: PageMap, used: set<nat>, vs: seq<Vma>, stack: Stack, rssStack: nat, rssAnon: nat)

  /** What does not change over the life of a process. */
  datatype Limits = Limits(lo: nat, hi: nat, ram: set<nat>, capStack: nat, capAnon: nat)

  ghost predicate Sound(s: Snap, c: Limits) {
    && LowAreas(s.vs) && FramesOk(s.pages, s.used, c.lo, c.hi, c.ram, s.vs) && StackMapped(s.pages, s.vs, s.stack)
    && Counted(s.pages, s.vs, s.stack, s.rssStack, c.capStack, s.rssAnon, c.capAnon)
  }

  /** One page of stack growth. */
  lemma GrowOne(s: Snap, c: Limits, l: Leaf)
    requires Sound(s, c) && s.stack.limit + PAGE <= s.stack.commit && s.rssStack < c.capStack
    requires l.frame !in s.used && c.lo <= l.frame < c.hi && l.frame in c.ram
    ensures var n := s.stack.commit / PAGE - 1;
            && n !in s.pages && AttrAt(s.vs, n * PAGE).Some? && n * PAGE == s.stack.commit - PAGE
            && Sound(s.(pages := s.pages[n := l], used := s.used + {l.frame},
                        stack := s.stack.(commit := s.stack.commit - PAGE), rssStack := s.rssStack + 1), c)
  {
    hide AttrAt, Sorted;
    var n := s.stack.commit / PAGE - 1;
    assert n * PAGE == s.stack.commit - PAGE;
    assert KindAt(s.vs, n * PAGE, KIND_STACK);
    MapFrames(s.pages, s.used, c.lo, c.hi, c.ram, s.vs, n, l);
    AnonMap(s.pages, s.vs, n, l);
  }

  lemma StackFrame(pages: PageMap, used: set<nat>, lo: nat, hi: nat, ram: set<nat>, vs: seq<Vma>, n: nat)
    requires FramesOk(pages, used, lo, hi, ram, vs) && n in pages && KindAt(vs, n * PAGE, KIND_STACK)
    ensures lo <= pages[n].frame < hi && pages[n].frame in used
  {
  }

  /** One page of undoing it. */
  lemma ShrinkOne(s: Snap, c: Limits)
    requires Sound(s, c) && s.stack.commit < s.stack.top
    ensures var n := s.stack.commit / PAGE;
            && n in s.pages && s.rssStack > 0 && c.lo <= s.pages[n].frame < c.hi && s.pages[n].frame in s.used
            && Sound(s.(pages := s.pages - {n}, used := s.used - {s.pages[n].frame},
                        stack := s.stack.(commit := s.stack.commit + PAGE), rssStack := s.rssStack - 1), c)
  {
    hide AttrAt, Sorted, FramesOk;
    var n := s.stack.commit / PAGE;
    assert n * PAGE == s.stack.commit;
    assert KindAt(s.vs, n * PAGE, KIND_STACK);
    StackFrame(s.pages, s.used, c.lo, c.hi, c.ram, s.vs, n);
    UnmapFrames(s.pages, s.used, c.lo, c.hi, c.ram, s.vs, n);
    assert Anon(s.pages - {n}, s.vs) == Anon(s.pages, s.vs);
  }

  ghost function FramesIn(pages: PageMap, lo: nat, hi: nat): set<nat> {
    set n | n in pages && lo <= n * PAGE < hi :: pages[n].frame
  }

  /** p and u are p0 and u0 with the pages [lo, hi) mapped to new frames. */
  ghost predicate Grown(p0: PageMap, u0: set<nat>, p: PageMap, u: set<nat>, lo: nat, hi: nat, attr: bv64) {
    && (forall n :: n in p <==> n in p0 || lo <= n * PAGE < hi)
    && (forall n :: n in p0 ==> !(lo <= n * PAGE < hi) && p[n] == p0[n])
    && (forall n :: n in p && lo <= n * PAGE < hi ==> p[n].attr == attr && p[n].frame !in u0)
    && u == u0 + FramesIn(p, lo, hi)
  }

  lemma GrownNothing(p: PageMap, u: set<nat>, hi: nat, attr: bv64)
    ensures Grown(p, u, p, u, hi, hi, attr)
  {
    assert FramesIn(p, hi, hi) == {};
  }

  lemma GrownBack(p0: PageMap, u0: set<nat>, p: PageMap, u: set<nat>, hi: nat, attr: bv64)
    requires Grown(p0, u0, p, u, hi, hi, attr)
    ensures p == p0 && u == u0
  {
    assert FramesIn(p, hi, hi) == {};
  }

  lemma FramesInBelow(p: PageMap, lo: nat, hi: nat, l: Leaf)
    requires AlignedTo(lo) && PAGE <= lo <= hi && lo / PAGE - 1 !in p
    ensures FramesIn(p[lo / PAGE - 1 := l], lo - PAGE, hi) == FramesIn(p, lo, hi) + {l.frame}
  {
    var n := lo / PAGE - 1;
    var p' := p[n := l];
    assert n in p' && lo - PAGE <= n * PAGE < hi && p'[n] == l;
    forall f | f in FramesIn(p, lo, hi) ensures f in FramesIn(p', lo - PAGE, hi) {
      var m :| m in p && lo <= m * PAGE < hi && p[m].frame == f;
      assert m in p' && p'[m] == p[m];
    }
    forall f | f in FramesIn(p', lo - PAGE, hi) ensures f in FramesIn(p, lo, hi) + {l.frame} {
      var m :| m in p' && lo - PAGE <= m * PAGE < hi && p'[m].frame == f;
      assert m != n ==> m in p && lo <= m * PAGE && p[m] == p'[m];
    }
  }

  lemma GrownDown(p0: PageMap, u0: set<nat>, p: PageMap, u: set<nat>, lo: nat, hi: nat, attr: bv64, l: Leaf)
    requires Grown(p0, u0, p, u, lo, hi, attr) && AlignedTo(lo) && PAGE <= lo <= hi && l.attr == attr && l.frame !in u
    requires lo / PAGE - 1 !in p
    ensures Grown(p0, u0, p[lo / PAGE - 1 := l], u + {l.frame}, lo - PAGE, hi, attr)
  {
    hide FramesIn;
    var n := lo / PAGE - 1;
    assert n * PAGE == lo - PAGE;
    forall m ensures lo - PAGE <= m * PAGE < hi <==> lo <= m * PAGE < hi || m == n { }
    FramesInBelow(p, lo, hi, l);
  }

  lemma GrownUp(p0: PageMap, u0: set<nat>, p: PageMap, u: set<nat>, lo: nat, hi: nat, attr: bv64)
    requires Grown(p0, u0, p, u, lo, hi, attr) && AlignedTo(lo) && lo < hi && lo / PAGE in p
    requires forall m :: m in p && p[m].frame == p[lo / PAGE].frame ==> m == lo / PAGE
    ensures Grown(p0, u0, p - {lo / PAGE}, u - {p[lo / PAGE].frame}, lo + PAGE, hi, attr)
  {
    var n := lo / PAGE;
    var p', f := p - {n}, p[n].frame;
    assert n * PAGE == lo;
    forall m ensures lo <= m * PAGE < hi <==> lo + PAGE <= m * PAGE < hi || m == n { }
    assert f !in u0;
    assert FramesIn(p', lo + PAGE, hi) == FramesIn(p, lo, hi) - {f} by {
      forall g ensures g in FramesIn(p', lo + PAGE, hi) <==> g in FramesIn(p, lo, hi) - {f} {
        if g in FramesIn(p, lo, hi) - {f} {
          var m :| m in p && lo <= m * PAGE < hi && p[m].frame == g;
          assert m in p' && p'[m] == p[m];
        }
      }
    }
  }

  lemma GrownOne(p: PageMap, u: set<nat>, n: nat, l: Leaf)
    requires n !in p && l.frame !in u
    ensures Grown(p, u, p[n := l], u + {l.frame}, n * PAGE, n * PAGE + PAGE, l.attr)
  {
    var p' := p[n := l];
    forall m ensures n * PAGE <= m * PAGE < n * PAGE + PAGE <==> m == n { }
    assert FramesIn(p', n * PAGE, n * PAGE + PAGE) == {l.frame} by {
      assert n in p' && n * PAGE <= n * PAGE < n * PAGE + PAGE && p'[n].frame == l.frame;
    }
  }

  /** Fewer than `need` of the frames [lo, hi) are free. */
  ghost predicate Scarce(used: set<nat>, lo: nat, hi: nat, need: nat) { hi - lo < |used| + need }

  lemma {:induction false} RangeSize(lo: nat, hi: nat, s: set<nat>)
    requires lo <= hi && forall p :: lo <= p < hi ==> p in s
    ensures hi - lo <= |s|
    decreases hi - lo
  {
    if lo < hi {
      RangeSize(lo, hi - 1, s - {hi - 1});
    }
  }

  lemma {:induction false} FramesInCount(p: PageMap, lo: nat, hi: nat)
    requires AlignedTo(lo) && AlignedTo(hi) && lo <= hi
    ensures |FramesIn(p, lo, hi)| <= (hi - lo) / PAGE
    decreases hi - lo
  {
    if lo == hi {
      assert FramesIn(p, lo, hi) == {};
    } else {
      FramesInCount(p, lo + PAGE, hi);
      var n := lo / PAGE;
      forall m ensures lo <= m * PAGE < hi <==> lo + PAGE <= m * PAGE < hi || m == n { }
      assert FramesIn(p, lo, hi) == FramesIn(p, lo + PAGE, hi) + if n in p then {p[n].frame} else {};
    }
  }

  /** When growth from hi down stops at cur for want of a frame, too few were free at the start. */
  lemma GrownScarce(p0: PageMap, u0: set<nat>, p: PageMap, u: set<nat>, to: nat, cur: nat, hi: nat, attr: bv64,
                    c: Limits)
    requires Grown(p0, u0, p, u, cur, hi, attr) && AlignedTo(to) && AlignedTo(cur) && AlignedTo(hi) && to < cur <= hi
    requires forall f :: c.lo <= f < c.hi ==> f in u
    ensures Scarce(u0, c.lo, c.hi, (hi - to) / PAGE)
  {
    if c.lo <= c.hi { RangeSize(c.lo, c.hi, u); }
    FramesInCount(p, cur, hi);
    assert (hi - to) / PAGE >= (hi - cur) / PAGE + 1;
  }

  /** A demand fault outside the stack. */
  lemma FaultOne(s: Snap, c: Limits, n: nat, l: Leaf)
    requires Sound(s, c) && n !in s.pages && AttrAt(s.vs, n * PAGE).Some? && !KindAt(s.vs, n * PAGE, KIND_STACK)
    requires l.frame !in s.used && c.lo <= l.frame < c.hi && l.frame in c.ram
    requires KindAt(s.vs, n * PAGE, KIND_ANON) ==> s.rssAnon < c.capAnon
    ensures Sound(s.(pages := s.pages[n := l], used := s.used + {l.frame},
                     rssAnon := s.rssAnon + if KindAt(s.vs, n * PAGE, KIND_ANON) then 1 else 0), c)
  {
    hide AttrAt, Sorted, FramesOk;
    MapFrames(s.pages, s.used, c.lo, c.hi, c.ram, s.vs, n, l);
    AnonMap(s.pages, s.vs, n, l);
  }

  lemma TouchSound(s: Snap, c: Limits, n: nat, attr: bv64)
    requires Sound(s, c) && n in s.pages
    ensures Sound(s.(pages := s.pages[n := Leaf(s.pages[n].frame, attr)]), c)
  {
    hide AttrAt, Sorted;
    var p := s.pages[n := Leaf(s.pages[n].frame, attr)];
    assert Anon(p, s.vs) == Anon(s.pages, s.vs);
  }
}
