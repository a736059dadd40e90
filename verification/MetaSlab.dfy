/** The object slab of kernel/networking/netpkt.c: pages of equal objects on three lists.
    The lists are kept as sequences, head first; the page an object's header names is
    the page the object lies in. */
module MetaSlab {
  import opened Wrappers
  import opened PacketBank

  const KEEP_EMPTY := 2
  const PAGE_HEADER := 32
  const OBJECT_HEADER := 16

  datatype SlabPage = SlabPage(objs: set<nat>, free: seq<nat>, inUse: nat, capacity: nat, stride: nat)

  type SlabPages = map<nat, SlabPage>

  function HomeOf(obj: nat): nat { obj - obj % PAGE }

  lemma {:induction false} DistinctSize(s: seq<nat>, t: set<nat>)
    requires Distinct(s) && forall x :: x in s ==> x in t
    ensures |s| <= |t|
    ensures |s| == |t| ==> forall x :: x in t ==> x in s
    decreases |s|
  {
    if s != [] {
      var x, r := s[0], s[1..];
      assert x !in r;
      DistinctSize(r, t - {x});
      assert forall y :: y in t - {x} && y in r ==> y in s;
    }
  }

  /** The free list holds exactly the objects that are not in use, each once. */
  ghost predicate PageOk(q: nat, g: SlabPage) {
    && q != 0 && q % PAGE == 0 && 0 < g.capacity == |g.objs| && g.inUse <= g.capacity
    && |g.free| == g.capacity - g.inUse && Distinct(g.free)
    && (forall o :: o in g.free ==> o in g.objs)
    && (forall o :: o in g.objs ==> o != 0 && HomeOf(o) == q)
    && Spaced(q, g.objs, g.stride)
  }

  /** The objects, each with its header in front, lie one stride apart behind the header
      of the page and end with it. */
  ghost predicate Spaced(q: nat, objs: set<nat>, stride: nat) {
    && stride > OBJECT_HEADER
    && (forall o :: o in objs ==> q + PAGE_HEADER + OBJECT_HEADER <= o && o + stride <= q + PAGE + OBJECT_HEADER)
    && (forall o, p :: o in objs && p in objs && o < p ==> o + stride <= p)
  }

  /** Byte b belongs to object o. */
  predicate ByteOf(o: nat, stride: nat, b: nat) { o <= b < o + stride - OBJECT_HEADER }

  /** No byte belongs to two objects, nor to an object and a header, nor to another page. */
  lemma ObjectsApart(q: nat, g: SlabPage, o: nat, p: nat)
    requires PageOk(q, g) && o in g.objs && p in g.objs && o != p
    ensures forall b: nat :: ByteOf(o, g.stride, b) ==>
              q + PAGE_HEADER <= b < q + PAGE && !ByteOf(p, g.stride, b) && !(p - OBJECT_HEADER <= b < p)
  {
    hide HomeOf, Distinct;
  }

  /** Every page is on exactly one list, the one its use count dictates; with slack, the
      first partial page may be wholly free. */
  ghost predicate Listed(partial: seq<nat>, full: seq<nat>, empty: seq<nat>, pages: SlabPages, slack: bool) {
    && multiset(partial) + multiset(full) + multiset(empty) == multiset(pages.Keys)
    && (forall q :: q in pages ==> PageOk(q, pages[q]))
    && (forall i :: 0 <= i < |partial| ==> partial[i] in pages && pages[partial[i]].inUse < pages[partial[i]].capacity)
    && (forall i :: 0 <= i < |partial| ==> pages[partial[i]].inUse > 0 || (slack && i == 0))
    && (forall i :: 0 <= i < |full| ==> full[i] in pages && pages[full[i]].inUse == pages[full[i]].capacity)
    && (forall i :: 0 <= i < |empty| ==> empty[i] in pages && pages[empty[i]].inUse == 0)
  }

  ghost predicate IsLive(pages: SlabPages, o: nat) {
    var q := HomeOf(o);
    q in pages && o in pages[q].objs && o !in pages[q].free
  }

  ghost predicate SameLive(pages: SlabPages, pages': SlabPages) { forall o :: IsLive(pages', o) <==> IsLive(pages, o) }

  /** obj was free and is live, and no other object has changed. */
  ghost predicate OneMoreLive(pages: SlabPages, pages': SlabPages, obj: nat) {
    !IsLive(pages, obj) && forall o :: IsLive(pages', o) <==> IsLive(pages, o) || o == obj
  }

  /** Some object can be had without another page. */
  ghost predicate Room(pages: SlabPages) { exists q :: q in pages && pages[q].inUse < pages[q].capacity }

  lemma TakeObject(q: nat, g: SlabPage)
    requires PageOk(q, g) && g.inUse < g.capacity
    ensures g.free != [] && g.free[0] in g.objs && g.free[0] !in g.free[1..]
    ensures PageOk(q, g.(free := g.free[1..], inUse := g.inUse + 1))
  {
  }

  lemma PutObject(q: nat, g: SlabPage, o: nat)
    requires PageOk(q, g) && o in g.objs && o !in g.free
    ensures g.inUse > 0 && PageOk(q, g.(free := [o] + g.free, inUse := g.inUse - 1))
  {
    var f := [o] + g.free;
    assert Distinct(f);
    DistinctSize(f, g.objs);
  }

  lemma EmptyHasNoLive(q: nat, g: SlabPage, o: nat)
    requires PageOk(q, g) && g.inUse == 0 && o in g.objs
    ensures o in g.free
  {
    DistinctSize(g.free, g.objs);
  }

  lemma EmptyToPartial(full: seq<nat>, empty: seq<nat>, pages: SlabPages)
    requires Listed([], full, empty, pages, false) && empty != []
    ensures Listed([empty[0]], full, empty[1..], pages, true)
  {
    hide PageOk;
    assert empty == [empty[0]] + empty[1..];
    NotFull(empty[0], pages[empty[0]]);
  }

  lemma NewToPartial(full: seq<nat>, pages: SlabPages, q: nat, g: SlabPage)
    requires Listed([], full, [], pages, false) && q !in pages && PageOk(q, g) && g.inUse == 0
    ensures Listed([q], full, [], pages[q := g], true)
  {
    hide PageOk;
    var pages' := pages[q := g];
    assert pages'.Keys == pages.Keys + {q};
    assert multiset(pages'.Keys) == multiset(pages.Keys) + multiset{q};
    assert PageOk(q, g) && g.inUse < g.capacity by { NotFull(q, g); }
  }

  lemma NotFull(q: nat, g: SlabPage)
    requires PageOk(q, g) && g.inUse == 0
    ensures g.inUse < g.capacity
  {
  }

  /** A page occurs once: the head of a list is nowhere else. */
  lemma HeadOnce(partial: seq<nat>, full: seq<nat>, empty: seq<nat>, pages: SlabPages, slack: bool)
    requires Listed(partial, full, empty, pages, slack) && partial != []
    ensures partial[0] in pages && partial[0] !in partial[1..] && partial[0] !in full && partial[0] !in empty
  {
    hide PageOk;
    var q := partial[0];
    assert partial == [q] + partial[1..];
    assert multiset(pages.Keys)[q] == 1;
    assert multiset(partial[1..])[q] == 0 && multiset(full)[q] == 0 && multiset(empty)[q] == 0;
  }

  function Taken(g: SlabPage): SlabPage
    requires g.free != []
  {
    g.(free := g.free[1..], inUse := g.inUse + 1)
  }

  lemma TakeFirst(partial: seq<nat>, full: seq<nat>, empty: seq<nat>, pages: SlabPages)
    requires Listed(partial, full, empty, pages, true) && partial != []
    ensures var q := partial[0];
            && q in pages && pages[q].free != [] && pages[q].free[0] != 0
            && var g := Taken(pages[q]);
               if g.inUse == g.capacity then Listed(partial[1..], [q] + full, empty, pages[q := g], false)
               else Listed(partial, full, empty, pages[q := g], false)
  {
    var q := partial[0];
    HeadOnce(partial, full, empty, pages, true);
    TakeObject(q, pages[q]);
    var g := Taken(pages[q]);
    Relisted(partial, full, empty, pages, q, g);
  }

  lemma Relisted(partial: seq<nat>, full: seq<nat>, empty: seq<nat>, pages: SlabPages, q: nat, g: SlabPage)
    requires Listed(partial, full, empty, pages, true) && partial != [] && q == partial[0]
    requires partial[0] !in partial[1..] && partial[0] !in full && partial[0] !in empty && PageOk(q, g)
    requires 0 < g.inUse <= g.capacity
    ensures if g.inUse == g.capacity then Listed(partial[1..], [q] + full, empty, pages[q := g], false)
            else Listed(partial, full, empty, pages[q := g], false)
  {
    hide PageOk;
    var pages' := pages[q := g];
    assert pages'.Keys == pages.Keys;
    assert partial == [q] + partial[1..];
    forall i | 0 < i < |partial| ensures partial[i] != q { assert partial[i] == partial[1..][i - 1]; }
    forall i | 0 <= i < |full| ensures full[i] != q { }
    forall i | 0 <= i < |empty| ensures empty[i] != q { }
  }

  lemma TakeLive(partial: seq<nat>, full: seq<nat>, empty: seq<nat>, pages: SlabPages)
    requires Listed(partial, full, empty, pages, true) && partial != []
    requires partial[0] in pages && pages[partial[0]].free != []
    ensures OneMoreLive(pages, pages[partial[0] := Taken(pages[partial[0]])], pages[partial[0]].free[0])
  {
    var q := partial[0];
    var g := pages[q];
    TakeObject(q, g);
    assert g.free == [g.free[0]] + g.free[1..];
  }

  lemma SameThenMore(p0: SlabPages, p1: SlabPages, p2: SlabPages, obj: nat)
    requires SameLive(p0, p1) && OneMoreLive(p1, p2, obj)
    ensures OneMoreLive(p0, p2, obj)
  {
  }

  lemma NewLive(pages: SlabPages, q: nat, g: SlabPage)
    requires q !in pages && PageOk(q, g) && g.inUse == 0
    ensures SameLive(pages, pages[q := g])
  {
    forall o | HomeOf(o) == q && o in g.objs ensures o in g.free { EmptyHasNoLive(q, g, o); }
  }

  /** The one list a page with a live object is on. */
  lemma WhereIs(partial: seq<nat>, full: seq<nat>, empty: seq<nat>, pages: SlabPages, q: nat)
    requires Listed(partial, full, empty, pages, false) && q in pages && pages[q].inUse > 0
    ensures if pages[q].inUse == pages[q].capacity then q in full && q !in partial && q !in empty
        && multiset(full)[q] == 1
            else q in partial && q !in full && q !in empty && multiset(partial)[q] == 1
  {
    hide PageOk;
    assert multiset(pages.Keys)[q] == 1;
    assert multiset(partial)[q] + multiset(full)[q] + multiset(empty)[q] == 1;
    if i :| 0 <= i < |empty| && empty[i] == q { assert false; }
  }

  /** Page q changed and the lists were rearranged to fit. */
  lemma Rearranged(partial: seq<nat>, full: seq<nat>, empty: seq<nat>, pages: SlabPages, q: nat, g: SlabPage,
                   partial': seq<nat>, full': seq<nat>, empty': seq<nat>)
    requires Listed(partial, full, empty, pages, false) && q in pages && PageOk(q, g)
    requires multiset(partial') + multiset(full') + multiset(empty') == multiset(partial) + multiset(full)
        + multiset(empty)
    requires forall x :: x in partial' && x != q ==> x in partial
    requires forall x :: x in full' && x != q ==> x in full
    requires forall x :: x in empty' && x != q ==> x in empty
    requires q in partial' ==> 0 < g.inUse < g.capacity
    requires q in full' ==> g.inUse == g.capacity
    requires q in empty' ==> g.inUse == 0
    ensures Listed(partial', full', empty', pages[q := g], false)
  {
    hide PageOk;
    assert pages[q := g].Keys == pages.Keys;
    forall i | 0 <= i < |partial'| && partial'[i] != q
      ensures partial'[i] in pages && 0 < pages[partial'[i]].inUse < pages[partial'[i]].capacity
    {
      assert partial'[i] in partial;
    }
    forall i | 0 <= i < |full'| && full'[i] != q
      ensures full'[i] in pages && pages[full'[i]].inUse == pages[full'[i]].capacity
    {
      assert full'[i] in full;
    }
    forall i | 0 <= i < |empty'| && empty'[i] != q ensures empty'[i] in pages && pages[empty'[i]].inUse == 0 {
      assert empty'[i] in empty;
    }
  }

  function Returned(g: SlabPage, obj: nat): SlabPage
    requires g.inUse > 0
  {
    g.(free := [obj] + g.free, inUse := g.inUse - 1)
  }

  /** What is given back to a page is what the page hands out next, and then it is as before. */
  lemma ReturnedFirst(g: SlabPage, obj: nat)
    requires g.inUse > 0
    ensures Returned(g, obj).free[0] == obj && Taken(Returned(g, obj)) == g
  {
    assert ([obj] + g.free)[1..] == g.free;
  }

  lemma PutLive(partial: seq<nat>, full: seq<nat>, empty: seq<nat>, pages: SlabPages, obj: nat)
    requires Listed(partial, full, empty, pages, false) && IsLive(pages, obj)
    ensures var q := HomeOf(obj);
            && q in pages && pages[q].inUse > 0 && PageOk(q, Returned(pages[q], obj))
            && OneMoreLive(pages[q := Returned(pages[q], obj)], pages, obj)
  {
    var q := HomeOf(obj);
    PutObject(q, pages[q], obj);
  }

  lemma DropLive(pages: SlabPages, q: nat)
    requires q in pages && PageOk(q, pages[q]) && pages[q].inUse == 0
    ensures SameLive(pages, pages - {q})
  {
    hide PageOk;
    forall o | o in pages[q].objs ensures o in pages[q].free { EmptyHasNoLive(q, pages[q], o); }
  }

  lemma DropEmpty(partial: seq<nat>, full: seq<nat>, empty: seq<nat>, pages: SlabPages)
    requires Listed(partial, full, empty, pages, false) && empty != []
    ensures empty[0] in pages && Listed(partial, full, empty[1..], pages - {empty[0]}, false)
    ensures SameLive(pages, pages - {empty[0]})
  {
    hide PageOk, SameLive;
    var q := empty[0];
    var pages' := pages - {q};
    DropLive(pages, q);
    assert empty == [q] + empty[1..];
    assert multiset(pages.Keys)[q] == 1;
    assert multiset(partial)[q] == 0 && multiset(full)[q] == 0 && multiset(empty[1..])[q] == 0;
    assert pages'.Keys == pages.Keys - {q};
    assert multiset(pages'.Keys) == multiset(pages.Keys) - multiset{q};
    forall i | 0 <= i < |empty[1..]| ensures empty[1..][i] == empty[i + 1] && empty[1..][i] != q { }
  }

  lemma SameTrans(p0: SlabPages, p1: SlabPages, p2: SlabPages)
    requires SameLive(p0, p1) && SameLive(p1, p2)
    ensures SameLive(p0, p2)
  {
  }

  lemma MoreThenSame(p0: SlabPages, p1: SlabPages, p2: SlabPages, obj: nat)
    requires OneMoreLive(p1, p0, obj) && SameLive(p1, p2)
    ensures OneMoreLive(p2, p0, obj)
  {
  }

  /** Taking an element out of a list, by the scan the source makes. */
  method Unlink(list: seq<nat>, page: nat) returns (rest: seq<nat>, found: bool)
    ensures found <==> page in list
    ensures found ==> multiset(rest) == multiset(list) - multiset{page} && forall x :: x in rest ==> x in list
    ensures !found ==> rest == list
    ensures found && list[0] == page ==> rest == list[1..]
  {
    var i := 0;
    while i < |list| && list[i] != page
      invariant i <= |list| && page !in list[..i]
    {
      i := i + 1;
    }
    if i == |list| { return list, false; }
    assert list == list[..i] + [page] + list[i + 1..];
    return list[..i] + list[i + 1..], true;
  }

  /** The pages of a slab are exactly those the bank holds for it. */
  ghost predicate Banked(qs: set<nat>, held: map<nat, Use>, id: bool) {
    && (forall q :: q in qs ==> q % PAGE == 0 && q / PAGE in held && held[q / PAGE] == Meta(id))
    && (forall k: nat :: k in held && held[k] == Meta(id) ==> k * PAGE in qs)
  }

  lemma BankedMore(qs: set<nat>, held: map<nat, Use>, id: bool, q: nat)
    requires Banked(qs, held, id) && q != 0 && Answer(held, q, 1)
    ensures q !in qs && Banked(qs + {q}, Took(held, q, 1, Meta(id)), id)
    ensures Holds(Took(held, q, 1, Meta(id)), q, 1, Meta(id))
    ensures Took(held, q, 1, Meta(id)) - Run(q, 1) == held
  {
    OnePage(held, q, Meta(id));
    assert q / PAGE in Run(q, 1);
  }

  lemma BankedLess(qs: set<nat>, held: map<nat, Use>, id: bool, q: nat)
    requires Banked(qs, held, id) && q in qs
    ensures Holds(held, q, 1, Meta(id)) && Banked(qs - {q}, held - Run(q, 1), id)
  {
    OnePage(held, q, Meta(id));
    forall p | p in qs - {q} ensures p / PAGE != q / PAGE {
      assert p == p / PAGE * PAGE && q == q / PAGE * PAGE;
    }
  }

  class Slab {
    const id: bool
    var objSize: nat
    var stride: nat
    var keepEmpty: nat
    var emptyPages: nat
    var partial: seq<nat>
    var full: seq<nat>
    var empty: seq<nat>
    var pages: SlabPages

    constructor (id: bool)
      ensures this.id == id && objSize == 0 && pages == map[]
      ensures ListsOk() && emptyPages == |empty| <= keepEmpty <= KEEP_EMPTY
    {
      this.id := id;
      objSize, stride, keepEmpty, emptyPages := 0, 0, 0, 0;
      partial, full, empty, pages := [], [], [], map[];
    }

    ghost predicate ListsOk()
      reads this
    {
      Listed(partial, full, empty, pages, false)
    }

    ghost predicate Valid(bank: Bank)
      reads this, bank
    {
      && ListsOk() && Banked(pages.Keys, bank.held, id) && emptyPages == |empty| <= keepEmpty && keepEmpty <= KEEP_EMPTY
      && (objSize > 0 ==> stride > OBJECT_HEADER && keepEmpty == KEEP_EMPTY && objSize % 16 == 0)
      && (objSize == 0 ==> pages == map[]) && (objSize > 0 ==> stride == OBJECT_HEADER + objSize)
      && (forall q :: q in pages ==> pages[q].stride == stride)
    }

    /** The loop that carves a new page into objects, last object first on the free list. */
    method Carve(q: nat) returns (g: SlabPage)
      requires q != 0 && q % PAGE == 0 && OBJECT_HEADER < stride <= PAGE - PAGE_HEADER
      ensures PageOk(q, g) && g.inUse == 0 && g.capacity == Capacity(stride) && g.stride == stride
    {
      hide HomeOf, Distinct;
      var cap := Capacity(stride);
      var free: seq<nat>, objs: set<nat> := [], {};
      var slot := q + PAGE_HEADER;
      var i := 0;
      AllFit(cap, stride, q);
      assert Distinct(free) by { DistinctNone(); }
      while i < cap
        invariant i <= cap && q < slot && Fits(slot, cap - i, stride, q)
        invariant |free| == |objs| == i && Distinct(free)
        invariant forall o :: o in free <==> o in objs
        invariant forall o :: o in objs ==> q < o < slot + OBJECT_HEADER && o < q + PAGE
        invariant slot <= q + PAGE
        invariant (forall o :: o in objs ==> q + PAGE_HEADER + OBJECT_HEADER <= o && o + stride <= slot + OBJECT_HEADER)
        invariant q + PAGE_HEADER <= slot && (forall o, p :: o in objs && p in objs && o < p ==> o + stride <= p)
      {
        var obj := slot + OBJECT_HEADER;
        NextFits(slot, cap - i, stride, q);
        DistinctMore(free, obj);
        free, objs := [obj] + free, objs + {obj};
        slot := slot + stride;
        i := i + 1;
      }
      g := SlabPage(objs, free, 0, cap, stride);
      forall o | o in objs ensures HomeOf(o) == q { HomeIn(q, o); }
    }

    /** A new page, if the budget and palloc grant one. */
    method Refill(bank: Bank, answer: nat) returns (ok: bool)
      requires Listed([], full, [], pages, false) && Banked(pages.Keys, bank.held, id) && partial == [] && empty == []
      requires bank.Valid() && Answer(bank.held, answer, 1) && stride > OBJECT_HEADER
      modifies this`partial, this`pages, bank
      ensures bank.Valid() && Banked(pages.Keys, bank.held, id)
      ensures ok ==> Listed(partial, full, empty, pages, true) && partial != [] && SameLive(old(pages), pages)
      ensures ok ==> answer != 0 && bank.held == Took(old(bank.held), answer, 1, Meta(id))
      ensures ok <==> answer != 0 && old(bank.pageBytes) + PAGE <= MAX_PAGE_BYTES && stride <= PAGE - PAGE_HEADER
      ensures bank.pageBytes == old(bank.pageBytes) + if ok then PAGE else 0
      ensures (forall q :: q in old(pages) ==> old(pages)[q].stride == stride) ==>
                forall q :: q in pages ==> pages[q].stride == stride
      ensures !ok ==> pages == old(pages) && partial == old(partial) && bank.held == old(bank.held)
    {
      hide Bank.Valid, Capacity, Listed, PageOk, SameLive, Took, Answer, Run, Holds, Banked, PayloadPages, MetaPages;
      var q := bank.Take(1, Meta(id), answer);
      if q == 0 { return false; }
      BankedMore(pages.Keys, old(bank.held), id, q);
      if PAGE - PAGE_HEADER < stride {
        bank.Give(q, 1, Meta(id));
        return false;
      }
      AnswerAligned(old(bank.held), q, 1);
      var g := Carve(q);
      NewToPartial(full, pages, q, g);
      NewLive(pages, q, g);
      KeysMore(pages, q, g);
      pages := pages[q := g];
      partial := [q];
      return true;
    }

    /** meta_slab_alloc; 0 is failure. */
    method Alloc(bank: Bank, size: nat, answer: nat) returns (obj: nat)
      requires Valid(bank) && bank.Valid() && Answer(bank.held, answer, 1)
      modifies this, bank
      ensures Valid(bank) && bank.Valid()
      ensures obj == 0 ==> pages == old(pages) && bank.held == old(bank.held)
      ensures obj != 0 ==> OneMoreLive(old(pages), pages, obj)
      ensures bank.held == old(bank.held) || (answer != 0 && bank.held == Took(old(bank.held), answer, 1, Meta(id)))
      ensures obj == 0 <==>
        || size == 0 || size % 16 != 0 || (old(objSize) != 0 && old(objSize) != size)
        || !old(Has(pages, bank.pageBytes, answer, size))
      ensures bank.pageBytes == old(bank.pageBytes) + if obj == 0 then 0 else old(Charge(pages))
      ensures objSize == (if size == 0 || size % 16 != 0 || old(objSize) != 0 then old(objSize) else size)
    {
      hide Bank.Valid, Listed, PageOk, SameLive, OneMoreLive, Room, Took, Answer, Run, Holds, Banked, PayloadPages,
        MetaPages;
      NoRoom();
      if size == 0 || size % 16 != 0 { return 0; }
      SameSelf(pages);
      if objSize == 0 {
        objSize, stride, keepEmpty := size, OBJECT_HEADER + size, KEEP_EMPTY;
      } else if objSize != size {
        return 0;
      }
      if partial == [] {
        if empty != [] {
          SomeRoom(partial, full, empty, pages);
          EmptyToPartial(full, empty, pages);
          partial, empty := [empty[0]], empty[1..];
          emptyPages := emptyPages - 1;
        } else {
          AllFull(full, pages);
          var ok := Refill(bank, answer);
          if !ok { return 0; }
        }
      } else {
        SomeRoom(partial, full, empty, pages);
        SlackIs(partial, full, empty, pages);
      }
      ghost var mid := pages;
      obj := TakeFromFirst();
      SameThenMore(old(pages), mid, pages, obj);
    }

    /** meta_slab_free of a live object. */
    method Free(bank: Bank, obj: nat)
      requires Valid(bank) && bank.Valid() && IsLive(pages, obj)
      modifies this, bank
      ensures Valid(bank) && bank.Valid() && objSize == old(objSize)
      ensures OneMoreLive(pages, old(pages), obj)
      ensures forall k :: k in bank.held ==> k in old(bank.held) && bank.held[k] == old(bank.held)[k]
      ensures forall k :: k in old(bank.held) && old(bank.held)[k] != Meta(id) ==> k in bank.held
    {
      hide Bank.Valid, Listed, PageOk, SameLive, OneMoreLive, Banked, PayloadPages, MetaPages;
      PutLive(partial, full, empty, pages, obj);
      var q := HomeOf(obj);
      var wasFull := pages[q].inUse == pages[q].capacity;
      Relink(q, obj, wasFull);
      ghost var mid := pages;
      TrimEmpty(bank);
      MoreThenSame(old(pages), mid, pages, obj);
    }

    method LeaveFull(q: nat)
      requires q in full
      modifies this`partial, this`full
      ensures partial == [q] + old(partial) && multiset(full) == multiset(old(full)) - multiset{q}
      ensures forall x :: x in full ==> x in old(full)
    {
      var found;
      full, found := Unlink(full, q);
      if found { partial := [q] + partial; }
    }

    /** The source would look on the full list next; the page is never there any more. */
    method LeavePartial(q: nat)
      requires q in partial
      modifies this`partial, this`empty, this`emptyPages
      ensures multiset(partial) == multiset(old(partial)) - multiset{q}
      ensures forall x :: x in partial ==> x in old(partial)
      ensures empty == [q] + old(empty) && emptyPages == old(emptyPages) + 1
    {
      var found;
      partial, found := Unlink(partial, q);
      empty := [q] + empty;
      emptyPages := emptyPages + 1;
    }

    /** Giving the object back to its page and moving the page between the lists. */
    method Relink(q: nat, obj: nat, wasFull: bool)
      requires ListsOk() && q in pages && pages[q].inUse > 0 && PageOk(q, Returned(pages[q], obj))
      requires wasFull == (pages[q].inUse == pages[q].capacity) && emptyPages == |empty|
      modifies this`partial, this`full, this`empty, this`pages, this`emptyPages
      ensures ListsOk() && pages == old(pages)[q := Returned(old(pages)[q], obj)] && pages.Keys == old(pages.Keys)
      ensures emptyPages == |empty| <= old(emptyPages) + 1
    {
      hide Listed, PageOk;
      var g := Returned(pages[q], obj);
      ghost var partial0, full0, empty0 := partial, full, empty;
      WhereIs(partial, full, empty, pages, q);
      CapacityKept(q, g);
      if wasFull { LeaveFull(q); }
      if g.inUse == 0 { LeavePartial(q); }
      KeysMore(pages, q, g);
      Rearranged(partial0, full0, empty0, pages, q, g, partial, full, empty);
      pages := pages[q := g];
    }

    /** Pages beyond the reserve go back to the page allocator. */
    method TrimEmpty(bank: Bank)
      requires ListsOk() && emptyPages == |empty| && Banked(pages.Keys, bank.held, id) && bank.Valid()
      modifies this`empty, this`emptyPages, this`pages, bank
      ensures ListsOk() && emptyPages == |empty| <= keepEmpty && Banked(pages.Keys, bank.held, id) && bank.Valid()
      ensures SameLive(old(pages), pages) && forall q :: q in pages ==> q in old(pages) && pages[q] == old(pages)[q]
      ensures forall k :: k in bank.held ==> k in old(bank.held) && bank.held[k] == old(bank.held)[k]
      ensures forall k :: k in old(bank.held) && old(bank.held)[k] != Meta(id) ==> k in bank.held
    {
      hide Bank.Valid, Listed, PageOk, SameLive, Banked, PayloadPages, MetaPages;
      SameSelf(pages);
      while emptyPages > keepEmpty
        invariant ListsOk() && emptyPages == |empty| && Banked(pages.Keys, bank.held, id) && bank.Valid()
        invariant SameLive(old(pages), pages)
        invariant forall q :: q in pages ==> q in old(pages) && pages[q] == old(pages)[q]
        invariant forall k :: k in bank.held ==> k in old(bank.held) && bank.held[k] == old(bank.held)[k]
        invariant forall k :: k in old(bank.held) && old(bank.held)[k] != Meta(id) ==> k in bank.held
      {
        var e := empty[0];
        DropEmpty(partial, full, empty, pages);
        BankedLess(pages.Keys, bank.held, id, e);
        SameTrans(old(pages), pages, pages - {e});
        assert (pages - {e}).Keys == pages.Keys - {e};
        empty, emptyPages, pages := empty[1..], emptyPages - 1, pages - {e};
        bank.Give(e, 1, Meta(id));
      }
    }

    /** The first object of the first partial page. */
    method TakeFromFirst() returns (obj: nat)
      requires Listed(partial, full, empty, pages, true) && partial != []
      modifies this`partial, this`full, this`pages
      ensures Listed(partial, full, empty, pages, false) && pages.Keys == old(pages.Keys)
      ensures forall q :: q in pages ==> pages[q].stride == old(pages)[q].stride
      ensures obj != 0 && OneMoreLive(old(pages), pages, obj)
    {
      hide Listed, PageOk, OneMoreLive, Taken;
      var q := partial[0];
      TakeFirst(partial, full, empty, pages);
      TakeLive(partial, full, empty, pages);
      TakenUse(pages[q]);
      assert pages[q := Taken(pages[q])].Keys == pages.Keys;
      obj := pages[q].free[0];
      pages := pages[q := Taken(pages[q])];
      if pages[q].inUse == pages[q].capacity {
        partial, full := partial[1..], [q] + full;
      }
    }
  }

  lemma AnswerAligned(held: map<nat, Use>, q: nat, n: nat)
    requires Answer(held, q, n)
    ensures q % PAGE == 0
  {
  }

  lemma CapacityKept(q: nat, g: SlabPage)
    requires PageOk(q, g)
    ensures g.inUse <= g.capacity && |g.free| == g.capacity - g.inUse
  {
  }

  lemma KeysMore(pages: SlabPages, q: nat, g: SlabPage)
    ensures pages[q := g].Keys == pages.Keys + {q}
  {
  }

  lemma TakenUse(g: SlabPage)
    requires g.free != []
    ensures Taken(g).inUse == g.inUse + 1 && Taken(g).capacity == g.capacity && Taken(g).stride == g.stride
  {
  }

  /** A page more is charged when no object is free. */
  ghost function Charge(pages: SlabPages): nat { if Room(pages) then 0 else PAGE }

  /** An object can be had: one is free, or palloc answers and the budget allows a page. */
  ghost predicate Has(pages: SlabPages, used: nat, answer: nat, size: nat) {
    Room(pages) || (answer != 0 && used + PAGE <= MAX_PAGE_BYTES && OBJECT_HEADER + size <= PAGE - PAGE_HEADER)
  }

  lemma SomeRoom(partial: seq<nat>, full: seq<nat>, empty: seq<nat>, pages: SlabPages)
    requires Listed(partial, full, empty, pages, false) && (partial != [] || empty != [])
    ensures Room(pages)
  {
    var q := if partial != [] then partial[0] else empty[0];
    if partial == [] { NotFull(q, pages[q]); }
    assert q in pages && pages[q].inUse < pages[q].capacity;
  }

  lemma NoRoom()
    ensures !Room(map[])
  {
  }

  lemma SameSelf(pages: SlabPages)
    ensures SameLive(pages, pages)
  {
  }

  lemma SlackIs(partial: seq<nat>, full: seq<nat>, empty: seq<nat>, pages: SlabPages)
    requires Listed(partial, full, empty, pages, false)
    ensures Listed(partial, full, empty, pages, true)
  {
  }

  lemma AllFull(full: seq<nat>, pages: SlabPages)
    requires Listed([], full, [], pages, false)
    ensures !Room(pages)
  {
    forall q | q in pages ensures q in full {
      assert multiset(pages.Keys)[q] == 1;
      assert multiset(full)[q] == 1;
    }
  }

  lemma OnePage(held: map<nat, Use>, q: nat, u: Use)
    requires q % PAGE == 0
    ensures Run(q, 1) == {q / PAGE} && q / PAGE * PAGE == q
    ensures Took(held, q, 1, u) == held[q / PAGE := u]
  {
  }

  /** As many objects as fit behind the page header. */
  function Capacity(stride: nat): nat
    requires stride > 0
  {
    (PAGE - PAGE_HEADER) / stride
  }

  ghost predicate Fits(slot: nat, n: nat, stride: nat, q: nat) { slot + n * stride <= q + PAGE }

  lemma AllFit(cap: nat, stride: nat, q: nat)
    requires 0 < stride <= PAGE - PAGE_HEADER && cap == Capacity(stride)
    ensures cap > 0 && Fits(q + PAGE_HEADER, cap, stride, q)
  {
  }

  lemma NextFits(slot: nat, n: nat, stride: nat, q: nat)
    requires n > 0 && Fits(slot, n, stride, q)
    ensures Fits(slot + stride, n - 1, stride, q) && slot + stride <= q + PAGE
  {
    assert n * stride == stride + (n - 1) * stride;
  }

  lemma DistinctNone()
    ensures Distinct([])
  {
  }

  lemma DistinctMore(s: seq<nat>, x: nat)
    requires Distinct(s) && x !in s
    ensures Distinct([x] + s)
  {
  }

  lemma HomeIn(q: nat, o: nat)
    requires q % PAGE == 0 && q <= o < q + PAGE
    ensures HomeOf(o) == q
  {
  }

  ghost function PagesOf(held: map<nat, Use>, id: bool): set<nat> { set k | k in held && held[k] == Meta(id) }

  /** A slab has as many pages as the bank holds for it. */
  lemma {:induction false} BankedCount(qs: set<nat>, held: map<nat, Use>, id: bool)
    requires Banked(qs, held, id)
    ensures |qs| == |PagesOf(held, id)|
    decreases |qs|
  {
    if qs == {} {
      assert PagesOf(held, id) == {};
    } else {
      var q :| q in qs;
      OnePage(held, q, Meta(id));
      BankedLess(qs, held, id, q);
      BankedCount(qs - {q}, held - Run(q, 1), id);
      assert PagesOf(held - Run(q, 1), id) == PagesOf(held, id) - {q / PAGE};
      assert q / PAGE in PagesOf(held, id);
    }
  }
}
