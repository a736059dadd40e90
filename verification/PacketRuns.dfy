/** Whole runs of the packet layer: any sequence of operations on any packets. */
module PacketRuns {
  import opened PacketBank
  import opened MetaSlab
  import opened PacketState
  import opened Packets

  /** An operation, with what palloc would answer to it. */
  datatype Op =
    | Alloc(data: nat, head: nat, tail: nat, offer: Offer)
    | Wrap(base: nat, off: nat, len: nat, hasFree: bool, content: Bytes, offer: Offer)
    | View(parent: nat, off: nat, len: nat, answer: nat)
    | Ref(p: nat)
    | Unref(p: nat)
    | Realloc(p: nat, newHead: nat, newAlloc: nat, offer: Offer)
    | Headroom(p: nat, need: nat, offer: Offer)
    | Tailroom(p: nat, need: nat, offer: Offer)
    | Push(p: nat, bytes: nat, offer: Offer)
    | Put(p: nat, bytes: nat, offer: Offer)
    | Prepend(p: nat, x: Bytes, offer: Offer)
    | Append(p: nat, x: Bytes, offer: Offer)
    | Pull(p: nat, bytes: nat)
    | Trim(p: nat, newLen: nat)

  /** The operation is one on packet w; a view of w is not. */
  predicate Acts(op: Op, w: nat) {
    !op.Alloc? && !op.Wrap? && !op.View? && op.p == w
  }

  /** Packets, buffers and spare page; the pages held and the three byte counters; and the
      pages of the two slabs. */
  datatype Moment = Moment(pkts: Pkts, bufs: Bufs, spare: nat, held: map<nat, Use>, bytes: nat, payload: nat, meta: nat,
                           bufPages: SlabPages, pktPages: SlabPages)

  ghost function At(net: Net): Moment
    reads net, net.bank, net.bufSlab, net.pktSlab
  {
    Moment(net.pkts, net.bufs, net.spare, net.bank.held, net.bank.pageBytes, net.bank.payloadBytes, net.bank.metaBytes,
           net.bufSlab.pages, net.pktSlab.pages)
  }

  /** Packets and buffers fit together, and the byte counters say what is in use. */
  ghost predicate Orderly(m: Moment) {
    && AllOk(m.pkts, m.bufs)
    && m.payload == InternalBytes(m.bufs) + (if m.spare != 0 then PAGE else 0)
    && m.meta == PAGE * (|m.bufPages.Keys| + |m.pktPages.Keys|)
    && m.bytes == m.payload + m.meta <= 32 * 1024 * 1024
  }

  lemma InOrder(net: Net)
    requires net.Valid()
    ensures Orderly(At(net))
  {
    hide Bank.Valid, Listed, Banked, LiveIs, AllOk, RefsOk, TagsOk, InternalBytes, PayloadPages;
    net.Conserved();
  }

  /** The payload bytes charged for a buffer of cap bytes. */
  ghost function Charged(m: Moment, cap: nat): nat { if cap == PAGE && m.spare != 0 then 0 else cap }

  ghost predicate Makes(m: Moment, cap: nat, o: Offer) {
    && (Charged(m, cap) == 0 || (o.payload != 0 && m.bytes + cap <= MAX_PAGE_BYTES))
    && HasObject(m.bufPages, m.bytes + Charged(m, cap), o.bufPage)
  }

  ghost predicate Allocs(m: Moment, n: nat, o: Offer) {
    var cap := PagesFor(n) * PAGE;
    && n <= MAX_ALLOC && Makes(m, cap, o)
    && HasObject(m.pktPages, m.bytes + Charged(m, cap) + Charge(m.bufPages), o.pktPage)
  }

  ghost predicate Moves(m: Moment, n: nat, o: Offer) { n <= MAX_ALLOC && Makes(m, PagesFor(n) * PAGE, o) }

  ghost predicate GetsOwn(m: Moment, k: Pkt, roomy: bool, n: nat, o: Offer) {
    !k.view && ((roomy && k.buf in m.bufs && m.bufs[k.buf].refs == 1) || Moves(m, n, o))
  }

  /** The packet can have so many bytes more in front; behind. */
  ghost predicate Leads(m: Moment, k: Pkt, n: nat, o: Offer) {
    && Fair(m.held, o, PagesFor(HeadRequest(k, n))) && n <= MAX_ALLOC
    && GetsOwn(m, k, k.head >= n, HeadRequest(k, n), o)
  }

  ghost predicate Trails(m: Moment, k: Pkt, n: nat, o: Offer) {
    && Fair(m.held, o, PagesFor(TailRequest(k, n))) && n <= MAX_ALLOC
    && GetsOwn(m, k, k.head + k.len + n <= k.cap, TailRequest(k, n), o)
  }

  ghost predicate Same(m: Moment, m': Moment) { m'.pkts == m.pkts && m'.bufs == m.bufs && m'.spare == m.spare }

  /** Packet p is new, empty and has the room. */
  ghost predicate Allocated(m: Moment, m': Moment, p: nat, data: nat, head: nat, tail: nat) {
    && Joined(m.pkts, m.bufs, m'.pkts, m'.bufs, p, []) && !m'.pkts[p].view && m'.pkts[p].refs == 1
    && m'.pkts[p].head == head && head + data + tail <= m'.pkts[p].cap && m'.bufs[m'.pkts[p].buf].refs == 1
  }

  ghost predicate Wrapped(m: Moment, m': Moment, p: nat, op: Op)
    requires op.Wrap?
  {
    && op.off + op.len <= |op.content|
    && Joined(m.pkts, m.bufs, m'.pkts, m'.bufs, p, op.content[op.off..op.off + op.len]) && !m'.pkts[p].view
    && m'.bufs[m'.pkts[p].buf] == Buf(op.base, |op.content|, 1, true, op.hasFree, op.content)
  }

  /** A new packet, or nothing. */
  ghost predicate DidMake(m: Moment, op: Op, m': Moment)
    requires op.Alloc? || op.Wrap? || op.View?
  {
    match op
    case Alloc(data, head, tail, o) =>
      if Fair(m.held, o, PagesFor(head + data + tail)) && Allocs(m, head + data + tail, o)
      then exists p :: Allocated(m, m', p, data, head, tail)
      else Same(m, m')
    case Wrap(base, off, len, hasFree, content, o) =>
      if && Fair(m.held, o, 0) && base != 0 && 0 < |content| <= MAX_ALLOC && off + len <= |content|
         && HasObject(m.bufPages, m.bytes, o.bufPage)
         && HasObject(m.pktPages, m.bytes + Charge(m.bufPages), o.pktPage)
      then exists p :: Wrapped(m, m', p, op)
      else Same(m, m')
    case View(parent, off, len, answer) =>
      if && parent in m.pkts && Answer(m.held, answer, 1) && off + len <= m.pkts[parent].len
         && HasObject(m.pktPages, m.bytes, answer)
      then exists v :: Shared(m.pkts, m.bufs, m'.pkts, m'.bufs, parent, v, off, len)
      else Same(m, m')
  }

  /** One reference more or less. */
  ghost predicate DidCount(m: Moment, op: Op, m': Moment)
    requires op.Ref? || op.Unref?
  {
    if op.p !in m.pkts then Same(m, m')
    else
      var k := m.pkts[op.p];
      if op.Ref? then m'.pkts == m.pkts[op.p := k.(refs := k.refs + 1)] && m'.bufs == m.bufs
      else
        && AllOk(m.pkts, m.bufs) && AllOk(m'.pkts, m'.bufs) && Undisturbed(m.pkts, m.bufs, m'.pkts, m'.bufs, op.p)
        && if k.refs > 1 then m'.pkts == m.pkts[op.p := k.(refs := k.refs - 1)] && m'.bufs == m.bufs
           else m'.pkts == m.pkts - {op.p}
  }

  /** A buffer of its own, with room. */
  ghost predicate DidMove(m: Moment, op: Op, m': Moment)
    requires op.Realloc? || op.Headroom? || op.Tailroom?
  {
    if op.p !in m.pkts then Same(m, m')
    else
      var k := m.pkts[op.p];
      match op
      case Realloc(p, newHead, newAlloc, o) =>
        if && Fair(m.held, o, PagesFor(newAlloc)) && !k.view && newHead + k.len <= newAlloc && Moves(m, newAlloc, o)
        then && Moved(m.pkts, m.bufs, m'.pkts, m'.bufs, p)
             && m'.pkts[p].head == newHead && newAlloc <= m'.pkts[p].cap
        else Same(m, m')
      case Headroom(p, need, o) =>
        if Leads(m, k, need, o) then Owns(m.pkts, m.bufs, m'.pkts, m'.bufs, p) && m'.pkts[p].head >= need
        else Same(m, m')
      case Tailroom(p, need, o) =>
        if Trails(m, k, need, o)
        then && Owns(m.pkts, m.bufs, m'.pkts, m'.bufs, p)
             && m'.pkts[p].head + m'.pkts[p].len + need <= m'.pkts[p].cap
        else Same(m, m')
  }

  /** Bytes in front or behind, whatever they are or as given. */
  ghost predicate DidGrow(m: Moment, op: Op, m': Moment)
    requires op.Push? || op.Put? || op.Prepend? || op.Append?
  {
    if op.p !in m.pkts then Same(m, m')
    else
      var k := m.pkts[op.p];
      match op
      case Push(p, n, o) =>
        if n > 0 && Leads(m, k, n, o) then Grew(m.pkts, m.bufs, m'.pkts, m'.bufs, p, n, 0)
        else m'.pkts == m.pkts && m'.bufs == m.bufs
      case Put(p, n, o) =>
        if n > 0 && Trails(m, k, n, o) then Grew(m.pkts, m.bufs, m'.pkts, m'.bufs, p, 0, n)
        else m'.pkts == m.pkts && m'.bufs == m.bufs
      case Prepend(p, x, o) =>
        if |x| > 0 && Leads(m, k, |x|, o) then Became(m.pkts, m.bufs, m'.pkts, m'.bufs, p, x, [])
        else Unchanged(m, m', p)
      case Append(p, x, o) =>
        if |x| > 0 && Trails(m, k, |x|, o) then Became(m.pkts, m.bufs, m'.pkts, m'.bufs, p, [], x)
        else Unchanged(m, m', p)
  }

  /** All packets show what they did. */
  ghost predicate Unchanged(m: Moment, m': Moment, p: nat) {
    Became(m.pkts, m.bufs, m'.pkts, m'.bufs, p, [], []) || Same(m, m')
  }

  ghost function Counted(m: Moment): Counters { Counters(m.bytes, m.payload, m.meta) }

  /** Bytes dropped in front or behind, and the pages that are left over given back. */
  ghost predicate DidCut(m: Moment, op: Op, m': Moment)
    requires op.Pull? || op.Trim?
  {
    if op.p !in m.pkts then Same(m, m')
    else
      var len := m.pkts[op.p].len;
      match op
      case Pull(p, n) =>
        if n <= len
        then && Cut(m.pkts, m.bufs, m'.pkts, m'.bufs, p, n, len)
             && Shrunk(m.pkts[p].(head := m.pkts[p].head + n, len := len - n), m.bufs, Counted(m), m'.pkts[p], m'.bufs,
                       Counted(m'))
        else Same(m, m') && Counted(m') == Counted(m)
      case Trim(p, n) =>
        if n <= len
        then && Cut(m.pkts, m.bufs, m'.pkts, m'.bufs, p, 0, n)
             && Shrunk(m.pkts[p].(len := n), m.bufs, Counted(m), m'.pkts[p], m'.bufs, Counted(m'))
        else Same(m, m') && Counted(m') == Counted(m)
  }

  /** What an operation does. One on a packet that is not there, or with an answer that
      palloc would not give, is not made. */
  ghost predicate Did(m: Moment, op: Op, m': Moment) {
    if op.Alloc? || op.Wrap? || op.View? then DidMake(m, op, m')
    else if op.Ref? || op.Unref? then DidCount(m, op, m')
    else if op.Realloc? || op.Headroom? || op.Tailroom? then DidMove(m, op, m')
    else if op.Pull? || op.Trim? then DidCut(m, op, m')
    else DidGrow(m, op, m')
  }

  /** Packet w is there and shows the same bytes. */
  ghost predicate Shows(m: Moment, m': Moment, w: nat) {
    && AllOk(m.pkts, m.bufs) && AllOk(m'.pkts, m'.bufs) && w in m.pkts && w in m'.pkts && m'.pkts[w] == m.pkts[w]
    && Show(m'.pkts[w], m'.bufs) == Show(m.pkts[w], m.bufs)
  }

  /** No operation on another packet changes what a packet or view shows. */
  lemma StepKeeps(m: Moment, op: Op, m': Moment, w: nat)
    requires Orderly(m) && Orderly(m') && Did(m, op, m') && w in m.pkts && !Acts(op, w)
    ensures Shows(m, m', w)
  {
    hide AllOk, InternalBytes, Fair, Allocs, Leads, Trails, Moves, HasObject, Answer, Show;
    NoZero(m.pkts, m.bufs);
    if op.Alloc? && !Same(m, m') {
      var p :| Allocated(m, m', p, op.data, op.head, op.tail);
    } else if op.Wrap? && !Same(m, m') {
      var p :| Wrapped(m, m', p, op);
    } else if op.View? && !Same(m, m') {
      var v :| Shared(m.pkts, m.bufs, m'.pkts, m'.bufs, op.parent, v, op.off, op.len);
    }
  }

  method DoMake(net: Net, op: Op)
    requires net.Valid() && (op.Alloc? || op.Wrap? || op.View?)
    modifies net, net.bank, net.bufSlab, net.pktSlab
    ensures net.Valid() && DidMake(old(At(net)), op, At(net))
  {
    hide Bank.Valid, Listed, Banked, LiveIs, AllOk, RefsOk, TagsOk, PayloadPages, Fair, Answer, HasObject, Charge,
      Joined, Shared, Moved, Owns, Grew, Became, Cut, Undisturbed, PagesFor, HeadRequest, TailRequest;
    ghost var m := At(net);
    match op {
      case Alloc(data, head, tail, o) =>
        if Fair(net.bank.held, o, PagesFor(head + data + tail)) {
          var p := net.Alloc(data, head, tail, o);
          assert p != 0 ==> Allocated(m, At(net), p, data, head, tail);
        }
      case Wrap(base, off, len, hasFree, content, o) =>
        if Fair(net.bank.held, o, 0) {
          var p := net.Wrap(base, |content|, off, len, hasFree, content, o);
          assert p != 0 ==> Wrapped(m, At(net), p, op);
        }
      case View(parent, off, len, answer) =>
        if parent in net.pkts && Answer(net.bank.held, answer, 1) {
          var v := net.View(parent, off, len, answer);
        }
    }
  }

  method DoCount(net: Net, op: Op)
    requires net.Valid() && (op.Ref? || op.Unref?)
    modifies net, net.bank, net.bufSlab, net.pktSlab
    ensures net.Valid() && DidCount(old(At(net)), op, At(net))
  {
    hide Bank.Valid, Listed, Banked, LiveIs, AllOk, RefsOk, TagsOk, PayloadPages, Fair, Answer, HasObject, Charge,
      Joined, Shared, Moved, Owns, Grew, Became, Cut, Undisturbed, PagesFor, HeadRequest, TailRequest;
    if op.p !in net.pkts { return; }
    if op.Ref? { net.Ref(op.p); } else { net.Unref(op.p); }
  }

  method DoMove(net: Net, op: Op)
    requires net.Valid() && (op.Realloc? || op.Headroom? || op.Tailroom?)
    modifies net, net.bank, net.bufSlab, net.pktSlab
    ensures net.Valid() && DidMove(old(At(net)), op, At(net))
  {
    hide Bank.Valid, Listed, Banked, LiveIs, AllOk, RefsOk, TagsOk, PayloadPages, Fair, Answer, HasObject, Charge,
      Joined, Shared, Moved, Owns, Grew, Became, Cut, Undisturbed, PagesFor, HeadRequest, TailRequest;
    if op.p !in net.pkts { return; }
    var ok;
    match op {
      case Realloc(p, newHead, newAlloc, o) =>
        if Fair(net.bank.held, o, PagesFor(newAlloc)) { ok := net.Realloc(p, newHead, newAlloc, o); }
      case Headroom(p, need, o) =>
        if Fair(net.bank.held, o, PagesFor(HeadRequest(net.pkts[p], need))) { ok := net.EnsureHeadroom(p, need, o); }
      case Tailroom(p, need, o) =>
        if Fair(net.bank.held, o, PagesFor(TailRequest(net.pkts[p], need))) { ok := net.EnsureTailroom(p, need, o); }
    }
  }

  method DoGrow(net: Net, op: Op)
    requires net.Valid() && (op.Push? || op.Put? || op.Prepend? || op.Append?)
    modifies net, net.bank, net.bufSlab, net.pktSlab
    ensures net.Valid() && DidGrow(old(At(net)), op, At(net))
  {
    hide Bank.Valid, Listed, Banked, LiveIs, AllOk, RefsOk, TagsOk, PayloadPages, Fair, Answer, HasObject, Charge,
      Joined, Shared, Moved, Owns, Grew, Became, Cut, Undisturbed, PagesFor, HeadRequest, TailRequest;
    if op.p !in net.pkts { return; }
    var ok;
    match op {
      case Push(p, n, o) =>
        if Fair(net.bank.held, o, PagesFor(HeadRequest(net.pkts[p], n))) { ok := net.Push(p, n, o); }
      case Put(p, n, o) =>
        if Fair(net.bank.held, o, PagesFor(TailRequest(net.pkts[p], n))) { ok := net.Put(p, n, o); }
      case Prepend(p, x, o) =>
        if Fair(net.bank.held, o, PagesFor(HeadRequest(net.pkts[p], |x|))) { ok := net.Prepend(p, x, o); }
      case Append(p, x, o) =>
        if Fair(net.bank.held, o, PagesFor(TailRequest(net.pkts[p], |x|))) { ok := net.Append(p, x, o); }
    }
  }

  method DoCut(net: Net, op: Op)
    requires net.Valid() && (op.Pull? || op.Trim?)
    modifies net, net.bank, net.bufSlab, net.pktSlab
    ensures net.Valid() && DidCut(old(At(net)), op, At(net))
  {
    hide Bank.Valid, Listed, Banked, LiveIs, AllOk, RefsOk, TagsOk, PayloadPages, Fair, Answer, HasObject, Charge,
      Joined, Shared, Moved, Owns, Grew, Became, Cut, Undisturbed, PagesFor, HeadRequest, TailRequest;
    if op.p !in net.pkts { return; }
    var ok;
    match op {
      case Pull(p, n) => ok := net.Pull(p, n);
      case Trim(p, n) => ok := net.Trim(p, n);
    }
  }

  /** One operation. */
  method Do(net: Net, op: Op)
    requires net.Valid()
    modifies net, net.bank, net.bufSlab, net.pktSlab
    ensures net.Valid() && Did(old(At(net)), op, At(net))
  {
    hide Net.Valid, DidMake, DidCount, DidMove, DidGrow, DidCut;
    if op.Alloc? || op.Wrap? || op.View? {
      DoMake(net, op);
    } else if op.Ref? || op.Unref? {
      DoCount(net, op);
    } else if op.Realloc? || op.Headroom? || op.Tailroom? {
      DoMove(net, op);
    } else if op.Pull? || op.Trim? {
      DoCut(net, op);
    } else {
      DoGrow(net, op);
    }
  }

  /** The moments before, between and after the operations. */
  ghost predicate Traced(trace: seq<Moment>, ops: seq<Op>) {
    && |trace| == |ops| + 1 && (forall i :: 0 <= i < |trace| ==> Orderly(trace[i]))
    && (forall i :: 0 <= i < |ops| ==> Did(trace[i], ops[i], trace[i + 1]))
  }

  lemma TracedMore(trace: seq<Moment>, ops: seq<Op>, op: Op, m: Moment)
    requires Traced(trace, ops) && Did(trace[|ops|], op, m) && Orderly(m)
    ensures Traced(trace + [m], ops + [op])
  {
    hide Did, Orderly;
  }

  /** Any sequence of operations, with every moment of it. */
  method Run(net: Net, ops: seq<Op>) returns (ghost trace: seq<Moment>)
    requires net.Valid()
    modifies net, net.bank, net.bufSlab, net.pktSlab
    ensures net.Valid() && Traced(trace, ops) && trace[0] == old(At(net)) && trace[|ops|] == At(net)
  {
    hide Net.Valid, Did, Orderly;
    InOrder(net);
    trace := [At(net)];
    for i := 0 to |ops|
      invariant net.Valid() && Traced(trace, ops[..i]) && trace[0] == old(At(net)) && trace[i] == At(net)
    {
      Do(net, ops[i]);
      InOrder(net);
      TracedMore(trace, ops[..i], ops[i], At(net));
      assert ops[..i] + [ops[i]] == ops[..i + 1];
      trace := trace + [At(net)];
    }
    assert ops[..|ops|] == ops;
  }

  /** In every run a packet or view shows the same bytes for as long as nobody operates on
      it, whatever happens to its parent, its views and all other packets. */
  lemma {:induction false} RunKeeps(trace: seq<Moment>, ops: seq<Op>, i: nat, j: nat, w: nat)
    requires Traced(trace, ops) && i <= j < |trace| && w in trace[i].pkts
    requires forall k :: i <= k < j ==> !Acts(ops[k], w)
    ensures Shows(trace[i], trace[j], w)
    decreases j
  {
    hide Did, AllOk, Show, Acts;
    if i < j {
      RunKeeps(trace, ops, i, j - 1, w);
      StepKeeps(trace[j - 1], ops[j - 1], trace[j], w);
    }
  }
}
