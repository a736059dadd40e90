/** The address-space identifiers of kernel/memory/mmu.c as a protocol over the
    TLB. Generations make identifiers reusable: when all are taken the allocator
    starts a new generation and flushes the TLB, and a space whose identifier is
    of an old generation gets a new one before it runs again.

    `running` is the space the kernel has switched to and `register` what TTBR0 selects,
    which is loaded only on the way to user mode. `tlb` is the proof's record of which
    address space each non-global TLB entry was walked for: a flush instruction is an
    update of it, and the hardware may add an entry through the register between any
    two calls. */
module Asid {
  import opened Wrappers

  type SpaceId = nat

  /** The asid and asid_gen fields of an mm_struct. */
  datatype Mm = Mm(asid: nat, gen: nat)

  datatype Entry = Entry(asid: nat, space: SpaceId)

  datatype Event = Create(s: SpaceId) | SwitchTo(s: SpaceId) | SwitchToKernel | EnterUser | Release(s: SpaceId)
      | TableWalk

  /** b comes before a in the order start, start + 1, .., wrapping round to 1. */
  predicate Before(start: nat, b: nat, a: nat) {
    if start <= a then start <= b < a else b >= start || b < a
  }

  /** Space s holds an identifier of generation gen. */
  predicate Holds(spaces: map<SpaceId, Mm>, gen: nat, s: SpaceId) {
    s in spaces && spaces[s].asid != 0 && spaces[s].gen == gen
  }

  /** The bitmap and the spaces agree with one map from identifiers to the spaces that
      own them. */
  ghost predicate Agree(used: seq<bool>, gen: nat, spaces: map<SpaceId, Mm>, owner: map<nat, SpaceId>) {
    && |used| >= 2 && gen >= 1 && used[0]
    && (forall s :: s in spaces ==> spaces[s].gen <= gen && (spaces[s].asid == 0 ==> spaces[s].gen == 0))
    && (forall a :: 0 < a < |used| ==> (used[a] <==> a in owner))
    && (forall a :: a in owner ==> 0 < a < |used| && owner[a] in spaces && spaces[owner[a]] == Mm(a, gen))
    && (forall s :: Holds(spaces, gen, s) ==> spaces[s].asid in owner && owner[spaces[s].asid] == s)
  }

  lemma AgreeAssign(used: seq<bool>, gen: nat, spaces: map<SpaceId, Mm>, owner: map<nat, SpaceId>, s: SpaceId, a: nat)
    requires Agree(used, gen, spaces, owner) && s in spaces && !Holds(spaces, gen, s) && 0 < a < |used| && !used[a]
    ensures Agree(used[a := true], gen, spaces[s := Mm(a, gen)], owner[a := s])
  {
  }

  lemma AgreeRollover(used: seq<bool>, gen: nat, spaces: map<SpaceId, Mm>, owner: map<nat, SpaceId>)
    requires Agree(used, gen, spaces, owner)
    ensures Agree(NoneTaken(|used|), gen + 1, spaces, map[])
  {
  }

  lemma AgreeRelease(used: seq<bool>, gen: nat, spaces: map<SpaceId, Mm>, owner: map<nat, SpaceId>, s: SpaceId)
    requires Agree(used, gen, spaces, owner) && Holds(spaces, gen, s)
    ensures var a := spaces[s].asid;
            0 < a < |used| && Agree(used[a := false], gen, spaces[s := Mm(0, 0)], owner - {a})
  {
  }

  lemma AgreeForget(used: seq<bool>, gen: nat, spaces: map<SpaceId, Mm>, owner: map<nat, SpaceId>, s: SpaceId)
    requires Agree(used, gen, spaces, owner) && !Holds(spaces, gen, s)
    ensures Agree(used, gen, spaces[s := Mm(0, 0)], owner)
  {
  }

  lemma GenBound(used: seq<bool>, gen: nat, spaces: map<SpaceId, Mm>, owner: map<nat, SpaceId>, s: SpaceId)
    requires Agree(used, gen, spaces, owner) && s in spaces
    ensures spaces[s].gen <= gen && (spaces[s].asid == 0 ==> spaces[s] == Mm(0, 0))
  {
  }

  /** The bitmap at the start of a generation. */
  function NoneTaken(n: nat): seq<bool>
    requires n > 0
  {
    [true] + seq(n - 1, _ => false)
  }

  /** The state of allocator, registers and TLB at one moment. */
  datatype Moment = Moment(gen: nat, next: nat, used: seq<bool>, spaces: map<SpaceId, Mm>, running: Option<SpaceId>,
                           register: Option<Entry>, tlb: set<Entry>)

  /** Identifiers of the current generation are marked, no two spaces share one, and the
      running space has one. */
  ghost predicate Orderly(m: Moment) {
    && |m.used| >= 2 && 1 <= m.next <= |m.used| && (forall s :: s in m.spaces ==> m.spaces[s].gen <= m.gen)
    && (forall s :: Holds(m.spaces, m.gen, s) ==> 0 < m.spaces[s].asid < |m.used| && m.used[m.spaces[s].asid])
    && (forall s, t :: Holds(m.spaces, m.gen, s) && Holds(m.spaces, m.gen, t) && s != t ==>
              m.spaces[s].asid != m.spaces[t].asid)
    && (m.running.Some? ==> Holds(m.spaces, m.gen, m.running.value))
  }

  /** Every TLB entry was walked for the space that holds its identifier. */
  ghost predicate Clean(m: Moment) {
    forall e :: e in m.tlb ==> Holds(m.spaces, m.gen, e.space) && m.spaces[e.space].asid == e.asid
  }

  /** The register, if it selects a space, selects it by the identifier that it holds. */
  ghost predicate Selects(m: Moment) {
    m.register.Some? ==>
      Holds(m.spaces, m.gen, m.register.value.space) && m.spaces[m.register.value.space].asid == m.register.value.asid
  }

  /** Through the register an entry can be hit that was walked for another space. */
  ghost predicate Foreign(m: Moment) {
    m.register.Some? && exists e :: e in m.tlb && e.asid == m.register.value.asid && e.space != m.register.value.space
  }

  predicate AllTaken(used: seq<bool>) { forall a :: 0 < a < |used| ==> used[a] }

  /** The switch starts a new generation. */
  ghost predicate Rolls(m: Moment, e: Event) {
    e.SwitchTo? && e.s in m.spaces && !Holds(m.spaces, m.gen, e.s) && AllTaken(m.used)
  }

  /** a is the first free identifier from the cursor on. */
  ghost predicate Picked(used: seq<bool>, next: nat, a: nat) {
    && 0 < a < |used| && !used[a]
    && forall b :: 0 < b < |used| && Before(if next == |used| then 1 else next, b, a) ==> used[b]
  }

  /** What an event does; one that the kernel would not make does nothing. */
  ghost predicate Did(m: Moment, e: Event, m': Moment) {
    match e
    case Create(s) => m' == if s in m.spaces then m else m.(spaces := m.spaces[s := Mm(0, 0)])
    case SwitchTo(s) =>
      if s !in m.spaces then m' == m
      else if Holds(m.spaces, m.gen, s) then m' == m.(running := Some(s))
      else
        && |m.used| > 0 && s in m'.spaces
        && var a, rolls := m'.spaces[s].asid, Rolls(m, e);
           var used, gen := if rolls then NoneTaken(|m.used|) else m.used, if rolls then m.gen + 1 else m.gen;
           && Picked(used, if rolls then 1 else m.next, a)
           && m' == m.(gen := gen, next := a + 1, used := used[a := true], spaces := m.spaces[s := Mm(a, gen)],
                       running := Some(s), tlb := if rolls then {} else m.tlb)
    case SwitchToKernel => m' == m.(running := None)
    case EnterUser =>
      && m' == m.(register := m'.register) && m'.register.Some? == m.running.Some?
      && (m.running.Some? ==> Selects(m') && m'.register.value.space == m.running.value)
    case Release(s) =>
      if s !in m.spaces || m.running == Some(s) then m' == m
      else if !Holds(m.spaces, m.gen, s) then m' == m.(spaces := m.spaces[s := Mm(0, 0)])
      else
        var a := m.spaces[s].asid;
        && a < |m.used|
        && m' == m.(used := m.used[a := false], spaces := m.spaces[s := Mm(0, 0)],
                    tlb := set x | x in m.tlb && x.asid != a)
    case TableWalk => m' == if m.register.Some? then m.(tlb := m.tlb + {m.register.value}) else m
  }

  /** The moments before, between and after the events. */
  ghost predicate Traced(trace: seq<Moment>, events: seq<Event>) {
    && |trace| == |events| + 1 && (forall i :: 0 <= i < |trace| ==> Orderly(trace[i]))
    && (forall i :: 0 <= i < |events| ==> Did(trace[i], events[i], trace[i + 1]))
  }

  /** A trace from one moment to another. */
  ghost predicate Leads(first: Moment, trace: seq<Moment>, events: seq<Event>, last: Moment) {
    Traced(trace, events) && trace[0] == first && trace[|events|] == last
  }

  lemma LeadsMore(first: Moment, trace: seq<Moment>, events: seq<Event>, m: Moment, e: Event, m': Moment)
    requires Leads(first, trace, events, m) && Did(m, e, m') && Orderly(m')
    ensures Leads(first, trace + [m'], events + [e], m')
  {
    hide Did, Orderly;
  }

  /** While the register is fresh and the TLB clean, hits are the space's own. */
  lemma HitsAreOwn(m: Moment)
    requires Orderly(m) && Clean(m) && Selects(m)
    ensures !Foreign(m)
  {
  }

  /** These events, and no others, leave the register behind: a new generation, and the
      release of the space that it selects, once the kernel has switched away. */
  ghost predicate Stales(m: Moment, e: Event) {
    && m.register.Some?
    && (Rolls(m, e) || (e == Release(m.register.value.space) && m.running != Some(m.register.value.space)))
  }

  lemma FreshStep(m: Moment, e: Event, m': Moment)
    requires Did(m, e, m') && Orderly(m) && Selects(m) && m.register.Some? && !e.EnterUser?
    ensures Selects(m') <==> !Stales(m, e)
  {
  }

  /** The TLB stays clean in every step but one: a walk through a register left behind. */
  lemma CleanStep(m: Moment, e: Event, m': Moment)
    requires Did(m, e, m') && Orderly(m) && Clean(m)
    ensures Clean(m') <==> !(e.TableWalk? && m.register.Some? && !Selects(m))
  {
    if e.TableWalk? && m.register.Some? { assert m.register.value in m'.tlb; }
  }

  /** Since the register was last loaded before moment k, it has been left behind. */
  ghost predicate Behind(trace: seq<Moment>, events: seq<Event>, k: nat)
    requires k <= |events| && |trace| == |events| + 1
  {
    k > 0 && !events[k - 1].EnterUser? && (Behind(trace, events, k - 1) || Stales(trace[k - 1], events[k - 1]))
  }

  lemma {:induction false} FreshUntil(trace: seq<Moment>, events: seq<Event>, k: nat)
    requires Traced(trace, events) && k <= |events| && Selects(trace[0]) && !Behind(trace, events, k)
    ensures Selects(trace[k])
  {
    hide Orderly, Stales;
    if k > 0 && !events[k - 1].EnterUser? {
      FreshUntil(trace, events, k - 1);
      if trace[k - 1].register.Some? { FreshStep(trace[k - 1], events[k - 1], trace[k]); }
    }
  }

  /** The TLB is clean throughout a run exactly when each walk finds the register fresh. */
  lemma CleanIff(trace: seq<Moment>, events: seq<Event>)
    requires Traced(trace, events) && Clean(trace[0])
    ensures (forall k :: 0 <= k < |trace| ==> Clean(trace[k])) <==>
            forall k :: 0 <= k < |events| && events[k].TableWalk? ==> Selects(trace[k])
  {
    hide Orderly, Did, Clean;
    if forall k :: 0 <= k < |trace| ==> Clean(trace[k]) {
      forall k | 0 <= k < |events| && events[k].TableWalk? ensures Selects(trace[k]) {
        CleanStep(trace[k], events[k], trace[k + 1]);
      }
    }
    if forall k :: 0 <= k < |events| && events[k].TableWalk? ==> Selects(trace[k]) {
      forall k | 0 <= k < |trace| ensures Clean(trace[k]) { CleanUntil(trace, events, k); }
    }
  }

  lemma {:induction false} CleanUntil(trace: seq<Moment>, events: seq<Event>, k: nat)
    requires Traced(trace, events) && Clean(trace[0]) && k <= |events|
    requires forall i :: 0 <= i < |events| && events[i].TableWalk? ==> Selects(trace[i])
    ensures Clean(trace[k])
  {
    hide Orderly, Did, Clean;
    if k > 0 {
      CleanUntil(trace, events, k - 1);
      CleanStep(trace[k - 1], events[k - 1], trace[k]);
    }
  }

  /** In a run where nothing leaves the register behind between its last loading and a
      walk, the TLB is clean at every moment, and no entry of another space can be hit as
      long as nothing has left the register behind. */
  lemma NoForeignHit(trace: seq<Moment>, events: seq<Event>, k: nat)
    requires Traced(trace, events) && Clean(trace[0]) && Selects(trace[0]) && k <= |events|
    requires forall i :: 0 <= i < |events| && events[i].TableWalk? ==> !Behind(trace, events, i)
    ensures Clean(trace[k]) && (!Behind(trace, events, k) ==> !Foreign(trace[k]))
  {
    hide Orderly, Did, Clean, Selects, Behind, Foreign;
    forall i | 0 <= i < |events| && events[i].TableWalk? ensures Selects(trace[i]) { FreshUntil(trace, events, i); }
    CleanUntil(trace, events, k);
    if !Behind(trace, events, k) {
      FreshUntil(trace, events, k);
      HitsAreOwn(trace[k]);
    }
  }

  /** The space is not released. */
  ghost predicate Spares(events: seq<Event>, s: SpaceId) { Event.Release(s) !in events }

  /** How many identifiers are free. */
  ghost function Unused(used: seq<bool>): nat {
    if used == [] then 0 else Unused(used[1..]) + if used[0] then 0 else 1
  }

  lemma {:induction false} UnusedLess(used: seq<bool>, a: nat)
    requires a < |used| && !used[a]
    ensures Unused(used[a := true]) == Unused(used) - 1
  {
    if a > 0 {
      UnusedLess(used[1..], a - 1);
      assert used[a := true][1..] == used[1..][a - 1 := true];
    } else {
      assert used[a := true][1..] == used[1..];
    }
  }

  /** How far the cursor is from a. */
  ghost function Ahead(next: nat, a: nat, max: nat): int {
    if next == max then a - 1 else if next <= a then a - next else max - next + a - 1
  }

  lemma Closer(used: seq<bool>, next: nat, x: nat, a: nat)
    requires Picked(used, next, x) && 0 < a < |used| && !used[a] && 1 <= next <= |used| && x != a
    ensures 0 <= Ahead(x + 1, a, |used|) < Ahead(next, a, |used|)
  {
    var start := if next == |used| then 1 else next;
    assert !Before(start, a, x);
  }

  class Allocator {
    const max: nat
    var gen: nat
    var next: nat
    var used: seq<bool>
    var spaces: map<SpaceId, Mm>
    var running: Option<SpaceId>
    var register: Option<Entry>
    ghost var tlb: set<Entry>
    ghost var owner: map<nat, SpaceId>

    ghost predicate Current(s: SpaceId)
      reads this
    {
      Holds(spaces, gen, s)
    }

    ghost predicate Consistent()
      reads this
    {
      max >= 2 && |used| == max && 1 <= next <= max && Agree(used, gen, spaces, owner)
    }

    /** What holds between any two calls. */
    ghost predicate Valid()
      reads this
    {
      Consistent() && (running.Some? ==> Current(running.value))
    }

    ghost function Now(): Moment
      reads this
    {
      Moment(gen, next, used, spaces, running, register, tlb)
    }

    /** The allocator as mmu_init leaves it, for 8-bit or 16-bit identifiers. */
    constructor (wide: bool)
      ensures Valid() && Now() == Moment(1, 1, NoneTaken(max), map[], None, None, {})
      ensures Clean(Now()) && Selects(Now()) && max == if wide then 65536 else 256
    {
      max := if wide then 65536 else 256;
      gen, next := 1, 1;
      used := NoneTaken(if wide then 65536 else 256);
      spaces, running, register, tlb, owner := map[], None, None, {}, map[];
    }

    /** The bitmap marks 0 and the identifiers of current-generation spaces, and no others. */
    lemma UsedExactly(a: nat)
      requires Valid() && a < max
      ensures used[a] <==> a == 0 || exists s :: Current(s) && spaces[s].asid == a
    {
      if 0 < a && used[a] { assert Current(owner[a]); }
    }

    lemma NoSharing(s: SpaceId, r: SpaceId)
      requires Valid() && Current(s) && Current(r) && spaces[s].asid == spaces[r].asid
      ensures s == r
    {
    }

    lemma InOrder()
      requires Valid()
      ensures Orderly(Now())
    {
    }

    /** The scan of mmu_asid_ensure: takes the first free identifier from `next`
        on, wrapping round once; finds none exactly when all are taken. */
    method Scan() returns (a: Option<nat>)
      requires max >= 2 && 1 <= next <= max && |used| == max
      modifies this`next, this`used
      ensures 1 <= next <= max
      ensures a.None? <==> AllTaken(old(used))
      ensures a.None? ==> used == old(used)
      ensures a.Some? ==> Picked(old(used), old(next), a.value)
      ensures a.Some? ==> used == old(used)[a.value := true] && next == a.value + 1
    {
      ghost var start := if next == max then 1 else next;
      ghost var wrapped := next == max;
      var scanned := 0;
      while scanned + 1 < max
        invariant 1 <= next <= max && scanned + 1 <= max && used == old(used)
        invariant !wrapped ==> next == start + scanned && forall b :: start <= b < next ==> used[b]
        invariant wrapped && scanned == 0 ==> next == max && start == 1
        invariant wrapped && scanned > 0 ==> scanned == (if start == 1 then 0 else max - start) + (next - 1)
        invariant wrapped && scanned > 0 ==> forall b :: 1 <= b < next ==> used[b]
        invariant wrapped && scanned > 0 && start > 1 ==> forall b :: start <= b < max ==> used[b]
      {
        if next >= max {
          next := 1;
          wrapped := true;
        }
        var b := next;
        next := next + 1;
        scanned := scanned + 1;
        if !used[b] {
          used := used[b := true];
          return Some(b);
        }
      }
      return None;
    }

    /** mmu_asid_ensure */
    method EnsureAsid(s: SpaceId)
      requires Consistent() && s in spaces
      modifies this`gen, this`next, this`used, this`spaces, this`tlb, this`owner
      ensures Consistent() && Current(s)
      ensures Did(old(Now()), Event.SwitchTo(s), Now().(running := Some(s)))
    {
      hide Agree;
      if spaces[s].asid != 0 && spaces[s].gen == gen { return; }
      ghost var rolled := false;
      while true
        invariant Consistent() && spaces == old(spaces) && running == old(running) && register == old(register)
        invariant !Current(s)
        invariant !rolled ==> gen == old(gen) && next == old(next) && used == old(used) && tlb == old(tlb)
        invariant rolled ==>
                    gen == old(gen) + 1 && next == 1 && used == NoneTaken(max) && tlb == {} && old(AllTaken(used))
        decreases if rolled then 0 else 1
      {
        assert rolled ==> !used[1];
        ghost var before := used;
        var a := Scan();
        if a.Some? {
          AgreeAssign(before, gen, spaces, owner, s, a.value);
          spaces := spaces[s := Mm(a.value, gen)];
          owner := owner[a.value := s];
          return;
        }
        AgreeRollover(used, gen, spaces, owner);
        GenBound(used, gen, spaces, owner, s);
        gen := gen + 1;
        tlb, owner := {}, map[];
        used := NoneTaken(max);
        next := 1;
        rolled := true;
      }
    }

    /** mmu_asid_release. The running space would be left without an identifier; the kernel
        does not do that, as reset_process refuses the current process and stop_process
        has swapped to the kernel first. */
    method Release(s: SpaceId)
      requires Valid() && s in spaces
      modifies this`used, this`spaces, this`tlb, this`owner
      ensures Consistent() && (Valid() <==> running != Some(s)) && spaces == old(spaces)[s := Mm(0, 0)]
      ensures running != Some(s) ==> Did(old(Now()), Event.Release(s), Now())
    {
      hide Agree;
      if !Holds(spaces, gen, s) { AgreeForget(used, gen, spaces, owner, s); }
      if spaces[s].asid == 0 {
        GenBound(used, gen, spaces, owner, s);
        assert spaces[s := Mm(0, 0)] == spaces;
        return;
      }
      if spaces[s].gen == gen {
        AgreeRelease(used, gen, spaces, owner, s);
        var a := spaces[s].asid;
        tlb := set e | e in tlb && e.asid != a;
        used := used[a := false];
        owner := owner - {a};
      }
      spaces := spaces[s := Mm(0, 0)];
    }

    /** The address-space half of switch_proc: mmu_asid_ensure, then mmu_swap_ttbr. */
    method SwitchTo(s: SpaceId)
      requires Valid() && s in spaces
      modifies this
      ensures Valid() && running == Some(s) && Did(old(Now()), Event.SwitchTo(s), Now())
    {
      hide Agree, Did;
      EnsureAsid(s);
      running := Some(s);
    }

    /** mmu_ttbr0_enable_user, on the way to user mode. */
    method EnterUser()
      requires Valid()
      modifies this`register
      ensures Valid() && Selects(Now()) && register.Some? == running.Some?
      ensures running.Some? ==> register.value.space == running.value
    {
      register := if running.Some? then Some(Entry(spaces[running.value].asid, running.value)) else None;
    }

    /** One event. The hardware may cache a walk at any time: mmu_ttbr0_disable_user does
        not clear the register, so that it goes on selecting what it was loaded with. */
    method Do(e: Event)
      requires Valid()
      modifies this
      ensures Valid() && Did(old(Now()), e, Now())
    {
      hide Agree;
      match e {
        case Create(s) =>
          if s !in spaces {
            AgreeForget(used, gen, spaces, owner, s);
            spaces := spaces[s := Mm(0, 0)];
          }
        case SwitchTo(s) => if s in spaces { SwitchTo(s); }
        case SwitchToKernel => running := None;
        case EnterUser => EnterUser();
        case Release(s) => if s in spaces && running != Some(s) { Release(s); }
        case TableWalk => tlb := if register.Some? then tlb + {register.value} else tlb;
      }
    }

    method Start() returns (events: seq<Event>, ghost trace: seq<Moment>)
      requires Valid()
      ensures events == [] && Leads(Now(), trace, events, Now()) && forall x :: Spares(events, x)
    {
      hide Agree, Orderly;
      InOrder();
      events, trace := [], [Now()];
    }

    /** One event more of a run. */
    method More(e: Event, ghost first: Moment, events: seq<Event>, ghost trace: seq<Moment>)
      returns (events': seq<Event>, ghost trace': seq<Moment>)
      requires Valid() && Leads(first, trace, events, Now())
      modifies this
      ensures Valid() && Did(old(Now()), e, Now())
      ensures events' == events + [e] && Leads(first, trace', events', Now())
    {
      hide Agree, Did, Orderly, Leads;
      Do(e);
      InOrder();
      LeadsMore(first, trace, events, old(Now()), e, Now());
      events', trace' := events + [e], trace + [Now()];
    }

    /** Any sequence of events, with every moment of it. */
    method Run(todo: seq<Event>) returns (ghost trace: seq<Moment>)
      requires Valid()
      modifies this
      ensures Valid() && Leads(old(Now()), trace, todo, Now())
    {
      hide Agree, Did, Orderly, Leads;
      var events;
      events, trace := Start();
      while |events| < |todo|
        invariant |events| <= |todo| && events == todo[..|events|]
        invariant Valid() && Leads(old(Now()), trace, events, Now())
      {
        events, trace := More(todo[|events|], old(Now()), events, trace);
      }
      assert events == todo;
    }

    /** Switching to t and giving its identifier back, until the identifier is a: entries
        of the TLB under a stay. */
    method Reuse(a: nat, t: SpaceId, ghost first: Moment, events: seq<Event>, ghost trace: seq<Moment>)
      returns (events': seq<Event>, ghost trace': seq<Moment>)
      requires Valid() && Leads(first, trace, events, Now())
      requires running == None && t in spaces && !Current(t) && 0 < a < max && !used[a]
      modifies this
      ensures Valid() && Leads(first, trace', events', Now())
      ensures running == Some(t) && spaces[t].asid == a && register == old(register)
      ensures forall e :: e in old(tlb) && e.asid == a ==> e in tlb
      ensures forall x :: Spares(events, x) && x != t ==> Spares(events', x)
    {
      hide Agree, Orderly, Before, Ahead, Leads;
      events', trace' := events, trace;
      while true
        invariant Valid() && Leads(first, trace', events', Now())
        invariant running == None && t in spaces && !Current(t) && !used[a] && register == old(register)
        invariant forall e :: e in old(tlb) && e.asid == a ==> e in tlb
        invariant forall x :: Spares(events, x) && x != t ==> Spares(events', x)
        decreases Ahead(next, a, max)
      {
        ghost var m := Now();
        events', trace' := More(Event.SwitchTo(t), first, events', trace');
        if spaces[t].asid == a { return; }
        Closer(m.used, m.next, spaces[t].asid, a);
        events', trace' := More(SwitchToKernel, first, events', trace');
        events', trace' := More(Event.Release(t), first, events', trace');
      }
    }

    /** The kernel switches to s and enters user mode. */
    method Enter(s: SpaceId, ghost first: Moment, events: seq<Event>, ghost trace: seq<Moment>)
      returns (events': seq<Event>, ghost trace': seq<Moment>)
      requires Valid() && Leads(first, trace, events, Now()) && s in spaces
      modifies this
      ensures Valid() && Leads(first, trace', events', Now())
      ensures forall x :: Spares(events, x) ==> Spares(events', x)
      ensures running == Some(s) && register == Some(Entry(spaces[s].asid, s)) && 0 < spaces[s].asid < max
      ensures spaces == old(spaces)[s := spaces[s]] && old(gen) <= gen
      ensures old(Current(s)) ==> spaces == old(spaces) && tlb == old(tlb)
    {
      hide Agree, Orderly, Picked, Leads;
      events', trace' := More(Event.SwitchTo(s), first, events, trace);
      Identified(s);
      events', trace' := More(Event.EnterUser, first, events', trace');
    }

    lemma Identified(s: SpaceId)
      requires Valid() && Current(s)
      ensures 0 < spaces[s].asid < max && used[spaces[s].asid]
    {
    }

    /** The kernel switches away from s and releases it. */
    method Leave(s: SpaceId, ghost first: Moment, events: seq<Event>, ghost trace: seq<Moment>)
      returns (events': seq<Event>, ghost trace': seq<Moment>)
      requires Valid() && Leads(first, trace, events, Now()) && s in spaces
      modifies this
      ensures Valid() && Leads(first, trace', events', Now())
      ensures forall x :: Spares(events, x) && x != s ==> Spares(events', x)
      ensures running == None && register == old(register) && gen == old(gen) && next == old(next)
      ensures spaces == old(spaces)[s := Mm(0, 0)]
      ensures if old(Current(s)) then
                && old(spaces[s].asid) < max && used == old(used)[old(spaces[s].asid) := false]
                && tlb == set e | e in old(tlb) && e.asid != old(spaces[s].asid)
              else used == old(used) && tlb == old(tlb)
    {
      hide Agree, Orderly, Picked, Leads;
      events', trace' := More(SwitchToKernel, first, events, trace);
      events', trace' := More(Event.Release(s), first, events', trace');
    }

    /** A run in which the space that the register selects is released, the hardware walks,
        and the identifier goes to another space: its user hits what was walked for s. */
    method ForeignAfterRelease(s: SpaceId, t: SpaceId) returns (events: seq<Event>, ghost trace: seq<Moment>)
      requires Valid() && s in spaces && t in spaces && s != t
      modifies this
      ensures Valid() && Leads(old(Now()), trace, events, Now())
      ensures running == Some(t) && Selects(Now()) && Foreign(Now())
    {
      hide Agree, Orderly, Picked, Leads;
      ghost var first := Now();
      events, trace := Start();
      events, trace := Leave(t, first, events, trace);
      events, trace := Enter(s, first, events, trace);
      var a := spaces[s].asid;
      events, trace := Leave(s, first, events, trace);
      events, trace := More(TableWalk, first, events, trace);
      events, trace := Reuse(a, t, first, events, trace);
      assert Entry(a, s) in tlb;
      events, trace := Enter(t, first, events, trace);
      assert Entry(a, s) in tlb;
    }

    /** Taking every identifier, by new spaces from n on. */
    method FillUp(n: SpaceId, ghost first: Moment, events: seq<Event>, ghost trace: seq<Moment>)
      returns (t: SpaceId, events': seq<Event>, ghost trace': seq<Moment>)
      requires Valid() && Leads(first, trace, events, Now()) && forall s :: s in spaces ==> s < n
      modifies this
      ensures Valid() && Leads(first, trace', events', Now())
      ensures AllTaken(used) && register == old(register) && gen == old(gen)
      ensures t >= n && forall s :: s in spaces ==> s < t
      ensures forall x :: Spares(events, x) ==> Spares(events', x)
    {
      hide Agree, Orderly, Leads;
      t, events', trace' := n, events, trace;
      while !AllTaken(used)
        invariant Valid() && Leads(first, trace', events', Now()) && register == old(register) && gen == old(gen)
        invariant t >= n && forall s :: s in spaces ==> s < t
        invariant forall x :: Spares(events, x) ==> Spares(events', x)
        decreases Unused(used)
      {
        ghost var before := used;
        events', trace' := More(Create(t), first, events', trace');
        events', trace' := More(Event.SwitchTo(t), first, events', trace');
        UnusedLess(before, spaces[t].asid);
        t := t + 1;
      }
    }

    /** A new space begins a new generation, and the hardware walks through the register. */
    method RollOver(t: SpaceId, ghost first: Moment, events: seq<Event>, ghost trace: seq<Moment>)
      returns (events': seq<Event>, ghost trace': seq<Moment>)
      requires Valid() && Leads(first, trace, events, Now()) && t !in spaces && AllTaken(used) && register.Some?
      modifies this
      ensures Valid() && Leads(first, trace', events', Now())
      ensures forall x :: Spares(events, x) ==> Spares(events', x)
      ensures t in spaces && Current(t) && register == old(register) && tlb == {register.value}
      ensures forall b :: 0 < b < max && b != spaces[t].asid ==> !used[b]
    {
      hide Agree, Orderly, Leads;
      events', trace' := More(Create(t), first, events, trace);
      ghost var m := Now();
      events', trace' := More(Event.SwitchTo(t), first, events', trace');
      assert Rolls(m, Event.SwitchTo(t));
      events', trace' := More(TableWalk, first, events', trace');
    }

    /** A run in which a new generation begins while the register selects s, with nothing
        released that it selects: the same happens. */
    method ForeignAfterRollover(s: SpaceId, n: SpaceId)
      returns (t: SpaceId, events: seq<Event>, ghost trace: seq<Moment>)
      requires Valid() && s in spaces && forall x :: x in spaces ==> x < n
      modifies this
      ensures Valid() && Leads(old(Now()), trace, events, Now())
      ensures Spares(events, s) && t != s
      ensures running == Some(t) && Selects(Now()) && Foreign(Now())
    {
      hide Agree, Orderly, Picked, Leads, Did, AllTaken, Spares;
      ghost var first := Now();
      events, trace := Start();
      assert Spares(events, s);
      events, trace := Enter(s, first, events, trace);
      var a := spaces[s].asid;
      t, events, trace := FillUp(n, first, events, trace);
      events, trace := RollOver(t, first, events, trace);
      if spaces[t].asid != a {
        events, trace := Leave(t, first, events, trace);
        events, trace := Reuse(a, t, first, events, trace);
      }
      assert Entry(a, s) in tlb;
      events, trace := Enter(t, first, events, trace);
      assert Entry(a, s) in tlb;
    }
  }
}
