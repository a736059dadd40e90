/** The pages the packet layer of kernel/networking/netpkt.c holds from the page allocator,
    and its three byte counters. What palloc answers is a parameter of the operations. */
module PacketBank {
  const PAGE := 4096
  const MAX_PAGE_BYTES := 0x200_0000

  /** What a held page is used for: packet bytes, or objects of one of the two slabs. */
  datatype Use = Payload | Meta(slab: bool)

  ghost function PayloadPages(held: map<nat, Use>): set<nat> { set k | k in held && held[k].Payload? }

  ghost function MetaPages(held: map<nat, Use>): set<nat> { set k | k in held && held[k].Meta? }

  predicate InRun(k: nat, base: nat, n: nat) { base / PAGE <= k < base / PAGE + n }

  /** The numbers of the n pages at base. */
  function Run(base: nat, n: nat): set<nat> { set k: nat | k < base / PAGE + n && InRun(k, base, n) }

  /** An answer of palloc for n pages: 0, or whole pages that are not held. */
  predicate Answer(held: map<nat, Use>, base: nat, n: nat) {
    base == 0 || (base % PAGE == 0 && Run(base, n) !! held.Keys)
  }

  function Took(held: map<nat, Use>, base: nat, n: nat, u: Use): map<nat, Use> {
    held + map k | k in Run(base, n) :: u
  }

  /** All n pages are held for the same use. */
  ghost predicate Holds(held: map<nat, Use>, base: nat, n: nat, u: Use) {
    base % PAGE == 0 && forall k :: k in Run(base, n) ==> k in held && held[k] == u
  }

  lemma {:induction false} RunSize(base: nat, n: nat)
    ensures |Run(base, n)| == n
  {
    if n == 0 {
      assert Run(base, 0) == {};
    } else {
      RunSize(base, n - 1);
      assert Run(base, n) == Run(base, n - 1) + {base / PAGE + n - 1};
    }
  }

  lemma TookPages(held: map<nat, Use>, base: nat, n: nat, u: Use)
    requires Run(base, n) !! held.Keys
    ensures var h, r := Took(held, base, n, u), Run(base, n);
            && h.Keys == held.Keys + r
            && PayloadPages(h) == PayloadPages(held) + (if u.Payload? then r else {})
            && MetaPages(h) == MetaPages(held) + (if u.Meta? then r else {})
            && PayloadPages(held) !! r && MetaPages(held) !! r
  {
    hide Run;
  }

  lemma GavePages(held: map<nat, Use>, base: nat, n: nat, u: Use)
    requires Holds(held, base, n, u)
    ensures var h, r := held - Run(base, n), Run(base, n);
            && h.Keys == held.Keys - r && r <= held.Keys
            && PayloadPages(h) == PayloadPages(held) - (if u.Payload? then r else {})
            && MetaPages(h) == MetaPages(held) - (if u.Meta? then r else {})
            && (u.Payload? ==> r <= PayloadPages(held)) && (u.Meta? ==> r <= MetaPages(held))
  {
    hide Run;
  }

  lemma TookSize(held: map<nat, Use>, base: nat, n: nat, u: Use)
    requires base != 0 && Answer(held, base, n)
    ensures var h := Took(held, base, n, u);
            && |h.Keys| == |held.Keys| + n
            && |PayloadPages(h)| == |PayloadPages(held)| + (if u.Payload? then n else 0)
            && |MetaPages(h)| == |MetaPages(held)| + (if u.Meta? then n else 0)
  {
    hide Run, Took, PayloadPages, MetaPages;
    RunSize(base, n);
    TookPages(held, base, n, u);
  }

  lemma GaveSize(held: map<nat, Use>, base: nat, n: nat, u: Use)
    requires Holds(held, base, n, u)
    ensures var h := held - Run(base, n);
            && |h.Keys| == |held.Keys| - n
            && |PayloadPages(h)| == |PayloadPages(held)| - (if u.Payload? then n else 0)
            && |MetaPages(h)| == |MetaPages(held)| - (if u.Meta? then n else 0)
  {
    hide Run, Holds, PayloadPages, MetaPages;
    RunSize(base, n);
    GavePages(held, base, n, u);
  }

  function Less(x: nat, dec: nat): nat { if x >= dec then x - dec else 0 }

  class Bank {
    var pageBytes: nat
    var payloadBytes: nat
    var metaBytes: nat
    /** The pages that palloc has answered with and that have not been given back. */
    var held: map<nat, Use>

    constructor ()
      ensures Valid() && held == map[]
    {
      pageBytes, payloadBytes, metaBytes, held := 0, 0, 0, map[];
      new;
      assert PayloadPages(held) == {} && MetaPages(held) == {};
    }

    /** The counters are exact, and within the limit. */
    ghost predicate Valid()
      reads this
    {
      && pageBytes == PAGE * |held.Keys| <= MAX_PAGE_BYTES
      && payloadBytes == PAGE * |PayloadPages(held)| && metaBytes == PAGE * |MetaPages(held)|
    }

    /** Charging n pages and asking palloc for them; the charge is dropped when it has none. */
    method Take(n: nat, u: Use, answer: nat) returns (base: nat)
      requires Valid() && Answer(held, answer, n) && n > 0
      modifies this
      ensures Valid() && (base == answer || base == 0)
      ensures base == 0 <==> answer == 0 || MAX_PAGE_BYTES < old(pageBytes) + n * PAGE
      ensures base != 0 ==> pageBytes == old(pageBytes) + n * PAGE
      ensures held == if base == 0 then old(held) else Took(old(held), base, n, u)
      ensures base == 0 ==>
                pageBytes == old(pageBytes) && payloadBytes == old(payloadBytes) && metaBytes == old(metaBytes)
    {
      hide Took, PayloadPages, MetaPages, Answer;
      var bytes := n * PAGE;
      if bytes > MAX_PAGE_BYTES { return 0; }
      if pageBytes > MAX_PAGE_BYTES - bytes { return 0; }
      pageBytes := pageBytes + bytes;
      if u.Payload? { payloadBytes := payloadBytes + bytes; } else { metaBytes := metaBytes + bytes; }
      if answer == 0 {
        Drop(bytes, u);
        return 0;
      }
      TookSize(held, answer, n, u);
      held := Took(held, answer, n, u);
      return answer;
    }

    /** The guarded subtractions; the guards always hold where this is called. */
    method Drop(bytes: nat, u: Use)
      modifies this`pageBytes, this`payloadBytes, this`metaBytes
      ensures pageBytes == Less(old(pageBytes), bytes)
      ensures payloadBytes == (if u.Payload? then Less(old(payloadBytes), bytes) else old(payloadBytes))
      ensures metaBytes == (if u.Meta? then Less(old(metaBytes), bytes) else old(metaBytes))
    {
      pageBytes := Less(pageBytes, bytes);
      if u.Payload? { payloadBytes := Less(payloadBytes, bytes); } else { metaBytes := Less(metaBytes, bytes); }
    }

    /** pfree of n pages and the subtractions. Only held pages are ever given back, and no
        subtraction saturates. */
    method Give(base: nat, n: nat, u: Use)
      requires Valid() && Holds(held, base, n, u)
      modifies this
      ensures Valid() && held == old(held) - Run(base, n)
      ensures pageBytes + n * PAGE == old(pageBytes)
      ensures payloadBytes + (if u.Payload? then n * PAGE else 0) == old(payloadBytes)
      ensures metaBytes + (if u.Meta? then n * PAGE else 0) == old(metaBytes)
    {
      hide Holds, PayloadPages, MetaPages, Run;
      GaveSize(held, base, n, u);
      held := held - Run(base, n);
      Drop(n * PAGE, u);
    }
  }
}
