/** The cluster chain operations of kernel/filesystem/fat32.cpp on the table in memory. */
module Fat {
  import opened FatChains

  /** The clusters of the chain that starts at a cluster; a free cluster is alone. */
  ghost predicate From(f: Table, c: nat, s: seq<nat>) {
    InRange(f, c) && s != [] && s[0] == c && if f[c] == 0 then s == [c] else Chain(f, s)
  }

  lemma FromExists(f: Table, c: nat) returns (s: seq<nat>)
    requires WellFormed(f) && InRange(f, c)
    ensures From(f, c, s) && Path(f, s)
  {
    if f[c] == 0 { s := [c]; } else { s := ChainOf(f, c); }
  }

  /** The cluster alloc_fat picks. */
  ghost predicate LowestFree(f: Table, c: nat) { 3 <= c < |f| && f[c] == 0 && forall j :: 3 <= j < c ==> f[j] != 0 }

  /** start has exactly count successors, the last of which ends the chain. */
  ghost predicate HasSuccessors(f: Table, start: nat, count: nat) {
    exists s :: Chain(f, s) && s[0] == start && |s| == count + 1
  }

  class Fs {
    const fat: array<nat>

    constructor (fat: array<nat>)
      ensures this.fat == fat
    {
      this.fat := fat;
    }

    ghost predicate Valid()
      reads this, fat
    {
      WellFormed(fat[..])
    }

    /** count_FAT. The source also stops at pointers out of range; a well formed table has none. */
    method Count(first: nat) returns (n: nat)
      requires Valid()
      ensures !InRange(fat[..], first) ==> n == 0
      ensures forall s :: From(fat[..], first, s) ==> n == |s|
    {
      hide WellFormed;
      if first < 2 || first >= fat.Length { return 0; }
      ghost var s := FromExists(fat[..], first);
      var entry := fat[first];
      n := 1;
      SmallTable(fat[..]);
      while entry < EOC && entry != 0
        invariant 1 <= n <= |s| && entry == fat[s[n - 1]]
        decreases |s| - n
      {
        LastIff(fat[..], s, n - 1);
        entry := fat[entry];
        n := n + 1;
      }
      if fat[first] != 0 { LastIff(fat[..], s, n - 1); }
      forall t | From(fat[..], first, t) ensures n == |t| {
        if fat[first] != 0 { ChainUnique(fat[..], s, t); }
      }
    }

    /** resolve_cluster_index: 0 past the end of the chain. */
    method Resolve(start: nat, index: nat) returns (next: nat)
      requires Valid()
      ensures !InRange(fat[..], start) ==> next == 0
      ensures forall s :: From(fat[..], start, s) ==> next == if index < |s| then s[index] else 0
    {
      hide WellFormed;
      if start < 2 || start >= fat.Length { return 0; }
      ghost var s := FromExists(fat[..], start);
      SmallTable(fat[..]);
      forall t | From(fat[..], start, t) ensures t == s {
        if fat[start] != 0 { ChainUnique(fat[..], s, t); }
      }
      next := start;
      var i := 0;
      while i < index
        invariant i <= index && i < |s| && next == s[i]
      {
        if fat[start] != 0 { LastIff(fat[..], s, i); }
        next := fat[next];
        if next == 0 || next >= EOC { return 0; }
        i := i + 1;
      }
    }

    /** alloc_fat */
    method AllocFat() returns (c: nat)
      modifies fat
      ensures c == 0 ==> fat[..] == old(fat[..]) && forall j :: 3 <= j < fat.Length ==> fat[j] != 0
      ensures c != 0 ==> LowestFree(old(fat[..]), c) && fat[..] == old(fat[..])[c := LAST]
    {
      var i := 3;
      while i < fat.Length
        invariant 3 <= i && fat[..] == old(fat[..]) && forall j :: 3 <= j < i && j < fat.Length ==> fat[j] != 0
      {
        if fat[i] == 0 {
          fat[i] := LAST;
          return i;
        }
        i := i + 1;
      }
      return 0;
    }

    /** dealloc_fat: a cluster and everything after it becomes free; a cluster out of range
        is left alone. */
    method DeallocFat(c: nat, ghost s: seq<nat>)
      requires fat.Length <= EOC && if InRange(fat[..], c) then From(fat[..], c, s) else s == []
      modifies fat
      ensures fat[..] == Cleared(old(fat[..]), s)
      decreases |s|
    {
      if c < 2 || c >= fat.Length { return; }
      if fat[c] != 0 { LastIff(fat[..], s, 0); }
      if fat[c] != 0 && fat[c] < EOC {
        Suffix(fat[..], s, 1);
        InUse(fat[..], s);
        DeallocFat(fat[c], s[1..]);
      }
      assert s == [c] + s[1..];
      fat[c] := 0;
    }

    /** One more cluster behind the last of a chain, or, should that be free and picked
        itself, a link from it to itself. */
    method Extend(l: nat, ghost s: seq<nat>) returns (c: nat)
      requires Valid() && Path(fat[..], s) && s[|s| - 1] == l && (fat[l] >= EOC || (fat[l] == 0 && s == [l]))
      modifies fat
      ensures c == 0 ==> fat[..] == old(fat[..]) && forall j :: 3 <= j < fat.Length ==> fat[j] != 0
      ensures c != 0 ==> InRange(old(fat[..]), c) && old(fat[..])[c] == 0 && fat[..] == Linked(old(fat[..]), l, c)
      ensures c == l <==> LowestFree(old(fat[..]), l)
      ensures c != l ==> Valid() && c !in s
    {
      hide WellFormed;
      ghost var f := fat[..];
      c := AllocFat();
      if c == 0 { return; }
      if f[l] != 0 { InUse(f, s); }
      if c != l { LinkWellFormed(f, l, c); }
      fat[l] := c;
      assert fat[..] == Linked(f, l, c);
    }

    /** resize_fat: start gets exactly count successors. Clusters are added behind the end
        of its chain, or cut off it and freed; when free clusters run out the chain is
        only as long as they allow. Endless stands for a call that does not return. */
    method Resize(start: nat, count: nat) returns (ok: bool, endless: bool)
      requires Valid()
      modifies fat
      ensures endless <==> SelfLinks(old(fat[..]), start, count)
      ensures endless ==> fat[..] == Linked(old(fat[..]), start, start)
      ensures !endless ==> Valid()
      ensures !InRange(fat[..], start) ==> !ok && fat[..] == old(fat[..])
      ensures !endless ==> forall s :: From(old(fat[..]), start, s) ==> Resized(old(fat[..]), fat[..], s, count, ok)
    {
      hide WellFormed, Grew;
      if start < 2 || start >= fat.Length { return false, false; }
      ghost var f0 := fat[..];
      ghost var s := FromExists(f0, start);
      SmallTable(f0);
      OnlyFrom(f0, start, s);
      ghost var cs := s;
      GrewNothing(f0, s);
      var next := start;
      var i := 0;
      while i < count
        invariant i <= count && i < |cs| && next == cs[i] && Valid() && Grew(f0, fat[..], s, cs)
        invariant |cs| <= (if i + 1 < |s| then |s| else i + 1)
        invariant |s| <= |cs| && (i > 0 ==> !SelfLinks(f0, start, count))
      {
        GrewPath(f0, fat[..], s, cs);
        var nextC := fat[next];
        AtEnd(f0, fat[..], s, cs, i);
        if nextC == 0 || nextC >= EOC {
          ghost var f := fat[..];
          var c := Extend(next, cs);
          if c == 0 {
            ResizedShort(f0, fat[..], s, cs, count);
            return false, false;
          }
          // The source goes round from start to start, then frees the chain without end.
          if c == next { return false, true; }
          GrewMore(f0, f, s, cs, c);
          cs := cs + [c];
          nextC := c;
        }
        next := nextC;
        i := i + 1;
      }
      GrewPath(f0, fat[..], s, cs);
      AtEnd(f0, fat[..], s, cs, i);
      if fat[next] != 0 && fat[next] < EOC {
        assert cs == s && fat[..] == f0;
        Suffix(f0, s, count);
        CutWellFormed(f0, s, count);
        DeallocFat(next, s[count..]);
        CutIs(f0, s, count);
        fat[next] := LAST;
        assert fat[..] == CutAt(f0, s, count);
      } else {
        ResizedFull(f0, fat[..], s, cs, count);
      }
      return true, false;
    }
  }

  /** The one call that goes wrong: start is free and alloc_fat will pick it itself. */
  ghost predicate SelfLinks(f: Table, start: nat, count: nat) { count > 0 && InRange(f, start) && LowestFree(f, start) }

  /** In that case the first round links start to itself, and it starts no chain any more. */
  lemma SelfLink(f: Table, start: nat, count: nat, c: nat)
    requires SelfLinks(f, start, count) && LowestFree(f, c) && |f| <= EOC
    ensures c == start && Linked(f, start, c)[start] == start && !HasChain(Linked(f, start, c), start)
  {
    var g := Linked(f, start, start);
    forall s ensures !(Chain(g, s) && s[0] == start) {
      if Chain(g, s) && s[0] == start { LastIff(g, s, 0); }
    }
  }

  /** A table of four entries where that happens. */
  lemma SelfLinkExample()
    ensures var f := [LAST, LAST, LAST, 0]; WellFormed(f) && SelfLinks(f, 3, 1)
  {
    var f := [LAST, LAST, LAST, 0];
    assert Chain(f, [2]) && [2][0] == 2;
    assert HasChain(f, 2);
  }

  /** cs is s and then clusters that were free; nothing but those and the end of s has changed. */
  ghost predicate Grew(f0: Table, f: Table, s: seq<nat>, cs: seq<nat>) {
    && s != [] && s <= cs && |f| == |f0| && Path(f, cs)
    && (forall j :: |s| <= j < |cs| ==> InRange(f0, cs[j]) && f0[cs[j]] == 0)
    && (forall c :: 0 <= c < |f| && c !in cs[|s| - 1..] ==> f[c] == f0[c])
    && (if |cs| == |s| then f == f0 else Chain(f, cs))
  }

  lemma GrewNothing(f: Table, s: seq<nat>)
    requires Path(f, s)
    ensures Grew(f, f, s, s)
  {
  }

  lemma GrewPath(f0: Table, f: Table, s: seq<nat>, cs: seq<nat>)
    requires Grew(f0, f, s, cs)
    ensures s <= cs && Path(f, cs) && |f| == |f0| && (if |cs| == |s| then f == f0 && cs == s else Chain(f, cs))
  {
  }

  lemma GrewMore(f0: Table, f: Table, s: seq<nat>, cs: seq<nat>, c: nat)
    requires Grew(f0, f, s, cs) && InRange(f, c) && c !in cs && f[c] == 0
    ensures Grew(f0, Linked(f, cs[|cs| - 1], c), s, cs + [c])
  {
    LinkPath(f, cs, c);
    var l, cs' := cs[|cs| - 1], cs + [c];
    assert l in cs[|s| - 1..] && c in cs'[|s| - 1..];
    assert cs'[|s| - 1..] == cs[|s| - 1..] + [c];
  }

  lemma OnlyFrom(f: Table, c: nat, s: seq<nat>)
    requires From(f, c, s) && |f| <= EOC
    ensures forall t :: From(f, c, t) ==> t == s
  {
    forall t | From(f, c, t) ensures t == s {
      if f[c] != 0 { ChainUnique(f, s, t); }
    }
  }

  /** Only the last cluster of the growing chain ends it, or is free if start was. */
  lemma AtEnd(f0: Table, f: Table, s: seq<nat>, cs: seq<nat>, i: nat)
    requires Grew(f0, f, s, cs) && From(f0, s[0], s) && i < |cs| && |f| <= EOC
    ensures i == |cs| - 1 <==> f[cs[i]] == 0 || f[cs[i]] >= EOC
    ensures i < |cs| - 1 ==> f[cs[i]] == cs[i + 1]
    ensures f[cs[i]] == 0 ==> cs == s == [s[0]] && f == f0 && f0[s[0]] == 0
  {
    if |cs| > |s| || f0[s[0]] != 0 { LastIff(f, cs, i); }
  }

  /** What resizing the chain s does to the table. */
  ghost predicate Resized(f0: Table, f: Table, s: seq<nat>, count: nat, ok: bool)
    requires s != [] && From(f0, s[0], s)
  {
    if count + 1 < |s| then ok && f == CutAt(f0, s, count)
    else if count + 1 == |s| then ok && f == f0
    else exists t :: Grew(f0, f, s, s + t)
           && if ok then |s| + |t| == count + 1 else |s| + |t| <= count && forall j :: 3 <= j < |f| ==> f[j] != 0
  }

  lemma ResizedShort(f0: Table, f: Table, s: seq<nat>, cs: seq<nat>, count: nat)
    requires Grew(f0, f, s, cs) && s != [] && From(f0, s[0], s) && |cs| <= count
    requires forall j :: 3 <= j < |f| ==> f[j] != 0
    ensures Resized(f0, f, s, count, false)
  {
    hide Grew;
    GrewPath(f0, f, s, cs);
    assert cs == s + cs[|s|..];
  }

  lemma ResizedFull(f0: Table, f: Table, s: seq<nat>, cs: seq<nat>, count: nat)
    requires Grew(f0, f, s, cs) && s != [] && From(f0, s[0], s) && |cs| == count + 1
    ensures Resized(f0, f, s, count, true)
  {
    hide Grew;
    GrewPath(f0, f, s, cs);
    assert cs == s + cs[|s|..];
  }

  lemma CutIs(f: Table, s: seq<nat>, k: nat)
    requires Path(f, s) && k < |s|
    ensures Cleared(f, s[k..])[s[k] := LAST] == CutAt(f, s, k)
  {
    assert s[k..] == [s[k]] + s[k + 1..];
  }

  /** A successful resize leaves start with exactly count successors, unless start was
      free and stays so because none were asked for. */
  lemma ResizedSuccessors(f0: Table, f: Table, s: seq<nat>, count: nat)
    requires WellFormed(f0) && s != [] && From(f0, s[0], s) && Resized(f0, f, s, count, true)
    ensures HasSuccessors(f, s[0], count) <==> f0[s[0]] != 0 || count > 0
  {
    hide WellFormed;
    if count + 1 < |s| {
      CutChain(f0, s, count);
      assert Chain(f, s[..count + 1]);
    } else if count + 1 == |s| {
      if f0[s[0]] != 0 {
        assert Chain(f, s);
      } else {
        forall t ensures !(Chain(f, t) && t[0] == s[0] && |t| == 1) { }
      }
    } else {
      var t :| Grew(f0, f, s, s + t) && |s| + |t| == count + 1;
      assert Chain(f, s + t) && (s + t)[0] == s[0];
    }
  }

  /** Chains that share no cluster with the one resized are as they were. */
  lemma ResizedOthers(f0: Table, f: Table, s: seq<nat>, count: nat, ok: bool, t: seq<nat>)
    requires WellFormed(f0) && s != [] && From(f0, s[0], s) && Resized(f0, f, s, count, ok) && Chain(f0, t)
    requires forall c :: c in t ==> c !in s
    ensures Chain(f, t)
  {
    hide WellFormed;
    InUse(f0, t);
    if count + 1 < |s| {
      forall c | c in t ensures f[c] == f0[c] { assert c !in s[count + 1..] && c != s[count]; }
    } else if count + 1 > |s| {
      var u :| Grew(f0, f, s, s + u);
      var cs := s + u;
      forall c | c in t ensures f[c] == f0[c] {
        assert c !in cs[|s| - 1..];
      }
    }
    PathFrame(f0, f, t);
  }

  lemma SmallTable(f: Table)
    requires WellFormed(f)
    ensures |f| <= EOC
  {
  }
}
