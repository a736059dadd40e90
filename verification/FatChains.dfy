/** Cluster chains in a file allocation table, on sequences: what the cells of a FAT
    stand for, and what linking and cutting does to every chain. */
module FatChains {
  import opened Wrappers

  /** The value alloc_fat stores, and the least that ends a chain. */
  const LAST := 0x0FFF_FFFF
  const EOC := 0x0FFF_FFF8

  type Table = seq<nat>

  predicate InRange(f: Table, c: nat) { 2 <= c < |f| }

  /** Clusters linked one to the next, without repeats. */
  ghost predicate Path(f: Table, s: seq<nat>) {
    && s != [] && Distinct(s)
    && (forall i :: 0 <= i < |s| ==> InRange(f, s[i]))
    && (forall i :: 0 <= i < |s| - 1 ==> f[s[i]] == s[i + 1])
  }

  ghost predicate Chain(f: Table, s: seq<nat>) { Path(f, s) && f[s[|s| - 1]] >= EOC }

  ghost predicate HasChain(f: Table, c: nat) { exists s :: Chain(f, s) && s[0] == c }

  /** Every cluster is free, ends a chain, or points to another; no two point to the
      same; and every one in use starts a chain that ends. */
  ghost predicate WellFormed(f: Table) {
    && |f| <= EOC
    && (forall c :: 2 <= c < |f| ==> f[c] <= LAST && (f[c] == 0 || f[c] >= EOC || InRange(f, f[c])))
    && (forall c, d :: 2 <= c < |f| && 2 <= d < |f| && 0 < f[c] < EOC && f[c] == f[d] ==> c == d)
    && (forall c :: 2 <= c < |f| && f[c] != 0 ==> HasChain(f, c))
  }

  lemma ChainOf(f: Table, c: nat) returns (s: seq<nat>)
    requires WellFormed(f) && InRange(f, c) && f[c] != 0
    ensures Chain(f, s) && s[0] == c
  {
    assert HasChain(f, c);
    s :| Chain(f, s) && s[0] == c;
  }

  lemma Sizes(f: Table, s: seq<nat>)
    requires WellFormed(f) && Chain(f, s)
    ensures |f| <= EOC && forall i :: 0 <= i < |s| ==> 2 <= s[i] < |f| && s[i] < EOC
  {
  }

  /** No two clusters point to the same. */
  lemma OnePredecessor(f: Table, c: nat, d: nat)
    requires WellFormed(f) && InRange(f, c) && InRange(f, d) && 0 < f[c] < EOC && f[c] == f[d]
    ensures c == d
  {
  }

  /** The last cluster of a chain is the one that ends it. */
  lemma LastIff(f: Table, s: seq<nat>, i: nat)
    requires Chain(f, s) && i < |s| && |f| <= EOC
    ensures i == |s| - 1 <==> f[s[i]] >= EOC
    ensures i < |s| - 1 ==> f[s[i]] == s[i + 1] && 0 < f[s[i]] < EOC
  {
    assert i < |s| - 1 ==> InRange(f, s[i + 1]);
  }

  /** A chain is determined by its first cluster. */
  lemma {:induction false} ChainUnique(f: Table, s: seq<nat>, t: seq<nat>)
    requires Chain(f, s) && Chain(f, t) && s[0] == t[0] && |f| <= EOC
    ensures s == t
    decreases |s|
  {
    if |s| == 1 || |t| == 1 {
      LastIff(f, s, 0);
      LastIff(f, t, 0);
    } else {
      assert f[s[0]] == s[1] && f[t[0]] == t[1];
      Suffix(f, s, 1);
      Suffix(f, t, 1);
      ChainUnique(f, s[1..], t[1..]);
      assert s == [s[0]] + s[1..] && t == [t[0]] + t[1..];
    }
  }

  lemma Suffix(f: Table, s: seq<nat>, k: nat)
    requires Chain(f, s) && k < |s|
    ensures Chain(f, s[k..]) && s[k..][0] == s[k]
  {
  }

  lemma PathFrame(f: Table, g: Table, s: seq<nat>)
    requires Path(f, s) && |g| == |f| && forall i :: 0 <= i < |s| - 1 ==> g[s[i]] == f[s[i]]
    ensures Path(g, s)
  {
  }

  // Linking

  function Linked(f: Table, l: nat, c: nat): (g: Table)
    requires InRange(f, l) && InRange(f, c)
    ensures |g| == |f|
  {
    f[c := LAST][l := c]
  }

  lemma LinkPath(f: Table, s: seq<nat>, c: nat)
    requires Path(f, s) && InRange(f, c) && c !in s
    ensures Chain(Linked(f, s[|s| - 1], c), s + [c])
  {
    var l, t := s[|s| - 1], s + [c];
    var g := Linked(f, l, c);
    forall i | 0 <= i < |s| - 1 ensures g[s[i]] == s[i + 1] { assert s[i] != l && s[i] != c; }
    forall i | 0 <= i < |t| - 1 ensures g[t[i]] == t[i + 1] { }
  }

  /** The chain of any cluster after a free cluster c has been linked behind l. */
  lemma LinkedHasChain(f: Table, l: nat, c: nat, d: nat)
    requires WellFormed(f) && InRange(f, l) && InRange(f, c) && l != c && f[c] == 0 && (f[l] == 0 || f[l] >= EOC)
    requires InRange(f, d) && Linked(f, l, c)[d] != 0
    ensures HasChain(Linked(f, l, c), d)
  {
    hide WellFormed;
    var g := Linked(f, l, c);
    if d == c {
      assert Chain(g, [c]);
    } else if d == l {
      assert Chain(g, [l, c]);
    } else {
      var s := ChainOf(f, d);
      InUse(f, s);
      Sizes(f, s);
      if l in s {
        EndsAt(f, s, l);
        LinkPath(f, s, c);
        assert Chain(g, s + [c]) && (s + [c])[0] == d;
      } else {
        PathFrame(f, g, s);
        assert Chain(g, s);
      }
    }
  }

  /** All clusters of a chain are in use. */
  lemma InUse(f: Table, s: seq<nat>)
    requires Chain(f, s)
    ensures forall c :: c in s ==> f[c] != 0
  {
    forall i | 0 <= i < |s| ensures f[s[i]] != 0 { assert i < |s| - 1 ==> InRange(f, s[i + 1]); }
  }

  lemma EndsAt(f: Table, s: seq<nat>, l: nat)
    requires Chain(f, s) && l in s && f[l] >= EOC && |f| <= EOC
    ensures s[|s| - 1] == l
  {
    var i :| 0 <= i < |s| && s[i] == l;
    LastIff(f, s, i);
  }

  lemma LinkWellFormed(f: Table, l: nat, c: nat)
    requires WellFormed(f) && InRange(f, l) && InRange(f, c) && l != c && f[c] == 0 && (f[l] == 0 || f[l] >= EOC)
    ensures WellFormed(Linked(f, l, c))
  {
    hide HasChain;
    var g := Linked(f, l, c);
    forall d | 2 <= d < |g| && g[d] != 0 ensures HasChain(g, d) { LinkedHasChain(f, l, c, d); }
    forall d | 2 <= d < |f| && d != l ensures g[d] != c {
      if d != c && f[d] == c { NotFree(f, d); }
    }
  }

  /** Nothing points to a free cluster. */
  lemma NotFree(f: Table, d: nat)
    requires WellFormed(f) && InRange(f, d) && 0 < f[d] < EOC
    ensures InRange(f, f[d]) && f[f[d]] != 0
  {
    var s := ChainOf(f, d);
    InUse(f, s);
    assert |s| > 1;
    assert f[s[0]] == s[1] && s[1] in s;
  }

  // Cutting

  /** s freed. */
  function Cleared(f: Table, s: seq<nat>): (g: Table)
    ensures |g| == |f| && forall c :: 0 <= c < |f| ==> g[c] == if c in s then 0 else f[c]
  {
    seq(|f|, c requires 0 <= c < |f| => if c in s then 0 else f[c])
  }

  /** s cut behind index k, the rest freed. */
  function CutAt(f: Table, s: seq<nat>, k: nat): (g: Table)
    requires k < |s| && s[k] < |f|
    ensures |g| == |f|
  {
    Cleared(f, s[k + 1..])[s[k] := LAST]
  }

  lemma CutChain(f: Table, s: seq<nat>, k: nat)
    requires Chain(f, s) && k < |s|
    ensures Chain(CutAt(f, s, k), s[..k + 1])
  {
    var g, t := CutAt(f, s, k), s[..k + 1];
    forall i | 0 <= i < k ensures g[s[i]] == s[i + 1] {
      assert s[i] !in s[k + 1..];
    }
  }

  /** Whoever reaches a cluster of s[k + 1..] from outside passes s[k]. */
  lemma {:induction false} ReachedThrough(f: Table, s: seq<nat>, k: nat, t: seq<nat>, j: nat)
    requires WellFormed(f) && Chain(f, s) && Chain(f, t) && k < |s| && j < |t| && t[j] in s[k + 1..]
    requires t[0] !in s[k + 1..]
    ensures s[k] in t[..j]
    decreases j
  {
    hide WellFormed;
    Sizes(f, s);
    var r := s[k + 1..];
    var i :| 0 <= i < |r| && r[i] == t[j];
    assert j > 0;
    assert f[t[j - 1]] == t[j] && f[s[k + i]] == s[k + i + 1] == r[i];
    OnePredecessor(f, t[j - 1], s[k + i]);
    if i > 0 {
      assert s[k + i] == r[i - 1];
      ReachedThrough(f, s, k, t, j - 1);
      assert t[..j] == t[..j - 1] + [t[j - 1]];
    } else {
      assert t[..j][j - 1] == s[k];
    }
  }

  lemma CutHasChain(f: Table, s: seq<nat>, k: nat, d: nat)
    requires WellFormed(f) && Chain(f, s) && k < |s| && InRange(f, d) && CutAt(f, s, k)[d] != 0
    ensures HasChain(CutAt(f, s, k), d)
  {
    hide WellFormed;
    var g, r := CutAt(f, s, k), s[k + 1..];
    assert s[k] !in r;
    InUse(f, s);
    var t := ChainOf(f, d);
    if s[k] in t {
      var i :| 0 <= i < |t| && t[i] == s[k];
      CutUpTo(f, s, k, t, i);
    } else {
      forall j | 0 <= j < |t| ensures t[j] !in r {
        if t[j] in r { ReachedThrough(f, s, k, t, j); }
      }
      PathFrame(f, g, t);
      assert Chain(g, t);
    }
  }

  /** A chain that passes s[k] ends there after the cut. */
  lemma CutUpTo(f: Table, s: seq<nat>, k: nat, t: seq<nat>, i: nat)
    requires WellFormed(f) && Chain(f, s) && Chain(f, t) && k < |s| && i < |t| && t[i] == s[k] && t[0] !in s[k + 1..]
    ensures Chain(CutAt(f, s, k), t[..i + 1]) && t[..i + 1][0] == t[0]
  {
    hide WellFormed;
    var g, r := CutAt(f, s, k), s[k + 1..];
    forall j | 0 <= j < i ensures t[j] !in r && t[j] != s[k] {
      if t[j] in r { ReachedThrough(f, s, k, t, j); }
    }
    assert Path(f, t[..i + 1]);
    PathFrame(f, g, t[..i + 1]);
  }

  lemma CutWellFormed(f: Table, s: seq<nat>, k: nat)
    requires WellFormed(f) && Chain(f, s) && k < |s|
    ensures WellFormed(CutAt(f, s, k))
  {
    hide HasChain;
    var g := CutAt(f, s, k);
    forall d | 2 <= d < |g| && g[d] != 0 ensures HasChain(g, d) { CutHasChain(f, s, k, d); }
  }
}
