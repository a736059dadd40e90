/** The memory a process sees: the byte behind every user address, and what faults
    and copies do to it. */
module UserBytes {
  import opened Wrappers
  import opened Vmas
  import opened ProcessState
  import opened Backing

  type Ram = map<nat, Bytes>

  /** Frames of mapped pages have contents, and belong to one page each. */
  ghost predicate Backed(p: PageMap, ram: Ram) {
    && (forall n :: n in p ==> p[n].frame in ram)
    && (forall f :: f in ram ==> |ram[f]| == PAGE)
    && (forall n, m :: n in p && m in p && p[n].frame == p[m].frame ==> n == m)
  }

  ghost function ByteAt(p: PageMap, ram: Ram, a: nat): Option<bv8>
    requires Backed(p, ram)
  {
    if a / PAGE in p then Some(ram[p[a / PAGE].frame][a % PAGE]) else None
  }

  /** Pages may have come in, but none has gone, moved or changed. */
  ghost predicate Extends(p0: PageMap, ram0: Ram, p: PageMap, ram: Ram) {
    forall n :: n in p0 ==>
        n in p && p[n].frame == p0[n].frame && p0[n].frame in ram0 && p[n].frame in ram
            && ram[p[n].frame] == ram0[p0[n].frame]
  }

  /** Memory in use by anyone else is as it was. */
  ghost predicate OthersKept(ram0: Ram, ram: Ram, used0: set<nat>, c: Limits, p: PageMap) {
    && ram.Keys == ram0.Keys
    && forall f :: f in ram && (f in used0 || !(c.lo <= f < c.hi)) && (forall n :: n in p ==> p[n].frame != f) ==>
           ram[f] == ram0[f]
  }

  /** The first k bytes of data are at dst, and every other byte is as it was. */
  ghost predicate Wrote(p0: PageMap, ram0: Ram, p: PageMap, ram: Ram, dst: nat, data: Bytes, k: nat)
    requires k <= |data|
  {
    && Backed(p0, ram0) && Backed(p, ram)
    && (forall n :: n in p0 ==> n in p && p[n].frame == p0[n].frame)
    && (forall a: nat :: a / PAGE in p0 && !(dst <= a < dst + k) ==> ByteAt(p, ram, a) == ByteAt(p0, ram0, a))
    && (forall i :: 0 <= i < k ==> ByteAt(p, ram, dst + i) == Some(data[i]))
  }

  lemma WroteNothing(p: PageMap, ram: Ram, dst: nat, data: Bytes)
    requires Backed(p, ram)
    ensures Wrote(p, ram, p, ram, dst, data, 0)
  {
  }

  /** Pages coming in keep what was written. */
  lemma WroteExtends(p0: PageMap, ram0: Ram, p: PageMap, ram: Ram, p': PageMap, ram': Ram, dst: nat, data: Bytes,
                     k: nat)
    requires k <= |data| && Wrote(p0, ram0, p, ram, dst, data, k) && Extends(p, ram, p', ram') && Backed(p', ram')
    ensures Wrote(p0, ram0, p', ram', dst, data, k)
  {
    forall a: nat | ByteAt(p, ram, a).Some? ensures ByteAt(p', ram', a) == ByteAt(p, ram, a) {
      assert a / PAGE in p;
    }
  }

  /** One memcpy within a page. */
  lemma SpliceBytes(p: PageMap, ram: Ram, n: nat, off: nat, b: Bytes, a: nat)
    requires Backed(p, ram) && n in p && off + |b| <= PAGE
    ensures var ram' := ram[p[n].frame := Splice(ram[p[n].frame], off, b)];
            && Backed(p, ram')
            && ByteAt(p, ram', a) == if n * PAGE + off <= a < n * PAGE + off + |b| then Some(b[a - n * PAGE - off])
                else ByteAt(p, ram, a)
  {
    assert a / PAGE * PAGE + a % PAGE == a;
    if a / PAGE != n {
      assert !(n * PAGE <= a < n * PAGE + PAGE);
    }
  }

  lemma WroteChunk(p0: PageMap, ram0: Ram, p: PageMap, ram: Ram, dst: nat, data: Bytes, k: nat, chunk: nat)
    requires k + chunk <= |data| && Wrote(p0, ram0, p, ram, dst, data, k) && (dst + k) / PAGE in p
    requires (dst + k) % PAGE + chunk <= PAGE
    ensures var f := p[(dst + k) / PAGE].frame;
            Wrote(p0, ram0, p, ram[f := Splice(ram[f], (dst + k) % PAGE, data[k..k + chunk])], dst, data, k + chunk)
  {
    var n, off, b := (dst + k) / PAGE, (dst + k) % PAGE, data[k..k + chunk];
    var f := p[n].frame;
    var ram' := ram[f := Splice(ram[f], off, b)];
    assert n * PAGE + off == dst + k;
    SpliceBytes(p, ram, n, off, b, 0);
    forall a: nat
      ensures ByteAt(p, ram', a) == if dst + k <= a < dst + k + chunk then Some(data[a - dst]) else ByteAt(p, ram, a)
    {
      SpliceBytes(p, ram, n, off, b, a);
    }
  }

  /** The user bytes [src, src + |data|). */
  ghost predicate Reads(p: PageMap, ram: Ram, src: nat, data: Bytes)
    requires Backed(p, ram)
  {
    forall i :: 0 <= i < |data| ==> ByteAt(p, ram, src + i) == Some(data[i])
  }

  lemma ReadsExtends(p: PageMap, ram: Ram, p': PageMap, ram': Ram, src: nat, data: Bytes)
    requires Backed(p, ram) && Backed(p', ram') && Extends(p, ram, p', ram') && Reads(p, ram, src, data)
    ensures Reads(p', ram', src, data)
  {
    forall i | 0 <= i < |data| ensures ByteAt(p', ram', src + i) == Some(data[i]) {
      assert ByteAt(p, ram, src + i) == Some(data[i]);
    }
  }

  lemma ReadsChunk(p: PageMap, ram: Ram, src: nat, data: Bytes, chunk: nat)
    requires Backed(p, ram) && Reads(p, ram, src, data)
    requires var va := src + |data|; va / PAGE in p && va % PAGE + chunk <= PAGE
    ensures var va := src + |data|;
            Reads(p, ram, src, data + ram[p[va / PAGE].frame][va % PAGE..va % PAGE + chunk])
  {
    var va := src + |data|;
    var n, off := va / PAGE, va % PAGE;
    var more := ram[p[n].frame][off..off + chunk];
    forall i | 0 <= i < |data + more| ensures ByteAt(p, ram, src + i) == Some((data + more)[i]) {
      if i < |data| {
        assert ByteAt(p, ram, src + i) == Some(data[i]);
      } else {
        var j := i - |data|;
        assert (va + j) / PAGE == n && (va + j) % PAGE == off + j && (data + more)[i] == more[j];
      }
    }
  }

  lemma ExtendsTrans(p0: PageMap, ram0: Ram, p1: PageMap, ram1: Ram, p2: PageMap, ram2: Ram)
    requires Extends(p0, ram0, p1, ram1) && Extends(p1, ram1, p2, ram2)
    ensures Extends(p0, ram0, p2, ram2)
  {
  }
}
