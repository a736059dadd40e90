/** The physical page allocator of kernel/memory/page_allocator.c: one bit a page,
    in 64-bit words, with a hint where the next search starts. A word is written
    as its 64 bits, least significant first. */
module PageBitmap {
  import opened Wrappers

  const WORD := 64

  type Word = w: seq<bool> | |w| == WORD witness seq(WORD, _ => false)

  const FULL: Word := LowMask(WORD)
  const CLEAR: Word := LowMask(0)

  /** lowmask64: the low n bits, all of them from 64 on. */
  function LowMask(n: nat): (w: Word)
    ensures forall b :: 0 <= b < WORD ==> (w[b] <==> b < n)
  {
    seq(WORD, b => b < n)
  }

  function Or(v: Word, w: Word): (u: Word)
    ensures forall b :: 0 <= b < WORD ==> (u[b] <==> v[b] || w[b])
  {
    seq(WORD, b requires 0 <= b < WORD => v[b] || w[b])
  }

  function And(v: Word, w: Word): (u: Word)
    ensures forall b :: 0 <= b < WORD ==> (u[b] <==> v[b] && w[b])
  {
    seq(WORD, b requires 0 <= b < WORD => v[b] && w[b])
  }

  /** count_pages */
  function CountPages(bytes: nat, page: nat): (n: nat)
    requires page > 0
    ensures bytes <= n * page < bytes + page
  {
    assert bytes == (bytes / page) * page + bytes % page;
    bytes / page + if bytes % page > 0 then 1 else 0
  }

  /** In the words [min / 64, end of max) every page outside [min, max) is marked used. */
  ghost predicate SealedBits(ws: seq<Word>, min: nat, max: nat) {
    && (max + WORD - 1) / WORD <= |ws|
    && forall i, b :: min / WORD <= i < (max + WORD - 1) / WORD && 0 <= b < WORD && !(min <= i * WORD + b < max) ==>
           ws[i][b]
  }

  ghost predicate Bit(ws: seq<Word>, p: nat) { p / WORD < |ws| && ws[p / WORD][p % WORD] }

  ghost predicate AllUsed(ws: seq<Word>, lo: nat, hi: nat) { forall p: nat :: lo <= p < hi ==> Bit(ws, p) }

  /** vs is ws with the pages [lo, hi) set to value and no other bit changed. */
  ghost predicate Rewritten(ws: seq<Word>, vs: seq<Word>, lo: nat, hi: nat, value: bool) {
    && |vs| == |ws|
    && forall i, b :: 0 <= i < |ws| && 0 <= b < WORD ==>
         vs[i][b] == if lo <= i * WORD + b < hi then value else ws[i][b]
  }

  /** A bitmap that marks only [start, min) and what lies from max on is sealed exactly
      when the word of the first managed page holds no page below start. */
  lemma SealedIff(ws: seq<Word>, start: nat, min: nat, max: nat)
    requires start <= min < max && |ws| == (max + WORD - 1) / WORD
    requires forall i, b :: 0 <= i < |ws| && 0 <= b < WORD ==>
              (ws[i][b] <==> i * WORD + b >= max || start <= i * WORD + b < min)
    ensures SealedBits(ws, min, max) <==> min / WORD * WORD >= start
  {
    var f := min / WORD;
    assert ws[f][0] <==> f * WORD + 0 >= max || start <= f * WORD + 0 < min;
  }

  /** Words and bits of a run of more than 64 pages. */
  lemma RunShape(pages: nat, n: nat, part: nat)
    requires pages > 0 && part == pages % WORD && n == pages / WORD + if part > 0 then 1 else 0
    ensures n > 0 && RunPages(n, part) == pages && n == WordsFor(pages)
  {
  }

  lemma RunStart(i: nat, pages: nat, first: nat, end: nat, huge: bool)
    requires first <= i && i + WordsFor(pages) <= end && (huge ==> i % 8 == 0)
    ensures i * WORD % WORD == 0 && (huge ==> i * WORD % 512 == 0)
    ensures first * WORD <= i * WORD && i * WORD + pages <= end * WORD
  {
    WordsEnough(pages);
    if huge { Aligned512(i, i / 8); }
    hide WordsFor;
  }

  lemma WordsEnough(pages: nat)
    ensures pages <= WordsFor(pages) * WORD
  {
  }

  lemma Aligned512(i: nat, k: nat)
    requires i == 8 * k
    ensures i * WORD % 512 == 0
  {
    assert i * WORD == 512 * k;
  }

  /** A hint behind a run stays within the words that are searched. */
  lemma HintInside(i: nat, n: nat, part: nat, min: nat, end: nat)
    requires min / WORD <= i && i + n <= end && n > 0 && part < WORD
    ensures var h := i * WORD + RunPages(n, part); min / WORD <= (if h < min then min else h) / WORD <= end
  {
    var h := i * WORD + RunPages(n, part);
    assert h <= (i + n) * WORD;
    assert h / WORD <= i + n;
  }

  lemma SealedPages(ws: seq<Word>, min: nat, max: nat)
    requires SealedBits(ws, min, max)
    ensures forall p: nat :: min / WORD * WORD <= p < (max + WORD - 1) / WORD * WORD && !(min <= p < max) ==> Bit(ws, p)
  {
    forall p: nat | min / WORD * WORD <= p < (max + WORD - 1) / WORD * WORD && !(min <= p < max) ensures Bit(ws, p) {
      assert p / WORD * WORD + p % WORD == p;
    }
  }

  /** Taking pages, or giving back managed ones, unseals nothing. */
  lemma SealedKept(ws: seq<Word>, vs: seq<Word>, min: nat, max: nat, lo: nat, hi: nat, value: bool)
    requires SealedBits(ws, min, max) && Rewritten(ws, vs, lo, hi, value) && (value || (min <= lo && hi <= max))
    ensures SealedBits(vs, min, max)
  {
  }

  /** The bits of the j-th word of a run of n words whose last word counts only `part` pages. */
  function RunMask(j: nat, n: nat, part: nat): Word {
    if part > 0 && j + 1 == n then LowMask(part) else FULL
  }

  function RunPages(n: nat, part: nat): nat
    requires n > 0
  {
    if part > 0 then (n - 1) * WORD + part else n * WORD
  }

  /** Words [i, i + n) can take the run. */
  predicate RunFree(ws: seq<Word>, i: nat, n: nat, part: nat) {
    i + n <= |ws| && forall j :: 0 <= j < n ==> And(ws[i + j], RunMask(j, n, part)) == CLEAR
  }

  /** Where the pass over words [from, to) may place a run of n words. */
  predicate Candidate(i: nat, from: nat, to: nat, n: nat, align: nat) {
    from <= i && i + n <= to && (align > 1 ==> i % align == 0)
  }

  function WordsFor(pages: nat): nat { (pages + WORD - 1) / WORD }

  /** Word i is no place for a run of the given size in a pass over [from, to). */
  predicate NoRun(ws: seq<Word>, i: nat, from: nat, to: nat, pages: nat, huge: bool) {
    Candidate(i, from, to, WordsFor(pages), if huge then 8 else 1) ==> !RunFree(ws, i, WordsFor(pages), pages % WORD)
  }

  lemma NoRunIs(ws: seq<Word>, from: nat, to: nat, pages: nat, huge: bool)
    ensures (forall i :: NoRun(ws, i, from, to, pages, huge)) <==>
            forall i: nat :: Candidate(i, from, to, WordsFor(pages), if huge then 8 else 1) ==>
                !RunFree(ws, i, WordsFor(pages), pages % WORD)
  {
    hide RunFree, WordsFor, Candidate;
    if forall i :: NoRun(ws, i, from, to, pages, huge) {
      forall i: nat | Candidate(i, from, to, WordsFor(pages), if huge then 8 else 1)
        ensures !RunFree(ws, i, WordsFor(pages), pages % WORD)
      {
        assert NoRun(ws, i, from, to, pages, huge);
      }
    }
  }

  lemma RunBit(ws: seq<Word>, i: nat, n: nat, part: nat, p: nat)
    requires RunFree(ws, i, n, part) && n > 0 && part < WORD && i * WORD <= p < i * WORD + RunPages(n, part)
    ensures p / WORD < |ws| && !ws[p / WORD][p % WORD]
  {
    var j := p / WORD - i;
    assert 0 <= j < n && And(ws[i + j], RunMask(j, n, part)) == CLEAR && RunMask(j, n, part)[p % WORD];
  }

  lemma RunBits(ws: seq<Word>, i: nat, n: nat, part: nat)
    requires RunFree(ws, i, n, part) && n > 0 && part < WORD
    ensures forall p: nat :: i * WORD <= p < i * WORD + RunPages(n, part) ==> p / WORD < |ws| && !Bit(ws, p)
  {
    hide RunFree, RunPages;
    forall p: nat | i * WORD <= p < i * WORD + RunPages(n, part) ensures p / WORD < |ws| && !Bit(ws, p) {
      RunBit(ws, i, n, part, p);
    }
  }

  lemma RunInside(ws: seq<Word>, min: nat, max: nat, i: nat, n: nat, part: nat)
    requires SealedBits(ws, min, max) && RunFree(ws, i, n, part) && n > 0 && part < WORD
    requires min / WORD <= i && i + n <= (max + WORD - 1) / WORD
    ensures min <= i * WORD && i * WORD + RunPages(n, part) <= max
  {
    var last := i * WORD + RunPages(n, part) - 1;
    RunBit(ws, i, n, part, i * WORD);
    RunBit(ws, i, n, part, last);
    assert last == last / WORD * WORD + last % WORD;
  }

  class Allocator {
    const bitmap: array<Word>
    const min: nat
    const max: nat
    var hint: nat

    /** Page p is marked used. */
    predicate Used(p: nat)
      requires p / WORD < bitmap.Length
      reads bitmap
    {
      bitmap[p / WORD][p % WORD]
    }

    function FirstWord(): nat { min / WORD }
    function EndWord(): nat { (max + WORD - 1) / WORD }

    ghost predicate Sealed()
      reads bitmap
    {
      SealedBits(bitmap[..], min, max)
    }

    /** The words to search are there, and the hint points into them. */
    ghost predicate Shaped()
      reads this
    {
      EndWord() <= bitmap.Length && 0 < min <= max && FirstWord() <= hint / WORD <= EndWord()
    }

    ghost predicate Valid()
      reads this, bitmap
    {
      Shaped() && Sealed()
    }

    /** page_alloc_init for RAM pages [start, end): the bitmap itself takes the first
        pages. The words searched hold no page below RAM exactly when the first managed
        page's word starts at or above it, as it does when start is 64-page aligned. */
    constructor (start: nat, end: nat)
      requires start + CountPages((end + WORD - 1) / WORD * 8, 4096) < end
      ensures min == start + CountPages((end + WORD - 1) / WORD * 8, 4096) && max == end && hint == min
      ensures bitmap.Length == (end + WORD - 1) / WORD && fresh(bitmap)
      ensures Sealed() <==> FirstWord() * WORD >= start
      ensures forall p :: 0 <= p < bitmap.Length * WORD ==> (Used(p) <==> p >= end || start <= p < min)
      ensures Shaped()
    {
      hide SealedBits;
      var words := (end + WORD - 1) / WORD;
      var own := CountPages(words * 8, 4096);
      min, max, hint := start + own, end, start + own;
      bitmap := new Word[words](_ => CLEAR);
      new;
      MaskTail(end);
      MarkUsed(start, own);
      UsedBits();
      SealedIff(bitmap[..], start, start + own, end);
    }

    /** The first page handed out after boot: the first managed one, except that where the
        bitmap is not sealed it lies below the start of RAM. */
    static method Boot(start: nat, end: nat) returns (a: Allocator, r: Option<nat>)
      requires start + CountPages((end + WORD - 1) / WORD * 8, 4096) < end
      ensures fresh(a) && fresh(a.bitmap) && a.Shaped()
      ensures r == Some(if a.FirstWord() * WORD < start then a.FirstWord() * WORD else a.min)
      ensures r.value < start <==> a.FirstWord() * WORD < start
    {
      a := new Allocator(start, end);
      a.BitsUsed();
      assert !Bit(a.bitmap[..], a.min) && a.min / WORD < a.EndWord();
      assert a.FirstWord() * WORD < start ==> !Bit(a.bitmap[..], a.FirstWord() * WORD);
      r := a.AllocPage();
    }

    /** Marking the pages past the end in the last word. */
    method MaskTail(end: nat)
      requires bitmap.Length == (end + WORD - 1) / WORD && forall i :: 0 <= i < bitmap.Length ==> bitmap[i] == CLEAR
      modifies bitmap
      ensures forall p :: 0 <= p < bitmap.Length * WORD ==> (Used(p) <==> p >= end)
    {
      if end % WORD != 0 {
        bitmap[bitmap.Length - 1] := Or(bitmap[bitmap.Length - 1], seq(WORD, b => b >= end % WORD));
      }
    }

    lemma UsedBits()
      ensures forall i, b :: 0 <= i < bitmap.Length && 0 <= b < WORD ==> (bitmap[..][i][b] <==> Used(i * WORD + b))
    {
    }

    /** mark_used */
    method MarkUsed(page: nat, pages: nat)
      requires page + pages <= bitmap.Length * WORD
      modifies bitmap
      ensures forall p :: 0 <= p < bitmap.Length * WORD ==> (Used(p) <==> old(Used(p)) || page <= p < page + pages)
    {
      var j := 0;
      while j < pages
        invariant j <= pages
        invariant forall p :: 0 <= p < bitmap.Length * WORD ==> (Used(p) <==> old(Used(p)) || page <= p < page + j)
      {
        var i, b := (page + j) / WORD, (page + j) % WORD;
        bitmap[i] := bitmap[i][b := true];
        j := j + 1;
      }
    }

    ghost predicate SameBut(ws: seq<Word>, lo: nat, hi: nat, value: bool)
      reads bitmap
    {
      Rewritten(ws, bitmap[..], lo, hi, value)
    }

    /** __builtin_ctzll of the complement: the first clear bit of a word that is not full. */
    method FirstClear(w: Word) returns (b: nat)
      requires w != FULL
      ensures b < WORD && !w[b] && forall k :: 0 <= k < b ==> w[k]
    {
      b := 0;
      while w[b]
        invariant b < WORD && (forall k :: 0 <= k < b ==> w[k])
        decreases WORD - b
      {
        assert b == WORD - 1 ==> w == FULL;
        b := b + 1;
      }
    }

    /** One pass of the one-page search over words [from, to). */
    method SearchOne(from: nat, to: nat) returns (r: Option<nat>)
      requires to <= bitmap.Length
      modifies this`hint, bitmap
      ensures r.None? ==>
                hint == old(hint) && bitmap[..] == old(bitmap[..]) && AllUsed(bitmap[..], from * WORD, to * WORD)
      ensures r.Some? ==> from * WORD <= r.value < to * WORD && SameBut(old(bitmap[..]), r.value, r.value + 1, true)
      ensures r.Some? ==> !Bit(old(bitmap[..]), r.value) && AllUsed(old(bitmap[..]), from * WORD, r.value)
      ensures r.Some? ==> hint == if r.value + 1 < min then min else r.value + 1
    {
      ghost var before := bitmap[..];
      var i := from;
      while i < to
        invariant from <= i && hint == old(hint) && bitmap[..] == before
        invariant AllUsed(before, from * WORD, if i <= to then i * WORD else to * WORD)
      {
        var w := bitmap[i];
        assert before[i] == w;
        if w != FULL {
          var b := FirstClear(w);
          var page := i * WORD + b;
          forall p: nat | i * WORD <= p < page ensures Bit(before, p) { assert p / WORD == i && p % WORD < b; }
          bitmap[i] := w[b := true];
          hint := page + 1;
          if hint < min { hint := min; }
          return Some(page);
        }
        forall p: nat | i * WORD <= p < (i + 1) * WORD ensures Bit(before, p) { assert p / WORD == i; }
        i := i + 1;
      }
      return None;
    }

    /** r is the first page not in use from word `from` on. */
    ghost predicate FirstFrom(ws: seq<Word>, from: nat, r: nat) {
      from * WORD <= r < EndWord() * WORD && !Bit(ws, r) && AllUsed(ws, from * WORD, r)
    }

    /** The two passes of the one-page search: from the word of the hint on, then from the
        first word up to it. */
    method SearchPages() returns (r: Option<nat>)
      requires Shaped()
      modifies this`hint, bitmap
      ensures Shaped()
      ensures r.Some? ==> SameBut(old(bitmap[..]), r.value, r.value + 1, true)
      ensures r.Some? ==>
        || FirstFrom(old(bitmap[..]), old(hint) / WORD, r.value)
        || (FirstFrom(old(bitmap[..]), FirstWord(), r.value)
            && AllUsed(old(bitmap[..]), old(hint) / WORD * WORD, EndWord() * WORD))
      ensures r.None? ==>
                bitmap[..] == old(bitmap[..]) && AllUsed(old(bitmap[..]), FirstWord() * WORD, EndWord() * WORD)
    {
      hide Rewritten, Bit;
      var from := hint / WORD;
      r := SearchOne(from, EndWord());
      if r.None? {
        r := SearchOne(FirstWord(), from);
      }
    }

    /** palloc_inner for one page: the page number, None for failure. On a sealed bitmap
        the page is a managed one. Page 0 is the address its callers take for failure. */
    method AllocPage() returns (r: Option<nat>)
      requires Shaped()
      modifies this`hint, bitmap
      ensures Shaped() && (old(Sealed()) ==> Sealed())
      ensures r.Some? ==> !Bit(old(bitmap[..]), r.value) && SameBut(old(bitmap[..]), r.value, r.value + 1, true)
      ensures r.Some? ==>
        || FirstFrom(old(bitmap[..]), old(hint) / WORD, r.value)
        || (FirstFrom(old(bitmap[..]), FirstWord(), r.value)
            && AllUsed(old(bitmap[..]), old(hint) / WORD * WORD, EndWord() * WORD))
      ensures r.Some? && old(Sealed()) ==> min <= r.value < max
      ensures r.None? ==> bitmap[..] == old(bitmap[..])
      ensures r.None? <==> AllUsed(old(bitmap[..]), FirstWord() * WORD, EndWord() * WORD)
      ensures old(Sealed()) ==> (r.None? <==> AllUsed(old(bitmap[..]), min, max))
    {
      hide SealedBits, Rewritten;
      ghost var before := bitmap[..];
      r := SearchPages();
      if SealedBits(before, min, max) {
        SealedPages(before, min, max);
        if r.Some? { SealedKept(before, bitmap[..], min, max, r.value, r.value + 1, true); }
      }
    }

    lemma BitsUsed()
      ensures forall p: nat :: p < bitmap.Length * WORD ==> (Bit(bitmap[..], p) <==> Used(p))
    {
    }

    method TestRun(i: nat, n: nat, part: nat) returns (found: bool)
      requires i + n <= bitmap.Length && n > 0 && part < WORD
      ensures found <==> RunFree(bitmap[..], i, n, part)
    {
      var j := 0;
      while j < n
        invariant j <= n && forall k :: 0 <= k < j ==> And(bitmap[..][i + k], RunMask(k, n, part)) == CLEAR
      {
        if And(bitmap[i + j], RunMask(j, n, part)) != CLEAR {
          assert And(bitmap[..][i + j], RunMask(j, n, part)) != CLEAR;
          return false;
        }
        j := j + 1;
      }
      return true;
    }

    method TakeRun(i: nat, n: nat, part: nat)
      requires i + n <= bitmap.Length && n > 0 && part < WORD
      modifies bitmap
      ensures SameBut(old(bitmap[..]), i * WORD, i * WORD + RunPages(n, part), true)
    {
      var j := 0;
      while j < n
        invariant j <= n && (forall k :: 0 <= k < bitmap.Length && !(i <= k < i + j) ==> bitmap[k] == old(bitmap[k]))
        invariant forall k :: i <= k < i + j ==> bitmap[k] == Or(old(bitmap[k]), RunMask(k - i, n, part))
      {
        bitmap[i + j] := Or(bitmap[i + j], RunMask(j, n, part));
        j := j + 1;
      }
    }

    method SearchRun(from: nat, to: nat, n: nat, part: nat, align: nat) returns (r: Option<nat>)
      requires to <= bitmap.Length && n > 0 && part < WORD
      modifies this`hint, bitmap
      ensures r.None? ==> hint == old(hint) && bitmap[..] == old(bitmap[..])
      ensures r.None? ==> forall i :: Candidate(i, from, to, n, align) ==> !RunFree(old(bitmap[..]), i, n, part)
      ensures r.Some? ==> Candidate(r.value, from, to, n, align) && RunFree(old(bitmap[..]), r.value, n, part)
      ensures r.Some? ==> SameBut(old(bitmap[..]), r.value * WORD, r.value * WORD + RunPages(n, part), true)
      ensures r.Some? ==> var h := r.value * WORD + RunPages(n, part); hint == if h < min then min else h
    {
      hide RunFree;
      var i := from;
      while i + n <= to
        invariant from <= i && hint == old(hint) && bitmap[..] == old(bitmap[..])
        invariant forall k: nat :: Candidate(k, from, to, n, align) && k < i ==> !RunFree(old(bitmap[..]), k, n, part)
      {
        if !(align > 1 && i % align != 0) {
          var found := TestRun(i, n, part);
          if found {
            TakeRun(i, n, part);
            hint := i * WORD + RunPages(n, part);
            if hint < min { hint := min; }
            return Some(i);
          }
        }
        i := i + 1;
      }
      return None;
    }

    /** The two passes: from the word of the hint on, then from the first word up to it. */
    method SearchRuns(n: nat, part: nat, align: nat) returns (r: Option<nat>)
      requires Shaped() && n > 0 && part < WORD
      modifies this`hint, bitmap
      ensures Shaped() && (r.None? ==> bitmap[..] == old(bitmap[..]))
      ensures r.None? <==>
        && (forall i :: Candidate(i, old(hint) / WORD, EndWord(), n, align) ==> !RunFree(old(bitmap[..]), i, n, part))
        && (forall i :: Candidate(i, FirstWord(), old(hint) / WORD, n, align) ==> !RunFree(old(bitmap[..]), i, n, part))
      ensures r.Some? ==>
                Candidate(r.value, FirstWord(), EndWord(), n, align) && RunFree(old(bitmap[..]), r.value, n, part)
      ensures r.Some? ==> SameBut(old(bitmap[..]), r.value * WORD, r.value * WORD + RunPages(n, part), true)
      ensures r.Some? ==> var h := r.value * WORD + RunPages(n, part); hint == if h < min then min else h
    {
      hide RunFree, Rewritten, RunPages;
      r := SearchRun(hint / WORD, EndWord(), n, part, align);
      if r.None? {
        r := SearchRun(FirstWord(), hint / WORD, n, part, align);
      }
      if r.Some? { HintInside(r.value, n, part, min, EndWord()); }
    }

    /** palloc_inner for more than 64 pages; `huge` is its test for a multiple of 2 MB.
        It fails exactly when no aligned run of free words lies wholly before or
        wholly after the start of the hint's word. */
    method AllocRun(pages: nat, huge: bool) returns (r: Option<nat>)
      requires Shaped() && pages > WORD
      modifies this`hint, bitmap
      ensures Shaped() && (old(Sealed()) ==> Sealed())
      ensures r.Some? ==>
                && FirstWord() * WORD <= r.value && r.value + pages <= EndWord() * WORD && r.value % WORD == 0
                && (huge ==> r.value % 512 == 0)
      ensures r.Some? && old(Sealed()) ==> min <= r.value && r.value + pages <= max
      ensures r.Some? ==>
                forall p: nat :: r.value <= p < r.value + pages ==> p / WORD < bitmap.Length && !Bit(old(bitmap[..]), p)
      ensures r.Some? ==> SameBut(old(bitmap[..]), r.value, r.value + pages, true)
      ensures r.Some? ==> hint == if r.value + pages < min then min else r.value + pages
      ensures r.None? ==> bitmap[..] == old(bitmap[..])
      ensures r.None? <==>
        && (forall i :: NoRun(old(bitmap[..]), i, old(hint) / WORD, EndWord(), pages, huge))
        && (forall i :: NoRun(old(bitmap[..]), i, FirstWord(), old(hint) / WORD, pages, huge))
    {
      hide RunFree, SealedBits, Rewritten, RunPages, WordsFor, NoRun, Bit;
      var part := pages % WORD;
      var n := pages / WORD + if part > 0 then 1 else 0;
      RunShape(pages, n, part);
      NoRunIs(bitmap[..], hint / WORD, EndWord(), pages, huge);
      NoRunIs(bitmap[..], FirstWord(), hint / WORD, pages, huge);
      var align := if huge then 8 else 1;
      ghost var before := bitmap[..];
      r := SearchRuns(n, part, align);
      if r.Some? {
        RunStart(r.value, pages, FirstWord(), EndWord(), huge);
        RunBits(before, r.value, n, part);
        if SealedBits(before, min, max) {
          RunInside(before, min, max, r.value, n, part);
          SealedKept(before, bitmap[..], min, max, r.value * WORD, r.value * WORD + pages, true);
        }
        r := Some(r.value * WORD);
      }
    }

    /** pfree of `pages` pages from `page` on; false is its out-of-range panic. */
    method Free(page: nat, pages: nat) returns (ok: bool)
      requires Shaped()
      modifies this`hint, bitmap
      ensures Shaped() && (old(Sealed()) ==> Sealed())
      ensures ok <==> pages == 0 || (min <= page && page + pages <= max)
      ensures SameBut(old(bitmap[..]), page, if ok then page + pages else page, false)
      ensures hint == if !ok || pages == 0 then old(hint)
                      else if page < old(hint) then page else if old(hint) < min then min else old(hint)
    {
      if pages == 0 { return true; }
      if page < min || page + pages > max { return false; }
      ghost var before := bitmap[..];
      var i := 0;
      while i < pages
        invariant i <= pages && hint == old(hint) && SameBut(before, page, page + i, false)
      {
        var w, b := (page + i) / WORD, (page + i) % WORD;
        assert w * WORD + b == page + i;
        bitmap[w] := bitmap[w][b := false];
        i := i + 1;
      }
      if page < hint { hint := page; }
      if hint < min { hint := min; }
      if SealedBits(before, min, max) { SealedKept(before, bitmap[..], min, max, page, page + pages, false); }
      return true;
    }
  }

  lemma ClearWord(ws: seq<Word>, w: nat)
    requires w < |ws| && forall p: nat :: w * WORD <= p < w * WORD + WORD ==> !Bit(ws, p)
    ensures forall m :: And(ws[w], m) == CLEAR
  {
    forall b | 0 <= b < WORD ensures !ws[w][b] {
      var p := w * WORD + b;
      assert p / WORD == w && p % WORD == b && !Bit(ws, p);
    }
  }

  /** A run of 2 MB fits where eight words are free. */
  lemma FreeRun(ws: seq<Word>, i: nat, from: nat, to: nat)
    requires i + 8 <= |ws| && forall p: nat :: i * WORD <= p < i * WORD + 512 ==> !Bit(ws, p)
    requires from <= i && i + 8 <= to && i % 8 == 0
    ensures !NoRun(ws, i, from, to, 512, true)
  {
    hide Bit;
    forall w | i <= w < i + 8 ensures forall m :: And(ws[w], m) == CLEAR { ClearWord(ws, w); }
  }

  /** RAM whose first managed page starts a word but no 2 MB, with room for 2 MB. */
  ghost predicate Skewed(start: nat, end: nat) {
    var first := (start + CountPages((end + WORD - 1) / WORD * 8, 4096)) / WORD;
    && (start + CountPages((end + WORD - 1) / WORD * 8, 4096)) % WORD == 0 && first % 8 != 0
    && (first / 8 + 2) * 8 * WORD <= end
  }

  lemma SkewedExample()
    ensures Skewed(63, 1024)
  {
  }

  /** From boot, a run of 2 MB is taken and given back: the bitmap is as it was, the hint
      stays with the run. */
  method TakeAndGive(start: nat, end: nat) returns (a: Allocator, first: Option<nat>)
    requires Skewed(start, end)
    ensures fresh(a) && fresh(a.bitmap) && a.Valid() && a.min % WORD == 0 && a.max == end && first.Some?
    ensures forall p :: a.min <= p < a.max ==> !a.Used(p)
    ensures a.FirstWord() < a.hint / WORD < a.EndWord()
  {
    hide RunFree, SealedBits, Rewritten, NoRun, Bit, CountPages;
    a := new Allocator(start, end);
    a.BitsUsed();
    ghost var ws := a.bitmap[..];
    FreeRun(ws, (a.FirstWord() / 8 + 1) * 8, a.hint / WORD, a.EndWord());
    first := a.AllocRun(512, true);
    ghost var vs := a.bitmap[..];
    var ok := a.Free(first.value, 512);
    GivenBack(ws, vs, a.bitmap[..], first.value, 512);
    Between(a.min, a.max, first.value);
    a.BitsUsed();
  }

  lemma Between(min: nat, max: nat, p: nat)
    requires min % WORD == 0 && min / WORD % 8 != 0 && p % 512 == 0 && min <= p && p + 512 <= max
    ensures min / WORD < p / WORD < (max + WORD - 1) / WORD
  {
    assert p / WORD == 8 * (p / 512);
  }

  /** After that all managed pages are free, as at boot, and a request for all of them is
      refused, aligned or not. */
  method Stranded(start: nat, end: nat, huge: bool) returns (a: Allocator, last: Option<nat>)
    requires Skewed(start, end)
    ensures fresh(a) && fresh(a.bitmap) && a.Valid() && a.max == end
    ensures last.None? && forall p :: a.min <= p < a.max ==> !a.Used(p)
  {
    hide SealedBits, NoRun, CountPages, WordsFor;
    var first;
    a, first := TakeAndGive(start, end);
    Whole(a.min, a.max);
    TooWide(a.bitmap[..], a.FirstWord(), a.hint / WORD, a.EndWord(), a.max - a.min, huge);
    a.BitsUsed();
    last := a.AllocRun(a.max - a.min, huge);
    a.BitsUsed();
  }

  lemma Whole(min: nat, max: nat)
    requires min % WORD == 0 && min / WORD + 1 < (max + WORD - 1) / WORD
    ensures min + WORD < max && WordsFor(max - min) == (max + WORD - 1) / WORD - min / WORD
  {
  }

  lemma GivenBack(ws: seq<Word>, vs: seq<Word>, us: seq<Word>, p: nat, n: nat)
    requires Rewritten(ws, vs, p, p + n, true) && Rewritten(vs, us, p, p + n, false)
    requires forall q: nat :: p <= q < p + n ==> !Bit(ws, q)
    ensures us == ws
  {
    forall i | 0 <= i < |ws| ensures us[i] == ws[i] {
      forall b | 0 <= b < WORD ensures us[i][b] == ws[i][b] {
        assert (i * WORD + b) / WORD == i && (i * WORD + b) % WORD == b;
        assert p <= i * WORD + b < p + n ==> !Bit(ws, i * WORD + b);
        assert vs[i][b] == if p <= i * WORD + b < p + n then true else ws[i][b];
      }
    }
  }

  /** As many words as there are do not fit on either side of one in between. */
  lemma TooWide(ws: seq<Word>, first: nat, h: nat, end: nat, pages: nat, huge: bool)
    requires first < h < end && WordsFor(pages) == end - first
    ensures forall i :: NoRun(ws, i, h, end, pages, huge)
    ensures forall i :: NoRun(ws, i, first, h, pages, huge)
  {
    hide WordsFor;
  }

  datatype Span = Span(page: nat, pages: nat)

  predicate Inside(x: Span, p: nat) { x.page <= p < x.page + x.pages }

  datatype Request = One | Many(pages: nat, huge: bool) | Give(k: nat)

  ghost predicate Held(live: seq<Span>, p: nat) { exists i :: 0 <= i < |live| && Inside(live[i], p) }

  ghost predicate Apart(x: Span, y: Span) { x.page + x.pages <= y.page || y.page + y.pages <= x.page }

  /** Every page in use was so at first or belongs to exactly one live span. */
  ghost predicate Accounted(ws0: seq<Word>, ws: seq<Word>, live: seq<Span>) {
    && |ws| == |ws0|
    && (forall i, j :: 0 <= i < j < |live| ==> Apart(live[i], live[j]))
    && (forall p: nat :: Held(live, p) ==> p / WORD < |ws0| && !Bit(ws0, p))
    && (forall p: nat :: Bit(ws, p) <==> Bit(ws0, p) || Held(live, p))
  }

  lemma AccountedNone(ws: seq<Word>)
    ensures Accounted(ws, ws, [])
  {
  }

  lemma RewrittenAt(ws: seq<Word>, vs: seq<Word>, lo: nat, hi: nat, value: bool, p: nat)
    requires Rewritten(ws, vs, lo, hi, value) && p / WORD < |ws|
    ensures Bit(vs, p) == if lo <= p < hi then value else Bit(ws, p)
  {
    assert p / WORD * WORD + p % WORD == p;
  }

  lemma RewrittenSize(ws: seq<Word>, vs: seq<Word>, lo: nat, hi: nat, value: bool)
    requires Rewritten(ws, vs, lo, hi, value)
    ensures |vs| == |ws|
  {
  }

  lemma HeldMore(live: seq<Span>, x: Span, p: nat)
    ensures Held(live + [x], p) <==> Held(live, p) || Inside(x, p)
  {
    var more := live + [x];
    if i :| 0 <= i < |live| && Inside(live[i], p) { assert Inside(more[i], p); }
    assert more[|live|] == x;
  }

  lemma AccountedMore(ws0: seq<Word>, ws: seq<Word>, vs: seq<Word>, live: seq<Span>, x: Span)
    requires Accounted(ws0, ws, live) && Rewritten(ws, vs, x.page, x.page + x.pages, true) && x.pages > 0
    requires forall p: nat :: Inside(x, p) ==> p / WORD < |ws| && !Bit(ws, p)
    requires forall i :: 0 <= i < |live| ==> live[i].pages > 0
    ensures Accounted(ws0, vs, live + [x])
  {
    hide Rewritten, Bit, Held;
    var more := live + [x];
    RewrittenSize(ws, vs, x.page, x.page + x.pages, true);
    forall p: nat ensures Held(more, p) <==> Held(live, p) || Inside(x, p) { HeldMore(live, x, p); }
    forall i | 0 <= i < |live| ensures Apart(live[i], x) { Separated(ws0, ws, live, x, i); }
    forall p: nat ensures Bit(vs, p) <==> Bit(ws0, p) || Held(more, p) {
      if p / WORD < |ws| { RewrittenAt(ws, vs, x.page, x.page + x.pages, true, p); } else { Beyond(ws, vs, p); }
    }
  }

  lemma Beyond(ws: seq<Word>, vs: seq<Word>, p: nat)
    ensures |ws| <= p / WORD ==> !Bit(ws, p)
    ensures |vs| <= p / WORD ==> !Bit(vs, p)
  {
  }

  /** Spans that overlap would share the first page of one of them. */
  lemma Separated(ws0: seq<Word>, ws: seq<Word>, live: seq<Span>, x: Span, i: nat)
    requires Accounted(ws0, ws, live) && i < |live| && x.pages > 0 && live[i].pages > 0
    requires forall p: nat :: Inside(x, p) ==> !Bit(ws, p)
    ensures Apart(live[i], x)
  {
    hide Bit, Held;
    var p := if live[i].page <= x.page then x.page else live[i].page;
    if Inside(x, p) && Inside(live[i], p) { HeldAt(live, i, p); }
  }

  lemma HeldLess(live: seq<Span>, k: nat, p: nat)
    requires k < |live| && forall i, j :: 0 <= i < j < |live| ==> Apart(live[i], live[j])
    ensures Held(live[..k] + live[k + 1..], p) <==> Held(live, p) && !Inside(live[k], p)
  {
    var rest := live[..k] + live[k + 1..];
    forall i | 0 <= i < |rest| ensures rest[i] == live[if i < k then i else i + 1] { }
    if i :| 0 <= i < |live| && Inside(live[i], p) {
      if i != k { assert Inside(rest[if i < k then i else i - 1], p); }
    }
    if i :| 0 <= i < |rest| && Inside(rest[i], p) {
      var j := if i < k then i else i + 1;
      assert Inside(live[j], p) && (j < k || k < j);
    }
  }

  lemma AccountedLess(ws0: seq<Word>, ws: seq<Word>, vs: seq<Word>, live: seq<Span>, k: nat)
    requires Accounted(ws0, ws, live) && k < |live|
    requires Rewritten(ws, vs, live[k].page, live[k].page + live[k].pages, false)
    ensures Accounted(ws0, vs, live[..k] + live[k + 1..])
  {
    hide Rewritten, Bit, Held, Apart;
    var x, rest := live[k], live[..k] + live[k + 1..];
    RewrittenSize(ws, vs, x.page, x.page + x.pages, false);
    forall i | 0 <= i < |rest| ensures rest[i] == live[if i < k then i else i + 1] { }
    forall p: nat ensures Held(rest, p) <==> Held(live, p) && !Inside(x, p) { HeldLess(live, k, p); }
    forall p: nat ensures Bit(vs, p) <==> Bit(ws0, p) || Held(rest, p) {
      if Inside(x, p) { HeldAt(live, k, p); }
      if p / WORD < |ws| { RewrittenAt(ws, vs, x.page, x.page + x.pages, false, p); } else { Beyond(ws, vs, p); }
    }
  }

  lemma HeldAt(live: seq<Span>, k: nat, p: nat)
    requires k < |live| && Inside(live[k], p)
    ensures Held(live, p)
  {
  }

  /** Bitmap and hint, and the spans that are held. */
  datatype Moment = Moment(bits: seq<Word>, hint: nat, live: seq<Span>)

  /** A span of so many pages has been added. */
  ghost predicate Granted(m: Moment, m': Moment, pages: nat, huge: bool) {
    && m'.live != [] && var x := m'.live[|m'.live| - 1];
    m'.live == m.live + [x] && x.pages == pages && (huge ==> x.page % 512 == 0)
  }

  /** A request for a page is met unless all are in use, and one for a run unless the
      two passes over the words have no place for it. */
  ghost predicate Did(m: Moment, req: Request, m': Moment, min: nat, max: nat) {
    match req
    case One => Granted(m, m', 1, false) || (m'.live == m.live && AllUsed(m.bits, min, max))
    case Many(pages, huge) =>
      if pages <= WORD then m' == m
      else
        || Granted(m, m', pages, huge)
        || (m'.live == m.live && NoRoom(m, pages, huge, min / WORD, (max + WORD - 1) / WORD))
    case Give(k) => if k < |m.live| then m'.live == m.live[..k] + m.live[k + 1..] else m' == m
  }

  ghost predicate NoRoom(m: Moment, pages: nat, huge: bool, first: nat, end: nat) {
    && (forall i :: NoRun(m.bits, i, m.hint / WORD, end, pages, huge))
    && (forall i :: NoRun(m.bits, i, first, m.hint / WORD, pages, huge))
  }

  /** The exact gap between the two passes: a run is refused when all the places for it,
      where so many words are free, lie across the start of the hint's word. */
  lemma NoRoomIff(m: Moment, pages: nat, huge: bool, first: nat, end: nat)
    requires first <= m.hint / WORD <= end
    ensures NoRoom(m, pages, huge, first, end) <==>
            forall i: nat :: Candidate(i, first, end, WordsFor(pages), if huge then 8 else 1)
                             && RunFree(m.bits, i, WordsFor(pages), pages % WORD) ==>
                i < m.hint / WORD < i + WordsFor(pages)
  {
    hide RunFree, WordsFor;
    var h, n, align := m.hint / WORD, WordsFor(pages), if huge then 8 else 1;
    NoRunIs(m.bits, h, end, pages, huge);
    NoRunIs(m.bits, first, h, pages, huge);
    forall i: nat | Candidate(i, first, end, n, align)
      ensures i < h < i + n <==> !Candidate(i, h, end, n, align) && !Candidate(i, first, h, n, align)
    {
    }
    assert forall i :: Candidate(i, h, end, n, align) || Candidate(i, first, h, n, align) ==>
        Candidate(i, first, end, n, align);
  }

  /** At every moment the spans held lie in RAM and apart from each other, and the pages
      in use are theirs and those of before, no more and no less. */
  ghost predicate Traced(trace: seq<Moment>, reqs: seq<Request>, min: nat, max: nat) {
    && |trace| == |reqs| + 1
    && (forall i :: 0 <= i < |trace| ==> InRam(trace[i], min, max))
    && (forall i :: 0 <= i < |trace| ==> Accounted(trace[0].bits, trace[i].bits, trace[i].live))
    && (forall i :: 0 <= i < |reqs| ==> Did(trace[i], reqs[i], trace[i + 1], min, max))
  }

  ghost predicate InRam(m: Moment, min: nat, max: nat) {
    forall i :: 0 <= i < |m.live| ==> min <= m.live[i].page < m.live[i].page + m.live[i].pages <= max
  }

  /** One request; giving back is for spans that are held. */
  method Do(a: Allocator, req: Request, live: seq<Span>, ghost ws0: seq<Word>) returns (now: seq<Span>)
    requires a.Valid() && Accounted(ws0, a.bitmap[..], live) && InRam(Moment(a.bitmap[..], a.hint, live), a.min, a.max)
    modifies a`hint, a.bitmap
    ensures a.Valid() && Accounted(ws0, a.bitmap[..], now) && InRam(Moment(a.bitmap[..], a.hint, now), a.min, a.max)
    ensures Did(old(Moment(a.bitmap[..], a.hint, live)), req, Moment(a.bitmap[..], a.hint, now), a.min, a.max)
  {
    hide SealedBits, Accounted, Rewritten, NoRun, AllUsed;
    now := live;
    ghost var ws := a.bitmap[..];
    a.BitsUsed();
    match req {
      case One =>
        var r := a.AllocPage();
        if r.Some? {
          AccountedMore(ws0, ws, a.bitmap[..], live, Span(r.value, 1));
          now := live + [Span(r.value, 1)];
        }
      case Many(pages, huge) =>
        if pages > WORD {
          var r := a.AllocRun(pages, huge);
          if r.Some? {
            AccountedMore(ws0, ws, a.bitmap[..], live, Span(r.value, pages));
            now := live + [Span(r.value, pages)];
          }
        }
      case Give(k) =>
        if k < |live| {
          var ok := a.Free(live[k].page, live[k].pages);
          AccountedLess(ws0, ws, a.bitmap[..], live, k);
          now := live[..k] + live[k + 1..];
        }
    }
  }

  /** Any run of requests on a sealed bitmap, with every moment of it. */
  method Run(a: Allocator, reqs: seq<Request>) returns (live: seq<Span>, ghost trace: seq<Moment>)
    requires a.Valid()
    modifies a`hint, a.bitmap
    ensures a.Valid() && Traced(trace, reqs, a.min, a.max) && trace[0] == old(Moment(a.bitmap[..], a.hint, []))
    ensures trace[|reqs|] == Moment(a.bitmap[..], a.hint, live)
  {
    hide SealedBits, Accounted, Did, InRam;
    ghost var ws := a.bitmap[..];
    live, trace := [], [Moment(ws, a.hint, [])];
    AccountedNone(ws);
    InRamNone(trace[0], a.min, a.max);
    for i := 0 to |reqs|
      invariant a.Valid() && Traced(trace, reqs[..i], a.min, a.max) && trace[0] == Moment(ws, old(a.hint), [])
      invariant trace[i] == Moment(a.bitmap[..], a.hint, live)
    {
      live := Do(a, reqs[i], live, ws);
      TracedMore(trace, reqs[..i], reqs[i], Moment(a.bitmap[..], a.hint, live), a.min, a.max);
      assert reqs[..i] + [reqs[i]] == reqs[..i + 1];
      trace := trace + [Moment(a.bitmap[..], a.hint, live)];
    }
    assert reqs[..|reqs|] == reqs;
  }

  lemma InRamNone(m: Moment, min: nat, max: nat)
    requires m.live == []
    ensures InRam(m, min, max)
  {
  }

  lemma TracedMore(trace: seq<Moment>, reqs: seq<Request>, req: Request, m: Moment, min: nat, max: nat)
    requires Traced(trace, reqs, min, max) && Did(trace[|reqs|], req, m, min, max)
    requires InRam(m, min, max) && Accounted(trace[0].bits, m.bits, m.live)
    ensures Traced(trace + [m], reqs + [req], min, max)
  {
    hide Accounted, Did, InRam;
  }
}
