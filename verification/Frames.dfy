/** The page frame allocator (Memory/pmm.c): a bitmap, and a cache of frames taken from it in batches. */
module FrameAllocation {
  import opened Basics

  /** Words of the bitmap; only that many frames are searched, because the search reads word `i` for frame `i`. */
  const WORDS := 0x8000
  const FRAMES := 0x100000
  const FIRST := 0x100
  const BATCH := 20
  /** The boot code puts the page directory and its first tables here; the bitmap does not know about them. */
  const BOOT_TABLES := 0x1000

  /** A word of the bitmap, as its 32 bits. */
  type bits = s: seq<bool> | |s| == 32 witness seq(32, i => false)

  const ALL: bits := seq(32, i => true)

  lemma FullWord(w: bits)
    ensures w == ALL <==> forall k :: 0 <= k < 32 ==> w[k]
  {
    if forall k :: 0 <= k < 32 ==> w[k] { assert w == ALL; }
  }

  /** Consecutive frames from `first` on include the boot page directory exactly if they reach that far. */
  lemma ReachesBootTables(issued: seq<nat>, first: int)
    requires forall k :: 0 <= k < |issued| ==> issued[k] == (first + k) * 0x1000
    ensures BOOT_TABLES * 0x1000 in issued <==> first <= BOOT_TABLES < first + |issued|
  {
    var k := BOOT_TABLES - first;
    if 0 <= k < |issued| { assert issued[k] == BOOT_TABLES * 0x1000; }
  }

  class FrameAllocator {
    const bitmap: array<bits>
    /** The static variables of palloc. */
    var allocate: bool
    var pallocated: nat
    const currentFrames: array<nat>
    /** The least frame from FIRST on that is not marked. */
    ghost var frontier: nat

    ghost predicate Shape() {
      bitmap.Length == WORDS && currentFrames.Length == BATCH
    }

    /** CHECK_USED_FRAME */
    predicate Used(i: nat)
      requires Shape() && i < FRAMES
      reads bitmap
    {
      bitmap[i / 32][i % 32]
    }

    /** What line 28 tests: frame `i` is free, and word `i` is not full (the word of frame `i` is `i / 32`). */
    predicate Found(i: nat)
      requires Shape() && i < WORDS
      reads bitmap
    {
      bitmap[i] != ALL && !Used(i)
    }

    /** The marked frames are one block, from FIRST up to `f`. */
    ghost predicate Prefix(f: nat)
      requires Shape()
      reads bitmap
    {
      FIRST <= f <= WORDS && forall i {:trigger Used(i)} :: 0 <= i < FRAMES ==> (Used(i) <==> FIRST <= i < f)
    }

    /** MARK_USED */
    method MarkUsed(i: nat)
      requires Shape() && i < FRAMES
      modifies bitmap
      ensures forall j {:trigger Used(j)} :: 0 <= j < FRAMES ==> (Used(j) <==> j == i || old(Used(j)))
    {
      bitmap[i / 32] := bitmap[i / 32][i % 32 := true];
      forall j | 0 <= j < FRAMES ensures Used(j) <==> j == i || old(Used(j)) {
        assert j == i <==> j / 32 == i / 32 && j % 32 == i % 32;
      }
    }

    /** While the marked frames are one block, the test of line 28 skips no free frame. */
    lemma FirstFound(f: nat)
      requires Shape() && Prefix(f)
      ensures forall i {:trigger Found(i)} :: FIRST <= i < f ==> !Found(i)
      ensures f < WORDS ==> Found(f)
    {
      forall i | FIRST <= i < f ensures !Found(i) { assert Used(i); }
      if f < WORDS {
        assert !Used(f) && !Used(32 * f);
        assert (32 * f) / 32 == f && (32 * f) % 32 == 0;
        assert !bitmap[f][0];
      }
    }

    /** In general a free frame passes the test only if not all 32 frames of the word with its number are marked. */
    lemma FoundIffWordNotFull(i: nat)
      requires Shape() && FIRST <= i < WORDS && !Used(i)
      ensures Found(i) <==> exists j :: 32 * i <= j < 32 * i + 32 && !Used(j)
    {
      if Found(i) {
        FullWord(bitmap[i]);
        var k :| 0 <= k < 32 && !bitmap[i][k];
        assert (32 * i + k) / 32 == i && (32 * i + k) % 32 == k;
        assert !Used(32 * i + k);
      }
      if j :| 32 * i <= j < 32 * i + 32 && !Used(j) {
        assert j / 32 == i && !bitmap[i][j % 32];
      }
    }

    /** The search of palloc_single on any bitmap: the least frame that passes; None is the end of the words. */
    method Search() returns (r: Option<nat>)
      requires Shape()
      ensures r.None? ==> forall i {:trigger Found(i)} :: FIRST <= i < WORDS ==> !Found(i)
      ensures r.Some? ==> FIRST <= r.value < WORDS && Found(r.value)
      ensures r.Some? ==> forall i {:trigger Found(i)} :: FIRST <= i < r.value ==> !Found(i)
    {
      var i := FIRST;
      while i < WORDS
        invariant FIRST <= i <= WORDS
        invariant forall j {:trigger Found(j)} :: FIRST <= j < i ==> !Found(j)
      {
        if Found(i) { return Some(i); }
        i := i + 1;
      }
      return None;
    }

    /** palloc_single: the least free frame is marked, and its address returned. */
    method PallocSingle() returns (r: Option<nat>)
      requires Shape() && Prefix(frontier)
      modifies bitmap, this`frontier
      ensures Prefix(frontier)
      ensures r == if old(frontier) < WORDS then Some(old(frontier) * 0x1000) else None
      ensures frontier == if old(frontier) < WORDS then old(frontier) + 1 else old(frontier)
    {
      FirstFound(frontier);
      var i := Search();
      assert frontier < WORDS ==> Found(frontier);
      if i.None? { return None; }
      assert Found(frontier) && i.value == frontier;
      MarkUsed(i.value);
      frontier := frontier + 1;
      return Some(i.value * 0x1000);
    }

    /** pallocn; false is the end of the words. */
    method Pallocn(frames: array<nat>, size: nat) returns (ok: bool)
      requires Shape() && Prefix(frontier) && size <= frames.Length
      modifies bitmap, this`frontier, frames
      ensures Prefix(frontier) && ok == (old(frontier) + size <= WORDS)
      ensures ok ==> frontier == old(frontier) + size
      ensures ok ==> forall k :: 0 <= k < size ==> frames[k] == (old(frontier) + k) * 0x1000
      ensures !ok ==> frontier == WORDS
    {
      var i := 0;
      while i < size
        invariant 0 <= i <= size && Prefix(frontier) && frontier == old(frontier) + i
        invariant forall k :: 0 <= k < i ==> frames[k] == (old(frontier) + k) * 0x1000
      {
        var r := PallocSingle();
        if r.None? { return false; }
        frames[i] := r.value;
        i := i + 1;
      }
      return true;
    }

    /** The frame that palloc issues next; from there on up to `frontier` frames are in the cache. */
    ghost function Next(): int
      reads this
    {
      if allocate || pallocated >= BATCH then frontier else frontier - (BATCH - pallocated)
    }

    ghost predicate Valid()
      reads this, bitmap, currentFrames
    {
      && Shape() && Prefix(frontier)
      && (!allocate ==> pallocated <= BATCH && FIRST + BATCH <= frontier)
      && (!allocate ==> forall k :: 0 <= k < BATCH ==> currentFrames[k] == (frontier - BATCH + k) * 0x1000)
    }

    /** palloc issues what palloc_single would; it gives up when a whole batch does not fit. */
    method Palloc() returns (r: Option<nat>)
      requires Valid()
      modifies this, bitmap, currentFrames
      ensures Valid()
      ensures r.None? <==> old(Next()) == old(frontier) && old(frontier) + BATCH > WORDS
      ensures r.Some? ==> r.value == old(Next()) * 0x1000 && Next() == old(Next()) + 1
      ensures r.Some? ==> frontier == if old(Next()) < old(frontier) then old(frontier) else old(frontier) + BATCH
    {
      if pallocated == BATCH { allocate := true; }
      if allocate {
        var ok := Pallocn(currentFrames, BATCH);
        if !ok { return None; }
        pallocated, allocate := 0, false;
      }
      pallocated := pallocated + 1;
      return Some(currentFrames[pallocated - 1]);
    }

    /** Zeroed static storage; palloc has not been called. */
    constructor ()
      ensures Valid() && frontier == FIRST && allocate && fresh(bitmap) && fresh(currentFrames)
    {
      bitmap := new bits[WORDS](i => seq(32, k => false));
      currentFrames := new nat[BATCH](i => 0);
      allocate, pallocated, frontier := true, 0, FIRST;
    }

    /** bitmap_mark_kernel: one frame more than the image needs is marked. */
    method MarkKernel(size: nat)
      requires Valid() && allocate && frontier == FIRST && FIRST + size / 0x1000 + 2 <= WORDS
      modifies bitmap, this`frontier
      ensures Valid() && allocate && frontier == FIRST + PageCount(size) + 1
      ensures FIRST * 0x1000 + size < frontier * 0x1000
    {
      var pages := size / 0x1000;
      if size % 0x1000 != 0 { pages := pages + 1; }
      var i := 0;
      while i <= pages
        invariant 0 <= i <= pages + 1 && Prefix(frontier) && frontier == FIRST + i
      {
        MarkUsed(FIRST + i);
        frontier := frontier + 1;
        i := i + 1;
      }
    }

    /** Any run of palloc calls issues the frames in order, none twice: what one pallocn of that size would issue. */
    method Run(n: nat) returns (issued: seq<nat>)
      requires Valid()
      modifies this, bitmap, currentFrames
      ensures Valid() && |issued| <= n && (|issued| == n ==> Next() == old(Next()) + n)
      ensures forall k :: 0 <= k < |issued| ==> issued[k] == (old(Next()) + k) * 0x1000
      ensures old(Next()) + n + BATCH <= WORDS ==> |issued| == n
      ensures BOOT_TABLES * 0x1000 in issued <==> old(Next()) <= BOOT_TABLES < old(Next()) + |issued|
    {
      issued := [];
      while |issued| < n
        invariant Valid() && |issued| <= n && Next() == old(Next()) + |issued|
        invariant forall k :: 0 <= k < |issued| ==> issued[k] == (old(Next()) + k) * 0x1000
      {
        var r := Palloc();
        if r.None? {
          ReachesBootTables(issued, old(Next()));
          return;
        }
        issued := issued + [r.value];
      }
      ReachesBootTables(issued, old(Next()));
    }

    ghost predicate CachedFrame(i: nat)
      requires Shape()
      reads this, currentFrames
    {
      !allocate && exists k :: pallocated <= k < BATCH && currentFrames[k] == i * 0x1000
    }

    /** When the kernel was marked up to `first` and `issued` was issued, just these and what is cached are marked. */
    lemma MarkedExactly(first: nat, issued: seq<nat>, i: nat)
      requires Valid() && FIRST <= first && Next() == first + |issued| && i < FRAMES
      requires forall k :: 0 <= k < |issued| ==> issued[k] == (first + k) * 0x1000
      ensures Used(i) <==> FIRST <= i < first || i * 0x1000 in issued || CachedFrame(i)
    {
      if first <= i < first + |issued| { assert issued[i - first] == i * 0x1000; }
      if CachedFrame(i) {
        var k :| pallocated <= k < BATCH && currentFrames[k] == i * 0x1000;
        assert i == frontier - BATCH + k;
      }
      if Next() <= i < frontier {
        assert currentFrames[i - (frontier - BATCH)] == i * 0x1000;
      }
    }

    /** bitmap_mark_kernel for an image of `size` bytes, then `n` calls of palloc. */
    method MarkAndRun(size: nat, n: nat) returns (issued: seq<nat>)
      requires Valid() && allocate && frontier == FIRST && FIRST + size / 0x1000 + 2 <= WORDS
      modifies this, bitmap, currentFrames
      ensures Valid() && |issued| <= n
      ensures var first := FIRST + PageCount(size) + 1;
        && (first + n + BATCH <= WORDS ==> |issued| == n)
        && (|issued| == n ==> forall i {:trigger Used(i)} :: 0 <= i < FRAMES ==>
              (Used(i) <==> FIRST <= i < first || i * 0x1000 in issued || CachedFrame(i)))
    {
      MarkKernel(size);
      ghost var first := frontier;
      issued := Run(n);
      if |issued| == n {
        forall i {:trigger Used(i)} | 0 <= i < FRAMES
          ensures Used(i) <==> FIRST <= i < first || i * 0x1000 in issued || CachedFrame(i)
        {
          MarkedExactly(first, issued, i);
        }
      }
    }
  }
}
