/** The first-fit heap of user programs (user/include/malloc.h). */
module UserHeap {
  import opened Paging
  import opened AddressSpace
  import opened Seqs

  const HEADER: nat := 12   // sizeof(struct block): size, next, free, padding
  const ALIGN: nat := 8
  const LIMIT: nat := HEAP_LIMIT * PGSIZE

  datatype Block = Block(size: nat, next: nat, free: bool)

  /** `align_up` in 32-bit arithmetic. */
  function AlignUp(x: nat): (r: nat) {
    (x + ALIGN - 1) % U32 / ALIGN * ALIGN
  }

  /** Rounding up does that, unless the sum overflows; then the size becomes 0. */
  lemma AlignUpGrows(x: nat)
    requires x < U32
    ensures AlignUp(x) >= x <==> x <= U32 - ALIGN
    ensures x > U32 - ALIGN ==> AlignUp(x) == 0
    ensures x <= U32 - ALIGN ==> x <= AlignUp(x) < x + ALIGN && AlignUp(x) % ALIGN == 0
  {
  }

  /**
   * The headers, the head of their list and the break; `list` has the blocks in list order and
   * `ends` the break behind the region each was made in.
   */
  datatype Blocks = Blocks(hdr: map<nat, Block>, head: nat, brk: nat, list: seq<nat>, ends: seq<nat>)

  /** Block `k` sits at the start of its own region, which ends before the next. */
  ghost predicate BlockOk(h: Blocks, k: nat)
    requires k < |h.list| == |h.ends|
  {
    var b := h.list[k];
    && b in h.hdr && HEAP_BASE <= b && b % PGSIZE == 0
    && b + HEADER + h.hdr[b].size <= h.ends[k] <= h.brk
    && h.hdr[b].next == (if k + 1 < |h.list| then h.list[k + 1] else 0)
  }

  ghost predicate Layout(h: Blocks) {
    && |h.list| == |h.ends| && h.head == (if h.list == [] then 0 else h.list[0])
    && HEAP_BASE <= h.brk <= LIMIT && h.brk % PGSIZE == 0
    && (forall k :: 0 <= k < |h.list| ==> BlockOk(h, k))
    && (forall j, k :: 0 <= j < k < |h.list| ==> h.ends[j] <= h.list[k])
    && (forall b :: b in h.hdr ==> b in h.list)
  }

  ghost function Live(hdr: map<nat, Block>): (bs: set<nat>) {
    set b | b in hdr && !hdr[b].free
  }

  predicate Fits(h: Blocks, b: nat, size: nat) {
    b in h.hdr && h.hdr[b].free && h.hdr[b].size >= size
  }

  /** The list is in increasing address order, so it has no cycle. */
  lemma Increasing(h: Blocks, j: nat, k: nat)
    requires Layout(h) && j < k < |h.list|
    ensures BlockOk(h, j) && BlockOk(h, k) && h.list[j] + HEADER + h.hdr[h.list[j]].size <= h.list[k]
  {
    assert BlockOk(h, j) && BlockOk(h, k);
  }

  /** Two blocks, with their headers, do not overlap. */
  lemma BlocksApart(h: Blocks, a: nat, b: nat)
    requires Layout(h) && a in h.hdr && b in h.hdr && a != b
    ensures a + HEADER + h.hdr[a].size <= b || b + HEADER + h.hdr[b].size <= a
  {
    var j :| 0 <= j < |h.list| && h.list[j] == a;
    var k :| 0 <= k < |h.list| && h.list[k] == b;
    if j < k { Increasing(h, j, k); } else { Increasing(h, k, j); }
  }

  /** A block and its header lie inside the heap's mapped part; payloads are never 8-aligned. */
  lemma InHeap(h: Blocks, b: nat)
    requires Layout(h) && b in h.hdr
    ensures HEAP_BASE <= b && b + HEADER + h.hdr[b].size <= h.brk <= LIMIT && (b + HEADER) % ALIGN == 4
  {
    var k :| 0 <= k < |h.list| && h.list[k] == b;
    assert BlockOk(h, k);
    PayloadOff(b);
  }

  lemma PayloadOff(b: nat)
    requires b % PGSIZE == 0
    ensures (b + HEADER) % ALIGN == 4
  {
    var q := b / PGSIZE;
    assert b == ALIGN * (q * (PGSIZE / ALIGN));
  }

  function Mark(h: Blocks, b: nat, free: bool): (r: Blocks)
    requires b in h.hdr
  {
    h.(hdr := h.hdr[b := h.hdr[b].(free := free)])
  }

  lemma MarkLayout(h: Blocks, b: nat, free: bool)
    requires Layout(h) && b in h.hdr
    ensures Layout(Mark(h, b, free))
    ensures Live(Mark(h, b, free).hdr) == if free then Live(h.hdr) - {b} else Live(h.hdr) + {b}
    ensures forall c :: c in h.hdr ==> c in Mark(h, b, free).hdr && Mark(h, b, free).hdr[c].size == h.hdr[c].size
  {
    var r := Mark(h, b, free);
    forall k | 0 <= k < |r.list| ensures BlockOk(r, k) {
      assert BlockOk(h, k);
    }
  }

  /** The break after a region for a block of `size` bytes. */
  function Moved(brk: nat, size: nat): (r: int) {
    brk + Rounded(HEADER + size)
  }

  /** A new block at the old break, linked behind the last one. */
  ghost function Append(h: Blocks, size: nat): (r: Blocks)
    requires Layout(h) && Moved(h.brk, size) >= 0
  {
    var hdr := h.hdr[h.brk := Block(size, 0, false)];
    if h.list == [] then Blocks(hdr, h.brk, Moved(h.brk, size), [h.brk], [Moved(h.brk, size)])
    else
      var last := h.list[|h.list| - 1];
      assert BlockOk(h, |h.list| - 1);
      Blocks(hdr[last := hdr[last].(next := h.brk)], h.head, Moved(h.brk, size),
             h.list + [h.brk], h.ends + [Moved(h.brk, size)])
  }

  lemma MovedPages(brk: nat, size: nat)
    requires brk % PGSIZE == 0
    ensures brk + HEADER + size <= Moved(brk, size) && Moved(brk, size) % PGSIZE == 0
  {
    ArgPages(HEADER + size);
  }

  lemma NewBlock(h: Blocks)
    requires Layout(h)
    ensures h.brk !in h.list && h.brk !in h.hdr
  {
    forall k | 0 <= k < |h.list| ensures h.list[k] != h.brk {
      assert BlockOk(h, k);
    }
  }

  lemma AppendLayout(h: Blocks, size: nat)
    requires Layout(h) && 0 <= Moved(h.brk, size) <= LIMIT
    ensures var r := Append(h, size);
            Layout(r) && Live(r.hdr) == Live(h.hdr) + {h.brk} && h.brk in r.hdr && r.hdr[h.brk] == Block(size, 0, false)
    ensures h.brk !in h.hdr
  {
    MovedPages(h.brk, size);
    NewBlock(h);
    var r := Append(h, size);
    var n := |h.list|;
    hide Rounded;
    forall k | 0 <= k < n + 1 ensures BlockOk(r, k) {
      if k < n {
        assert BlockOk(h, k);
        LastOnce(h, k);
      }
    }
    assert Live(r.hdr) == Live(h.hdr) + {h.brk} by {
      assert n > 0 ==> BlockOk(h, n - 1);
    }
    forall j, k | 0 <= j < k < n + 1 ensures r.ends[j] <= r.list[k] {
      assert BlockOk(h, j);
    }
  }

  lemma LastOnce(h: Blocks, k: nat)
    requires Layout(h) && k < |h.list|
    ensures k < |h.list| - 1 ==> h.list[k] != h.list[|h.list| - 1]
  {
    if k < |h.list| - 1 {
      Increasing(h, k, |h.list| - 1);
    }
  }

  /** The first block of the list that is free and large enough. */
  ghost predicate FirstFit(h: Blocks, b: nat, size: nat) {
    exists k :: 0 <= k < |h.list| && h.list[k] == b && NoFitBefore(h, k, size) && Fits(h, b, size)
  }

  ghost predicate NoFitBefore(h: Blocks, k: nat, size: nat) {
    forall j :: 0 <= j < k && j < |h.list| ==> !Fits(h, h.list[j], size)
  }

  ghost predicate NoFit(h: Blocks, size: nat) {
    forall c :: c in h.hdr ==> !Fits(h, c, size)
  }

  /** A request that can be met without running out of heap addresses. */
  ghost predicate Served(h: Blocks, size: nat) {
    size == 0 || (size <= U32 - ALIGN && (NoFit(h, AlignUp(size)) ==> Moved(h.brk, AlignUp(size)) <= LIMIT))
  }

  /** The same for a resize: a smaller array, or one the block has room for, needs nothing new. */
  ghost predicate ResizeServed(h: Blocks, p: nat, size: nat) {
    (p >= HEADER && p - HEADER in h.hdr && (size == 0 || h.hdr[p - HEADER].size >= size)) || Served(h, size)
  }

  /** What an allocation of `size` bytes at `p` does to the blocks. */
  ghost predicate Allocated(h: Blocks, h': Blocks, size: nat, p: nat) {
    if size == 0 then p == 0 && h' == h
    else
      && p > HEADER && Layout(h) && Layout(h') && Live(h'.hdr) == Live(h.hdr) + {p - HEADER}
      && p - HEADER !in Live(h.hdr) && p - HEADER in h'.hdr && h'.hdr[p - HEADER].size >= size
      && (forall b :: b in h.hdr ==> b in h'.hdr && h'.hdr[b].size == h.hdr[b].size)
      && (if NoFit(h, AlignUp(size)) then
            0 <= Moved(h.brk, AlignUp(size)) && h' == Append(h, AlignUp(size)) && p == h.brk + HEADER
          else
            FirstFit(h, p - HEADER, AlignUp(size)) && p - HEADER in h.hdr && h' == Mark(h, p - HEADER, false))
  }

  lemma NotNull(h: Blocks)
    requires Layout(h)
    ensures forall k :: 0 <= k < |h.list| ==> h.list[k] != 0
  {
    forall k | 0 <= k < |h.list| ensures h.list[k] != 0 {
      assert BlockOk(h, k);
    }
  }

  lemma AllSeen(h: Blocks, size: nat)
    requires Layout(h) && NoFitBefore(h, |h.list|, size)
    ensures NoFit(h, size)
  {
  }

  lemma NoBlocks(h: Blocks, size: nat)
    requires Layout(h) && h.list == []
    ensures NoFit(h, size)
  {
  }

  lemma FitFound(h: Blocks, b: nat, size: nat)
    requires Layout(h) && FirstFit(h, b, size)
    ensures b in h.hdr && b != 0 && h.hdr[b].free && h.hdr[b].size >= size && b >= HEAP_BASE
  {
    InHeap(h, b);
  }

  lemma AppendAllocates(h: Blocks, size: nat)
    requires Layout(h) && size > 0 && Served(h, size) && NoFit(h, AlignUp(size))
    ensures Moved(h.brk, AlignUp(size)) >= 0 && Layout(Append(h, AlignUp(size)))
    ensures Allocated(h, Append(h, AlignUp(size)), size, h.brk + HEADER)
  {
    hide Layout, Append, Rounded, NoFit, FirstFit;
    AlignUpGrows(size);
    BrkOk(h);
    MovedPages(h.brk, AlignUp(size));
    AppendLayout(h, AlignUp(size));
    AppendSizes(h, AlignUp(size));
  }

  lemma BrkOk(h: Blocks)
    requires Layout(h)
    ensures h.brk % PGSIZE == 0 && h.brk >= HEAP_BASE
  {
  }

  lemma AppendSizes(h: Blocks, size: nat)
    requires Layout(h) && Moved(h.brk, size) >= 0
    ensures forall b :: b in h.hdr ==> b in Append(h, size).hdr && Append(h, size).hdr[b].size == h.hdr[b].size
  {
    NewBlock(h);
  }

  lemma MarkAllocates(h: Blocks, b: nat, size: nat)
    requires Layout(h) && 0 < size <= U32 - ALIGN && FirstFit(h, b, AlignUp(size)) && !NoFit(h, AlignUp(size))
    ensures b in h.hdr && Layout(Mark(h, b, false)) && Allocated(h, Mark(h, b, false), size, b + HEADER)
  {
    FitFound(h, b, AlignUp(size));
    hide Layout, FirstFit;
    AlignUpGrows(size);
    MarkLayout(h, b, false);
  }

  ghost predicate InBytes(m: map<nat, nat>, p: nat, n: nat) {
    forall a :: p <= a < p + n ==> a in m
  }

  /** The `n` bytes from `p` on. */
  ghost function Chunk(m: map<nat, nat>, p: nat, n: nat): (s: seq<nat>)
    ensures |s| == n
  {
    seq(n, i => if p + i in m then m[p + i] else 0)
  }

  /** Memory changed at most in the `n` bytes from `p` on. */
  ghost predicate OnlyIn(m: map<nat, nat>, m': map<nat, nat>, p: nat, n: nat) {
    m'.Keys == m.Keys && forall a :: a in m && !(p <= a < p + n) ==> m'[a] == m[a]
  }

  lemma ChunkSame(m: map<nat, nat>, m': map<nat, nat>, p: nat, n: nat)
    requires forall a :: p <= a < p + n ==> (a in m <==> a in m') && (a in m ==> m'[a] == m[a])
    ensures Chunk(m, p, n) == Chunk(m', p, n)
  {
    forall i | 0 <= i < n ensures Chunk(m, p, n)[i] == Chunk(m', p, n)[i] {
      var a := p + i;
      assert p <= a < p + n;
    }
  }

  lemma ChunkAfter(m: map<nat, nat>, p: nat, n: nat)
    requires p + n in m
    ensures Chunk(m, p, n + 1) == Chunk(m, p, n) + [m[p + n]]
  {
  }

  /** What `realloc` does to the blocks. */
  ghost predicate Reallocated(h: Blocks, h': Blocks, p: nat, size: nat, q: nat) {
    if p == 0 then Allocated(h, h', size, q)
    else
      && p >= HEADER && p - HEADER in h.hdr
      && if size == 0 then q == 0 && h' == Mark(h, p - HEADER, true)
         else if h.hdr[p - HEADER].size >= size then q == p && h' == h
         else exists h1 :: Allocated(h, h1, size, q) && p - HEADER in h1.hdr && h' == Mark(h1, p - HEADER, true)
  }

  /** Only the new payload is written, and its front is the old payload. */
  ghost predicate MovedBytes(h: Blocks, h': Blocks, m: map<nat, nat>, m': map<nat, nat>, p: nat, size: nat, q: nat) {
    if p == 0 || q == 0 || q == p then m' == m
    else
      && p >= HEADER && p - HEADER in h.hdr && h.hdr[p - HEADER].size < size
      && OnlyIn(m, m', q, h.hdr[p - HEADER].size)
      && Chunk(m', q, h.hdr[p - HEADER].size) == Chunk(m, p, h.hdr[p - HEADER].size)
  }

  /** The new payload overlaps no payload that was live. */
  lemma AllocatedApart(h: Blocks, h': Blocks, size: nat, p: nat, q: nat)
    requires Allocated(h, h', size, q) && size > 0 && p >= HEADER && p - HEADER in Live(h.hdr)
    ensures p - HEADER in h'.hdr && q > HEADER && q - HEADER in h'.hdr && p != q
    ensures h'.hdr[p - HEADER].size == h.hdr[p - HEADER].size && h'.hdr[q - HEADER].size >= size
    ensures p + h.hdr[p - HEADER].size <= q || q + h'.hdr[q - HEADER].size <= p
    ensures HEAP_BASE <= p && p + h.hdr[p - HEADER].size <= LIMIT
    ensures HEAP_BASE <= q && q + h'.hdr[q - HEADER].size <= LIMIT
  {
    hide Layout, Append, FirstFit, NoFit, AlignUp;
    BlocksApart(h', p - HEADER, q - HEADER);
    InHeap(h', p - HEADER);
    InHeap(h', q - HEADER);
  }

  lemma HeadOf(h: Blocks)
    requires Layout(h)
    ensures h.head == 0 <==> h.list == []
  {
    NotNull(h);
  }

  lemma FitIsFirst(h: Blocks, b: nat, size: nat)
    requires Layout(h) && b != 0 && if NoFit(h, size) then b == 0 else FirstFit(h, b, size)
    ensures !NoFit(h, size) && FirstFit(h, b, size)
  {
  }

  lemma ZeroIsNoFit(h: Blocks, size: nat)
    requires Layout(h) && if NoFit(h, size) then true else FirstFit(h, 0, size)
    ensures NoFit(h, size)
  {
    NotNull(h);
  }

  /** The blocks after `free(p)`. */
  ghost function Released(h: Blocks, p: nat): (r: Blocks)
    requires p != 0 ==> p >= HEADER && p - HEADER in h.hdr
  {
    if p == 0 then h else Mark(h, p - HEADER, true)
  }

  class Arena {
    var hdr: map<nat, Block>
    var bytes: map<nat, nat>
    var head: nat
    var brk: nat
    ghost var list: seq<nat>
    ghost var ends: seq<nat>

    ghost function View(): (h: Blocks)
      reads this
    {
      Blocks(hdr, head, brk, list, ends)
    }

    ghost predicate Valid()
      reads this
    {
      Layout(View()) && forall a :: HEAP_BASE <= a < LIMIT ==> a in bytes
    }

    /** An empty list; the break is where the kernel put it, memory holds anything. */
    constructor (brk: nat, bytes: map<nat, nat>)
      requires HEAP_BASE <= brk <= LIMIT && brk % PGSIZE == 0 && forall a :: HEAP_BASE <= a < LIMIT ==> a in bytes
      ensures Valid() && hdr == map[] && this.brk == brk && this.bytes == bytes
    {
      hdr, this.bytes, head, this.brk := map[], bytes, 0, brk;
      list, ends := [], [];
    }

    method FindFreeBlock(size: nat) returns (b: nat)
      requires Valid()
      ensures if NoFit(View(), size) then b == 0 else FirstFit(View(), b, size)
    {
      NotNull(View());
      var curr := head;
      ghost var k := 0;
      while curr != 0
        invariant 0 <= k <= |list| && curr == (if k < |list| then list[k] else 0)
        invariant NoFitBefore(View(), k, size)
        decreases |list| - k
      {
        assert BlockOk(View(), k);
        if hdr[curr].free && hdr[curr].size >= size {
          assert Fits(View(), list[k], size);
          return curr;
        }
        curr := hdr[curr].next;
        k := k + 1;
      }
      AllSeen(View(), size);
      b := 0;
    }

    /** A region from the kernel, with a header for all of it. */
    method RequestMem(size: nat) returns (b: nat)
      requires Moved(brk, size) >= 0
      modifies this`hdr, this`brk
      ensures b == old(brk) && brk == Moved(b, size) && hdr == old(hdr)[b := Block(size, 0, false)]
    {
      b := brk;
      brk := brk + Rounded(HEADER + size);
      hdr := hdr[b := Block(size, 0, false)];
    }

    /** Can `malloc` meet the request? */
    method CanServe(size: nat) returns (b: bool)
      requires Valid()
      ensures b == Served(View(), size)
    {
      hide Layout, NoFit, FirstFit, NoFitBefore, AlignUp, Rounded;
      if size == 0 || size > U32 - ALIGN {
        return size == 0;
      }
      ghost var h := View();
      var block := FindFreeBlock(AlignUp(size));
      if block != 0 {
        FitIsFirst(h, block, AlignUp(size));
        return true;
      }
      ZeroIsNoFit(h, AlignUp(size));
      b := brk + Rounded(HEADER + AlignUp(size)) <= LIMIT;
    }

    /** Can `realloc` meet the request? */
    method CanResize(p: nat, size: nat) returns (b: bool)
      requires Valid() && (p == 0 || IsLive(p))
      ensures b == ResizeServed(View(), p, size)
    {
      hide Layout, Served;
      if p != 0 && (size == 0 || hdr[p - HEADER].size >= size) {
        return true;
      }
      b := CanServe(size);
    }

    /** The walk to the end of the list, and the link to the new block. */
    method LinkLast(b: nat, ghost h: Blocks, size: nat)
      requires Layout(h) && h.list != [] && head == h.head && b == h.brk && hdr == h.hdr[b := Block(size, 0, false)]
      requires Moved(h.brk, size) >= 0
      modifies this`hdr
      ensures hdr == Append(h, size).hdr
    {
      hide Rounded;
      NewBlock(h);
      NotNull(h);
      var curr := head;
      ghost var k := 0;
      assert BlockOk(h, 0);
      while hdr[curr].next != 0
        invariant 0 <= k < |h.list| && curr == h.list[k] && BlockOk(h, k)
        decreases |h.list| - k
      {
        k := k + 1;
        assert BlockOk(h, k);
        curr := hdr[curr].next;
      }
      hdr := hdr[curr := hdr[curr].(next := b)];
    }


    method Malloc(size: nat) returns (p: nat)
      requires Valid() && Served(View(), size)
      modifies this`hdr, this`head, this`brk, this`list, this`ends
      ensures Valid() && Allocated(old(View()), View(), size, p)
    {
      hide Layout, NoFit, FirstFit, NoFitBefore, AlignUp, Rounded;
      if size == 0 {
        return 0;
      }
      ghost var h := View();
      HeadOf(h);
      var aligned := AlignUp(size);
      var block;
      if head == 0 {
        NoBlocks(h, aligned);
        AppendAllocates(h, size);
        block := RequestMem(aligned);
        head := block;
        list, ends := [block], [brk];
      } else {
        block := FindFreeBlock(aligned);
        if block != 0 {
          FitIsFirst(h, block, aligned);
          MarkAllocates(h, block, size);
          hdr := hdr[block := hdr[block].(free := false)];
        } else {
          ZeroIsNoFit(h, aligned);
          AppendAllocates(h, size);
          block := RequestMem(aligned);
          LinkLast(block, h, aligned);
          list, ends := list + [block], ends + [brk];
        }
      }
      p := block + HEADER;
    }

    /** Any block may be freed, also one that is free already. */
    method Free(p: nat)
      requires Valid() && (p == 0 || (p >= HEADER && p - HEADER in hdr))
      modifies this`hdr
      ensures Valid() && View() == Released(old(View()), p)
    {
      if p == 0 {
        return;
      }
      MarkLayout(View(), p - HEADER, true);
      hide Layout;
      hdr := hdr[p - HEADER := hdr[p - HEADER].(free := true)];
    }

    /** The copying loop of `realloc`. */
    method CopyBytes(src: nat, dst: nat, n: nat)
      requires InBytes(bytes, src, n) && InBytes(bytes, dst, n) && (src + n <= dst || dst + n <= src)
      modifies this`bytes
      ensures OnlyIn(old(bytes), bytes, dst, n) && Chunk(bytes, dst, n) == Chunk(old(bytes), src, n)
    {
      for i := 0 to n
        invariant OnlyIn(old(bytes), bytes, dst, i) && Chunk(bytes, dst, i) == Chunk(old(bytes), src, i)
      {
        ghost var m := bytes;
        bytes := bytes[dst + i := bytes[src + i]];
        ChunkSame(m, bytes, dst, i);
        ChunkAfter(bytes, dst, i);
        ChunkAfter(old(bytes), src, i);
      }
    }

    /** A pointer that `malloc` or `realloc` returned and that was not freed since. */
    ghost predicate IsLive(p: nat)
      reads this
    {
      p >= HEADER && p - HEADER in Live(hdr)
    }

    /** The program writes a byte of its own. */
    method Store(p: nat, at: nat, value: nat)
      requires Valid()
      modifies this`bytes
      ensures bytes == old(bytes)[p + at := value]
      ensures Valid()
    {
      bytes := bytes[p + at := value];
    }

    method Realloc(p: nat, size: nat) returns (q: nat)
      requires Valid() && (p == 0 || IsLive(p)) && ResizeServed(View(), p, size)
      modifies this
      ensures Valid() && Reallocated(old(View()), View(), p, size, q)
      ensures MovedBytes(old(View()), View(), old(bytes), bytes, p, size, q)
    {
      hide Layout, Served, Allocated, AlignUp;
      if p == 0 {
        q := Malloc(size);
        return;
      }
      if size == 0 {
        Free(p);
        return 0;
      }
      var block := hdr[p - HEADER];
      if block.size >= size {
        return p;
      }
      ghost var h := View();
      q := Malloc(size);
      ghost var h1 := View();
      AllocatedApart(h, h1, size, p, q);
      CopyBytes(p, q, block.size);
      Free(p);
    }
  }

  // The four kinds of calls, and what they mean for the program's arrays.

  method Perform(heap: Arena, op: Op, ptrs: seq<nat>, ghost model: seq<seq<nat>>)
    returns (ptrs': seq<nat>, ghost model': seq<seq<nat>>)
    requires heap.Valid() && Represents(heap.View(), heap.bytes, ptrs, model) && OpOk(Sizes(model), op)
    requires OpServed(heap.View(), ptrs, op)
    modifies heap
    ensures heap.Valid() && Represents(heap.View(), heap.bytes, ptrs', model') && StepOk(model, op, model')
    ensures Did(old(heap.View()), old(heap.bytes), ptrs, op, heap.View(), heap.bytes, ptrs')
  {
    hide Layout, Represents, Rounded, AlignUp, RemoveAt, SameFront, Chunk, Released, Served, Allocated;
    ghost var h, m := heap.View(), heap.bytes;
    RepLengths(h, m, ptrs, model);
    match op
    case Alloc(size) =>
      var p := heap.Malloc(size);
      RepAlloc(h, m, ptrs, model, heap.View(), size, p);
      ptrs', model' := ptrs + [p], model + [Chunk(m, p, size)];
    case Release(k) =>
      RepPointer(h, m, ptrs, model, k);
      RepFree(h, m, ptrs, model, k);
      heap.Free(ptrs[k]);
      ptrs', model' := RemoveAt(ptrs, k), RemoveAt(model, k);
    case Resize(k, size) =>
      RepPointer(h, m, ptrs, model, k);
      var q := heap.Realloc(ptrs[k], size);
      RepResize(h, m, ptrs, model, heap.View(), heap.bytes, k, size, q);
      RemovedLength(model, k);
      RemovedLength(ptrs, k);
      ptrs', model' := RemoveAt(ptrs, k) + [q], RemoveAt(model, k) + [Chunk(heap.bytes, q, size)];
    case Poke(k, at, value) =>
      RepPointer(h, m, ptrs, model, k);
      heap.Store(ptrs[k], at, value);
      RepPoke(h, m, ptrs, model, k, at, value);
      ptrs', model' := ptrs, model[k := SetByte(model[k], at, value)];
  }

  // ------------------------------------------------------------------- memory

  lemma ChunkFront(m: map<nat, nat>, p: nat, n: nat, k: nat)
    requires k <= n
    ensures Chunk(m, p, n)[..k] == Chunk(m, p, k)
  {
  }

  // ---------------------------------------------------------------- every run

  /** What a program does with the heap; `k` numbers the pointers it holds. */
  datatype Op =
    | Alloc(size: nat)
    | Release(k: nat)
    | Resize(k: nat, size: nat)
    | Poke(k: nat, at: nat, value: nat)

  /** A pointer the program holds, and no access outside its array; `sizes` are the arrays' lengths. */
  predicate OpOk(sizes: seq<nat>, op: Op) {
    match op
    case Alloc(_) => true
    case Release(k) => k < |sizes|
    case Resize(k, _) => k < |sizes|
    case Poke(k, at, _) => k < |sizes| && at < sizes[k]
  }

  ghost function Sizes(model: seq<seq<nat>>): (r: seq<nat>)
    ensures |r| == |model|
  {
    seq(|model|, k requires 0 <= k < |model| => |model[k]|)
  }

  function SetByte(c: seq<nat>, at: nat, value: nat): (r: seq<nat>)
    requires at < |c|
  {
    c[at := value]
  }

  /** The program's view: separate arrays, each changed only through its own pointer. */
  ghost predicate StepOk(model: seq<seq<nat>>, op: Op, model': seq<seq<nat>>) {
    OpOk(Sizes(model), op) &&
    match op
    case Alloc(size) => |model'| == |model| + 1 && model' == model + [model'[|model|]] && |model'[|model|]| == size
    case Release(k) => model' == RemoveAt(model, k)
    case Resize(k, size) =>
      && |model'| == |model| && model' == RemoveAt(model, k) + [model'[|model| - 1]]
      && |model'[|model| - 1]| == size && SameFront(model[k], model'[|model| - 1])
    case Poke(k, at, value) => model' == model[k := SetByte(model[k], at, value)]
  }

  /** The heap can meet the request. */
  ghost predicate OpServed(h: Blocks, ptrs: seq<nat>, op: Op) {
    match op
    case Alloc(size) => Served(h, size)
    case Resize(k, size) => k < |ptrs| && ResizeServed(h, ptrs[k], size)
    case Release(_) => true
    case Poke(_, _, _) => true
  }

  /** What the operation did to blocks, memory and the program's pointers. */
  ghost predicate Did(h: Blocks, m: map<nat, nat>, ptrs: seq<nat>, op: Op, h': Blocks, m': map<nat, nat>,
                      ptrs': seq<nat>) {
    match op
    case Alloc(size) =>
      |ptrs'| == |ptrs| + 1 && ptrs' == ptrs + [ptrs'[|ptrs|]] && Allocated(h, h', size, ptrs'[|ptrs|]) && m' == m
    case Release(k) =>
      && k < |ptrs| && (ptrs[k] != 0 ==> ptrs[k] >= HEADER && ptrs[k] - HEADER in h.hdr)
      && ptrs' == RemoveAt(ptrs, k) && h' == Released(h, ptrs[k]) && m' == m
    case Resize(k, size) =>
      && k < |ptrs| == |ptrs'| && ptrs' == RemoveAt(ptrs, k) + [ptrs'[|ptrs| - 1]]
      && Reallocated(h, h', ptrs[k], size, ptrs'[|ptrs| - 1])
      && MovedBytes(h, h', m, m', ptrs[k], size, ptrs'[|ptrs| - 1])
    case Poke(k, at, value) => k < |ptrs| && ptrs' == ptrs && h' == h && m' == m[ptrs[k] + at := value]
  }

  ghost predicate SameFront(a: seq<nat>, b: seq<nat>) {
    var n := if |a| <= |b| then |a| else |b|;
    a[..n] == b[..n]
  }

  /** Pointer `p` gives access to the array `c`. */
  ghost predicate Gives(h: Blocks, m: map<nat, nat>, p: nat, c: seq<nat>) {
    if p == 0 then c == []
    else p >= HEADER && p - HEADER in Live(h.hdr) && |c| <= h.hdr[p - HEADER].size && Chunk(m, p, |c|) == c
  }

  /** The heap implements the arrays: every pointer gives its own, and every live block has its pointer. */
  ghost predicate Represents(h: Blocks, m: map<nat, nat>, ptrs: seq<nat>, model: seq<seq<nat>>) {
    && Layout(h) && |ptrs| == |model|
    && (forall k :: 0 <= k < |ptrs| ==> Gives(h, m, ptrs[k], model[k]))
    && Distinct(ptrs)
    && (forall b :: b in Live(h.hdr) ==> b + HEADER in ptrs)
  }

  /** Live arrays do not overlap each other. */
  lemma ArraysApart(h: Blocks, m: map<nat, nat>, ptrs: seq<nat>, model: seq<seq<nat>>, j: nat, k: nat)
    requires Represents(h, m, ptrs, model) && j < |ptrs| && k < |ptrs| && j != k && ptrs[j] != 0 && ptrs[k] != 0
    ensures ptrs[j] + |model[j]| <= ptrs[k] || ptrs[k] + |model[k]| <= ptrs[j]
  {
    assert Gives(h, m, ptrs[j], model[j]) && Gives(h, m, ptrs[k], model[k]);
    if j < k { assert ptrs[j] != ptrs[k]; } else { assert ptrs[k] != ptrs[j]; }
    BlocksApart(h, ptrs[j] - HEADER, ptrs[k] - HEADER);
  }

  lemma RepAlloc(h: Blocks, m: map<nat, nat>, ptrs: seq<nat>, model: seq<seq<nat>>, h': Blocks, size: nat, p: nat)
    requires Represents(h, m, ptrs, model) && Allocated(h, h', size, p)
    ensures Represents(h', m, ptrs + [p], model + [Chunk(m, p, size)])
  {
    hide Layout, Append, FirstFit, NoFit, AlignUp, Mark;
    var ptrs', model' := ptrs + [p], model + [Chunk(m, p, size)];
    forall k | 0 <= k < |ptrs'| ensures Gives(h', m, ptrs'[k], model'[k]) {
      if k < |ptrs| {
        assert Gives(h, m, ptrs[k], model[k]);
      }
    }
    forall j, k | 0 <= j < k < |ptrs'| && ptrs'[j] != 0 ensures ptrs'[j] != ptrs'[k] {
      assert Gives(h, m, ptrs[j], model[j]);
    }
    forall b | b in Live(h'.hdr) ensures b + HEADER in ptrs' {
      if b + HEADER == p {
        assert ptrs'[|ptrs|] == p;
      } else {
        assert b + HEADER in ptrs;
      }
    }
  }

  lemma ReleasedLayout(h: Blocks, p: nat)
    requires Layout(h) && (p != 0 ==> p >= HEADER && p - HEADER in h.hdr)
    ensures Layout(Released(h, p))
            && Live(Released(h, p).hdr) == if p == 0 then Live(h.hdr) else Live(h.hdr) - {p - HEADER}
  {
    if p != 0 {
      MarkLayout(h, p - HEADER, true);
    }
  }

  lemma ReleasedGives(h: Blocks, m: map<nat, nat>, p: nat, q: nat, c: seq<nat>)
    requires Gives(h, m, q, c) && (p != 0 ==> p >= HEADER && p - HEADER in h.hdr && q != p)
    ensures Gives(Released(h, p), m, q, c)
  {
  }

  /** Dropping pointer `k`, and with it its block. */
  lemma RepFree(h: Blocks, m: map<nat, nat>, ptrs: seq<nat>, model: seq<seq<nat>>, k: nat)
    requires Represents(h, m, ptrs, model) && k < |ptrs|
    ensures ptrs[k] != 0 ==> ptrs[k] >= HEADER && ptrs[k] - HEADER in h.hdr
    ensures Represents(Released(h, ptrs[k]), m, RemoveAt(ptrs, k), RemoveAt(model, k))
  {
    RepPointer(h, m, ptrs, model, k);
    var p := ptrs[k];
    var h' := Released(h, p);
    ReleasedLayout(h, p);
    hide Layout, Mark, RemoveAt, Gives, Released;
    RemovedPtrs(ptrs, k);
    RemovedLength(model, k);
    var ptrs', model' := RemoveAt(ptrs, k), RemoveAt(model, k);
    forall j | 0 <= j < |ptrs'| ensures Gives(h', m, ptrs'[j], model'[j]) {
      var i := Skip(k, j);
      RemovedAt(ptrs, k, j);
      RemovedAt(model, k, j);
      assert Gives(h, m, ptrs[i], model[i]) && (p != 0 ==> ptrs[i] != p);
      ReleasedGives(h, m, p, ptrs[i], model[i]);
    }
    hide Live;
  }

  /** No pointer but null occurs twice. */
  ghost predicate Distinct(ptrs: seq<nat>) {
    forall j, k :: 0 <= j < k < |ptrs| && ptrs[j] != 0 ==> ptrs[j] != ptrs[k]
  }

  lemma RemovedPtrs(ptrs: seq<nat>, k: nat)
    requires k < |ptrs| && Distinct(ptrs)
    ensures |RemoveAt(ptrs, k)| == |ptrs| - 1 && Distinct(RemoveAt(ptrs, k))
    ensures forall x :: x in ptrs && x != ptrs[k] ==> x in RemoveAt(ptrs, k)
  {
    hide RemoveAt;
    RemovedLength(ptrs, k);
    var ptrs' := RemoveAt(ptrs, k);
    forall i, j | 0 <= i < j < |ptrs'| && ptrs'[i] != 0 ensures ptrs'[i] != ptrs'[j] {
      RemovedAt(ptrs, k, i);
      RemovedAt(ptrs, k, j);
    }
    forall x | x in ptrs && x != ptrs[k] ensures x in ptrs' {
      var i :| 0 <= i < |ptrs| && ptrs[i] == x;
      RemovedAt(ptrs, k, if i < k then i else i - 1);
    }
  }

  /** Writing inside the array of pointer `k` changes that array and no other. */
  lemma RepWrite(h: Blocks, m: map<nat, nat>, ptrs: seq<nat>, model: seq<seq<nat>>, k: nat, m': map<nat, nat>)
    requires Represents(h, m, ptrs, model) && k < |ptrs| && ptrs[k] != 0 && OnlyIn(m, m', ptrs[k], |model[k]|)
    ensures Represents(h, m', ptrs, model[k := Chunk(m', ptrs[k], |model[k]|)])
  {
    hide Layout;
    var model' := model[k := Chunk(m', ptrs[k], |model[k]|)];
    assert Gives(h, m, ptrs[k], model[k]);
    forall j | 0 <= j < |ptrs| ensures Gives(h, m', ptrs[j], model'[j]) {
      assert Gives(h, m, ptrs[j], model[j]);
      if j != k && ptrs[j] != 0 {
        ArraysApart(h, m, ptrs, model, j, k);
        ChunkSame(m, m', ptrs[j], |model[j]|);
      }
    }
  }

  // The cases of `realloc`, each seen by the program as: the old array goes, the resized one comes.

  /** A pointer that is kept, for an array of another length inside the same block. */
  lemma RepKeep(h: Blocks, m: map<nat, nat>, ptrs: seq<nat>, model: seq<seq<nat>>, k: nat, size: nat)
    requires Represents(h, m, ptrs, model) && k < |ptrs|
    requires ptrs[k] != 0 ==> ptrs[k] >= HEADER && ptrs[k] - HEADER in h.hdr && size <= h.hdr[ptrs[k] - HEADER].size
    requires ptrs[k] == 0 ==> size == 0
    ensures Represents(h, m, RemoveAt(ptrs, k) + [ptrs[k]], RemoveAt(model, k) + [Chunk(m, ptrs[k], size)])
    ensures SameFront(model[k], Chunk(m, ptrs[k], size))
  {
    hide Layout, RemoveAt, Chunk, SameFront;
    var p := ptrs[k];
    assert Gives(h, m, p, model[k]);
    KeepFront(m, p, model[k], size);
    assert Gives(h, m, p, Chunk(m, p, size)) by { NullChunk(m); }
    hide Gives, Live;
    MovedLast(ptrs, k);
    hide Distinct;
    RemovedLength(model, k);
    var ptrs', model' := RemoveAt(ptrs, k) + [p], RemoveAt(model, k) + [Chunk(m, p, size)];
    forall j | 0 <= j < |ptrs'| ensures Gives(h, m, ptrs'[j], model'[j]) {
      if j < |ptrs| - 1 {
        RemovedAt(ptrs, k, j);
        RemovedAt(model, k, j);
        assert Gives(h, m, ptrs[Skip(k, j)], model[Skip(k, j)]);
      }
    }
  }

  lemma MovedLast(ptrs: seq<nat>, k: nat)
    requires k < |ptrs| && Distinct(ptrs)
    ensures |RemoveAt(ptrs, k)| == |ptrs| - 1 && Distinct(RemoveAt(ptrs, k) + [ptrs[k]])
    ensures forall x :: x in ptrs ==> x in RemoveAt(ptrs, k) + [ptrs[k]]
  {
    RemovedPtrs(ptrs, k);
    hide RemoveAt;
    var p, r := ptrs[k], RemoveAt(ptrs, k);
    forall j | 0 <= j < |r| && r[j] != 0 ensures r[j] != p {
      RemovedAt(ptrs, k, j);
    }
    assert (r + [p])[|r|] == p;
  }

  lemma NullChunk(m: map<nat, nat>)
    ensures Chunk(m, 0, 0) == []
  {
  }

  lemma KeepFront(m: map<nat, nat>, p: nat, c: seq<nat>, size: nat)
    requires Chunk(m, p, |c|) == c
    ensures SameFront(c, Chunk(m, p, size))
  {
    ChunkFront(m, p, |c|, if |c| <= size then |c| else size);
    ChunkFront(m, p, size, if |c| <= size then |c| else size);
  }

  lemma ResizeNull(h: Blocks, m: map<nat, nat>, ptrs: seq<nat>, model: seq<seq<nat>>, h': Blocks, k: nat, size: nat,
                   q: nat)
    requires Represents(h, m, ptrs, model) && k < |ptrs| && ptrs[k] == 0 && Allocated(h, h', size, q)
    ensures Represents(h', m, RemoveAt(ptrs, k) + [q], RemoveAt(model, k) + [Chunk(m, q, size)])
    ensures SameFront(model[k], Chunk(m, q, size))
  {
    assert Gives(h, m, ptrs[k], model[k]);
    RepAlloc(h, m, ptrs, model, h', size, q);
    hide Represents, RemoveAt;
    RepFree(h', m, ptrs + [q], model + [Chunk(m, q, size)], k);
    RemoveAppend(ptrs, q, k);
    RemoveAppend(model, Chunk(m, q, size), k);
  }

  lemma ResizeToNothing(h: Blocks, m: map<nat, nat>, ptrs: seq<nat>, model: seq<seq<nat>>, k: nat)
    requires Represents(h, m, ptrs, model) && k < |ptrs| && ptrs[k] >= HEADER && ptrs[k] - HEADER in h.hdr
    ensures Represents(Mark(h, ptrs[k] - HEADER, true), m, RemoveAt(ptrs, k) + [0],
              RemoveAt(model, k) + [Chunk(m, 0, 0)])
    ensures SameFront(model[k], Chunk(m, 0, 0))
  {
    RepLengths(h, m, ptrs, model);
    hide Represents, RemoveAt;
    RepFree(h, m, ptrs, model, k);
    var h' := Mark(h, ptrs[k] - HEADER, true);
    RepAlloc(h', m, RemoveAt(ptrs, k), RemoveAt(model, k), h', 0, 0);
  }

  lemma ResizeElsewhere(h: Blocks, m: map<nat, nat>, ptrs: seq<nat>, model: seq<seq<nat>>, h1: Blocks,
                        m': map<nat, nat>, k: nat, size: nat, q: nat)
    requires Represents(h, m, ptrs, model) && k < |ptrs| && ptrs[k] >= HEADER && ptrs[k] - HEADER in h.hdr
    requires size > h.hdr[ptrs[k] - HEADER].size && Allocated(h, h1, size, q) && ptrs[k] - HEADER in h1.hdr
    requires var n := h.hdr[ptrs[k] - HEADER].size; OnlyIn(m, m', q, n) && Chunk(m', q, n) == Chunk(m, ptrs[k], n)
    ensures Represents(Mark(h1, ptrs[k] - HEADER, true), m', RemoveAt(ptrs, k) + [q],
              RemoveAt(model, k) + [Chunk(m', q, size)])
    ensures SameFront(model[k], Chunk(m', q, size))
  {
    hide RemoveAt, Layout, Chunk;
    var n := h.hdr[ptrs[k] - HEADER].size;
    assert Gives(h, m, ptrs[k], model[k]);
    FrontMoved(m, ptrs[k], m', q, n, model[k], size);
    hide SameFront, Gives;
    RepAlloc(h, m, ptrs, model, h1, size, q);
    assert OnlyIn(m, m', q, size) && q != 0;
    hide Represents, Allocated, OnlyIn, Live;
    var ptrs1, model1 := ptrs + [q], model + [Chunk(m, q, size)];
    assert ptrs1[|ptrs|] == q && ptrs1[k] == ptrs[k];
    RepLengths(h, m, ptrs, model);
    RepWrite(h1, m, ptrs1, model1, |ptrs|, m');
    var model2 := model + [Chunk(m', q, size)];
    assert model1[|ptrs| := Chunk(m', q, size)] == model2;
    RepFree(h1, m', ptrs1, model2, k);
    RemoveAppend(ptrs, q, k);
    RemoveAppend(model, Chunk(m', q, size), k);
  }

  lemma FrontMoved(m: map<nat, nat>, p: nat, m': map<nat, nat>, q: nat, n: nat, c: seq<nat>, size: nat)
    requires Chunk(m', q, n) == Chunk(m, p, n) && Chunk(m, p, |c|) == c && |c| <= n <= size
    ensures SameFront(c, Chunk(m', q, size))
  {
    ChunkFront(m, p, n, |c|);
    ChunkFront(m', q, n, |c|);
    ChunkFront(m', q, size, |c|);
  }

  lemma RepLengths(h: Blocks, m: map<nat, nat>, ptrs: seq<nat>, model: seq<seq<nat>>)
    requires Represents(h, m, ptrs, model)
    ensures |ptrs| == |model|
  {
  }

  /** `realloc` as the program sees it. */
  lemma RepResize(h: Blocks, m: map<nat, nat>, ptrs: seq<nat>, model: seq<seq<nat>>, h': Blocks, m': map<nat, nat>,
                  k: nat, size: nat, q: nat)
    requires Represents(h, m, ptrs, model) && k < |ptrs|
    requires Reallocated(h, h', ptrs[k], size, q) && MovedBytes(h, h', m, m', ptrs[k], size, q)
    ensures Represents(h', m', RemoveAt(ptrs, k) + [q], RemoveAt(model, k) + [Chunk(m', q, size)])
    ensures SameFront(model[k], Chunk(m', q, size))
  {
    hide RemoveAt, Chunk, OnlyIn, SameFront, Mark;
    var p := ptrs[k];
    RepPointer(h, m, ptrs, model, k);
    hide Represents;
    if p == 0 {
      ResizeNull(h, m, ptrs, model, h', k, size, q);
    } else if size == 0 {
      ResizeToNothing(h, m, ptrs, model, k);
    } else if h.hdr[p - HEADER].size >= size {
      RepKeep(h, m, ptrs, model, k, size);
    } else {
      var h1 :| Allocated(h, h1, size, q) && p - HEADER in h1.hdr && h' == Mark(h1, p - HEADER, true);
      AllocatedApart(h, h1, size, p, q);
      hide Allocated;
      ResizeElsewhere(h, m, ptrs, model, h1, m', k, size, q);
    }
  }

  lemma RepPointer(h: Blocks, m: map<nat, nat>, ptrs: seq<nat>, model: seq<seq<nat>>, k: nat)
    requires Represents(h, m, ptrs, model) && k < |ptrs|
    ensures |ptrs| == |model| && Gives(h, m, ptrs[k], model[k])
    ensures ptrs[k] != 0 ==> ptrs[k] >= HEADER && ptrs[k] - HEADER in Live(h.hdr)
  {
  }

  lemma RepPoke(h: Blocks, m: map<nat, nat>, ptrs: seq<nat>, model: seq<seq<nat>>, k: nat, at: nat, value: nat)
    requires Represents(h, m, ptrs, model) && k < |ptrs| == |model| && at < |model[k]|
    requires forall a :: HEAP_BASE <= a < LIMIT ==> a in m
    ensures Represents(h, m[ptrs[k] + at := value], ptrs, model[k := SetByte(model[k], at, value)])
  {
    RepPointer(h, m, ptrs, model, k);
    var p, m' := ptrs[k], m[ptrs[k] + at := value];
    RepInHeap(h, m, ptrs, model, k);
    var a := p + at;
    assert a in m;
    hide Represents;
    assert m'.Keys == m.Keys;
    RepWrite(h, m, ptrs, model, k, m');
    assert Chunk(m', p, |model[k]|) == SetByte(model[k], at, value);
  }

  lemma RepInHeap(h: Blocks, m: map<nat, nat>, ptrs: seq<nat>, model: seq<seq<nat>>, k: nat)
    requires Represents(h, m, ptrs, model) && k < |ptrs| && ptrs[k] != 0
    ensures |ptrs| == |model| && HEAP_BASE <= ptrs[k] && ptrs[k] + |model[k]| <= h.brk <= LIMIT
  {
    RepPointer(h, m, ptrs, model, k);
    InHeap(h, ptrs[k] - HEADER);
  }

  /** Blocks, memory, the program's pointers and the arrays they stand for. */
  datatype HeapState = HeapState(h: Blocks, bytes: map<nat, nat>, ptrs: seq<nat>, model: seq<seq<nat>>)

  ghost predicate StateOk(s: HeapState) {
    Represents(s.h, s.bytes, s.ptrs, s.model)
  }

  /** The program may make the call and the heap can meet it. */
  ghost predicate Possible(s: HeapState, op: Op) {
    OpOk(Sizes(s.model), op) && OpServed(s.h, s.ptrs, op)
  }

  /** A possible operation is done; any other is left out, and nothing changes. */
  ghost predicate Step(s: HeapState, op: Op, s': HeapState) {
    if Possible(s, op)
    then StepOk(s.model, op, s'.model) && Did(s.h, s.bytes, s.ptrs, op, s'.h, s'.bytes, s'.ptrs)
    else s' == s
  }

  /** One state before each operation and one at the end, in all of which the heap implements the arrays. */
  ghost predicate Ran(ops: seq<Op>, trace: seq<HeapState>) {
    && |trace| == |ops| + 1
    && (forall k :: 0 <= k < |trace| ==> StateOk(trace[k]))
    && (forall k :: 0 <= k < |ops| ==> Step(trace[k], ops[k], trace[k + 1]))
  }

  lemma RanOn(ops: seq<Op>, trace: seq<HeapState>, op: Op, s: HeapState)
    requires Ran(ops, trace) && StateOk(s) && Step(trace[|ops|], op, s)
    ensures Ran(ops + [op], trace + [s])
  {
    hide StateOk, Step;
    var ops', trace' := ops + [op], trace + [s];
    forall k | 0 <= k < |ops'| ensures Step(trace'[k], ops'[k], trace'[k + 1]) {
      assert k < |ops| ==> Step(trace[k], ops[k], trace[k + 1]);
    }
  }

  /**
   * Over any run of malloc, free, realloc and writes through the pointers obtained, the program
   * sees separate arrays: in every state of the run the heap implements them, each operation is a
   * legal step on them, and an operation is left out exactly when it names no pointer of the
   * program or the heap's address range cannot meet it.
   */
  method Run(heap: Arena, ops: seq<Op>)
    returns (ptrs: seq<nat>, sizes: seq<nat>, ghost trace: seq<HeapState>)
    requires heap.Valid() && heap.hdr == map[]
    modifies heap
    ensures heap.Valid() && Ran(ops, trace)
    ensures trace[0] == HeapState(old(heap.View()), old(heap.bytes), [], [])
    ensures trace[|ops|] == HeapState(heap.View(), heap.bytes, ptrs, trace[|ops|].model)
            && sizes == Sizes(trace[|ops|].model)
  {
    hide Represents, StepOk, OpOk, Sizes, Layout, NewSizes, Did, OpServed, Ran;
    ptrs, sizes, trace := [], [], [HeapState(heap.View(), heap.bytes, [], [])];
    NothingYet(heap.View(), heap.bytes);
    ghost var model := [];
    for i := 0 to |ops|
      invariant heap.Valid() && |trace| == i + 1 && Ran(ops[..i], trace)
      invariant trace[0] == HeapState(old(heap.View()), old(heap.bytes), [], [])
      invariant trace[i] == HeapState(heap.View(), heap.bytes, ptrs, model) && sizes == Sizes(model)
      invariant Represents(heap.View(), heap.bytes, ptrs, model)
    {
      ghost var s, op := trace[i], ops[i];
      var can := Check(heap, ops[i], ptrs, sizes, model);
      if can {
        ghost var model0 := model;
        ptrs, model := Perform(heap, ops[i], ptrs, model);
        StepSizes(model0, op, model);
        sizes := NewSizes(sizes, ops[i]);
      }
      ghost var s' := HeapState(heap.View(), heap.bytes, ptrs, model);
      RanOn(ops[..i], trace, op, s');
      assert ops[..i] + [op] == ops[..i + 1];
      trace := trace + [s'];
    }
    assert ops[..|ops|] == ops;
  }

  /** Is the operation possible now? */
  method Check(heap: Arena, op: Op, ptrs: seq<nat>, sizes: seq<nat>, ghost model: seq<seq<nat>>) returns (can: bool)
    requires heap.Valid() && Represents(heap.View(), heap.bytes, ptrs, model) && sizes == Sizes(model)
    ensures can == Possible(HeapState(heap.View(), heap.bytes, ptrs, model), op)
  {
    hide Represents, Sizes, Layout, Served, ResizeServed;
    RepLengths(heap.View(), heap.bytes, ptrs, model);
    if !OpOk(sizes, op) {
      return false;
    }
    match op
    case Alloc(size) => can := heap.CanServe(size);
    case Resize(k, size) =>
      RepPointer(heap.View(), heap.bytes, ptrs, model, k);
      can := heap.CanResize(ptrs[k], size);
    case Release(_) => can := true;
    case Poke(_, _, _) => can := true;
  }

  lemma NothingYet(h: Blocks, m: map<nat, nat>)
    requires Layout(h) && h.hdr == map[]
    ensures Represents(h, m, [], []) && Sizes([]) == [] && Ran([], [HeapState(h, m, [], [])])
  {
  }

  function NewSizes(sizes: seq<nat>, op: Op): (r: seq<nat>)
    requires OpOk(sizes, op)
  {
    match op
    case Alloc(size) => sizes + [size]
    case Release(k) => RemoveAt(sizes, k)
    case Resize(k, size) => RemoveAt(sizes, k) + [size]
    case Poke(_, _, _) => sizes
  }

  lemma StepSizes(model: seq<seq<nat>>, op: Op, model': seq<seq<nat>>)
    requires StepOk(model, op, model')
    ensures Sizes(model') == NewSizes(Sizes(model), op)
  {
    hide SameFront;
    match op
    case Alloc(size) => SizesAppend(model, model'[|model|]);
    case Release(k) => SizesRemove(model, k);
    case Resize(k, size) =>
      SizesRemove(model, k);
      SizesAppend(RemoveAt(model, k), model'[|model| - 1]);
    case Poke(k, at, value) => assert forall i :: 0 <= i < |model| ==> |model'[i]| == |model[i]|;
  }

  lemma SizesAppend(model: seq<seq<nat>>, bytes: seq<nat>)
    ensures Sizes(model + [bytes]) == Sizes(model) + [|bytes|]
  {
  }

  lemma SizesRemove(model: seq<seq<nat>>, k: nat)
    requires k < |model|
    ensures Sizes(RemoveAt(model, k)) == RemoveAt(Sizes(model), k)
  {
  }
}
