/** The physical page allocator: a bitmap of free pages (kernel/src/pgalloc.c). */
module PageAlloc {
  const ENTRIES: nat := 32768  // PAGE_FREE_MAP_ENTRIES
  const PAGES: nat := 32 * ENTRIES

  /** A 32-bit word of the map, bit by bit from the lowest. */
  type Word = w: seq<bool> | |w| == 32 witness seq(32, _ => false)

  predicate IsZero(w: Word) {
    forall i :: 0 <= i < 32 ==> !w[i]
  }

  // ------------------------------------------------------------- the allocator

  datatype Op = AllocOp | FreeOp(page: nat)
  datatype Done = Got(page: nat) | Gave(page: nat) | Skipped

  /** One operation, when `all` were free at the start and `free` are now. */
  ghost predicate StepDone(all: set<nat>, free: set<nat>, op: Op, d: Done, free': set<nat>) {
    match op
    case AllocOp =>
      if free == {} then d == Skipped && free' == free
      else d.Got? && d.page in free && free' == free - {d.page}
    case FreeOp(page) =>
      if page in all - free then d == Gave(page) && free' == free + {page}
      else d == Skipped && free' == free
  }

  ghost predicate Ran(ops: seq<Op>, done: seq<Done>, trace: seq<set<nat>>) {
    && |done| == |ops| && |trace| == |ops| + 1
    && (forall k :: 0 <= k < |trace| ==> trace[k] <= trace[0])
    && (forall k :: 0 <= k < |ops| ==> StepDone(trace[0], trace[k], ops[k], done[k], trace[k + 1]))
  }

  function OutAfter(out: set<nat>, d: Done): (r: set<nat>) {
    match d
    case Got(page) => out + {page}
    case Gave(page) => out - {page}
    case Skipped => out
  }

  lemma HandedOn(done: seq<Done>, out: set<nat>, d: Done)
    requires NoDoubleHandout(done) && LastTaken(done, out) && (d.Got? ==> d.page !in out)
    ensures NoDoubleHandout(done + [d]) && LastTaken(done + [d], OutAfter(out, d))
  {
    hide NoDoubleHandout, LastTaken;
    match d
    case Got(page) => HandOut(done, out, page);
    case Gave(page) => GiveBack(done, out, page);
    case Skipped => PassBy(done, out);
  }

  lemma RanOn(ops: seq<Op>, done: seq<Done>, trace: seq<set<nat>>, op: Op, d: Done, free: set<nat>)
    requires Ran(ops, done, trace) && free <= trace[0] && StepDone(trace[0], trace[|ops|], op, d, free)
    ensures Ran(ops + [op], done + [d], trace + [free])
  {
    hide StepDone;
    var ops', done', trace' := ops + [op], done + [d], trace + [free];
    forall k | 0 <= k < |ops'| ensures StepDone(trace'[0], trace'[k], ops'[k], done'[k], trace'[k + 1]) {
      assert k < |ops| ==> StepDone(trace[0], trace[k], ops[k], done[k], trace[k + 1]);
    }
  }

  /** Position `k` of the trace gives `page` back. */
  ghost predicate GaveAt(trace: seq<Done>, k: nat, page: nat) {
    k < |trace| && trace[k] == Gave(page)
  }

  ghost predicate NoDoubleHandout(trace: seq<Done>) {
    forall i, j :: 0 <= i < j < |trace| && trace[i].Got? && trace[i] == trace[j] ==>
      exists k :: i < k < j && GaveAt(trace, k, trace[i].page)
  }

  /** A page that was handed out and not given back since is out. */
  ghost predicate LastTaken(trace: seq<Done>, out: set<nat>) {
    forall i :: 0 <= i < |trace| && trace[i].Got? && trace[i].page !in out ==>
      exists k :: i < k < |trace| && GaveAt(trace, k, trace[i].page)
  }

  lemma NothingYet(free: set<nat>)
    ensures NoDoubleHandout([]) && LastTaken([], {}) && Ran([], [], [free])
  {
  }

  lemma GaveStays(trace: seq<Done>, d: Done, k: nat, page: nat)
    requires GaveAt(trace, k, page)
    ensures GaveAt(trace + [d], k, page)
  {
  }

  /** A page that is not out can be handed out: its last hand-out was undone. */
  lemma HandOut(trace: seq<Done>, out: set<nat>, page: nat)
    requires NoDoubleHandout(trace) && LastTaken(trace, out) && page !in out
    ensures NoDoubleHandout(trace + [Got(page)]) && LastTaken(trace + [Got(page)], out + {page})
  {
    var t := trace + [Got(page)];
    forall i, j | 0 <= i < j < |t| && t[i].Got? && t[i] == t[j]
      ensures exists k :: i < k < j && GaveAt(t, k, t[i].page)
    {
      var k :| i < k < j && GaveAt(trace, k, trace[i].page);
      GaveStays(trace, Got(page), k, trace[i].page);
    }
    forall i | 0 <= i < |t| && t[i].Got? && t[i].page !in out + {page}
      ensures exists k :: i < k < |t| && GaveAt(t, k, t[i].page)
    {
      var k :| i < k < |trace| && GaveAt(trace, k, trace[i].page);
      GaveStays(trace, Got(page), k, trace[i].page);
    }
  }

  /** An operation that is left out. */
  lemma PassBy(trace: seq<Done>, out: set<nat>)
    requires NoDoubleHandout(trace) && LastTaken(trace, out)
    ensures NoDoubleHandout(trace + [Skipped]) && LastTaken(trace + [Skipped], out)
  {
    var t := trace + [Skipped];
    forall i, j | 0 <= i < j < |t| && t[i].Got? && t[i] == t[j]
      ensures exists k :: i < k < j && GaveAt(t, k, t[i].page)
    {
      var k :| i < k < j && GaveAt(trace, k, trace[i].page);
      GaveStays(trace, Skipped, k, trace[i].page);
    }
    forall i | 0 <= i < |t| && t[i].Got? && t[i].page !in out
      ensures exists k :: i < k < |t| && GaveAt(t, k, t[i].page)
    {
      var k :| i < k < |trace| && GaveAt(trace, k, trace[i].page);
      GaveStays(trace, Skipped, k, trace[i].page);
    }
  }

  lemma GiveBack(trace: seq<Done>, out: set<nat>, page: nat)
    requires NoDoubleHandout(trace) && LastTaken(trace, out)
    ensures NoDoubleHandout(trace + [Gave(page)]) && LastTaken(trace + [Gave(page)], out - {page})
  {
    var t := trace + [Gave(page)];
    forall i, j | 0 <= i < j < |t| && t[i].Got? && t[i] == t[j]
      ensures exists k :: i < k < j && GaveAt(t, k, t[i].page)
    {
      var k :| i < k < j && GaveAt(trace, k, trace[i].page);
      GaveStays(trace, Gave(page), k, trace[i].page);
    }
    forall i | 0 <= i < |t| && t[i].Got? && t[i].page !in out - {page}
      ensures exists k :: i < k < |t| && GaveAt(t, k, t[i].page)
    {
      if t[i].page == page {
        assert GaveAt(t, |trace|, page);
      } else {
        var k :| i < k < |trace| && GaveAt(trace, k, trace[i].page);
        GaveStays(trace, Gave(page), k, trace[i].page);
      }
    }
  }

  class PageAllocator {
    const words: array<Word>
    var ptr: nat

    ghost predicate Valid()
      reads this
    {
      words.Length == ENTRIES && ptr < ENTRIES
    }

    /** The set of free pages the bitmap stands for. */
    ghost function Free(): (s: set<nat>)
      requires words.Length == ENTRIES
      reads words
    {
      set p: nat | p < PAGES && words[p / 32][p % 32]
    }

    constructor (words: array<Word>, ptr: nat)
      requires words.Length == ENTRIES && ptr < ENTRIES
      ensures Valid() && this.words == words && this.ptr == ptr
    {
      this.words, this.ptr := words, ptr;
    }

    /**
     * `alloc_page`.  If any page is free, the search for a non-zero word ends (the cyclic
     * distance to one shrinks), the panic is not reached, and exactly one page leaves the set.
     */
    method Alloc() returns (page: nat)
      requires Valid() && Free() != {}
      modifies this`ptr, words
      ensures Valid() && page in old(Free()) && Free() == old(Free()) - {page}
    {
      ghost var some: nat :| some in Free();
      ghost var target := some / 32;
      while IsZero(words[ptr])
        invariant Valid() && words[..] == old(words[..]) && !IsZero(words[target])
        decreases if ptr <= target then target - ptr else target + ENTRIES - ptr
      {
        ptr := (ptr + 1) % ENTRIES;
      }
      for i := 0 to 32
        invariant Valid() && words[..] == old(words[..]) && !IsZero(words[ptr])
        invariant forall j :: 0 <= j < i ==> !words[ptr][j]
      {
        if words[ptr][i] {
          words[ptr] := words[ptr][i := false];
          page := ptr * 32 + i;
          return;
        }
      }
      assert false;
    }

    /** `free_page`: the page is free afterwards; it reports whether it was in use before. */
    method FreePage(page: nat) returns (ok: bool)
      requires Valid() && page < PAGES
      modifies words
      ensures Valid() && (ok <==> page !in old(Free())) && Free() == old(Free()) + {page}
    {
      if words[page / 32][page % 32] {
        return false;
      }
      words[page / 32] := words[page / 32][page % 32 := true];
      ok := true;
    }

    /** How many pages are free. */
    method CountFree() returns (n: nat)
      requires Valid()
      ensures n == |Free()|
    {
      n := 0;
      ghost var seen: set<nat> := {};
      for p := 0 to PAGES
        invariant seen == set q: nat | q < p && words[q / 32][q % 32]
        invariant n == |seen|
      {
        if words[p / 32][p % 32] {
          n, seen := n + 1, seen + {p};
        }
      }
      assert seen == Free();
    }

    /** One operation of a run, when `all` were free at the start and `out` are handed out. */
    method Perform(op: Op, out: set<nat>, ghost all: set<nat>) returns (d: Done, out': set<nat>)
      requires Valid() && Free() <= all && out == all - Free() && forall p :: p in all ==> p < PAGES
      modifies this`ptr, words
      ensures Valid() && Free() <= all && StepDone(all, old(Free()), op, d, Free())
      ensures (d.Got? ==> d.page !in out) && out' == OutAfter(out, d) == all - Free()
    {
      hide Free;
      d, out' := Skipped, out;
      if op.AllocOp? {
        var n := CountFree();
        if n > 0 {
          var page := Alloc();
          d, out' := Got(page), out + {page};
        }
      } else if op.page in out {
        var ok := FreePage(op.page);
        d, out' := Gave(op.page), out - {op.page};
      }
    }

    /**
     * Over any run of allocations and frees.  `trace` has the free pages before each operation and
     * at the end.  An allocation takes one free page and is left out exactly when there is none;
     * a free gives its page back and is left out exactly when the page is not out.  So free pages
     * and pages out make up the pages free at the start at every point, and between two hand-outs
     * of the same page there is a free of it.
     */
    method Run(ops: seq<Op>) returns (done: seq<Done>, out: set<nat>, ghost trace: seq<set<nat>>)
      requires Valid()
      modifies this`ptr, words
      ensures Valid() && Ran(ops, done, trace) && trace[0] == old(Free()) && trace[|ops|] == Free()
      ensures out == trace[0] - trace[|ops|] && NoDoubleHandout(done)
    {
      hide NoDoubleHandout, LastTaken, Ran, StepDone, OutAfter;
      done, out, trace := [], {}, [Free()];
      NothingYet(Free());
      ghost var all := Free();
      assert forall p :: p in all ==> p < PAGES;
      for k := 0 to |ops|
        invariant Valid() && |trace| == k + 1 && |done| == k && Ran(ops[..k], done, trace)
        invariant trace[0] == all && trace[k] == Free() <= all && out == all - Free()
        invariant NoDoubleHandout(done) && LastTaken(done, out)
      {
        hide Free;
        var d, out' := Perform(ops[k], out, all);
        HandedOn(done, out, d);
        out := out';
        RanOn(ops[..k], done, trace, ops[k], d, Free());
        assert ops[..k] + [ops[k]] == ops[..k + 1];
        done, trace := done + [d], trace + [Free()];
      }
      assert ops[..|ops|] == ops;
    }
  }
}
