/** Pipes: a ring buffer that shows readers only whole lines (kernel/src/syscall.c). */
module Pipes {
  import opened Seqs

  const N: nat := 16384  // PIPE_BUF_SIZE

  /** Place in the ring of the byte with serial number `k`. */
  function Slot(k: nat): (i: nat)
    ensures i < N
  {
    k % N
  }

  /** One entry of `pipe_data` with its buffer. */
  datatype Pipe = Pipe(buf: seq<char>, readPtr: nat, writePtr: nat, internal: nat, refs: nat)

  // ------------------------------------------------------------------ writing

  predicate Full(p: Pipe) {
    Slot(p.internal + 1) == Slot(p.readPtr)
  }

  /**
   * The step of the internal write pointer: what the full test and the reader assume, or what
   * line 70 says, where `%` binds tighter than `+`.
   */
  function Next(wraps: bool, internal: nat): (n: nat) {
    if wraps then Slot(internal + 1) else internal + Slot(1)
  }

  function Put(wraps: bool, p: Pipe, c: char): (r: Pipe)
    requires p.internal < |p.buf|
  {
    var n := Next(wraps, p.internal);
    p.(buf := p.buf[p.internal := c], internal := n, writePtr := if c == '\n' then n else p.writePtr)
  }

  datatype Status = Done | Stopped | OutOfBounds

  /** The write loop: it stops at a full buffer; a store past the buffer is an outcome of its own. */
  function WriteBytes(wraps: bool, p: Pipe, bytes: seq<char>): (r: (Pipe, Status))
    decreases |bytes|
  {
    if bytes == [] then (p, Done)
    else if Full(p) then (p, Stopped)
    else if p.internal >= |p.buf| then (p, OutOfBounds)
    else WriteBytes(wraps, Put(wraps, p, bytes[0]), bytes[1..])
  }

  // ------------------------------------------------------------------ reading

  /** The read loop: up to `target` bytes, but not past the write pointer. */
  function ReadBytes(p: Pipe, target: nat): (r: (seq<char>, Pipe))
    requires p.readPtr < N == |p.buf|
    ensures r.1 == p.(readPtr := r.1.readPtr) && r.1.readPtr < N && |r.0| <= target
    decreases target
  {
    if target == 0 || p.readPtr == p.writePtr then ([], p)
    else
      var r := ReadBytes(p.(readPtr := Slot(p.readPtr + 1)), target - 1);
      ([p.buf[p.readPtr]] + r.0, r.1)
  }

  // ------------------------------------------------------------- in-place form

  /** One round of the read loop, with what was read before it. */
  lemma ReadOne(p: Pipe, target: nat, out: seq<char>)
    requires p.readPtr < N == |p.buf| && target > 0 && p.readPtr != p.writePtr
    ensures var r, r' := ReadBytes(p, target), ReadBytes(p.(readPtr := Slot(p.readPtr + 1)), target - 1);
            out + r.0 == out + [p.buf[p.readPtr]] + r'.0 && r.1 == r'.1
  {
    AppendAssoc(out, [p.buf[p.readPtr]], ReadBytes(p.(readPtr := Slot(p.readPtr + 1)), target - 1).0);
  }

  lemma ReadNone(p: Pipe, target: nat)
    requires p.readPtr < N == |p.buf| && (target == 0 || p.readPtr == p.writePtr)
    ensures ReadBytes(p, target) == ([], p)
  {
  }

  class PipeBuffer {
    const buf: array<char>
    const wraps: bool
    var readPtr: nat
    var writePtr: nat
    var internal: nat
    var refs: nat

    ghost predicate Valid()
      reads this
    {
      buf.Length == N && readPtr < N
    }

    ghost function View(): (p: Pipe)
      reads this, buf
    {
      Pipe(buf[..], readPtr, writePtr, internal, refs)
    }

    /** A fresh pipe: only the pointers are reset, the buffer holds what it held. */
    constructor (buf: array<char>, wraps: bool)
      requires buf.Length == N
      ensures Valid() && this.buf == buf && this.wraps == wraps && View() == Pipe(buf[..], 0, 0, 0, 2)
    {
      this.buf, this.wraps := buf, wraps;
      readPtr, writePtr, internal, refs := 0, 0, 0, 2;
    }

    method Write(bytes: seq<char>) returns (status: Status)
      requires Valid()
      modifies this`writePtr, this`internal, buf
      ensures Valid()
      ensures (View(), status) == if refs < 2 then (old(View()), Stopped) else WriteBytes(wraps, old(View()), bytes)
    {
      if refs < 2 {
        return Stopped;
      }
      for i := 0 to |bytes|
        invariant Valid() && WriteBytes(wraps, View(), bytes[i..]) == WriteBytes(wraps, old(View()), bytes)
      {
        assert bytes[i..][1..] == bytes[i + 1..];
        if (internal + 1) % N == readPtr % N {
          return Stopped;
        }
        if internal >= buf.Length {
          return OutOfBounds;
        }
        ghost var p := View();
        buf[internal] := bytes[i];
        internal := if wraps then (internal + 1) % N else internal + 1 % N;
        if bytes[i] == '\n' {
          writePtr := internal;
        }
        assert View() == Put(wraps, p, bytes[i]);
      }
      status := Done;
    }

    /** The loop of a read, at once or after the reader was woken. */
    method Read(target: nat) returns (out: seq<char>)
      requires Valid()
      modifies this`readPtr
      ensures Valid() && (out, View()) == ReadBytes(old(View()), target)
    {
      hide ReadBytes;
      out := [];
      var count := 0;
      AppendNone(ReadBytes(View(), target).0);
      while count < target && readPtr != writePtr
        invariant Valid() && count == |out| <= target
        invariant var r := ReadBytes(View(), target - count); (out + r.0, r.1) == ReadBytes(old(View()), target)
      {
        ReadOne(View(), target - count, out);
        out := out + [buf[readPtr]];
        readPtr := (readPtr + 1) % N;
        count := count + 1;
      }
      ReadNone(View(), target - count);
      AppendNone(out);
    }

    /** A read up to the point where it sleeps; when woken it goes on with `Read`. */
    method SysRead(target: nat) returns (a: Answer)
      requires Valid()
      modifies this`readPtr
      ensures Valid() && View() == old(View()).(readPtr := readPtr)
      ensures forall acc, taken: nat :: Sync(old(View()), acc, taken) ==>
                Answers(old(View()), acc, taken, target, a, View())
    {
      hide Sync, Lines, ReadBytes, Answers;
      ghost var p := View();
      if readPtr == writePtr {
        a := if refs < 2 then Closed else Blocks;
        forall acc, taken: nat | Sync(p, acc, taken) ensures Answers(p, acc, taken, target, a, p) {
          AnswersNothing(p, acc, taken, target);
        }
        return;
      }
      var out := Read(target);
      a := Bytes(out);
      forall acc, taken: nat | Sync(p, acc, taken) ensures Answers(p, acc, taken, target, a, View()) {
        AnswersBytes(p, acc, taken, target);
      }
    }
  }

  /** What a read finds at its start: bytes, a closed write end, or nothing yet (the reader sleeps). */
  datatype Answer = Bytes(out: seq<char>) | Closed | Blocks

  // ------------------------------------------------------------- the invariant

  /** Length of the part of `s` up to and including its last newline. */
  ghost function Lines(s: seq<char>): (n: nat)
    ensures n <= |s|
  {
    if s == [] then 0 else if s[|s| - 1] == '\n' then |s| else Lines(s[..|s| - 1])
  }

  /** The buffer stands for `acc`, all bytes accepted so far, of which the first `taken` were read. */
  ghost predicate Sync(p: Pipe, acc: seq<char>, taken: nat) {
    && |p.buf| == N && taken <= Lines(acc) && |acc| <= taken + N - 1
    && p.readPtr == Slot(taken) && p.writePtr == Slot(Lines(acc)) && p.internal == Slot(|acc|)
    && forall k :: taken <= k < |acc| ==> p.buf[Slot(k)] == acc[k]
  }

  lemma SameSlot(a: nat, b: nat)
    requires a <= b < a + N
    ensures Slot(a) == Slot(b) <==> a == b
  {
  }

  lemma SlotAfter(a: nat)
    ensures Slot(Slot(a) + 1) == Slot(a + 1) && Slot(Slot(a)) == Slot(a) && Slot(a + N) == Slot(a)
  {
    var q, r := a / N, a % N;
    SlotIs(a + N, q + 1, r);
    SlotIs(r, 0, r);
    if r + 1 < N {
      SlotIs(a + 1, q, r + 1);
      SlotIs(r + 1, 0, r + 1);
    } else {
      SlotIs(a + 1, q + 1, 0);
      SlotIs(r + 1, 1, 0);
    }
  }

  lemma SlotIs(k: nat, q: nat, r: nat)
    requires k == q * N + r && r < N
    ensures Slot(k) == r
  {
  }

  /** The two steps agree exactly as long as the end of the buffer is not reached. */
  lemma NextAgrees(n: nat)
    requires n < N
    ensures Next(true, Slot(n)) == Slot(n + 1)
    ensures Next(false, Slot(n)) == n + 1
    ensures Next(false, Slot(n)) == Slot(n + 1) <==> n + 1 < N
  {
  }

  lemma NextIs(wraps: bool, n: nat)
    requires wraps || n + 1 < N
    ensures Next(wraps, Slot(n)) == Slot(n + 1)
  {
  }

  lemma LinesAfter(s: seq<char>, c: char)
    ensures Lines(s + [c]) == if c == '\n' then |s| + 1 else Lines(s)
  {
    assert (s + [c])[..|s|] == s;
  }

  lemma FullSync(p: Pipe, acc: seq<char>, taken: nat)
    requires Sync(p, acc, taken)
    ensures Full(p) <==> |acc| == taken + N - 1
  {
    SlotAfter(|acc|);
    SlotAfter(taken);
    SameSlot(|acc| + 1, taken + N);
  }

  lemma PutSync(wraps: bool, p: Pipe, acc: seq<char>, taken: nat, c: char)
    requires Sync(p, acc, taken) && (wraps || |acc| + 1 < N) && |acc| < taken + N - 1
    ensures Sync(Put(wraps, p, c), acc + [c], taken)
  {
    hide Slot, Lines;
    NextIs(wraps, |acc|);
    LinesAfter(acc, c);
    hide Next;
    var p' := Put(wraps, p, c);
    forall k | taken <= k < |acc + [c]| ensures p'.buf[Slot(k)] == (acc + [c])[k] {
      SameSlot(k, |acc|);
    }
  }

  /** How much of a write fits. */
  function Room(acc: nat, taken: nat, len: nat): (n: nat)
    requires taken <= acc <= taken + N - 1
  {
    var free := N - 1 - (acc - taken);
    if len <= free then len else free
  }

  lemma InBuffer(p: Pipe, acc: seq<char>, taken: nat)
    requires Sync(p, acc, taken)
    ensures p.internal < N == |p.buf| && p.readPtr < N && taken <= Lines(acc) && taken <= |acc| <= taken + N - 1
    ensures forall c :: Put(true, p, c).refs == p.refs && Put(false, p, c).refs == p.refs
  {
  }

  /** A write appends what fits, and says whether all of it did. */
  lemma {:induction false} WriteSync(wraps: bool, p: Pipe, acc: seq<char>, taken: nat, bytes: seq<char>)
    requires Sync(p, acc, taken) && (wraps || |acc| + Room(|acc|, taken, |bytes|) < N)
    ensures var n := Room(|acc|, taken, |bytes|);
            var r := WriteBytes(wraps, p, bytes);
            && Sync(r.0, acc + bytes[..n], taken) && r.0.refs == p.refs
            && r.1 == if n == |bytes| then Done else Stopped
    decreases |bytes|
  {
    hide Sync, Full, Put, Slot;
    InBuffer(p, acc, taken);
    FullSync(p, acc, taken);
    var n := Room(|acc|, taken, |bytes|);
    if bytes == [] || n == 0 {
      assert acc + bytes[..n] == acc;
    } else {
      PutSync(wraps, p, acc, taken, bytes[0]);
      WriteSync(wraps, Put(wraps, p, bytes[0]), acc + [bytes[0]], taken, bytes[1..]);
      assert acc + [bytes[0]] + bytes[1..][..n - 1] == acc + bytes[..n];
    }
  }

  ghost predicate ReadGives(p: Pipe, acc: seq<char>, taken: nat, target: nat)
    requires Sync(p, acc, taken)
  {
    var r := ReadBytes(p, target);
    var n := if target <= Lines(acc) - taken then target else Lines(acc) - taken;
    r.0 == acc[taken..taken + n] && Sync(r.1, acc, taken + n)
  }

  lemma NothingPending(p: Pipe, acc: seq<char>, taken: nat)
    requires Sync(p, acc, taken)
    ensures p.readPtr == p.writePtr <==> taken == Lines(acc)
  {
    hide Slot, Lines;
    SameSlot(taken, Lines(acc));
  }

  /** A read delivers the next accepted bytes in order, none past the last newline. */
  lemma {:induction false} ReadSync(p: Pipe, acc: seq<char>, taken: nat, target: nat)
    requires Sync(p, acc, taken)
    ensures ReadGives(p, acc, taken, target)
    decreases target
  {
    hide Slot, Lines, Sync, ReadBytes;
    LinesBound(p, acc, taken);
    NothingPending(p, acc, taken);
    if target > 0 && taken < Lines(acc) {
      hide ReadGives;
      SyncAdvances(p, acc, taken);
      ReadSync(p.(readPtr := Slot(p.readPtr + 1)), acc, taken + 1, target - 1);
      GivesMore(p, acc, taken, target);
    } else {
      ReadNone(p, target);
    }
  }

  lemma GivesMore(p: Pipe, acc: seq<char>, taken: nat, target: nat)
    requires Sync(p, acc, taken) && target > 0 && taken < Lines(acc) && p.readPtr != p.writePtr
    requires p.readPtr < N == |p.buf| && taken < |acc| && p.buf[p.readPtr] == acc[taken]
    requires Sync(p.(readPtr := Slot(p.readPtr + 1)), acc, taken + 1)
    requires ReadGives(p.(readPtr := Slot(p.readPtr + 1)), acc, taken + 1, target - 1)
    ensures ReadGives(p, acc, taken, target)
  {
    hide Slot, Lines, Sync, ReadBytes;
    LinesBelow(acc);
    ReadOne(p, target, []);
    AppendNone(ReadBytes(p, target).0);
    AppendNone([p.buf[p.readPtr]]);
    SliceCons(acc, taken, if target <= Lines(acc) - taken then taken + target else Lines(acc));
  }

  lemma LinesBound(p: Pipe, acc: seq<char>, taken: nat)
    requires Sync(p, acc, taken)
    ensures taken <= Lines(acc) <= |acc| && p.readPtr < N == |p.buf|
  {
  }

  /** A reader that takes the next byte. */
  lemma SyncAdvances(p: Pipe, acc: seq<char>, taken: nat)
    requires Sync(p, acc, taken) && taken < Lines(acc)
    ensures taken < |acc| && p.readPtr < |p.buf| && p.buf[p.readPtr] == acc[taken]
    ensures Sync(p.(readPtr := Slot(p.readPtr + 1)), acc, taken + 1)
  {
    hide Slot, Lines;
    SlotAfter(taken);
  }

  /** What `sys_read` says when a reader that has had `taken` of the accepted bytes asks for `target` more. */
  ghost predicate Answers(p: Pipe, acc: seq<char>, taken: nat, target: nat, a: Answer, p': Pipe)
    requires Sync(p, acc, taken)
  {
    if taken == Lines(acc) then a == (if p.refs < 2 then Closed else Blocks) && p' == p
    else var n := if target <= Lines(acc) - taken then target else Lines(acc) - taken;
         a == Bytes(acc[taken..taken + n]) && Sync(p', acc, taken + n)
  }

  lemma AnswersNothing(p: Pipe, acc: seq<char>, taken: nat, target: nat)
    requires Sync(p, acc, taken) && p.readPtr == p.writePtr
    ensures Answers(p, acc, taken, target, if p.refs < 2 then Closed else Blocks, p)
  {
    hide Sync, Lines;
    NothingPending(p, acc, taken);
  }

  lemma AnswersBytes(p: Pipe, acc: seq<char>, taken: nat, target: nat)
    requires Sync(p, acc, taken) && p.readPtr != p.writePtr
    ensures p.readPtr < N == |p.buf|
    ensures Answers(p, acc, taken, target, Bytes(ReadBytes(p, target).0), ReadBytes(p, target).1)
  {
    hide Sync, Lines, ReadBytes;
    LinesBound(p, acc, taken);
    NothingPending(p, acc, taken);
    ReadSync(p, acc, taken, target);
  }

  // ---------------------------------------------------------------- every run

  /** What any process may do to the pipe, in any order; `Refs` is a change of its reference count. */
  datatype Op = Write(bytes: seq<char>) | Read(target: nat) | Refs(n: nat)

  /** The pipe with all bytes accepted and all bytes delivered so far; `Stray` after a store outside the buffer. */
  datatype Run = Run(p: Pipe, acc: seq<char>, out: seq<char>) | Stray

  /** Bytes stored between two states of a write. */
  ghost function Stored(wraps: bool, p: Pipe, bytes: seq<char>): (n: nat)
    ensures n <= |bytes|
    decreases |bytes|
  {
    if bytes == [] || Full(p) || p.internal >= |p.buf| then 0
    else 1 + Stored(wraps, Put(wraps, p, bytes[0]), bytes[1..])
  }

  ghost function Step(wraps: bool, r: Run, op: Op): (r': Run)
    requires r.Run? ==> r.p.readPtr < N == |r.p.buf|
    ensures r'.Run? ==> r'.p.readPtr < N == |r'.p.buf|
  {
    if r.Stray? then Stray
    else match op
      case Write(bytes) =>
        if r.p.refs < 2 then r
        else
          var w := WriteBytes(wraps, r.p, bytes);
          WriteKeeps(wraps, r.p, bytes);
          if w.1.OutOfBounds? then Stray
          else Run(w.0, r.acc + bytes[..Stored(wraps, r.p, bytes)], r.out)
      case Read(target) =>
        var d := ReadBytes(r.p, target);
        Run(d.1, r.acc, r.out + d.0)
      case Refs(n) => r.(p := r.p.(refs := n))
  }

  lemma {:induction false} WriteKeeps(wraps: bool, p: Pipe, bytes: seq<char>)
    ensures var w := WriteBytes(wraps, p, bytes).0;
            w.readPtr == p.readPtr && |w.buf| == |p.buf| && w.refs == p.refs
    decreases |bytes|
  {
    if bytes != [] && !Full(p) && p.internal < |p.buf| {
      WriteKeeps(wraps, Put(wraps, p, bytes[0]), bytes[1..]);
    }
  }

  ghost function RunAll(wraps: bool, r: Run, ops: seq<Op>): (r': Run)
    requires r.Run? ==> r.p.readPtr < N == |r.p.buf|
    decreases |ops|
  {
    if ops == [] then r else RunAll(wraps, Step(wraps, r, ops[0]), ops[1..])
  }

  /** The state the theorems are about: what was delivered is the front of what was accepted. */
  ghost predicate Fifo(r: Run) {
    r.Run? && r.out <= r.acc && Sync(r.p, r.acc, |r.out|)
  }

  lemma {:induction false} StoredIsRoom(wraps: bool, p: Pipe, acc: seq<char>, taken: nat, bytes: seq<char>)
    requires Sync(p, acc, taken) && (wraps || |acc| + Room(|acc|, taken, |bytes|) < N)
    ensures Stored(wraps, p, bytes) == Room(|acc|, taken, |bytes|)
    decreases |bytes|
  {
    hide Sync, Full, Put, Slot;
    InBuffer(p, acc, taken);
    FullSync(p, acc, taken);
    if bytes != [] && Room(|acc|, taken, |bytes|) > 0 {
      PutSync(wraps, p, acc, taken, bytes[0]);
      StoredIsRoom(wraps, Put(wraps, p, bytes[0]), acc + [bytes[0]], taken, bytes[1..]);
    }
  }

  ghost function Fresh(buf: seq<char>): (r: Run) {
    Run(Pipe(buf, 0, 0, 0, 2), [], [])
  }

  /** One operation keeps the order; without wrapping, as long as the end of the buffer is not reached. */
  lemma StepFifo(wraps: bool, r: Run, op: Op)
    requires Fifo(r) && r.p.readPtr < N == |r.p.buf|
    requires wraps || (op.Write? ==> |r.acc| + Room(|r.acc|, |r.out|, |op.bytes|) < N)
    ensures Fifo(Step(wraps, r, op)) && r.acc <= Step(wraps, r, op).acc && r.out <= Step(wraps, r, op).out
  {
    hide Lines, Slot, WriteBytes, ReadBytes, Stored, Room;
    match op
    case Write(bytes) =>
      WriteSync(wraps, r.p, r.acc, |r.out|, bytes);
      StoredIsRoom(wraps, r.p, r.acc, |r.out|, bytes);
    case Read(target) =>
      ReadSync(r.p, r.acc, |r.out|, target);
    case Refs(n) =>
      assert Sync(r.p.(refs := n), r.acc, |r.out|);
  }

  /**
   * First in, first out.  With the wrapped step, over any interleaving of writers and readers, no
   * store strays, the bytes delivered are a prefix of the bytes accepted, and they end no later
   * than the last newline accepted.
   */
  lemma {:induction false} FifoRun(r: Run, ops: seq<Op>)
    requires Fifo(r) && r.p.readPtr < N == |r.p.buf|
    ensures var r' := RunAll(true, r, ops);
            && Fifo(r') && r'.out <= r'.acc && |r'.out| <= Lines(r'.acc)
            && r.acc <= r'.acc && r.out <= r'.out
    decreases |ops|
  {
    hide Sync, Step, Lines;
    if ops != [] {
      StepFifo(true, r, ops[0]);
      FifoRun(Step(true, r, ops[0]), ops[1..]);
    } else {
      InBuffer(r.p, r.acc, |r.out|);
    }
  }

  /** The same from `sys_pipe` on: a pipe that has just been made, whatever its buffer held. */
  lemma FreshFifoRun(buf: seq<char>, ops: seq<Op>)
    requires |buf| == N
    ensures var r := RunAll(true, Fresh(buf), ops); r.Run? && r.out <= r.acc && |r.out| <= Lines(r.acc)
  {
    FifoRun(Fresh(buf), ops);
  }

  // ------------------------------------------------------- line 70 as written

  /** The write pointer has left the buffer. */
  ghost predicate Lost(r: Run) {
    r.Stray? || r.p.internal >= N
  }

  /** Nothing brings it back. */
  lemma LostStays(r: Run, op: Op)
    requires Lost(r) && (r.Run? ==> r.p.readPtr < N == |r.p.buf|)
    ensures Lost(Step(false, r, op))
  {
  }

  /** The two forms of a write agree, or the one as written loses the buffer. */
  lemma {:induction false} WriteAgrees(p: Pipe, acc: seq<char>, taken: nat, bytes: seq<char>)
    requires Sync(p, acc, taken) && |acc| < N
    ensures if |acc| + Room(|acc|, taken, |bytes|) < N
            then WriteBytes(false, p, bytes) == WriteBytes(true, p, bytes)
                && Stored(false, p, bytes) == Stored(true, p, bytes)
            else WriteBytes(false, p, bytes).1.OutOfBounds? || WriteBytes(false, p, bytes).0.internal >= N
    decreases |bytes|
  {
    hide Sync, Full, Slot;
    InBuffer(p, acc, taken);
    FullSync(p, acc, taken);
    if bytes != [] && Room(|acc|, taken, |bytes|) > 0 {
      AtSlot(p, acc, taken);
      NextAgrees(|acc|);
      hide Next;
      if |acc| + 1 < N {
        PutSync(true, p, acc, taken, bytes[0]);
        WriteAgrees(Put(true, p, bytes[0]), acc + [bytes[0]], taken, bytes[1..]);
      }
    }
  }

  lemma AtSlot(p: Pipe, acc: seq<char>, taken: nat)
    requires Sync(p, acc, taken)
    ensures p.internal == Slot(|acc|)
  {
  }

  lemma StepAgrees(r: Run, op: Op)
    requires Fifo(r) && |r.acc| < N && r.p.readPtr < N == |r.p.buf|
    ensures var r' := Step(true, r, op);
            if r'.Run? && |r'.acc| < N then Step(false, r, op) == r' else Lost(Step(false, r, op))
  {
    hide Sync, Slot, WriteBytes, ReadBytes, Room, Stored;
    if op.Write? {
      WriteAgrees(r.p, r.acc, |r.out|, op.bytes);
      StoredIsRoom(true, r.p, r.acc, |r.out|, op.bytes);
      WriteSync(true, r.p, r.acc, |r.out|, op.bytes);
    }
  }

  lemma {:induction false} LostForever(r: Run, ops: seq<Op>)
    requires Lost(r) && (r.Run? ==> r.p.readPtr < N == |r.p.buf|)
    ensures Lost(RunAll(false, r, ops))
    decreases |ops|
  {
    hide Step;
    if ops != [] {
      LostStays(r, ops[0]);
      LostForever(Step(false, r, ops[0]), ops[1..]);
    }
  }

  /**
   * Line 70 as written gives the same run as the wrapped step exactly when fewer than
   * PIPE_BUF_SIZE bytes are accepted over the life of the pipe.
   */
  lemma {:induction false} LiteralAgrees(r: Run, ops: seq<Op>)
    requires Fifo(r) && |r.acc| < N && r.p.readPtr < N == |r.p.buf|
    ensures var r' := RunAll(true, r, ops);
            r'.Run? && (RunAll(false, r, ops) == r' <==> |r'.acc| < N)
    decreases |ops|
  {
    hide Step, Sync, Lines;
    if ops != [] {
      var r1 := Step(true, r, ops[0]);
      StepFifo(true, r, ops[0]);
      StepAgrees(r, ops[0]);
      if |r1.acc| < N {
        LiteralAgrees(r1, ops[1..]);
      } else {
        FifoRun(r1, ops[1..]);
        LostForever(Step(false, r, ops[0]), ops[1..]);
        var r' := RunAll(true, r, ops);
        InBuffer(r'.p, r'.acc, |r'.out|);
      }
    }
  }

  lemma FreshLiteralAgrees(buf: seq<char>, ops: seq<Op>)
    requires |buf| == N
    ensures var r := RunAll(true, Fresh(buf), ops);
            r.Run? && (RunAll(false, Fresh(buf), ops) == r <==> |r.acc| < N)
  {
    LiteralAgrees(Fresh(buf), ops);
  }

  /** With the write pointer at the end of the buffer the reader never catches up with it. */
  lemma {:induction false} ReadsForever(p: Pipe, target: nat)
    requires p.readPtr < N == |p.buf| && p.writePtr >= N
    ensures |ReadBytes(p, target).0| == target
    decreases target
  {
    if target > 0 {
      ReadsForever(p.(readPtr := Slot(p.readPtr + 1)), target - 1);
    }
  }

  /** What goes wrong: a newline in the last place makes a reader get bytes nobody wrote. */
  lemma LastPlaceNewline(p: Pipe, acc: seq<char>, taken: nat, target: nat)
    requires Sync(p, acc, taken) && |acc| == N - 1 && taken > 0 && target > N - taken
    ensures !Full(p) && var out := ReadBytes(Put(false, p, '\n'), target).0; !(out <= (acc + ['\n'])[taken..])
  {
    FullSync(p, acc, taken);
    AtSlot(p, acc, taken);
    NextAgrees(|acc|);
    InBuffer(p, acc, taken);
    ReadsForever(Put(false, p, '\n'), target);
  }

  // --------------------------------------------- what a literal run delivers

  /** With line 70 as written the accepted bytes lie in the buffer from its start on. */
  ghost predicate Flat(p: Pipe, acc: seq<char>) {
    && |p.buf| == N && |acc| <= N && p.readPtr < N && p.internal == |acc| && p.writePtr == Lines(acc)
    && forall k :: 0 <= k < |acc| ==> p.buf[k] == acc[k]
  }

  /** The bytes delivered run through the buffer again and again; before its end is a line's end they stop there. */
  ghost predicate Delivered(p: Pipe, acc: seq<char>, out: seq<char>) {
    && p.readPtr == Slot(|out|) && (Lines(acc) < N ==> |out| <= Lines(acc))
    && forall i :: 0 <= i < |out| ==> Slot(i) < |acc| && out[i] == acc[Slot(i)]
  }

  ghost predicate LiteralOk(r: Run) {
    r.Run? ==> Flat(r.p, r.acc) && Delivered(r.p, r.acc, r.out)
  }

  /** The write runs off the buffer: it has more bytes than places are left, and neither full test stops it. */
  predicate Strays(p: Pipe, accepted: nat, count: nat) {
    accepted + count > N && p.readPtr != 1 && (accepted == N || p.readPtr != 0)
  }

  lemma FlatPut(p: Pipe, acc: seq<char>, c: char)
    requires Flat(p, acc) && |acc| < N
    ensures p.internal < |p.buf| && Flat(Put(false, p, c), acc + [c]) && Put(false, p, c).readPtr == p.readPtr
  {
    hide Lines;
    LinesAfter(acc, c);
    NextAgrees(|acc|);
  }

  /** The full test never holds before the last place. */
  lemma FlatFull(p: Pipe, acc: seq<char>, taken: nat)
    requires Flat(p, acc) && p.readPtr == Slot(taken) && (Lines(acc) < N ==> taken <= Lines(acc))
    ensures Full(p) <==> (|acc| == N - 1 && p.readPtr == 0) || (|acc| == N && p.readPtr == 1)
  {
  }

  /** Where a write stops: before the last place, behind it, outside the buffer, or with its last byte. */
  lemma {:induction false} FlatWrite(p: Pipe, acc: seq<char>, taken: nat, bytes: seq<char>)
    requires Flat(p, acc) && p.readPtr == Slot(taken) && (Lines(acc) < N ==> taken <= Lines(acc))
    ensures var w, n := WriteBytes(false, p, bytes), Stored(false, p, bytes);
            && (w.1.OutOfBounds? <==> Strays(p, |acc|, |bytes|))
            && (!w.1.OutOfBounds? ==> Flat(w.0, acc + bytes[..n]) && w.0.readPtr == p.readPtr)
            && Lines(acc) <= Lines(acc + bytes[..n])
    decreases |bytes|
  {
    hide Flat, Put, Lines, Full, Slot;
    FlatBounds(p, acc);
    FlatFull(p, acc, taken);
    if bytes == [] || Full(p) || |acc| == N {
      AppendNone(acc);
    } else {
      FlatPut(p, acc, bytes[0]);
      LinesAfter(acc, bytes[0]);
      LinesBelow(acc);
      FlatWrite(Put(false, p, bytes[0]), acc + [bytes[0]], taken, bytes[1..]);
      var n := Stored(false, p, bytes);
      SplitAfterFirst(bytes, n);
      AppendAssoc(acc, [bytes[0]], bytes[1..][..n - 1]);
    }
  }

  lemma FlatBounds(p: Pipe, acc: seq<char>)
    requires Flat(p, acc)
    ensures p.internal == |acc| <= N == |p.buf| && p.readPtr < N
  {
  }

  lemma LinesBelow(s: seq<char>)
    ensures Lines(s) <= |s|
  {
  }

  lemma DeliveredMore(p: Pipe, acc: seq<char>, out: seq<char>, p': Pipe, more: seq<char>)
    requires Delivered(p, acc, out) && p'.readPtr == p.readPtr && Lines(acc) <= Lines(acc + more)
    ensures Delivered(p', acc + more, out)
  {
    hide Slot, Lines;
  }

  /** One byte read. */
  lemma DeliveredOne(p: Pipe, acc: seq<char>, out: seq<char>)
    requires Flat(p, acc) && Delivered(p, acc, out) && p.readPtr != p.writePtr
    ensures p.readPtr < |p.buf|
    ensures Flat(p.(readPtr := Slot(p.readPtr + 1)), acc)
    ensures Delivered(p.(readPtr := Slot(p.readPtr + 1)), acc, out + [p.buf[p.readPtr]])
  {
    LinesBelow(acc);
    InFront(|out|, Lines(acc));
    SlotAfter(|out|);
    hide Slot, Lines;
  }

  lemma InFront(o: nat, n: nat)
    requires n <= N && Slot(o) != n && (n < N ==> o <= n)
    ensures Slot(o) < n && (n < N ==> o + 1 <= n)
  {
  }

  lemma {:induction false} FlatRead(p: Pipe, acc: seq<char>, out: seq<char>, target: nat)
    requires Flat(p, acc) && Delivered(p, acc, out)
    ensures p.readPtr < N == |p.buf|
    ensures var r := ReadBytes(p, target); Flat(r.1, acc) && Delivered(r.1, acc, out + r.0)
    decreases target
  {
    hide Flat, Delivered, Slot, ReadBytes;
    FlatBounds(p, acc);
    if target > 0 && p.readPtr != p.writePtr {
      DeliveredOne(p, acc, out);
      FlatRead(p.(readPtr := Slot(p.readPtr + 1)), acc, out + [p.buf[p.readPtr]], target - 1);
      ReadOne(p, target, out);
    } else {
      ReadNone(p, target);
      AppendNone(out);
    }
  }

  /** One operation, as written: it strays exactly when the write does, and otherwise keeps the order of delivery. */
  lemma LiteralStep(r: Run, op: Op)
    requires r.Run? && LiteralOk(r) && r.p.readPtr < N == |r.p.buf|
    ensures LiteralOk(Step(false, r, op))
    ensures Step(false, r, op).Stray? <==> op.Write? && r.p.refs >= 2 && Strays(r.p, |r.acc|, |op.bytes|)
  {
    hide Flat, Delivered, WriteBytes, ReadBytes, Stored, Strays;
    match op
    case Write(bytes) =>
      DeliveredBounds(r.p, r.acc, r.out);
      FlatWrite(r.p, r.acc, |r.out|, bytes);
      if !WriteBytes(false, r.p, bytes).1.OutOfBounds? {
        DeliveredMore(r.p, r.acc, r.out, WriteBytes(false, r.p, bytes).0, bytes[..Stored(false, r.p, bytes)]);
      }
    case Read(target) => FlatRead(r.p, r.acc, r.out, target);
    case Refs(n) => RefsKeep(r.p, r.acc, r.out, n);
  }

  lemma DeliveredBounds(p: Pipe, acc: seq<char>, out: seq<char>)
    requires Delivered(p, acc, out)
    ensures p.readPtr == Slot(|out|) && (Lines(acc) < N ==> |out| <= Lines(acc))
  {
  }

  lemma RefsKeep(p: Pipe, acc: seq<char>, out: seq<char>, n: nat)
    requires Flat(p, acc) && Delivered(p, acc, out)
    ensures Flat(p.(refs := n), acc) && Delivered(p.(refs := n), acc, out)
  {
  }

  lemma {:induction false} LiteralKeeps(r: Run, ops: seq<Op>)
    requires LiteralOk(r) && (r.Run? ==> r.p.readPtr < N == |r.p.buf|)
    ensures LiteralOk(RunAll(false, r, ops))
    decreases |ops|
  {
    hide Step, LiteralOk;
    if ops != [] {
      if r.Run? {
        LiteralStep(r, ops[0]);
      } else {
        StrayStays(r, ops[0]);
      }
      LiteralKeeps(Step(false, r, ops[0]), ops[1..]);
    }
  }

  lemma StrayStays(r: Run, op: Op)
    requires r.Stray?
    ensures Step(false, r, op).Stray? && LiteralOk(Step(false, r, op))
  {
  }

  /**
   * First in, first out, on line 70 as written: over any run from a fresh pipe on that has not
   * strayed, at most PIPE_BUF_SIZE bytes are accepted in all, and what was delivered is a prefix
   * of them unless the very last place holds a newline and a reader has gone past it.
   */
  lemma LiteralFifo(buf: seq<char>, ops: seq<Op>)
    requires |buf| == N
    ensures var r := RunAll(false, Fresh(buf), ops);
            r.Run? ==>
              && |r.acc| <= N
              && (r.out <= r.acc <==> !(|r.acc| == N && r.acc[N - 1] == '\n' && |r.out| > N))
              && (r.out <= r.acc ==> |r.out| <= Lines(r.acc))
  {
    hide Step, RunAll;
    FreshLiteral(buf);
    LiteralKeeps(Fresh(buf), ops);
    var r := RunAll(false, Fresh(buf), ops);
    if r.Run? {
      LastLine(r.acc);
      PrefixWhen(r.p, r.acc, r.out);
    }
  }

  lemma FreshLiteral(buf: seq<char>)
    requires |buf| == N
    ensures LiteralOk(Fresh(buf))
  {
  }

  lemma LastLine(acc: seq<char>)
    requires |acc| <= N
    ensures Lines(acc) == N <==> |acc| == N && acc[N - 1] == '\n'
  {
    if acc != [] && acc[|acc| - 1] != '\n' {
      LinesBelow(acc[..|acc| - 1]);
    }
  }

  lemma PrefixWhen(p: Pipe, acc: seq<char>, out: seq<char>)
    requires Flat(p, acc) && Delivered(p, acc, out)
    ensures out <= acc <==> !(Lines(acc) == N && |out| > N)
    ensures out <= acc ==> |out| <= Lines(acc)
  {
    hide Lines, Slot;
    LinesBelow(acc);
    if |out| <= |acc| {
      forall i | 0 <= i < |out| ensures out[i] == acc[i] {
        SmallSlot(i);
      }
    }
  }

  lemma SmallSlot(i: nat)
    requires i < N
    ensures Slot(i) == i
  {
  }
}
