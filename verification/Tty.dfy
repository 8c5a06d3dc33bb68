/** The terminal: a ring of typed characters with line editing (kernel/src/interrupt.c). */
module Tty {
  import opened Seqs

  const LEN: nat := 1024  // INPUT_BUFFER_LEN
  const U32: nat := 0x1_0000_0000
  const BACKSPACE: char := 8 as char

  function Slot(k: nat): (i: nat)
    ensures i < LEN
  {
    k % LEN
  }

  datatype Mode = Cooked | Raw | Scancode

  /** `tty_data`. */
  datatype State = State(mode: Mode, buf: seq<char>, readPtr: nat, writePtr: nat, internal: nat, left: bool,
                         right: bool)

  ghost predicate Ok(t: State) {
    |t.buf| == LEN && t.readPtr < LEN && t.writePtr < LEN && t.internal < LEN
  }

  /** One step back in 32-bit arithmetic, where 0 - 1 is the largest number. */
  function Back(internal: nat): (i: nat) {
    Slot((internal + U32 - 1) % U32)
  }

  function Store(t: State, c: char): (r: State)
    requires t.internal < |t.buf|
  {
    t.(buf := t.buf[t.internal := c], internal := Slot(t.internal + 1))
  }

  /** A character in cooked or raw mode. */
  function Typed(t: State, c: char): (r: State)
    requires Ok(t)
    ensures Ok(r) && r.mode == t.mode
  {
    if t.mode.Cooked? && c == BACKSPACE then
      if t.readPtr != t.internal then t.(internal := Back(t.internal)) else t
    else
      var r := Store(t, c);
      if t.mode.Raw? || c == '\n' then r.(writePtr := r.internal) else r
  }

  /** A code in scancode mode: the oldest one makes room. */
  function Scanned(t: State, code: char): (r: State)
    requires Ok(t)
    ensures Ok(r)
  {
    var r := Store(t, code);
    r.(writePtr := r.internal,
       readPtr := if Slot(r.internal + 1) == Slot(r.readPtr) then Slot(r.readPtr + 1) else r.readPtr)
  }

  function Shifted(t: State, code: nat): (r: State) {
    if code == 0x2A then t.(left := true)
    else if code == 0x36 then t.(right := true)
    else if code == 0xAA then t.(left := false)
    else if code == 0xB6 then t.(right := false)
    else t
  }

  /** The whole handler, for the given key tables; a zero entry is no character. */
  function Handled(t: State, plain: seq<char>, shift: seq<char>, code: nat): (r: State)
    requires Ok(t) && |plain| == |shift| == 128 && code < 256
    ensures Ok(r)
  {
    if t.mode.Scancode? then Scanned(t, code as char)
    else
      var s := Shifted(t, code);
      if code >= 128 || plain[code] == '\0' then s
      else
        var c := if s.left || s.right then shift[code] else plain[code];
        if c == '\0' then s else Typed(s, c)
  }

  /** The loop of a read from the terminal. */
  function ReadChars(t: State, target: nat): (r: (seq<char>, State))
    requires Ok(t)
    ensures Ok(r.1) && r.1 == t.(readPtr := r.1.readPtr) && |r.0| <= target
    decreases target
  {
    if target == 0 || t.readPtr == t.writePtr then ([], t)
    else
      var r := ReadChars(t.(readPtr := Slot(t.readPtr + 1)), target - 1);
      ([t.buf[t.readPtr]] + r.0, r.1)
  }

  // ------------------------------------------------------------- in-place form

  /** One round of the read loop, with what was read before it. */
  lemma ReadOne(t: State, target: nat, out: seq<char>)
    requires Ok(t) && target > 0 && t.readPtr != t.writePtr
    ensures var r, r' := ReadChars(t, target), ReadChars(t.(readPtr := Slot(t.readPtr + 1)), target - 1);
            out + r.0 == out + [t.buf[t.readPtr]] + r'.0 && r.1 == r'.1
  {
    AppendAssoc(out, [t.buf[t.readPtr]], ReadChars(t.(readPtr := Slot(t.readPtr + 1)), target - 1).0);
  }

  lemma ReadNone(t: State, target: nat)
    requires Ok(t) && (target == 0 || t.readPtr == t.writePtr)
    ensures ReadChars(t, target) == ([], t)
  {
  }

  class Terminal {
    const buf: array<char>
    const plain: seq<char>
    const shift: seq<char>
    var mode: Mode
    var readPtr: nat
    var writePtr: nat
    var internal: nat
    var left: bool
    var right: bool

    ghost function View(): (t: State)
      reads this, buf
    {
      State(mode, buf[..], readPtr, writePtr, internal, left, right)
    }

    ghost predicate Valid()
      reads this, buf
    {
      Ok(View()) && |plain| == |shift| == 128
    }

    constructor (buf: array<char>, plain: seq<char>, shift: seq<char>)
      requires buf.Length == LEN && |plain| == |shift| == 128
      ensures Valid() && View() == State(Cooked, buf[..], 0, 0, 0, false, false)
    {
      this.buf, this.plain, this.shift := buf, plain, shift;
      mode, readPtr, writePtr, internal, left, right := Cooked, 0, 0, 0, false, false;
    }

    /** `keyboard_interrupt_handler_inner`, once a scancode has arrived. */
    method Key(code: nat)
      requires Valid() && code < 256
      modifies this, buf
      ensures Valid() && View() == Handled(old(View()), plain, shift, code)
    {
      if mode == Scancode {
        buf[internal] := code as char;
        internal := (internal + 1) % LEN;
        writePtr := internal;
        if (internal + 1) % LEN == readPtr % LEN {
          readPtr := (readPtr + 1) % LEN;
        }
      } else {
        if code == 0x2A {
          left := true;
        } else if code == 0x36 {
          right := true;
        } else if code == 0xAA {
          left := false;
        } else if code == 0xB6 {
          right := false;
        }
        if code < 128 && plain[code] != '\0' {
          var c := if left || right then shift[code] else plain[code];
          if c != '\0' {
            Type(c);
          }
        }
      }
    }

    method Type(c: char)
      requires Valid()
      modifies this`writePtr, this`internal, buf
      ensures Valid() && View() == Typed(old(View()), c)
    {
      if mode == Cooked && c == BACKSPACE {
        if readPtr != internal {
          internal := (internal + U32 - 1) % U32 % LEN;
        }
        return;
      }
      buf[internal] := c;
      internal := (internal + 1) % LEN;
      if mode == Raw || c == '\n' {
        writePtr := internal;
      }
    }

    /** The loop of a read from standard input, after the reader was woken if it slept. */
    method Read(target: nat) returns (out: seq<char>)
      requires Valid()
      modifies this`readPtr
      ensures Valid() && (out, View()) == ReadChars(old(View()), target)
    {
      hide Slot, ReadChars;
      out := [];
      var count := 0;
      AppendNone(ReadChars(View(), target).0);
      while count < target && readPtr != writePtr
        invariant Valid() && count == |out| <= target
        invariant var r := ReadChars(View(), target - count); (out + r.0, r.1) == ReadChars(old(View()), target)
      {
        ReadOne(View(), target - count, out);
        ghost var t := View();
        out := out + [buf[readPtr]];
        readPtr := Slot(readPtr + 1);
        count := count + 1;
        assert View() == t.(readPtr := Slot(t.readPtr + 1));
      }
      ReadNone(View(), target - count);
      AppendNone(out);
    }
  }

  // -------------------------------------------------------- what can be read

  /** The ring holds exactly `s` for readers, from serial number `base` on. */
  ghost predicate Holds(t: State, base: nat, s: seq<char>) {
    && Ok(t) && |s| < LEN && t.readPtr == Slot(base) && t.writePtr == Slot(base + |s|)
    && forall k :: 0 <= k < |s| ==> t.buf[Slot(base + k)] == s[k]
  }

  lemma SameSlot(a: nat, b: nat)
    requires a <= b < a + LEN
    ensures Slot(a) == Slot(b) <==> a == b
  {
  }

  lemma SlotAfter(a: nat)
    ensures Slot(Slot(a) + 1) == Slot(a + 1) && Slot(Slot(a)) == Slot(a) && Slot(a + LEN) == Slot(a)
    ensures Back(Slot(a + 1)) == Slot(a)
  {
    var q, r := a / LEN, a % LEN;
    SlotIs(a + LEN, q + 1, r);
    SlotIs(r, 0, r);
    if r + 1 < LEN {
      SlotIs(a + 1, q, r + 1);
      SlotIs(r + 1, 0, r + 1);
    } else {
      SlotIs(a + 1, q + 1, 0);
      SlotIs(r + 1, 1, 0);
    }
    BackIs(r);
  }

  lemma SlotIs(k: nat, q: nat, r: nat)
    requires k == q * LEN + r && r < LEN
    ensures Slot(k) == r
  {
  }

  lemma BackIs(r: nat)
    requires r < LEN
    ensures Back(if r + 1 < LEN then r + 1 else 0) == r
  {
    if r + 1 < LEN {
      assert (r + 1 + U32 - 1) % U32 == r;
      SlotIs(r, 0, r);
    } else {
      assert (U32 - 1) % U32 == U32 - 1 == (U32 / LEN - 1) * LEN + r;
      SlotIs(U32 - 1, U32 / LEN - 1, r);
    }
  }

  /** A read takes from the front, in order. */
  lemma {:induction false} ReadHolds(t: State, base: nat, s: seq<char>, target: nat)
    requires Holds(t, base, s)
    ensures var n := if target <= |s| then target else |s|;
            ReadChars(t, target).0 == s[..n] && Holds(ReadChars(t, target).1, base + n, s[n..])
    decreases target
  {
    hide Slot, ReadChars;
    SameSlot(base, base + |s|);
    if target > 0 && s != [] {
      var t' := t.(readPtr := Slot(t.readPtr + 1));
      RestHeld(t, base, s);
      hide Holds;
      ReadHolds(t', base + 1, s[1..], target - 1);
      ReadOne(t, target, []);
      AppendNone(ReadChars(t, target).0);
      AppendNone([t.buf[t.readPtr]]);
      SplitAfterFirst(s, if target <= |s| then target else |s|);
    } else {
      ReadNone(t, target);
      assert s[..0] == [] && s[0..] == s;
    }
  }

  lemma RestHeld(t: State, base: nat, s: seq<char>)
    requires Holds(t, base, s) && s != []
    ensures Holds(t.(readPtr := Slot(t.readPtr + 1)), base + 1, s[1..]) && t.buf[t.readPtr] == s[0]
  {
    hide Slot;
    SlotAfter(base);
    assert Slot(base + 0) == Slot(base);
    assert base + 1 + |s[1..]| == base + |s|;
    forall k | 0 <= k < |s[1..]| ensures t.buf[Slot(base + 1 + k)] == s[1..][k] {
      assert base + 1 + k == base + (k + 1);
    }
  }

  // ---------------------------------------------------------------- one line

  /** Cooked mode, nothing unread and nothing pending: a line starts at serial number `base`. */
  ghost predicate LineStart(t: State, base: nat) {
    t.mode.Cooked? && Ok(t) && t.readPtr == t.writePtr == t.internal == Slot(base)
  }

  /** The keys, with each backspace taking off the last character that is left. */
  ghost function Edited(keys: seq<char>): (s: seq<char>)
    ensures |s| <= |keys|
  {
    if keys == [] then []
    else
      var s, c := Edited(keys[..|keys| - 1]), keys[|keys| - 1];
      if c != BACKSPACE then s + [c] else if s == [] then [] else s[..|s| - 1]
  }

  /** The pending length the ring can tell: a count that starts again from 0 at its capacity. */
  function Depth(keys: seq<char>): (d: nat)
    ensures d < LEN
  {
    if keys == [] then 0
    else
      var d := Depth(keys[..|keys| - 1]);
      if keys[|keys| - 1] != BACKSPACE then Slot(d + 1) else if d == 0 then 0 else d - 1
  }

  ghost function TypeAll(t: State, keys: seq<char>): (r: State)
    requires Ok(t)
    ensures Ok(r) && r.mode == t.mode
  {
    if keys == [] then t else Typed(TypeAll(t, keys[..|keys| - 1]), keys[|keys| - 1])
  }

  /** What is pending in the ring while a line is typed. */
  ghost predicate Pending(t: State, base: nat, depth: nat, s: seq<char>) {
    && Ok(t) && t.mode.Cooked? && depth < LEN
    && t.readPtr == t.writePtr == Slot(base) && t.internal == Slot(base + depth)
    && (depth == |s| ==> forall k :: 0 <= k < depth ==> t.buf[Slot(base + k)] == s[k])
  }

  /** A character in its place. */
  lemma PushPending(t: State, base: nat, d: nat, s: seq<char>, c: char)
    requires Pending(t, base, d, s) && c != BACKSPACE && c != '\n'
    ensures Pending(Typed(t, c), base, Slot(d + 1), s + [c])
  {
    hide Slot;
    var t' := Typed(t, c);
    NextDepth(base, d);
    if Slot(d + 1) == |s + [c]| {
      assert d == |s| by { DepthStep(d); }
      forall k | 0 <= k < Slot(d + 1) ensures t'.buf[Slot(base + k)] == (s + [c])[k] {
        SameSlot(base + k, base + d);
      }
    }
  }

  lemma DepthStep(d: nat)
    requires d < LEN
    ensures Slot(d + 1) == if d + 1 == LEN then 0 else d + 1
  {
  }

  lemma NextDepth(base: nat, d: nat)
    requires d < LEN
    ensures Slot(Slot(base + d) + 1) == Slot(base + Slot(d + 1))
  {
  }

  /** A backspace, at any place of the ring including its start. */
  lemma PopPending(t: State, base: nat, d: nat, s: seq<char>)
    requires Pending(t, base, d, s)
    ensures Pending(Typed(t, BACKSPACE), base, if d == 0 then 0 else d - 1, if s == [] then [] else s[..|s| - 1])
  {
    hide Slot, Back;
    SameSlot(base, base + d);
    if d > 0 {
      SlotAfter(base + d - 1);
    }
  }

  lemma {:induction false} TypingPending(t: State, base: nat, keys: seq<char>)
    requires LineStart(t, base) && '\n' !in keys
    ensures Pending(TypeAll(t, keys), base, Depth(keys), Edited(keys))
    decreases |keys|
  {
    if keys == [] {
      assert Slot(base + 0) == Slot(base);
    } else {
      hide Pending, Slot, Typed;
      var front, c := keys[..|keys| - 1], keys[|keys| - 1];
      TypingPending(t, base, front);
      if c == BACKSPACE {
        PopPending(TypeAll(t, front), base, Depth(front), Edited(front));
      } else {
        PushPending(TypeAll(t, front), base, Depth(front), Edited(front), c);
      }
    }
  }

  /** The newline commits the pending line; at full depth it makes the ring look empty. */
  lemma Commit(t: State, base: nat, d: nat, s: seq<char>)
    requires Pending(t, base, d, s)
    ensures var t' := Typed(t, '\n');
            && t'.writePtr == t'.internal == Slot(base + Slot(d + 1)) && t'.mode.Cooked?
            && (d == |s| && d + 1 < LEN ==> Holds(t', base, s + ['\n']))
            && (d + 1 == LEN ==> Holds(t', base, []))
  {
    hide Slot;
    NextDepth(base, d);
    DepthStep(d);
    var t' := Typed(t, '\n');
    if d + 1 < LEN && d == |s| {
      forall k | 0 <= k < |s| + 1 ensures t'.buf[Slot(base + k)] == (s + ['\n'])[k] {
        SameSlot(base + k, base + d);
      }
    }
  }

  /** How much a read gives, whatever the ring holds. */
  lemma {:induction false} ReadLength(t: State, base: nat, n: nat, target: nat)
    requires Ok(t) && n < LEN && t.readPtr == Slot(base) && t.writePtr == Slot(base + n)
    ensures |ReadChars(t, target).0| == if target <= n then target else n
    decreases target
  {
    hide Slot;
    SameSlot(base, base + n);
    SlotAfter(base);
    if target > 0 && n > 0 {
      assert base + 1 + (n - 1) == base + n;
      ReadLength(t.(readPtr := Slot(t.readPtr + 1)), base + 1, n - 1, target - 1);
    }
  }

  /**
   * The line a reader gets.  From any place in the ring, the reader gets the edited line and its
   * newline when the ring did not lose count of it and it is at most LEN - 2 characters, and then
   * the next line starts behind it; a reader with room for a whole ring gets it only then.
   */
  lemma LineRead(t: State, base: nat, keys: seq<char>, target: nat)
    requires LineStart(t, base) && '\n' !in keys && target > |Edited(keys)|
    ensures var r := ReadChars(Typed(TypeAll(t, keys), '\n'), target);
            && (Depth(keys) == |Edited(keys)| <= LEN - 2 ==>
                  r.0 == Edited(keys) + ['\n'] && LineStart(r.1, base + |Edited(keys)| + 1))
            && (target >= LEN && r.0 == Edited(keys) + ['\n'] ==> Depth(keys) == |Edited(keys)| <= LEN - 2)
            && (Depth(keys) == LEN - 1 ==> r.0 == [])
  {
    hide Slot, Depth, Edited, TypeAll, Typed, ReadChars, Holds;
    var d, s, t1 := Depth(keys), Edited(keys), TypeAll(t, keys);
    var t2 := Typed(t1, '\n');
    TypingPending(t, base, keys);
    Commit(t1, base, d, s);
    DepthStep(d);
    CommitKeepsReader(t1, '\n');
    ReadLength(t2, base, Slot(d + 1), target);
    if d == |s| && d + 1 < LEN {
      ReadHolds(t2, base, s + ['\n'], target);
      assert (s + ['\n'])[..|s| + 1] == s + ['\n'] && (s + ['\n'])[|s| + 1..] == [];
      ReadToEnd(t2, target, base + |s| + 1);
    }
  }

  lemma CommitKeepsReader(t: State, c: char)
    requires Ok(t)
    ensures Typed(t, c).readPtr == t.readPtr
  {
  }

  lemma ReadToEnd(t: State, target: nat, base: nat)
    requires Ok(t) && t.mode.Cooked? && t.writePtr == t.internal && Holds(ReadChars(t, target).1, base, [])
    ensures LineStart(ReadChars(t, target).1, base)
  {
    assert Slot(base + 0) == Slot(base);
  }

  /** The ring counts right as long as the line never gets longer than LEN - 1. */
  lemma {:induction false} DepthIsLength(keys: seq<char>)
    requires forall i :: 0 <= i <= |keys| ==> |Edited(keys[..i])| <= LEN - 1
    ensures Depth(keys) == |Edited(keys)|
    decreases |keys|
  {
    if keys != [] {
      var front := keys[..|keys| - 1];
      forall i | 0 <= i <= |front| ensures |Edited(front[..i])| <= LEN - 1 {
        assert front[..i] == keys[..i];
      }
      assert |Edited(keys)| <= LEN - 1 by {
        assert keys[..|keys|] == keys;
      }
      assert Depth(front) == |Edited(front)| by {
        hide Edited;
        DepthIsLength(front);
      }
      OneKeyDeeper(keys, Depth(front), Edited(front));
    }
  }

  lemma OneKeyDeeper(keys: seq<char>, d: nat, s: seq<char>)
    requires keys != [] && d == Depth(keys[..|keys| - 1]) == |s| && s == Edited(keys[..|keys| - 1])
    requires |Edited(keys)| <= LEN - 1
    ensures Depth(keys) == |Edited(keys)|
  {
    DepthStep(d);
    hide Slot;
  }

  /** Lines typed and read one after the other. */
  ghost function Session(t: State, lines: seq<seq<char>>, target: nat): (out: seq<seq<char>>)
    requires Ok(t)
    decreases |lines|
  {
    if lines == [] then []
    else
      var r := ReadChars(Typed(TypeAll(t, lines[0]), '\n'), target);
      [r.0] + Session(r.1, lines[1..], target)
  }

  /** No line gets too long for the ring while it is typed. */
  ghost predicate Fits(keys: seq<char>) {
    '\n' !in keys && |Edited(keys)| <= LEN - 2 && forall i :: 0 <= i <= |keys| ==> |Edited(keys[..i])| <= LEN - 1
  }

  /** A reader who reads line by line gets every line as edited, however often the ring comes round. */
  lemma {:induction false} SessionReads(t: State, base: nat, lines: seq<seq<char>>, target: nat)
    requires LineStart(t, base) && target >= LEN && forall i :: 0 <= i < |lines| ==> Fits(lines[i])
    ensures |Session(t, lines, target)| == |lines|
    ensures forall i :: 0 <= i < |lines| ==> Session(t, lines, target)[i] == Edited(lines[i]) + ['\n']
    decreases |lines|
  {
    if lines != [] {
      hide Edited, Depth, TypeAll, Typed, ReadChars;
      DepthIsLength(lines[0]);
      LineRead(t, base, lines[0], target);
      var r := ReadChars(Typed(TypeAll(t, lines[0]), '\n'), target);
      SessionReads(r.1, base + |Edited(lines[0])| + 1, lines[1..], target);
    }
  }

  /** A backspace at the start of a line does nothing exactly when no earlier line is unread. */
  lemma BackspaceAtStart(t: State)
    requires Ok(t) && t.mode.Cooked? && t.internal == t.writePtr
    ensures Typed(t, BACKSPACE) == t <==> t.readPtr == t.writePtr
    ensures t.readPtr != t.writePtr ==> Slot(Typed(t, BACKSPACE).internal + 1) == t.writePtr
  {
  }

  // ------------------------------------------------------- raw and scancode mode

  /** Scancode mode keeps the last LEN - 2 codes. */
  lemma ScanHolds(t: State, base: nat, s: seq<char>, code: char)
    requires Holds(t, base, s) && t.internal == t.writePtr && |s| <= LEN - 2
    ensures Scanned(t, code).internal == Scanned(t, code).writePtr
    ensures if |s| < LEN - 2 then Holds(Scanned(t, code), base, s + [code])
            else Holds(Scanned(t, code), base + 1, s[1..] + [code])
  {
    hide Slot;
    StoreHolds(t, base, s, code);
    var u := Store(t, code);
    var u' := u.(writePtr := u.internal);
    SlotAfter(base + |s| + 1);
    SlotAfter(base);
    SameSlot(base + |s| + 2, base + LEN);
    if |s| == LEN - 2 {
      RestHeld(u', base, s + [code]);
      assert (s + [code])[1..] == s[1..] + [code];
    }
  }

  lemma StoreHolds(t: State, base: nat, s: seq<char>, c: char)
    requires Holds(t, base, s) && t.internal == t.writePtr && |s| <= LEN - 2
    ensures var u := Store(t, c);
            u.internal == Slot(base + |s| + 1) && Holds(u.(writePtr := u.internal), base, s + [c])
  {
    hide Slot;
    SlotAfter(base + |s|);
    var u := Store(t, c);
    forall k | 0 <= k < |s + [c]| ensures u.buf[Slot(base + k)] == (s + [c])[k] {
      SameSlot(base + k, base + |s|);
    }
  }

  /** Raw mode shows each key at once, until LEN - 1 are unread: one more and they are all lost. */
  lemma RawHolds(t: State, base: nat, s: seq<char>, c: char)
    requires Holds(t, base, s) && t.internal == t.writePtr && t.mode.Raw?
    ensures Typed(t, c).internal == Typed(t, c).writePtr
    ensures Holds(Typed(t, c), base, if |s| <= LEN - 2 then s + [c] else [])
  {
    hide Slot;
    if |s| <= LEN - 2 {
      StoreHolds(t, base, s, c);
    } else {
      SlotAfter(base + |s|);
      SlotAfter(base);
      assert base + |s| + 1 == base + LEN;
    }
  }

  // ------------------------------------------------------------------ shift keys

  ghost function HandleAll(t: State, plain: seq<char>, shift: seq<char>, codes: seq<nat>): (r: State)
    requires Ok(t) && |plain| == |shift| == 128 && forall i :: 0 <= i < |codes| ==> codes[i] < 256
    ensures Ok(r)
    decreases |codes|
  {
    if codes == [] then t
    else Handled(HandleAll(t, plain, shift, codes[..|codes| - 1]), plain, shift, codes[|codes| - 1])
  }

  /** A key is down if its last code was a press; `init` if there was none. */
  ghost function Down(codes: seq<nat>, press: nat, release: nat, init: bool): (b: bool)
    decreases |codes|
  {
    if codes == [] then init
    else
      var c := codes[|codes| - 1];
      if c == press then true else if c == release then false else Down(codes[..|codes| - 1], press, release, init)
  }

  /** Over any run of codes outside scancode mode, each shift flag says whether its key is down. */
  lemma {:induction false} ShiftTracked(t: State, plain: seq<char>, shift: seq<char>, codes: seq<nat>)
    requires Ok(t) && !t.mode.Scancode? && |plain| == |shift| == 128 && forall i :: 0 <= i < |codes| ==> codes[i] < 256
    ensures var r := HandleAll(t, plain, shift, codes);
            && r.mode == t.mode
            && r.left == Down(codes, 0x2A, 0xAA, t.left) && r.right == Down(codes, 0x36, 0xB6, t.right)
    decreases |codes|
  {
    if codes != [] {
      ShiftTracked(t, plain, shift, codes[..|codes| - 1]);
    }
  }

  /** So a character key types its shifted character exactly while a shift key is down. */
  lemma ShiftedTyping(t: State, plain: seq<char>, shift: seq<char>, codes: seq<nat>, code: nat)
    requires Ok(t) && !t.mode.Scancode? && |plain| == |shift| == 128 && forall i :: 0 <= i < |codes| ==> codes[i] < 256
    requires code < 128 && code !in {0x2A, 0x36} && plain[code] != '\0'
    ensures var down := Down(codes, 0x2A, 0xAA, t.left) || Down(codes, 0x36, 0xB6, t.right);
            var c := if down then shift[code] else plain[code];
            var r := HandleAll(t, plain, shift, codes);
            Handled(r, plain, shift, code) == if c == '\0' then r else Typed(r, c)
  {
    ShiftTracked(t, plain, shift, codes);
  }
}
