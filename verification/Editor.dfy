/** The line editor: a doubly linked list of lines with a cursor (user/src/ed.c). */
module Editor {
  import opened Seqs
  import opened TextFiles

  class Line {
    var text: string
    var next: Line?
    var prev: Line?

    /** `make_line`: the text is copied as a C string. */
    constructor (text: string)
      ensures this.text == Cut(text) && next == null && prev == null
    {
      this.text, next, prev := Cut(text), null, null;
    }
  }

  /** The fields of a row of nodes. */
  datatype Fields = Fields(next: seq<Line?>, prev: seq<Line?>, text: seq<string>)

  ghost function FieldsOf(nodes: seq<Line>): (f: Fields)
    reads nodes
  {
    Fields(seq(|nodes|, i requires 0 <= i < |nodes| reads nodes => nodes[i].next),
           seq(|nodes|, i requires 0 <= i < |nodes| reads nodes => nodes[i].prev),
           seq(|nodes|, i requires 0 <= i < |nodes| reads nodes => nodes[i].text))
  }

  lemma FieldsAre(nodes: seq<Line>)
    ensures var f := FieldsOf(nodes); |f.next| == |f.prev| == |f.text| == |nodes|
    ensures var f := FieldsOf(nodes);
            forall i :: 0 <= i < |nodes| ==>
              f.next[i] == nodes[i].next && f.prev[i] == nodes[i].prev && f.text[i] == nodes[i].text
  {
  }

  /** The nodes are distinct and each points to its neighbours. */
  ghost predicate Chain(nodes: seq<Line>, f: Fields) {
    && |f.next| == |f.prev| == |f.text| == |nodes|
    && Distinct(nodes)
    && (forall i :: 0 <= i < |nodes| ==> f.next[i] == NodeAt(nodes, i + 1) && f.prev[i] == NodeAt(nodes, i - 1))
  }

  ghost predicate Distinct(nodes: seq<Line>) {
    forall i, j :: 0 <= i < j < |nodes| ==> nodes[i] != nodes[j]
  }

  ghost function NodeAt(nodes: seq<Line>, i: int): (n: Line?) {
    if 0 <= i < |nodes| then nodes[i] else null
  }

  /** Node `k` is at place `k` only, and knows its neighbours. */
  lemma At(nodes: seq<Line>, f: Fields, k: int)
    requires Chain(nodes, f)
    ensures 0 <= k < |nodes| ==> f.next[k] == NodeAt(nodes, k + 1) && f.prev[k] == NodeAt(nodes, k - 1)
    ensures forall i :: 0 <= i < |nodes| && i != k ==> nodes[i] != NodeAt(nodes, k)
  {
  }

  /** The pointer changes that put node `n` in front of place `k`; `f` are the fields before. */
  ghost predicate PutIn(nodes: seq<Line>, f: Fields, k: nat, n: Line)
    reads nodes, n
  {
    && |f.next| == |f.prev| == |f.text| == |nodes| && k <= |nodes| && n !in nodes
    && n.prev == NodeAt(nodes, k - 1) && n.next == NodeAt(nodes, k)
    && forall i :: 0 <= i < |nodes| ==>
         && nodes[i].next == (if i + 1 == k then n else f.next[i])
         && nodes[i].prev == (if i == k then n else f.prev[i])
         && nodes[i].text == f.text[i]
  }

  lemma PutInChained(nodes: seq<Line>, f: Fields, k: nat, n: Line)
    requires Chain(nodes, f) && PutIn(nodes, f, k, n)
    ensures |InsertAt(nodes, k, n)| == |nodes| + 1 && Chain(InsertAt(nodes, k, n), FieldsOf(InsertAt(nodes, k, n)))
    ensures FieldsOf(InsertAt(nodes, k, n)).text == InsertAt(f.text, k, n.text)
  {
    var r := InsertAt(nodes, k, n);
    hide InsertAt, FieldsOf;
    FieldsAre(r);
    InsertedAt(nodes, k, n, 0);
    InsertedAt(f.text, k, n.text, 0);
    forall i | 0 <= i < |r|
      ensures r[i].next == NodeAt(r, i + 1) && r[i].prev == NodeAt(r, i - 1)
              && r[i].text == InsertAt(f.text, k, n.text)[i]
    {
      PutInAt(nodes, f, k, n, i);
    }
    assert Distinct(r) by { PutInDistinct(nodes, k, n); }
    hide Distinct;
  }

  lemma PutInDistinct(nodes: seq<Line>, k: nat, n: Line)
    requires Distinct(nodes) && n !in nodes && k <= |nodes|
    ensures Distinct(InsertAt(nodes, k, n))
  {
    var r := InsertAt(nodes, k, n);
    hide InsertAt;
    InsertedAt(nodes, k, n, 0);
    forall i, j | 0 <= i < j < |r| ensures r[i] != r[j] {
      InsertedAt(nodes, k, n, i);
      InsertedAt(nodes, k, n, j);
    }
  }

  lemma PutInAt(nodes: seq<Line>, f: Fields, k: nat, n: Line, i: nat)
    requires Chain(nodes, f) && PutIn(nodes, f, k, n) && i <= |nodes|
    ensures var r := InsertAt(nodes, k, n);
            && |r| == |nodes| + 1 == |InsertAt(f.text, k, n.text)|
            && r[i].next == NodeAt(r, i + 1) && r[i].prev == NodeAt(r, i - 1)
               && r[i].text == InsertAt(f.text, k, n.text)[i]
  {
    hide InsertAt, Distinct;
    InsertedAt(nodes, k, n, i);
    InsertedAt(f.text, k, n.text, i);
    if i < |nodes| {
      InsertedAt(nodes, k, n, i + 1);
    }
    if i > 0 {
      InsertedAt(nodes, k, n, i - 1);
    }
  }

  /** The pointers of a new line and of its neighbours, behind line `at`; is it the last now? */
  method LinkAfter(at: Line, n: Line, ghost nodes: seq<Line>, ghost k: nat) returns (end: bool)
    requires Chain(nodes, FieldsOf(nodes)) && k < |nodes| && nodes[k] == at && n !in nodes
    modifies n`next, n`prev, nodes`next, nodes`prev
    ensures PutIn(nodes, old(FieldsOf(nodes)), k + 1, n) && end == (k + 1 == |nodes|)
  {
    hide FieldsOf, Distinct;
    ghost var f := FieldsOf(nodes);
    FieldsAre(nodes);
    At(nodes, f, k);
    At(nodes, f, k + 1);
    assert f.next[k] == at.next;
    hide Chain;
    n.prev := at;
    n.next := at.next;
    end := at.next == null;
    if at.next != null {
      at.next.prev := n;
    }
    at.next := n;
    forall i | 0 <= i < |nodes|
      ensures nodes[i].next == (if i == k then n else f.next[i]) && nodes[i].text == f.text[i]
      ensures nodes[i].prev == (if i == k + 1 then n else f.prev[i])
    {
      assert nodes[i] != n;
    }
  }

  /** A new line behind the last one, as a file is loaded. */
  method LinkLast(at: Line, n: Line, ghost nodes: seq<Line>)
    requires Chain(nodes, FieldsOf(nodes)) && nodes != [] && nodes[|nodes| - 1] == at && n !in nodes && n.next == null
    modifies n`prev, at`next
    ensures PutIn(nodes, old(FieldsOf(nodes)), |nodes|, n)
  {
    hide FieldsOf, Distinct;
    ghost var f := FieldsOf(nodes);
    FieldsAre(nodes);
    At(nodes, f, |nodes| - 1);
    hide Chain;
    at.next := n;
    n.prev := at;
  }

  /** The same in front of line `at`; is it the first now? */
  method LinkBefore(at: Line, n: Line, ghost nodes: seq<Line>, ghost k: nat) returns (front: bool)
    requires Chain(nodes, FieldsOf(nodes)) && k < |nodes| && nodes[k] == at && n !in nodes
    modifies n`next, n`prev, nodes`next, nodes`prev
    ensures PutIn(nodes, old(FieldsOf(nodes)), k, n) && front == (k == 0)
  {
    hide FieldsOf, Distinct;
    ghost var f := FieldsOf(nodes);
    FieldsAre(nodes);
    At(nodes, f, k);
    At(nodes, f, k - 1);
    assert f.prev[k] == at.prev;
    hide Chain;
    n.next := at;
    n.prev := at.prev;
    front := at.prev == null;
    if at.prev != null {
      at.prev.next := n;
    }
    at.prev := n;
    forall i | 0 <= i < |nodes|
      ensures nodes[i].next == (if i + 1 == k then n else f.next[i]) && nodes[i].text == f.text[i]
      ensures nodes[i].prev == (if i == k then n else f.prev[i])
    {
      assert nodes[i] != n;
    }
  }

  /** The pointer changes that take node `k` out. */
  ghost predicate TakenOut(nodes: seq<Line>, f: Fields, k: nat)
    reads nodes
  {
    && |f.next| == |f.prev| == |f.text| == |nodes| && k < |nodes|
    && forall i :: 0 <= i < |nodes| && i != k ==>
         && nodes[i].next == (if i + 1 == k then NodeAt(nodes, k + 1) else f.next[i])
         && nodes[i].prev == (if i == k + 1 then NodeAt(nodes, k - 1) else f.prev[i])
         && nodes[i].text == f.text[i]
  }

  lemma TakenOutAt(nodes: seq<Line>, f: Fields, k: nat, i: nat)
    requires Chain(nodes, f) && TakenOut(nodes, f, k) && i < |nodes| - 1
    ensures var r := RemoveAt(nodes, k);
            && |r| == |nodes| - 1 == |RemoveAt(f.text, k)|
            && r[i].next == NodeAt(r, i + 1) && r[i].prev == NodeAt(r, i - 1) && r[i].text == RemoveAt(f.text, k)[i]
  {
    hide RemoveAt, Distinct;
    RemovedAt(nodes, k, i);
    RemovedAt(f.text, k, i);
    if i + 1 < |nodes| - 1 {
      RemovedAt(nodes, k, i + 1);
    }
    if i > 0 {
      RemovedAt(nodes, k, i - 1);
    }
  }

  lemma TakenOutDistinct(nodes: seq<Line>, k: nat)
    requires Distinct(nodes) && k < |nodes|
    ensures Distinct(RemoveAt(nodes, k))
  {
    var r := RemoveAt(nodes, k);
    hide RemoveAt;
    RemovedLength(nodes, k);
    forall i, j | 0 <= i < j < |r| ensures r[i] != r[j] {
      RemovedAt(nodes, k, i);
      RemovedAt(nodes, k, j);
    }
  }

  lemma TakenOutChained(nodes: seq<Line>, f: Fields, k: nat)
    requires Chain(nodes, f) && TakenOut(nodes, f, k)
    ensures var r := RemoveAt(nodes, k);
            |r| == |nodes| - 1 && Chain(r, FieldsOf(r)) && FieldsOf(r).text == RemoveAt(f.text, k)
  {
    var r := RemoveAt(nodes, k);
    hide RemoveAt, FieldsOf;
    FieldsAre(r);
    RemovedLength(nodes, k);
    RemovedLength(f.text, k);
    forall i | 0 <= i < |r|
      ensures r[i].next == NodeAt(r, i + 1) && r[i].prev == NodeAt(r, i - 1) && r[i].text == RemoveAt(f.text, k)[i]
    {
      TakenOutAt(nodes, f, k, i);
    }
    TakenOutDistinct(nodes, k);
    hide Distinct;
  }

  lemma Neighbours(nodes: seq<Line>, k: nat)
    requires k < |nodes|
    ensures var r, next, prev := RemoveAt(nodes, k), NodeAt(nodes, k + 1), NodeAt(nodes, k - 1);
            && |r| == |nodes| - 1
            && NodeAt(r, 0) == (if prev != null then NodeAt(nodes, 0) else next)
            && NodeAt(r, |r| - 1) == (if next != null then NodeAt(nodes, |nodes| - 1) else prev)
            && NodeAt(r, if k < |r| then k else k - 1) == (if next != null then next else prev)
  {
    RemovedEnds(nodes, k);
  }

  /** The neighbours of line `at` point past it. */
  method Unlink(at: Line, ghost nodes: seq<Line>, ghost k: nat)
    requires Chain(nodes, FieldsOf(nodes)) && k < |nodes| && nodes[k] == at
    modifies nodes`next, nodes`prev
    ensures TakenOut(nodes, old(FieldsOf(nodes)), k)
    ensures at.next == NodeAt(nodes, k + 1) && at.prev == NodeAt(nodes, k - 1)
  {
    hide FieldsOf, Distinct;
    ghost var f := FieldsOf(nodes);
    FieldsAre(nodes);
    At(nodes, f, k);
    At(nodes, f, k + 1);
    At(nodes, f, k - 1);
    assert f.prev[k] == at.prev && f.next[k] == at.next;
    hide Chain;
    if at.prev != null {
      at.prev.next := at.next;
    }
    if at.next != null {
      at.next.prev := at.prev;
    }
  }

  method SetText(at: Line, text: string, ghost nodes: seq<Line>, ghost k: nat)
    requires Chain(nodes, FieldsOf(nodes)) && k < |nodes| && nodes[k] == at
    modifies at`text
    ensures var f := old(FieldsOf(nodes)); |f.text| == |nodes| && FieldsOf(nodes) == f.(text := f.text[k := Cut(text)])
  {
    hide FieldsOf, Distinct, Cut;
    ghost var f := FieldsOf(nodes);
    FieldsAre(nodes);
    At(nodes, f, k);
    at.text := Cut(text);
    FieldsAre(nodes);
    ghost var f' := FieldsOf(nodes);
    hide Chain;
    assert f'.next == f.next;
    assert f'.prev == f.prev;
    assert f'.text == f.text[k := Cut(text)];
  }

  lemma SameChain(nodes: seq<Line>, f: Fields, k: nat, t: string)
    requires Chain(nodes, f) && k < |nodes|
    ensures Chain(nodes, f.(text := f.text[k := t]))
  {
  }

  lemma JoinNone()
    ensures Join([]) == []
  {
  }

  lemma SavedLine(file: string, texts: seq<string>, k: nat)
    requires k < |texts|
    ensures var done := Join(texts[..k]);
            var one := Overwrite(Overwrite(file, 0, done), |done|, texts[k]);
            && |Join(texts[..k + 1])| == |done| + |texts[k]| + 1
            && |done| + |texts[k]| <= |one|
               && Overwrite(one, |done| + |texts[k]|, "\n") == Overwrite(file, 0, Join(texts[..k + 1]))
  {
    var done := Join(texts[..k]);
    JoinAfter(texts[..k], texts[k]);
    assert texts[..k + 1] == texts[..k] + [texts[k]];
    hide Join, Overwrite;
    OverwriteTwice(file, 0, done, texts[k]);
    OverwriteTwice(file, 0, done + texts[k], "\n");
  }

  lemma OneLine(n: Line, f: Fields)
    requires n.next == null && n.prev == null && f == Fields([null], [null], [n.text])
    ensures Chain([n], f) && FieldsOf([n]) == f
  {
    FieldsAre([n]);
  }

  lemma NoTexts(nodes: seq<Line>, f: Fields)
    requires Chain(nodes, f) && nodes == []
    ensures f.text == []
  {
  }

  lemma TextCount(nodes: seq<Line>, f: Fields)
    requires Chain(nodes, f)
    ensures |f.text| == |nodes|
  {
  }

  class Editor {
    var first: Line?
    var current: Line?
    var last: Line?
    var idx: int            // current_line_idx
    var total: int
    var modified: bool
    ghost var nodes: seq<Line>
    ghost var cur: int      // where `current` is in `nodes`
    ghost var fields: Fields

    ghost predicate Valid()
      reads this, nodes
    {
      && fields == FieldsOf(nodes) && Chain(nodes, fields) && total == |nodes|
      && first == NodeAt(nodes, 0) && last == NodeAt(nodes, |nodes| - 1)
      && current == NodeAt(nodes, cur) && (nodes != [] ==> 0 <= cur < |nodes|)
    }

    ghost function Texts(): (r: seq<string>)
      reads this
    {
      fields.text
    }

    /** The text, the cursor and the number shown. */
    ghost function View(): (d: Doc)
      reads this
    {
      Doc(fields.text, if fields.text == [] then 0 else cur, idx)
    }

    /** By how much the line number shown is too high; it is 0 until the last line is deleted. */
    ghost function Drift(): (d: int)
      reads this
    {
      idx - (cur + 1)
    }

    constructor ()
      ensures Valid() && Texts() == [] && !modified && fresh(this)
    {
      first, current, last := null, null, null;
      idx, total, modified := 0, 0, false;
      nodes, cur, fields := [], 0, Fields([], [], []);
    }

    /** The first line of an empty editor. */
    method InsertFirst(n: Line)
      requires Valid() && nodes == [] && n.next == null && n.prev == null
      modifies this
      ensures Valid() && modified && nodes == [n] && cur == 0 && idx == 1 && Texts() == [n.text]
    {
      OneLine(n, Fields([null], [null], [n.text]));
      hide FieldsOf, Chain;
      Update(n, n, n, total + 1, [n], 0);
      idx, modified := 1, true;
    }

    /** The editor's own pointers, after the lines were linked anew. */
    method Update(first: Line?, last: Line?, current: Line?, total: int, ghost nodes: seq<Line>, ghost cur: int)
      requires Chain(nodes, FieldsOf(nodes)) && total == |nodes| && first == NodeAt(nodes, 0)
               && last == NodeAt(nodes, |nodes| - 1)
      requires current == NodeAt(nodes, cur) && (nodes != [] ==> 0 <= cur < |nodes|)
      modifies this
      ensures Valid() && this.nodes == nodes && this.cur == cur && fields == old(FieldsOf(nodes))
      ensures idx == old(idx) && modified == old(modified)
    {
      hide Chain, FieldsOf, NodeAt;
      this.fields := FieldsOf(nodes);
      this.first, this.last, this.current, this.total, this.nodes, this.cur := first, last, current, total, nodes, cur;
    }

    method AddBehind(n: Line)
      requires Valid() && nodes != [] && n !in nodes
      modifies this, n`next, n`prev, nodes`next, nodes`prev
      ensures Valid() && modified && cur == old(cur) + 1 && idx == old(idx) + 1 && nodes == InsertAt(old(nodes), cur, n)
      ensures Texts() == InsertAt(old(Texts()), cur, n.text)
    {
      hide FieldsOf, Chain, PutIn, InsertAt;
      var end := LinkAfter(current, n, nodes, cur);
      ghost var k := cur + 1;
      PutInChained(nodes, fields, k, n);
      InsertedEnds(nodes, k, n);
      Update(first, if end then n else last, n, total + 1, InsertAt(nodes, k, n), k);
      idx, modified := idx + 1, true;
    }

    /** A line read from the file: it goes to the end, and the cursor stays on the first. */
    method Push(text: string)
      requires Valid() && (nodes != [] ==> cur == 0)
      modifies this, nodes`next
      ensures Valid() && cur == 0 && modified == old(modified)
      ensures nodes != [] && nodes == old(nodes) + [nodes[|nodes| - 1]] && fresh(nodes[|nodes| - 1])
      ensures Texts() == old(Texts()) + [Cut(text)]
    {
      hide FieldsOf, Chain, PutIn, Cut;
      var n := new Line(text);
      if first == null {
        NoTexts(nodes, fields);
        ghost var f := Fields([null], [null], [n.text]);
        OneLine(n, f);
        Update(n, n, n, total + 1, [n], 0);
      } else {
        LinkLast(last, n, nodes);
        PutInChained(nodes, fields, |nodes|, n);
        InsertLast(nodes, n);
        InsertLast(fields.text, n.text);
        TextCount(nodes, fields);
        Update(first, n, current, total + 1, nodes + [n], 0);
      }
    }

    /** `a`: the new line goes behind the current one and becomes current. */
    method InsertAfter(text: string)
      requires Valid()
      modifies this, nodes`next, nodes`prev
      ensures Valid() && modified && nodes != []
      ensures forall i :: 0 <= i < |nodes| ==> nodes[i] in old(nodes) || fresh(nodes[i])
      ensures if old(nodes) == [] then Texts() == [Cut(text)] && cur == 0 && idx == 1
              else
                && Texts() == InsertAt(old(Texts()), old(cur) + 1, Cut(text))
                && cur == old(cur) + 1 && idx == old(idx) + 1
    {
      hide FieldsOf, Chain, InsertAt, Cut;
      var n := new Line(text);
      if first == null {
        InsertFirst(n);
      } else {
        InsertedEnds(nodes, cur + 1, n);
        AddBehind(n);
      }
    }

    method AddInFront(n: Line)
      requires Valid() && nodes != [] && n !in nodes
      modifies this, n`next, n`prev, nodes`next, nodes`prev
      ensures Valid() && modified && cur == old(cur) && idx == old(idx) && nodes == InsertAt(old(nodes), cur, n)
      ensures Texts() == InsertAt(old(Texts()), cur, n.text)
    {
      hide FieldsOf, Chain, PutIn, InsertAt;
      var front := LinkBefore(current, n, nodes, cur);
      PutInChained(nodes, fields, cur, n);
      InsertedEnds(nodes, cur, n);
      Update(if front then n else first, last, n, total + 1, InsertAt(nodes, cur, n), cur);
      modified := true;
    }

    /** `i`: the new line goes in front of the current one and becomes current. */
    method InsertBefore(text: string)
      requires Valid()
      modifies this, nodes`next, nodes`prev
      ensures Valid() && modified && nodes != []
      ensures forall i :: 0 <= i < |nodes| ==> nodes[i] in old(nodes) || fresh(nodes[i])
      ensures if old(nodes) == [] then Texts() == [Cut(text)] && cur == 0 && idx == 1
              else cur == old(cur) && idx == old(idx) && Texts() == InsertAt(old(Texts()), old(cur), Cut(text))
    {
      hide FieldsOf, Chain, InsertAt, Cut;
      var n := new Line(text);
      if first == null {
        InsertFirst(n);
      } else {
        InsertedEnds(nodes, cur, n);
        AddInFront(n);
      }
    }

    /** `d`: the next line becomes current, or the one before when there is none; the number shown stays. */
    method DeleteLine()
      requires Valid()
      modifies this, nodes`next, nodes`prev
      ensures Valid() && idx == old(idx) && forall i :: 0 <= i < |nodes| ==> nodes[i] in old(nodes)
      ensures if old(nodes) == [] then nodes == [] && modified == old(modified)
              else && modified && Texts() == RemoveAt(old(Texts()), old(cur))
                   && (nodes != [] ==> cur == if old(cur) < |nodes| then old(cur) else old(cur) - 1)
    {
      hide FieldsOf, Chain, RemoveAt;
      if current != null {
        RemovedEnds(nodes, cur);
        RemoveCurrent(current);
      }
    }

    method RemoveCurrent(at: Line)
      requires Valid() && current == at
      modifies this, nodes`next, nodes`prev
      ensures Valid() && idx == old(idx) && modified
      ensures 0 <= old(cur) < |old(nodes)| && nodes == RemoveAt(old(nodes), old(cur))
              && Texts() == RemoveAt(old(Texts()), old(cur))
      ensures nodes != [] ==> cur == if old(cur) < |nodes| then old(cur) else old(cur) - 1
    {
      hide FieldsOf, Chain, TakenOut, RemoveAt;
      Unlink(at, nodes, cur);
      var next, prev := at.next, at.prev;
      TakenOutChained(nodes, fields, cur);
      Neighbours(nodes, cur);
      hide NodeAt;
      ghost var r := RemoveAt(nodes, cur);
      Update(if prev != null then first else next, if next != null then last else prev,
             if next != null then next else prev, total - 1, r, if cur < |r| then cur else cur - 1);
      modified := true;
    }

    /** `r`: the current line gets a new text. */
    method ReplaceLine(text: string)
      requires Valid()
      modifies this`modified, this`fields, nodes`text
      ensures Valid() && idx == old(idx)
      ensures if nodes == [] then modified == old(modified) else modified && Texts() == old(Texts())[cur := Cut(text)]
    {
      if current == null {
        return;
      }
      hide FieldsOf, Chain, Cut;
      SetText(current, text, nodes, cur);
      SameChain(nodes, fields, cur, Cut(text));
      fields, modified := FieldsOf(nodes), true;
    }

    /**
     * `g`: go to line `target`.  The cursor walks from where it is, or from the first line when
     * the target is in the first half of the way.  The number shown is what it counts by: with a
     * number that is too high by `d` the walk ends `d` lines early, and if there are not that many
     * lines it steps off the front of the list.
     */
    method GotoLine(target: int) returns (crashed: bool)
      requires Valid() && (nodes != [] ==> Drift() >= 0)
      modifies this`current, this`idx, this`cur
      ensures if target < 1 || target > |nodes| then !crashed && cur == old(cur) && idx == old(idx) && Valid()
              else crashed == !(target < old(idx) / 2 || target > old(Drift()))
      ensures !crashed && 1 <= target <= |nodes| ==>
        Valid() && idx == target && cur == target - 1 - (if target < old(idx) / 2 then 0 else old(Drift()))
    {
      hide Chain, FieldsOf;
      if target < 1 || target > total {
        return false;
      }
      if target < idx / 2 {
        current, idx := first, 1;
        cur := 0;
      }
      WalkOn(target);
      crashed := WalkBack(target);
    }

    /** The walk towards the end. */
    method WalkOn(target: int)
      requires Valid() && nodes != [] && Drift() >= 0 && target <= |nodes|
      modifies this`current, this`idx, this`cur
      ensures Valid() && Drift() == old(Drift()) && idx == if old(idx) > target then old(idx) else target
    {
      hide Chain, FieldsOf;
      while idx < target
        invariant Valid() && Drift() == old(Drift()) && idx <= (if old(idx) > target then old(idx) else target)
        invariant old(idx) > target ==> idx == old(idx)
        decreases target - idx
      {
        Step(cur);
        current := current.next;
        idx := idx + 1;
        cur := cur + 1;
      }
    }

    /** The walk towards the start; it steps off the list when the number shown is too high by `target` or more. */
    method WalkBack(target: int) returns (crashed: bool)
      requires Valid() && nodes != [] && idx >= target && Drift() >= 0
      modifies this`current, this`idx, this`cur
      ensures crashed == (target <= old(Drift()))
      ensures !crashed ==> Valid() && idx == target && Drift() == old(Drift())
    {
      hide Chain, FieldsOf;
      ghost var d := Drift();
      while idx > target && current != null
        invariant d == Drift() && idx >= target && -1 <= cur < |nodes| && current == NodeAt(nodes, cur)
        invariant cur >= 0 ==> Valid()
        decreases idx - target
      {
        Step(cur);
        current := current.prev;
        idx := idx - 1;
        cur := cur - 1;
      }
      crashed := current == null;
    }

    lemma Step(k: int)
      requires Valid() && 0 <= k < |nodes|
      ensures nodes[k].next == NodeAt(nodes, k + 1) && nodes[k].prev == NodeAt(nodes, k - 1)
      ensures |Texts()| == |nodes| && nodes[k].text == Texts()[k]
    {
      FieldsAre(nodes);
      At(nodes, fields, k);
    }

    /** Load a file into an empty editor. */
    method LoadFile(contents: string)
      requires Valid() && nodes == []
      modifies this
      ensures Valid() && Texts() == Split(contents, []) && idx == 1 && modified == old(modified)
      ensures nodes != [] ==> cur == 0 && Drift() == 0
    {
      hide FieldsOf, Chain, Cut;
      NoTexts(nodes, fields);
      var buf := "";
      for i := 0 to |contents|
        invariant Valid() && (nodes != [] ==> cur == 0) && modified == old(modified)
        invariant fresh(nodes)
        invariant Texts() + Split(contents[i..], buf) == Split(contents, [])
      {
        var c := contents[i];
        assert contents[i..][1..] == contents[i + 1..];
        if c == '\n' || |buf| >= MAX {
          ghost var before := Texts();
          Push(buf);
          AppendAssoc(before, [Cut(buf)], Split(contents[i + 1..], []));
          buf := "";
        } else {
          buf := buf + [c];
        }
      }
      if buf != "" {
        Push(buf);
      } else {
        AppendNone(Texts());
      }
      idx := 1;
    }

    /** Write the lines over a file; what was behind them stays. */
    method SaveFile(file: string) returns (saved: string)
      requires Valid()
      modifies this`modified
      ensures Valid() && !modified && saved == Overwrite(file, 0, Join(Texts()))
    {
      hide FieldsOf, Chain, Join;
      TextCount(nodes, fields);
      var l, at := first, 0;
      ghost var k := 0;
      saved := file;
      JoinNone();
      assert Texts()[..0] == [];
      while l != null
        invariant 0 <= k <= |nodes| && l == NodeAt(nodes, k) && Valid()
        invariant at == |Join(Texts()[..k])| && at <= |saved| && saved == Overwrite(file, 0, Join(Texts()[..k]))
        decreases |nodes| - k
      {
        ghost var done := Join(Texts()[..k]);
        Step(k);
        SavedLine(file, Texts(), k);
        saved := Overwrite(saved, at, l.text);
        at := at + |l.text|;
        saved := Overwrite(saved, at, "\n");
        at := at + 1;
        l := l.next;
        k := k + 1;
      }
      assert Texts()[..k] == Texts();
      modified := false;
    }

    /** The loop of command `a`: lines are entered behind the cursor until an empty one. */
    method EnterAfter(inputs: seq<string>)
      requires Valid()
      modifies this, nodes`next, nodes`prev
      ensures Valid() && View() == old(View()).Entering(inputs, true)
      ensures forall i :: 0 <= i < |nodes| ==> nodes[i] in old(nodes) || fresh(nodes[i])
    {
      hide FieldsOf, Chain, Cut, InsertAt, Placed, Entered, Reversed;
      ghost var d, done := View(), [];
      TextCount(nodes, fields);
      ghost var k := d.Place(true);
      NothingPlaced(d.texts, k);
      assert inputs[0..] == inputs && [] + Entered(inputs) == Entered(inputs);
      var i := 0;
      while i < |inputs| && inputs[i] != ""
        invariant 0 <= i <= |inputs| && Valid() && |Texts()| == |nodes|
                  && done + Entered(inputs[i..]) == Entered(inputs)
        invariant Placed(d.texts, Texts(), k, done)
        invariant if done == [] then View() == d else cur + 1 == k + |done| && nodes != []
        invariant done != [] ==> idx == (if d.texts == [] then 0 else d.shown) + |done|
        invariant forall j :: 0 <= j < |nodes| ==> nodes[j] in old(nodes) || fresh(nodes[j])
      {
        EnteredStep(inputs, i, done);
        PlacedBehind(d.texts, Texts(), k, done, Cut(inputs[i]));
        InsertNone(Cut(inputs[i]));
        InsertAfter(inputs[i]);
        TextCount(nodes, fields);
        done := done + [Cut(inputs[i])];
        i := i + 1;
      }
      EnteredEnd(inputs, i, done);
      EnteringIs(d, View(), inputs, true);
    }

    /** The loop of command `i`: each line goes in front of the one before it. */
    method EnterBefore(inputs: seq<string>)
      requires Valid()
      modifies this, nodes`next, nodes`prev
      ensures Valid() && View() == old(View()).Entering(inputs, false)
      ensures forall i :: 0 <= i < |nodes| ==> nodes[i] in old(nodes) || fresh(nodes[i])
    {
      hide FieldsOf, Chain, Cut, InsertAt, Placed, Entered, Reversed;
      ghost var d, done := View(), [];
      TextCount(nodes, fields);
      ghost var k := d.Place(false);
      NothingPlaced(d.texts, k);
      assert inputs[0..] == inputs && [] + Entered(inputs) == Entered(inputs);
      var i := 0;
      while i < |inputs| && inputs[i] != ""
        invariant 0 <= i <= |inputs| && Valid() && |Texts()| == |nodes|
                  && done + Entered(inputs[i..]) == Entered(inputs)
        invariant Placed(d.texts, Texts(), k, Reversed(done))
        invariant if done == [] then View() == d else cur == k && nodes != []
        invariant done != [] ==> idx == if d.texts == [] then 1 else d.shown
        invariant forall j :: 0 <= j < |nodes| ==> nodes[j] in old(nodes) || fresh(nodes[j])
      {
        EnteredStep(inputs, i, done);
        PlacedInFront(d.texts, Texts(), k, Reversed(done), Cut(inputs[i]));
        ReversedAfter(done, Cut(inputs[i]));
        InsertNone(Cut(inputs[i]));
        InsertBefore(inputs[i]);
        TextCount(nodes, fields);
        done := done + [Cut(inputs[i])];
        i := i + 1;
      }
      EnteredEnd(inputs, i, done);
      EnteringIs(d, View(), inputs, false);
    }

    /** One command, as on a sequence with a cursor. */
    method Perform(c: Command) returns (crashed: bool)
      requires Valid() && View().Counted()
      modifies this, nodes
      ensures crashed == Do(old(View()), c).Crash?
      ensures !crashed ==> Valid() && View().Ok() && Do(old(View()), c) == Next(View())
      ensures forall i :: 0 <= i < |nodes| ==> nodes[i] in old(nodes) || fresh(nodes[i])
    {
      hide FieldsOf, Chain, Cut, RemoveAt, Entered, Reversed;
      TextCount(nodes, fields);
      crashed := false;
      match c
      case After(inputs) =>
        EnterAfter(inputs);
        TextCount(nodes, fields);
      case Before(inputs) =>
        EnterBefore(inputs);
        TextCount(nodes, fields);
      case Replace(text) =>
        ReplaceLine(text);
        TextCount(nodes, fields);
      case Delete =>
        DeleteLine();
        TextCount(nodes, fields);
      case Goto(target) =>
        crashed := GotoLine(target);
    }

    /** A whole session is a session on a sequence with a cursor. */
    method Session(commands: seq<Command>) returns (crashed: bool)
      requires Valid() && View().Counted()
      modifies this, nodes
      ensures crashed == DoAll(old(View()), commands).Crash?
      ensures !crashed ==> Valid() && DoAll(old(View()), commands) == Next(View())
    {
      hide FieldsOf, Chain, Do;
      for i := 0 to |commands|
        invariant Valid() && View().Counted() && DoAll(View(), commands[i..]) == DoAll(old(View()), commands)
        invariant forall j :: 0 <= j < |nodes| ==> nodes[j] in old(nodes) || fresh(nodes[j])
      {
        assert commands[i..][1..] == commands[i + 1..];
        ghost var d := View();
        crashed := Perform(commands[i]);
        if crashed {
          return;
        }
        StaysCounted(d, commands[i]);
      }
      crashed := false;
    }
  }

  // ------------------------------------------------- the editor as a sequence

  datatype Command =
    | After(inputs: seq<string>)
    | Before(inputs: seq<string>)
    | Replace(text: string)
    | Delete
    | Goto(target: int)

  /** A text with a cursor, and the number the editor shows for the cursor's line. */
  datatype Doc = Doc(texts: seq<string>, cur: int, shown: int) {
    ghost predicate Ok() {
      if texts == [] then cur == 0 else 0 <= cur < |texts|
    }

    ghost predicate Counted() {
      Ok() && (texts != [] ==> shown >= cur + 1)
    }

    /** Where new lines go. */
    ghost function Place(behind: bool): (k: nat)
      requires Ok()
      ensures k <= |texts|
    {
      if texts == [] || !behind then cur else cur + 1
    }

    /** Lines entered behind the cursor in order, or in front of it, each before the last. */
    ghost function Entering(inputs: seq<string>, behind: bool): (d: Doc)
      requires Ok()
    {
      var block, k := Entered(inputs), Place(behind);
      if block == [] then this
      else
        Doc(texts[..k] + (if behind then block else Reversed(block)) + texts[k..],
            if behind then k + |block| - 1 else k,
            if texts == [] then (if behind then |block| else 1) else if behind then shown + |block| else shown)
    }
  }

  datatype Outcome = Next(doc: Doc) | Crash

  ghost function Do(d: Doc, c: Command): (r: Outcome)
    requires d.Ok()
  {
    match c
    case After(inputs) => Next(d.Entering(inputs, true))
    case Before(inputs) => Next(d.Entering(inputs, false))
    case Replace(text) => Next(if d.texts == [] then d else d.(texts := d.texts[d.cur := Cut(text)]))
    case Delete =>
      if d.texts == [] then Next(d)
      else
        var rest := RemoveAt(d.texts, d.cur);
        Next(Doc(rest, if rest == [] then 0 else if d.cur < |rest| then d.cur else d.cur - 1, d.shown))
    case Goto(target) =>
      var drift := d.shown - (d.cur + 1);
      if target < 1 || target > |d.texts| then Next(d)
      else if target < d.shown / 2 then Next(Doc(d.texts, target - 1, target))
      else if target > drift then Next(Doc(d.texts, target - 1 - drift, target))
      else Crash
  }

  ghost function DoAll(d: Doc, commands: seq<Command>): (r: Outcome)
    requires d.Counted()
    decreases |commands|
  {
    if commands == [] then Next(d)
    else
      StaysCounted(d, commands[0]);
      match Do(d, commands[0])
      case Crash => Crash
      case Next(d') => DoAll(d', commands[1..])
  }

  /** The number shown is never too low. */
  lemma StaysCounted(d: Doc, c: Command)
    requires d.Counted()
    ensures Do(d, c).Next? ==> Do(d, c).doc.Counted()
  {
    hide Entered, Reversed, Cut;
    if c.Before? {
      ReversedLength(Entered(c.inputs));
    }
    if c.Delete? && d.texts != [] {
      RemovedLength(d.texts, d.cur);
      hide RemoveAt;
    }
  }

  lemma {:induction false} ReversedLength(s: seq<string>)
    ensures |Reversed(s)| == |s|
    decreases |s|
  {
    if s != [] {
      ReversedLength(s[..|s| - 1]);
    }
  }

  /** The last line goes while others stay. */
  ghost predicate DropsLast(d: Doc, c: Command) {
    c.Delete? && |d.texts| > 1 && d.cur == |d.texts| - 1
  }

  /** The number shown is the cursor's line. */
  ghost predicate InStep(d: Doc) {
    d.Ok() && (d.texts != [] ==> d.shown == d.cur + 1)
  }

  /**
   * From a right number, every command but one keeps it right and none steps off the list; going
   * to a line gets there.  Deleting the last of several lines is the one that breaks it.
   */
  lemma KeepsStep(d: Doc, c: Command)
    requires InStep(d)
    ensures Do(d, c).Next? && (InStep(Do(d, c).doc) <==> !DropsLast(d, c))
    ensures c.Goto? && 1 <= c.target <= |d.texts| ==> Do(d, c).doc.cur == c.target - 1
  {
    StaysCounted(d, c);
    hide Entered, Reversed, Cut;
    if c.Delete? && d.texts != [] {
      RemovedLength(d.texts, d.cur);
      hide RemoveAt;
    }
  }

  ghost predicate NeverDropsLast(d: Doc, commands: seq<Command>)
    requires InStep(d)
    decreases |commands|
  {
    commands != [] ==>
      !DropsLast(d, commands[0]) && (KeepsStep(d, commands[0]); NeverDropsLast(Do(d, commands[0]).doc, commands[1..]))
  }

  /** So a session that never does that does not crash and always shows the right number. */
  lemma {:induction false} SafeSession(d: Doc, commands: seq<Command>)
    requires InStep(d) && NeverDropsLast(d, commands)
    ensures DoAll(d, commands).Next? && InStep(DoAll(d, commands).doc)
    decreases |commands|
  {
    hide Do;
    if commands != [] {
      KeepsStep(d, commands[0]);
      SafeSession(Do(d, commands[0]).doc, commands[1..]);
    }
  }

  /** After the last of several lines is deleted, going to a line in the upper half misses it by one. */
  lemma GotoMisses(d: Doc, target: int)
    requires InStep(d) && DropsLast(d, Delete) && 1 <= target < |d.texts|
    ensures var d' := Do(d, Delete).doc;
            d'.Ok() && if target < d'.shown / 2 then Do(d', Goto(target)) == Next(Doc(d'.texts, target - 1, target))
            else if target == 1 then Do(d', Goto(target)) == Crash
            else Do(d', Goto(target)) == Next(Doc(d'.texts, target - 2, target))
  {
    RemovedLength(d.texts, d.cur);
  }

  // ------------------------------------------------------------ runs of input

  /** The lines entered: those before the first empty one. */
  function Entered(inputs: seq<string>): (r: seq<string>) {
    if inputs == [] || inputs[0] == "" then [] else [Cut(inputs[0])] + Entered(inputs[1..])
  }

  lemma EnteredStep(inputs: seq<string>, i: nat, done: seq<string>)
    requires i < |inputs| && done + Entered(inputs[i..]) == Entered(inputs)
    ensures if inputs[i] == "" then done == Entered(inputs)
            else done + [Cut(inputs[i])] + Entered(inputs[i + 1..]) == Entered(inputs)
  {
    hide Entered, Cut;
    EnteredAt(inputs, i);
    if inputs[i] == "" {
      AppendNone(done);
    } else {
      AppendAssoc(done, [Cut(inputs[i])], Entered(inputs[i + 1..]));
    }
  }

  lemma EnteredAt(inputs: seq<string>, i: nat)
    requires i < |inputs|
    ensures Entered(inputs[i..]) == if inputs[i] == "" then [] else [Cut(inputs[i])] + Entered(inputs[i + 1..])
  {
    hide Cut;
    assert inputs[i..][0] == inputs[i] && inputs[i..][1..] == inputs[i + 1..];
  }

  lemma EnteredEnd(inputs: seq<string>, i: nat, done: seq<string>)
    requires i <= |inputs| && done + Entered(inputs[i..]) == Entered(inputs) && (i < |inputs| ==> inputs[i] == "")
    ensures done == Entered(inputs)
  {
  }

  lemma EnteringIs(d: Doc, d': Doc, inputs: seq<string>, behind: bool)
    requires d.Ok() && var block := Entered(inputs);
             && Placed(d.texts, d'.texts, d.Place(behind), if behind then block else Reversed(block))
             && if block == [] then d' == d
                else && d'.cur == (if behind then d.Place(behind) + |block| - 1 else d.Place(behind))
                     && d'.shown == (if behind then (if d.texts == [] then 0 else d.shown) + |block|
                                     else if d.texts == [] then 1 else d.shown)
    ensures d' == d.Entering(inputs, behind)
  {
    hide Entered, Reversed;
  }

  function Reversed(s: seq<string>): (r: seq<string>) {
    if s == [] then [] else [s[|s| - 1]] + Reversed(s[..|s| - 1])
  }

  lemma ReversedAfter(s: seq<string>, x: string)
    ensures Reversed(s + [x]) == [x] + Reversed(s)
  {
    assert (s + [x])[..|s|] == s;
  }

  /** The lines `block` were put in at place `k`. */
  ghost predicate Placed(texts: seq<string>, texts': seq<string>, k: nat, block: seq<string>) {
    k <= |texts| && texts' == texts[..k] + block + texts[k..]
  }

  lemma NothingPlaced(texts: seq<string>, k: nat)
    requires k <= |texts|
    ensures Placed(texts, texts, k, []) && Reversed([]) == []
  {
  }

  lemma InsertNone(x: string)
    ensures InsertAt([], 0, x) == [x]
  {
  }

  lemma PlacedBehind(texts: seq<string>, texts': seq<string>, k: nat, block: seq<string>, x: string)
    requires Placed(texts, texts', k, block)
    ensures k + |block| <= |texts'| && Placed(texts, InsertAt(texts', k + |block|, x), k, block + [x])
  {
  }

  lemma PlacedInFront(texts: seq<string>, texts': seq<string>, k: nat, block: seq<string>, x: string)
    requires Placed(texts, texts', k, block)
    ensures k <= |texts'| && Placed(texts, InsertAt(texts', k, x), k, [x] + block)
  {
  }
}
