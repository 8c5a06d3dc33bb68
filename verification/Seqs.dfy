/** Small facts about sequences that several proofs share. */
module Seqs {
  lemma SplitOfConcat<T>(a: seq<T>, b: seq<T>, n: nat)
    requires n <= |a|
    ensures (a + b)[..n] == a[..n]
    ensures (a + b)[n..] == a[n..] + b
  {
  }

  lemma AppendAssoc<T>(a: seq<T>, b: seq<T>, c: seq<T>)
    ensures a + (b + c) == a + b + c
  {
  }

  lemma AppendNone<T>(a: seq<T>)
    ensures a + [] == a && [] + a == a
  {
  }

  lemma FrontAndLast<T>(s: seq<T>)
    requires s != []
    ensures s[..|s| - 1] + [s[|s| - 1]] == s
  {
  }

  lemma HeadAndTail<T>(s: seq<T>)
    requires s != []
    ensures [s[0]] + s[1..] == s
  {
  }

  lemma SliceCons<T>(s: seq<T>, i: nat, j: nat)
    requires i < j <= |s|
    ensures s[i..j] == [s[i]] + s[i + 1..j]
  {
  }

  lemma SplitAfterFirst<T>(s: seq<T>, n: nat)
    requires 0 < n <= |s|
    ensures s[..n] == [s[0]] + s[1..][..n - 1]
    ensures s[n..] == s[1..][n - 1..]
  {
  }

  function RemoveAt<T>(s: seq<T>, k: nat): (r: seq<T>)
    requires k < |s|
  {
    s[..k] + s[k + 1..]
  }

  /** Where element `j` came from when element `k` was taken out. */
  function Skip(k: nat, j: nat): (i: nat) {
    if j < k then j else j + 1
  }

  lemma RemovedLength<T>(s: seq<T>, k: nat)
    requires k < |s|
    ensures |RemoveAt(s, k)| == |s| - 1
  {
  }

  lemma RemovedAt<T>(s: seq<T>, k: nat, j: nat)
    requires k < |s| && j < |s| - 1
    ensures |RemoveAt(s, k)| == |s| - 1 && RemoveAt(s, k)[j] == s[Skip(k, j)]
  {
  }

  lemma RemoveAppend<T>(s: seq<T>, x: T, k: nat)
    requires k < |s|
    ensures RemoveAt(s + [x], k) == RemoveAt(s, k) + [x]
  {
  }

  function InsertAt<T>(s: seq<T>, k: nat, x: T): (r: seq<T>)
    requires k <= |s|
  {
    s[..k] + [x] + s[k..]
  }

  lemma InsertedAt<T>(s: seq<T>, k: nat, x: T, j: nat)
    requires k <= |s| && j <= |s|
    ensures var r := InsertAt(s, k, x); |r| == |s| + 1 && r[j] == if j < k then s[j] else if j == k then x else s[j - 1]
  {
  }

  lemma InsertedEnds<T>(s: seq<T>, k: nat, x: T)
    requires k <= |s|
    ensures var r := InsertAt(s, k, x);
            && |r| == |s| + 1 && r[k] == x && r[0] == (if k > 0 then s[0] else x)
            && r[|s|] == (if k < |s| then s[|s| - 1] else x)
    ensures forall y :: y in InsertAt(s, k, x) <==> y in s || y == x
  {
    var r := InsertAt(s, k, x);
    assert r[k] == x;
    forall y | y in s ensures y in r {
      var j :| 0 <= j < |s| && s[j] == y;
      assert r[if j < k then j else j + 1] == y;
    }
  }

  lemma RemovedEnds<T>(s: seq<T>, k: nat)
    requires k < |s|
    ensures var r := RemoveAt(s, k);
            && |r| == |s| - 1 && (k < |r| ==> r[k] == s[k + 1]) && (k > 0 ==> r[k - 1] == s[k - 1])
            && (r != [] ==>
                  && r[0] == (if k > 0 then s[0] else s[1])
                  && r[|r| - 1] == (if k < |r| then s[|s| - 1] else s[|s| - 2]))
    ensures forall y :: y in RemoveAt(s, k) ==> y in s
  {
  }

  lemma InsertLast<T>(s: seq<T>, x: T)
    ensures InsertAt(s, |s|, x) == s + [x]
  {
  }
}
