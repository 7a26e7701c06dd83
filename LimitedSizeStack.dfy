/** The bounded, most-recent-first list behind every gate: a linked list whose
    `Push` adds at the front and then drops the tail once the count exceeds the cap.
    The linked nodes are modelled by the sequence of their values, front first. */
module Stacks {

  /** The contents after `Push(x)`: `AddFirst(x)`, then one `RemoveLast()` if the count now exceeds `maxSize`. */
  function PushSeq<T>(s: seq<T>, x: T, maxSize: int): seq<T>
  {
    var t := [x] + s;
    if |t| > maxSize then t[..|t| - 1] else t
  }

  /** LinkedList.FindLast: the position of the tail-most occurrence of `v`, or -1 (the null node). */
  function FindLast<T(==)>(s: seq<T>, v: T): (r: int)
    ensures -1 <= r < |s|
    ensures r == -1 <==> v !in s
    ensures r >= 0 ==> s[r] == v && forall j :: r < j < |s| ==> s[j] != v
  {
    if |s| == 0 then -1
    else if s[|s| - 1] == v then |s| - 1
    else FindLast(s[..|s| - 1], v)
  }

  /** The contents after `ReplaceLast(a, b)`. */
  function ReplaceLastSeq<T(==)>(s: seq<T>, a: T, b: T): seq<T>
  {
    var i := FindLast(s, a);
    if i < 0 then s else s[i := b]
  }

  /** `items` is what pushing every element of `log` in order onto an empty stack
      with cap `n` leaves behind: the last min(n, |log|) of them, the latest first. */
  ghost predicate IsRecent<T>(items: seq<T>, log: seq<T>, n: int)
  {
    && |items| == (if |log| < n then |log| else n)
    && forall i :: 0 <= i < |items| ==> items[i] == log[|log| - 1 - i]
  }

  class LimitedSizeStack<T(==)> {
    var items: seq<T>
    const maxSize: int

    constructor (maxSize: int)
      ensures items == [] && this.maxSize == maxSize
    {
      items := [];
      this.maxSize := maxSize;
    }

    function Count(): nat
      reads this
    {
      |items|
    }

    /** Inherited from LinkedList: adds at the front with no regard to the cap. */
    method AddFirst(x: T)
      modifies this
      ensures items == [x] + old(items)
    {
      items := [x] + items;
    }

    /** Inherited from LinkedList: drops the tail node. */
    method RemoveLast()
      requires items != []
      modifies this
      ensures items == old(items)[..|old(items)| - 1]
    {
      items := items[..|items| - 1];
    }

    method Push(x: T)
      modifies this
      ensures items == PushSeq(old(items), x, maxSize)
    {
      AddFirst(x);
      if Count() > maxSize {
        RemoveLast();
      }
    }

    method ReplaceLast(a: T, b: T) returns (found: bool)
      modifies this
      ensures found <==> a in old(items)
      ensures items == ReplaceLastSeq(old(items), a, b)
    {
      var node := FindLast(items, a);
      if node == -1 {
        return false;
      }
      items := items[node := b];
      return true;
    }
  }

  /** After a push the new element is first, full stack or not, unless the cap leaves no room at all. */
  lemma PushPutsFirst<T>(s: seq<T>, x: T, n: int)
    requires n >= 1 || s != []
    ensures var r := PushSeq(s, x, n); r != [] && r[0] == x
  {
  }

  /** Below the cap a push grows the stack by one and keeps every old element, in order, behind `x`. */
  lemma PushBelowCapacity<T>(s: seq<T>, x: T, n: int)
    requires |s| < n
    ensures PushSeq(s, x, n) == [x] + s
  {
  }

  /** On a full stack a push keeps the count at the cap and drops exactly the old last element. */
  lemma PushAtCapacity<T>(s: seq<T>, x: T, n: int)
    requires |s| == n >= 1
    ensures var r := PushSeq(s, x, n); |r| == n && r == [x] + s[..n - 1]
    ensures n >= 2 ==> PushSeq(s, x, n)[n - 1] == s[n - 2]
  {
  }

  /** A push leaves the count within the cap exactly when it was within the cap before:
      `Push` keeps the bound, but cannot repair a list that `AddFirst` overfilled. */
  lemma PushBound<T>(s: seq<T>, x: T, n: int)
    ensures |PushSeq(s, x, n)| <= n <==> |s| <= n
    ensures |s| > n ==> |PushSeq(s, x, n)| == |s|
  {
  }

  /** `ReplaceLast` of a value that does not occur changes nothing. */
  lemma ReplaceLastAbsent<T>(s: seq<T>, a: T, b: T)
    requires a !in s
    ensures ReplaceLastSeq(s, a, b) == s
  {
  }

  /** `ReplaceLast` of a value that occurs overwrites its tail-most occurrence and nothing else. */
  lemma ReplaceLastPresent<T>(s: seq<T>, a: T, b: T)
    requires a in s
    ensures exists i :: 0 <= i < |s| && s[i] == a && (forall j :: i < j < |s| ==> s[j] != a)
                        && ReplaceLastSeq(s, a, b) == s[i := b]
  {
    var i := FindLast(s, a);
    assert 0 <= i < |s| && s[i] == a && (forall j :: i < j < |s| ==> s[j] != a);
  }

  /** Pushing one more element keeps a stack equal to the most recent part of its log. */
  lemma PushKeepsRecent<T>(items: seq<T>, log: seq<T>, x: T, n: int)
    requires n >= 1 && IsRecent(items, log, n)
    ensures IsRecent(PushSeq(items, x, n), log + [x], n)
  {
    var r, log' := PushSeq(items, x, n), log + [x];
    assert r[0] == x;
    forall i | 1 <= i < |r|
      ensures r[i] == log'[|log'| - 1 - i]
    {
      assert r[i] == items[i - 1];
    }
  }
}
