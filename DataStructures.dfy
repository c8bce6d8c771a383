/** The generic container helpers of DataStructures/DataStructures.hpp.
    They are written against a container interface (getElementCount,
    getElementAt, setElementAt, insertElementAt, eraseElementAt,
    insertRange, eraseRange, findKey) whose implementations are not part of
    this model; `Container` gives that interface one implementation over a
    sequence of key-value pairs kept in increasing key order. */
module DataStructures {
  import Blob

  /** An element: a key (`first`) and a value (`second`). */
  datatype Pair = Pair(first: nat, second: nat)

  /** The value insertRange gives new elements; the source leaves it
      unspecified. */
  function Default(): Pair { Pair(0, 0) }

  /** Keys strictly increase. */
  ghost predicate Sorted(s: seq<Pair>)
  {
    forall i, j :: 0 <= i < j < |s| ==> s[i].first < s[j].first
  }

  /** s with the elements at a and b exchanged. */
  function Swapped(s: seq<Pair>, a: nat, b: nat): (r: seq<Pair>)
    requires a < |s| && b < |s|
    ensures |r| == |s|
  {
    s[a := s[b]][b := s[a]]
  }

  /** Swapping twice gives the sequence back. */
  lemma SwapTwice(s: seq<Pair>, a: nat, b: nat)
    requires a < |s| && b < |s|
    ensures Swapped(Swapped(s, a, b), a, b) == s
  {
    var t := Swapped(Swapped(s, a, b), a, b);
    forall i | 0 <= i < |s|
      ensures t[i] == s[i]
    {
    }
  }

  /** A swap keeps the multiset of elements. */
  lemma SwapPermutes(s: seq<Pair>, a: nat, b: nat)
    requires a < |s| && b < |s|
    ensures multiset(Swapped(s, a, b)) == multiset(s)
  {
    if a != b {
      var u := s[a := s[b]];
      assert multiset(u) == multiset(s) - multiset{s[a]} + multiset{s[b]};
      assert u[b] == s[b];
      assert multiset(u[b := s[a]]) == multiset(u) - multiset{s[b]} + multiset{s[a]};
    }
  }

  lemma SortedInsert(s: seq<Pair>, at: nat, e: Pair)
    requires Sorted(s) && at <= |s|
    requires forall i :: 0 <= i < at ==> s[i].first < e.first
    requires forall i :: at <= i < |s| ==> e.first < s[i].first
    ensures Sorted(s[..at] + [e] + s[at..])
  {
    var t := s[..at] + [e] + s[at..];
    forall i, j | 0 <= i < j < |t|
      ensures t[i].first < t[j].first
    {
      var x := if i < at then s[i] else if i == at then e else s[i - 1];
      var y := if j < at then s[j] else if j == at then e else s[j - 1];
      assert t[i] == x && t[j] == y;
    }
  }

  lemma SortedErase(s: seq<Pair>, at: nat)
    requires Sorted(s) && at < |s|
    ensures Sorted(s[..at] + s[at + 1..])
  {
    var t := s[..at] + s[at + 1..];
    forall i, j | 0 <= i < j < |t|
      ensures t[i].first < t[j].first
    {
      var x := if i < at then s[i] else s[i + 1];
      var y := if j < at then s[j] else s[j + 1];
      assert t[i] == x && t[j] == y;
    }
  }

  /** The container interface. */
  class Container {
    var elements: seq<Pair>

    ghost predicate Valid()
      reads this
    {
      Sorted(elements)
    }

    constructor ()
      ensures elements == []
    {
      elements := [];
    }

    method GetElementCount() returns (n: nat)
      ensures n == |elements|
    {
      n := |elements|;
    }

    method GetElementAt(at: nat) returns (e: Pair)
      requires at < |elements|
      ensures e == elements[at]
    {
      e := elements[at];
    }

    method SetElementAt(at: nat, e: Pair)
      requires at < |elements|
      modifies this
      ensures elements == old(elements)[at := e]
    {
      elements := elements[at := e];
    }

    method InsertElementAt(at: nat, e: Pair)
      requires at <= |elements|
      modifies this
      ensures elements == old(elements)[..at] + [e] + old(elements)[at..]
    {
      elements := elements[..at] + [e] + elements[at..];
    }

    method EraseElementAt(at: nat)
      requires at < |elements|
      modifies this
      ensures elements == old(elements)[..at] + old(elements)[at + 1..]
    {
      elements := elements[..at] + elements[at + 1..];
    }

    /** insertRange(at, n): n new elements at `at`. */
    method InsertRange(at: nat, n: nat)
      requires at <= |elements|
      modifies this
      ensures elements == old(elements)[..at] + seq(n, _ => Default()) + old(elements)[at..]
    {
      elements := elements[..at] + seq(n, _ => Default()) + elements[at..];
    }

    /** eraseRange(at, n): removes elements at .. at + n - 1. */
    method EraseRange(at: nat, n: nat)
      requires at + n <= |elements|
      modifies this
      ensures elements == old(elements)[..at] + old(elements)[at + n..]
    {
      elements := elements[..at] + elements[at + n..];
    }

    /** findKey(key, at): whether an element has that key; `at` is its
        index, or where an element with that key would go. */
    method FindKey(key: nat) returns (found: bool, at: nat)
      requires Valid()
      ensures at <= |elements|
      ensures found <==> exists i :: 0 <= i < |elements| && elements[i].first == key
      ensures found ==> at < |elements| && elements[at].first == key
      ensures forall i :: 0 <= i < at ==> elements[i].first < key
      ensures forall i :: at <= i < |elements| ==> key <= elements[i].first
    {
      at := 0;
      while at < |elements| && elements[at].first < key
        invariant at <= |elements|
        invariant forall i :: 0 <= i < at ==> elements[i].first < key
      {
        at := at + 1;
      }
      found := at < |elements| && elements[at].first == key;
      forall i | at <= i < |elements|
        ensures key <= elements[i].first
      {
        if at < i {
          assert elements[at].first < elements[i].first;
        }
      }
    }
  }

  // ---------------------------------------------------------------------
  // The helpers.

  /** setElementCount(c, n): n elements; the first min(old count, n) are
      kept. */
  method SetElementCount(c: Container, n: nat)
    modifies c
    ensures |c.elements| == n
    ensures var k := Blob.Min(|old(c.elements)|, n); c.elements[..k] == old(c.elements)[..k]
    ensures n >= |old(c.elements)| ==> c.elements == old(c.elements) + seq(n - |old(c.elements)|, _ => Default())
  {
    var count := c.GetElementCount();
    if n > count {
      c.InsertRange(count, n - count);
    } else if n < count {
      c.EraseRange(n, count - n);
    }
  }

  /** swapElementsAt(c, a, b). */
  method SwapElementsAt(c: Container, a: nat, b: nat)
    requires a < |c.elements| && b < |c.elements|
    modifies c
    ensures c.elements == Swapped(old(c.elements), a, b)
    ensures multiset(c.elements) == multiset(old(c.elements))
  {
    var x := c.GetElementAt(a);
    var y := c.GetElementAt(b);
    c.SetElementAt(a, y);
    c.SetElementAt(b, x);
    SwapPermutes(old(c.elements), a, b);
  }

  /** iterateElements(c, callback): the elements handed to the callback,
      each once, in index order. */
  method IterateElements(c: Container) returns (visited: seq<Pair>)
    ensures visited == c.elements
  {
    visited := [];
    var at := 0;
    var n := c.GetElementCount();
    while at < n
      invariant at <= n == |c.elements|
      invariant visited == c.elements[..at]
    {
      var e := c.GetElementAt(at);
      visited := visited + [e];
      at := at + 1;
    }
  }

  /** iterate(c, callback): the indices handed to the callback. */
  method Iterate(c: Container) returns (visited: seq<nat>)
    ensures |visited| == |c.elements|
    ensures forall i :: 0 <= i < |visited| ==> visited[i] == i
  {
    visited := [];
    var at := 0;
    var n := c.GetElementCount();
    while at < n
      invariant at <= n == |c.elements|
      invariant |visited| == at && forall i :: 0 <= i < at ==> visited[i] == i
    {
      visited := visited + [at];
      at := at + 1;
    }
  }

  method GetFirstElement(c: Container) returns (e: Pair)
    requires |c.elements| > 0
    ensures e == c.elements[0]
  {
    e := c.GetElementAt(0);
  }

  method GetLastElement(c: Container) returns (e: Pair)
    requires |c.elements| > 0
    ensures e == c.elements[|c.elements| - 1]
  {
    var n := c.GetElementCount();
    e := c.GetElementAt(n - 1);
  }

  method InsertAsFirstElement(c: Container, e: Pair)
    modifies c
    ensures c.elements == [e] + old(c.elements)
  {
    c.InsertElementAt(0, e);
  }

  method InsertAsLastElement(c: Container, e: Pair)
    modifies c
    ensures c.elements == old(c.elements) + [e]
  {
    var n := c.GetElementCount();
    c.InsertElementAt(n, e);
  }

  /** getAndEraseElementAt(c, at): the element that was at `at`. */
  method GetAndEraseElementAt(c: Container, at: nat) returns (e: Pair)
    requires at < |c.elements|
    modifies c
    ensures e == old(c.elements)[at]
    ensures c.elements == old(c.elements)[..at] + old(c.elements)[at + 1..]
  {
    e := c.GetElementAt(at);
    c.EraseElementAt(at);
  }

  method EraseFirstElement(c: Container) returns (e: Pair)
    requires |c.elements| > 0
    modifies c
    ensures [e] + c.elements == old(c.elements)
  {
    e := GetAndEraseElementAt(c, 0);
  }

  method EraseLastElement(c: Container) returns (e: Pair)
    requires |c.elements| > 0
    modifies c
    ensures c.elements + [e] == old(c.elements)
  {
    var n := c.GetElementCount();
    e := GetAndEraseElementAt(c, n - 1);
    assert old(c.elements)[n..] == [];
  }

  /** insertElement(c, e): false and no change when e's key is present;
      otherwise e goes in where findKey put it, keeping the keys sorted. */
  method InsertElement(c: Container, e: Pair) returns (ok: bool)
    requires c.Valid()
    modifies c
    ensures c.Valid()
    ensures ok <==> forall i :: 0 <= i < |old(c.elements)| ==> old(c.elements)[i].first != e.first
    ensures !ok ==> c.elements == old(c.elements)
    ensures ok ==> exists at :: 0 <= at <= |old(c.elements)| && c.elements == old(c.elements)[..at] + [e] + old(c.elements)[at..]
  {
    var found, at := c.FindKey(e.first);
    if found {
      return false;
    }
    SortedInsert(c.elements, at, e);
    c.InsertElementAt(at, e);
    ok := true;
  }

  /** eraseElementByKey(c, key): false when no element has the key;
      otherwise exactly that element is removed. */
  method EraseElementByKey(c: Container, key: nat) returns (ok: bool)
    requires c.Valid()
    modifies c
    ensures c.Valid()
    ensures ok <==> exists i :: 0 <= i < |old(c.elements)| && old(c.elements)[i].first == key
    ensures !ok ==> c.elements == old(c.elements)
    ensures ok ==> exists at :: 0 <= at < |old(c.elements)| && old(c.elements)[at].first == key &&
                     c.elements == old(c.elements)[..at] + old(c.elements)[at + 1..]
  {
    var found, at := c.FindKey(key);
    if !found {
      return false;
    }
    SortedErase(c.elements, at);
    c.EraseElementAt(at);
    ok := true;
  }

  // ---------------------------------------------------------------------
  // BitVectorContainer

  /** BitVectorContainer: a container of one child, its bit vector.  The
      bit vector's increaseSize / decreaseSize (not part of this model) are
      taken to insert zero bits and to erase bits. */
  class BitVectorContainer {
    var bits: seq<bool>

    constructor ()
      ensures bits == []
    {
      bits := [];
    }

    /** increaseChildLength(0, offset, length). */
    method IncreaseChildLength(at: nat, offset: nat, length: nat)
      requires at == 0 && offset <= |bits|
      modifies this
      ensures bits == Blob.Inserted(old(bits), seq(length, _ => false), offset)
      ensures |bits| == |old(bits)| + length
    {
      bits := Blob.Inserted(bits, seq(length, _ => false), offset);
    }

    /** decreaseChildLength(0, offset, length). */
    method DecreaseChildLength(at: nat, offset: nat, length: nat)
      requires at == 0 && offset + length <= |bits|
      modifies this
      ensures bits == Blob.Erased(old(bits), offset, offset + length)
      ensures |bits| == |old(bits)| - length
    {
      bits := Blob.Erased(bits, offset, offset + length);
    }

    /** getChildOffset(0): the only child starts at 0. */
    method GetChildOffset(at: nat) returns (offset: nat)
      requires at == 0
      ensures offset == 0
    {
      offset := 0;
    }

    /** getChildLength(at): the bit vector's size, for any `at` (the source
        does not check it). */
    method GetChildLength(at: nat) returns (length: nat)
      ensures length == |bits|
    {
      length := |bits|;
    }
  }

  /** Growing the child and shrinking it by the same range restores it. */
  method GrowShrink(c: BitVectorContainer, offset: nat, length: nat)
    requires offset <= |c.bits|
    modifies c
    ensures c.bits == old(c.bits)
  {
    c.IncreaseChildLength(0, offset, length);
    Blob.EraseInserted(old(c.bits), seq(length, _ => false), offset);
    c.DecreaseChildLength(0, offset, length);
  }
}
