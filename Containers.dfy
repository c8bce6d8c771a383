/** Containers kept in one blob each (Ontology/Containers.hpp).  A
    BlobVector stores a sequence of elements of one fixed bit width back to
    back in the blob of its symbol; a BlobSet is a BlobVector kept sorted by
    key; a BlobIndex is a set of symbols that interns symbols by the
    content of their blobs.

    Elements are numbers below 2^width; element i occupies bits
    [i * width, (i + 1) * width) of the blob, lowest bit first. */
module Containers {
  import Bits
  import Blob

  /** The bit width of a Symbol, the key of every BlobSet. */
  const KeyBits: nat := 64

  // ---------------------------------------------------------------------
  // The element view of a blob.

  /** The elements a blob holds: every `width` bits as a number; bits past
      the last whole element are not an element. */
  function Decode(bits: seq<bool>, width: nat): seq<nat>
    requires width > 0
    decreases |bits|
  {
    if |bits| < width then [] else [Bits.Value(bits[..width])] + Decode(bits[width..], width)
  }

  /** The blob holding `elements`, each in `width` bits. */
  function Encode(elements: seq<nat>, width: nat): (bits: seq<bool>)
  {
    if |elements| == 0 then [] else Bits.NatBits(elements[0], width) + Encode(elements[1..], width)
  }

  /** Every element fits in `width` bits. */
  ghost predicate Fits(elements: seq<nat>, width: nat)
  {
    forall i :: 0 <= i < |elements| ==> elements[i] < Bits.Pow2(width)
  }

  lemma {:induction false} EncodeLength(s: seq<nat>, w: nat)
    ensures |Encode(s, w)| == |s| * w
  {
    if |s| > 0 {
      EncodeLength(s[1..], w);
      assert |s| * w == w + (|s| - 1) * w;
    }
  }

  lemma {:induction false} EncodeAppend(s: seq<nat>, t: seq<nat>, w: nat)
    ensures Encode(s + t, w) == Encode(s, w) + Encode(t, w)
  {
    if |s| == 0 {
      assert s + t == t;
    } else {
      var head := Bits.NatBits(s[0], w);
      assert (s + t)[0] == s[0] && (s + t)[1..] == s[1..] + t;
      EncodeAppend(s[1..], t, w);
      calc {
        Encode(s + t, w);
        head + Encode(s[1..] + t, w);
        head + (Encode(s[1..], w) + Encode(t, w));
        (head + Encode(s[1..], w)) + Encode(t, w);
      }
    }
  }

  /** Decoding an encoded element list gives the list back. */
  lemma {:induction false} DecodeEncode(s: seq<nat>, w: nat)
    requires w > 0 && Fits(s, w)
    ensures Decode(Encode(s, w), w) == s
  {
    if |s| > 0 {
      var head, t := Bits.NatBits(s[0], w), Encode(s[1..], w);
      assert (head + t)[..w] == head && (head + t)[w..] == t;
      Bits.NatBitsValue(s[0], w);
      DecodeEncode(s[1..], w);
    }
  }

  /** Every decoded element fits in `width` bits. */
  lemma {:induction false} DecodeFits(bits: seq<bool>, w: nat)
    requires w > 0
    ensures Fits(Decode(bits, w), w)
    decreases |bits|
  {
    if |bits| >= w {
      Bits.ValueBound(bits[..w]);
      DecodeFits(bits[w..], w);
    }
  }

  /** A blob of k whole elements is the encoding of its elements. */
  lemma {:induction false} EncodeDecode(bits: seq<bool>, w: nat, k: nat)
    requires w > 0 && |bits| == k * w
    ensures |Decode(bits, w)| == k
    ensures Encode(Decode(bits, w), w) == bits
    decreases k
  {
    if k > 0 {
      assert k * w == w + (k - 1) * w;
      var head := bits[..w];
      Bits.ValueBound(head);
      Bits.NatBitsValue(Bits.Value(head), w);
      Bits.ValueInjective(Bits.NatBits(Bits.Value(head), w), head);
      EncodeDecode(bits[w..], w, k - 1);
      assert bits == head + bits[w..];
    }
  }

  /** (k * w) / w == k: the element count of a blob of k elements. */
  lemma MulDiv(k: nat, w: nat)
    requires w > 0
    ensures (k * w) / w == k
  {
    var q, r := (k * w) / w, (k * w) % w;
    assert k * w == q * w + r && 0 <= r < w;
    var d: int, wi: int := q - k, w;
    assert d * wi + r == 0;
    assert d >= 1 ==> d * wi >= wi;
    assert d <= -1 ==> d * wi <= 0 - wi;
  }

  lemma MulMonotone(a: nat, b: nat, w: nat)
    requires a <= b
    ensures 0 <= a * w <= b * w
  {
    assert b * w == a * w + (b - a) * w;
  }

  /** An encoding split at an element boundary. */
  lemma EncodeSplit(s: seq<nat>, w: nat, at: nat)
    requires at <= |s|
    ensures at * w <= |Encode(s, w)|
    ensures Encode(s, w)[..at * w] == Encode(s[..at], w)
    ensures Encode(s, w)[at * w..] == Encode(s[at..], w)
  {
    assert s == s[..at] + s[at..];
    EncodeAppend(s[..at], s[at..], w);
    EncodeLength(s[..at], w);
  }

  lemma EncodeOne(e: nat, w: nat)
    ensures Encode([e], w) == Bits.NatBits(e, w)
  {
    assert [e][1..] == [];
  }

  /** Encode(s[..at] + [e] + s[from..]) in three parts. */
  lemma EncodeAround(s: seq<nat>, w: nat, at: nat, e: nat, from: nat)
    requires at <= from <= |s|
    ensures Encode(s[..at] + [e] + s[from..], w) == Encode(s[..at], w) + Bits.NatBits(e, w) + Encode(s[from..], w)
  {
    EncodeAppend(s[..at] + [e], s[from..], w);
    EncodeAppend(s[..at], [e], w);
    EncodeOne(e, w);
  }

  /** An element's bits inserted at an element boundary. */
  lemma EncodeInserted(s: seq<nat>, w: nat, at: nat, e: nat)
    requires at <= |s|
    ensures at * w <= |Encode(s, w)|
    ensures Blob.Inserted(Encode(s, w), Bits.NatBits(e, w), at * w) == Encode(s[..at] + [e] + s[at..], w)
  {
    EncodeSplit(s, w, at);
    EncodeAround(s, w, at, e, at);
    var c, z := Encode(s, w), Bits.NatBits(e, w);
    assert Blob.Inserted(c, z, at * w) == c[..at * w] + z + c[at * w..];
  }

  /** Elements begin .. begin + n erased on their bit boundaries. */
  lemma EncodeErased(s: seq<nat>, w: nat, begin: nat, n: nat)
    requires begin + n <= |s|
    ensures begin * w <= (begin + n) * w <= |Encode(s, w)|
    ensures Blob.Erased(Encode(s, w), begin * w, (begin + n) * w) == Encode(s[..begin] + s[begin + n..], w)
  {
    var c := Encode(s, w);
    MulMonotone(begin, begin + n, w);
    var b: nat, e: nat := begin * w, (begin + n) * w;
    EncodeSplit(s, w, begin + n);
    EncodeSplit(s, w, begin);
    assert c[..b] == Encode(s[..begin], w);
    assert c[e..] == Encode(s[begin + n..], w);
    EncodeAppend(s[..begin], s[begin + n..], w);
    assert Blob.Erased(c, b, e) == c[..b] + c[e..];
  }

  /** An element's bits written over element `at`. */
  lemma EncodeWritten(s: seq<nat>, w: nat, at: nat, e: nat)
    requires at < |s|
    ensures at * w + w <= |Encode(s, w)|
    ensures Bits.Copied(Encode(s, w), Bits.NatBits(e, w), at * w, 0, w) == Encode(s[at := e], w)
  {
    var a, z, b := Encode(s[..at], w), Bits.NatBits(e, w), Encode(s[at + 1..], w);
    Replaced(s, at, e);
    EncodeAround(s, w, at, s[at], at + 1);
    EncodeAround(s, w, at, e, at + 1);
    EncodeLength(s[..at], w);
    var c := a + Bits.NatBits(s[at], w) + b;
    assert c[..|a|] == a && c[|a| + w..] == b;
    CopiedWhole(c, z, |a|);
  }

  lemma Replaced<T>(s: seq<T>, at: nat, e: T)
    requires at < |s|
    ensures s[..at] + [s[at]] + s[at + 1..] == s
    ensures s[at := e] == s[..at] + [e] + s[at + 1..]
  {
  }

  lemma DropLast<T>(s: seq<T>)
    requires |s| > 0
    ensures s[..|s| - 1] + s[|s|..] + [s[|s| - 1]] == s
  {
  }

  /** Copying all of z to offset b replaces those bits by z. */
  lemma CopiedWhole(c: seq<bool>, z: seq<bool>, b: nat)
    requires b + |z| <= |c|
    ensures Bits.Copied(c, z, b, 0, |z|) == c[..b] + z + c[b + |z|..]
  {
    assert z[0..|z|] == z;
  }

  /** Element `at` lies in bits [at * w, at * w + w). */
  lemma EncodeAt(s: seq<nat>, w: nat, at: nat)
    requires at < |s|
    ensures at * w + w <= |Encode(s, w)|
    ensures Encode(s, w)[at * w..at * w + w] == Bits.NatBits(s[at], w)
  {
    Replaced(s, at, s[at]);
    EncodeAround(s, w, at, s[at], at + 1);
    EncodeLength(s[..at], w);
  }

  /** insert's two steps on the bits: w zero bits put in at element `at`,
      then e written over them. */
  lemma InsertSteps(s: seq<nat>, w: nat, at: nat, e: nat, grown: seq<bool>, written: seq<bool>)
    requires w > 0 && at <= |s| && Fits(s, w) && e < Bits.Pow2(w)
    requires at * w <= |Encode(s, w)| && grown == Blob.Inserted(Encode(s, w), Bits.NatBits(0, w), at * w)
    requires at * w + w <= |grown| && written == Bits.Copied(grown, Bits.NatBits(e, w), at * w, 0, w)
    ensures Decode(written, w) == s[..at] + [e] + s[at..]
    ensures written == Encode(s[..at] + [e] + s[at..], w)
  {
    EncodeInserted(s, w, at, 0);
    var t := s[..at] + [0] + s[at..];
    EncodeWritten(t, w, at, e);
    assert t[at := e] == s[..at] + [e] + s[at..];
    assert Fits(t[at := e], w);
    DecodeEncode(t[at := e], w);
  }

  // ---------------------------------------------------------------------
  // Storage::readBlobAt and Storage::writeBlobAt are not part of this
  // model; they are taken to read and write the `width` bits of element
  // `at` of a blob.

  function ReadBlobAt(store: Blob.BlobStore, id: Blob.Identifier, at: nat, width: nat): (e: nat)
    reads store
    requires at * width + width <= store.BlobSize(id)
    ensures e < Bits.Pow2(width)
  {
    var bits := store.Content(id)[at * width..at * width + width];
    Bits.ValueBound(bits);
    Bits.Value(bits)
  }

  method WriteBlobAt(store: Blob.BlobStore, id: Blob.Identifier, at: nat, width: nat, e: nat)
    requires store.Valid() && width > 0
    requires at * width + width <= store.BlobSize(id)
    modifies store
    ensures store.Valid() && store.maxIdentifier == old(store.maxIdentifier)
    ensures old(store.Issued()) ==> store.Issued()
    ensures store.blobs == old(store.blobs)[id := Bits.Copied(old(store.Content(id)), Bits.NatBits(e, width), at * width, 0, width)]
  {
    store.blobs := store.blobs[id := Bits.Copied(store.blobs[id], Bits.NatBits(e, width), at * width, 0, width)];
  }

  // ---------------------------------------------------------------------
  // BlobVector

  /** BlobVector<guarded, ElementType>: the elements of one symbol's blob.
      Symbol 0 stands for a vector that has no blob yet. */
  class BlobVector {
    var symbol: Blob.Identifier
    const store: Blob.BlobStore
    /** sizeOfInBits<ElementType>. */
    const width: nat
    const guarded: bool

    /** The elements in order. */
    function Elements(): seq<nat>
      reads this, store
    {
      if symbol == 0 || width == 0 then [] else Decode(store.Content(symbol), width)
    }

    /** The blob holds whole elements only, and the symbol was handed out
        by the store. */
    ghost predicate Valid()
      reads this, store
    {
      width > 0 && store.Valid() && store.Issued() && symbol <= store.maxIdentifier &&
      (symbol != 0 ==> store.Content(symbol) == Encode(Elements(), width))
    }

    constructor (store: Blob.BlobStore, width: nat, guarded: bool)
      requires store.Valid() && store.Issued() && width > 0
      ensures this.store == store && this.width == width && this.guarded == guarded
      ensures symbol == 0 && Valid() && Elements() == []
    {
      symbol := 0;
      this.store := store;
      this.width := width;
      this.guarded := guarded;
    }

    /** empty(): no symbol or a blob of size 0. */
    method Empty() returns (r: bool)
      requires Valid()
      ensures r <==> Elements() == []
    {
      r := symbol == 0 || store.BlobSize(symbol) == 0;
      if symbol != 0 {
        EncodeLength(Elements(), width);
        if |Elements()| > 0 {
          MulMonotone(1, |Elements()|, width);
        }
      }
    }

    /** size(): the blob size divided by the element width. */
    method Size() returns (n: nat)
      requires Valid()
      ensures n == |Elements()|
    {
      if symbol == 0 {
        return 0;
      }
      n := store.BlobSize(symbol) / width;
      EncodeLength(Elements(), width);
      MulDiv(|Elements()|, width);
    }

    /** readElementAt(at). */
    method ReadElementAt(at: nat) returns (e: nat)
      requires Valid() && symbol != 0 && at < |Elements()|
      ensures e == Elements()[at]
    {
      ghost var s := Elements();
      EncodeAt(s, width, at);
      DecodeFits(store.Content(symbol), width);
      Bits.NatBitsValue(s[at], width);
      e := ReadBlobAt(store, symbol, at, width);
    }

    /** writeElementAt(at, e): only element `at` and only this blob change. */
    method WriteElementAt(at: nat, e: nat)
      requires Valid() && symbol != 0 && at < |Elements()| && e < Bits.Pow2(width)
      modifies store
      ensures Valid() && Elements() == old(Elements())[at := e]
      ensures store.maxIdentifier == old(store.maxIdentifier)
      ensures store.blobs - {symbol} == old(store.blobs) - {symbol}
    {
      ghost var s := Elements();
      EncodeWritten(s, width, at, e);
      DecodeFits(store.Content(symbol), width);
      WriteBlobAt(store, symbol, at, width, e);
      assert Fits(s[at := e], width);
      DecodeEncode(s[at := e], width);
    }

    /** front(). */
    method Front() returns (e: nat)
      requires Valid() && Elements() != []
      ensures e == Elements()[0]
    {
      e := ReadElementAt(0);
    }

    /** back(). */
    method Back() returns (e: nat)
      requires Valid() && Elements() != []
      ensures e == Elements()[|Elements()| - 1]
    {
      var n := Size();
      e := ReadElementAt(n - 1);
    }

    /** iterate(callback): the elements handed to the callback, in order;
        the callback is taken not to change the vector. */
    method Iterate() returns (visited: seq<nat>)
      requires Valid()
      ensures visited == Elements()
    {
      visited := [];
      var at := 0;
      var n := Size();
      while at < n
        invariant at <= n == |Elements()|
        invariant visited == Elements()[..at]
      {
        var e := ReadElementAt(at);
        visited := visited + [e];
        at := at + 1;
        n := Size();
      }
    }

    /** activate(): gives the vector a new symbol if it has none; only a
        guarded vector may be activated. */
    method Activate()
      requires Valid() && (symbol != 0 || guarded)
      modifies this, store
      ensures Valid() && symbol != 0 && Elements() == old(Elements())
      ensures store.blobs == old(store.blobs)
      ensures old(symbol) != 0 ==> symbol == old(symbol) && store.maxIdentifier == old(store.maxIdentifier)
      ensures old(symbol) == 0 ==> symbol == store.maxIdentifier == old(store.maxIdentifier) + 1
    {
      if symbol == 0 {
        symbol := store.CreateIdentifier();
      }
    }

    /** clear(): frees the blob. */
    method Clear()
      requires Valid()
      modifies store
      ensures Valid() && Elements() == []
      ensures store.maxIdentifier == old(store.maxIdentifier)
      ensures store.blobs == old(store.blobs) - {symbol}
    {
      if symbol != 0 {
        var size := store.BlobSize(symbol);
        var ok := store.EraseFromBlob(symbol, 0, size);
      }
    }

    /** insert(at, e): e is placed at `at`, the later elements move up. */
    method Insert(at: nat, e: nat)
      requires Valid() && at <= |Elements()| && e < Bits.Pow2(width) && (symbol != 0 || guarded)
      modifies this, store
      ensures Valid() && symbol != 0
      ensures Elements() == old(Elements())[..at] + [e] + old(Elements())[at..]
      ensures old(symbol) != 0 ==> symbol == old(symbol) && store.maxIdentifier == old(store.maxIdentifier)
      ensures store.blobs - {symbol} == old(store.blobs) - {symbol}
    {
      ghost var s := Elements();
      if symbol != 0 {
        DecodeFits(store.Content(symbol), width);
      }
      EncodeLength(s, width);
      MulMonotone(at, |s|, width);
      Activate();
      var zeros := Bits.NatBits(0, width);
      assert zeros[..width] == zeros;
      var ok := store.InsertIntoBlob(symbol, zeros, at * width, width);
      assert ok;
      ghost var grown := store.Content(symbol);
      WriteBlobAt(store, symbol, at, width, e);
      InsertSteps(s, width, at, e, grown, store.Content(symbol));
    }

    /** erase(begin, length): removes those elements; the later ones move
        down.  The source asserts that the blob shrinks. */
    method Erase(begin: nat, length: nat)
      requires Valid() && symbol != 0 && 0 < length && begin + length <= |Elements()|
      modifies store
      ensures Valid()
      ensures Elements() == old(Elements())[..begin] + old(Elements())[begin + length..]
      ensures store.maxIdentifier == old(store.maxIdentifier)
      ensures store.blobs - {symbol} == old(store.blobs) - {symbol}
    {
      ghost var s := Elements();
      EncodeErased(s, width, begin, length);
      MulMonotone(1, length, width);
      assert (begin + length) * width == begin * width + length * width;
      var ok := store.EraseFromBlob(symbol, begin * width, (begin + length) * width);
      assert ok;
      ghost var t := s[..begin] + s[begin + length..];
      DecodeFits(Encode(s, width), width);
      DecodeEncode(s, width);
      assert Fits(t, width);
      DecodeEncode(t, width);
    }

    /** erase(at). */
    method EraseAt(at: nat)
      requires Valid() && symbol != 0 && at < |Elements()|
      modifies store
      ensures Valid() && Elements() == old(Elements())[..at] + old(Elements())[at + 1..]
      ensures store.maxIdentifier == old(store.maxIdentifier)
      ensures store.blobs - {symbol} == old(store.blobs) - {symbol}
    {
      Erase(at, 1);
    }

    /** push_back(e). */
    method PushBack(e: nat)
      requires Valid() && e < Bits.Pow2(width) && (symbol != 0 || guarded)
      modifies this, store
      ensures Valid() && symbol != 0 && Elements() == old(Elements()) + [e]
      ensures old(symbol) != 0 ==> symbol == old(symbol) && store.maxIdentifier == old(store.maxIdentifier)
      ensures store.blobs - {symbol} == old(store.blobs) - {symbol}
    {
      var n := Size();
      Insert(n, e);
      assert old(Elements())[n..] == [];
    }

    /** pop_back(): removes and returns the last element. */
    method PopBack() returns (e: nat)
      requires Valid() && Elements() != []
      modifies store
      ensures Valid()
      ensures old(Elements()) == Elements() + [e]
      ensures store.maxIdentifier == old(store.maxIdentifier)
      ensures store.blobs - {symbol} == old(store.blobs) - {symbol}
    {
      ghost var s := Elements();
      e := Back();
      var n := Size();
      EraseAt(n - 1);
      DropLast(s);
    }
  }

  /** push_back followed by pop_back gives the element back and restores
      the elements. */
  method PushThenPop(v: BlobVector, e: nat) returns (r: nat)
    requires v.Valid() && e < Bits.Pow2(v.width) && (v.symbol != 0 || v.guarded)
    modifies v, v.store
    ensures v.Valid() && r == e && v.Elements() == old(v.Elements())
  {
    ghost var s := v.Elements();
    v.PushBack(e);
    ghost var t := v.Elements();
    r := v.PopBack();
    assert t == s + [e] == v.Elements() + [r];
    assert t[..|s|] == s && t[|s|] == e;
  }

  // ---------------------------------------------------------------------
  // binarySearch

  /** p holds on a prefix of 0 .. n - 1: wherever it holds, it holds
      before. */
  ghost predicate HoldsOnPrefix(n: nat, p: nat -> bool)
  {
    forall i: nat, j: nat :: i < j < n && p(j) ==> p(i)
  }

  /** binarySearch(n, predicate) with the usual halving loop: for a
      predicate that holds on a prefix of 0 .. n - 1, the first index at
      which it fails.  binarySearch itself is not part of this model. */
  method BinarySearch(n: nat, p: nat -> bool) returns (at: nat)
    ensures at <= n
    ensures HoldsOnPrefix(n, p) ==> (forall i: nat :: i < at ==> p(i)) && (forall i: nat :: at <= i < n ==> !p(i))
  {
    var lo, hi := 0, n;
    while lo < hi
      invariant 0 <= lo <= hi <= n
      invariant HoldsOnPrefix(n, p) ==> forall i: nat :: i < lo ==> p(i)
      invariant HoldsOnPrefix(n, p) ==> forall i: nat :: hi <= i < n ==> !p(i)
    {
      var mid := (lo + hi) / 2;
      if p(mid) {
        lo := mid + 1;
      } else {
        hi := mid;
      }
    }
    at := lo;
  }

  // ---------------------------------------------------------------------
  // BlobSet

  /** The key of an element: its Pair's key, the low KeyBits bits. */
  function Key(e: nat): nat
  {
    e % Bits.Pow2(KeyBits)
  }

  /** Keys strictly increase along the sequence. */
  ghost predicate Increasing(s: seq<nat>)
  {
    forall i, j :: 0 <= i < j < |s| ==> Key(s[i]) < Key(s[j])
  }

  lemma IncreasingInsert(s: seq<nat>, at: nat, e: nat)
    requires Increasing(s) && at <= |s|
    requires forall i :: 0 <= i < at ==> Key(s[i]) < Key(e)
    requires forall i :: at <= i < |s| ==> Key(e) < Key(s[i])
    ensures Increasing(s[..at] + [e] + s[at..])
  {
    var t := s[..at] + [e] + s[at..];
    forall i, j | 0 <= i < j < |t|
      ensures Key(t[i]) < Key(t[j])
    {
      var x := if i < at then s[i] else if i == at then e else s[i - 1];
      var y := if j < at then s[j] else if j == at then e else s[j - 1];
      assert t[i] == x && t[j] == y;
    }
  }

  lemma IncreasingErase(s: seq<nat>, at: nat)
    requires Increasing(s) && at < |s|
    ensures Increasing(s[..at] + s[at + 1..])
  {
    var t := s[..at] + s[at + 1..];
    forall i, j | 0 <= i < j < |t|
      ensures Key(t[i]) < Key(t[j])
    {
      var x := if i < at then s[i] else s[i + 1];
      var y := if j < at then s[j] else s[j + 1];
      assert t[i] == x && t[j] == y;
    }
  }

  /** BlobSet's search predicate: key > the key of element i. */
  function Below(s: seq<nat>, key: nat): nat -> bool
  {
    (i: nat) => i < |s| && key > Key(s[i])
  }

  lemma IncreasingBelow(s: seq<nat>, key: nat)
    requires Increasing(s)
    ensures HoldsOnPrefix(|s|, Below(s, key))
    ensures forall i: nat :: Below(s, key)(i) <==> i < |s| && Key(s[i]) < key
  {
  }

  /** BlobSet<guarded, KeyType, ValueType>: a BlobVector of Pairs whose keys
      strictly increase. */
  class BlobSet {
    const vector: BlobVector

    function Elements(): seq<nat>
      reads this, vector, vector.store
    {
      vector.Elements()
    }

    ghost predicate Valid()
      reads this, vector, vector.store
    {
      vector.Valid() && vector.width >= KeyBits && Increasing(vector.Elements())
    }

    constructor (store: Blob.BlobStore, width: nat, guarded: bool)
      requires store.Valid() && store.Issued() && width >= KeyBits
      ensures fresh(vector) && vector.store == store && vector.width == width && vector.guarded == guarded
      ensures vector.symbol == 0 && Valid() && Elements() == []
    {
      vector := new BlobVector(store, width, guarded);
    }

    /** find(key): the first position whose key is not below `key`. */
    method Lower(key: nat) returns (at: nat)
      requires Valid()
      ensures at <= |Elements()|
      ensures forall i :: 0 <= i < at ==> Key(Elements()[i]) < key
      ensures forall i :: at <= i < |Elements()| ==> key <= Key(Elements()[i])
    {
      var n := vector.Size();
      var elements := vector.Elements();
      IncreasingBelow(elements, key);
      at := BinarySearch(n, Below(elements, key));
    }

    /** find(key, at): whether an element has that key, and where it is or
        would go. */
    method Find(key: nat) returns (found: bool, at: nat)
      requires Valid()
      ensures at <= |Elements()|
      ensures found <==> exists i :: 0 <= i < |Elements()| && Key(Elements()[i]) == key
      ensures found ==> at < |Elements()| && Key(Elements()[at]) == key
      ensures forall i :: 0 <= i < at ==> Key(Elements()[i]) < key
      ensures forall i :: at <= i < |Elements()| ==> key <= Key(Elements()[i])
    {
      at := Lower(key);
      var n := vector.Size();
      if at < n {
        var e := vector.ReadElementAt(at);
        found := Key(e) == key;
        if !found {
          forall i | 0 <= i < |Elements()|
            ensures Key(Elements()[i]) != key
          {
            if at < i {
              assert Key(Elements()[at]) < Key(Elements()[i]);
            }
          }
        }
      } else {
        found := false;
      }
    }

    /** insertElement(e): false, and nothing changes, when the key is
        already present; otherwise e goes in at its place in key order. */
    method InsertElement(e: nat) returns (ok: bool)
      requires Valid() && e < Bits.Pow2(vector.width) && (vector.symbol != 0 || vector.guarded)
      modifies vector, vector.store
      ensures Valid()
      ensures ok <==> forall i :: 0 <= i < |old(Elements())| ==> Key(old(Elements())[i]) != Key(e)
      ensures !ok ==> vector.symbol == old(vector.symbol) && vector.store.blobs == old(vector.store.blobs)
      ensures ok ==> exists at :: 0 <= at <= |old(Elements())| && Elements() == old(Elements())[..at] + [e] + old(Elements())[at..]
      ensures vector.store.blobs - {vector.symbol} == old(vector.store.blobs) - {vector.symbol}
    {
      ghost var s := Elements();
      var found, at := Find(Key(e));
      if found {
        return false;
      }
      IncreasingInsert(s, at, e);
      vector.Insert(at, e);
      ok := true;
    }

    /** eraseElement(e): false when no element has e's key; otherwise that
        element is removed. */
    method EraseElement(e: nat) returns (ok: bool)
      requires Valid()
      modifies vector.store
      ensures Valid()
      ensures ok <==> exists i :: 0 <= i < |old(Elements())| && Key(old(Elements())[i]) == Key(e)
      ensures !ok ==> vector.store.blobs == old(vector.store.blobs)
      ensures ok ==> exists at :: 0 <= at < |old(Elements())| && Key(old(Elements())[at]) == Key(e) &&
                       Elements() == old(Elements())[..at] + old(Elements())[at + 1..]
      ensures vector.store.blobs - {vector.symbol} == old(vector.store.blobs) - {vector.symbol}
    {
      ghost var s := Elements();
      var found, at := Find(Key(e));
      if !found {
        return false;
      }
      IncreasingErase(s, at);
      vector.EraseAt(at);
      ok := true;
    }
  }

  // ---------------------------------------------------------------------
  // BlobIndex

  /** BlobIndex<guarded>: a BlobSet of symbols ordered by their blobs'
      content (compareBlobs), which interns symbols of equal content. */
  class BlobIndex {
    const vector: BlobVector

    function Elements(): seq<nat>
      reads this, vector, vector.store
    {
      vector.Elements()
    }

    ghost predicate Valid()
      reads this, vector, vector.store
    {
      vector.Valid() && vector.width == KeyBits
    }

    constructor (store: Blob.BlobStore, guarded: bool)
      requires store.Valid() && store.Issued()
      ensures fresh(vector) && vector.store == store && vector.guarded == guarded
      ensures vector.symbol == 0 && Valid() && Elements() == []
    {
      vector := new BlobVector(store, KeyBits, guarded);
    }

    /** compareBlobs(key, element) < 0. */
    function Precedes(key: Blob.Identifier, element: Blob.Identifier): bool
      reads vector, vector.store
    {
      Blob.CompareContents(vector.store.Content(key), vector.store.Content(element)) < 0
    }

    /** find(key): binarySearch over "key sorts before the element".  When
        that holds on a prefix, the result is where the prefix ends. */
    method Lower(key: Blob.Identifier) returns (at: nat)
      requires Valid()
      ensures at <= |Elements()|
      ensures (forall i, j :: 0 <= i < j < |Elements()| && Precedes(key, Elements()[j]) ==> Precedes(key, Elements()[i])) ==>
        (forall i :: 0 <= i < at ==> Precedes(key, Elements()[i])) &&
        (forall i :: at <= i < |Elements()| ==> !Precedes(key, Elements()[i]))
    {
      var n := vector.Size();
      var elements := vector.Elements();
      var flags := seq(n, i requires 0 <= i < n reads vector, vector.store => Precedes(key, elements[i]));
      var before := (i: nat) => i < |flags| && flags[i];
      at := BinarySearch(n, before);
      assert forall i: nat :: i < n ==> before(i) == Precedes(key, elements[i]);
    }

    /** find(element, at): true only when the element at `at` has the same
        content as `element`. */
    method Find(element: Blob.Identifier) returns (found: bool, at: nat)
      requires Valid()
      ensures at <= |Elements()|
      ensures found ==> at < |Elements()| && vector.store.Content(Elements()[at]) == vector.store.Content(element)
      ensures !found && at < |Elements()| ==> vector.store.Content(Elements()[at]) != vector.store.Content(element)
    {
      at := Lower(element);
      var n := vector.Size();
      if at == n {
        return false, at;
      }
      var x := vector.ReadElementAt(at);
      var c := vector.store.CompareBlobs(element, x);
      Blob.CompareContentsZero(vector.store.Content(element), vector.store.Content(x));
      found := c == 0;
    }

    /** insertElement(element): when a symbol of equal content is stored,
        that symbol is the result and nothing changes; otherwise element is
        inserted where find put it.  Ontology::unlink of the duplicate is
        not part of this model. */
    method InsertElement(element: Blob.Identifier) returns (interned: Blob.Identifier)
      requires Valid() && element < Bits.Pow2(KeyBits) && (vector.symbol != 0 || vector.guarded)
      modifies vector, vector.store
      ensures Valid()
      ensures (interned in old(Elements()) && old(vector.store.Content(interned)) == old(vector.store.Content(element)) &&
               vector.symbol == old(vector.symbol) && vector.store.blobs == old(vector.store.blobs)) ||
              (interned == element &&
               exists at :: 0 <= at <= |old(Elements())| && Elements() == old(Elements())[..at] + [element] + old(Elements())[at..])
      ensures vector.store.blobs - {vector.symbol} == old(vector.store.blobs) - {vector.symbol}
    {
      var found, at := Find(element);
      if found {
        interned := vector.ReadElementAt(at);
      } else {
        vector.Insert(at, element);
        interned := element;
      }
    }

    /** eraseElement(element): false when find reports no equal content;
        otherwise the element found is removed. */
    method EraseElement(element: Blob.Identifier) returns (ok: bool)
      requires Valid()
      modifies vector.store
      ensures Valid()
      ensures !ok ==> vector.store.blobs == old(vector.store.blobs)
      ensures ok ==> exists at :: 0 <= at < |old(Elements())| &&
                       old(vector.store.Content(vector.Elements()[at])) == old(vector.store.Content(element)) &&
                       Elements() == old(Elements())[..at] + old(Elements())[at + 1..]
      ensures vector.store.blobs - {vector.symbol} == old(vector.store.blobs) - {vector.symbol}
    {
      var found, at := Find(element);
      if !found {
        return false;
      }
      vector.EraseAt(at);
      ok := true;
    }
  }
}
