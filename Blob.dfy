/** The blob store (Storage/Blob.hpp): identifiers naming bit strings of any
    length, the counter that hands out identifiers, and the operations that
    resize, compare, copy into, insert into and erase from blobs.

    The B+ tree `blobs` is modelled as a map from identifier to the blob's
    bits; an identifier without an entry has the empty blob.  The data
    movements the source does with bitwiseCopy are stated with its
    specification `Bits.Copied`, which `Bits.BitwiseCopyAny` implements on
    word buffers. */
module Blob {
  import Bits

  type Identifier = nat

  function Min(a: nat, b: nat): nat { if a < b then a else b }

  /** The bits of c with s put in at offset begin. */
  function Inserted(c: seq<bool>, s: seq<bool>, begin: nat): seq<bool>
    requires begin <= |c|
  {
    c[..begin] + s + c[begin..]
  }

  /** The bits of c without those in [begin, end). */
  function Erased(c: seq<bool>, begin: nat, end: nat): seq<bool>
    requires begin <= end <= |c|
  {
    c[..begin] + c[end..]
  }

  /** Erasing what was just inserted gives back the blob. */
  lemma EraseInserted(c: seq<bool>, s: seq<bool>, begin: nat)
    requires begin <= |c|
    ensures |Inserted(c, s, begin)| == |c| + |s|
    ensures Erased(Inserted(c, s, begin), begin, begin + |s|) == c
  {
    var t := Inserted(c, s, begin);
    assert t[..begin] == c[..begin];
    assert t[begin + |s|..] == c[begin..];
  }

  /** eraseFromBlob's data movement: the bits from `end` on are copied down
      to `begin`, which leaves the erased blob in front. */
  lemma EraseCopies(c: seq<bool>, moved: seq<bool>, begin: nat, end: nat)
    requires begin < end <= |c|
    requires moved == if |c| - end > 0 then Bits.Copied(c, c, begin, end, |c| - end) else c
    ensures |moved| == |c| && moved[..|c| - (end - begin)] == Erased(c, begin, end)
  {
    var e := Erased(c, begin, end);
    forall i | 0 <= i < |e|
      ensures moved[i] == e[i]
    {
    }
  }

  /** insertIntoBlob's data movement: in the grown blob the bits from
      `begin` on are copied up by `length`, then src fills the gap. */
  lemma InsertCopies(c: seq<bool>, grown: seq<bool>, moved: seq<bool>, src: seq<bool>, begin: nat, length: nat)
    requires begin <= |c| && length <= |src|
    requires |grown| == |c| + length && grown[..|c|] == c
    requires moved == if |c| - begin > 0 then Bits.Copied(grown, grown, begin + length, begin, |c| - begin) else grown
    ensures |moved| == |grown|
    ensures Bits.Copied(moved, src, begin, 0, length) == Inserted(c, src[..length], begin)
  {
    var r, e := Bits.Copied(moved, src, begin, 0, length), Inserted(c, src[..length], begin);
    forall i | 0 <= i < |r|
      ensures r[i] == e[i]
    {
      if i < begin {
        assert r[i] == moved[i] == grown[i] == c[i];
      } else if i >= begin + length {
        assert r[i] == moved[i] == grown[i - length] == c[i - length];
      }
    }
  }

  // ---------------------------------------------------------------------
  // What memcmp sees of a blob.

  /** Eight bits, lowest first, as a byte. */
  function ByteOf(b: seq<bool>): (r: Bits.Byte)
    requires |b| == Bits.CharBits
    ensures r as int == Bits.Value(b)
  {
    Bits.ValueBound(b);
    Bits.Pow2Byte();
    Bits.Value(b) as Bits.Byte
  }

  /** The (size + 7) / 8 bytes of a blob's data: every 8 bits, lowest first,
      the last byte filled up with the zero bits that setBlobSize leaves
      past the end of a blob. */
  function ToBytes(bits: seq<bool>): (r: seq<Bits.Byte>)
    ensures |r| == (|bits| + 7) / 8
    decreases |bits|
  {
    if |bits| == 0 then []
    else if |bits| < Bits.CharBits then [ByteOf(bits + seq(Bits.CharBits - |bits|, _ => false))]
    else [ByteOf(bits[..Bits.CharBits])] + ToBytes(bits[Bits.CharBits..])
  }

  /** Blobs of one size with the same bytes have the same bits. */
  lemma {:induction false} ToBytesInjective(x: seq<bool>, y: seq<bool>)
    requires |x| == |y| && ToBytes(x) == ToBytes(y)
    ensures x == y
    decreases |x|
  {
    var n := Bits.CharBits;
    if 0 < |x| < n {
      var px, py := x + seq(n - |x|, _ => false), y + seq(n - |y|, _ => false);
      assert ByteOf(px) == ToBytes(x)[0] == ToBytes(y)[0] == ByteOf(py);
      Bits.ValueInjective(px, py);
      assert x == px[..|x|] && y == py[..|y|];
    } else if |x| >= n {
      assert ByteOf(x[..n]) == ToBytes(x)[0] == ToBytes(y)[0] == ByteOf(y[..n]);
      Bits.ValueInjective(x[..n], y[..n]);
      assert ToBytes(x)[1..] == ToBytes(x[n..]) && ToBytes(y)[1..] == ToBytes(y[n..]);
      ToBytesInjective(x[n..], y[n..]);
      Bits.SplitEqual(x, y, n);
    }
  }

  /** The sign of memcmp over two byte strings of one length: the first
      differing byte, compared as unsigned, decides. */
  function MemCompare(x: seq<Bits.Byte>, y: seq<Bits.Byte>): (r: int)
    requires |x| == |y|
    ensures -1 <= r <= 1
    ensures r == 0 <==> x == y
  {
    if |x| == 0 then 0
    else if x[0] < y[0] then -1
    else if x[0] > y[0] then 1
    else
      assert x == [x[0]] + x[1..] && y == [y[0]] + y[1..];
      MemCompare(x[1..], y[1..])
  }

  lemma {:induction false} MemCompareAntisymmetric(x: seq<Bits.Byte>, y: seq<Bits.Byte>)
    requires |x| == |y|
    ensures MemCompare(x, y) == -MemCompare(y, x)
  {
    if |x| > 0 && x[0] == y[0] {
      MemCompareAntisymmetric(x[1..], y[1..]);
    }
  }

  /** The order compareBlobs puts blob contents in: by size first, then by
      the bytes of the data. */
  function CompareContents(x: seq<bool>, y: seq<bool>): int
  {
    if |x| < |y| then -1
    else if |x| > |y| then 1
    else if |x| == 0 then 0
    else MemCompare(ToBytes(x), ToBytes(y))
  }

  /** compareBlobs is 0 exactly for equal blobs. */
  lemma CompareContentsZero(x: seq<bool>, y: seq<bool>)
    ensures CompareContents(x, y) == 0 <==> x == y
  {
    if |x| == |y| > 0 && ToBytes(x) == ToBytes(y) {
      ToBytesInjective(x, y);
    }
  }

  /** compareBlobs is antisymmetric. */
  lemma CompareContentsAntisymmetric(x: seq<bool>, y: seq<bool>)
    ensures CompareContents(x, y) == -CompareContents(y, x)
  {
    if |x| == |y| > 0 {
      MemCompareAntisymmetric(ToBytes(x), ToBytes(y));
    }
  }

  // ---------------------------------------------------------------------
  // The store.

  class BlobStore {
    /** blobs: identifier to data; blobs of size 0 have no entry. */
    var blobs: map<Identifier, seq<bool>>
    /** maxIdentifier: the last identifier handed out. */
    var maxIdentifier: Identifier

    /** setBlobSize frees blobs resized to 0, so every stored blob is
        non-empty. */
    ghost predicate Valid()
      reads this
    {
      forall id :: id in blobs ==> |blobs[id]| > 0
    }

    /** Every stored blob has an identifier createIdentifier handed out. */
    ghost predicate Issued()
      reads this
    {
      forall id :: id in blobs ==> 0 < id <= maxIdentifier
    }

    constructor ()
      ensures blobs == map[] && maxIdentifier == 0
      ensures Valid() && Issued()
    {
      blobs := map[];
      maxIdentifier := 0;
    }

    /** The data of a blob; an identifier without storage has none. */
    function Content(id: Identifier): seq<bool>
      reads this
    {
      if id in blobs then blobs[id] else []
    }

    /** getBlobSize: the size of a blob in bits, 0 without storage. */
    function BlobSize(id: Identifier): (size: nat)
      reads this
      ensures size == |Content(id)|
      ensures Valid() ==> (size == 0 <==> id !in blobs)
    {
      if id in blobs then |blobs[id]| else 0
    }

    /** createIdentifier: the next value of the counter. */
    method CreateIdentifier() returns (id: Identifier)
      modifies this
      ensures id == old(maxIdentifier) + 1 == maxIdentifier
      ensures blobs == old(blobs)
      ensures old(Issued()) ==> Issued() && id !in blobs && Content(id) == []
    {
      maxIdentifier := maxIdentifier + 1;
      id := maxIdentifier;
    }

    /** setBlobSize(id, size, preserve): size 0 frees the blob; otherwise the
        blob gets `size` bits of which the first min(old size, size,
        preserve) keep their value and the others are not specified. */
    method SetBlobSize(id: Identifier, size: nat, preserve: nat)
      requires Valid()
      modifies this
      ensures Valid() && maxIdentifier == old(maxIdentifier)
      ensures old(Issued()) && (size == 0 || 0 < id <= maxIdentifier) ==> Issued()
      ensures blobs - {id} == old(blobs) - {id}
      ensures size == 0 ==> id !in blobs
      ensures BlobSize(id) == size
      ensures var kept := Min(Min(old(BlobSize(id)), size), preserve);
        kept <= |Content(id)| && Content(id)[..kept] == old(Content(id))[..kept]
    {
      if size == 0 {
        blobs := blobs - {id};
        return;
      }
      var data := seq(size, _ => false);
      if id in blobs {
        var length := Min(Min(|blobs[id]|, size), preserve);
        if length > 0 {
          data := Bits.Copied(data, blobs[id], 0, 0, length);
        }
      }
      blobs := blobs[id := data];
    }

    /** setBlobSizePreservingData(id, size). */
    method SetBlobSizePreservingData(id: Identifier, size: nat)
      requires Valid()
      modifies this
      ensures Valid() && maxIdentifier == old(maxIdentifier)
      ensures old(Issued()) && (size == 0 || 0 < id <= maxIdentifier) ==> Issued()
      ensures blobs - {id} == old(blobs) - {id}
      ensures BlobSize(id) == size
      ensures var kept := Min(old(BlobSize(id)), size);
        Content(id)[..kept] == old(Content(id))[..kept]
    {
      SetBlobSize(id, size, size);
    }

    /** compareBlobs(a, b). */
    method CompareBlobs(a: Identifier, b: Identifier) returns (r: int)
      ensures r == CompareContents(Content(a), Content(b))
    {
      if a == b {
        CompareContentsZero(Content(a), Content(b));
        return 0;
      }
      var sizeA, sizeB := BlobSize(a), BlobSize(b);
      if sizeA < sizeB {
        return -1;
      }
      if sizeA > sizeB {
        return 1;
      }
      if sizeA == 0 {
        return 0;
      }
      r := MemCompare(ToBytes(blobs[a]), ToBytes(blobs[b]));
    }

    /** overwriteBlobPartial(dst, src, dstOffset, srcOffset, length): copies
        `length` bits when both ranges are non-empty and inside their
        blobs, with memmove meaning when dst == src. */
    method OverwriteBlobPartial(dst: Identifier, src: Identifier, dstOffset: nat, srcOffset: nat, length: nat)
      returns (ok: bool)
      requires Valid()
      modifies this
      ensures Valid() && maxIdentifier == old(maxIdentifier)
      ensures ok == (0 < length && dstOffset + length <= old(BlobSize(dst)) && srcOffset + length <= old(BlobSize(src)))
      ensures !ok ==> blobs == old(blobs)
      ensures blobs - {dst} == old(blobs) - {dst}
      ensures ok ==> Content(dst) == Bits.Copied(old(Content(dst)), old(Content(src)), dstOffset, srcOffset, length)
    {
      var dstSize, srcSize := BlobSize(dst), BlobSize(src);
      var end := dstOffset + length;
      if end <= dstOffset || end > dstSize {
        return false;
      }
      end := srcOffset + length;
      if end <= srcOffset || end > srcSize {
        return false;
      }
      blobs := blobs[dst := Bits.Copied(blobs[dst], blobs[src], dstOffset, srcOffset, length)];
      ok := true;
    }

    /** cloneBlob(dst, src): dst becomes a copy of src.  The source asserts
        that the copied blob is not empty (accessBlobData and bitwiseCopy). */
    method CloneBlob(dst: Identifier, src: Identifier)
      requires Valid()
      requires dst == src || BlobSize(src) > 0
      modifies this
      ensures Valid() && maxIdentifier == old(maxIdentifier)
      ensures old(Issued()) && 0 < dst <= maxIdentifier ==> Issued()
      ensures blobs - {dst} == old(blobs) - {dst}
      ensures Content(dst) == old(Content(src))
    {
      if dst == src {
        return;
      }
      var srcSize := BlobSize(src);
      SetBlobSize(dst, srcSize, 0);
      assert src in old(blobs) - {dst};
      assert Content(src) == (blobs - {dst})[src] == old(Content(src));
      blobs := blobs[dst := Bits.Copied(blobs[dst], Content(src), 0, 0, srcSize)];
      assert Content(dst) == old(Content(src));
    }

    /** overwriteBlob(dst, src): dst becomes the sizeof(src) * 8 bits of the
        value src. */
    method OverwriteBlob(dst: Identifier, value: seq<bool>)
      requires Valid()
      requires |value| > 0 && |value| % Bits.CharBits == 0
      modifies this
      ensures Valid() && maxIdentifier == old(maxIdentifier)
      ensures old(Issued()) && 0 < dst <= maxIdentifier ==> Issued()
      ensures blobs - {dst} == old(blobs) - {dst}
      ensures Content(dst) == value
    {
      SetBlobSize(dst, |value|, 0);
      blobs := blobs[dst := value];
    }

    /** eraseFromBlob(id, begin, end): removes the bits [begin, end) and
        moves the rest down. */
    method EraseFromBlob(id: Identifier, begin: nat, end: nat) returns (ok: bool)
      requires Valid()
      modifies this
      ensures Valid() && maxIdentifier == old(maxIdentifier)
      ensures old(Issued()) ==> Issued()
      ensures ok == (begin < end <= old(BlobSize(id)))
      ensures !ok ==> blobs == old(blobs)
      ensures blobs - {id} == old(blobs) - {id}
      ensures ok ==> Content(id) == Erased(old(Content(id)), begin, end)
    {
      var size := BlobSize(id);
      if begin >= end || end > size {
        return false;
      }
      ghost var c := blobs[id];
      var rest := size - end;
      if rest > 0 {
        blobs := blobs[id := Bits.Copied(blobs[id], blobs[id], begin, end, rest)];
      }
      EraseCopies(c, Content(id), begin, end);
      SetBlobSizePreservingData(id, rest + begin);
      ok := true;
    }

    /** insertIntoBlob(dst, src, begin, length): moves the bits from begin on
        up by `length` and puts the first `length` bits of src in between.
        The source asserts length > 0. */
    method InsertIntoBlob(dst: Identifier, src: seq<bool>, begin: nat, length: nat) returns (ok: bool)
      requires Valid()
      requires 0 < length <= |src|
      modifies this
      ensures Valid() && maxIdentifier == old(maxIdentifier)
      ensures old(Issued()) && 0 < dst <= maxIdentifier ==> Issued()
      ensures ok == (begin <= old(BlobSize(dst)))
      ensures !ok ==> blobs == old(blobs)
      ensures blobs - {dst} == old(blobs) - {dst}
      ensures ok ==> Content(dst) == Inserted(old(Content(dst)), src[..length], begin)
    {
      var dstSize := BlobSize(dst);
      var newBlobSize, rest := dstSize + length, dstSize - begin;
      if dstSize >= newBlobSize || begin > dstSize {
        return false;
      }
      ghost var c := Content(dst);
      SetBlobSizePreservingData(dst, newBlobSize);
      ghost var grown := blobs[dst];
      if rest > 0 {
        blobs := blobs[dst := Bits.Copied(blobs[dst], blobs[dst], begin + length, begin, rest)];
      }
      ghost var moved := blobs[dst];
      blobs := blobs[dst := Bits.Copied(blobs[dst], src, begin, 0, length)];
      InsertCopies(c, grown, moved, src, begin, length);
      ok := true;
    }

    /** releaseIdentifier(id): frees the blob. */
    method ReleaseIdentifier(id: Identifier)
      requires Valid()
      modifies this
      ensures Valid() && maxIdentifier == old(maxIdentifier)
      ensures old(Issued()) ==> Issued()
      ensures blobs == old(blobs) - {id}
      ensures Content(id) == []
    {
      SetBlobSize(id, 0, 0);
    }
  }
}
