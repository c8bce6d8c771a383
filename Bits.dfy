/** Bit-granular reading, masked writing, comparing and copying over arrays
    of machine words (Storage/Basics.hpp).

    A machine word (NativeNaturalType) is modelled as its 64 bits, least
    significant bit first; the shift and mask operators of the source are
    defined bit by bit below.  A buffer of words has the bit view `Flat`:
    bit `i` of the buffer is bit `i % 64` of word `i / 64`, which is how the
    source addresses bit offsets. */
module Bits {

  /** architectureSize: the number of bits in a NativeNaturalType. */
  const WordBits: nat := 64

  type Word = w: seq<bool> | |w| == WordBits witness seq(64, _ => false)

  /** The direction template argument of readSegmentFrom and bitwiseCopy:
      Forward is dir = -1 (read, then advance the offset; copy low to high),
      Fixed is dir = 0 (offset untouched), Backward is dir = +1 (move the
      offset back, then read; copy high to low). */
  datatype Direction = Forward | Fixed | Backward

  // ---------------------------------------------------------------------
  // The word operators, bit by bit.

  /** w >> s (logical shift towards the least significant bit). */
  function Shr(w: Word, s: nat): Word
    requires s <= WordBits
  {
    seq(WordBits, k requires 0 <= k < WordBits => k + s < WordBits && w[k + s])
  }

  /** w << s. */
  function Shl(w: Word, s: nat): Word
    requires s <= WordBits
  {
    seq(WordBits, k requires 0 <= k < WordBits => k >= s && w[k - s])
  }

  function And(a: Word, b: Word): Word {
    seq(WordBits, k requires 0 <= k < WordBits => a[k] && b[k])
  }

  function Or(a: Word, b: Word): Word {
    seq(WordBits, k requires 0 <= k < WordBits => a[k] || b[k])
  }

  function Not(a: Word): Word {
    seq(WordBits, k requires 0 <= k < WordBits => !a[k])
  }

  /** BitMask::fillLSBs(n): the n least significant bits set. */
  function FillLSBs(n: nat): Word
    requires n <= WordBits
  {
    seq(WordBits, k requires 0 <= k < WordBits => k < n)
  }

  /** BitMask::fillMSBs(n): the n most significant bits set. */
  function FillMSBs(n: nat): Word
    requires n <= WordBits
  {
    seq(WordBits, k requires 0 <= k < WordBits => k >= WordBits - n)
  }

  /** The unsigned value of a bit string, least significant bit first. */
  function Value(bits: seq<bool>): nat
  {
    if bits == [] then 0 else (if bits[0] then 1 else 0) + 2 * Value(bits[1..])
  }

  function Pow2(n: nat): (r: nat)
    ensures r > 0
  {
    if n == 0 then 1 else 2 * Pow2(n - 1)
  }

  /** Two bit strings of one length have one value only if they are equal. */
  lemma {:induction false} ValueInjective(a: seq<bool>, b: seq<bool>)
    requires |a| == |b| && Value(a) == Value(b)
    ensures a == b
  {
    if a != [] {
      ValueInjective(a[1..], b[1..]);
      assert a == [a[0]] + a[1..] && b == [b[0]] + b[1..];
    }
  }

  /** A bit string of length n has a value below 2^n. */
  lemma {:induction false} ValueBound(bits: seq<bool>)
    ensures Value(bits) < Pow2(|bits|)
  {
    if bits != [] {
      ValueBound(bits[1..]);
    }
  }

  // ---------------------------------------------------------------------
  // The bit view of a buffer of words.

  function Flat(ws: seq<Word>): (r: seq<bool>)
    ensures |r| == WordBits * |ws|
  {
    if |ws| == 0 then [] else ws[0] + Flat(ws[1..])
  }

  lemma {:induction false} FlatAt(ws: seq<Word>, i: nat)
    requires i < WordBits * |ws|
    ensures i / WordBits < |ws| && Flat(ws)[i] == ws[i / WordBits][i % WordBits]
  {
    if i >= WordBits {
      FlatAt(ws[1..], i - WordBits);
      assert (i - WordBits) / WordBits == i / WordBits - 1;
      assert (i - WordBits) % WordBits == i % WordBits;
    }
  }

  /** What the source's bitwiseCopy promises: the `length` bits of `src`
      from `srcOffset` replace those of `dst` from `dstOffset`; every other
      bit of `dst` stays.  `src` is the source as it was before the copy,
      so this is also the memmove meaning of a copy within one buffer. */
  function Copied(dst: seq<bool>, src: seq<bool>, dstOffset: nat, srcOffset: nat, length: nat): (r: seq<bool>)
    requires dstOffset + length <= |dst| && srcOffset + length <= |src|
    ensures |r| == |dst|
    ensures forall i :: 0 <= i < |r| ==>
      r[i] == if dstOffset <= i < dstOffset + length then src[srcOffset + i - dstOffset] else dst[i]
  {
    dst[..dstOffset] + src[srcOffset..srcOffset + length] + dst[dstOffset + length..]
  }

  // ---------------------------------------------------------------------
  // readSegmentFrom<dir> and writeSegmentTo

  /** The bit offset a segment of `length` bits starts at, for a read at
      `srcOffset` in direction `dir`. */
  function SegmentStart(dir: Direction, srcOffset: nat, length: nat): int
  {
    if dir == Backward then srcOffset - length else srcOffset
  }

  /** readSegmentFrom<dir>(src, srcOffset, length): returns the `length`
      bits at the segment start in the low bits of a word, zeros above them,
      and the new value of the by-reference `srcOffset`. */
  method ReadSegmentFrom(dir: Direction, src: seq<Word>, srcOffset: nat, length: nat)
    returns (segment: Word, newOffset: nat)
    requires length <= WordBits
    requires 0 <= SegmentStart(dir, srcOffset, length) < WordBits * |src|
    requires SegmentStart(dir, srcOffset, length) + length <= WordBits * |src|
    ensures forall k :: 0 <= k < WordBits ==>
      segment[k] == (k < length && Flat(src)[SegmentStart(dir, srcOffset, length) + k])
    ensures newOffset == Advanced(dir, srcOffset, length)
  {
    var offset := SegmentStart(dir, srcOffset, length);
    var lower := offset % WordBits;
    var index := offset / WordBits;
    var upper := WordBits - lower;
    segment := Shr(src[index], lower);
    if upper < length {
      segment := Or(segment, Shl(src[index + 1], upper));
    }
    segment := And(segment, FillLSBs(length));
    forall k | 0 <= k < WordBits
      ensures segment[k] == (k < length && Flat(src)[offset + k])
    {
      if k < length {
        FlatAt(src, offset + k);
        if k < upper {
          assert (offset + k) / WordBits == index && (offset + k) % WordBits == k + lower;
        } else {
          assert (offset + k) / WordBits == index + 1 && (offset + k) % WordBits == k - upper;
        }
      }
    }
    newOffset := Advanced(dir, srcOffset, length);
  }

  /** writeSegmentTo(dst, keepMask, src) on the word *dst: the bits set in
      `keepMask` keep their old value, every other bit takes that of `src`. */
  function WriteSegment(old_: Word, keepMask: Word, src: Word): (r: Word)
    ensures forall k :: 0 <= k < WordBits ==> r[k] == if keepMask[k] then old_[k] else src[k]
  {
    Or(And(old_, keepMask), And(Not(keepMask), src))
  }

  /** Writing word j of a buffer changes exactly the bits of word j. */
  lemma FlatUpdate(ws: seq<Word>, j: nat, w: Word)
    requires j < |ws|
    ensures forall i :: 0 <= i < WordBits * |ws| ==>
      Flat(ws[j := w])[i] == if i / WordBits == j then w[i % WordBits] else Flat(ws)[i]
  {
    forall i | 0 <= i < WordBits * |ws|
      ensures Flat(ws[j := w])[i] == if i / WordBits == j then w[i % WordBits] else Flat(ws)[i]
    {
      FlatAt(ws, i);
      FlatAt(ws[j := w], i);
    }
  }

  // ---------------------------------------------------------------------
  // The proof state of bitwiseCopy<dir>

  /** The bit of `s` at `i`, false outside of `s`. */
  function Get(s: seq<bool>, i: int): bool
  {
    if 0 <= i < |s| then s[i] else false
  }

  /** The buffer `ws` holds, at the bit positions [lo, hi), the bits of
      `src` that a copy from `srcOffset` to `dstOffset` puts there, and the
      bits of `dst` everywhere else. */
  ghost predicate CopiedRange(ws: seq<Word>, dst: seq<bool>, src: seq<bool>,
                              dstOffset: int, srcOffset: int, lo: int, hi: int)
  {
    && |dst| == WordBits * |ws|
    && forall i {:trigger Flat(ws)[i]} :: 0 <= i < WordBits * |ws| ==>
         Flat(ws)[i] == if lo <= i < hi then Get(src, srcOffset + i - dstOffset) else dst[i]
  }

  /** The buffer `ws` still holds the bits of `src` at the positions [from, to). */
  ghost predicate Intact(ws: seq<Word>, src: seq<bool>, from: int, to: int)
  {
    && |src| == WordBits * |ws|
    && forall x {:trigger Flat(ws)[x]} :: from <= x < to && 0 <= x < |src| ==> Flat(ws)[x] == src[x]
  }

  /** Writing word j, whose bits [a, b) now come from the source, extends
      the copied range by those bits. */
  lemma WriteWord(before: seq<Word>, j: nat, w: Word, dst: seq<bool>, src: seq<bool>,
                  dstOffset: int, srcOffset: int, lo: int, hi: int, a: nat, b: nat, base: int,
                  lo2: int, hi2: int)
    requires j < |before| && a <= b <= WordBits
    requires CopiedRange(before, dst, src, dstOffset, srcOffset, lo, hi)
    requires lo <= hi
    requires lo == hi ==> lo2 == j * WordBits + a && hi2 == j * WordBits + b
    requires lo < hi ==>
      || (hi == j * WordBits && a == 0 && lo2 == lo && hi2 == j * WordBits + b)
      || (lo == (j + 1) * WordBits && b == WordBits && lo2 == j * WordBits + a && hi2 == hi)
    requires base == srcOffset + j * WordBits - dstOffset
    requires forall k :: 0 <= k < WordBits ==>
      w[k] == if a <= k < b then Get(src, base + k) else before[j][k]
    ensures CopiedRange(before[j := w], dst, src, dstOffset, srcOffset, lo2, hi2)
  {
    var after := before[j := w];
    FlatUpdate(before, j, w);
    forall i | 0 <= i < WordBits * |after|
      ensures Flat(after)[i] == if lo2 <= i < hi2 then Get(src, srcOffset + i - dstOffset) else dst[i]
    {
      if i / WordBits == j {
        var k := i % WordBits;
        assert i == j * WordBits + k;
        FlatAt(before, i);
        FlatAt(after, i);
        assert Flat(after)[i] == w[k];
        if a <= k < b {
          assert lo2 <= i < hi2;
        } else {
          assert !(lo2 <= i < hi2);
          assert !(lo <= i < hi);
        }
      } else {
        var q := i / WordBits;
        assert q * WordBits <= i < q * WordBits + WordBits;
        if q < j {
          assert q * WordBits + WordBits <= j * WordBits;
        } else {
          assert (j + 1) * WordBits <= q * WordBits;
        }
        assert Flat(after)[i] == Flat(before)[i];
        assert (lo <= i < hi) == (lo2 <= i < hi2);
      }
    }
  }

  /** The bits of a word written through writeSegmentTo with a mask that
      keeps all but [a, b), from a segment shifted up by a. */
  lemma MaskedBits(w: Word, old_: Word, keepMask: Word, shifted: Word, segment: Word, a: nat, b: nat,
                   srcNow: seq<Word>, start: int, src: seq<bool>, base: int)
    requires a <= b <= WordBits
    requires base == start - a
    requires forall k :: 0 <= k < WordBits ==> shifted[k] == (k >= a && segment[k - a])
    requires forall k :: 0 <= k < WordBits ==> w[k] == if keepMask[k] then old_[k] else shifted[k]
    requires forall k :: 0 <= k < WordBits ==> keepMask[k] == !(a <= k < b)
    requires 0 <= start && start + (b - a) <= WordBits * |srcNow|
    requires forall k :: 0 <= k < WordBits ==> segment[k] == (k < b - a && Flat(srcNow)[start + k])
    requires Intact(srcNow, src, start, start + (b - a))
    ensures forall k :: 0 <= k < WordBits ==> w[k] == if a <= k < b then Get(src, base + k) else old_[k]
  {
    forall k | 0 <= k < WordBits
      ensures w[k] == if a <= k < b then Get(src, base + k) else old_[k]
    {
      if a <= k < b {
        assert !keepMask[k] && w[k] == shifted[k] == segment[k - a];
        SourceBit(segment, k - a, srcNow, start, src, b - a);
      } else {
        assert keepMask[k];
      }
    }
  }

  /** Bit i of a segment read from a source that is still intact. */
  lemma SourceBit(segment: Word, i: nat, srcNow: seq<Word>, start: int, src: seq<bool>, n: nat)
    requires i < n <= WordBits
    requires 0 <= start && start + n <= WordBits * |srcNow|
    requires forall k :: 0 <= k < WordBits ==> segment[k] == (k < n && Flat(srcNow)[start + k])
    requires Intact(srcNow, src, start, start + n)
    ensures segment[i] == Get(src, start + i)
  {
    assert segment[i] == Flat(srcNow)[start + i];
  }

  /** The bits of a full word read from the source. */
  lemma WholeBits(segment: Word, srcNow: seq<Word>, start: int, src: seq<bool>)
    requires 0 <= start && start + WordBits <= WordBits * |srcNow|
    requires forall k :: 0 <= k < WordBits ==> segment[k] == (k < WordBits && Flat(srcNow)[start + k])
    requires Intact(srcNow, src, start, start + WordBits)
    ensures forall k :: 0 <= k < WordBits ==> segment[k] == Get(src, start + k)
  {
  }

  /** Within one buffer, the bits outside of the copied range are still
      those of the source. */
  lemma AliasIntact(ws: seq<Word>, dst: seq<bool>, dstOffset: int, srcOffset: int,
                    lo: int, hi: int, from: int, to: int)
    requires CopiedRange(ws, dst, dst, dstOffset, srcOffset, lo, hi)
    requires to <= from || to <= lo || hi <= from
    ensures Intact(ws, dst, from, to)
  {
  }

  /** A fully copied range is the copy. */
  lemma CopiedAll(ws: seq<Word>, dst: seq<bool>, src: seq<bool>, dstOffset: nat, srcOffset: nat, length: nat)
    requires dstOffset + length <= |dst| && srcOffset + length <= |src|
    requires CopiedRange(ws, dst, src, dstOffset, srcOffset, dstOffset, dstOffset + length)
    ensures Flat(ws) == Copied(dst, src, dstOffset, srcOffset, length)
  {
  }

  /** One masked write of bitwiseCopy<dir>: the segment read from the
      source, shifted up by a, replaces the bits [a, b) of word j. */
  lemma MaskedWrite(before: seq<Word>, srcNow: seq<Word>, j: nat, w: Word, segment: Word, keepMask: Word,
                    dst: seq<bool>, src: seq<bool>, dstOffset: int, srcOffset: int, lo: int, hi: int,
                    a: nat, b: nat, n: nat, dir: Direction, readOffset: nat, from: int, to: int,
                    lo2: int, hi2: int)
    requires j < |before| && a < b <= WordBits && n == b - a
    requires CopiedRange(before, dst, src, dstOffset, srcOffset, lo, hi)
    requires lo == hi ==> lo2 == j * WordBits + a && hi2 == j * WordBits + b
    requires lo < hi ==>
      || (hi == j * WordBits && a == 0 && lo2 == lo && hi2 == j * WordBits + b)
      || (lo == (j + 1) * WordBits && b == WordBits && lo2 == j * WordBits + a && hi2 == hi)
    requires lo <= hi
    requires 0 <= SegmentStart(dir, readOffset, n) < WordBits * |srcNow|
    requires SegmentStart(dir, readOffset, n) + n <= WordBits * |srcNow|
    requires SegmentStart(dir, readOffset, n) == srcOffset + j * WordBits + a - dstOffset
    requires Intact(srcNow, src, from, to)
    requires from <= SegmentStart(dir, readOffset, n) && SegmentStart(dir, readOffset, n) + n <= to
    requires forall k :: 0 <= k < WordBits ==>
      segment[k] == (k < n && Flat(srcNow)[SegmentStart(dir, readOffset, n) + k])
    requires forall k :: 0 <= k < WordBits ==> keepMask[k] == !(a <= k < b)
    requires w == WriteSegment(before[j], keepMask, Shl(segment, a))
    ensures CopiedRange(before[j := w], dst, src, dstOffset, srcOffset, lo2, hi2)
  {
    var start := SegmentStart(dir, readOffset, n);
    MaskedBits(w, before[j], keepMask, Shl(segment, a), segment, a, b, srcNow, start, src, start - a);
    WriteWord(before, j, w, dst, src, dstOffset, srcOffset, lo, hi, a, b, start - a, lo2, hi2);
  }

  /** One full-word write of bitwiseCopy<dir>: word j becomes the next
      word of the source. */
  lemma FullWrite(before: seq<Word>, srcNow: seq<Word>, j: nat, segment: Word,
                  dst: seq<bool>, src: seq<bool>, dstOffset: int, srcOffset: int, lo: int, hi: int,
                  dir: Direction, readOffset: nat, from: int, to: int, lo2: int, hi2: int)
    requires j < |before|
    requires CopiedRange(before, dst, src, dstOffset, srcOffset, lo, hi)
    requires lo < hi && (hi == j * WordBits || lo == (j + 1) * WordBits)
    requires hi == j * WordBits ==> lo2 == lo && hi2 == (j + 1) * WordBits
    requires hi != j * WordBits ==> lo2 == j * WordBits && hi2 == hi
    requires 0 <= SegmentStart(dir, readOffset, WordBits) < WordBits * |srcNow|
    requires SegmentStart(dir, readOffset, WordBits) + WordBits <= WordBits * |srcNow|
    requires SegmentStart(dir, readOffset, WordBits) == srcOffset + j * WordBits - dstOffset
    requires Intact(srcNow, src, from, to)
    requires from <= SegmentStart(dir, readOffset, WordBits) && SegmentStart(dir, readOffset, WordBits) + WordBits <= to
    requires forall k :: 0 <= k < WordBits ==>
      segment[k] == (k < WordBits && Flat(srcNow)[SegmentStart(dir, readOffset, WordBits) + k])
    ensures CopiedRange(before[j := segment], dst, src, dstOffset, srcOffset, lo2, hi2)
  {
    var start := SegmentStart(dir, readOffset, WordBits);
    WholeBits(segment, srcNow, start, src);
    WriteWord(before, j, segment, dst, src, dstOffset, srcOffset, lo, hi, 0, WordBits, start, lo2, hi2);
  }

  // ---------------------------------------------------------------------
  // bitwiseCopy<dir>

  /** The new read offset after reading n bits in direction dir. */
  function Advanced(dir: Direction, offset: nat, n: nat): int
  {
    match dir
      case Forward => offset + n
      case Fixed => offset
      case Backward => offset - n
  }

  /** One masked step of bitwiseCopy<dir>: reads b - a bits of the source
      and writes them, shifted up by a, over the bits [a, b) of dst[j]. */
  method MaskedStep(dir: Direction, dst: array<Word>, src: array<Word>, j: nat, keepMask: Word,
                    a: nat, b: nat, readOffset: nat,
                    ghost D0: seq<bool>, ghost S0: seq<bool>, ghost dstOffset: int, ghost srcOffset: int,
                    ghost lo: int, ghost hi: int, ghost lo2: int, ghost hi2: int,
                    ghost from: int, ghost to: int, ghost from2: int, ghost to2: int)
    returns (newOffset: int)
    requires j < dst.Length && a < b <= WordBits
    requires CopiedRange(dst[..], D0, S0, dstOffset, srcOffset, lo, hi)
    requires lo <= hi
    requires lo == hi ==> lo2 == j * WordBits + a && hi2 == j * WordBits + b
    requires lo < hi ==>
      || (hi == j * WordBits && a == 0 && lo2 == lo && hi2 == j * WordBits + b)
      || (lo == (j + 1) * WordBits && b == WordBits && lo2 == j * WordBits + a && hi2 == hi)
    requires 0 <= SegmentStart(dir, readOffset, b - a)
    requires SegmentStart(dir, readOffset, b - a) + (b - a) <= WordBits * src.Length
    requires SegmentStart(dir, readOffset, b - a) == srcOffset + j * WordBits + a - dstOffset
    requires Intact(src[..], S0, from, to)
    requires from <= SegmentStart(dir, readOffset, b - a) && SegmentStart(dir, readOffset, b - a) + (b - a) <= to
    requires forall k :: 0 <= k < WordBits ==> keepMask[k] == !(a <= k < b)
    requires src == dst ==> D0 == S0 && (to2 <= from2 || to2 <= lo2 || hi2 <= from2)
    requires src != dst ==> to2 <= from2 || (from <= from2 && to2 <= to)
    modifies dst
    ensures CopiedRange(dst[..], D0, S0, dstOffset, srcOffset, lo2, hi2)
    ensures Intact(src[..], S0, from2, to2)
    ensures newOffset == Advanced(dir, readOffset, b - a)
  {
    ghost var before := dst[..];
    ghost var srcBefore := src[..];
    var segment;
    segment, newOffset := ReadSegmentFrom(dir, src[..], readOffset, b - a);
    MaskedWrite(before, srcBefore, j, WriteSegment(dst[j], keepMask, Shl(segment, a)), segment, keepMask,
                D0, S0, dstOffset, srcOffset, lo, hi, a, b, b - a, dir, readOffset, from, to, lo2, hi2);
    dst[j] := WriteSegment(dst[j], keepMask, Shl(segment, a));
    assert dst[..] == before[j := dst[j]];
    if src == dst {
      AliasIntact(dst[..], D0, dstOffset, srcOffset, lo2, hi2, from2, to2);
    } else {
      assert src[..] == srcBefore;
    }
  }

  /** One full-word step of bitwiseCopy<dir>: dst[j] becomes the next word
      of the source. */
  method FullStep(dir: Direction, dst: array<Word>, src: array<Word>, j: nat, readOffset: nat,
                  ghost D0: seq<bool>, ghost S0: seq<bool>, ghost dstOffset: int, ghost srcOffset: int,
                  ghost lo: int, ghost hi: int, ghost lo2: int, ghost hi2: int,
                  ghost from: int, ghost to: int, ghost from2: int, ghost to2: int)
    returns (newOffset: int)
    requires j < dst.Length
    requires CopiedRange(dst[..], D0, S0, dstOffset, srcOffset, lo, hi)
    requires lo < hi && (hi == j * WordBits || lo == (j + 1) * WordBits)
    requires hi == j * WordBits ==> lo2 == lo && hi2 == (j + 1) * WordBits
    requires hi != j * WordBits ==> lo2 == j * WordBits && hi2 == hi
    requires 0 <= SegmentStart(dir, readOffset, WordBits)
    requires SegmentStart(dir, readOffset, WordBits) + WordBits <= WordBits * src.Length
    requires SegmentStart(dir, readOffset, WordBits) == srcOffset + j * WordBits - dstOffset
    requires Intact(src[..], S0, from, to)
    requires from <= SegmentStart(dir, readOffset, WordBits) && SegmentStart(dir, readOffset, WordBits) + WordBits <= to
    requires src == dst ==> D0 == S0 && (to2 <= from2 || to2 <= lo2 || hi2 <= from2)
    requires src != dst ==> to2 <= from2 || (from <= from2 && to2 <= to)
    modifies dst
    ensures CopiedRange(dst[..], D0, S0, dstOffset, srcOffset, lo2, hi2)
    ensures Intact(src[..], S0, from2, to2)
    ensures newOffset == Advanced(dir, readOffset, WordBits)
  {
    ghost var before := dst[..];
    ghost var srcBefore := src[..];
    var segment;
    segment, newOffset := ReadSegmentFrom(dir, src[..], readOffset, WordBits);
    FullWrite(before, srcBefore, j, segment, D0, S0, dstOffset, srcOffset, lo, hi,
              dir, readOffset, from, to, lo2, hi2);
    dst[j] := segment;
    assert dst[..] == before[j := segment];
    if src == dst {
      AliasIntact(dst[..], D0, dstOffset, srcOffset, lo2, hi2, from2, to2);
    } else {
      assert src[..] == srcBefore;
    }
  }

  /** bitwiseCopy<dir> when the destination range lies within one word:
      one write through a mask that keeps the bits below and above it. */
  method CopyWithinWord(dst: array<Word>, src: array<Word>, dstOffset: nat, srcOffset: nat, length: nat)
    requires length > 0
    requires dstOffset + length <= WordBits * dst.Length
    requires srcOffset + length <= WordBits * src.Length
    requires dstOffset / WordBits == (dstOffset + length - 1) / WordBits
    modifies dst
    ensures Flat(dst[..]) == Copied(old(Flat(dst[..])), old(Flat(src[..])), dstOffset, srcOffset, length)
  {
    ghost var D0 := Flat(dst[..]);
    ghost var S0 := Flat(src[..]);
    var index := dstOffset / WordBits;
    var lowSkip := dstOffset % WordBits;
    var highSkip := (index + 1) * WordBits - dstOffset - length;
    assert CopiedRange(dst[..], D0, S0, dstOffset, srcOffset, dstOffset, dstOffset);
    assert Intact(src[..], S0, 0, WordBits * src.Length);
    var _ := MaskedStep(Fixed, dst, src, index, Or(FillLSBs(lowSkip), FillMSBs(highSkip)),
                        lowSkip, WordBits - highSkip, srcOffset,
                        D0, S0, dstOffset, srcOffset, dstOffset, dstOffset, dstOffset, dstOffset + length,
                        0, WordBits * src.Length, 0, 0);
    CopiedAll(dst[..], D0, S0, dstOffset, srcOffset, length);
  }

  /** The Forward run of bitwiseCopy<dir> over more than one word: the
      lowest word through a mask, the full words upwards, the highest word
      through a mask. */
  method CopyForward(dst: array<Word>, src: array<Word>, dstOffset: nat, srcOffset: nat, length: nat)
    requires length > 0
    requires dstOffset + length <= WordBits * dst.Length
    requires srcOffset + length <= WordBits * src.Length
    requires dstOffset / WordBits < (dstOffset + length - 1) / WordBits
    requires dst == src ==> dstOffset <= srcOffset
    modifies dst
    ensures Flat(dst[..]) == Copied(old(Flat(dst[..])), old(Flat(src[..])), dstOffset, srcOffset, length)
  {
    ghost var D0 := Flat(dst[..]);
    ghost var S0 := Flat(src[..]);
    var index := dstOffset / WordBits;
    var lastIndex := (dstOffset + length - 1) / WordBits;
    var lowSkip := dstOffset % WordBits;
    var highSkip := (lastIndex + 1) * WordBits - dstOffset - length;
    ghost var end := WordBits * src.Length;
    assert CopiedRange(dst[..], D0, S0, dstOffset, srcOffset, dstOffset, dstOffset);
    assert Intact(src[..], S0, 0, end);
    var offset := MaskedStep(Forward, dst, src, index, FillLSBs(lowSkip), lowSkip, WordBits, srcOffset,
                             D0, S0, dstOffset, srcOffset, dstOffset, dstOffset, dstOffset, (index + 1) * WordBits,
                             0, end, srcOffset + WordBits - lowSkip, end);
    index := index + 1;
    while index < lastIndex
      invariant dstOffset < index * WordBits && index <= lastIndex
      invariant offset == srcOffset + index * WordBits - dstOffset
      invariant CopiedRange(dst[..], D0, S0, dstOffset, srcOffset, dstOffset, index * WordBits)
      invariant Intact(src[..], S0, offset, end)
    {
      offset := FullStep(Forward, dst, src, index, offset,
                         D0, S0, dstOffset, srcOffset, dstOffset, index * WordBits, dstOffset, (index + 1) * WordBits,
                         offset, end, offset + WordBits, end);
      index := index + 1;
    }
    var _ := MaskedStep(Forward, dst, src, index, FillMSBs(highSkip), 0, WordBits - highSkip, offset,
                        D0, S0, dstOffset, srcOffset, dstOffset, index * WordBits, dstOffset, dstOffset + length,
                        offset, end, offset, offset);
    CopiedAll(dst[..], D0, S0, dstOffset, srcOffset, length);
  }

  /** The Backward run of bitwiseCopy<dir> over more than one word: the
      highest word through a mask, the full words downwards, the lowest
      word through a mask. */
  method CopyBackward(dst: array<Word>, src: array<Word>, dstOffset: nat, srcOffset: nat, length: nat)
    requires length > 0
    requires dstOffset + length <= WordBits * dst.Length
    requires srcOffset + length <= WordBits * src.Length
    requires dstOffset / WordBits < (dstOffset + length - 1) / WordBits
    requires dst == src ==> srcOffset <= dstOffset
    modifies dst
    ensures Flat(dst[..]) == Copied(old(Flat(dst[..])), old(Flat(src[..])), dstOffset, srcOffset, length)
  {
    ghost var D0 := Flat(dst[..]);
    ghost var S0 := Flat(src[..]);
    var index := (dstOffset + length - 1) / WordBits;
    var lastIndex := dstOffset / WordBits;
    var lowSkip := dstOffset % WordBits;
    var highSkip := (index + 1) * WordBits - dstOffset - length;
    ghost var end := WordBits * src.Length;
    assert CopiedRange(dst[..], D0, S0, dstOffset, srcOffset, dstOffset + length, dstOffset + length);
    assert Intact(src[..], S0, 0, end);
    var offset := MaskedStep(Backward, dst, src, index, FillMSBs(highSkip), 0, WordBits - highSkip,
                             srcOffset + length,
                             D0, S0, dstOffset, srcOffset, dstOffset + length, dstOffset + length,
                             index * WordBits, dstOffset + length,
                             0, end, 0, srcOffset + length - (WordBits - highSkip));
    index := index - 1;
    while index > lastIndex
      invariant lastIndex <= index && (index + 1) * WordBits < dstOffset + length
      invariant offset == srcOffset + (index + 1) * WordBits - dstOffset
      invariant CopiedRange(dst[..], D0, S0, dstOffset, srcOffset, (index + 1) * WordBits, dstOffset + length)
      invariant Intact(src[..], S0, 0, offset)
    {
      offset := FullStep(Backward, dst, src, index, offset,
                         D0, S0, dstOffset, srcOffset, (index + 1) * WordBits, dstOffset + length,
                         index * WordBits, dstOffset + length,
                         0, offset, 0, offset - WordBits);
      index := index - 1;
    }
    var _ := MaskedStep(Backward, dst, src, index, FillLSBs(lowSkip), lowSkip, WordBits, offset,
                        D0, S0, dstOffset, srcOffset, (index + 1) * WordBits, dstOffset + length,
                        dstOffset, dstOffset + length,
                        0, offset, 0, 0);
    CopiedAll(dst[..], D0, S0, dstOffset, srcOffset, length);
  }

  /** bitwiseCopy<dir>(dst, src, dstOffset, srcOffset, length): word by
      word, low to high for Forward and high to low for Backward, the first
      and the last word written through a mask.  When `dst` and `src` are
      one buffer the chosen direction must not overwrite source bits before
      they are read, which the dispatching BitwiseCopyAny arranges. */
  method BitwiseCopy(dir: Direction, dst: array<Word>, src: array<Word>,
                     dstOffset: nat, srcOffset: nat, length: nat)
    requires dir != Fixed
    requires length > 0
    requires dstOffset + length <= WordBits * dst.Length
    requires srcOffset + length <= WordBits * src.Length
    requires dst == src ==> if dir == Forward then dstOffset <= srcOffset else srcOffset <= dstOffset
    modifies dst
    ensures Flat(dst[..]) == Copied(old(Flat(dst[..])), old(Flat(src[..])), dstOffset, srcOffset, length)
  {
    if dstOffset / WordBits == (dstOffset + length - 1) / WordBits {
      CopyWithinWord(dst, src, dstOffset, srcOffset, length);
    } else if dir == Forward {
      CopyForward(dst, src, dstOffset, srcOffset, length);
    } else {
      CopyBackward(dst, src, dstOffset, srcOffset, length);
    }
  }

  /** bitwiseCopy(dst, src, dstOffset, srcOffset, length): picks the
      direction that is safe when the ranges overlap.  Within one buffer
      equal offsets copy nothing and a lower destination copies upwards;
      for two buffers the order of their addresses decides, which the model
      takes as the parameter `dstBelowSrc`. */
  method BitwiseCopyAny(dst: array<Word>, src: array<Word>, dstOffset: nat, srcOffset: nat, length: nat,
                        dstBelowSrc: bool)
    requires length > 0 || (dst == src && dstOffset == srcOffset)
    requires dstOffset + length <= WordBits * dst.Length
    requires srcOffset + length <= WordBits * src.Length
    modifies dst
    ensures Flat(dst[..]) == Copied(old(Flat(dst[..])), old(Flat(src[..])), dstOffset, srcOffset, length)
  {
    var downward: bool;
    if dst == src {
      if dstOffset == srcOffset {
        CopiedSame(Flat(dst[..]), dstOffset, length);
        return;
      }
      downward := dstOffset < srcOffset;
    } else {
      downward := dstBelowSrc;
    }
    if downward {
      BitwiseCopy(Forward, dst, src, dstOffset, srcOffset, length);
    } else {
      BitwiseCopy(Backward, dst, src, dstOffset, srcOffset, length);
    }
  }

  /** Copying a range onto itself changes nothing. */
  lemma CopiedSame(bits: seq<bool>, offset: nat, length: nat)
    requires offset + length <= |bits|
    ensures Copied(bits, bits, offset, offset, length) == bits
  {
  }

  /** bitwiseCopySwap<swap>(a, b, aOffset, bOffset, length): an upward
      copy from b to a, or from a to b when `swap` is set. */
  method BitwiseCopySwap(swap: bool, a: array<Word>, b: array<Word>, aOffset: nat, bOffset: nat, length: nat)
    requires length > 0
    requires aOffset + length <= WordBits * a.Length
    requires bOffset + length <= WordBits * b.Length
    requires a == b ==> if swap then bOffset <= aOffset else aOffset <= bOffset
    modifies if swap then b else a
    ensures !swap ==> Flat(a[..]) == Copied(old(Flat(a[..])), old(Flat(b[..])), aOffset, bOffset, length)
    ensures swap ==> Flat(b[..]) == Copied(old(Flat(b[..])), old(Flat(a[..])), bOffset, aOffset, length)
  {
    if swap {
      BitwiseCopy(Forward, b, a, bOffset, aOffset, length);
    } else {
      BitwiseCopy(Forward, a, b, aOffset, bOffset, length);
    }
  }

  // ---------------------------------------------------------------------
  // bitwiseCompare

  lemma {:induction false} Pow2Add(a: nat, b: nat)
    ensures Pow2(a + b) == Pow2(a) * Pow2(b)
  {
    if a > 0 {
      Pow2Add(a - 1, b);
    }
  }

  lemma {:induction false} Pow2Monotone(a: nat, b: nat)
    requires a <= b
    ensures Pow2(a) <= Pow2(b)
    decreases b
  {
    if a < b {
      Pow2Monotone(a, b - 1);
    }
  }

  /** 2^64, the number of values of a machine word. */
  lemma Pow2Word()
    ensures Pow2(WordBits) == 0x1_0000_0000_0000_0000
  {
    assert Pow2(1) == 2;
    Pow2Add(1, 1);
    Pow2Add(2, 2);
    Pow2Add(4, 4);
    assert Pow2(8) == 256;
    Pow2Add(8, 8);
    assert Pow2(16) == 0x1_0000;
    Pow2Add(16, 16);
    assert Pow2(32) == 0x1_0000_0000;
    Pow2Add(32, 32);
  }

  /** A difference of two words as NativeIntegerType: wrapped to 64 bits
      and read as a two's complement number. */
  function Signed(v: int): (r: int)
    ensures -0x8000_0000_0000_0000 <= r < 0x8000_0000_0000_0000
  {
    var m := v % 0x1_0000_0000_0000_0000;
    if m >= 0x8000_0000_0000_0000 then m - 0x1_0000_0000_0000_0000 else m
  }

  /** Signed keeps v modulo 2^64, and is zero exactly for multiples of 2^64. */
  lemma SignedWraps(v: int)
    ensures (Signed(v) - v) % 0x1_0000_0000_0000_0000 == 0
    ensures Signed(v) == 0 <==> v % 0x1_0000_0000_0000_0000 == 0
  {
  }

  /** A difference of two values of at most 64 bits is zero as a machine
      word only when the values are equal. */
  lemma SignedZero(x: nat, y: nat)
    requires x < 0x1_0000_0000_0000_0000 && y < 0x1_0000_0000_0000_0000
    ensures Signed(x - y) == 0 <==> x == y
  {
    SignedWraps(x - y);
  }

  /** Two sequences split at the same place are equal exactly when both
      parts are. */
  lemma SplitEqual<T>(s: seq<T>, t: seq<T>, k: nat)
    requires k <= |s| == |t|
    ensures s == t <==> s[..k] == t[..k] && s[k..] == t[k..]
  {
    if s[..k] == t[..k] && s[k..] == t[k..] {
      assert s == s[..k] + s[k..] && t == t[..k] + t[k..];
    }
  }

  /** Bit strings that agree bit by bit are equal. */
  lemma BitsEqual(x: seq<bool>, y: seq<bool>)
    requires |x| == |y|
    requires forall k :: 0 <= k < |x| ==> x[k] == y[k]
    ensures x == y
  {
  }

  /** Zero bits above the top do not change a value. */
  lemma {:induction false} ValuePadded(bits: seq<bool>, n: nat)
    ensures Value(bits + seq(n, _ => false)) == Value(bits)
    decreases |bits|
  {
    if bits == [] {
      ValueZeros(n);
      assert bits + seq(n, _ => false) == seq(n, _ => false);
    } else {
      ValuePadded(bits[1..], n);
      assert (bits + seq(n, _ => false))[1..] == bits[1..] + seq(n, _ => false);
    }
  }

  lemma {:induction false} ValueZeros(n: nat)
    ensures Value(seq(n, _ => false)) == 0
  {
    if n > 0 {
      ValueZeros(n - 1);
      assert seq(n, _ => false)[1..] == seq(n - 1, _ => false);
    }
  }

  /** A word holding the n bits of f from start in its low bits, and zeros
      above them, has the value of those bits. */
  lemma LowBitsValue(r: Word, f: seq<bool>, start: nat, n: nat)
    requires n <= WordBits && start + n <= |f|
    requires forall k :: 0 <= k < WordBits ==> r[k] == (k < n && f[start + k])
    ensures Value(r) == Value(f[start..start + n])
  {
    var bits := f[start..start + n];
    var padded := bits + seq(WordBits - n, _ => false);
    forall k | 0 <= k < WordBits
      ensures r[k] == padded[k]
    {
      if k < n {
        assert padded[k] == bits[k] == f[start + k];
      } else {
        assert padded[k] == false;
      }
    }
    BitsEqual(r, padded);
    ValuePadded(bits, WordBits - n);
  }

  /** The top k bits of a slice, and the bits below them. */
  lemma SliceParts(f: seq<bool>, lo: nat, hi: nat, k: nat)
    requires lo + k <= hi <= |f|
    ensures f[lo..hi][hi - lo - k..] == f[hi - k..hi]
    ensures f[lo..hi][..hi - lo - k] == f[lo..hi - k]
  {
  }

  /** Reads the segment just below end, as readSegmentFrom<+1> does, and
      returns its unsigned value and the new offset. */
  method ReadBelow(src: seq<Word>, end: nat, segment: nat) returns (v: nat, start: nat)
    requires 0 < segment <= WordBits && segment <= end <= WordBits * |src|
    ensures v == SegValue(Flat(src), end - segment, end) && start == end - segment
  {
    var r;
    r, start := ReadSegmentFrom(Backward, src, end, segment);
    LowBitsValue(r, Flat(src), SegmentStart(Backward, end, segment), segment);
    SegValueSlice(Flat(src), end - segment, end);
    v := Value(r);
  }

  /** The value of the bits f[lo..hi], lowest first, stated on the offsets. */
  function SegValue(f: seq<bool>, lo: nat, hi: nat): nat
    requires lo <= hi <= |f|
    decreases hi - lo
  {
    if lo == hi then 0 else (if f[lo] then 1 else 0) + 2 * SegValue(f, lo + 1, hi)
  }

  lemma {:induction false} SegValueSlice(f: seq<bool>, lo: nat, hi: nat)
    requires lo <= hi <= |f|
    ensures SegValue(f, lo, hi) == Value(f[lo..hi])
    decreases hi - lo
  {
    if lo < hi {
      SegValueSlice(f, lo + 1, hi);
      assert f[lo..hi][1..] == f[lo + 1..hi];
    }
  }

  /** The result of bitwiseCompare on fa[aOffset..aEnd] and the equally
      long bits of fb below bEnd: segment by segment from the high ends, the
      first non-zero difference of two segments of at most 64 bits, read
      as a signed machine word, or 0. */
  function CompareBelow(fa: seq<bool>, fb: seq<bool>, aOffset: nat, aEnd: nat, bEnd: nat): int
    requires aOffset <= aEnd <= |fa| && aEnd - aOffset <= bEnd <= |fb|
    decreases aEnd - aOffset
  {
    if aEnd == aOffset then 0
    else
      var segment := if aEnd - aOffset < WordBits then aEnd - aOffset else WordBits;
      var diff := Signed(SegValue(fa, aEnd - segment, aEnd) - SegValue(fb, bEnd - segment, bEnd));
      if diff != 0 then diff else CompareBelow(fa, fb, aOffset, aEnd - segment, bEnd - segment)
  }

  /** Two segments of at most 64 bits differ as machine words exactly when
      their bits differ. */
  lemma SegmentDiffZero(fa: seq<bool>, fb: seq<bool>, aEnd: nat, bEnd: nat, segment: nat)
    requires segment <= WordBits && segment <= aEnd <= |fa| && segment <= bEnd <= |fb|
    ensures Signed(SegValue(fa, aEnd - segment, aEnd) - SegValue(fb, bEnd - segment, bEnd)) == 0
            <==> fa[aEnd - segment..aEnd] == fb[bEnd - segment..bEnd]
  {
    var x, y := fa[aEnd - segment..aEnd], fb[bEnd - segment..bEnd];
    SegValueSlice(fa, aEnd - segment, aEnd);
    SegValueSlice(fb, bEnd - segment, bEnd);
    ValueBound(x);
    ValueBound(y);
    Pow2Monotone(segment, WordBits);
    Pow2Word();
    SignedZero(Value(x), Value(y));
    if Value(x) == Value(y) {
      ValueInjective(x, y);
    }
  }

  /** bitwiseCompare's result is 0 exactly when the two ranges hold the
      same bits. */
  lemma {:induction false} CompareBelowZero(fa: seq<bool>, fb: seq<bool>, aOffset: nat, aEnd: nat, bEnd: nat)
    requires aOffset <= aEnd <= |fa| && aEnd - aOffset <= bEnd <= |fb|
    ensures CompareBelow(fa, fb, aOffset, aEnd, bEnd) == 0 <==> fa[aOffset..aEnd] == fb[bEnd - (aEnd - aOffset)..bEnd]
    decreases aEnd - aOffset
  {
    if aEnd > aOffset {
      var segment := if aEnd - aOffset < WordBits then aEnd - aOffset else WordBits;
      var bOffset := bEnd - (aEnd - aOffset);
      SegmentDiffZero(fa, fb, aEnd, bEnd, segment);
      CompareBelowZero(fa, fb, aOffset, aEnd - segment, bEnd - segment);
      SliceParts(fa, aOffset, aEnd, segment);
      SliceParts(fb, bOffset, bEnd, segment);
      SplitEqual(fa[aOffset..aEnd], fb[bOffset..bEnd], aEnd - aOffset - segment);
    }
  }

  /** bitwiseCompare(a, b, aOffset, bOffset, length): compares the two bit
      ranges 64 bits at a time, starting at their high ends. */
  method BitwiseCompare(a: seq<Word>, b: seq<Word>, aOffset: nat, bOffset: nat, length: nat)
    returns (diff: int)
    requires aOffset + length <= WordBits * |a| && bOffset + length <= WordBits * |b|
    ensures diff == CompareBelow(Flat(a), Flat(b), aOffset, aOffset + length, bOffset + length)
  {
    ghost var fa, fb := Flat(a), Flat(b);
    ghost var whole := CompareBelow(fa, fb, aOffset, aOffset + length, bOffset + length);
    var aEnd, bEnd, rest := aOffset + length, bOffset + length, length;
    diff := 0;
    while rest > 0
      invariant 0 <= rest && aEnd == aOffset + rest && bEnd == bOffset + rest
      invariant aEnd <= |fa| && bEnd <= |fb|
      invariant whole == if diff != 0 then diff else CompareBelow(fa, fb, aOffset, aEnd, bEnd)
    {
      var segment := if rest < WordBits then rest else WordBits;
      var x, aStart := ReadBelow(a, aEnd, segment);
      var y, bStart := ReadBelow(b, bEnd, segment);
      diff := Signed(x as int - y);
      if diff != 0 {
        break;
      }
      aEnd, bEnd := aStart, bStart;
      rest := rest - segment;
    }
  }

  // ---------------------------------------------------------------------
  // substrEqual<atEnd>

  /** An octet: one char of a C string. */
  newtype Byte = x: int | 0 <= x < 256

  const CharBits: nat := 8

  lemma Pow2Byte()
    ensures Pow2(CharBits) == 256
  {
    Pow2Add(4, 4);
    assert Pow2(4) == 16;
  }

  /** The n low bits of v, lowest first. */
  function NatBits(v: nat, n: nat): (r: seq<bool>)
    ensures |r| == n
  {
    if n == 0 then [] else [v % 2 == 1] + NatBits(v / 2, n - 1)
  }

  lemma {:induction false} NatBitsValue(v: nat, n: nat)
    requires v < Pow2(n)
    ensures Value(NatBits(v, n)) == v
  {
    if n > 0 {
      NatBitsValue(v / 2, n - 1);
      assert NatBits(v, n)[1..] == NatBits(v / 2, n - 1);
    }
  }

  /** The bits of a byte string as it lies in memory (little-endian words):
      byte i occupies bits 8i to 8i + 7, its lowest bit first. */
  function BytesBits(s: seq<Byte>): (r: seq<bool>)
    ensures |r| == 8 * |s|
  {
    if s == [] then [] else NatBits(s[0] as nat, CharBits) + BytesBits(s[1..])
  }

  /** The bytes of a string from i on are its bits from 8i on. */
  lemma {:induction false} BytesBitsDrop(s: seq<Byte>, i: nat)
    requires i <= |s|
    ensures BytesBits(s)[8 * i..] == BytesBits(s[i..])
    decreases i
  {
    if i > 0 {
      BytesBitsDrop(s[1..], i - 1);
      var head := NatBits(s[0] as nat, CharBits);
      assert BytesBits(s) == head + BytesBits(s[1..]);
      assert (head + BytesBits(s[1..]))[8 * i..] == BytesBits(s[1..])[8 * (i - 1)..];
      assert s[1..][i - 1..] == s[i..];
    }
  }

  /** Two strings of one length with the same bits are the same string. */
  lemma {:induction false} BytesBitsInjective(s: seq<Byte>, t: seq<Byte>)
    requires |s| == |t| && BytesBits(s) == BytesBits(t)
    ensures s == t
    decreases |s|
  {
    if s != [] {
      var x, y := NatBits(s[0] as nat, CharBits), NatBits(t[0] as nat, CharBits);
      assert BytesBits(s)[..8] == x && BytesBits(t)[..8] == y;
      assert BytesBits(s)[8..] == BytesBits(s[1..]) && BytesBits(t)[8..] == BytesBits(t[1..]);
      Pow2Byte();
      NatBitsValue(s[0] as nat, CharBits);
      NatBitsValue(t[0] as nat, CharBits);
      BytesBitsInjective(s[1..], t[1..]);
      assert s == [s[0]] + s[1..] && t == [t[0]] + t[1..];
    }
  }

  /** A bit string laid out in words, the last one filled up with zeros. */
  function Pack(bits: seq<bool>): (r: seq<Word>)
    ensures |bits| <= WordBits * |r| < |bits| + WordBits
    decreases |bits|
  {
    if |bits| == 0 then []
    else if |bits| < WordBits then [bits + seq(WordBits - |bits|, _ => false)]
    else [bits[..WordBits]] + Pack(bits[WordBits..])
  }

  /** The words of Pack(bits) begin with bits. */
  lemma {:induction false} PackPrefix(bits: seq<bool>)
    ensures |bits| <= |Flat(Pack(bits))| && Flat(Pack(bits))[..|bits|] == bits
    decreases |bits|
  {
    var ws := Pack(bits);
    if |bits| == 0 {
    } else if |bits| < WordBits {
      assert Flat(ws) == ws[0] + Flat(ws[1..]);
      assert ws[1..] == [];
    } else {
      PackPrefix(bits[WordBits..]);
      assert ws[1..] == Pack(bits[WordBits..]);
      assert Flat(ws) == bits[..WordBits] + Flat(Pack(bits[WordBits..]));
      assert bits == bits[..WordBits] + bits[WordBits..];
    }
  }

  /** Bytes i to the end of a C string, read from its memory as words. */
  lemma PackDrop(s: seq<Byte>, i: nat)
    requires i <= |s|
    ensures 8 * |s| <= WordBits * |Pack(BytesBits(s))|
    ensures Flat(Pack(BytesBits(s)))[8 * i..8 * |s|] == BytesBits(s[i..])
  {
    var bits := BytesBits(s);
    PackPrefix(bits);
    BytesBitsDrop(s, i);
    var f := Flat(Pack(bits));
    assert f[8 * i..8 * |s|] == f[..|bits|][8 * i..];
  }

  /** The memory of b holds the bits of the last |b| bytes of a exactly
      when b is that end of a. */
  lemma SubstrBits(a: seq<Byte>, b: seq<Byte>)
    requires |b| <= |a|
    ensures 8 * |a| <= WordBits * |Pack(BytesBits(a))| && 8 * |b| <= WordBits * |Pack(BytesBits(b))|
    ensures Flat(Pack(BytesBits(a)))[8 * (|a| - |b|)..8 * |a|] == Flat(Pack(BytesBits(b)))[8 * 0..8 * |b|]
            <==> a[|a| - |b|..] == b
  {
    PackDrop(a, |a| - |b|);
    PackDrop(b, 0);
    assert b[0..] == b;
    if BytesBits(a[|a| - |b|..]) == BytesBits(b) {
      BytesBitsInjective(a[|a| - |b|..], b);
    }
  }

  /** Comparing the memory of b with the memory of the last |b| bytes of
      a tells whether they are the same string. */
  lemma SubstrCompare(a: seq<Byte>, b: seq<Byte>, aOffset: nat)
    requires |b| <= |a| && aOffset == (|a| - |b|) * 8
    ensures aOffset + |b| * 8 <= WordBits * |Pack(BytesBits(a))|
    ensures |b| * 8 <= WordBits * |Pack(BytesBits(b))|
    ensures CompareBelow(Flat(Pack(BytesBits(a))), Flat(Pack(BytesBits(b))), aOffset, aOffset + |b| * 8, |b| * 8) == 0
            <==> a[|a| - |b|..] == b
  {
    var fa, fb := Flat(Pack(BytesBits(a))), Flat(Pack(BytesBits(b)));
    var aEnd, bEnd := aOffset + |b| * 8, |b| * 8;
    SubstrBits(a, b);
    assert 8 * (|a| - |b|) == aOffset && 8 * |a| == aEnd && 8 * |b| == bEnd && 8 * 0 == bEnd - (aEnd - aOffset);
    CompareBelowZero(fa, fb, aOffset, aEnd, bEnd);
  }

  /** substrEqual<atEnd>(a, b): whether b is a (atEnd: the end of a, else
      all of a), by comparing the memory of the two strings with
      bitwiseCompare. */
  method SubstrEqual(atEnd: bool, a: seq<Byte>, b: seq<Byte>) returns (eq: bool)
    ensures eq == if atEnd then |b| <= |a| && a[|a| - |b|..] == b else a == b
  {
    var aOffset: nat;
    if atEnd {
      if |a| < |b| {
        return false;
      }
      aOffset := (|a| - |b|) * 8;
    } else if |a| != |b| {
      return false;
    } else {
      aOffset := 0;
    }
    SubstrCompare(a, b, aOffset);
    var diff := BitwiseCompare(Pack(BytesBits(a)), Pack(BytesBits(b)), aOffset, 0, |b| * 8);
    eq := diff == 0;
    assert !atEnd ==> a[|a| - |b|..] == a;
  }
}
