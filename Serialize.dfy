/** The text serialiser (Interpreter/Serialize.hpp): a growable byte buffer
    in the blob of a symbol, and the human readable forms it writes for a
    blob.

    A `Serializer` owns the blob of `symbol`.  Its first `blobSize` bits
    are the bytes written so far; the blob itself is `capacity` bits long
    and grows geometrically.  The forms written for a blob are:
      - a decimal number: optional '-', then digits without leading zeros;
      - text, wrapped in double quotes exactly when it holds a space, tab
        or newline;
      - "raw:" followed by hexadecimal nibbles, low nibble of a byte first;
      - '#' and the decimal symbol id, for an empty blob. */
module Serialize {
  import Bits
  import Triples

  type Byte = Bits.Byte
  type Symbol = Triples.Symbol

  /** Ordinals of the predefined blob types (their positions in the
      predefined symbol list, after BlobType). */
  const Text: Symbol := 42
  const Natural: Symbol := 43
  const Integer: Symbol := 44
  const Float: Symbol := 45

  /** ASCII codes written by the serialiser. */
  const Zero: Byte := 48
  const Minus: Byte := 45
  const Dot: Byte := 46
  const Quote: Byte := 34
  const Hash: Byte := 35
  const UpperA: Byte := 65
  const RawBegin: seq<Byte> := [114, 97, 119, 58]  // "raw:"

  function Max(a: nat, b: nat): (r: nat)
    ensures r >= a && r >= b && (r == a || r == b)
  {
    if a >= b then a else b
  }

  function Min(a: nat, b: nat): (r: nat)
    ensures r <= a && r <= b && (r == a || r == b)
  {
    if a <= b then a else b
  }

  /** Bytes needed to hold `bits` bits. */
  function BytesFor(bits: nat): (r: nat)
    ensures 8 * r >= bits && 8 * r < bits + 8
  {
    (bits + 7) / 8
  }

  // ---------------------------------------------------------------------
  // Decimal numerals

  function Pow10(k: nat): (r: nat)
    ensures r >= 1
  {
    if k == 0 then 1 else 10 * Pow10(k - 1)
  }

  /** The first w >= k with n < 10^w: the width serializeNumber's first
      loop reaches when it starts its mask at 10^k. */
  function WidthFrom(n: nat, k: nat): (w: nat)
    ensures k <= w && n < Pow10(w)
    ensures k < w ==> Pow10(w - 1) <= n
    decreases n + 1 - Pow10(k)
  {
    if Pow10(k) <= n then WidthFrom(n, k + 1) else k
  }

  /** The number of decimal digits of n (none for zero). */
  function Width(n: nat): nat
  {
    WidthFrom(n, 0)
  }

  predicate IsDigit(b: Byte)
  {
    48 <= b < 58
  }

  predicate AllDigits(s: seq<Byte>)
  {
    forall i :: 0 <= i < |s| ==> IsDigit(s[i])
  }

  /** The ASCII digit of d. */
  function Digit(d: nat): (b: Byte)
    requires d < 10
    ensures IsDigit(b)
  {
    (48 + d) as Byte
  }

  /** The k lowest decimal digits of x, zero-padded, most significant
      first. */
  function Digits(x: nat, k: nat): (s: seq<Byte>)
    ensures |s| == k && AllDigits(s)
  {
    if k == 0 then [] else Digits(x / 10, k - 1) + [Digit(x % 10)]
  }

  /** The decimal numeral of a positive n. */
  function Decimal(n: nat): seq<Byte>
  {
    Digits(n, Width(n))
  }

  /** What serializeNumber writes for an integer. */
  function Number(n: int): seq<Byte>
  {
    if n == 0 then [Zero]
    else if n < 0 then [Minus] + Decimal(-n)
    else Decimal(n)
  }

  /** The value of a digit string. */
  function Value(s: seq<Byte>): nat
    requires AllDigits(s)
  {
    if s == [] then 0 else 10 * Value(s[..|s| - 1]) + (s[|s| - 1] as int - 48)
  }

  /** A well-formed decimal numeral: digits only, at least one, and no
      leading zero unless it is "0" itself. */
  predicate Numeral(s: seq<Byte>)
  {
    |s| > 0 && AllDigits(s) && (|s| > 1 ==> s[0] != Zero)
  }

  datatype Option<T> = None | Some(value: T)

  /** Reads back what `Number` writes: an optional '-' and a numeral. */
  function Parse(s: seq<Byte>): (r: Option<int>)
    ensures r.Some? ==> 0 < |s|
  {
    if 0 < |s| && s[0] == Minus && Numeral(s[1..]) then Some(0 - Value(s[1..]))
    else if Numeral(s) then Some(Value(s))
    else None
  }

  lemma {:induction false} DigitsValue(x: nat, k: nat)
    requires x < Pow10(k)
    ensures Value(Digits(x, k)) == x
  {
    if k > 0 {
      var s := Digits(x, k);
      assert s[..k - 1] == Digits(x / 10, k - 1);
      DigitsValue(x / 10, k - 1);
    }
  }

  /** The digit at the front of a k-digit x, 10^(k-1) <= x, is not zero. */
  lemma {:induction false} DigitsLeading(x: nat, k: nat)
    requires 0 < k && Pow10(k - 1) <= x < Pow10(k)
    ensures Digits(x, k)[0] != Zero
  {
    if k > 1 {
      DigitsLeading(x / 10, k - 1);
      assert Digits(x, k)[0] == Digits(x / 10, k - 1)[0];
    }
  }

  lemma MulMono(m: nat, a: nat, b: nat)
    requires a <= b
    ensures m * a <= m * b
  {
    var d := b - a;
    assert m * b == m * a + m * d;
  }

  lemma MulStep(m: nat, a: nat)
    ensures m * (a + 1) == m * a + m
  {
  }

  lemma DivMod(a: nat, q: nat)
    requires 0 < q
    ensures 0 <= a / q && 0 <= a % q < q
    ensures a == q * (a / q) + a % q && a == (a / q) * q + a % q
  {
  }

  lemma Scale10(q: nat, c: nat)
    ensures (10 * q) * c == 10 * (q * c)
  {
  }

  /** Division with remainder has one answer. */
  lemma DivUnique(y: nat, m: nat, c: nat, r: nat)
    requires 0 < m && r < m && y == m * c + r
    ensures y / m == c && y % m == r
  {
    var c', r' := y / m, y % m;
    assert y == m * c' + r';
    if c' < c {
      MulStep(m, c');
      MulMono(m, c' + 1, c);
    } else if c < c' {
      MulMono(m, c + 1, c');
      MulStep(m, c);
      assert false;
    }
  }

  /** The first of k digits of y is its quotient by 10^(k-1), the rest are
      the digits of the remainder. */
  predicate SplitsAt(y: nat, k: nat)
    requires 0 < k
  {
    var p := Pow10(k - 1);
    DivMod(y, p);
    y / p < 10 && Digits(y, k) == [Digit(y / p)] + Digits(y % p, k - 1)
  }

  /** The step of serializeNumber's digit loop: each k-digit number splits
      at its leading digit. */
  lemma {:induction false} DigitsSplit(y: nat, k: nat)
    requires 0 < k && y < Pow10(k)
    ensures SplitsAt(y, k)
    decreases k, 1
  {
    if k == 1 {
      assert Digits(y, k) == [Digit(y % 10)];
    } else {
      DigitsSplitMore(y, k);
    }
  }

  lemma {:induction false} DigitsSplitMore(y: nat, k: nat)
    requires 1 < k && y < Pow10(k)
    ensures SplitsAt(y, k)
    decreases k, 0
  {
    var q := Pow10(k - 2);
    var p := Pow10(k - 1);
    var a, b := y / 10, y % 10;
    DigitsSplit(a, k - 1);
    var c, d := a / q, a % q;
    SplitDigit(y, q);
    var tail := Digits(d, k - 2);
    assert Digits(y, k) == [Digit(c)] + tail + [Digit(b)];
    assert Digits(y % p, k - 1) == tail + [Digit(b)];
  }

  /** Taking off the last decimal digit commutes with dividing by 10q. */
  lemma SplitDigit(y: nat, q: nat)
    requires 0 < q
    ensures y / (10 * q) == (y / 10) / q
    ensures (y % (10 * q)) / 10 == (y / 10) % q && (y % (10 * q)) % 10 == y % 10
  {
    var a, b := y / 10, y % 10;
    var c, d := a / q, a % q;
    DivMod(a, q);
    Scale10(q, c);
    assert y == (10 * q) * c + (10 * d + b);
    DivUnique(y, 10 * q, c, 10 * d + b);
  }

  /** A positive n is written as a numeral whose value is n. */
  lemma DecimalNumeral(n: nat)
    requires 0 < n
    ensures Numeral(Decimal(n)) && Value(Decimal(n)) == n
  {
    DigitsValue(n, Width(n));
    DigitsLeading(n, Width(n));
  }

  /** What serializeNumber writes: "0" for zero, a leading '-' for a
      negative number and the magnitude as a numeral. */
  lemma NumberForm(n: int)
    ensures n >= 0 ==> Numeral(Number(n)) && Value(Number(n)) == n
    ensures n < 0 ==> Number(n)[0] == Minus && Numeral(Number(n)[1..])
                      && Value(Number(n)[1..]) == -n
  {
    var s := Number(n);
    if n == 0 {
      assert s == [Zero] && s[..0] == [];
    } else if n > 0 {
      DecimalNumeral(n);
    } else {
      var d := Decimal(-n);
      DecimalNumeral(-n);
      assert s == [Minus] + d;
      assert s[1..] == d;
    }
  }

  /** serializeNumber never writes the '.' of a fraction for an integer. */
  lemma NumberNoDot(n: int)
    ensures Dot !in Number(n)
  {
    var s := Number(n);
    forall i | 0 <= i < |s|
      ensures s[i] != Dot
    {
      if n < 0 && i > 0 {
        assert s[i] == Decimal(-n)[i - 1];
      }
    }
  }

  /** Round trip: reading back what serializeNumber writes gives the
      number, so distinct numbers are written differently. */
  lemma NumberParses(n: int)
    ensures Parse(Number(n)) == Some(n)
  {
    NumberForm(n);
    if n >= 0 {
      assert Number(n)[0] != Minus;
    }
  }

  // ---------------------------------------------------------------------
  // Text

  predicate IsSpace(b: Byte)
  {
    b == 32 || b == 9 || b == 10
  }

  predicate HasSpace(t: seq<Byte>)
  {
    exists i :: 0 <= i < |t| && IsSpace(t[i])
  }

  /** What serializeBlob writes for a Text blob holding the bytes t. */
  function TextForm(t: seq<Byte>): seq<Byte>
  {
    if HasSpace(t) then [Quote] + t + [Quote] else t
  }

  /** Reads a text form back: quotes around text holding white space are
      dropped, anything else is taken as it is. */
  function ReadText(s: seq<Byte>): (t: seq<Byte>)
    ensures |t| <= |s|
  {
    if 2 <= |s| && s[0] == Quote && s[|s| - 1] == Quote && HasSpace(s[1..|s| - 1])
    then s[1..|s| - 1]
    else s
  }

  /** Round trip: the text form of any text reads back as that text. */
  lemma TextReads(t: seq<Byte>)
    ensures ReadText(TextForm(t)) == t
  {
    if HasSpace(t) {
      var s := TextForm(t);
      assert s[1..|s| - 1] == t;
    }
  }

  /** Text is quoted exactly when it holds white space. */
  lemma TextQuoted(t: seq<Byte>)
    ensures |TextForm(t)| == |t| + 2 <==> HasSpace(t)
    ensures HasSpace(t) ==> TextForm(t)[0] == Quote && TextForm(t)[|t| + 1] == Quote
  {
  }

  /** The scan of serializeBlob's text branch: does t hold a space, tab
      or newline? */
  method ScanSpaces(t: seq<Byte>) returns (spaces: bool)
    ensures spaces <==> HasSpace(t)
  {
    spaces := false;
    var i := 0;
    while i < |t|
      invariant i <= |t| && !spaces
      invariant forall j :: 0 <= j < i ==> !IsSpace(t[j])
    {
      if IsSpace(t[i]) {
        spaces := true;
        break;
      }
      i := i + 1;
    }
  }

  // ---------------------------------------------------------------------
  // Raw hexadecimal

  /** The low and the high nibble of a byte: `b & 0xF` and `b >> 4`. */
  function Low(b: Byte): (r: nat)
    ensures r < 16
  {
    b as int % 16
  }

  function High(b: Byte): (r: nat)
    ensures r < 16
  {
    b as int / 16
  }

  lemma Nibbles(b: Byte)
    ensures Low(b) + 16 * High(b) == b as int
  {
  }

  /** Nibble i of the bytes src: `(src[i/2] >> ((i%2)*4)) & 0xF`, the low
      nibble of a byte first. */
  function Nibble(src: seq<Byte>, i: nat): (r: nat)
    requires i / 2 < |src|
    ensures r < 16
  {
    if i % 2 == 0 then Low(src[i / 2]) else High(src[i / 2])
  }

  /** The upper case hexadecimal digit of a nibble. */
  function Hex(n: nat): (b: Byte)
    requires n < 16
  {
    if n < 10 then (48 + n) as Byte else (65 + n - 10) as Byte
  }

  predicate IsHex(b: Byte)
  {
    48 <= b < 58 || 65 <= b < 71
  }

  function Unhex(b: Byte): (n: nat)
    ensures n < 16
  {
    if b < 65 then (b as int - 48) % 16 else (b as int - 55) % 16
  }

  /** Every nibble has an upper case digit, which reads back as it. */
  lemma HexDigit(n: nat)
    requires n < 16
    ensures IsHex(Hex(n)) && Unhex(Hex(n)) == n
  {
  }

  /** The first `count` nibbles of src as hexadecimal digits. */
  function RawHex(src: seq<Byte>, count: nat): (h: seq<Byte>)
    requires count <= 2 * |src|
    ensures |h| == count
  {
    if count == 0 then [] else RawHex(src, count - 1) + [Hex(Nibble(src, count - 1))]
  }

  lemma {:induction false} RawHexAt(src: seq<Byte>, count: nat, i: nat)
    requires count <= 2 * |src| && i < count
    ensures RawHex(src, count)[i] == Hex(Nibble(src, i))
    decreases count
  {
    if i < count - 1 {
      RawHexAt(src, count - 1, i);
    }
  }

  /** Two hexadecimal digits, low nibble first, read back as a byte. */
  function Unpair(lo: Byte, hi: Byte): Byte
  {
    ((Unhex(lo) + 16 * Unhex(hi)) % 256) as Byte
  }

  /** Hexadecimal digits read back as bytes, low nibble first. */
  function Unraw(h: seq<Byte>): (r: seq<Byte>)
    ensures |r| == |h| / 2
  {
    if |h| < 2 then [] else [Unpair(h[0], h[1])] + Unraw(h[2..])
  }

  lemma {:induction false} UnrawAt(h: seq<Byte>, i: nat)
    requires i < |h| / 2
    ensures Unraw(h)[i] == Unpair(h[2 * i], h[2 * i + 1])
    decreases i
  {
    if i > 0 {
      UnrawAt(h[2..], i - 1);
    }
  }

  /** Round trip: the nibbles of whole bytes read back as those bytes. */
  lemma RawReads(src: seq<Byte>, k: nat)
    requires k <= |src|
    ensures Unraw(RawHex(src, 2 * k)) == src[..k]
  {
    var r := Unraw(RawHex(src, 2 * k));
    assert |r| == k;
    forall i | 0 <= i < k
      ensures r[i] == src[i]
    {
      RawReadsAt(src, k, i);
    }
  }

  lemma RawReadsAt(src: seq<Byte>, k: nat, i: nat)
    requires k <= |src| && i < k
    ensures Unraw(RawHex(src, 2 * k))[i] == src[i]
  {
    var h := RawHex(src, 2 * k);
    var lo, hi := 2 * i, 2 * i + 1;
    assert lo / 2 == i && lo % 2 == 0 && hi / 2 == i && hi % 2 == 1;
    UnrawAt(h, i);
    RawHexAt(src, 2 * k, lo);
    RawHexAt(src, 2 * k, hi);
    UnpairHex(src[i]);
  }

  lemma UnpairHex(b: Byte)
    ensures Unpair(Hex(Low(b)), Hex(High(b))) == b
  {
    HexDigit(Low(b));
    HexDigit(High(b));
    Nibbles(b);
  }

  /** Enough nibbles for the bits of a blob lie within its bytes. */
  lemma NibbleCount(bits: nat, n: nat)
    requires bits <= 8 * n
    ensures (bits + 3) / 4 <= 2 * n && bits / 8 <= n
  {
  }

  // ---------------------------------------------------------------------
  // serializeBlob

  /** What serializeBlob writes for the blob of `s`: `bits` is its size,
      `src` its bytes, `kind` its BlobType (Void when it has none) and
      `number` its contents read as a Natural or Integer. */
  function BlobForm(s: Symbol, src: seq<Byte>, bits: nat, kind: Symbol, number: int): (r: seq<Byte>)
    requires bits <= 8 * |src|
  {
    NibbleCount(bits, |src|);
    if bits == 0 then [Hash] + Number(s)
    else if kind == Text then TextForm(src[..bits / 8])
    else if kind == Natural || kind == Integer then Number(number)
    else RawBegin + RawHex(src, (bits + 3) / 4)
  }

  /** An empty blob is written as '#' and a numeral that reads back as
      its symbol. */
  lemma EmptyForm(s: Symbol, src: seq<Byte>, kind: Symbol, number: int)
    ensures BlobForm(s, src, 0, kind, number)[0] == Hash
    ensures Parse(BlobForm(s, src, 0, kind, number)[1..]) == Some(s)
  {
    NumberParses(s);
    assert BlobForm(s, src, 0, kind, number)[1..] == Number(s);
  }

  lemma Prefix(a: seq<Byte>, b: seq<Byte>)
    ensures (a + b)[..|a|] == a
  {
  }

  /** Every raw nibble is written as an upper case hexadecimal digit. */
  lemma RawHexDigits(src: seq<Byte>, count: nat)
    requires count <= 2 * |src|
    ensures forall i :: 0 <= i < count ==> IsHex(RawHex(src, count)[i])
  {
    forall i | 0 <= i < count
      ensures IsHex(RawHex(src, count)[i])
    {
      RawHexAt(src, count, i);
      HexDigit(Nibble(src, i));
    }
  }

  /** A non-empty blob of no known type is written as "raw:" and one upper
      case hexadecimal digit per started nibble. */
  lemma RawForm(s: Symbol, src: seq<Byte>, bits: nat, kind: Symbol, number: int)
    requires 0 < bits <= 8 * |src| && kind != Text && kind != Natural && kind != Integer
    ensures var r := BlobForm(s, src, bits, kind, number);
            r[..4] == RawBegin && |r| == 4 + (bits + 3) / 4
            && forall i :: 4 <= i < |r| ==> IsHex(r[i])
  {
    var count := (bits + 3) / 4;
    NibbleCount(bits, |src|);
    var r := BlobForm(s, src, bits, kind, number);
    var h := RawHex(src, count);
    assert r == RawBegin + h;
    Prefix(RawBegin, h);
    RawHexDigits(src, count);
    forall i | 4 <= i < |r|
      ensures IsHex(r[i])
    {
      assert r[i] == h[i - 4];
    }
  }

  // ---------------------------------------------------------------------
  // The serialiser

  class Serializer {
    /** The symbol whose blob receives the output. */
    const symbol: Symbol
    /** That blob's bytes: BytesFor(capacity) of them. */
    var data: seq<Byte>
    /** symbolObject->blobSize: the size of that blob in bits. */
    var capacity: nat
    /** The number of bits written so far. */
    var blobSize: nat
    /** The number of bytes written so far. */
    ghost var count: nat

    ghost predicate Valid()
      reads this
    {
      blobSize == 8 * count && blobSize <= capacity && |data| == BytesFor(capacity)
    }

    /** The bytes written so far. */
    ghost function Written(): (w: seq<Byte>)
      requires Valid()
      reads this
      ensures 8 * |w| == blobSize
    {
      data[..count]
    }

    /** A serialiser writing into the blob of `symbol`, currently `size`
        bits long with the bytes `blob`. */
    constructor (symbol: Symbol, blob: seq<Byte>, size: nat)
      requires |blob| == BytesFor(size)
      ensures Valid() && Written() == []
      ensures this.symbol == symbol && data == blob && capacity == size
    {
      this.symbol := symbol;
      data := blob;
      capacity := size;
      blobSize := 0;
      count := 0;
    }

    /** Nothing has been written yet. */
    predicate IsEmpty(): (r: bool)
      requires Valid()
      reads this
      ensures r <==> Written() == []
    {
      blobSize == 0
    }

    /** symbolObject->reallocateBlob(size): the blob becomes `size` bits
        long; the bytes it keeps are unchanged, new ones are zero. */
    method Reallocate(size: nat)
      modifies this
      ensures capacity == size && blobSize == old(blobSize) && count == old(count)
      ensures |data| == BytesFor(size)
      ensures var keep := Min(|old(data)|, |data|);
              data[..keep] == old(data)[..keep]
    {
      var n := BytesFor(size);
      if n <= |data| {
        data := data[..n];
      } else {
        data := data + seq(n - |data|, _ => 0 as Byte);
      }
      capacity := size;
    }

    /** Appends one byte, doubling the blob (or more) when it is full. */
    method Put(b: Byte)
      requires Valid()
      modifies this
      ensures Valid()
      ensures blobSize == old(blobSize) + 8
      ensures Written() == old(Written()) + [b]
      ensures capacity == if old(blobSize) + 8 > old(capacity)
                          then Max(old(blobSize) + 8, 2 * old(capacity))
                          else old(capacity)
    {
      var next := blobSize + 8;
      if next > capacity {
        Reallocate(Max(next, 2 * capacity));
      }
      assert blobSize / 8 == count < |data|;
      data := data[blobSize / 8 := b];
      blobSize := next;
      count := count + 1;
    }

    /** Shrinks the blob to exactly what was written and returns its
        symbol. */
    method Finalize() returns (r: Symbol)
      requires Valid()
      modifies this
      ensures Valid() && r == symbol
      ensures capacity == blobSize == old(blobSize)
      ensures data == Written() == old(Written())
    {
      Reallocate(blobSize);
      r := symbol;
    }

    /** Writes the decimal form of an integer. */
    method SerializeNumber(number: int)
      requires Valid()
      modifies this
      ensures Valid()
      ensures Written() == old(Written()) + Number(number)
    {
      if number == 0 {
        Put(Zero);
        return;
      }
      if number < 0 {
        ghost var start := Written();
        Put(Minus);
        PutMagnitude(-number);
        assert Number(number) == [Minus] + Decimal(-number);
        assert start + [Minus] + Decimal(-number) == start + ([Minus] + Decimal(-number));
      } else {
        PutMagnitude(number);
      }
    }

    /** serializeNumber after the sign: the mask climbs to the first power
        of ten above x, then runs down emitting one digit per power. */
    method PutMagnitude(x: nat)
      requires Valid()
      modifies this
      ensures Valid()
      ensures Written() == old(Written()) + Decimal(x)
    {
      ghost var start := Written();
      var mask: nat := 1;
      ghost var k: nat := 0;
      while mask <= x
        invariant mask == Pow10(k) && WidthFrom(x, k) == Width(x)
        decreases x - mask
      {
        mask := mask * 10;
        k := k + 1;
      }
      var number: nat := x;
      while mask > 0
        invariant Valid() && number < mask == Pow10(k)
        invariant Written() + Digits(number, k) == start + Decimal(x)
        decreases mask
      {
        assert !(mask == 1 && number > 0);  // the '.' of a fraction: unreachable for integers
        mask := mask / 10;
        if mask == 0 {
          break;
        }
        assert 0 < k && mask == Pow10(k - 1);
        number := PutDigit(number, mask, k);
        k := k - 1;
      }
    }

    /** One round of the digit loop: writes the digit of `number` at
        `mask` = 10^(k-1) and keeps the remainder. */
    method PutDigit(number: nat, mask: nat, ghost k: nat) returns (rest: nat)
      requires Valid() && 0 < k && mask == Pow10(k - 1) && number < 10 * mask
      modifies this
      ensures Valid() && rest < mask
      ensures Written() + Digits(rest, k - 1) == old(Written()) + Digits(number, k)
    {
      DigitsSplit(number, k);
      DivMod(number, mask);
      var digit := number / mask;
      rest := number - digit * mask;
      Put((48 + digit) as Byte);
    }

    /** Writes the human readable form of the blob of `s` (see BlobForm). */
    method SerializeBlob(s: Symbol, src: seq<Byte>, bits: nat, kind: Symbol, number: int)
      requires Valid() && bits <= 8 * |src|
      requires bits > 0 ==> kind != Float
      modifies this
      ensures Valid()
      ensures Written() == old(Written()) + BlobForm(s, src, bits, kind, number)
    {
      ghost var start := Written();
      ghost var form := BlobForm(s, src, bits, kind, number);
      NibbleCount(bits, |src|);
      if bits > 0 {
        if kind == Text {
          var len := bits / 8;
          assert form == TextForm(src[..len]);
          PutText(src[..len]);
        } else if kind == Natural || kind == Integer {
          assert form == Number(number);
          SerializeNumber(number);
        } else {
          var count := (bits + 3) / 4;
          assert form == RawBegin + RawHex(src, count);
          PutRaw(src, count);
        }
      } else {
        assert form == [Hash] + Number(s);
        Put(Hash);
        SerializeNumber(s);
        assert Written() == start + ([Hash] + Number(s));
      }
    }

    /** The text branch: the bytes t, quoted when they hold white space. */
    method PutText(t: seq<Byte>)
      requires Valid()
      modifies this
      ensures Valid()
      ensures Written() == old(Written()) + TextForm(t)
    {
      ghost var start := Written();
      var spaces := ScanSpaces(t);
      if spaces {
        Put(Quote);
        PutAll(t);
        Put(Quote);
        assert Written() == start + ([Quote] + t + [Quote]);
      } else {
        PutAll(t);
      }
    }

    /** Puts the bytes of s one after the other. */
    method PutAll(s: seq<Byte>)
      requires Valid()
      modifies this
      ensures Valid()
      ensures Written() == old(Written()) + s
    {
      ghost var start := Written();
      for i := 0 to |s|
        invariant Valid() && Written() == start + s[..i]
      {
        Put(s[i]);
      }
      assert s[..|s|] == s;
    }

    /** The raw branch: "raw:" and then `count` nibbles of src. */
    method PutRaw(src: seq<Byte>, count: nat)
      requires Valid() && count <= 2 * |src|
      modifies this
      ensures Valid()
      ensures Written() == old(Written()) + RawBegin + RawHex(src, count)
    {
      ghost var start := Written();
      PutAll(RawBegin);
      for i := 0 to count
        invariant Valid() && Written() == start + RawBegin + RawHex(src, i)
      {
        var nibble := Nibble(src, i);
        if nibble < 10 {
          Put((48 + nibble) as Byte);
        } else {
          Put((65 + nibble - 10) as Byte);
        }
      }
    }
  }
}
