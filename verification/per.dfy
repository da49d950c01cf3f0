/**
 The aligned-PER primitives used by the T.125 MCS connect PDUs: length
 determinants, constrained integers, numeric strings, octet strings, the
 six-element object identifier, single-byte fields and the "expect" check.

 Every encoder returns the bytes it emits; every decoder takes the input and
 returns what it decoded together with the input it left unread.
 */
module Per {
  import opened Core
  import opened Bits

  /** Minimum sizes callers pass as `minValue`. */
  const MinSimpleNumericStringLen := 1
  const MinH221NonStandardIdentifierLen := 4

  // ---------------------------------------------------------------------------
  // Length determinant

  /**
   One byte holding `value` when it fits in seven bits; otherwise two bytes,
   big-endian, with the top bit of the first set. The second form carries
   fifteen bits of `value`.
   */
  function WriteLength(value: int): (r: Bytes)
    requires 0 <= value <= 0xFFFF
    ensures value <= 0x7F ==> |r| == 1 && r[0] as int == value
    ensures value > 0x7F ==> |r| == 2 && r[0] as int >= 0x80
    ensures 0x7F < value < 0x8000 ==> (r[0] as int - 0x80) * 0x100 + r[1] as int == value
    ensures 0x8000 <= value ==> (r[0] as int - 0x80) * 0x100 + r[1] as int == value - 0x8000
  {
    if value > 0x7F then
      var flagged := if value >= 0x8000 then value else value + 0x8000;  // value | 0x8000, see Bits.SetLengthFlag
      var r := WriteUInt16BE(flagged);
      BigEndianPair(r);
      r
    else
      WriteUInt8(value)
  }

  /**
   Reads a length determinant. It never fails: an empty input gives 0 and
   consumes nothing, and a long form cut short after its first byte reads
   the missing byte as 0.
   */
  function ReadLength(s: Bytes): (r: Decoded<nat>)
    ensures r.value <= 0x7FFF
    ensures |s| == 0 ==> r == Decoded(0, s)
    ensures |s| >= 1 && s[0] as int < 0x80 ==> r == Decoded(s[0] as int, s[1..])
    ensures |s| >= 2 && s[0] as int >= 0x80 ==> r == Decoded((s[0] as int - 0x80) * 0x100 + s[1] as int, s[2..])
    ensures |s| == 1 && s[0] as int >= 0x80 ==> r == Decoded((s[0] as int - 0x80) * 0x100, [])
  {
    if |s| == 0 then
      Decoded(0, s)
    else
      var b := ReadUInt8(s);
      // `b & 0x80 > 0` and `b &^ 0x80`, see Bits.ClearLengthFlag
      if b.value >= 0x80 then
        var high := b.value - 0x80;
        var left := ReadUInt8(b.rest);
        Decoded(high * 0x100 + left.value, left.rest)
      else
        Decoded(b.value, b.rest)
  }

  /** A length up to 0x7FFF reads back as itself, consuming exactly its encoding. */
  lemma LengthRoundTrip(value: int, t: Bytes)
    requires 0 <= value <= 0x7FFF
    ensures ReadLength(WriteLength(value) + t) == Decoded(value, t)
  {
    var w := WriteLength(value);
    var s := w + t;
    assert s[|w|..] == t;
    if value > 0x7F {
      assert s[0] == w[0] && s[1] == w[1];
      assert s[2..] == t;
    } else {
      assert s[0] == w[0];
      assert s[1..] == t;
    }
  }

  // ---------------------------------------------------------------------------
  // Constrained whole numbers

  /**
   The length prefix 1, 2 or 4 (the narrowest width that holds `n`) followed
   by `n` big-endian in that many bytes.
   */
  function WriteInteger(n: int): (r: Bytes)
    requires 0 <= n <= 0xFFFF_FFFF
    ensures |r| >= 2 && |r| == 1 + r[0] as int
    ensures r[0] == 1 <==> n <= 0xFF
    ensures r[0] == 2 <==> 0xFF < n <= 0xFFFF
    ensures r[0] == 4 <==> 0xFFFF < n
    ensures BigEndian(r[1..]) == n
  {
    if n <= 0xFF then
      WriteLength(1) + WriteUInt8(n)
    else if n <= 0xFFFF then
      assert WriteLength(2) + WriteUInt16BE(n) == [2] + ToBigEndian(n, 2);
      WriteLength(2) + WriteUInt16BE(n)
    else
      assert WriteLength(4) + WriteUInt32BE(n) == [4] + ToBigEndian(n, 4);
      WriteLength(4) + WriteUInt32BE(n)
  }

  /**
   Reads a length prefix and then that many big-endian bytes. A prefix other
   than 1, 2 or 4 is only traced (a no-op here) and the result is 0.
   */
  function ReadInteger(s: Bytes): (r: Decoded<nat>)
    ensures r.value <= 0xFFFF_FFFF
    ensures var size := ReadLength(s);
      size.value !in {1, 2, 4} ==> r == Decoded(0, size.rest)
    ensures var size := ReadLength(s);
      size.value in {1, 2, 4} && |size.rest| >= size.value ==>
        r == Decoded(BigEndian(size.rest[..size.value]), size.rest[size.value..])
    ensures var size := ReadLength(s);
      size.value in {1, 2, 4} && |size.rest| < size.value ==> r == Decoded(0, [])
  {
    var size := ReadLength(s);
    match size.value
    case 1 =>
      var v := ReadUInt8(size.rest);
      assert |size.rest| >= 1 ==> BigEndian(size.rest[..1]) == size.rest[0] as int by {
        if |size.rest| >= 1 {
          assert size.rest[..1][..0] == [];
        }
      }
      Decoded(v.value, v.rest)
    case 2 =>
      var v := ReadUInt16BE(size.rest);
      assert v.value <= 0xFFFF_FFFF by {
        if |size.rest| >= 2 {
          BigEndianBound(size.rest[..2]);
        }
      }
      v
    case 4 =>
      var v := ReadUInt32BE(size.rest);
      assert v.value <= 0xFFFF_FFFF by {
        if |size.rest| >= 4 {
          BigEndianBound(size.rest[..4]);
        }
      }
      v
    case _ =>
      Decoded(0, size.rest)
  }

  /** A big-endian string of `n` bytes stands for a number below 256^n. */
  lemma {:induction false} BigEndianBound(b: Bytes)
    ensures BigEndian(b) < Pow256(|b|)
  {
    if |b| > 0 {
      BigEndianBound(b[..|b| - 1]);
    }
  }

  function WriteInteger16(value: int): Bytes
    requires 0 <= value <= 0xFFFF
  {
    WriteUInt16BE(value)
  }

  /** Two big-endian bytes; fails when fewer than two remain. */
  function ReadInteger16(s: Bytes): (r: Result<Decoded<nat>>)
    ensures r.Failure? <==> |s| < 2
    ensures r.Failure? ==> r.error == ShortRead
    ensures r.Success? ==> r.value.rest == s[2..] && r.value.value == s[0] as int * 0x100 + s[1] as int
  {
    if |s| < 2 then
      Failure(ShortRead)
    else
      BigEndianPair(s[..2]);
      Success(ReadUInt16BE(s))
  }

  // ---------------------------------------------------------------------------
  // Single-byte fields: choice, selection, number of set, enumeration, padding

  function WriteChoice(choice: byte): Bytes
  {
    WriteUInt8(choice)
  }

  function WriteSelection(selection: byte): Bytes
  {
    WriteUInt8(selection)
  }

  function WriteNumberOfSet(n: int): Bytes
    requires 0 <= n <= 0xFF
  {
    WriteUInt8(n)
  }

  /** `length` zero bytes; nothing when `length` is not positive. */
  method WritePadding(length: int) returns (r: Bytes)
    ensures |r| == if length > 0 then length else 0
    ensures forall i :: 0 <= i < |r| ==> r[i] == 0
  {
    r := [];
    var i := 0;
    while i < length
      invariant 0 <= i
      invariant i == 0 || i <= length
      invariant |r| == i
      invariant forall k :: 0 <= k < |r| ==> r[k] == 0
    {
      r := r + WriteUInt8(0);
      i := i + 1;
    }
  }

  /** One byte; a read error is swallowed and gives 0. */
  function ReadChoice(s: Bytes): (r: Decoded<byte>)
    ensures |s| == 0 ==> r == Decoded(0, [])
    ensures |s| >= 1 ==> r == Decoded(s[0], s[1..])
  {
    ReadUInt8(s)
  }

  /** The same read as `ReadChoice`, under the name the set-of count is read with. */
  function ReadNumberOfSet(s: Bytes): Decoded<byte>
  {
    ReadChoice(s)
  }

  /** The single-byte read that reports its error: fails only on an empty stream. */
  function ReadFixedUnit(s: Bytes): (r: Result<Decoded<byte>>)
    ensures r.Failure? <==> |s| == 0
    ensures r.Failure? ==> r.error == ShortRead
    ensures r.Success? ==> r.value == Decoded(s[0], s[1..])
  {
    if |s| == 0 then Failure(ShortRead) else Success(ReadUInt8(s))
  }

  function ReadEnumerates(s: Bytes): Result<Decoded<byte>>
  {
    ReadFixedUnit(s)
  }

  function ReadSelection(s: Bytes): Result<Decoded<byte>>
  {
    ReadFixedUnit(s)
  }

  function ReadPadding(s: Bytes): Result<Decoded<byte>>
  {
    ReadFixedUnit(s)
  }

  // ---------------------------------------------------------------------------
  // Object identifier

  /**
   The fixed length 5, one byte meant to hold the first two elements as
   nibbles, then elements 2 to 5 as they are. The packed byte ANDs
   `oid[0] << 4` (low nibble clear) with `oid[1] & 0x0F` (high nibble clear),
   so it is always 0.
   */
  function WriteObjectIdentifier(oid: Bytes): (r: Bytes)
    requires |oid| >= 6
    ensures |r| == 6 && r[0] == 5
    ensures r[1] == 0
    ensures r[2..] == oid[2..6]
  {
    PackedOidIsZero(oid[0], oid[1]);
    var packed := BitAnd((oid[0] as int * 16) % 0x100, BitAnd(oid[1], 0x0F));  // (oid[0] << 4) & (oid[1] & 0x0f)
    WriteUInt8(5) + [packed] + [oid[2], oid[3], oid[4], oid[5]]
  }

  /**
   Element `i` of the identifier a zero-filling reader rebuilds from the five
   bytes `b` following the length: the two nibbles of the first byte, then the
   other four bytes.
   */
  function OidElement(b: Bytes, i: nat): byte
    requires i < 6
  {
    if i == 0 then ByteAt(b, 0) / 16
    else if i == 1 then ByteAt(b, 0) % 16
    else ByteAt(b, i - 1)
  }

  /**
   Checks that the input holds the identifier `oid`: the length must be 5,
   and then five bytes are read and unpacked into six elements, each compared
   with the corresponding element of `oid`.
   */
  function MatchObjectIdentifier(s: Bytes, oid: Bytes): (r: Decoded<bool>)
    requires |oid| <= 6
    ensures var size := ReadLength(s);
      r.value <==> size.value == 5 && forall i :: 0 <= i < |oid| ==> oid[i] == OidElement(size.rest, i)
    ensures var size := ReadLength(s);
      size.value != 5 ==> r.rest == size.rest
    ensures var size := ReadLength(s);
      size.value == 5 ==> r.rest == Skip(size.rest, 5)
  {
    var size := ReadLength(s);
    if size.value != 5 then
      Decoded(false, size.rest)
    else
      var read := ReadEachByte(size.rest, 5);
      var t12 := read.value[0];
      var candidate := [t12 / 16, t12 % 16] + read.value[1..];  // t12 >> 4, t12 & 0x0f (see Bits.SplitNibbles)
      assert forall i :: 0 <= i < 6 ==> candidate[i] == OidElement(size.rest, i);
      Decoded(oid == candidate[..|oid|], read.rest)
  }

  // ---------------------------------------------------------------------------
  // Numeric strings and octet strings

  /**
   The length field written before a numeric or octet string: the excess of
   its length over `minValue`, or `minValue` itself when the string is
   shorter than that.
   */
  function DeltaLength(length: nat, minValue: int): int
  {
    if length >= minValue then length - minValue else minValue
  }

  predicate IsDigits(s: string)
  {
    forall i :: 0 <= i < |s| ==> '0' <= s[i] <= '9'
  }

  /** Go's `(c - 0x30) % 10`; on a digit the reduction changes nothing. */
  function DigitValue(c: char): (d: int)
    requires '0' <= c <= '9'
    ensures d == c as int - '0' as int
  {
    (c as int - 0x30) % 10
  }

  /** The digit `s[i]` stands for, or 0 past the end of `s` (the '0' that pads an odd string). */
  function DigitOrZero(s: string, i: nat): int
  {
    if i < |s| && '0' <= s[i] <= '9' then s[i] as int - '0' as int else 0
  }

  /** Dropping the first pair of digits moves every digit two places forward. */
  lemma DigitAfterPair(s: string, k: nat)
    requires |s| >= 2
    ensures DigitOrZero(s[2..], k) == DigitOrZero(s, k + 2)
  {
  }

  /**
   Packs the digits two to a byte, first digit in the high nibble; an odd
   last digit is paired with '0'.
   */
  function PackDigits(s: string): (r: Bytes)
    requires IsDigits(s)
    ensures |r| == (|s| + 1) / 2
    ensures 2 * |r| == if |s| % 2 == 0 then |s| else |s| + 1
    ensures forall i :: 0 <= i < |r| ==> r[i] as int == 16 * DigitOrZero(s, 2 * i) + DigitOrZero(s, 2 * i + 1)
    decreases |s|
  {
    if |s| == 0 then
      []
    else
      var c1 := DigitValue(s[0]);
      var c2 := if |s| > 1 then DigitValue(s[1]) else DigitValue('0');
      var packed := 16 * c1 + c2;  // (c1 << 4) | c2, see Bits.JoinNibbles
      var tail := if |s| > 1 then s[2..] else [];
      var more := PackDigits(tail);
      var r := [packed] + more;
      assert r[0] as int == 16 * DigitOrZero(s, 0) + DigitOrZero(s, 1);
      forall i | 1 <= i < |r|
        ensures r[i] as int == 16 * DigitOrZero(s, 2 * i) + DigitOrZero(s, 2 * i + 1)
      {
        assert r[i] == more[i - 1];
        DigitAfterPair(s, 2 * (i - 1));
        DigitAfterPair(s, 2 * (i - 1) + 1);
      }
      r
  }

  /** The character for a nibble: '0' plus its value, so ':' to '?' above nine. */
  function NibbleChar(nibble: int): char
    requires 0 <= nibble < 16
  {
    (nibble + 0x30) as char
  }

  /** Unpacks every byte into two characters, high nibble first. */
  function UnpackDigits(b: Bytes): (r: string)
    ensures |r| == 2 * |b|
    ensures forall i :: 0 <= i < |b| ==> r[2 * i] == NibbleChar(b[i] as int / 16)
    ensures forall i :: 0 <= i < |b| ==> r[2 * i + 1] == NibbleChar(b[i] as int % 16)
  {
    if |b| == 0 then
      ""
    else
      var c1 := b[0] / 16;  // (b >> 4) & 0x0f, see Bits.SplitNibbles
      var c2 := b[0] % 16;  // b & 0x0f
      var r := [NibbleChar(c1), NibbleChar(c2)] + UnpackDigits(b[1..]);
      assert forall i :: 1 <= i < |b| ==> r[2 * i] == UnpackDigits(b[1..])[2 * (i - 1)];
      assert forall i :: 1 <= i < |b| ==> r[2 * i + 1] == UnpackDigits(b[1..])[2 * (i - 1) + 1];
      r
  }

  /** A byte `16 * high + low` splits back into `high` and `low`. */
  lemma SplitPacked(high: int, low: int)
    requires 0 <= high < 16 && 0 <= low < 16
    ensures (16 * high + low) / 16 == high && (16 * high + low) % 16 == low
  {
  }

  lemma MultipleOfSixteen(b: int, high: int)
    requires b == 16 * high
    ensures b % 16 == 0
  {
  }

  lemma HalfRoundedUp(n: nat)
    ensures 2 * ((n + 1) / 2) == if n % 2 == 0 then n else n + 1
  {
  }

  /** `s` made even-length by the '0' that packing pairs an odd last digit with. */
  function PadToEven(s: string): (r: string)
    ensures |r| == if |s| % 2 == 0 then |s| else |s| + 1
    ensures forall k :: 0 <= k < |r| ==> r[k] == if k < |s| then s[k] else '0'
  {
    if |s| % 2 == 0 then s else s + "0"
  }

  /** The character a digit nibble unpacks to is the digit it was packed from, or the padding '0'. */
  lemma DigitOfPadded(s: string, k: nat)
    requires IsDigits(s)
    requires k < |PadToEven(s)|
    ensures NibbleChar(DigitOrZero(s, k)) == PadToEven(s)[k]
  {
  }

  /** Byte `j` of the packed digits unpacks to characters `2j` and `2j + 1` of the padded string. */
  lemma UnpackPackedByte(s: string, j: nat)
    requires IsDigits(s)
    requires j < |PackDigits(s)|
    ensures UnpackDigits(PackDigits(s))[2 * j] == PadToEven(s)[2 * j]
    ensures UnpackDigits(PackDigits(s))[2 * j + 1] == PadToEven(s)[2 * j + 1]
  {
    var packed := PackDigits(s);
    var u := UnpackDigits(packed);
    var high := DigitOrZero(s, 2 * j);
    var low := DigitOrZero(s, 2 * j + 1);
    assert packed[j] as int == 16 * high + low;
    SplitPacked(high, low);
    assert u[2 * j] == NibbleChar(high) && u[2 * j + 1] == NibbleChar(low);
    DigitOfPadded(s, 2 * j);
    DigitOfPadded(s, 2 * j + 1);
  }

  /**
   Unpacking packed digits gives the digits back, followed by the '0' that
   padded an odd-length string.
   */
  lemma PackThenUnpack(s: string)
    requires IsDigits(s)
    ensures UnpackDigits(PackDigits(s)) == PadToEven(s)
  {
    var u := UnpackDigits(PackDigits(s));
    var padded := PadToEven(s);
    assert |u| == |padded| by {
      HalfRoundedUp(|s|);
    }
    forall i | 0 <= i < |u|
      ensures u[i] == padded[i]
    {
      var j := i / 2;
      UnpackPackedByte(s, j);
      assert i == 2 * j || i == 2 * j + 1;
    }
  }

  /** Packing an odd number of digits leaves the last low nibble 0. */
  lemma PaddedLowNibble(s: string)
    requires IsDigits(s)
    ensures |s| % 2 == 1 ==> PackDigits(s)[|PackDigits(s)| - 1] % 16 == 0
  {
    if |s| % 2 == 1 {
      var packed := PackDigits(s);
      var last := |packed| - 1;
      var high := DigitOrZero(s, 2 * last);
      assert packed[last] == 16 * high by {
        assert 2 * last + 1 == |s|;
      }
      MultipleOfSixteen(packed[last], high);
    }
  }

  /**
   The length field `DeltaLength(|s|, minValue)` followed by the packed
   digits: ceil(|s| / 2) bytes whose nibbles spell `s`, with a 0 low nibble
   closing an odd-length string.
   */
  function WriteNumericString(s: string, minValue: int): (r: Bytes)
    requires IsDigits(s)
    requires 0 <= DeltaLength(|s|, minValue) <= 0xFFFF
    ensures var prefix := WriteLength(DeltaLength(|s|, minValue));
      |r| == |prefix| + (|s| + 1) / 2 && r[..|prefix|] == prefix
    ensures var prefix := WriteLength(DeltaLength(|s|, minValue));
      UnpackDigits(r[|prefix|..])[..|s|] == s
    ensures |s| % 2 == 1 ==> r[|r| - 1] as int % 16 == 0
  {
    var prefix := WriteLength(DeltaLength(|s|, minValue));
    var packed := PackDigits(s);
    HalfRoundedUp(|s|);
    PackThenUnpack(s);
    PaddedLowNibble(s);
    PrefixThenDigits(prefix, packed, s);
    prefix + packed
  }

  lemma PrefixThenDigits(prefix: Bytes, packed: Bytes, s: string)
    requires |packed| == (|s| + 1) / 2 && UnpackDigits(packed) == PadToEven(s)
    requires |s| % 2 == 1 ==> packed[|packed| - 1] as int % 16 == 0
    ensures var r := prefix + packed;
      |r| == |prefix| + (|s| + 1) / 2 && r[..|prefix|] == prefix &&
      UnpackDigits(r[|prefix|..])[..|s|] == s &&
      (|s| % 2 == 1 ==> r[|r| - 1] as int % 16 == 0)
  {
    var r := prefix + packed;
    assert r[..|prefix|] == prefix && r[|prefix|..] == packed;
  }

  /**
   Reads a length `m` and then `minValue + m` BYTES, unpacking each into two
   characters; an input too short for that gives "" and is used up.
   */
  function ReadNumericString(minValue: int, s: Bytes): (r: Decoded<string>)
    requires minValue + ReadLength(s).value >= 0
    ensures var size := ReadLength(s); var n := minValue + size.value;
      |size.rest| < n ==> r == Decoded("", [])
    ensures var size := ReadLength(s); var n := minValue + size.value;
      |size.rest| >= n ==> |r.value| == 2 * n && r.rest == size.rest[n..]
    ensures var size := ReadLength(s); var n := minValue + size.value;
      |size.rest| >= n ==> forall i :: 0 <= i < n ==>
        r.value[2 * i] == NibbleChar(size.rest[i] as int / 16) &&
        r.value[2 * i + 1] == NibbleChar(size.rest[i] as int % 16)
  {
    var mLength := ReadLength(s);
    var nBytes := minValue + mLength.value;
    if |mLength.rest| < nBytes then
      Decoded("", [])
    else
      Decoded(UnpackDigits(mLength.rest[..nBytes]), mLength.rest[nBytes..])
  }

  /**
   The length field `DeltaLength(|s|, minValue)` followed by all of `s`
   unchanged; the field does not bound how many bytes follow.
   */
  function WriteOctetStream(s: Bytes, minValue: int): (r: Bytes)
    requires 0 <= DeltaLength(|s|, minValue) <= 0xFFFF
    ensures |r| > |s| && r[|r| - |s|..] == s
    ensures r[..|r| - |s|] == WriteLength(DeltaLength(|s|, minValue))
    ensures DeltaLength(|s|, minValue) <= 0x7FFF ==> ReadLength(r) == Decoded(DeltaLength(|s|, minValue), s)
  {
    var prefix := WriteLength(DeltaLength(|s|, minValue));
    var r := prefix + s;
    assert r[..|prefix|] == prefix && r[|prefix|..] == s;
    assert DeltaLength(|s|, minValue) <= 0x7FFF ==> ReadLength(r) == Decoded(DeltaLength(|s|, minValue), s) by {
      if DeltaLength(|s|, minValue) <= 0x7FFF {
        LengthRoundTrip(DeltaLength(|s|, minValue), s);
      }
    }
    r
  }

  /**
   Reads a length `m`, then `minValue + m` bytes, and returns them without
   their first `minValue` bytes. Too few bytes is an error.
   */
  function ReadOctetStream(s: Bytes, minValue: int): (r: Result<Decoded<Bytes>>)
    requires minValue >= 0
    ensures var size := ReadLength(s); r.Failure? <==> |size.rest| < size.value + minValue
    ensures r.Failure? ==> r.error == ShortRead
    ensures var size := ReadLength(s); var n := size.value + minValue;
      r.Success? ==> (|r.value.value| == size.value && r.value.rest == size.rest[n..] &&
                      size.rest[..n] == size.rest[..minValue] + r.value.value)
  {
    var ln := ReadLength(s);
    var size := ln.value + minValue;
    if |ln.rest| < size then
      Failure(ShortRead)
    else
      var buf := ln.rest[..size];
      assert buf == buf[..minValue] + buf[minValue..];
      Success(Decoded(buf[minValue..], ln.rest[size..]))
  }

  /** The first `k` bytes a zero-filling reader sees in `s` are those of `expected`. */
  predicate AgreesUpTo(s: Bytes, expected: Bytes, k: nat)
    requires k <= |expected|
  {
    forall j :: 0 <= j < k ==> ByteAt(s, j) == expected[j]
  }

  /** Agreement after a matching first byte is agreement of the rest, one position on. */
  lemma AgreesAfterFirst(s: Bytes, expected: Bytes, k: nat)
    requires 0 < |expected| && k < |expected|
    requires ByteAt(s, 0) == expected[0]
    ensures AgreesUpTo(s, expected, k + 1) <==> AgreesUpTo(ReadUInt8(s).rest, expected[1..], k)
    ensures Skip(s, k + 1) == Skip(ReadUInt8(s).rest, k)
  {
    var rest := ReadUInt8(s).rest;
    assert forall j :: 0 <= j < k ==> ByteAt(s, j + 1) == ByteAt(rest, j);
    if AgreesUpTo(rest, expected[1..], k) {
      forall j | 0 <= j < k + 1
        ensures ByteAt(s, j) == expected[j]
      {
        if j > 0 {
          assert ByteAt(rest, j - 1) == expected[1..][j - 1];
        }
      }
    }
  }

  /** A mismatch at `k` after a matching first byte is a mismatch at `k + 1` of the whole. */
  lemma MismatchOneOn(s: Bytes, expected: Bytes, k: nat, rest: Bytes)
    requires 0 < |expected| && ByteAt(s, 0) == expected[0]
    requires k < |expected| - 1 && AgreesUpTo(ReadUInt8(s).rest, expected[1..], k)
    requires ByteAt(ReadUInt8(s).rest, k) != expected[1..][k] && rest == Skip(ReadUInt8(s).rest, k + 1)
    ensures AgreesUpTo(s, expected, k + 1) && ByteAt(s, k + 1) != expected[k + 1] && rest == Skip(s, k + 2)
  {
    AgreesAfterFirst(s, expected, k + 1);
    assert ByteAt(s, k + 1) == ByteAt(ReadUInt8(s).rest, k);
  }

  /**
   Reads bytes one at a time, comparing each with `expected` in order, and
   stops after the first byte that differs. A byte the input lacks reads
   as 0.
   */
  function MatchBytes(s: Bytes, expected: Bytes): (r: Decoded<bool>)
    ensures r.value <==> AgreesUpTo(s, expected, |expected|)
    ensures r.value ==> r.rest == Skip(s, |expected|)
    ensures !r.value ==> exists k :: 0 <= k < |expected| && AgreesUpTo(s, expected, k) &&
                                     ByteAt(s, k) != expected[k] && r.rest == Skip(s, k + 1)
  {
    if |expected| == 0 then
      Decoded(true, s)
    else
      var b := ReadUInt8(s);
      if b.value != expected[0] then
        assert AgreesUpTo(s, expected, 0);
        Decoded(false, b.rest)
      else
        var r := MatchBytes(b.rest, expected[1..]);
        AgreesAfterFirst(s, expected, |expected| - 1);
        if !r.value then
          var k :| 0 <= k < |expected| - 1 && AgreesUpTo(b.rest, expected[1..], k) &&
                   ByteAt(b.rest, k) != expected[1..][k] && r.rest == Skip(b.rest, k + 1);
          MismatchOneOn(s, expected, k, r.rest);
          r
        else
          r
  }

  /**
   Checks that the input holds the octet string `expected`: the decoded
   length plus `minValue` must equal its length, and then its bytes must
   follow.
   */
  function MatchOctetStream(s: Bytes, expected: Bytes, minValue: int): (r: Decoded<bool>)
    ensures var ln := ReadLength(s);
      r.value <==> ln.value + minValue == |expected| && AgreesUpTo(ln.rest, expected, |expected|)
    ensures var ln := ReadLength(s);
      ln.value + minValue != |expected| ==> r.rest == ln.rest
    ensures var ln := ReadLength(s);
      r.value ==> r.rest == Skip(ln.rest, |expected|)
    ensures var ln := ReadLength(s);
      !r.value && ln.value + minValue == |expected| ==>
        exists k :: 0 <= k < |expected| && AgreesUpTo(ln.rest, expected, k) &&
                    ByteAt(ln.rest, k) != expected[k] && r.rest == Skip(ln.rest, k + 1)
  {
    var ln := ReadLength(s);
    if ln.value + minValue != |expected| then Decoded(false, ln.rest) else MatchBytes(ln.rest, expected)
  }

  // ---------------------------------------------------------------------------
  // Expected byte

  /**
   Reads one byte that must equal `b`. An unreadable or different byte is a
   fatal protocol violation naming what was expected (and what was read).
   */
  function ReadExcept(b: byte, s: Bytes): (r: Result<Bytes>)
    ensures r.Success? <==> |s| >= 1 && s[0] == b
    ensures r.Success? ==> r.value == s[1..]
    ensures |s| == 0 ==> r == Failure(ExpectUnreadable(b))
    ensures |s| >= 1 && s[0] != b ==> r == Failure(ExpectMismatch(b, s[0]))
  {
    if |s| == 0 then
      Failure(ExpectUnreadable(b))
    else
      var u := ReadUInt8(s);
      if u.value != b then Failure(ExpectMismatch(b, u.value)) else Success(u.rest)
  }
}
