/**
 Properties that relate the encoders of the PER codec to its decoders:
 what each decoder makes of an encoder's output followed by arbitrary
 further input `t`.
 */
module PerProperties {
  import opened Core
  import opened Bits
  import opened Per

  // ---------------------------------------------------------------------------
  // Length determinant

  /**
   The two-byte form carries fifteen bits: a value from 0x8000 up written by
   `WriteLength` reads back without its top bit.
   */
  lemma LengthKeepsFifteenBits(value: int, t: Bytes)
    requires 0x8000 <= value <= 0xFFFF
    ensures ReadLength(WriteLength(value) + t) == Decoded(value - 0x8000, t)
  {
    var w := WriteLength(value);
    var s := w + t;
    assert s[0] == w[0] && s[1] == w[1] && s[2..] == t;
  }

  /** The one-byte form is used exactly up to 0x7F. */
  lemma LengthFormBoundary()
    ensures WriteLength(0x7F) == [0x7F]
    ensures WriteLength(0x80) == [0x80, 0x80]
  {
    var long := WriteLength(0x80);
    assert (long[0] as int - 0x80) * 0x100 + long[1] as int == 0x80;
    assert long[0] as int >= 0x80;
    assert long[0] as int == 0x80 && long[1] as int == 0x80;
  }

  /** The long form is what Go writes: `uint16(value | 0x8000)`, big-endian. */
  lemma WriteLengthFlagged(value: int)
    requires 0x7F < value <= 0xFFFF
    ensures BitOr(value, 0x8000) <= 0xFFFF
    ensures WriteLength(value) == WriteUInt16BE(BitOr(value, 0x8000))
  {
    SetLengthFlag(value);
  }

  /**
   The length read is what Go computes: the first byte when `b & 0x80` is
   clear, otherwise `b &^ 0x80` as the high byte over the next byte.
   */
  lemma ReadLengthMasked(s: Bytes)
    requires |s| >= 1
    ensures BitAnd(s[0], 0x80) == 0 ==> ReadLength(s).value == s[0] as int
    ensures BitAnd(s[0], 0x80) > 0 ==> ReadLength(s).value == BitAnd(s[0], 0x7F) * 0x100 + ByteAt(s, 1)
  {
    ClearLengthFlag(s[0]);
  }

  // ---------------------------------------------------------------------------
  // Constrained whole numbers

  /** Every 32-bit unsigned number reads back from its constrained encoding. */
  lemma IntegerRoundTrip(n: int, t: Bytes)
    requires 0 <= n <= 0xFFFF_FFFF
    ensures ReadInteger(WriteInteger(n) + t) == Decoded(n, t)
  {
    var w := WriteInteger(n);
    var width := w[0] as int;
    var s := w + t;
    LengthRoundTrip(width, w[1..] + t);
    assert s == WriteLength(width) + (w[1..] + t);
    assert (w[1..] + t)[..width] == w[1..];
    assert (w[1..] + t)[width..] == t;
  }

  /** A constrained integer whose length prefix is 3 decodes to 0 and leaves the value bytes unread. */
  lemma IntegerOddWidthIsZero(t: Bytes)
    ensures ReadInteger([3] + t) == Decoded(0, t)
  {
    assert ([3] + t)[1..] == t;
  }

  /** `ReadInteger16` reads back what `WriteInteger16` wrote. */
  lemma Integer16RoundTrip(value: int, t: Bytes)
    requires 0 <= value <= 0xFFFF
    ensures ReadInteger16(WriteInteger16(value) + t) == Success(Decoded(value, t))
  {
    BigEndianRoundTrip(value, 2, t);
  }

  // ---------------------------------------------------------------------------
  // Single-byte fields

  lemma ChoiceRoundTrip(choice: byte, t: Bytes)
    ensures ReadChoice(WriteChoice(choice) + t) == Decoded(choice, t)
  {
    assert (WriteChoice(choice) + t)[1..] == t;
  }

  lemma SelectionRoundTrip(selection: byte, t: Bytes)
    ensures ReadSelection(WriteSelection(selection) + t) == Success(Decoded(selection, t))
  {
    assert (WriteSelection(selection) + t)[1..] == t;
  }

  lemma NumberOfSetRoundTrip(n: int, t: Bytes)
    requires 0 <= n <= 0xFF
    ensures ReadNumberOfSet(WriteNumberOfSet(n) + t) == Decoded(n, t)
  {
    assert (WriteNumberOfSet(n) + t)[1..] == t;
  }

  // ---------------------------------------------------------------------------
  // Object identifier

  /**
   Because the packed byte is always 0, an identifier survives its own
   encoding exactly when its first two elements are 0; either way the six
   bytes are consumed.
   */
  lemma ObjectIdentifierMatchesIff(oid: Bytes, t: Bytes)
    requires |oid| == 6
    ensures MatchObjectIdentifier(WriteObjectIdentifier(oid) + t, oid) == Decoded(oid[0] == 0 && oid[1] == 0, t)
  {
    var w := WriteObjectIdentifier(oid);
    var b := w[1..];
    assert w + t == [5] + (b + t);
    MatchAfterLengthFive(b, t, oid);
    WrittenElements(oid);
  }

  /** The elements a reader unpacks from the encoding: 0 and 0, then elements 2 to 5. */
  lemma WrittenElements(oid: Bytes)
    requires |oid| == 6
    ensures var b := WriteObjectIdentifier(oid)[1..];
      |b| == 5 && OidElement(b, 0) == 0 && OidElement(b, 1) == 0 &&
      forall i :: 2 <= i < 6 ==> OidElement(b, i) == oid[i]
  {
  }

  /**
   After the length 5, an identifier is compared with the elements the next
   five bytes unpack to, and exactly those five bytes are consumed.
   */
  lemma MatchAfterLengthFive(b: Bytes, t: Bytes, oid: Bytes)
    requires |b| == 5 && |oid| <= 6
    ensures MatchObjectIdentifier([5] + (b + t), oid) ==
            Decoded(forall i :: 0 <= i < |oid| ==> oid[i] == OidElement(b, i), t)
  {
    var s := [5] + (b + t);
    assert s[1..] == b + t;
    assert Skip(b + t, 5) == t;
    assert forall i :: 0 <= i < 6 ==> OidElement(b + t, i) == OidElement(b, i);
  }

  /** An identifier announced with a length other than 5 is rejected after reading only the length. */
  lemma ObjectIdentifierWrongLength(oid: Bytes, n: byte, t: Bytes)
    requires |oid| <= 6
    requires n < 0x80 && n != 5
    ensures MatchObjectIdentifier([n] + t, oid) == Decoded(false, t)
  {
    assert ([n] + t)[1..] == t;
  }

  /**
   The second element a reader unpacks is Go's `t12 & 0x0f`; the first, Go's
   `t12 >> 4`, is the quotient by 16 that `OidElement` takes.
   */
  lemma OidElementsMasked(b: Bytes)
    ensures OidElement(b, 1) == BitAnd(ByteAt(b, 0), 0x0F)
  {
    SplitNibbles(ByteAt(b, 0));
  }

  // ---------------------------------------------------------------------------
  // Numeric strings

  /** Each packed byte is Go's `(c1 << 4) | c2` of the two digits it holds. */
  lemma PackDigitsJoined(s: string)
    requires IsDigits(s)
    ensures forall i :: 0 <= i < |PackDigits(s)| ==>
      PackDigits(s)[i] as int == BitOr(DigitOrZero(s, 2 * i) * 16, DigitOrZero(s, 2 * i + 1))
  {
    forall i | 0 <= i < |PackDigits(s)|
      ensures PackDigits(s)[i] as int == BitOr(DigitOrZero(s, 2 * i) * 16, DigitOrZero(s, 2 * i + 1))
    {
      JoinNibbles(DigitOrZero(s, 2 * i), DigitOrZero(s, 2 * i + 1));
    }
  }

  /** The two characters of each byte are Go's `(b >> 4) & 0x0f` and `b & 0x0f`, plus '0'. */
  lemma UnpackDigitsMasked(b: Bytes)
    ensures forall i :: 0 <= i < |b| ==>
      UnpackDigits(b)[2 * i] == NibbleChar(BitAnd(b[i] / 16, 0x0F)) &&
      UnpackDigits(b)[2 * i + 1] == NibbleChar(BitAnd(b[i], 0x0F))
  {
    forall i | 0 <= i < |b|
      ensures UnpackDigits(b)[2 * i] == NibbleChar(BitAnd(b[i] / 16, 0x0F))
      ensures UnpackDigits(b)[2 * i + 1] == NibbleChar(BitAnd(b[i], 0x0F))
    {
      SplitNibbles(b[i]);
    }
  }

  // ---------------------------------------------------------------------------
  // Octet strings

  /**
   An octet string of at least `minValue` bytes reads back without its first
   `minValue` bytes, which are consumed all the same.
   */
  lemma OctetStreamRoundTrip(s: Bytes, minValue: int, t: Bytes)
    requires 0 <= minValue <= |s| && |s| - minValue <= 0x7FFF
    ensures ReadOctetStream(WriteOctetStream(s, minValue) + t, minValue) == Success(Decoded(s[minValue..], t))
  {
    var delta := |s| - minValue;
    LengthRoundTrip(delta, s + t);
    assert WriteOctetStream(s, minValue) + t == WriteLength(delta) + (s + t);
    assert (s + t)[..|s|] == s && (s + t)[|s|..] == t;
  }

  /** An octet string written with `minValue` matches itself under the same `minValue`. */
  lemma OctetStreamMatchesItself(s: Bytes, minValue: int, t: Bytes)
    requires 0 <= minValue <= |s| && |s| - minValue <= 0x7FFF
    ensures MatchOctetStream(WriteOctetStream(s, minValue) + t, s, minValue) == Decoded(true, t)
  {
    var delta := |s| - minValue;
    LengthRoundTrip(delta, s + t);
    assert WriteOctetStream(s, minValue) + t == WriteLength(delta) + (s + t);
    assert forall j :: 0 <= j < |s| ==> ByteAt(s + t, j) == s[j];
    assert Skip(s + t, |s|) == t;
  }

  /**
   An octet string shorter than `minValue` does not match itself: its length
   field falls back to `minValue`, which with `minValue` added is more than
   its length.
   */
  lemma OctetStreamBelowMinimumRejected(s: Bytes, minValue: int, t: Bytes)
    requires |s| < minValue <= 0x7FFF
    ensures !MatchOctetStream(WriteOctetStream(s, minValue) + t, s, minValue).value
  {
    LengthRoundTrip(minValue, s + t);
    assert WriteOctetStream(s, minValue) + t == WriteLength(minValue) + (s + t);
  }

  /**
   An octet string cut off anywhere after its length field and before its
   last byte is a short-read error, not a shorter string.
   */
  lemma OctetStreamTruncated(s: Bytes, minValue: int, k: nat)
    requires 0 <= minValue <= |s| && |s| - minValue <= 0x7FFF
    requires |WriteLength(|s| - minValue)| <= k < |WriteOctetStream(s, minValue)|
    ensures ReadOctetStream(WriteOctetStream(s, minValue)[..k], minValue) == Failure(ShortRead)
  {
    var delta := |s| - minValue;
    var prefix := WriteLength(delta);
    var cut := k - |prefix|;
    LengthRoundTrip(delta, s[..cut]);
    assert WriteOctetStream(s, minValue)[..k] == prefix + s[..cut];
  }

  // ---------------------------------------------------------------------------
  // Expected byte

  /** `ReadExcept` accepts a single-byte field written with the byte it expects and rejects any other. */
  lemma ExceptAfterChoice(b: byte, c: byte, t: Bytes)
    ensures ReadExcept(b, WriteChoice(c) + t) == if b == c then Success(t) else Failure(ExpectMismatch(b, c))
  {
    assert (WriteChoice(c) + t)[1..] == t;
  }
}
