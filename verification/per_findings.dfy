/**
 Two places where the PER codec does not do what its own encoders and
 decoders evidently expect of each other. For each, the behaviour as written
 (in module `Per`) is shown to lose information on a concrete input, and a
 corrected definition is given with the property the code was meant to have.
 */
module PerFindings {
  import opened Core
  import opened Bits
  import opened Per
  import opened PerProperties

  // ---------------------------------------------------------------------------
  // Numeric strings: the reader counts bytes where the writer counted digits

  /**
   The length field of a numeric string counts digits, but `ReadNumericString`
   reads that many BYTES, two digits each. So no non-empty digit string
   survives its own encoding, whatever the minimum: either the input is too
   short and "" comes back, or at least twice as many characters as were
   written.
   */
  lemma NumericStringNotRecovered(s: string, minValue: int, t: Bytes)
    requires IsDigits(s) && |s| >= 1
    requires 0 <= minValue && DeltaLength(|s|, minValue) <= 0x7FFF
    ensures ReadNumericString(minValue, WriteNumericString(s, minValue) + t).value != s
  {
    var body := NumericStringFraming(s, minValue, t);
    AsWrittenReadAfterLength(WriteNumericString(s, minValue) + t, body + t, s, minValue);
  }

  /**
   A written numeric string followed by `t` reads as its length field and
   then `body + t`, where `body` holds the packed digits.
   */
  lemma NumericStringFraming(s: string, minValue: int, t: Bytes) returns (body: Bytes)
    requires IsDigits(s)
    requires 0 <= minValue && DeltaLength(|s|, minValue) <= 0x7FFF
    ensures ReadLength(WriteNumericString(s, minValue) + t) == Decoded(DeltaLength(|s|, minValue), body + t)
    ensures |body| == (|s| + 1) / 2 && UnpackDigits(body)[..|s|] == s
  {
    var delta := DeltaLength(|s|, minValue);
    var w := WriteNumericString(s, minValue);
    var prefix := WriteLength(delta);
    body := w[|prefix|..];
    assert |body| == (|s| + 1) / 2 && UnpackDigits(body)[..|s|] == s;
    assert w + t == prefix + (body + t) by {
      assert w == prefix + body;
    }
    LengthRoundTrip(delta, body + t);
  }

  /**
   Once the length field has given `DeltaLength(|s|, minValue)`, the reader
   as written asks for at least `|s|` bytes and returns either "" or at least
   `2 * |s|` characters, neither of which is `s`.
   */
  lemma AsWrittenReadAfterLength(x: Bytes, rest: Bytes, s: string, minValue: int)
    requires |s| >= 1 && 0 <= minValue
    requires ReadLength(x) == Decoded(DeltaLength(|s|, minValue), rest)
    ensures ReadNumericString(minValue, x).value != s
  {
    var r := ReadNumericString(minValue, x);
    var n := minValue + DeltaLength(|s|, minValue);
    assert n >= |s|;
    if |rest| < n {
      assert r.value == "";
    } else {
      assert |r.value| == 2 * n;
    }
  }

  /** "1234" with no minimum is written as the digit count 4 and the two bytes 0x12, 0x34. */
  lemma NumericString1234Written()
    ensures WriteNumericString("1234", 0) == [4, 0x12, 0x34]
  {
    var packed := PackDigits("1234");
    assert packed[0] == 16 * 1 + 2 && packed[1] == 16 * 3 + 4;
    assert WriteNumericString("1234", 0) == [4] + packed;
  }

  /** Reading "1234" back wants 4 bytes after the count, finds 2, and gives "". */
  lemma NumericString1234(t: Bytes)
    requires |t| < 2
    ensures ReadNumericString(0, WriteNumericString("1234", 0) + t) == Decoded("", [])
  {
    NumericString1234Written();
    var s: Bytes := [4, 0x12, 0x34] + t;
    assert s[1..] == [0x12, 0x34] + t;
  }

  /**
   The reader as evidently intended: the length field plus `minValue` is the
   number of DIGITS, which occupy half as many bytes rounded up; the '0' that
   padded an odd count is dropped again. Too few bytes gives "" and uses up
   the input, as `ReadNumericString` does.
   */
  function ReadNumericStringCorrected(minValue: int, s: Bytes): (r: Decoded<string>)
    requires minValue + ReadLength(s).value >= 0
    ensures var size := ReadLength(s); var digits := minValue + size.value;
      |size.rest| < (digits + 1) / 2 ==> r == Decoded("", [])
    ensures var size := ReadLength(s); var digits := minValue + size.value;
      |size.rest| >= (digits + 1) / 2 ==>
        |r.value| == digits && r.rest == size.rest[(digits + 1) / 2..] &&
        r.value <= UnpackDigits(size.rest[..(digits + 1) / 2])
  {
    var mLength := ReadLength(s);
    var digits := minValue + mLength.value;
    var nBytes := (digits + 1) / 2;
    if |mLength.rest| < nBytes then
      Decoded("", [])
    else
      HalfRoundedUp(digits);
      Decoded(UnpackDigits(mLength.rest[..nBytes])[..digits], mLength.rest[nBytes..])
  }

  /** With the corrected reader every digit string reads back as written. */
  lemma NumericStringRoundTrip(s: string, minValue: int, t: Bytes)
    requires IsDigits(s)
    requires 0 <= minValue <= |s| && |s| - minValue <= 0x7FFF
    ensures ReadNumericStringCorrected(minValue, WriteNumericString(s, minValue) + t) == Decoded(s, t)
  {
    var body := NumericStringFraming(s, minValue, t);
    CorrectedReadAfterLength(WriteNumericString(s, minValue) + t, body, t, s, minValue);
  }

  /** The corrected reader, once the length field has given the digit count, takes exactly the packed bytes. */
  lemma CorrectedReadAfterLength(x: Bytes, body: Bytes, t: Bytes, s: string, minValue: int)
    requires 0 <= minValue <= |s|
    requires ReadLength(x) == Decoded(|s| - minValue, body + t)
    requires |body| == (|s| + 1) / 2 && UnpackDigits(body)[..|s|] == s
    ensures ReadNumericStringCorrected(minValue, x) == Decoded(s, t)
  {
    assert (body + t)[..|body|] == body && (body + t)[|body|..] == t;
  }

  // ---------------------------------------------------------------------------
  // Object identifier: the first two elements are ANDed where they should be ORed

  /** [1, 2, 3, 4, 5, 6] is written with a 0 in place of 0x12 and does not match itself. */
  lemma ObjectIdentifierNotRecovered(t: Bytes)
    ensures WriteObjectIdentifier([1, 2, 3, 4, 5, 6]) == [5, 0, 3, 4, 5, 6]
    ensures MatchObjectIdentifier(WriteObjectIdentifier([1, 2, 3, 4, 5, 6]) + t, [1, 2, 3, 4, 5, 6]).value == false
  {
    var oid: Bytes := [1, 2, 3, 4, 5, 6];
    assert WriteObjectIdentifier(oid)[2..] == [3, 4, 5, 6];
    ObjectIdentifierMatchesIff(oid, t);
  }

  /**
   The writer as evidently intended: `oid[0]` and `oid[1]` share the second
   byte, high nibble and low nibble, which is how `MatchObjectIdentifier`
   unpacks it.
   */
  function WriteObjectIdentifierCorrected(oid: Bytes): (r: Bytes)
    requires |oid| >= 6
    ensures |r| == 6 && r[0] == 5
    ensures r[1] == 16 * (oid[0] % 16) + oid[1] % 16
    ensures r[2..] == oid[2..6]
  {
    PackedOidOr(oid[0], oid[1]);
    var packed := BitOr((oid[0] as int * 16) % 0x100, BitAnd(oid[1], 0x0F));  // (oid[0] << 4) | (oid[1] & 0x0f)
    WriteUInt8(5) + [packed] + [oid[2], oid[3], oid[4], oid[5]]
  }

  /**
   With the corrected writer an identifier matches its own encoding exactly
   when its first two elements fit in a nibble, which every identifier the
   protocol uses does.
   */
  lemma ObjectIdentifierRoundTrip(oid: Bytes, t: Bytes)
    requires |oid| == 6
    ensures MatchObjectIdentifier(WriteObjectIdentifierCorrected(oid) + t, oid) == Decoded(oid[0] < 16 && oid[1] < 16, t)
  {
    var w := WriteObjectIdentifierCorrected(oid);
    var b := w[1..];
    assert w + t == [5] + (b + t);
    MatchAfterLengthFive(b, t, oid);
    CorrectedElements(oid);
    assert oid[0] == oid[0] % 16 && oid[1] == oid[1] % 16 <==> oid[0] < 16 && oid[1] < 16 by {
      FitsInNibble(oid[0]);
      FitsInNibble(oid[1]);
    }
  }

  /** The elements a reader unpacks from the corrected encoding: the low nibbles of the first two, then the rest. */
  lemma CorrectedElements(oid: Bytes)
    requires |oid| == 6
    ensures var b := WriteObjectIdentifierCorrected(oid)[1..];
      |b| == 5 && OidElement(b, 0) == oid[0] % 16 && OidElement(b, 1) == oid[1] % 16 &&
      forall i :: 2 <= i < 6 ==> OidElement(b, i) == oid[i]
  {
    var b := WriteObjectIdentifierCorrected(oid)[1..];
    SplitPacked(oid[0] % 16, oid[1] % 16);
    assert b[0] == 16 * (oid[0] % 16) + oid[1] % 16;
  }

  lemma FitsInNibble(x: int)
    requires 0 <= x
    ensures x == x % 16 <==> x < 16
  {
  }
}
