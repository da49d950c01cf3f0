# PER primitives of the grdp T.125 stack, modelled in Dafny

grdp is an RDP client written in Go. Its MCS layer (ITU-T T.125) and the
GCC conference-create PDUs it carries (ITU-T T.124) are encoded with the
aligned Packed Encoding Rules, through a small set of primitives in
`protocol/t125/per/per.go`:

- length determinants (one byte up to 0x7F, otherwise two bytes with the top
  bit set);
- constrained whole numbers (a length prefix 1, 2 or 4 and that many
  big-endian bytes) and plain 16-bit integers;
- single-byte fields: choice, selection, enumeration, number-of-set, padding;
- the six-element object identifier, written in five bytes after the length 5;
- numeric strings (digits packed two to a byte) and octet strings, each behind
  a length field counted from a minimum `minValue`;
- `ReadExcept`, which insists on one given byte.

This project models every one of them and proves how the encoders and
decoders fit together.

Layout:

- `core.dfy` (module `Core`): the byte-stream layer the codec stands on.
  - The shared types: `byte`, `Bytes`, `Decoded` (a value plus the unread
    rest) and `Result`/`Error`.
  - Big-endian conversion.
  - The fixed-width readers and writers of grdp's `core` package, whose
    source is not part of this model. Their behaviour is an assumption,
    described below.
- `bits.dfy` (module `Bits`): Go's `&` and `|` on non-negative integers,
  defined bit by bit. Each shift, mask or flag expression that `per.go`
  applies to a byte is proved equal to plain arithmetic: division,
  remainder, addition. The codec in `per.dfy` is written with that
  arithmetic. Lemmas in `per_properties.dfy` restate each codec member
  affected in terms of Go's own bit expressions.
- `per.dfy` (module `Per`): the codec itself, one member per Go function.
  Contracts state the wire format and the error and short-input behaviour.
- `per_properties.dfy` (module `PerProperties`): lemmas about what each
  decoder does with an encoder's output followed by arbitrary further input.
- `per_findings.dfy` (module `PerFindings`): two places where the code does
  not do what its encoders and decoders evidently expect of each other. Each
  has a counterexample against the code as written, plus a corrected
  definition with the intended property proved (see "## Findings").

How I/O is represented:

- A writer is a function returning the bytes it would append.
- A reader takes the input as a byte sequence and returns the value with the
  input it left unread.
- A read that finds too few bytes yields 0 and uses up whatever was left.
  This is what `io.ReadFull` does on a byte reader.
- A single-byte read on an empty input yields 0 and consumes nothing.

Where the Go code would panic, the model has a precondition. Examples:
indexing a short identifier, a negative read size, slicing with a negative
`min`. Where the Go code truncates an out-of-range argument to `uint8` or
`uint16`, the precondition keeps the argument in range.

## Model

| member | source | states |
|---|---|---|
| Per.WriteLength | protocol/t125/per/per.go:53-59 | A value up to 0x7F becomes one byte holding it. A larger value becomes two bytes whose first is at least 0x80 and which carry the value's low fifteen bits big-endian. |
| Per.ReadLength | protocol/t125/per/per.go:61-76 | Never fails and never exceeds 0x7FFF. Empty input gives 0 and consumes nothing. A first byte below 0x80 is the length. Otherwise the first byte less 0x80 is the high byte and the next byte (0 if missing) is the low byte. |
| Per.LengthRoundTrip | protocol/t125/per/per.go:53-76 | Every length up to 0x7FFF reads back as itself, and exactly its encoding is consumed. |
| PerProperties.LengthKeepsFifteenBits | protocol/t125/per/per.go:53-76 | A length from 0x8000 to 0xFFFF reads back without its top bit, so the two-byte form cannot carry it. |
| PerProperties.LengthFormBoundary | protocol/t125/per/per.go:54-58 | 0x7F is written as the single byte 0x7F. 0x80 is written as 0x80 0x80. |
| Bits.SetLengthFlag | protocol/t125/per/per.go:55 | On a 16-bit value, `value \| 0x8000` adds 0x8000 unless the bit is already set. |
| PerProperties.WriteLengthFlagged | protocol/t125/per/per.go:54-56 | The long form `WriteLength` writes is Go's `uint16(value \| 0x8000)`, big-endian. |
| PerProperties.ReadLengthMasked | protocol/t125/per/per.go:61-76 | The length `ReadLength` returns is Go's: the first byte when `b & 0x80` is clear, otherwise `b &^ 0x80` times 0x100 plus the next byte. |
| Bits.ClearLengthFlag | protocol/t125/per/per.go:67-68 | On a byte, `b & 0x80 > 0` holds exactly when b is at least 0x80, and `b &^ 0x80` then subtracts 0x80. |
| Per.WriteInteger | protocol/t125/per/per.go:20-31 | The prefix is 1 exactly for n up to 0xFF, 2 exactly for 0x100 to 0xFFFF, and 4 exactly above that. The prefix counts the bytes that follow, which hold n big-endian. |
| Per.ReadInteger | protocol/t125/per/per.go:189-205 | Reads a length and then that many big-endian bytes when the length is 1, 2 or 4. Any other length gives 0 after consuming only the length. Too few bytes give 0. The result always fits in 32 bits. |
| PerProperties.IntegerRoundTrip | protocol/t125/per/per.go:20-31 | Every number from 0 to 0xFFFFFFFF reads back with `ReadInteger`, and exactly its encoding is consumed. |
| PerProperties.IntegerOddWidthIsZero | protocol/t125/per/per.go:201-204 | A length prefix of 3 yields 0 and leaves the value bytes unread. |
| Per.ReadInteger16 | protocol/t125/per/per.go:33-35 | Fails with a short read exactly when fewer than two bytes remain. Otherwise it returns the two bytes big-endian and the rest. |
| PerProperties.Integer16RoundTrip | protocol/t125/per/per.go:37-39 | A 16-bit value written by `WriteInteger16` reads back with `ReadInteger16`. |
| PerProperties.ChoiceRoundTrip | protocol/t125/per/per.go:45-47 | A choice byte reads back with `ReadChoice`, and the following input is untouched. |
| PerProperties.SelectionRoundTrip | protocol/t125/per/per.go:95-97 | A selection byte reads back with `ReadSelection` without error. |
| PerProperties.NumberOfSetRoundTrip | protocol/t125/per/per.go:148-150 | A count from 0 to 255 written by `WriteNumberOfSet` reads back with `ReadNumberOfSet` (per.go:185-188), and the following input is untouched. |
| Per.WritePadding | protocol/t125/per/per.go:141-146 | Exactly `length` bytes, all zero, or none when `length` is not positive. |
| Per.ReadChoice | protocol/t125/per/per.go:168-171 | The first byte and the rest. A missing byte is swallowed and reads as 0. `ReadNumberOfSet` (per.go:185-188) is the same read. |
| Per.ReadFixedUnit | protocol/t125/per/per.go:173-183 | The reader behind `ReadEnumerates`, `ReadSelection` and `ReadPadding`. It fails with a short read exactly on empty input, and otherwise returns the first byte and the rest. |
| Per.WriteObjectIdentifier | protocol/t125/per/per.go:82-89 | Six bytes: the length 5, then a byte that is always 0, then elements 2 to 5 unchanged. |
| Bits.PackedOidIsZero | protocol/t125/per/per.go:84 | `(oid0 << 4) & (oid1 & 0x0f)` on bytes is 0 for every pair of elements. |
| Per.MatchObjectIdentifier | protocol/t125/per/per.go:207-228 | True exactly when the length is 5 and every element of `oid` equals the one unpacked from the next five bytes. Those elements are the high and low nibble of the first byte, then the other four bytes. A wrong length consumes only the length field. Otherwise the five bytes are consumed too. |
| PerProperties.OidElementsMasked | protocol/t125/per/per.go:216 | The second element compared is Go's `t12 & 0x0f` of the first byte read. |
| PerProperties.MatchAfterLengthFive | protocol/t125/per/per.go:213-226 | After the length 5, the comparison is against the elements unpacked from exactly the next five bytes, and the input after them is left unread. |
| PerProperties.ObjectIdentifierMatchesIff | protocol/t125/per/per.go:82-89 | A six-element identifier matches its own encoding exactly when its first two elements are 0. Either way the six bytes are consumed. |
| PerProperties.ObjectIdentifierWrongLength | protocol/t125/per/per.go:208-211 | A length other than 5 gives false and consumes only the length byte. |
| Per.DigitValue | protocol/t125/per/per.go:112-113 | On a digit character, Go's `(c - 0x30) % 10` is the digit's value. |
| Per.PackDigits | protocol/t125/per/per.go:106-115 | Half as many bytes as digits, rounded up. Byte i is 16 times digit 2i plus digit 2i+1, and a missing last digit counts as 0. |
| Bits.JoinNibbles | protocol/t125/per/per.go:114 | `(c1 << 4) \| c2` with c2 below 16 is `16 * c1 + c2`. |
| PerProperties.PackDigitsJoined | protocol/t125/per/per.go:106-115 | Each packed byte equals Go's `(c1 << 4) \| c2` of its two digits. |
| Per.UnpackDigits | protocol/t125/per/per.go:131-137 | Two characters per byte: '0' plus the high nibble, then '0' plus the low nibble. |
| Bits.SplitNibbles | protocol/t125/per/per.go:133-134 | On a byte, `(b >> 4) & 0x0f` is the quotient by 16 and `b & 0x0f` is the remainder. |
| PerProperties.UnpackDigitsMasked | protocol/t125/per/per.go:131-137 | Each byte unpacks to '0' plus Go's `(b >> 4) & 0x0f`, then '0' plus `b & 0x0f`. |
| Per.PackThenUnpack | protocol/t125/per/per.go:106-137 | Unpacking packed digits gives the digits back, followed by a '0' when their number was odd. |
| Per.PaddedLowNibble | protocol/t125/per/per.go:108-113 | Packing an odd number of digits leaves the low nibble of the last byte 0. |
| Per.WriteNumericString | protocol/t125/per/per.go:99-118 | The length field `DeltaLength(\|s\|, minValue)`, then half as many bytes as digits (rounded up). Their nibbles spell s, and an odd-length s ends in a 0 nibble. |
| Per.ReadNumericString | protocol/t125/per/per.go:120-139 | Reads a length m and then minValue + m BYTES, each turned into two characters. Too few bytes give "" and use up the input. |
| Per.WriteOctetStream | protocol/t125/per/per.go:157-166 | Exactly the length field `WriteLength(DeltaLength(\|s\|, minValue))` and then all of s. When the field is at most 0x7FFF, it reads back as itself with exactly s behind it. |
| Per.ReadOctetStream | protocol/t125/per/per.go:245-256 | Fails with a short read exactly when fewer than m + minValue bytes follow the length m. Otherwise those bytes are consumed and returned without their first minValue bytes. |
| PerProperties.OctetStreamRoundTrip | protocol/t125/per/per.go:245-256 | For 0 <= minValue <= \|s\| and \|s\| - minValue <= 0x7FFF, an octet string written with minValue reads back as s without its first minValue bytes, and the following input is untouched. |
| PerProperties.OctetStreamTruncated | protocol/t125/per/per.go:250-254 | For 0 <= minValue <= \|s\| and \|s\| - minValue <= 0x7FFF, an octet string cut anywhere between its length field and its last byte is a short-read error, not a shorter string. |
| Per.MatchBytes | protocol/t125/per/per.go:235-240 | True exactly when every expected byte is read in order, and then those bytes are consumed. On false, the input is consumed up to and including the first differing byte. |
| Per.MatchOctetStream | protocol/t125/per/per.go:229-243 | True exactly when the decoded length plus minValue equals the expected length and the expected bytes follow. A length mismatch consumes only the length field. A match consumes the expected bytes too. Any other false result consumes up to and including the first differing byte. |
| PerProperties.OctetStreamMatchesItself | protocol/t125/per/per.go:229-243 | For 0 <= minValue <= \|s\| and \|s\| - minValue <= 0x7FFF, an octet string written with minValue matches itself under the same minValue and is consumed exactly. |
| PerProperties.OctetStreamBelowMinimumRejected | protocol/t125/per/per.go:157-166 | An octet string shorter than minValue (at most 0x7FFF) does not match its own encoding, because its length field falls back to minValue. |
| Per.ReadExcept | protocol/t125/per/per.go:258-266 | Succeeds exactly when the first byte is the expected one, and then consumes it. Empty input is the "read error" failure. A different byte is the mismatch failure, naming both bytes. |
| PerProperties.ExceptAfterChoice | protocol/t125/per/per.go:258-266 | `ReadExcept` after a written choice byte succeeds exactly when the bytes are equal, and otherwise reports both. |
| PerFindings.NumericStringNotRecovered | protocol/t125/per/per.go:120-139 | No non-empty digit string written by `WriteNumericString` reads back as itself with `ReadNumericString`, for any minValue >= 0 whose length field is at most 0x7FFF. |
| PerFindings.NumericString1234 | protocol/t125/per/per.go:125-129 | "1234" with minValue 0 reads back as "" when at most one further byte follows. |
| PerFindings.ReadNumericStringCorrected | protocol/t125/per/per.go:120-139 | The reader with the byte count fixed: half as many bytes as digits, rounded up, yielding exactly minValue + m characters. |
| PerFindings.NumericStringRoundTrip | protocol/t125/per/per.go:99-118 | With the corrected reader, every digit string s with 0 <= minValue <= \|s\| and \|s\| - minValue <= 0x7FFF reads back as itself. |
| PerFindings.ObjectIdentifierNotRecovered | protocol/t125/per/per.go:84 | [1, 2, 3, 4, 5, 6] is written as [5, 0, 3, 4, 5, 6] and does not match itself. |
| PerFindings.WriteObjectIdentifierCorrected | protocol/t125/per/per.go:82-89 | The writer with `\|` in place of `&`: the second byte holds the low nibbles of elements 0 and 1, high then low. |
| PerFindings.ObjectIdentifierRoundTrip | protocol/t125/per/per.go:207-228 | With the corrected writer, an identifier matches its own encoding exactly when its first two elements are below 16. |

## Left out

- The `core` package (`ReadUInt8`, `ReadUint16BE`, `ReadUInt32BE`, `ReadByte`, `ReadBytes` and the matching writers) is not part of this model. It is assumed to work like `io.ReadFull`: too few bytes give 0 and an error, and use up the input.
- `glog.Trace` in `ReadInteger` is a logging side effect only. It is modelled as doing nothing.
- Errors returned by the `io.Writer` and `io.Reader` themselves are not modelled. Only running out of input is.
- Panic messages and stack traces of `ReadExcept` are reduced to two error values, `ExpectUnreadable` and `ExpectMismatch`.
- Concurrency is not modelled. The functions share no state.
- Per.WriteLength: requires 0 <= value <= 0xFFFF. The `uint16`/`uint8` truncation of larger or negative arguments is not modelled, and every caller passes a value in that range.
- Per.WriteInteger: requires 0 <= n <= 0xFFFFFFFF. A negative n would take the one-byte branch and wrap in `uint8`, which is not modelled.
- Per.WriteNumberOfSet: requires 0 <= n <= 0xFF. The `uint8` truncation is not modelled.
- Per.WriteNumericString: requires a string of decimal digits. For other characters the Go code packs `(c - 0x30) % 10`, with Go's truncating remainder and no nibble mask, and that case is not modelled.
- Per.WriteObjectIdentifier: requires at least six elements. The Go code panics on fewer.
- Per.MatchObjectIdentifier: requires at most six elements, which is stricter than the Go code. The Go code panics only when `oid` is longer than six elements, the length read is 5, and the first six elements all match. Only then does its comparison loop index the six-element buffer out of range. With another length, or a mismatch among the first six, it returns false. Every caller passes a six-element identifier.
- Per.ReadNumericString: requires minValue + m >= 0. The Go code panics allocating a buffer of negative size.
- Per.ReadOctetStream: requires minValue >= 0. The Go code panics slicing with a negative index.
- Per.LengthRoundTrip: stated only up to 0x7FFF, because above that the flag bit overwrites the value (see PerProperties.LengthKeepsFifteenBits).
- Per.WriteLength, Per.ReadLength, Per.PackDigits, Per.UnpackDigits, Per.MatchObjectIdentifier: the bodies use arithmetic in place of Go's shifts and masks. The `Bits` lemmas listed above prove the two equal on the values these functions handle.
- `MacthOctetStream` keeps its behaviour but is spelled `MatchOctetStream` here.
- `ReadLength`'s error result is always nil in the Go code, so `ReadLength` returns no error. The branches in `ReadNumericString` and `ReadOctetStream` that test that error can never be taken and are omitted.

## Findings

| source | as written | input that shows it | evidently intended | confidence | as-written member | corrected member |
|---|---|---|---|---|---|---|
| protocol/t125/per/per.go:125-126 | `ReadNumericString` reads minValue + m BYTES and makes two characters from each. The writer counts DIGITS in that field and stores two per byte. | "1234" with minValue 0 is written as [4, 0x12, 0x34]. The reader asks for 4 bytes after the count, finds 2, and returns "". With enough bytes following, it returns 8 characters. | Read half as many bytes as digits, rounded up, and keep minValue + m characters | high; not executed | PerFindings.NumericStringNotRecovered | PerFindings.ReadNumericStringCorrected |
| protocol/t125/per/per.go:84 | `(oid[0]<<4)&(oid[1]&0x0f)` ANDs a value with only high bits set with one with only low bits set, so the byte is always 0 | [1, 2, 3, 4, 5, 6] is written as [5, 0, 3, 4, 5, 6] and does not match itself | `(oid[0]<<4)\|(oid[1]&0x0f)`, the nibble packing that `MatchObjectIdentifier` undoes. An identifier whose first two elements are 0 is unaffected. | medium; not executed | PerFindings.ObjectIdentifierNotRecovered | PerFindings.WriteObjectIdentifierCorrected |
