# tctx: the traceparent codec, modelled in Dafny

tctx creates, serialises and parses the `traceparent` identifier of the W3C
Trace Context Recommendation (section 3.2, "Traceparent Header"). An
identifier has four fields: a 2-character `version`, a 32-character
`trace_id`, a 16-character `parent_id` and a numeric `flags`, whose bit 0 is
the sampled bit (section 3.2.2.5.1). On the wire the fields are joined by
dashes, for 55 characters in all. All of the code lives in `src/index.ts`.

The model has three modules, one file each:

- `js.dfy` (`Js`) holds the JavaScript built-ins the codec leans on, written
  out for the values that reach them:
  - a string that may be `undefined`;
  - a number that is an integer or NaN;
  - template-literal `ToString`;
  - `Number.prototype.toString(16)` and `String.prototype.padStart`;
  - `String.prototype.split` on one character;
  - `parseInt(_, 16)`, covering white space, sign, `0x` prefix, the longest
    digit prefix and NaN;
  - the int32 `&` operator.
- `hex.dfy` (`Hex`) is the byte-to-hex encoding. `BuildTable` fills the
  256-entry table with the source's count-down loop over an `array`. `ToHex`
  appends table entries in a loop. `BuildTable` is proved against `ByteHex`,
  the two-digit rendering of one byte. `ToHex` is proved against `HexOf`,
  the concatenation of those renderings, and `Unhex` is its inverse.
- `tctx.dfy` (`Tctx`) holds the identifier. The object literal with its
  `child` and `toString` closures becomes a `Traceparent` datatype, with
  `Child` and `ToString` as functions on it. `Make`, `Parse` and `IsSampled`
  follow the exported functions.

`random` from `@lukeed/csprng` is not part of this model. `Make` takes the
24 bytes it would draw and `Child` takes the 8.

The parse is kept exactly as lenient as the code. It rejects only strings
over 55 characters. Otherwise:
- a missing segment is `undefined`, written `Undefined` here;
- the flags are `NaN` when no hex digit follows the leading white space,
  the optional sign and the optional `0x` (so "0xg" gives `NaN`, while
  "+1" and " 1" give 1);
- surplus segments are ignored;
- nothing is checked for length or character set.

`flags` is meant to be a byte (0..255), but the code does not enforce
this. `parse` can yield a non-negative integer or NaN, and the model
follows the code. The result is never negative because the split leaves no
dash in the flags segment (`Tctx.ParseFlagsNonNegative`).

## Model

| member | source | states |
|---|---|---|
| `Hex.BuildTable` | src/index.ts:3-5 | The count-down loop leaves entry i equal to the two-digit, zero-padded, lowercase rendering of i, for every i in 0..255. |
| `Hex.TableEntry` | src/index.ts:5 | `(i + 256).toString(16).substring(1)` is the two-digit, zero-padded, lowercase rendering `ByteHex(i)`; `Hex.ByteHexValue` and `Hex.ByteHexOfValue` give that rendering its meaning. |
| `Hex.TableEntryIsByteHex` | src/index.ts:5 | `(i + 256).toString(16).substring(1)` is exactly the two-digit, zero-padded, lowercase rendering of i. |
| `Hex.TableEnds` | src/index.ts:5 | Entry 0 is "00" and entry 255 is "ff". |
| `Hex.ByteHexLower` | src/index.ts:5 | Every table entry is made of the lowercase hex digits only. |
| `Hex.ByteHexValue` | src/index.ts:5 | Every table entry, read as a hex number, is its own index. |
| `Hex.ByteHexOfValue` | src/index.ts:5 | Every two-character lowercase hex string is the table entry of its value, so the table hits every such string. |
| `Hex.ToHex` | src/index.ts:8-14 | The append loop returns the concatenation, in order, of the table entries of the bytes. |
| `Hex.HexOf` | src/index.ts:8-14 | The encoding has two characters per byte. |
| `Hex.HexOfLower` | src/index.ts:8-14 | The encoding is made of `[0-9a-f]` only. |
| `Hex.HexOfAt` | src/index.ts:8-14 | Characters 2k and 2k+1 of the encoding are the table entry of byte k. |
| `Hex.HexOfAppend` | src/index.ts:8-14 | Encoding a concatenation concatenates the encodings. |
| `Hex.UnhexHexOf` | src/index.ts:8-14 | Decoding two digits per byte gives back the encoded bytes. |
| `Hex.HexOfInjective` | src/index.ts:8-14 | Different byte sequences have different encodings. |
| `Tctx.Make` | src/index.ts:84-93 | Version is "00", trace id is the encoding of bytes 0..16, parent id the encoding of bytes 16..24, flags are 1 when sampled and 0 otherwise, and the result has the 2/32/16-character lowercase shape with flags in 0..255. |
| `Tctx.MakeDecodes` | src/index.ts:84-93 | The trace id decodes to the first 16 random bytes and the parent id to the last 8. |
| `Tctx.MakeCanonical` | src/index.ts:84-93 | The wire form of a made identifier is 55 characters, with dashes at 2, 35 and 52 and lowercase hex elsewhere. |
| `Tctx.Child` | src/index.ts:56-63 | Version, trace id and flags are the parent's, the parent id is the 16-character encoding of the new bytes, and the well-formed shape is kept. |
| `Tctx.ChildDecodes` | src/index.ts:56-63 | The child's parent id is lowercase hex and decodes to the new bytes. |
| `Tctx.FlagsText` | src/index.ts:66-68 | The padded flags text is at least two characters long. Its contents are given by `Tctx.FlagsTextOfByte` (bytes), `Tctx.FlagsTextWide` with `Js.ToBase16NoLeadingZero` (16 and up), `Tctx.FlagsTextLowerHex`, `Tctx.ParseFlagsText` and `Tctx.ToStringNaNFlags`. |
| `Tctx.FlagsTextWide` | src/index.ts:66-68 | From 16 on, `padStart(2, '0')` adds nothing: the flags text is the plain `toString(16)` rendering, so flags 256 are written "100". |
| `Tctx.ToString` | src/index.ts:65-69 | For flags in 0..255 the wire form is version, trace id, parent id and the two-digit lowercase flags byte, joined by dashes. |
| `Tctx.FlagsTextOfByte` | src/index.ts:66-68 | `flags.toString(16).padStart(2, '0')` of a byte is its two-digit, zero-padded, lowercase rendering. |
| `Tctx.FlagsTextLowerHex` | src/index.ts:66-68 | Any non-negative flags value is written in lowercase hex digits only, however wide. |
| `Tctx.ToStringNaNFlags` | src/index.ts:66-68 | NaN flags are written as "NaN". |
| `Tctx.ToStringCanonical` | src/index.ts:65-69 | Every well-formed identifier serialises to the 55-character canonical form. |
| `Tctx.Parse` | src/index.ts:106-110 | Null exactly when the input is longer than 55 characters; otherwise an identifier whose version is always present. |
| `Tctx.ParseFields` | src/index.ts:106-110 | With at least three dashes, the first four dash-free runs are version, trace id, parent id and the flags text read by parseInt; what follows a fourth dash is ignored. |
| `Tctx.ParseMissingSegments` | src/index.ts:106-110 | The trace id is present iff the input has a dash, the parent id iff it has two, and with fewer than three the flags are NaN. |
| `Tctx.ParseFlagsNonNegative` | src/index.ts:106-110 | Parsed flags are NaN or a non-negative integer, never negative, because the flags segment holds no dash. |
| `Tctx.ParseOneField` | src/index.ts:106-110 | A dash-free input is the version alone; trace id and parent id are `undefined` and the flags NaN. |
| `Tctx.ParseTwoFields` | src/index.ts:106-110 | With one dash, the two runs are version and trace id; the parent id is `undefined` and the flags NaN. |
| `Tctx.ParseThreeFields` | src/index.ts:106-110 | With two dashes, the three runs are version, trace id and parent id; the flags are NaN. |
| `Tctx.ParseFlagsText` | src/index.ts:109 | parseInt(_, 16) reads any rendered non-negative flags value back to itself. |
| `Tctx.ParseToString` | src/index.ts:106-110 | An identifier with present dash-free fields and non-negative integer flags, whose wire form is at most 55 characters, survives serialising and parsing. |
| `Tctx.WellFormedRoundTrip` | src/index.ts:106-110 | Every well-formed identifier survives serialising and parsing. |
| `Tctx.MakeRoundTrip` | src/index.ts:84-93 | Parsing the wire form of a made identifier gives back that identifier. |
| `Tctx.ChildRoundTrip` | src/index.ts:56-63 | Parsing the wire form of a child of a well-formed identifier gives back the child. |
| `Tctx.CanonicalParse` | src/index.ts:106-110 | A canonical string parses to its four runs, with the last read as a hex number. |
| `Tctx.CanonicalRoundTrip` | src/index.ts:106-110 | A canonical string parses to a well-formed identifier that serialises back to the same string. |
| `Tctx.IsSampled` | src/index.ts:113 | `!!(flags & 1)` holds exactly for odd integer flags; NaN flags are not sampled. |
| `Tctx.IsSampledMake` | src/index.ts:91 | `make(true)` is sampled and `make(false)` is not. |
| `Tctx.IsSampledChild` | src/index.ts:56-63 | A child is sampled exactly when its parent is. |
| `Tctx.ExampleTooLong` | src/index.ts:107 | A 56-character string of `a` is rejected. |
| `Js.ToStr` | src/index.ts:66 | Template-literal conversion leaves a string as it is and writes `undefined` as "undefined". |
| `Js.NumberToString16` | src/index.ts:66-67 | `toString(16)` gives "NaN" for NaN, and otherwise a non-empty text that starts with a minus sign exactly for negative integers. Its digits are given by `Js.ToBase16Lower`, `Js.HexValueToBase16` and `Js.ToBase16NoLeadingZero`. |
| `Js.ToBase16` | src/index.ts:67 | `toString(16)` of a non-negative integer (also used for the table at line 5) is non-empty. Its digits are given by `Js.ToBase16Lower`, `Js.HexValueToBase16` and `Js.ToBase16NoLeadingZero`. |
| `Js.ToBase16NoLeadingZero` | src/index.ts:67 | `toString(16)` writes no leading zero: only 0 itself is written starting with '0'. |
| `Js.PadStart` | src/index.ts:68 | The result has the wider of the two lengths, ends with the input and is filled on the left with the fill character. |
| `Js.HexValueToBase16` | src/index.ts:67 | `toString(16)` of a non-negative integer reads back as that integer. |
| `Js.ToBase16Lower` | src/index.ts:67 | `toString(16)` writes lowercase hex digits only. |
| `Js.Split` | src/index.ts:108 | `split` on one character gives at least one segment. What the segments are is given by `Js.SplitJoin`, `Js.JoinSplit`, `Js.SplitSepFree`, `Js.SplitCount` and `Js.SplitFour`. |
| `Js.SplitJoin` | src/index.ts:108 | Splitting a join of separator-free parts gives back the parts. |
| `Js.JoinSplit` | src/index.ts:108 | Joining the segments of a split with the separator gives back the input. |
| `Js.SplitSepFree` | src/index.ts:108 | No segment contains the separator. |
| `Js.SplitCount` | src/index.ts:108 | There is one more segment than there are separators. |
| `Js.SplitFour` | src/index.ts:108 | The first four segments of four separator-free runs joined by the separator are those runs, whatever follows a further separator. |
| `Js.Item` | src/index.ts:109 | An array read is a string below the length and `undefined` at or past it. |
| `Js.TrimStartWhiteSpace` | src/index.ts:109 | parseInt's trim removes white space only, and leaves no leading white space. |
| `Js.HexDigitPrefix` | src/index.ts:109 | parseInt reads the longest prefix of hex digits. |
| `Js.ParseInt16` | src/index.ts:109 | parseInt(_, 16) of a text without a minus sign is NaN or non-negative. Its value is given by `Js.ParseInt16OfDigits`, `Js.ParseInt16SkipsWhiteSpace`, `Js.ParseInt16NoDigits`, `Js.ParseInt16Negative` and `Js.ParseInt16Undefined`. |
| `Js.ParseInt16OfDigits` | src/index.ts:109 | parseInt(s, 16) of a non-empty string of hex digits is its value. |
| `Js.ParseInt16Negative` | src/index.ts:109 | A leading minus sign negates the value. `parse` never takes this path, because its flags segment holds no dash. |
| `Js.ParseInt16SkipsWhiteSpace` | src/index.ts:109 | Leading white space does not change the result. |
| `Js.ParseInt16NoDigits` | src/index.ts:109 | An empty string, or one starting with neither white space, a sign nor a digit, gives NaN. |
| `Js.ParseInt16Undefined` | src/index.ts:109 | parseInt of `undefined`, a missing segment, is NaN. |
| `Js.ToUint32` | src/index.ts:113 | An operand of `&` becomes an unsigned 32-bit integer. ECMAScript applies ToInt32 to the left operand and ToUint32 to the right; both give the same 32 bits, so the model applies ToUint32 to both. |
| `Js.BitAnd` | src/index.ts:113 | `&` gives a signed 32-bit integer. |
| `Js.BitAndOne` | src/index.ts:113 | `x & 1` is 1 for odd integers, and 0 for even integers and for NaN. |

## Left out

- The random source `random` from `@lukeed/csprng` is not part of this
  model. Its output is a parameter of `Make` (24 bytes) and `Child`
  (8 bytes). As a consequence:
  - the model says nothing about the randomness of ids or the uniqueness of
    a child's parent id;
  - the model says nothing about the error the library throws when no
    random source is available.
- JavaScript numbers are IEEE doubles; here they are unbounded integers or
  NaN, for these reasons:
  - parseInt results at or above 2^53 are not rounded. Such a value is even
    once rounded in JavaScript, so `is_sampled` is false there, while
    `Tctx.IsSampled` follows the exact parity of the unrounded value;
  - -0 (from parseInt of "-0") is not told apart from 0. Both print as "0"
    and both give 0 under `& 1`, so nothing observable changes. `parse`
    never produces -0 anyway, because its flags segment holds no dash.
- JavaScript strings count UTF-16 code units. Here a `char` is a Unicode
  scalar value, so a string with characters outside the Basic Multilingual
  Plane has a different length in the 55-character check.
- The per-object closures and `this` binding of the object literal are not
  modelled. `Child` and `ToString` are functions of the record, which is
  equivalent because the fields are never reassigned.
- When the table is built (once, at module load) is not modelled; only its
  contents are. The left-over global counter, which ends at -1, is not
  modelled either.
- `Js.ToBase16` states only that its result is non-empty. Its meaning is
  given by `Js.HexValueToBase16`, `Js.ToBase16Lower` and
  `Js.ToBase16NoLeadingZero` (value, digits, no leading zero).
- `Js.Split` states only that there is at least one segment. The segments
  are given by `Js.SplitJoin`, `Js.JoinSplit`, `Js.SplitSepFree`,
  `Js.SplitCount` and `Js.SplitFour`.
- `Js.ParseInt16` states only the sign of its result. Its value is given by
  the `Js.ParseInt16…` lemmas.
- `Js.NumberToString16` states only the NaN text and where a minus sign
  appears. Its digits are given by `Js.ToBase16Lower`,
  `Js.HexValueToBase16` and `Js.ToBase16NoLeadingZero`.
- `Tctx.FlagsText` states only its minimum length. Its contents are given by
  `Tctx.FlagsTextOfByte` (bytes), `Tctx.FlagsTextWide` with
  `Js.ToBase16NoLeadingZero` (16 and up), `Tctx.FlagsTextLowerHex` and
  `Tctx.ToStringNaNFlags`.
- `Tctx.Parse` states in its own contract only the null condition and that
  the version is present. The field contents are given by
  `Tctx.ParseFields` (three or more dashes), `Tctx.ParseThreeFields`,
  `Tctx.ParseTwoFields` and `Tctx.ParseOneField` (two, one and no dash),
  `Tctx.ParseMissingSegments` and `Tctx.ParseFlagsNonNegative`.
