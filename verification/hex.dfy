/** Byte-to-hex encoding: the 256-entry lookup table of two-character
    lowercase renderings and the conversion of a byte sequence through it. */
module Hex {
  import opened Js

  type byte = b: int | 0 <= b < 256

  /** The zero-padded, two-character, lowercase rendering of a byte: the
      reference every table entry is checked against. */
  function ByteHex(b: byte): (r: string)
    ensures |r| == 2
  {
    [LowerDigit(b / 16), LowerDigit(b % 16)]
  }

  /** A byte's rendering uses lowercase hex digits only. */
  lemma ByteHexLower(b: byte)
    ensures IsLowerHex(ByteHex(b)) && AllHexDigits(ByteHex(b))
  {
  }

  /** A byte's rendering reads back as that byte. */
  lemma ByteHexValue(b: byte)
    ensures HexValue(ByteHex(b)) == b
  {
    DigitValueOfLower(b / 16);
    DigitValueOfLower(b % 16);
    HexValueOfPair(ByteHex(b));
  }

  lemma HexValueOfPair(s: string)
    requires |s| == 2
    ensures HexValue(s) == DigitValue(s[0]) * 16 + DigitValue(s[1])
  {
    assert s[..1][..0] == [];
    assert HexValue(s[..1]) == DigitValue(s[0]);
  }

  /** Every two-character lowercase hex string is the rendering of its value. */
  lemma ByteHexOfValue(s: string)
    requires |s| == 2 && IsLowerHex(s)
    ensures HexValue(s) < 256 && ByteHex(HexValue(s)) == s
  {
    HexValueOfPair(s);
    LowerDigitOfValue(s[0]);
    LowerDigitOfValue(s[1]);
    var v := HexValue(s);
    assert v / 16 == DigitValue(s[0]) && v % 16 == DigitValue(s[1]);
  }

  /** The table entry for index i as the table is filled: the radix-16
      digits of i + 256 without their leading '1'. */
  function TableEntry(i: byte): (r: string)
    ensures r == ByteHex(i)
  {
    TableEntryIsByteHex(i);
    ToBase16(i + 256)[1..]
  }

  lemma TableEntryIsByteHex(i: byte)
    ensures ToBase16(i + 256)[1..] == ByteHex(i)
  {
    var hi := (i + 256) / 16;
    assert 16 <= hi < 32;
    assert ToBase16(hi) == ToBase16(1) + [LowerDigit(hi % 16)];
    assert hi % 16 == i / 16 && (i + 256) % 16 == i % 16;
  }

  lemma TableEnds()
    ensures TableEntry(0) == "00" && TableEntry(255) == "ff"
  {
    TableEntryIsByteHex(0);
    TableEntryIsByteHex(255);
  }

  ghost predicate IsHexTable(table: array<string>)
    reads table
  {
    table.Length == 256 && forall i :: 0 <= i < 256 ==> table[i] == ByteHex(i)
  }

  /** Fills the table from index 255 down to 0. */
  method BuildTable() returns (table: array<string>)
    ensures fresh(table) && IsHexTable(table)
  {
    table := new string[256];
    var idx := 256;
    while idx != 0
      invariant 0 <= idx <= 256
      invariant forall i :: idx <= i < 256 ==> table[i] == ByteHex(i)
    {
      idx := idx - 1;
      table[idx] := ToBase16(idx + 256)[1..];
      TableEntryIsByteHex(idx);
    }
  }

  /** The renderings of the bytes, concatenated in order. */
  function HexOf(bytes: seq<byte>): (r: string)
    ensures |r| == 2 * |bytes|
  {
    if bytes == [] then "" else HexOf(bytes[..|bytes| - 1]) + ByteHex(bytes[|bytes| - 1])
  }

  /** The encoding uses lowercase hex digits only. */
  lemma HexOfLower(bytes: seq<byte>)
    ensures IsLowerHex(HexOf(bytes)) && AllHexDigits(HexOf(bytes))
  {
    forall i | 0 <= i < |HexOf(bytes)|
      ensures IsLowerHexDigit(HexOf(bytes)[i])
    {
      HexOfAt(bytes, i / 2);
      ByteHexLower(bytes[i / 2]);
      assert HexOf(bytes)[i] == ByteHex(bytes[i / 2])[i % 2];
    }
  }

  /** Characters 2k and 2k+1 of the encoding render byte k. */
  lemma {:induction false} HexOfAt(bytes: seq<byte>, k: nat)
    requires k < |bytes|
    ensures HexOf(bytes)[2 * k..2 * k + 2] == ByteHex(bytes[k])
  {
    var init := bytes[..|bytes| - 1];
    if k < |bytes| - 1 {
      HexOfAt(init, k);
      assert init[k] == bytes[k];
    }
  }

  lemma {:induction false} HexOfAppend(a: seq<byte>, b: seq<byte>)
    ensures HexOf(a + b) == HexOf(a) + HexOf(b)
  {
    if b != [] {
      assert (a + b)[..|a + b| - 1] == a + b[..|b| - 1];
      HexOfAppend(a, b[..|b| - 1]);
    } else {
      assert a + b == a;
    }
  }

  /** Decoding of a hex string, two digits per byte (an odd trailing digit
      is dropped): the inverse the encoding is checked against. */
  function Unhex(s: string): (bytes: seq<byte>)
    ensures |bytes| == |s| / 2
  {
    if |s| < 2 then []
    else Unhex(s[..|s| - 2]) + [DigitValue(s[|s| - 2]) * 16 + DigitValue(s[|s| - 1])]
  }

  lemma {:induction false} UnhexHexOf(bytes: seq<byte>)
    ensures Unhex(HexOf(bytes)) == bytes
    decreases |bytes|
  {
    if bytes != [] {
      var init, b := bytes[..|bytes| - 1], bytes[|bytes| - 1];
      assert bytes == init + [b];
      HexOfSnoc(init, b);
      ByteHexDigits(b);
      UnhexAppendPair(HexOf(init), ByteHex(b), b);
      UnhexHexOf(init);
    } else {
      assert HexOf(bytes) == "";
    }
  }

  /** Decoding two more digits whose value is b appends b. */
  lemma UnhexAppendPair(h: string, pair: string, b: byte)
    requires |pair| == 2
    requires DigitValue(pair[0]) * 16 + DigitValue(pair[1]) == b
    ensures Unhex(h + pair) == Unhex(h) + [b]
  {
    UnhexSnoc(h, pair);
  }

  lemma HexOfSnoc(init: seq<byte>, b: byte)
    ensures HexOf(init + [b]) == HexOf(init) + ByteHex(b)
  {
    assert (init + [b])[..|init|] == init;
  }

  /** Decoding one more pair of digits appends one byte. */
  lemma UnhexSnoc(s: string, pair: string)
    requires |pair| == 2
    ensures Unhex(s + pair) == Unhex(s) + [DigitValue(pair[0]) * 16 + DigitValue(pair[1])]
  {
    var t := s + pair;
    assert t[..|t| - 2] == s;
    assert t[|t| - 2] == pair[0] && t[|t| - 1] == pair[1];
  }

  /** The digits of a byte's rendering give back the byte. */
  lemma ByteHexDigits(b: byte)
    ensures DigitValue(ByteHex(b)[0]) * 16 + DigitValue(ByteHex(b)[1]) == b
  {
    DigitValueOfLower(b / 16);
    DigitValueOfLower(b % 16);
  }

  /** Different byte sequences have different encodings. */
  lemma HexOfInjective(a: seq<byte>, b: seq<byte>)
    requires HexOf(a) == HexOf(b)
    ensures a == b
  {
    UnhexHexOf(a);
    UnhexHexOf(b);
  }

  /** Appends the table entry of each byte, in order. */
  method ToHex(table: array<string>, bytes: seq<byte>) returns (output: string)
    requires IsHexTable(table)
    ensures output == HexOf(bytes)
  {
    var i := 0;
    output := "";
    while i < |bytes|
      invariant 0 <= i <= |bytes|
      invariant output == HexOf(bytes[..i])
    {
      output := output + table[bytes[i]];
      assert bytes[..i + 1][..i] == bytes[..i];
      i := i + 1;
    }
    assert bytes[..i] == bytes;
  }
}
