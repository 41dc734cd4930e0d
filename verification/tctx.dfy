/** The traceparent identifier of the W3C Trace Context Recommendation
    (section 3.2, "Traceparent Header"): construction from random bytes,
    derivation of a child, serialisation to the dash-joined wire form, the
    lenient parse, and the sampled bit (section 3.2.2.5.1). The random bytes
    a real caller draws from a CSPRNG are parameters here. */
module Tctx {
  import opened Js
  import opened Hex

  const TRACE_ID_SIZE := 16
  const PARENT_ID_SIZE := 8
  const W3C_TRACEPARENT_VERSION := "00"
  const SAMPLED_FLAG := 1

  /** The longest string parse looks at: 2 + 1 + 32 + 1 + 16 + 1 + 2. */
  const MAX_LENGTH := 55

  /** The four fields. A parsed identifier can lack segments (`undefined`)
      and carry NaN flags; the ones this codec creates never do. */
  datatype Traceparent = Traceparent(version: Value, traceId: Value, parentId: Value, flags: Number)

  /** The shape of every identifier the codec creates: two, thirty-two and
      sixteen lowercase hex characters and a flags byte. */
  predicate WellFormed(p: Traceparent) {
    && p.version.Str? && |p.version.s| == 2 && IsLowerHex(p.version.s)
    && p.traceId.Str? && |p.traceId.s| == 2 * TRACE_ID_SIZE && IsLowerHex(p.traceId.s)
    && p.parentId.Str? && |p.parentId.s| == 2 * PARENT_ID_SIZE && IsLowerHex(p.parentId.s)
    && p.flags.Int? && 0 <= p.flags.i < 256
  }

  /** The canonical wire form: 2, 32, 16 and 2 lowercase hex characters
      joined by dashes. */
  predicate IsCanonical(s: string) {
    && |s| == MAX_LENGTH
    && s[2] == '-' && s[35] == '-' && s[52] == '-'
    && IsLowerHex(s[..2]) && IsLowerHex(s[3..35]) && IsLowerHex(s[36..52]) && IsLowerHex(s[53..])
  }

  /** A new root identifier from 24 random bytes: the first 16 encode the
      trace id, the next 8 the parent id. */
  function Make(random: seq<byte>, sampled: bool := true): (p: Traceparent)
    requires |random| == TRACE_ID_SIZE + PARENT_ID_SIZE
    ensures WellFormed(p) && p.version == Str(W3C_TRACEPARENT_VERSION)
    ensures p.traceId == Str(HexOf(random[..TRACE_ID_SIZE]))
    ensures p.parentId == Str(HexOf(random[TRACE_ID_SIZE..]))
    ensures p.flags == Int(if sampled then SAMPLED_FLAG else 0)
  {
    var traceBytes := random[..TRACE_ID_SIZE];
    var parentBytes := random[TRACE_ID_SIZE..TRACE_ID_SIZE + PARENT_ID_SIZE];
    assert parentBytes == random[TRACE_ID_SIZE..];
    HexOfLower(traceBytes);
    HexOfLower(parentBytes);
    Traceparent(
      Str(W3C_TRACEPARENT_VERSION),
      Str(HexOf(traceBytes)),
      Str(HexOf(parentBytes)),
      Int(if sampled then SAMPLED_FLAG else 0))
  }

  /** The ids of a new identifier decode back to the random bytes drawn. */
  lemma MakeDecodes(random: seq<byte>, sampled: bool)
    requires |random| == TRACE_ID_SIZE + PARENT_ID_SIZE
    ensures Unhex(Make(random, sampled).traceId.s) == random[..TRACE_ID_SIZE]
    ensures Unhex(Make(random, sampled).parentId.s) == random[TRACE_ID_SIZE..]
  {
    UnhexHexOf(random[..TRACE_ID_SIZE]);
    UnhexHexOf(random[TRACE_ID_SIZE..]);
  }

  /** The next hop of the same trace: version, trace id and flags are kept,
      the parent id encodes 8 fresh random bytes. */
  function Child(p: Traceparent, random: seq<byte>): (c: Traceparent)
    requires |random| == PARENT_ID_SIZE
    ensures c.version == p.version && c.traceId == p.traceId && c.flags == p.flags
    ensures c.parentId == Str(HexOf(random)) && |c.parentId.s| == 2 * PARENT_ID_SIZE
    ensures WellFormed(p) ==> WellFormed(c)
  {
    HexOfLower(random);
    Traceparent(p.version, p.traceId, Str(HexOf(random)), p.flags)
  }

  /** A child's parent id decodes back to the random bytes drawn. */
  lemma ChildDecodes(p: Traceparent, random: seq<byte>)
    requires |random| == PARENT_ID_SIZE
    ensures IsLowerHex(Child(p, random).parentId.s)
    ensures Unhex(Child(p, random).parentId.s) == random
  {
    HexOfLower(random);
    UnhexHexOf(random);
  }

  /** The flags as written on the wire: radix-16 digits left-padded to two. */
  function FlagsText(flags: Number): (r: string)
    ensures 2 <= |r|
  {
    PadStart(NumberToString16(flags), 2, '0')
  }

  /** From 16 on, toString(16) already has two digits and padStart adds
      nothing: the flags text is the plain radix-16 rendering. */
  lemma FlagsTextWide(n: nat)
    requires n >= 16
    ensures FlagsText(Int(n)) == ToBase16(n)
  {
    assert |ToBase16(n)| >= 2;
  }

  /** A flags byte is written as its zero-padded two-digit rendering. */
  lemma FlagsTextOfByte(flags: Number)
    ensures flags.Int? && 0 <= flags.i < 256 ==> FlagsText(flags) == ByteHex(flags.i)
  {
    if flags.Int? && 0 <= flags.i < 16 {
      var n := flags.i;
      assert NumberToString16(flags) == [LowerDigit(n)];
      assert seq(1, _ => '0') == [LowerDigit(n / 16)];
    } else if flags.Int? && 16 <= flags.i < 256 {
      var n := flags.i;
      assert ToBase16(n / 16) == [LowerDigit(n / 16)];
      assert NumberToString16(flags) == [LowerDigit(n / 16), LowerDigit(n % 16)];
    }
  }

  /** The four fields joined by dashes; an absent field is written as
      "undefined" and NaN flags as "NaN", as template literals do. */
  function ToString(p: Traceparent): (r: string)
    ensures p.flags.Int? && 0 <= p.flags.i < 256 ==>
      r == ToStr(p.version) + "-" + ToStr(p.traceId) + "-" + ToStr(p.parentId) + "-" + ByteHex(p.flags.i)
  {
    FlagsTextOfByte(p.flags);
    ToStr(p.version) + "-" + ToStr(p.traceId) + "-" + ToStr(p.parentId) + "-" + FlagsText(p.flags)
  }

  /** NaN flags, as a parse of a header without a fourth segment yields,
      are written as "NaN": padStart leaves three characters alone. */
  lemma ToStringNaNFlags(p: Traceparent)
    requires p.flags == NaN
    ensures ToString(p) == ToStr(p.version) + "-" + ToStr(p.traceId) + "-" + ToStr(p.parentId) + "-NaN"
  {
    assert FlagsText(p.flags) == "NaN";
    assert "-" + "NaN" == "-NaN";
  }

  /** Null for strings longer than the canonical length; otherwise the
      first four dash-separated segments, the last read by parseInt with
      radix 16. Nothing else is checked. */
  function Parse(value: string): (r: Option<Traceparent>)
    ensures r.None? <==> |value| > MAX_LENGTH
    ensures r.Some? ==> r.value.version.Str?
  {
    if |value| > MAX_LENGTH then None
    else
      var segs := Split(value, '-');
      Some(Traceparent(Item(segs, 0), Item(segs, 1), Item(segs, 2), ParseInt16(Item(segs, 3))))
  }

  /** `!!(flags & SAMPLED_FLAG)`: bit 0 of the flags, false for NaN. */
  function IsSampled(id: Traceparent): (b: bool)
    ensures b <==> id.flags.Int? && id.flags.i % 2 == 1
  {
    BitAndOne(id.flags);
    BitAnd(id.flags, Int(SAMPLED_FLAG)) != 0
  }

  /** Every identifier the codec creates serialises to the canonical form. */
  lemma ToStringCanonical(p: Traceparent)
    requires WellFormed(p)
    ensures IsCanonical(ToString(p))
  {
    var f := ByteHex(p.flags.i);
    ByteHexLower(p.flags.i);
    FieldsAt(p.version.s, p.traceId.s, p.parentId.s, f);
    assert ToString(p) == p.version.s + "-" + p.traceId.s + "-" + p.parentId.s + "-" + f;
  }

  /** Where the four fields of the canonical form sit. */
  lemma FieldsAt(v: string, t: string, q: string, f: string)
    requires |v| == 2 && |t| == 32 && |q| == 16 && |f| == 2
    ensures var s := v + "-" + t + "-" + q + "-" + f;
      && |s| == MAX_LENGTH
      && s[..2] == v && s[2] == '-' && s[3..35] == t && s[35] == '-'
      && s[36..52] == q && s[52] == '-' && s[53..] == f
  {
    var r2 := q + "-" + f;
    var r1 := t + "-" + r2;
    var s := v + "-" + r1;
    assert v + "-" + t + "-" + q + "-" + f == s;
    assert s[3..] == r1;
    assert s[3..35] == r1[..32] == t;
    assert r1[33..] == r2;
    assert s[36..52] == r2[..16] == q;
    assert s[53..] == r2[17..] == f;
  }

  lemma MakeCanonical(random: seq<byte>, sampled: bool)
    requires |random| == TRACE_ID_SIZE + PARENT_ID_SIZE
    ensures |ToString(Make(random, sampled))| == MAX_LENGTH
    ensures IsCanonical(ToString(Make(random, sampled)))
  {
    ToStringCanonical(Make(random, sampled));
  }

  /** The lenient parse in terms of the input: when the input holds at least
      three dashes, the first four dash-free runs are the fields, and what
      follows the fourth is ignored. */
  lemma ParseFields(value: string, a: string, b: string, c: string, d: string, rest: string)
    requires |value| <= MAX_LENGTH
    requires value == a + "-" + b + "-" + c + "-" + d + rest
    requires '-' !in a && '-' !in b && '-' !in c && '-' !in d
    requires rest == [] || rest[0] == '-'
    ensures Parse(value) == Some(Traceparent(Str(a), Str(b), Str(c), ParseInt16(Str(d))))
  {
    SplitFour(a, b, c, d, rest, '-');
  }

  /** With fewer than three dashes the missing segments are absent and the
      flags are NaN (parseInt of `undefined`). */
  lemma ParseMissingSegments(value: string)
    requires |value| <= MAX_LENGTH
    ensures Parse(value).Some?
    ensures var p, dashes := Parse(value).value, multiset(value)['-'];
      && p.version.Str?
      && (p.traceId.Str? <==> dashes >= 1)
      && (p.parentId.Str? <==> dashes >= 2)
      && (dashes < 3 ==> p.flags == NaN)
  {
    SplitCount(value, '-');
    ParseInt16Undefined();
  }

  /** A value of at most 55 characters holds no dash after its third, so
      parseInt never sees a minus sign: parsed flags are never negative. */
  lemma ParseFlagsNonNegative(value: string)
    requires |value| <= MAX_LENGTH
    ensures Parse(value).Some?
    ensures Parse(value).value.flags.Int? ==> Parse(value).value.flags.i >= 0
  {
    var segs := Split(value, '-');
    SplitSepFree(value, '-');
    if |segs| > 3 {
      assert '-' !in segs[3];
    } else {
      assert '-' !in "undefined";
    }
  }

  /** A dash-free value is the version alone. */
  lemma ParseOneField(a: string)
    requires '-' !in a && |a| <= MAX_LENGTH
    ensures Parse(a) == Some(Traceparent(Str(a), Undefined, Undefined, NaN))
  {
    SplitNoSep(a, '-');
    ParseInt16Undefined();
  }

  /** With one dash: version and trace id. */
  lemma ParseTwoFields(a: string, b: string)
    requires '-' !in a && '-' !in b && |a + "-" + b| <= MAX_LENGTH
    ensures Parse(a + "-" + b) == Some(Traceparent(Str(a), Str(b), Undefined, NaN))
  {
    var segs := [a, b];
    assert Split(a + "-" + b, '-') == segs by {
      SplitPrefix(a, '-', b);
      SplitNoSep(b, '-');
    }
    assert Item(segs, 3) == Undefined;
    ParseInt16Undefined();
  }

  /** With two dashes: version, trace id and parent id. */
  lemma ParseThreeFields(a: string, b: string, c: string)
    requires '-' !in a && '-' !in b && '-' !in c && |a + "-" + b + "-" + c| <= MAX_LENGTH
    ensures Parse(a + "-" + b + "-" + c) == Some(Traceparent(Str(a), Str(b), Str(c), NaN))
  {
    var segs := [a, b, c];
    assert Split(a + "-" + b + "-" + c, '-') == segs by {
      var bc := b + "-" + c;
      assert a + "-" + b + "-" + c == a + ['-'] + bc;
      SplitPrefix(a, '-', bc);
      SplitPrefix(b, '-', c);
      SplitNoSep(c, '-');
    }
    assert Item(segs, 3) == Undefined;
    ParseInt16Undefined();
  }

  /** A non-negative flags value is written in lowercase hex digits only. */
  lemma FlagsTextLowerHex(n: nat)
    ensures IsLowerHex(FlagsText(Int(n)))
  {
    var digits, f := ToBase16(n), FlagsText(Int(n));
    ToBase16Lower(n);
    var pad := |f| - |digits|;
    forall i | 0 <= i < |f|
      ensures IsLowerHexDigit(f[i])
    {
      if i >= pad {
        assert f[i] == f[pad..][i - pad] == digits[i - pad];
      }
    }
  }

  lemma LowerHexHasNoDash(s: string)
    requires IsLowerHex(s)
    ensures '-' !in s
  {
  }

  /** Reading back a rendered flags value gives that value. */
  lemma ParseFlagsText(n: nat)
    ensures ParseInt16(Str(FlagsText(Int(n)))) == Int(n)
  {
    var digits := ToBase16(n);
    HexValueToBase16(n);
    ToBase16Lower(n);
    if |digits| < 2 {
      HexValueLeadingZero(digits);
      assert FlagsText(Int(n)) == "0" + digits;
      ParseInt16OfDigits("0" + digits);
    } else {
      ParseInt16OfDigits(digits);
    }
  }

  /** Serialising and parsing again gives back every identifier whose
      fields are present and dash-free, whose flags are a non-negative
      integer, and whose wire form is not over the length limit. */
  lemma {:induction false} ParseToString(p: Traceparent)
    requires p.version.Str? && p.traceId.Str? && p.parentId.Str? && p.flags.Int? && p.flags.i >= 0
    requires '-' !in p.version.s && '-' !in p.traceId.s && '-' !in p.parentId.s
    requires |ToString(p)| <= MAX_LENGTH
    ensures Parse(ToString(p)) == Some(p)
  {
    var f := FlagsText(p.flags);
    FlagsTextLowerHex(p.flags.i);
    LowerHexHasNoDash(f);
    ParseFields(ToString(p), p.version.s, p.traceId.s, p.parentId.s, f, []);
    ParseFlagsText(p.flags.i);
  }

  lemma WellFormedRoundTrip(p: Traceparent)
    requires WellFormed(p)
    ensures Parse(ToString(p)) == Some(p)
  {
    ToStringCanonical(p);
    LowerHexHasNoDash(p.version.s);
    LowerHexHasNoDash(p.traceId.s);
    LowerHexHasNoDash(p.parentId.s);
    ParseToString(p);
  }

  /** The identifiers make creates survive a round trip through the wire. */
  lemma MakeRoundTrip(random: seq<byte>, sampled: bool)
    requires |random| == TRACE_ID_SIZE + PARENT_ID_SIZE
    ensures Parse(ToString(Make(random, sampled))) == Some(Make(random, sampled))
  {
    WellFormedRoundTrip(Make(random, sampled));
  }

  /** So do the children of well-formed identifiers. */
  lemma ChildRoundTrip(p: Traceparent, random: seq<byte>)
    requires WellFormed(p) && |random| == PARENT_ID_SIZE
    ensures Parse(ToString(Child(p, random))) == Some(Child(p, random))
  {
    WellFormedRoundTrip(Child(p, random));
  }

  /** Every canonical wire string parses to a well-formed identifier that
      serialises back to the same string. */
  lemma CanonicalRoundTrip(s: string)
    requires IsCanonical(s)
    ensures Parse(s).Some? && WellFormed(Parse(s).value)
    ensures ToString(Parse(s).value) == s
  {
    CanonicalParse(s);
    CanonicalFieldsSerialise(s);
  }

  /** The four runs of a canonical wire string form a well-formed
      identifier that serialises back to that string. */
  lemma CanonicalFieldsSerialise(s: string)
    requires IsCanonical(s)
    ensures var p := Traceparent(Str(s[..2]), Str(s[3..35]), Str(s[36..52]), Int(HexValue(s[53..])));
      WellFormed(p) && ToString(p) == s
  {
    ByteHexOfValue(s[53..]);
    CanonicalParts(s);
  }

  /** The fields a canonical wire string parses to. */
  lemma CanonicalParse(s: string)
    requires IsCanonical(s)
    ensures Parse(s) == Some(Traceparent(Str(s[..2]), Str(s[3..35]), Str(s[36..52]), Int(HexValue(s[53..]))))
  {
    var v, t, q, f := s[..2], s[3..35], s[36..52], s[53..];
    CanonicalParts(s);
    LowerHexHasNoDash(v);
    LowerHexHasNoDash(t);
    LowerHexHasNoDash(q);
    LowerHexHasNoDash(f);
    ParseFields(s, v, t, q, f, []);
    ParseInt16OfDigits(f);
  }

  /** A string with dashes at the canonical positions is the dash-join of
      the four runs between them. */
  lemma CanonicalParts(s: string)
    requires |s| == MAX_LENGTH && s[2] == '-' && s[35] == '-' && s[52] == '-'
    ensures s == s[..2] + "-" + s[3..35] + "-" + s[36..52] + "-" + s[53..] + []
  {
    FieldsAt(s[..2], s[3..35], s[36..52], s[53..]);
  }

  /** make(true) is sampled and make(false) is not. */
  lemma IsSampledMake(random: seq<byte>, sampled: bool)
    requires |random| == TRACE_ID_SIZE + PARENT_ID_SIZE
    ensures IsSampled(Make(random, sampled)) == sampled
  {
  }

  /** A child is sampled exactly when its parent is. */
  lemma IsSampledChild(p: Traceparent, random: seq<byte>)
    requires |random| == PARENT_ID_SIZE
    ensures IsSampled(Child(p, random)) == IsSampled(p)
  {
  }

  /** A 56-character string is rejected before it is split. */
  lemma ExampleTooLong()
    ensures Parse(seq(56, _ => 'a')) == None
  {
  }
}
