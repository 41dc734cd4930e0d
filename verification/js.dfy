/** The JavaScript built-ins the traceparent codec relies on, for the values
    that reach them: ToString of a possibly-undefined string, Number's
    toString(16), String's padStart and split, parseInt with radix 16, and the
    int32 `&` operator. */
module Js {

  /** A string-typed JavaScript value that may be `undefined` (reading an
      array past its end yields `undefined`). */
  datatype Value = Undefined | Str(s: string)

  /** A JavaScript number as this codec meets it: an integer, or NaN. */
  datatype Number = NaN | Int(i: int)

  /** `null` or a value. */
  datatype Option<+T> = None | Some(value: T)

  /** ToString(v): what a template literal or parseInt makes of `v`. */
  function ToStr(v: Value): (r: string)
    ensures v.Str? ==> r == v.s
    ensures v.Undefined? ==> r == "undefined"
  {
    match v
    case Undefined => "undefined"
    case Str(s) => s
  }

  /** The digit Number's toString(16) writes for d: '0'-'9', then 'a'-'f'. */
  function LowerDigit(d: nat): (c: char)
    requires d < 16
  {
    if d < 10 then ('0' as int + d) as char else ('a' as int + d - 10) as char
  }

  /** A digit of radix 16, in either case, as parseInt accepts it. */
  predicate IsHexDigit(c: char) {
    '0' <= c <= '9' || 'a' <= c <= 'f' || 'A' <= c <= 'F'
  }

  predicate IsLowerHexDigit(c: char) {
    '0' <= c <= '9' || 'a' <= c <= 'f'
  }

  predicate AllHexDigits(s: string) {
    forall i :: 0 <= i < |s| ==> IsHexDigit(s[i])
  }

  predicate IsLowerHex(s: string) {
    forall i :: 0 <= i < |s| ==> IsLowerHexDigit(s[i])
  }

  /** The value of a radix-16 digit (0 for any other character, which the
      callers below never pass). */
  function DigitValue(c: char): (d: nat)
    ensures d < 16
  {
    if '0' <= c <= '9' then c as int - '0' as int
    else if 'a' <= c <= 'f' then c as int - 'a' as int + 10
    else if 'A' <= c <= 'F' then c as int - 'A' as int + 10
    else 0
  }

  /** A lowercase digit is the digit its value selects. */
  lemma LowerDigitOfValue(c: char)
    requires IsLowerHexDigit(c)
    ensures LowerDigit(DigitValue(c)) == c
  {
  }

  /** The lowercase digit for d reads back as d. */
  lemma DigitValueOfLower(d: nat)
    requires d < 16
    ensures IsLowerHexDigit(LowerDigit(d)) && DigitValue(LowerDigit(d)) == d
  {
  }

  /** The mathematical value of a string of radix-16 digits, most
      significant first. */
  function HexValue(s: string): (n: nat) {
    if s == [] then 0 else HexValue(s[..|s| - 1]) * 16 + DigitValue(s[|s| - 1])
  }

  /** Leading zeros do not change the value. */
  lemma {:induction false} HexValueLeadingZero(s: string)
    ensures HexValue("0" + s) == HexValue(s)
  {
    if s != [] {
      var t := "0" + s;
      assert t[..|t| - 1] == "0" + s[..|s| - 1];
      HexValueLeadingZero(s[..|s| - 1]);
    }
  }

  /** Number.prototype.toString(16) of a non-negative integer: its radix-16
      digits, lowercase, without leading zeros. */
  function ToBase16(n: nat): (r: string)
    ensures 1 <= |r|
  {
    if n < 16 then [LowerDigit(n)] else ToBase16(n / 16) + [LowerDigit(n % 16)]
  }

  lemma {:induction false} ToBase16Lower(n: nat)
    ensures IsLowerHex(ToBase16(n)) && AllHexDigits(ToBase16(n))
  {
    DigitValueOfLower(n % 16);
    if n >= 16 {
      ToBase16Lower(n / 16);
    }
  }

  /** toString(16) writes no leading zero: only 0 itself starts with '0'. */
  lemma {:induction false} ToBase16NoLeadingZero(n: nat)
    ensures ToBase16(n)[0] == '0' ==> n == 0
  {
    if n >= 16 {
      ToBase16NoLeadingZero(n / 16);
      assert ToBase16(n)[0] == ToBase16(n / 16)[0];
    }
  }

  /** ToBase16 is undone by reading the digits back. */
  lemma {:induction false} HexValueToBase16(n: nat)
    ensures HexValue(ToBase16(n)) == n
  {
    var r := ToBase16(n);
    if n < 16 {
      DigitValueOfLower(n);
      assert r[..0] == [];
    } else {
      assert r[..|r| - 1] == ToBase16(n / 16);
      HexValueToBase16(n / 16);
      DigitValueOfLower(n % 16);
    }
  }

  /** Number.prototype.toString(16) of a Number (-0 is not told apart from 0). */
  function NumberToString16(x: Number): (r: string)
    ensures r != [] && (r[0] == '-' <==> x.Int? && x.i < 0)
    ensures x.NaN? ==> r == "NaN"
  {
    match x
    case NaN => "NaN"
    case Int(i) =>
      ToBase16Lower(if i < 0 then -i else i);
      if i < 0 then "-" + ToBase16(-i) else ToBase16(i)
  }

  /** String.prototype.padStart(width, fill) with a one-character fill. */
  function PadStart(s: string, width: nat, fill: char): (r: string)
    ensures |r| == if |s| < width then width else |s|
    ensures r[|r| - |s|..] == s
    ensures forall i :: 0 <= i < |r| - |s| ==> r[i] == fill
  {
    if |s| >= width then s else seq(width - |s|, _ => fill) + s
  }

  /** String.prototype.split(sep) for a one-character separator: the maximal
      separator-free runs, in order. */
  function Split(s: string, sep: char): (parts: seq<string>)
    ensures |parts| >= 1
  {
    if s == [] then [""]
    else
      var rest := Split(s[1..], sep);
      if s[0] == sep then [""] + rest
      else [[s[0]] + rest[0]] + rest[1..]
  }

  /** No segment contains the separator. */
  lemma {:induction false} SplitSepFree(s: string, sep: char)
    ensures forall i :: 0 <= i < |Split(s, sep)| ==> sep !in Split(s, sep)[i]
  {
    if s != [] {
      SplitSepFree(s[1..], sep);
    }
  }

  /** Array.prototype.join(sep): the reference the split is checked against. */
  function Join(parts: seq<string>, sep: char): (s: string)
    requires |parts| >= 1
  {
    if |parts| == 1 then parts[0] else parts[0] + [sep] + Join(parts[1..], sep)
  }

  lemma {:induction false} JoinSplit(s: string, sep: char)
    ensures Join(Split(s, sep), sep) == s
  {
    if s != [] {
      JoinSplit(s[1..], sep);
      JoinSplitStep(s, sep);
    }
  }

  /** Splitting one more character off the front keeps the join intact. */
  lemma JoinSplitStep(s: string, sep: char)
    requires s != [] && Join(Split(s[1..], sep), sep) == s[1..]
    ensures Join(Split(s, sep), sep) == s
  {
    var rest := Split(s[1..], sep);
    if s[0] == sep {
      JoinCons("", rest, sep);
    } else if |rest| == 1 {
      assert Split(s, sep) == [[s[0]] + rest[0]];
    } else {
      var head := [s[0]] + rest[0];
      assert Split(s, sep) == [head] + rest[1..];
      JoinCons(head, rest[1..], sep);
      JoinCons(rest[0], rest[1..], sep);
      assert rest == [rest[0]] + rest[1..];
    }
  }

  lemma JoinCons(x: string, parts: seq<string>, sep: char)
    requires |parts| >= 1
    ensures Join([x] + parts, sep) == x + [sep] + Join(parts, sep)
  {
    assert ([x] + parts)[1..] == parts;
  }

  /** A separator-free string splits to itself alone. */
  lemma {:induction false} SplitNoSep(a: string, sep: char)
    requires sep !in a
    ensures Split(a, sep) == [a]
  {
    if a != [] {
      SplitNoSep(a[1..], sep);
      assert [a[0]] + a[1..] == a;
    }
  }

  /** A separator-free run followed by the separator is split off first. */
  lemma {:induction false} SplitPrefix(a: string, sep: char, t: string)
    requires sep !in a
    ensures Split(a + [sep] + t, sep) == [a] + Split(t, sep)
  {
    var s := a + [sep] + t;
    if a == [] {
      assert s[1..] == t;
    } else {
      assert s[1..] == a[1..] + [sep] + t;
      SplitPrefix(a[1..], sep, t);
      assert [a[0]] + a[1..] == a;
    }
  }

  lemma {:induction false} SplitJoin(parts: seq<string>, sep: char)
    requires |parts| >= 1
    requires forall i :: 0 <= i < |parts| ==> sep !in parts[i]
    ensures Split(Join(parts, sep), sep) == parts
  {
    if |parts| == 1 {
      SplitNoSep(parts[0], sep);
    } else {
      SplitJoin(parts[1..], sep);
      SplitPrefix(parts[0], sep, Join(parts[1..], sep));
    }
  }

  /** Four separator-free runs joined by the separator, followed by nothing
      or by a further separator, are the first four segments. */
  lemma SplitFour(a: string, b: string, c: string, d: string, rest: string, sep: char)
    requires sep !in a && sep !in b && sep !in c && sep !in d
    requires rest == [] || rest[0] == sep
    ensures var parts := Split(a + [sep] + b + [sep] + c + [sep] + d + rest, sep);
      |parts| >= 4 && parts[0] == a && parts[1] == b && parts[2] == c && parts[3] == d
  {
    var t := d + rest;
    Regroup(a, b, c, d, rest, sep);
    SplitThree(a, b, c, t, sep);
    SplitHead(d, rest, sep);
  }

  lemma Regroup(a: string, b: string, c: string, d: string, rest: string, sep: char)
    ensures a + [sep] + b + [sep] + c + [sep] + d + rest == a + [sep] + (b + [sep] + (c + [sep] + (d + rest)))
  {
  }

  lemma SplitThree(a: string, b: string, c: string, t: string, sep: char)
    requires sep !in a && sep !in b && sep !in c
    ensures Split(a + [sep] + (b + [sep] + (c + [sep] + t)), sep) == [a, b, c] + Split(t, sep)
  {
    SplitPrefix(c, sep, t);
    SplitPrefix(b, sep, c + [sep] + t);
    SplitPrefix(a, sep, b + [sep] + (c + [sep] + t));
  }

  lemma SplitHead(d: string, rest: string, sep: char)
    requires sep !in d
    requires rest == [] || rest[0] == sep
    ensures Split(d + rest, sep)[0] == d
  {
    if rest == [] {
      SplitNoSep(d, sep);
      assert d + rest == d;
    } else {
      assert d + rest == d + [sep] + rest[1..];
      SplitPrefix(d, sep, rest[1..]);
    }
  }

  /** There is one more segment than there are separators. */
  lemma {:induction false} SplitCount(s: string, sep: char)
    ensures |Split(s, sep)| == multiset(s)[sep] + 1
  {
    if s != [] {
      SplitCount(s[1..], sep);
      assert s == [s[0]] + s[1..];
      assert multiset(s) == multiset([s[0]]) + multiset(s[1..]);
    }
  }

  /** `parts[i]` on a JavaScript array: `undefined` past the end. */
  function Item(parts: seq<string>, i: nat): (v: Value)
    ensures v.Str? <==> i < |parts|
    ensures v.Str? ==> v.s == parts[i]
  {
    if i < |parts| then Str(parts[i]) else Undefined
  }

  /** The characters the StrWhiteSpaceChar production of ECMAScript allows:
      WhiteSpace (tab, vertical tab, form feed, zero-width no-break space
      and the space separators of Unicode) and LineTerminator. */
  predicate IsStrWhiteSpace(c: char) {
    c == '\t' || c == '\n' || c == '\U{000B}' || c == '\U{000C}' || c == '\r'
    || c == ' ' || c == '\U{00A0}' || c == '\U{1680}' || '\U{2000}' <= c <= '\U{200A}'
    || c == '\U{2028}' || c == '\U{2029}' || c == '\U{202F}' || c == '\U{205F}'
    || c == '\U{3000}' || c == '\U{FEFF}'
  }

  /** The string with its leading white space removed. */
  function TrimStart(s: string): (r: string)
    ensures |r| <= |s| && r == s[|s| - |r|..]
  {
    if s != [] && IsStrWhiteSpace(s[0]) then TrimStart(s[1..]) else s
  }

  /** What TrimStart removes is white space, and what it keeps does not start
      with white space. */
  lemma {:induction false} TrimStartWhiteSpace(s: string)
    ensures forall i :: 0 <= i < |s| - |TrimStart(s)| ==> IsStrWhiteSpace(s[i])
    ensures TrimStart(s) == [] || !IsStrWhiteSpace(TrimStart(s)[0])
  {
    if s != [] && IsStrWhiteSpace(s[0]) {
      TrimStartWhiteSpace(s[1..]);
      forall i | 0 < i < |s| - |TrimStart(s)|
        ensures IsStrWhiteSpace(s[i])
      {
        assert s[i] == s[1..][i - 1];
      }
    }
  }

  /** The longest prefix made of radix-16 digits. */
  function HexDigitPrefix(s: string): (z: string)
    ensures z <= s && AllHexDigits(z)
    ensures |z| < |s| ==> !IsHexDigit(s[|z|])
  {
    if s != [] && IsHexDigit(s[0]) then [s[0]] + HexDigitPrefix(s[1..]) else []
  }

  /** The text after an optional leading sign. */
  function StripSign(s: string): (t: string) {
    if s != [] && (s[0] == '-' || s[0] == '+') then s[1..] else s
  }

  /** The text after an optional 0x or 0X prefix. */
  function StripHexPrefix(s: string): (t: string) {
    if |s| >= 2 && s[0] == '0' && (s[1] == 'x' || s[1] == 'X') then s[2..] else s
  }

  /** parseInt(v, 16): skip leading white space, take an optional sign and an
      optional 0x/0X prefix, then read the longest run of radix-16 digits;
      NaN when that run is empty. */
  function ParseInt16(v: Value): (n: Number)
    ensures '-' !in ToStr(v) ==> n.NaN? || n.i >= 0
  {
    ParseInt16Sign(v);
    ParseSignedHex(TrimStart(ToStr(v)))
  }

  /** Only a minus sign in the text can make the result negative. */
  lemma ParseInt16Sign(v: Value)
    ensures var n := ParseSignedHex(TrimStart(ToStr(v)));
      n.Int? && n.i < 0 ==> '-' in ToStr(v)
  {
    var s := ToStr(v);
    var t := TrimStart(s);
    if t != [] {
      assert t[0] == s[|s| - |t|];
    }
  }

  /** The steps of parseInt(_, 16) after the white space is skipped. */
  function ParseSignedHex(s: string): (n: Number) {
    var z := HexDigitPrefix(StripHexPrefix(StripSign(s)));
    if z == [] then NaN
    else if s[0] == '-' then Int(-(HexValue(z) as int))
    else Int(HexValue(z))
  }

  /** On a non-empty string of radix-16 digits parseInt reads the whole string. */
  lemma ParseInt16OfDigits(s: string)
    requires s != [] && AllHexDigits(s)
    ensures ParseInt16(Str(s)) == Int(HexValue(s))
  {
    DigitIsNotWhiteSpace(s[0]);
    assert TrimStart(s) == s;
    assert StripSign(s) == s;
    assert StripHexPrefix(s) == s;
    HexDigitPrefixAll(s);
  }

  /** A string of digits is its own longest digit prefix. */
  lemma {:induction false} HexDigitPrefixAll(s: string)
    requires AllHexDigits(s)
    ensures HexDigitPrefix(s) == s
  {
    if s != [] {
      HexDigitPrefixAll(s[1..]);
      assert [s[0]] + s[1..] == s;
    }
  }

  lemma DigitIsNotWhiteSpace(c: char)
    requires IsHexDigit(c)
    ensures !IsStrWhiteSpace(c)
  {
  }

  /** parseInt(undefined, 16) is NaN: "undefined" has no leading digit. */
  lemma ParseInt16Undefined()
    ensures ParseInt16(Undefined) == NaN
  {
    assert TrimStart("undefined") == "undefined";
    assert !IsHexDigit('u');
  }

  /** Text that starts with neither white space, a sign nor a digit (or is
      empty) reads as NaN. */
  lemma ParseInt16NoDigits(s: string)
    requires s == [] || (!IsHexDigit(s[0]) && !IsStrWhiteSpace(s[0]) && s[0] != '-' && s[0] != '+')
    ensures ParseInt16(Str(s)) == NaN
  {
    assert TrimStart(s) == s;
    assert StripSign(s) == s;
    assert StripHexPrefix(s) == s;
  }

  /** A leading minus sign negates the digits that follow it. (The traceparent
      parse never takes this path: its flags segment holds no dash.) */
  lemma ParseInt16Negative(s: string)
    requires s != [] && AllHexDigits(s)
    ensures ParseInt16(Str("-" + s)) == Int(-(HexValue(s) as int))
  {
    TrimStartKeeps("-" + s);
    ParseSignedHexNegative(s);
  }

  lemma TrimStartKeeps(s: string)
    requires s != [] && !IsStrWhiteSpace(s[0])
    ensures TrimStart(s) == s
  {
  }

  lemma ParseSignedHexNegative(s: string)
    requires s != [] && AllHexDigits(s)
    ensures ParseSignedHex("-" + s) == Int(-(HexValue(s) as int))
  {
    assert ("-" + s)[1..] == s;
    HexDigitPrefixAll(s);
  }

  /** Leading white space is skipped. */
  lemma ParseInt16SkipsWhiteSpace(c: char, s: string)
    requires IsStrWhiteSpace(c)
    ensures ParseInt16(Str([c] + s)) == ParseInt16(Str(s))
  {
    assert TrimStart([c] + s) == TrimStart(s) by {
      assert ([c] + s)[1..] == s;
    }
  }

  const TWO_31 := 0x8000_0000
  const TWO_32 := 0x1_0000_0000

  /** ToUint32: NaN becomes 0, an integer is reduced modulo 2^32. */
  function ToUint32(x: Number): (u: nat)
    ensures u < TWO_32
  {
    match x
    case NaN => 0
    case Int(i) => i % TWO_32
  }

  /** The bitwise and of the low `width` bits of a and b. */
  function AndBits(a: nat, b: nat, width: nat): (r: nat)
    ensures r <= a && r <= b
  {
    if width == 0 then 0
    else (if a % 2 == 1 && b % 2 == 1 then 1 else 0) + 2 * AndBits(a / 2, b / 2, width - 1)
  }

  lemma {:induction false} AndBitsZero(a: nat, width: nat)
    ensures AndBits(a, 0, width) == 0
  {
    if width > 0 {
      AndBitsZero(a / 2, width - 1);
    }
  }

  /** `x & y`: both operands are converted to 32 bits, and the result is read
      back as a signed 32-bit integer. */
  function BitAnd(x: Number, y: Number): (r: int)
    ensures -TWO_31 <= r < TWO_31
  {
    var u := AndBits(ToUint32(x), ToUint32(y), 32);
    if u >= TWO_31 then u - TWO_32 else u
  }

  /** `x & 1` is 1 exactly for odd integers, and 0 for even ones and NaN. */
  lemma BitAndOne(x: Number)
    ensures BitAnd(x, Int(1)) == if x.Int? && x.i % 2 == 1 then 1 else 0
  {
    var u := ToUint32(x);
    AndBitsZero(u / 2, 31);
    assert AndBits(u, 1, 32) == if u % 2 == 1 then 1 else 0;
    if x.Int? {
      Uint32Parity(x.i);
    }
  }

  /** Reducing modulo 2^32 keeps the lowest bit. */
  lemma Uint32Parity(i: int)
    ensures (i % TWO_32) % 2 == i % 2
  {
    var q, u := i / TWO_32, i % TWO_32;
    assert i == TWO_32 * q + u;
    var k := TWO_31 * q;
    assert TWO_32 * q == 2 * k;
    EvenShift(k, u);
  }

  lemma EvenShift(k: int, u: int)
    ensures (2 * k + u) % 2 == u % 2
  {
  }
}
