/** Hexadecimal numbers as bytes: how they are read, and what they mean digit by digit. */
module HexNumbers {
  import opened Graphs

  type byte = x: int | 0 <= x < 256

  type bytes = seq<byte>

  const CR: byte := 13
  const LF: byte := 10
  const SEMICOLON: byte := 59
  const UNDERSCORE: byte := 95

  // ----- reading -----

  /** The white space that a number may be wrapped in. */
  predicate IsSpace(c: byte) {
    9 <= c <= 13 || 28 <= c <= 32
  }

  function StripLeft(s: bytes): bytes {
    if s != [] && IsSpace(s[0]) then StripLeft(s[1..]) else s
  }

  function StripRight(s: bytes): bytes {
    if s != [] && IsSpace(s[|s| - 1]) then StripRight(s[..|s| - 1]) else s
  }

  function DigitOf(c: byte): Option<nat> {
    if 48 <= c <= 57 then Some(c - 48)
    else if 97 <= c <= 102 then Some(c - 87)
    else if 65 <= c <= 70 then Some(c - 55)
    else None
  }

  /** Hexadecimal digits, with single underscores allowed between them. */
  function DigitsValue(s: bytes): Option<nat>
    decreases |s|
  {
    if s == [] then None
    else
      var last, before := DigitOf(s[|s| - 1]), s[..|s| - 1];
      if last.None? || before == [] then last
      else
        var high := DigitsValue(if before[|before| - 1] == UNDERSCORE then before[..|before| - 1] else before);
        if high.None? then None else Some(16 * high.value + last.value)
  }

  /** Without the prefix 0x or 0X, after which one underscore may stand. */
  function WithoutPrefix(s: bytes): bytes {
    if |s| >= 2 && s[0] == 48 && (s[1] == 120 || s[1] == 88) then
      if |s| >= 3 && s[2] == UNDERSCORE then s[3..] else s[2..]
    else s
  }

  /** Python's int(s, 16). */
  function ParseInt(text: bytes): Option<int> {
    var s := StripRight(StripLeft(text));
    if s != [] && s[0] == 45 then Signed(-1, DigitsValue(WithoutPrefix(s[1..])))
    else if s != [] && s[0] == 43 then Signed(1, DigitsValue(WithoutPrefix(s[1..])))
    else Signed(1, DigitsValue(WithoutPrefix(s)))
  }

  function Signed(sign: int, magnitude: Option<nat>): Option<int> {
    match magnitude
    case None => None
    case Some(m) => var n: int := sign * m; Some(n)
  }

  // ----- what digits mean -----

  /** The digits by their values, as they may be written. */
  const LOWER: bytes := [48, 49, 50, 51, 52, 53, 54, 55, 56, 57, 97, 98, 99, 100, 101, 102]
  const UPPER: bytes := [48, 49, 50, 51, 52, 53, 54, 55, 56, 57, 65, 66, 67, 68, 69, 70]

  predicate Writes(c: byte, d: nat) {
    d < 16 && (c == LOWER[d] || c == UPPER[d])
  }

  ghost predicate Spells(digits: bytes, values: seq<nat>) {
    |digits| == |values| && forall k :: 0 <= k < |digits| ==> Writes(digits[k], values[k])
  }

  function Power16(n: nat): nat {
    if n == 0 then 1 else 16 * Power16(n - 1)
  }

  /** Each value counts by its place, the last one plainly. */
  function Positional(values: seq<nat>): nat {
    if values == [] then 0 else values[0] * Power16(|values| - 1) + Positional(values[1..])
  }

  /** The digits of n, in letters of either case. */
  ghost predicate IsSize(digits: bytes, n: nat) {
    digits != [] && exists values :: Spells(digits, values) && n == Positional(values)
  }

  /** The digits are read as n. */
  ghost predicate Reads(digits: bytes, n: nat) {
    && digits != [] && (forall k :: 0 <= k < |digits| ==> DigitOf(digits[k]).Some?)
    && DigitsValue(digits) == Some(n)
  }

  lemma DigitIsRead(c: byte, d: nat)
    ensures Writes(c, d) <==> DigitOf(c) == Some(d)
  {
    if DigitOf(c) == Some(d) { assert Writes(c, d); }
  }

  lemma {:induction false} OnePlaceMore(values: seq<nat>, d: nat)
    ensures Positional(values + [d]) == 16 * Positional(values) + d
  {
    if values == [] {
      assert [d][1..] == [];
      assert Positional([d]) == d * Power16(0) + Positional([]);
    } else {
      assert (values + [d])[1..] == values[1..] + [d];
      OnePlaceMore(values[1..], d);
      assert values[0] * Power16(|values|) == 16 * (values[0] * Power16(|values| - 1));
    }
  }

  lemma {:induction false} SpelledIsRead(digits: bytes, values: seq<nat>)
    requires Spells(digits, values) && digits != []
    ensures Reads(digits, Positional(values))
    decreases |digits|
  {
    var k := |digits| - 1;
    DigitIsRead(digits[k], values[k]);
    assert values == values[..k] + [values[k]];
    OnePlaceMore(values[..k], values[k]);
    if k > 0 { SpelledIsRead(digits[..k], values[..k]); }
  }

  /** Digits have the size that they are read as, and no other. */
  lemma SizeIffRead(digits: bytes, n: nat)
    ensures IsSize(digits, n) <==> Reads(digits, n)
  {
    if IsSize(digits, n) {
      var values :| Spells(digits, values) && n == Positional(values);
      SpelledIsRead(digits, values);
    }
    if Reads(digits, n) {
      var values := seq(|digits|, k requires 0 <= k < |digits| => DigitOf(digits[k]).value);
      forall k | 0 <= k < |digits| ensures Writes(digits[k], values[k]) { DigitIsRead(digits[k], values[k]); }
      SpelledIsRead(digits, values);
    }
  }

  lemma SizeReads(digits: bytes, n: nat)
    requires IsSize(digits, n)
    ensures Reads(digits, n)
  {
    SizeIffRead(digits, n);
  }

  lemma DigitsOnly(digits: bytes, n: nat)
    requires IsSize(digits, n)
    ensures digits != [] && forall k :: 0 <= k < |digits| ==> DigitOf(digits[k]).Some?
  {
    SizeReads(digits, n);
  }

  lemma OneSizeOnly(digits: bytes, m: nat, n: nat)
    requires IsSize(digits, m) && IsSize(digits, n)
    ensures m == n
  {
    SizeReads(digits, m);
    SizeReads(digits, n);
  }

  function DigitFor(d: nat, upper: bool): byte
    requires d < 16
  {
    if upper then UPPER[d] else LOWER[d]
  }

  /** The digits of a number, most significant first. */
  function Hex(n: nat, upper: bool): (s: bytes)
    ensures s != []
  {
    (if n < 16 then [] else Hex(n / 16, upper)) + [DigitFor(n % 16, upper)]
  }

  function ValuesOf(n: nat): seq<nat> {
    (if n < 16 then [] else ValuesOf(n / 16)) + [n % 16]
  }

  lemma DigitIsWritten(d: nat, upper: bool)
    requires d < 16
    ensures Writes(DigitFor(d, upper), d)
  {
  }

  lemma {:induction false} HexSpells(n: nat, upper: bool)
    ensures Spells(Hex(n, upper), ValuesOf(n))
  {
    DigitIsWritten(n % 16, upper);
    if n >= 16 { HexSpells(n / 16, upper); }
  }

  lemma {:induction false} ValuesMakeNumber(n: nat)
    ensures Positional(ValuesOf(n)) == n
  {
    OnePlaceMore(if n < 16 then [] else ValuesOf(n / 16), n % 16);
    if n >= 16 { ValuesMakeNumber(n / 16); }
  }

  /** Written in letters of one case, a number is spelled. */
  lemma HexIsSize(n: nat, upper: bool)
    ensures IsSize(Hex(n, upper), n)
  {
    HexSpells(n, upper);
    ValuesMakeNumber(n);
  }

  /** The digits alone are left of the line. */
  lemma SizeIsParsed(digits: bytes, n: nat, end: bytes)
    requires IsSize(digits, n) && (end == [] || end == [CR, LF])
    ensures ParseInt(digits + end) == Some(n)
  {
    SizeReads(digits, n);
    var t := digits + end;
    assert t[0] == digits[0] && StripLeft(t) == t;
    if end != [] {
      assert t[..|t| - 1][..|t| - 2] == digits;
      assert StripRight(t) == StripRight(t[..|t| - 1]) == StripRight(digits);
    } else {
      assert t == digits;
    }
    assert StripRight(digits) == digits;
    assert |digits| >= 2 ==> DigitOf(digits[1]).Some?;
    assert WithoutPrefix(digits) == digits;
  }

  /** A number is read back whichever case it is written in. */
  lemma HexIsReadBack(n: nat, upper: bool)
    ensures ParseInt(Hex(n, upper)) == Some(n) && ParseInt(Hex(n, upper) + [CR, LF]) == Some(n)
  {
    HexIsSize(n, upper);
    SizeIsParsed(Hex(n, upper), n, []);
    SizeIsParsed(Hex(n, upper), n, [CR, LF]);
    assert Hex(n, upper) + [] == Hex(n, upper);
  }

  // ----- which texts are read at all -----

  predicate IsDigit(c: byte) {
    c in LOWER || c in UPPER
  }

  /** A digit, or an underscore between others that has none before it. */
  predicate FitsAt(s: bytes, k: nat)
    requires k < |s|
  {
    IsDigit(s[k]) || (s[k] == UNDERSCORE && 0 < k < |s| - 1 && s[k - 1] != UNDERSCORE)
  }

  /** Digits, with single underscores between them. */
  ghost predicate Grouped(s: bytes) {
    s != [] && forall k {:trigger FitsAt(s, k)} :: 0 <= k < |s| ==> FitsAt(s, k)
  }

  lemma DigitIffRead(c: byte)
    ensures IsDigit(c) <==> DigitOf(c).Some?
    ensures IsDigit(c) ==> c != UNDERSCORE && !IsSpace(c) && c !in {43, 45, 88, 120}
  {
    if DigitOf(c).Some? { DigitIsRead(c, DigitOf(c).value); }
    if c in LOWER {
      var d :| 0 <= d < 16 && LOWER[d] == c;
      DigitIsRead(c, d);
    }
    if c in UPPER {
      var d :| 0 <= d < 16 && UPPER[d] == c;
      DigitIsRead(c, d);
    }
  }

  /** Without the last digit, and without the underscore before it. */
  function Shorter(s: bytes): bytes
    requires |s| >= 2
  {
    if s[|s| - 2] == UNDERSCORE then s[..|s| - 2] else s[..|s| - 1]
  }

  lemma LastIsDigit(s: bytes)
    requires Grouped(s)
    ensures IsDigit(s[|s| - 1]) && IsDigit(s[0]) && s[|s| - 1] != UNDERSCORE
  {
    assert FitsAt(s, |s| - 1) && FitsAt(s, 0);
    DigitIffRead(s[|s| - 1]);
  }

  lemma ShorterIsGrouped(s: bytes)
    requires |s| >= 2 && Grouped(s)
    ensures Grouped(Shorter(s))
  {
    var n, t := |s|, Shorter(s);
    assert FitsAt(s, n - 2) && FitsAt(s, 0);
    DigitIffRead(s[0]);
    forall k: nat | k < |t| ensures FitsAt(t, k) {
      assert FitsAt(s, k) && t[k] == s[k];
    }
  }

  lemma LongerIsGrouped(s: bytes)
    requires |s| >= 2 && IsDigit(s[|s| - 1]) && Grouped(Shorter(s))
    ensures Grouped(s)
  {
    var n, t := |s|, Shorter(s);
    LastIsDigit(t);
    forall k: nat | k < n ensures FitsAt(s, k) {
      if k < |t| { assert FitsAt(t, k) && t[k] == s[k]; }
    }
  }

  /** Exactly such texts have a value. */
  lemma {:induction false} ReadIffGrouped(s: bytes)
    ensures DigitsValue(s).Some? <==> Grouped(s)
    decreases |s|
  {
    if s != [] {
      DigitIffRead(s[|s| - 1]);
      assert |s| == 1 && Grouped(s) ==> FitsAt(s, 0);
      if |s| >= 2 {
        if Grouped(s) {
          ShorterIsGrouped(s);
          LastIsDigit(s);
        }
        if IsDigit(s[|s| - 1]) && Grouped(Shorter(s)) { LongerIsGrouped(s); }
        ReadIffGrouped(Shorter(s));
        assert s[..|s| - 1][..|s| - 2] == s[..|s| - 2];
      }
    }
  }

  // ----- letters of either case -----

  /** The same text but that letters from a to f may stand in the other case. */
  ghost predicate SameButCase(s: bytes, t: bytes) {
    |s| == |t| && forall k :: 0 <= k < |s| ==> SameLetter(s[k], t[k])
  }

  predicate SameLetter(c: byte, d: byte) {
    c == d || (97 <= c <= 102 && d == c - 32) || (65 <= c <= 70 && d == c + 32)
  }

  lemma {:induction false} DigitsAreBlind(s: bytes, t: bytes)
    requires SameButCase(s, t)
    ensures DigitsValue(s) == DigitsValue(t)
    decreases |s|
  {
    if |s| >= 2 {
      var n := |s| - 1;
      var s', t' := s[..n], t[..n];
      if s'[n - 1] == UNDERSCORE { DigitsAreBlind(s'[..n - 1], t'[..n - 1]); } else { DigitsAreBlind(s', t'); }
    }
  }

  lemma {:induction false} StripIsBlind(s: bytes, t: bytes)
    requires SameButCase(s, t)
    ensures SameButCase(StripLeft(s), StripLeft(t)) && SameButCase(StripRight(s), StripRight(t))
    decreases |s|
  {
    if s != [] {
      StripIsBlind(s[1..], t[1..]);
      StripIsBlind(s[..|s| - 1], t[..|t| - 1]);
    }
  }

  /** The case of the letters changes no value. */
  lemma ParseIsBlind(s: bytes, t: bytes)
    requires SameButCase(s, t)
    ensures ParseInt(s) == ParseInt(t)
  {
    StripIsBlind(s, t);
    var l, m := StripLeft(s), StripLeft(t);
    StripIsBlind(l, m);
    var a, b := StripRight(l), StripRight(m);
    if a != [] && (a[0] == 45 || a[0] == 43) {
      DigitsAreBlind(WithoutPrefix(a[1..]), WithoutPrefix(b[1..]));
    } else {
      DigitsAreBlind(WithoutPrefix(a), WithoutPrefix(b));
    }
  }

  // ----- all forms of a number -----

  ghost predicate AreSpaces(s: bytes) {
    forall k :: 0 <= k < |s| ==> IsSpace(s[k])
  }

  /** A sign or none, by what it does. */
  ghost predicate IsSign(s: bytes, sign: int) {
    (s == [] && sign == 1) || (s == [43] && sign == 1) || (s == [45] && sign == -1)
  }

  /** Nothing, 0x or 0X, and after that an underscore or none. */
  ghost predicate IsPrefix(s: bytes) {
    s == [] || s == [48, 120] || s == [48, 88] || s == [48, 120, UNDERSCORE] || s == [48, 88, UNDERSCORE]
  }

  lemma {:induction false} SpacesAreStripped(before: bytes, s: bytes, after: bytes)
    requires AreSpaces(before) && AreSpaces(after) && s != [] && !IsSpace(s[0]) && !IsSpace(s[|s| - 1])
    ensures StripLeft(before + s + after) == s + after && StripRight(s + after) == s
    decreases |before| + |after|
  {
    if before != [] {
      assert (before + s + after)[1..] == before[1..] + s + after;
      SpacesAreStripped(before[1..], s, after);
    } else {
      assert before + s + after == s + after;
    }
    if after != [] {
      var k := |after| - 1;
      assert (s + after)[..|s + after| - 1] == s + after[..k];
      if before == [] { SpacesAreStripped([], s, after[..k]); }
    } else {
      assert s + after == s;
    }
  }

  lemma StartOfGrouped(s: bytes)
    requires Grouped(s)
    ensures IsDigit(s[0]) && (|s| >= 2 ==> s[1] != 88 && s[1] != 120)
  {
    LastIsDigit(s);
    if |s| >= 2 {
      assert FitsAt(s, 1);
      DigitIffRead(s[1]);
    }
  }

  lemma PrefixIsDropped(prefix: bytes, s: bytes)
    requires IsPrefix(prefix) && Grouped(s)
    ensures WithoutPrefix(prefix + s) == s
  {
    var t := prefix + s;
    StartOfGrouped(s);
    DigitIffRead(s[0]);
    if prefix == [] {
      assert t == s;
    } else {
      assert t[0] == 48 && t[1] == prefix[1] && t[|prefix|] == s[0];
      assert |prefix| == 3 ==> t[2] == UNDERSCORE;
      assert t[|prefix|..] == s;
    }
  }

  lemma EndsOfNumber(sg: bytes, sign: int, prefix: bytes, s: bytes, t: bytes)
    requires IsSign(sg, sign) && IsPrefix(prefix) && Grouped(s) && t == sg + prefix + s
    ensures t != [] && !IsSpace(t[0]) && !IsSpace(t[|t| - 1])
    ensures if sg == [] then t[0] != 45 && t[0] != 43 && t == prefix + s else t[0] == sg[0] && t[1..] == prefix + s
  {
    LastIsDigit(s);
    DigitIffRead(s[0]);
    DigitIffRead(s[|s| - 1]);
    assert t[|t| - 1] == s[|s| - 1];
    if sg == [] {
      assert t == prefix + s;
      assert t[0] == if prefix == [] then s[0] else 48;
    } else {
      assert t[1..] == prefix + s;
    }
  }

  /** What ParseInt makes of a text without space around it. */
  function SignedValue(t: bytes): Option<int> {
    if t != [] && t[0] == 45 then Signed(-1, DigitsValue(WithoutPrefix(t[1..])))
    else if t != [] && t[0] == 43 then Signed(1, DigitsValue(WithoutPrefix(t[1..])))
    else Signed(1, DigitsValue(WithoutPrefix(t)))
  }

  lemma SignIsTaken(sg: bytes, sign: int, prefix: bytes, s: bytes, t: bytes)
    requires IsSign(sg, sign) && IsPrefix(prefix) && Grouped(s) && DigitsValue(s).Some? && t == sg + prefix + s
    ensures SignedValue(t) == Some(sign * DigitsValue(s).value)
  {
    EndsOfNumber(sg, sign, prefix, s, t);
    PrefixIsDropped(prefix, s);
  }

  /** Space, a sign, a prefix, grouped digits and space again are read as the digits' number with that sign. */
  lemma AllFormsAreRead(before: bytes, sg: bytes, sign: int, prefix: bytes, s: bytes, after: bytes)
    requires AreSpaces(before) && AreSpaces(after) && IsSign(sg, sign) && IsPrefix(prefix) && Grouped(s)
    ensures DigitsValue(s).Some? && ParseInt(before + (sg + prefix + s) + after) == Some(sign * DigitsValue(s).value)
  {
    ReadIffGrouped(s);
    var t := sg + prefix + s;
    EndsOfNumber(sg, sign, prefix, s, t);
    SignIsTaken(sg, sign, prefix, s, t);
    SpacesAreStripped(before, t, after);
  }
}
