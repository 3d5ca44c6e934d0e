/** Formatted text as the persistence code writes and reads it: decimal numbers and words between white space. */
module TextStream {
  import opened Common

  predicate IsSpace(c: char) {
    c == ' ' || 9 <= c as int <= 13
  }

  predicate IsDigit(c: char) {
    '0' <= c <= '9'
  }

  // ---- writing -----------------------------------------------------------------------------------

  function Digit(d: nat): (c: char)
    requires d < 10
    ensures IsDigit(c)
  {
    '0' + d as char
  }

  function Decimal(n: nat): (s: string)
    ensures s != [] && AllDigits(s)
  {
    if n < 10 then [Digit(n)] else Decimal(n / 10) + [Digit(n % 10)]
  }

  predicate AllDigits(s: string) {
    forall i :: 0 <= i < |s| ==> IsDigit(s[i])
  }

  // ---- reading -----------------------------------------------------------------------------------

  function SkipSpace(text: string): (rest: string)
    ensures |rest| <= |text|
    ensures rest != [] ==> !IsSpace(rest[0])
  {
    if text != [] && IsSpace(text[0]) then SkipSpace(text[1..]) else text
  }

  /** Length of the leading run of digits. */
  function DigitRun(text: string): (n: nat)
    ensures n <= |text|
    ensures AllDigits(text[..n])
  {
    if text == [] || !IsDigit(text[0]) then 0
    else
      assert text[..1 + DigitRun(text[1..])] == [text[0]] + text[1..][..DigitRun(text[1..])];
      1 + DigitRun(text[1..])
  }

  /** Length of the leading run of characters other than white space. */
  function WordRun(text: string): (n: nat)
    ensures n <= |text|
    ensures forall i :: 0 <= i < n ==> !IsSpace(text[i])
  {
    if text == [] || IsSpace(text[0]) then 0 else 1 + WordRun(text[1..])
  }

  function ValueOf(digits: string): nat
    requires AllDigits(digits)
  {
    if digits == [] then 0
    else
      var n := |digits| - 1;
      ValueOf(digits[..n]) * 10 + (digits[n] - '0') as nat
  }

  /** A successful extraction: the value and the text left over. */
  datatype Extracted<+T> = Extracted(value: T, rest: string)

  /** An optional sign and the magnitude after it, white space skipped. */
  function ReadMagnitude(text: string): (r: Option<(bool, nat, string)>)
    ensures r.Some? ==> |r.value.2| < |text|
  {
    var t := SkipSpace(text);
    var negative := t != [] && t[0] == '-';
    var digits := if t != [] && (t[0] == '-' || t[0] == '+') then t[1..] else t;
    var n := DigitRun(digits);
    if n == 0 then None else Some((negative, ValueOf(digits[..n]), digits[n..]))
  }

  /** Extraction of an unsigned integer below `bound`: too large fails, a minus sign wraps. */
  function ReadUnsigned(text: string, bound: nat): (r: Option<Extracted<nat>>)
    requires 0 < bound
    ensures r.Some? ==> r.value.value < bound && |r.value.rest| < |text|
  {
    var m := ReadMagnitude(text);
    if m.None? || m.value.1 >= bound then None
    else Some(Extracted(if m.value.0 && m.value.1 > 0 then bound - m.value.1 else m.value.1, m.value.2))
  }

  /** Extraction of a signed 32-bit integer. */
  function ReadInt32(text: string): (r: Option<Extracted<int>>)
    ensures r.Some? ==> |r.value.rest| < |text|
  {
    var m := ReadMagnitude(text);
    if m.None? then None
    else
      var magnitude: int := m.value.1;
      var v := if m.value.0 then -magnitude else magnitude;
      if -0x8000_0000 <= v < 0x8000_0000 then Some(Extracted(v, m.value.2)) else None
  }

  /** A word: not empty and without white space. */
  predicate IsWord(s: string) {
    s != [] && forall i :: 0 <= i < |s| ==> !IsSpace(s[i])
  }

  function ReadWord(text: string): (r: Option<Extracted<string>>)
    ensures r.Some? ==> IsWord(r.value.value)
  {
    var t := SkipSpace(text);
    var n := WordRun(t);
    if n == 0 then None else Some(Extracted(t[..n], t[n..]))
  }

  // ---- what was written is read back -------------------------------------------------------------

  lemma {:induction false} ValueOfDecimal(n: nat)
    ensures ValueOf(Decimal(n)) == n
  {
    if n < 10 {
      assert Decimal(n)[..0] == [];
    } else {
      ValueOfDecimal(n / 10);
      var s := Decimal(n);
      assert s[..|s| - 1] == Decimal(n / 10);
    }
  }

  /** The text goes on with something that cannot belong to the number or word before it. */
  predicate Separated(rest: string) {
    rest != [] && IsSpace(rest[0])
  }

  lemma {:induction false} DigitRunStops(digits: string, rest: string)
    requires AllDigits(digits) && Separated(rest)
    ensures DigitRun(digits + rest) == |digits|
  {
    if digits == [] {
      assert digits + rest == rest;
    } else {
      DigitRunStops(digits[1..], rest);
      assert (digits + rest)[1..] == digits[1..] + rest;
    }
  }

  lemma {:induction false} WordRunStops(word: string, rest: string)
    requires Separated(rest) && forall i :: 0 <= i < |word| ==> !IsSpace(word[i])
    ensures WordRun(word + rest) == |word|
  {
    if word == [] {
      assert word + rest == rest;
    } else {
      WordRunStops(word[1..], rest);
      assert (word + rest)[1..] == word[1..] + rest;
    }
  }

  lemma MagnitudeOfDecimal(n: nat, rest: string)
    requires Separated(rest)
    ensures ReadMagnitude(Decimal(n) + rest) == Some((false, n, rest))
  {
    var s := Decimal(n);
    var text := s + rest;
    assert text[0] == s[0];
    DigitRunStops(s, rest);
    ValueOfDecimal(n);
    assert text[..|s|] == s && text[|s|..] == rest;
  }

  /** One separating character before an item makes no difference. */
  lemma LeadingSpace(c: char, text: string)
    requires IsSpace(c)
    ensures SkipSpace([c] + text) == SkipSpace(text)
  {
    assert ([c] + text)[1..] == text;
  }

  lemma UnsignedRoundTrip(n: nat, bound: nat, rest: string)
    requires n < bound && Separated(rest)
    ensures ReadUnsigned(Decimal(n) + rest, bound) == Some(Extracted(n, rest))
    ensures forall c :: IsSpace(c) ==> ReadUnsigned([c] + (Decimal(n) + rest), bound) == Some(Extracted(n, rest))
  {
    MagnitudeOfDecimal(n, rest);
    forall c | IsSpace(c)
      ensures ReadUnsigned([c] + (Decimal(n) + rest), bound) == Some(Extracted(n, rest))
    {
      LeadingSpace(c, Decimal(n) + rest);
    }
  }

  lemma MagnitudeOfNegative(n: nat, rest: string)
    requires Separated(rest)
    ensures ReadMagnitude("-" + (Decimal(n) + rest)) == Some((true, n, rest))
  {
    var s := Decimal(n);
    var text := s + rest;
    DigitRunStops(s, rest);
    ValueOfDecimal(n);
    hide Decimal, DigitRun, ValueOf;
    assert ("-" + text)[1..] == text;
    assert text[..|s|] == s && text[|s|..] == rest;
    assert SkipSpace("-" + text) == "-" + text;
  }

  /** A number too large for the type is refused, and one behind a minus sign is taken from the bound. */
  lemma UnsignedLimits(n: nat, bound: nat, text: string, rest: string)
    requires 0 < bound && Separated(rest) && text == Decimal(n) + rest
    ensures n >= bound ==> ReadUnsigned(text, bound) == None && ReadUnsigned("-" + text, bound) == None
    ensures 0 < n < bound ==> ReadUnsigned("-" + text, bound) == Some(Extracted(bound - n, rest))
  {
    hide Decimal, ReadMagnitude, Separated;
    MagnitudeOfDecimal(n, rest);
    MagnitudeOfNegative(n, rest);
  }

  /** Signed numbers of 32 bits are read with either sign, all others refused. */
  lemma SignedLimits(n: nat, value: int, text: string, rest: string)
    requires Separated(rest) && text == Decimal(n) + rest
    ensures value == n ==> ReadInt32(text) == if value < 0x8000_0000 then Some(Extracted(value, rest)) else None
    ensures value + n == 0 ==> ReadInt32("-" + text) == if value >= -0x8000_0000 then Some(Extracted(value, rest)) else None
  {
    hide Decimal, ReadMagnitude, Separated;
    MagnitudeOfDecimal(n, rest);
    MagnitudeOfNegative(n, rest);
  }

  lemma WordRoundTrip(word: string, rest: string)
    requires IsWord(word) && Separated(rest)
    ensures forall c :: IsSpace(c) ==> ReadWord([c] + (word + rest)) == Some(Extracted(word, rest))
  {
    forall c | IsSpace(c)
      ensures ReadWord([c] + (word + rest)) == Some(Extracted(word, rest))
    {
      LeadingSpace(c, word + rest);
      assert (word + rest)[0] == word[0];
      WordRunStops(word, rest);
      assert (word + rest)[..|word|] == word && (word + rest)[|word|..] == rest;
    }
  }
}
