/** JSON numbers as the lexemes the library stores: how much of a text `strtod` takes, and what is accepted. */
module JsonNumber {
  import opened Bytes

  predicate IsDigit(c: byte) {
    0x30 <= c <= 0x39
  }

  predicate IsHexDigit(c: byte) {
    IsDigit(c) || 0x41 <= c <= 0x46 || 0x61 <= c <= 0x66
  }

  /** Length of the leading run of digits. */
  function Digits(s: bytes): (n: nat)
    ensures n <= |s|
  {
    if s == [] || !IsDigit(s[0]) then 0 else 1 + Digits(s[1..])
  }

  const DOT: byte := 0x2E
  const MINUS: byte := 0x2D
  const PLUS: byte := 0x2B

  predicate IsSign(c: byte) {
    c == MINUS || c == PLUS
  }

  predicate IsE(c: byte) {
    c == 0x65 || c == 0x45
  }

  /** Length of `e`, an optional sign and digits; nothing without a digit. */
  function ExponentLen(s: bytes): (n: nat)
    ensures n <= |s|
  {
    if s == [] || !IsE(s[0]) then 0
    else
      var sign := if |s| > 1 && IsSign(s[1]) then 1 else 0;
      var n := Digits(s[1 + sign..]);
      if n == 0 then 0 else 1 + sign + n
  }

  /** Length of a dot and the digits after it. */
  function FractionLen(s: bytes): (n: nat)
    ensures n <= |s|
  {
    if s == [] || s[0] != DOT then 0 else 1 + Digits(s[1..])
  }

  function DecimalLen(s: bytes): (n: nat)
    ensures n <= |s|
  {
    var i := Digits(s);
    var f := FractionLen(s[i..]);
    if i == 0 && f <= 1 then 0 else i + f + ExponentLen(s[i + f..])
  }

  function Lower(c: byte): byte {
    if 0x41 <= c <= 0x5A then c + 0x20 else c
  }

  /** Does `s` start with `word`, letter case aside? */
  predicate StartsNoCase(s: bytes, word: bytes) {
    |word| <= |s| && forall i :: 0 <= i < |word| ==> Lower(s[i]) == word[i]
  }

  const INF: bytes := [0x69, 0x6E, 0x66]
  const INFINITY: bytes := INF + [0x69, 0x6E, 0x69, 0x74, 0x79]
  const NAN: bytes := [0x6E, 0x61, 0x6E]

  /** How many characters `strtod` takes, in the C locale. Of a hexadecimal number only the
      prefix is counted: its `x` makes `is_decimal` reject it whatever follows. */
  function StrtodLen(s: bytes): (n: nat)
    ensures n <= |s|
  {
    var sign := if s != [] && IsSign(s[0]) then 1 else 0;
    var t := s[sign..];
    if |t| > 2 && t[0] == 0x30 && Lower(t[1]) == 0x78
       && (IsHexDigit(t[2]) || (|t| > 3 && t[2] == DOT && IsHexDigit(t[3]))) then sign + 2
    else if StartsNoCase(t, INFINITY) then sign + |INFINITY|
    else if StartsNoCase(t, INF) || StartsNoCase(t, NAN) then sign + 3
    else if DecimalLen(t) == 0 then 0
    else sign + DecimalLen(t)
  }

  /** `is_decimal`. */
  predicate IsDecimal(l: bytes) {
    if |l| > 1 && l[0] == 0x30 && l[1] == 0x65 then true
    else if |l| > 1 && l[0] == 0x30 && l[1] != DOT then false
    else if |l| > 2 && l[0] == MINUS && l[1] == 0x30 && l[2] != DOT then false
    else forall i :: 0 <= i < |l| ==> Lower(l[i]) != 0x78
  }

  function DigitsValue(s: bytes): nat {
    if s == [] then 0
    else DigitsValue(s[..|s| - 1]) * 10 + if IsDigit(s[|s| - 1]) then s[|s| - 1] - 0x30 else 0
  }

  function Pow10(k: int): real
    decreases if k < 0 then -k else k
  {
    if k == 0 then 1.0 else if k > 0 then 10.0 * Pow10(k - 1) else Pow10(k + 1) / 10.0
  }

  /** What an `e`, an optional sign and digits add to the exponent. */
  function ExponentOf(e: bytes): int {
    var sign := if |e| > 1 && IsSign(e[1]) then 1 else 0;
    if ExponentLen(e) == 0 then 0
    else if e[1] == MINUS then 0 - DigitsValue(e[1 + sign..])
    else DigitsValue(e[1 + sign..])
  }

  /** The number a decimal lexeme denotes, before rounding to a double. */
  function NumberValue(l: bytes): real {
    var sign := if l != [] && IsSign(l[0]) then 1 else 0;
    var t := l[sign..];
    var i := Digits(t);
    var f := FractionLen(t[i..]);
    var fraction := if f == 0 then [] else t[i + 1..i + f];
    var magnitude := DigitsValue(t[..i] + fraction) as real * Pow10(ExponentOf(t[i + f..]) - |fraction|);
    if sign == 1 && l[0] == MINUS then -magnitude else magnitude
  }

  /** `strtod` reports a range error with an infinite result: the value rounds past the largest double. */
  predicate Overflows(l: bytes) {
    var limit := Pow2(1024) - Pow2(970);
    NumberValue(l) >= limit as real || NumberValue(l) <= -(limit as real)
  }

  /** What the number constructors accept. */
  predicate Accepted(l: bytes) {
    IsDecimal(l) && !Overflows(l)
  }

  /** The grammar of section 6 of RFC 8259. */
  predicate IsJsonNumber(l: bytes) {
    var sign := if l != [] && l[0] == MINUS then 1 else 0;
    IsUnsigned(l[sign..])
  }

  predicate IsUnsigned(t: bytes) {
    var i := Digits(t);
    var f := FractionLen(t[i..]);
    && i > 0 && (t[0] == 0x30 ==> i == 1)
    && f != 1
    && i + f + ExponentLen(t[i + f..]) == |t|
  }

  predicate IsLetter(c: byte) {
    0x41 <= c <= 0x5A || 0x61 <= c <= 0x7A
  }

  /** A text in which no number goes on. */
  predicate EndsNumber(rest: bytes) {
    rest == [] || !(IsDigit(rest[0]) || rest[0] == DOT || IsLetter(rest[0]))
  }

  /** A lexeme the reader can have stored: it starts like a number, `strtod` takes all of it, and it is accepted.
      Besides the numbers of RFC 8259 these are forms such as `1.`, `-.5` and `-inf`. */
  predicate Readable(l: bytes) {
    l != [] && (l[0] == MINUS || IsDigit(l[0])) && StrtodLen(l) == |l| && Accepted(l)
  }

  lemma {:induction false} DigitsStop(s: bytes, rest: bytes)
    requires Digits(s) < |s| || rest == [] || !IsDigit(rest[0])
    ensures Digits(s + rest) == Digits(s)
  {
    if s == [] {
      assert s + rest == rest;
    } else if IsDigit(s[0]) {
      assert (s + rest)[1..] == s[1..] + rest;
      DigitsStop(s[1..], rest);
    }
  }

  lemma SplitOff(s: bytes, n: nat, rest: bytes)
    requires n <= |s|
    ensures (s + rest)[n..] == s[n..] + rest
  {
  }

  lemma FractionStop(u: bytes, rest: bytes)
    requires EndsNumber(rest)
    ensures FractionLen(u + rest) == FractionLen(u)
  {
    if u == [] {
      assert u + rest == rest;
    } else if u[0] == DOT {
      SplitOff(u, 1, rest);
      DigitsStop(u[1..], rest);
    }
  }

  lemma ExponentStop(e: bytes, rest: bytes)
    requires EndsNumber(rest) && ExponentLen(e) == |e|
    ensures ExponentLen(e + rest) == |e|
  {
    if e == [] {
      assert e + rest == rest;
    } else {
      var sign := if |e| > 1 && IsSign(e[1]) then 1 else 0;
      SplitOff(e, 1 + sign, rest);
      DigitsStop(e[1 + sign..], rest);
    }
  }

  lemma DecimalStop(t: bytes, rest: bytes)
    requires EndsNumber(rest) && t != [] && DecimalLen(t) == |t|
    ensures DecimalLen(t + rest) == |t|
  {
    var i, s := Digits(t), t + rest;
    DigitsStop(t, rest);
    SplitOff(t, i, rest);
    FractionStop(t[i..], rest);
    var f := FractionLen(t[i..]);
    SplitOff(t, i + f, rest);
    ExponentStop(t[i + f..], rest);
    hide Digits, FractionLen, ExponentLen, EndsNumber;
    assert Digits(s) == i && FractionLen(s[i..]) == f && ExponentLen(s[i + f..]) == |t| - i - f;
  }

  /** `strtod` takes exactly the lexeme of a JSON number printed before a delimiter. */
  lemma StrtodTakesNumber(l: bytes, rest: bytes)
    requires IsJsonNumber(l) && EndsNumber(rest)
    ensures StrtodLen(l + rest) == |l|
  {
    hide IsUnsigned, Digits, DecimalLen, StartsNoCase, EndsNumber;
    var sign := if l != [] && l[0] == MINUS then 1 else 0;
    var t := l[sign..];
    SplitOff(l, sign, rest);
    UnsignedStarts(t);
    assert t[0] == l[sign] && (l + rest)[0] == l[0];
    DecimalStop(t, rest);
    NotHex(t);
    NoOtherForm(t, rest);
  }

  lemma UnsignedStarts(t: bytes)
    requires IsUnsigned(t)
    ensures t != [] && IsDigit(t[0]) && DecimalLen(t) == |t|
  {
  }

  /** A leading zero is followed by a dot, an `e` or nothing. */
  lemma NotHex(t: bytes)
    requires IsUnsigned(t)
    ensures |t| > 1 ==> Lower(t[1]) != 0x78
  {
    var i := Digits(t);
    if |t| > 1 && i > 1 {
      assert Digits(t) == 1 + Digits(t[1..]);
      assert IsDigit(t[1..][0]);
    } else if |t| > 1 {
      var u, f := t[1..], FractionLen(t[i..]);
      assert t[i..] == u && u[0] == t[1];
      assert f == 0 ==> t[i + f..] == u;
    }
  }

  lemma NoOtherForm(t: bytes, rest: bytes)
    requires t != [] && IsDigit(t[0]) && EndsNumber(rest)
    requires |t| > 1 ==> Lower(t[1]) != 0x78
    ensures |t + rest| > 1 ==> Lower((t + rest)[1]) != 0x78
    ensures !StartsNoCase(t + rest, INF) && !StartsNoCase(t + rest, INFINITY) && !StartsNoCase(t + rest, NAN)
  {
    assert Lower((t + rest)[0]) == t[0];
    assert INF[0] == INFINITY[0] == 0x69 && NAN[0] == 0x6E;
  }

  /** `strtod` takes a lexeme it takes as a whole from in front of any delimiter, too. */
  lemma TakesLexeme(l: bytes, rest: bytes)
    requires l != [] && StrtodLen(l) == |l| && IsDecimal(l) && EndsNumber(rest)
    ensures StrtodLen(l + rest) == |l|
  {
    hide DecimalLen, StartsNoCase, IsDecimal, EndsNumber;
    var sign := if IsSign(l[0]) then 1 else 0;
    var t := l[sign..];
    SplitOff(l, sign, rest);
    NoHexMark(l, sign);
    if DecimalLen(t) == |t| && t != [] && !StartsNoCase(t, INF) && !StartsNoCase(t, NAN) {
      DecimalStop(t, rest);
      DecimalStart(t);
      TakesDecimal(t, rest);
    } else {
      TakesWord(t, rest);
    }
  }

  lemma NoHexMark(l: bytes, sign: nat)
    requires l != [] && IsDecimal(l) && sign == if IsSign(l[0]) then 1 else 0
    ensures var t := l[sign..]; |t| > 1 && t[0] == 0x30 ==> Lower(t[1]) != 0x78
  {
  }

  lemma DecimalStart(t: bytes)
    requires DecimalLen(t) > 0
    ensures IsDigit(t[0]) || t[0] == DOT
  {
  }

  lemma TakesDecimal(t: bytes, rest: bytes)
    requires t != [] && (IsDigit(t[0]) || t[0] == DOT) && EndsNumber(rest)
    requires |t| > 1 && t[0] == 0x30 ==> Lower(t[1]) != 0x78
    ensures |t + rest| > 1 && (t + rest)[0] == 0x30 ==> Lower((t + rest)[1]) != 0x78
    ensures !StartsNoCase(t + rest, INF) && !StartsNoCase(t + rest, INFINITY) && !StartsNoCase(t + rest, NAN)
  {
    assert Lower((t + rest)[0]) == t[0];
    assert INF[0] == INFINITY[0] == 0x69 && NAN[0] == 0x6E;
  }

  lemma TakesWord(t: bytes, rest: bytes)
    requires EndsNumber(rest)
    ensures StartsNoCase(t, INFINITY) ==> StartsNoCase(t + rest, INFINITY)
    ensures |t| == 3 && (StartsNoCase(t, INF) || StartsNoCase(t, NAN)) ==>
              (StartsNoCase(t + rest, INF) || StartsNoCase(t + rest, NAN)) && !StartsNoCase(t + rest, INFINITY)
    ensures StartsNoCase(t, INFINITY) || StartsNoCase(t, INF) || StartsNoCase(t, NAN) ==>
              |t| >= 3 && (t + rest)[0] == t[0] != 0x30
  {
    var s := t + rest;
    assert forall i :: 0 <= i < |t| ==> s[i] == t[i];
    assert |t| == 3 && |s| > 3 ==> s[3] == rest[0];
    assert INFINITY[3] == 0x69 && INF[0] == INFINITY[0] == 0x69 && NAN[0] == 0x6E;
  }

  lemma {:induction false} DigitsPrefix(s: bytes, n: nat)
    requires Digits(s) <= n <= |s|
    ensures Digits(s[..n]) == Digits(s)
    decreases |s|
  {
    if s != [] && IsDigit(s[0]) {
      assert s[..n][1..] == s[1..][..n - 1];
      DigitsPrefix(s[1..], n - 1);
    }
  }

  lemma FractionPrefix(u: bytes, n: nat)
    requires FractionLen(u) <= n <= |u|
    ensures FractionLen(u[..n]) == FractionLen(u)
  {
    if FractionLen(u) > 0 {
      assert u[..n][1..] == u[1..][..n - 1];
      DigitsPrefix(u[1..], n - 1);
    }
  }

  lemma ExponentPrefix(e: bytes)
    ensures ExponentLen(e[..ExponentLen(e)]) == ExponentLen(e)
  {
    var n := ExponentLen(e);
    if n > 0 {
      var k := 1 + if |e| > 1 && IsSign(e[1]) then 1 else 0;
      assert e[..n][k..] == e[k..][..n - k];
      DigitsPrefix(e[k..], n - k);
    }
  }

  lemma DecimalUnfolds(t: bytes, i: nat, f: nat)
    requires i == Digits(t) && f == FractionLen(t[i..])
    ensures DecimalLen(t) == if i == 0 && f <= 1 then 0 else i + f + ExponentLen(t[i + f..])
  {
  }

  /** What was taken of a decimal number is taken again as a whole. */
  lemma DecimalPrefix(t: bytes)
    ensures DecimalLen(t[..DecimalLen(t)]) == DecimalLen(t)
  {
    var n, i := DecimalLen(t), Digits(t);
    var f := FractionLen(t[i..]);
    DecimalUnfolds(t, i, f);
    hide *;
    if n > 0 {
      DigitsPrefix(t, n);
      FractionPrefix(t[i..], n - i);
      ExponentPrefix(t[i + f..]);
      DecimalParts(t, i, f, n);
      DecimalUnfolds(t[..n], i, f);
    } else {
      NoDecimal();
      assert t[..0] == [];
    }
  }

  lemma NoDecimal()
    ensures DecimalLen([]) == 0
  {
  }

  lemma DecimalParts(t: bytes, i: nat, f: nat, n: nat)
    requires i + f <= n <= |t|
    ensures t[..n][i..] == t[i..][..n - i] && t[..n][i + f..] == t[i + f..][..n - i - f]
  {
    SliceOfSlice(t, 0, n, i, n);
    assert t[0..n] == t[..n];
  }

  lemma WordTaken(l: bytes, sign: nat)
    requires l != [] && sign == if IsSign(l[0]) then 1 else 0
    requires var u := l[sign..];
             (|u| == 8 && StartsNoCase(u, INFINITY)) || (|u| == 3 && (StartsNoCase(u, INF) || StartsNoCase(u, NAN)))
    ensures StrtodLen(l) == |l|
  {
    hide DecimalLen;
    assert INF[0] == INFINITY[0] == 0x69 && NAN[0] == 0x6E;
    assert Lower(l[sign..][0]) != 0x30;
  }

  lemma DecimalTaken(l: bytes, sign: nat)
    requires l != [] && IsDecimal(l) && sign == if IsSign(l[0]) then 1 else 0
    requires DecimalLen(l[sign..]) == |l[sign..]| > 0
    ensures StrtodLen(l) == |l|
  {
    var u := l[sign..];
    DecimalStart(u);
    NoHexMark(l, sign);
    TakesDecimal(u, []);
    assert u + [] == u;
  }

  /** The forms `strtod` takes. */
  lemma StrtodForms(s: bytes)
    requires s != []
    ensures var sign, n := if IsSign(s[0]) then 1 else 0, StrtodLen(s);
            var t := s[sign..];
            || n == 0
            || (n == sign + 2 && |t| > 2 && t[0] == 0x30 && Lower(t[1]) == 0x78)
            || (n == sign + 8 && StartsNoCase(t, INFINITY))
            || (n == sign + 3 && (StartsNoCase(t, INF) || StartsNoCase(t, NAN)))
            || (n == sign + DecimalLen(t) && DecimalLen(t) > 0)
  {
    hide DecimalLen;
  }

  /** The reader stores readable lexemes, and the empty one for a minus sign that starts no number. */
  lemma StoredIsReadable(s: bytes)
    requires s != [] && (s[0] == MINUS || IsDigit(s[0])) && Accepted(s[..StrtodLen(s)])
    ensures var l := s[..StrtodLen(s)]; if l == [] then s[0] == MINUS else Readable(l)
  {
    hide StrtodLen, DecimalLen, StartsNoCase, IsDecimal, Overflows;
    var n := StrtodLen(s);
    DigitIsTaken(s);
    if n > 0 {
      var l, sign := s[..n], if IsSign(s[0]) then 1 else 0;
      var t, u := s[sign..], l[sign..];
      StrtodForms(s);
      NoHexMark(l, sign);
      assert u == t[..n - sign] && l[0] == s[0];
      LexemeForms(t, u);
      if DecimalLen(u) == |u| && u != [] {
        DecimalTaken(l, sign);
      } else {
        WordTaken(l, sign);
      }
    }
  }

  /** The part that was taken has the form for which it was taken. */
  lemma LexemeForms(t: bytes, u: bytes)
    requires u <= t && (|u| > 1 && u[0] == 0x30 ==> Lower(u[1]) != 0x78)
    requires || (|u| == 2 && t[0] == 0x30 && Lower(t[1]) == 0x78)
             || (|u| == 8 && StartsNoCase(t, INFINITY))
             || (|u| == 3 && (StartsNoCase(t, INF) || StartsNoCase(t, NAN)))
             || (|u| == DecimalLen(t) && DecimalLen(t) > 0)
    ensures || (|u| == 8 && StartsNoCase(u, INFINITY)) || (|u| == 3 && (StartsNoCase(u, INF) || StartsNoCase(u, NAN)))
            || (DecimalLen(u) == |u| && u != [])
  {
    assert t[..|u|] == u;
    DecimalPrefix(t);
    WordPrefix(t);
    hide DecimalLen, StartsNoCase;
  }

  lemma DigitIsTaken(s: bytes)
    requires s != []
    ensures IsDigit(s[0]) ==> StrtodLen(s) > 0
  {
    assert IsDigit(s[0]) ==> Digits(s) > 0;
  }

  /** A minus sign behind which no number starts: no digit, no dot and digit, and neither `inf` nor `nan`. */
  predicate LoneMinus(t: bytes) {
    && t != [] && t[0] == MINUS
    && !(|t| > 1 && IsDigit(t[1]))
    && !(|t| > 2 && t[1] == DOT && IsDigit(t[2]))
    && !StartsNoCase(t[1..], [0x69, 0x6E, 0x66]) && !StartsNoCase(t[1..], [0x6E, 0x61, 0x6E])
  }

  /** `strtod` takes nothing exactly of a text that starts with such a minus sign. */
  lemma NothingTakenIff(t: bytes)
    requires t != [] && (t[0] == MINUS || IsDigit(t[0]))
    ensures StrtodLen(t) == 0 <==> LoneMinus(t)
  {
    DigitIsTaken(t);
    if t[0] == MINUS {
      DecimalTakenIff(t[1..]);
      assert StartsNoCase(t[1..], INFINITY) ==> StartsNoCase(t[1..], INF);
    }
    hide DecimalLen, StartsNoCase;
  }

  lemma DecimalTakenIff(u: bytes)
    ensures DecimalLen(u) > 0 <==> (u != [] && IsDigit(u[0])) || (|u| > 1 && u[0] == DOT && IsDigit(u[1]))
  {
    assert Digits(u) == 0 ==> u[0..] == u;
  }

  lemma WordPrefix(t: bytes)
    ensures StartsNoCase(t, INFINITY) ==> StartsNoCase(t[..8], INFINITY)
    ensures StartsNoCase(t, INF) ==> StartsNoCase(t[..3], INF)
    ensures StartsNoCase(t, NAN) ==> StartsNoCase(t[..3], NAN)
  {
  }

  lemma JsonNumberIsReadable(l: bytes)
    requires IsJsonNumber(l) && Accepted(l)
    ensures Readable(l)
  {
    StrtodTakesNumber(l, []);
    assert l + [] == l;
    assert l[0] == MINUS || (l[0..] == l && IsDigit(l[0]));
  }
}
