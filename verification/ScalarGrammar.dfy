/** The scalars of an object tail that are not strings, by the texts they are written with. */
module ScalarGrammar {
  import opened Decimal
  import opened TextTrim
  import opened ObjectTail

  /** A decimal number, part by part; no exponent has no mark. */
  datatype Number = Number(sign: string, whole: string, point: bool, fraction: string,
                           mark: string, markSign: string, power: string)

  predicate IsSign(s: string) {
    s == "" || s == "+" || s == "-"
  }

  /** A point may stand at either end of the digits, but not alone, and an exponent
    * has digits.
    */
  predicate NumberOk(n: Number) {
    && IsSign(n.sign) && AllDigits(n.whole) && AllDigits(n.fraction)
    && (n.whole != "" || n.fraction != "") && (n.fraction != "" ==> n.point)
    && if n.mark == "" then n.markSign == "" && n.power == ""
       else (n.mark == "e" || n.mark == "E") && IsSign(n.markSign) && n.power != "" && AllDigits(n.power)
  }

  function Exponent(n: Number): string {
    n.mark + (n.markSign + n.power)
  }

  function Unsigned(n: Number): string {
    n.whole + (if n.point then "." + (n.fraction + Exponent(n)) else Exponent(n))
  }

  function NumberText(n: Number): string {
    n.sign + Unsigned(n)
  }

  // ----- runs and signs

  lemma {:induction false} RunIs(digits: string, rest: string)
    requires AllDigits(digits) && (rest == "" || !IsDigit(rest[0]))
    ensures DigitRun(digits + rest) == |digits|
  {
    if digits == "" {
      assert "" + rest == rest;
    } else {
      assert (digits + rest)[1..] == digits[1..] + rest;
      RunIs(digits[1..], rest);
    }
  }

  lemma {:induction false} RunEnds(s: string)
    ensures var n := DigitRun(s); n < |s| ==> !IsDigit(s[n])
  {
    if s != "" && IsDigit(s[0]) {
      RunEnds(s[1..]);
    }
  }

  lemma SignDropped(sign: string, rest: string)
    requires IsSign(sign) && (rest != "" ==> rest[0] != '+' && rest[0] != '-')
    ensures DropSign(sign + rest) == rest
  {
    if sign == "" {
      assert sign + rest == rest;
    } else {
      assert (sign + rest)[1..] == rest;
    }
  }

  lemma SignBefore(s: string) returns (sign: string)
    ensures IsSign(sign) && s == sign + DropSign(s)
  {
    sign := s[..|s| - |DropSign(s)|];
  }

  // ----- numbers

  lemma ExponentReads(n: Number)
    requires NumberOk(n)
    ensures IsExponent(Exponent(n))
    ensures Exponent(n) != "" ==> Exponent(n)[0] == 'e' || Exponent(n)[0] == 'E'
  {
    if n.mark != "" {
      assert Exponent(n)[1..] == n.markSign + n.power;
      assert IsDigit(n.power[0]);
      SignDropped(n.markSign, n.power);
    }
  }

  lemma UnsignedReads(n: Number)
    requires NumberOk(n)
    ensures IsDecimal(Unsigned(n))
    ensures var u := Unsigned(n); u != "" && (IsDigit(u[0]) || u[0] == '.')
  {
    ExponentReads(n);
    hide IsExponent, Exponent, DigitRun, IsDecimal;
    if n.point {
      PointReads(n.whole, n.fraction, Exponent(n));
    } else {
      PlainReads(n.whole, Exponent(n));
    }
  }

  lemma PointReads(whole: string, fraction: string, e: string)
    requires AllDigits(whole) && AllDigits(fraction) && (whole != "" || fraction != "")
    requires IsExponent(e) && (e != "" ==> e[0] == 'e' || e[0] == 'E')
    ensures var u := whole + ("." + (fraction + e)); IsDecimal(u) && (IsDigit(u[0]) || u[0] == '.')
  {
    var after := "." + (fraction + e);
    RunIs(whole, after);
    assert (whole + after)[|whole|..] == after && after[1..] == fraction + e;
    RunIs(fraction, e);
    assert after[1 + |fraction|..] == e;
    hide IsExponent, DigitRun;
  }

  lemma PlainReads(whole: string, e: string)
    requires AllDigits(whole) && whole != ""
    requires IsExponent(e) && (e != "" ==> e[0] == 'e' || e[0] == 'E')
    ensures var u := whole + e; IsDecimal(u) && IsDigit(u[0])
  {
    RunIs(whole, e);
    assert (whole + e)[|whole|..] == e;
    hide IsExponent, DigitRun;
  }

  /** Every number is accepted. */
  lemma NumberReads(n: Number)
    requires NumberOk(n)
    ensures IsScalarLiteral(NumberText(n))
  {
    UnsignedReads(n);
    hide IsDecimal, Unsigned, LowerAll;
    SignDropped(n.sign, Unsigned(n));
  }

  lemma ExponentWritten(s: string) returns (mark: string, markSign: string, power: string)
    requires IsExponent(s)
    ensures s == mark + (markSign + power)
    ensures if mark == "" then markSign == "" && power == ""
            else (mark == "e" || mark == "E") && IsSign(markSign) && power != "" && AllDigits(power)
  {
    if s == "" {
      mark, markSign, power := "", "", "";
    } else {
      mark, power := s[..1], DropSign(s[1..]);
      markSign := SignBefore(s[1..]);
      assert s == s[..1] + s[1..];
    }
  }

  lemma DecimalWritten(s: string, sign: string) returns (n: Number)
    requires IsDecimal(s) && IsSign(sign)
    ensures NumberOk(n) && n.sign == sign && Unsigned(n) == s
  {
    hide *;
    var k := DigitRun(s);
    DecimalParts(s);
    n := FromParts(sign, s[..k], s[k..]);
    assert s == s[..k] + s[k..];
  }

  lemma DecimalParts(s: string)
    ensures IsDecimal(s) <==> PartsOk(DigitRun(s), s[DigitRun(s)..])
  {
    hide DigitRun, IsExponent;
  }

  /** What `IsDecimal` asks of the text after the first `n` digits. */
  predicate PartsOk(n: nat, rest: string) {
    if rest != "" && rest[0] == '.' then
      n + DigitRun(rest[1..]) > 0 && IsExponent(rest[1 + DigitRun(rest[1..])..])
    else n > 0 && IsExponent(rest)
  }

  lemma FromParts(sign: string, whole: string, rest: string) returns (n: Number)
    requires IsSign(sign) && AllDigits(whole) && PartsOk(|whole|, rest)
    ensures NumberOk(n) && n.sign == sign && Unsigned(n) == whole + rest
  {
    hide IsSign, AllDigits, DigitRun, IsExponent, NumberOk, Unsigned;
    if rest != "" && rest[0] == '.' {
      var fraction, e := PointWritten(rest);
      n := Assembled(sign, whole, true, fraction, e);
    } else {
      NoDigits();
      n := Assembled(sign, whole, false, "", rest);
    }
  }

  lemma NoDigits()
    ensures AllDigits("")
  {
  }

  lemma PointWritten(rest: string) returns (fraction: string, e: string)
    requires rest != "" && rest[0] == '.' && IsExponent(rest[1 + DigitRun(rest[1..])..])
    ensures AllDigits(fraction) && |fraction| == DigitRun(rest[1..]) && IsExponent(e)
    ensures rest == "." + (fraction + e)
  {
    hide *;
    var t := rest[1..];
    var m := DigitRun(t);
    fraction, e := t[..m], t[m..];
    assert t[m..] == rest[1 + m..];
    assert rest == "." + t && t == fraction + e;
  }

  lemma Assembled(sign: string, whole: string, point: bool, fraction: string, e: string) returns (n: Number)
    requires IsSign(sign) && AllDigits(whole) && AllDigits(fraction) && IsExponent(e)
    requires (whole != "" || fraction != "") && (fraction != "" ==> point)
    ensures NumberOk(n) && n.sign == sign && Unsigned(n) == whole + (if point then "." + (fraction + e) else e)
  {
    var mark, markSign, power := ExponentWritten(e);
    n := Number(sign, whole, point, fraction, mark, markSign, power);
  }

  // ----- words

  /** Infinity and not-a-number in any case, with or without a sign. */
  predicate IsWord(s: string) {
    LowerAll(s) in {"inf", "+inf", "-inf", "infinity", "+infinity", "-infinity", "nan", "+nan", "-nan"}
  }

  lemma SameSigned(s: string, word: string)
    requires word != "" && word[0] != '+' && word[0] != '-'
    ensures LowerAll(DropSign(s)) == word <==> LowerAll(s) == word || LowerAll(s) == "+" + word || LowerAll(s) == "-" + word
  {
    if s == "" {
    } else {
      assert LowerAll(s)[0] == Lower(s[0]);
      assert s == [s[0]] + s[1..];
      assert LowerAll(s) == [Lower(s[0])] + LowerAll(s[1..]);
      assert LowerAll(s)[1..] == LowerAll(s[1..]);
      assert ("+" + word)[1..] == word && ("-" + word)[1..] == word;
      assert Lower(s[0]) == '+' <==> s[0] == '+';
      assert Lower(s[0]) == '-' <==> s[0] == '-';
      hide LowerAll, Lower;
    }
  }

  lemma WordExactly(s: string)
    ensures LowerAll(DropSign(s)) in {"inf", "infinity", "nan"} <==> IsWord(s)
  {
    hide LowerAll, DropSign;
    SameSigned(s, "inf");
    SameSigned(s, "infinity");
    SameSigned(s, "nan");
    assert "+" + "inf" == "+inf" && "-" + "inf" == "-inf" && "+" + "nan" == "+nan" && "-" + "nan" == "-nan";
    assert "+" + "infinity" == "+infinity" && "-" + "infinity" == "-infinity";
  }

  /** The scalars accepted: three words of JSON, what stands for no finite number,
    * and the decimal numbers.
    */
  lemma ScalarExactly(s: string)
    ensures IsScalarLiteral(s)
       <==> s in {"true", "false", "null"} || IsWord(s) || exists n :: NumberOk(n) && NumberText(n) == s
  {
    WordExactly(s);
    hide LowerAll, IsWord, DropSign, NumberOk, NumberText, IsDecimal;
    if IsDecimal(DropSign(s)) {
      var n := SignedWritten(s);
      assert NumberOk(n) && NumberText(n) == s;
    }
    forall n | NumberOk(n) && NumberText(n) == s ensures IsScalarLiteral(s) {
      NumberReads(n);
    }
    WordNotEmpty(s);
  }

  lemma SignedWritten(s: string) returns (n: Number)
    requires IsDecimal(DropSign(s))
    ensures NumberOk(n) && NumberText(n) == s
  {
    hide IsDecimal, DropSign, Unsigned;
    var sign := SignBefore(s);
    n := DecimalWritten(DropSign(s), sign);
  }

  lemma WordNotEmpty(s: string)
    ensures IsWord(s) ==> s != ""
    ensures IsDecimal(DropSign(s)) ==> s != ""
  {
    if s == "" {
      assert LowerAll(s) == "" && DropSign(s) == "" && DigitRun("") == 0;
    }
  }
}
