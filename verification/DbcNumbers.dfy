/**
 What the numbers of a DBC text are worth, digit by digit, and which texts the token parsers accept
 (src/can_handler/dbc_handler/dbc_parser.cpp:680-796).
 */
module DbcNumbers {
  import opened CanTypes
  import opened DbcText
  import opened DbcPrinter

  /** What a digit is worth. */
  function Digit(c: char): nat
    requires IsDigit(c)
  {
    c as int - '0' as int
  }

  lemma DigitsAreTen()
    ensures forall c :: IsDigit(c) <==> c in "0123456789"
    ensures Digit('0') == 0 && Digit('1') == 1 && Digit('2') == 2 && Digit('3') == 3 && Digit('4') == 4
    ensures Digit('5') == 5 && Digit('6') == 6 && Digit('7') == 7 && Digit('8') == 8 && Digit('9') == 9
  {
  }

  /** A further digit makes a whole number ten times as large and adds itself. */
  lemma WholeDigit(s: string, c: char)
    requires IsDigit(c) && (s == "" || IsDigits(s))
    ensures IsDigits(s + [c]) && DigitsValue(s + [c]) == 10 * DigitsValue(s) + Digit(c)
    ensures DigitsValue("") == 0
  {
    assert (s + [c])[..|s|] == s;
  }

  /** A number is printed as its digits. */
  lemma DecimalByDigits(n: nat, d: nat)
    requires d < 10
    ensures Decimal(d) == ["0123456789"[d]]
    ensures n > 0 ==> Decimal(10 * n + d) == Decimal(n) + ["0123456789"[d]]
  {
  }

  /** A decimal without a sign. */
  function Text(whole: string, fraction: string): string {
    if fraction == "" then whole else whole + ("." + fraction)
  }

  function ZeroDigits(k: nat): string {
    if k == 0 then "" else "0" + ZeroDigits(k - 1)
  }

  /** 0.1, 0.01, 0.001 and so on: a one behind k zeros. */
  function Place(k: nat): string {
    "0." + (ZeroDigits(k) + "1")
  }

  lemma {:induction false} ZerosAreDigits(k: nat)
    ensures |ZeroDigits(k)| == k && IsDigits(ZeroDigits(k) + "1") && DigitsValue(ZeroDigits(k) + "1") == 1
    decreases k
  {
    if k == 0 {
      WholeDigit("", '1');
      assert "" + "1" == "1";
    } else {
      ZerosAreDigits(k - 1);
      LeadingZero(ZeroDigits(k - 1) + "1");
      assert ZeroDigits(k) + "1" == "0" + (ZeroDigits(k - 1) + "1");
    }
  }

  lemma {:induction false} LeadingZero(s: string)
    requires IsDigits(s)
    ensures IsDigits("0" + s) && DigitsValue("0" + s) == DigitsValue(s)
    decreases |s|
  {
    var n := |s| - 1;
    assert ("0" + s)[..n + 1] == "0" + s[..n] && ("0" + s)[n + 1] == s[n];
    if n > 0 {
      LeadingZero(s[..n]);
    } else {
      assert s[..0] == "" && "0" + s[..0] == "0" && "0"[..0] == "";
    }
  }

  lemma TextReads(whole: string, fraction: string)
    requires IsDigits(whole) && (fraction == "" || IsDigits(fraction))
    ensures var d := DecimalText("", whole, fraction);
            IsDecimalText(d) && Text(whole, fraction) == DecimalString(d)
            && IsDecimal(Text(whole, fraction)) && DecimalValue(Text(whole, fraction)) == Value(d)
  {
    hide IsDecimal, DecimalValue, Value;
    var d := DecimalText("", whole, fraction);
    DecimalStringReads(d);
    assert DecimalString(d) == Text(whole, fraction);
  }

  lemma PlaceReads(k: nat)
    ensures IsDecimal(Place(k)) && DecimalValue(Place(k)) * Pow10(k + 1) == 1.0
  {
    hide IsDecimal, DecimalValue, DigitsValue;
    ZerosAreDigits(k);
    WholeDigit("", '0');
    assert "" + ['0'] == "0" && DigitsValue("0") == 0;
    TextReads("0", ZeroDigits(k) + "1");
    assert Place(k) == Text("0", ZeroDigits(k) + "1");
  }

  predicate ReadsAs(s: string, v: real) {
    IsDecimal(s) && DecimalValue(s) == v
  }

  /** The place values: each is a tenth of the one before it. */
  lemma PlacesAreTenths(k: nat) returns (v: real)
    ensures ReadsAs(Place(k), v) && ReadsAs(Place(k + 1), v / 10.0)
    ensures k == 0 ==> Place(k) == "0.1" && v == 0.1
  {
    hide IsDecimal, DecimalValue;
    PlaceReads(k);
    PlaceReads(k + 1);
    v := DecimalValue(Place(k));
    TenthOf(v, DecimalValue(Place(k + 1)), Pow10(k + 1));
  }

  lemma OneIsOne()
    ensures ReadsAs("1", 1.0)
  {
    hide IsDecimal, DecimalValue;
    WholeDigit("", '1');
    assert "" + ['1'] == "1";
    TextReads("1", "");
  }

  lemma TenthOf(a: real, b: real, p: real)
    requires p > 0.0 && a * p == 1.0 && b * (10.0 * p) == 1.0
    ensures 10.0 * b == a
  {
    assert (10.0 * b - a) * p == 0.0;
  }

  /** A further digit behind the point adds that digit times its place value. */
  lemma FractionDigit(whole: string, fraction: string, c: char)
    requires IsDigits(whole) && (fraction == "" || IsDigits(fraction)) && IsDigit(c)
    ensures IsDecimal(Text(whole, fraction)) && IsDecimal(Text(whole, fraction + [c])) && IsDecimal(Place(|fraction|))
    ensures DecimalValue(Text(whole, fraction + [c]))
            == DecimalValue(Text(whole, fraction)) + Digit(c) as real * DecimalValue(Place(|fraction|))
  {
    hide IsDecimal, DecimalValue, DigitsValue;
    PlaceReads(|fraction|);
    WholeDigit(fraction, c);
    TextReads(whole, fraction);
    TextReads(whole, fraction + [c]);
    var k := |fraction|;
    Rescaled(DigitsValue(fraction) as real, Digit(c) as real, Pow10(k), DecimalValue(Place(k)));
    if fraction == "" { assert DigitsValue(fraction) == 0; }
  }

  lemma Rescaled(n: real, c: real, p: real, place: real)
    requires p > 0.0 && place * (10.0 * p) == 1.0
    ensures (10.0 * n + c) / (10.0 * p) == n / p + c * place
  {
    assert place == 1.0 / (10.0 * p);
  }

  /** A whole number is worth its digits, and a sign turns or keeps the value. */
  lemma SignedDecimal(whole: string, fraction: string) returns (v: real)
    requires IsDigits(whole) && (fraction == "" || IsDigits(fraction))
    ensures ReadsAs(Text(whole, fraction), v)
    ensures ReadsAs("-" + Text(whole, fraction), -v) && ReadsAs("+" + Text(whole, fraction), v)
    ensures fraction == "" ==> v == DigitsValue(whole) as real
  {
    hide IsDecimal, DecimalValue, DigitsValue;
    TextReads(whole, fraction);
    v := DecimalValue(Text(whole, fraction));
    var minus, plus := DecimalText("-", whole, fraction), DecimalText("+", whole, fraction);
    DecimalStringReads(minus);
    DecimalStringReads(plus);
    assert DecimalString(minus) == "-" + Text(whole, fraction) && DecimalString(plus) == "+" + Text(whole, fraction);
  }

  // ----- Which texts are accepted

  /** Spaces, digits, and the characters of words, by their codes. */
  lemma SpacesAreSix()
    ensures forall c :: IsSpace(c) <==> c as int in {9, 10, 11, 12, 13, 32}
    ensures forall c :: IsDigit(c) <==> 48 <= c as int <= 57
    ensures forall c :: IsWordChar(c) <==> 48 <= c as int <= 57 || 65 <= c as int <= 90 || 97 <= c as int <= 122
                                           || c as int == 95
  {
  }

  /** Leading spaces are dropped, and nothing else. */
  lemma {:induction false} SpacesAreErased(spaces: string, rest: string)
    requires forall i | 0 <= i < |spaces| :: IsSpace(spaces[i])
    requires rest == "" || !IsSpace(rest[0])
    ensures EraseSpaces(spaces + rest) == rest
    decreases |spaces|
  {
    if spaces == "" {
      assert spaces + rest == rest;
    } else {
      assert (spaces + rest)[1..] == spaces[1..] + rest;
      SpacesAreErased(spaces[1..], rest);
    }
  }

  /** The text up to the first stop character is the token. */
  lemma {:induction false} FirstStop(s: string, stops: string, k: nat)
    requires k < |s| && s[k] in stops && forall i | 0 <= i < k :: s[i] !in stops
    ensures IndexOf(s, stops) == k
    decreases k
  {
    if k > 0 { FirstStop(s[1..], stops, k - 1); }
  }

  /** An identifier is accepted exactly if a word stands in front of one of its separators. */
  lemma WordsAccepted(st: St)
    ensures var f := EraseSpaces(st.file);
            Identifier(st).0.valid <==> exists k :: 0 <= k < |f| && IsWord(f[..k]) && f[k] in " :;,"
  {
    hide EraseSpaces, IndexOf;
    var f := EraseSpaces(st.file);
    if k :| 0 <= k < |f| && IsWord(f[..k]) && f[k] in " :;," {
      forall i | 0 <= i < k
        ensures f[i] !in " :;,"
      {
        assert f[i] == f[..k][i] && IsWordChar(f[..k][i]);
      }
      FirstStop(f, " :;,", k);
    }
  }

  /** A number is accepted exactly if digits that fit an int stand in front of one of its separators. */
  lemma NumbersAccepted(st: St)
    ensures var f := EraseSpaces(st.file);
            UInt(st).0.valid <==>
              exists k :: 0 <= k < |f| && IsDigits(f[..k]) && f[k] in " :;,|]+-@)" && DigitsValue(f[..k]) < 0x8000_0000
  {
    hide EraseSpaces, IndexOf, DigitsValue;
    var f := EraseSpaces(st.file);
    if k :| 0 <= k < |f| && IsDigits(f[..k]) && f[k] in " :;,|]+-@)" && DigitsValue(f[..k]) < 0x8000_0000 {
      forall i | 0 <= i < k
        ensures f[i] !in " :;,|]+-@)"
      {
        assert f[i] == f[..k][i] && IsDigit(f[..k][i]);
      }
      FirstStop(f, " :;,|]+-@)", k);
    }
  }

  /** A text is accepted exactly if it starts with a quote that is closed. */
  lemma QuotesAccepted(st: St)
    ensures var f := EraseSpaces(st.file);
            Quoted(st).0.valid <==> |f| > 0 && f[0] == '"' && exists k :: 1 <= k < |f| && f[k] == '"'
  {
    hide EraseSpaces, IndexOf;
    var f := EraseSpaces(st.file);
    if |f| > 0 && f[0] == '"' && exists k :: 1 <= k < |f| && f[k] == '"' {
      var k :| 1 <= k < |f| && f[k] == '"';
      assert f[1..][k - 1] == '"';
    }
  }
}
