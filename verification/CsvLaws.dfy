/**
 What CSV texts mean, character by character: digits, decimals, bytes and columns
 (src/can_stream/reader/csv_reader.cpp:23-63, 185-255, src/can_stream/writer/csv_writer.cpp:42-86).
 */
module CsvLaws {
  import opened Bits
  import opened CanTypes
  import opened CsvText
  import opened CsvFiles
  import opened CsvRoundTrip

  // ----- Digits

  /** The digits 0 to 9, and the letters A to Z or a to z for 10 to 35, by their codes. */
  predicate IsDigit(c: char, v: nat) {
    (v < 10 && c as int == 48 + v) || (10 <= v < 36 && (c as int == 55 + v || c as int == 87 + v))
  }

  lemma DigitsAreRead(c: char, base: nat, v: nat)
    requires base <= 36
    ensures DigitValue(c, base) == Some(v) <==> v < base && IsDigit(c, v)
  {
  }

  lemma DigitsArePrinted(d: nat)
    requires d < 16
    ensures IsDigit(DigitChar(d), d) && DigitChar(d) as int < 97
  {
  }

  /** The digit of the given weight. */
  predicate HasDigit(s: string, n: nat, base: nat, k: nat)
    requires base > 0 && k < |s|
  {
    Power(base, k) > 0 && n / Power(base, k) % base < 16 && s[|s| - 1 - k] == DigitChar(n / Power(base, k) % base)
  }

  /** Every digit of a numeral; the first is not 0 unless the number is. */
  lemma {:induction false} NumeralByDigits(n: nat, base: nat)
    requires 2 <= base <= 16
    ensures var s := Numeral(n, base);
            && n < Power(base, |s|) && (forall k | 0 <= k < |s| :: HasDigit(s, n, base, k)) && (n > 0 ==> s[0] != '0')
    decreases n
  {
    hide DigitChar, Power, HasDigit, Numeral;
    NumeralStep(n, base);
    if n < base {
      OnlyDigit(n, base);
    } else {
      NumeralByDigits(n / base, base);
      NumeralGrows(n, base, Numeral(n / base, base));
    }
  }

  lemma NumeralStep(n: nat, base: nat)
    requires 2 <= base <= 16
    ensures n < base ==> Numeral(n, base) == [DigitChar(n)]
    ensures n >= base ==> n / base > 0 && Numeral(n, base) == Numeral(n / base, base) + [DigitChar(n % base)]
  {
  }

  lemma OnlyDigit(n: nat, base: nat)
    requires 2 <= base <= 16 && n < base
    ensures n < Power(base, 1) && HasDigit([DigitChar(n)], n, base, 0) && (n > 0 ==> DigitChar(n) != '0')
  {
    hide HasDigit;
    LastDigit([DigitChar(n)], n, base);
  }

  lemma NumeralGrows(n: nat, base: nat, t: string)
    requires 2 <= base <= 16 && n >= base && t != "" && n / base < Power(base, |t|)
    requires forall k | 0 <= k < |t| :: HasDigit(t, n / base, base, k)
    ensures var s := t + [DigitChar(n % base)];
            n < Power(base, |s|) && forall k | 0 <= k < |s| :: HasDigit(s, n, base, k)
  {
    hide DigitChar, Power, HasDigit;
    var s := t + [DigitChar(n % base)];
    NextPower(base, |t|);
    DivideBack(n, base, Power(base, |t|));
    forall k | 0 <= k < |s|
      ensures HasDigit(s, n, base, k)
    {
      if k == 0 { LastDigit(s, n, base); } else { HigherDigit(s, t, n, base, k); }
    }
  }

  lemma LastDigit(s: string, n: nat, base: nat)
    requires 2 <= base <= 16 && s != "" && s[|s| - 1] == DigitChar(n % base)
    ensures HasDigit(s, n, base, 0)
  {
    hide DigitChar;
  }

  lemma HigherDigit(s: string, t: string, n: nat, base: nat, k: nat)
    requires 2 <= base <= 16 && 0 < k <= |t| && s == t + [DigitChar(n % base)] && HasDigit(t, n / base, base, k - 1)
    ensures HasDigit(s, n, base, k)
  {
    hide DigitChar, Power;
    NextPower(base, k - 1);
    DivideTwice(n, base, Power(base, k - 1));
    assert s[|s| - 1 - k] == t[|t| - 1 - (k - 1)];
  }

  lemma NextPower(base: nat, k: nat)
    ensures Power(base, k + 1) == base * Power(base, k)
  {
  }

  lemma DivideBack(n: nat, d: nat, q: nat)
    requires d > 0 && n / d < q
    ensures n < d * q
  {
    DistanceOfMultiples(q, n / d, d);
  }

  lemma {:induction false} PowerIsPositive(base: nat, k: nat)
    requires base > 0
    ensures Power(base, k) > 0
  {
    if k > 0 { PowerIsPositive(base, k - 1); }
  }

  /** Padding puts zeros in front, up to the width. */
  lemma {:induction false} PaddedByDigits(s: string, width: nat)
    ensures var p := Padded(s, width);
            && |p| == (if |s| < width then width else |s|) && p[|p| - |s|..] == s
            && forall i | 0 <= i < |p| - |s| :: p[i] == '0'
    decreases width - |s|
  {
    if |s| < width {
      var t, p := "0" + s, Padded(s, width);
      assert p == Padded(t, width);
      hide Padded;
      PaddedByDigits(t, width);
      ZeroInFront(p, s);
    }
  }

  lemma ZeroInFront(p: string, s: string)
    requires |p| > |s| && p[|p| - |s| - 1..] == "0" + s
    ensures p[|p| - |s|..] == s && p[|p| - |s| - 1] == '0'
  {
    var t := p[|p| - |s| - 1..];
    assert t[0] == '0' && t[1..] == s;
  }

  /** Every digit of a padded numeral. */
  lemma PaddedDigit(n: nat, base: nat, width: nat, k: nat)
    requires 2 <= base <= 16 && k < |Padded(Numeral(n, base), width)|
    ensures HasDigit(Padded(Numeral(n, base), width), n, base, k)
  {
    hide DigitChar, Numeral, Padded, Power, HasDigit;
    var digits := Numeral(n, base);
    var p := Padded(digits, width);
    NumeralByDigits(n, base);
    PaddedByDigits(digits, width);
    if k < |digits| {
      assert p[|p| - |digits|..][|digits| - 1 - k] == digits[|digits| - 1 - k];
      SameDigit(digits, p, n, base, k);
    } else {
      PowerGrows(base, |digits|, k);
      ZeroDigit(p, n, base, k);
    }
  }

  lemma SameDigit(s: string, t: string, n: nat, base: nat, k: nat)
    requires base > 0 && k < |s| && k < |t| && HasDigit(s, n, base, k) && t[|t| - 1 - k] == s[|s| - 1 - k]
    ensures HasDigit(t, n, base, k)
  {
    hide DigitChar, Power;
  }

  lemma ZeroDigit(s: string, n: nat, base: nat, k: nat)
    requires base > 0 && k < |s| && s[|s| - 1 - k] == '0' && n < Power(base, k)
    ensures HasDigit(s, n, base, k)
  {
    hide Power;
    assert n / Power(base, k) == 0;
  }

  // ----- Reading numbers

  /** A digit behind a text is worth one, and what stands in front of n digits base to the n times as much. */
  lemma {:induction false} DigitsWeigh(a: string, b: string, base: nat)
    requires 2 <= base <= 16 && AllDigits(a, base) && AllDigits(b, base)
    ensures AllDigits(a + b, base) && ValueOf(a + b, base) == ValueOf(a, base) * Power(base, |b|) + ValueOf(b, base)
    ensures |b| == 1 ==> IsDigit(b[0], ValueOf(b, base))
    decreases |b|
  {
    hide DigitValue;
    if b == "" {
      assert a + b == a;
    } else {
      var init, last := b[..|b| - 1], b[|b| - 1];
      DigitsWeigh(a, init, base);
      assert (a + b)[..|a + b| - 1] == a + init;
      var d := DigitValue(last, base).value;
      assert ValueOf(a + b, base) == base * ValueOf(a + init, base) + d;
      assert ValueOf(b, base) == base * ValueOf(init, base) + d;
      Distribute(base, ValueOf(a, base), Power(base, |init|), ValueOf(init, base));
      if |b| == 1 { DigitsAreRead(last, base, d); }
    }
  }

  lemma Distribute(base: nat, v: nat, p: nat, w: nat)
    ensures base * (v * p + w) == v * (base * p) + base * w
  {
  }

  /** A number is read up to the first character that is no digit; one that is too large reads as 0. */
  lemma {:induction false} NumberEnds(s: string, n: nat, base: nat, max: nat)
    requires n <= |s| && AllDigits(s[..n], base) && (n < |s| ==> DigitValue(s[n], base).None?)
    ensures FromChars(s, base, max) == if ValueOf(s[..n], base) <= max then ValueOf(s[..n], base) else 0
  {
    LeadingIs(s, n, base);
  }

  lemma {:induction false} LeadingIs(s: string, n: nat, base: nat)
    requires n <= |s| && AllDigits(s[..n], base) && (n < |s| ==> DigitValue(s[n], base).None?)
    ensures Leading(s, base) == n
    decreases n
  {
    hide DigitValue;
    if n > 0 {
      assert DigitValue(s[..n][0], base).Some?;
      assert s[1..][..n - 1] == s[..n][1..];
      LeadingIs(s[1..], n - 1, base);
    }
  }

  // ----- Times

  /** Nine decimals are nanoseconds; fewer are scaled up, and those behind the ninth are cut off. */
  lemma {:induction false} DecimalsScale(x: nat, length: nat)
    ensures length <= 9 ==> ToNine(x, length) == x * Power(10, 9 - length)
    ensures length >= 9 ==> Power(10, length - 9) > 0 && ToNine(x, length) == x / Power(10, length - 9)
    decreases if length < 9 then 9 - length else length - 9
  {
    if length < 9 {
      DecimalsScale(x * 10, length + 1);
      assert x * 10 * Power(10, 8 - length) == x * (10 * Power(10, 8 - length));
    } else if length > 9 {
      PowerIsPositive(10, length - 10);
      DecimalsScale(x / 10, length - 1);
      DivideTwice(x, 10, Power(10, length - 10));
    }
  }

  /** What a time means: seconds, and behind the point as many decimals as there are. */
  lemma TimeIsDecimal(w: string, f: string)
    requires AllDigits(w, 10) && AllDigits(f, 10) && ValueOf(w, 10) <= INT64_MAX && ValueOf(f, 10) <= INT64_MAX
    ensures TimestampOf(w) == ValueOf(w, 10) * 1_000_000_000
    ensures |f| <= 9 ==>
              TimestampOf(w + ("." + f)) == ValueOf(w, 10) * 1_000_000_000 + ValueOf(f, 10) * Power(10, 9 - |f|)
    ensures |f| >= 9 ==>
              && Power(10, |f| - 9) > 0
              && TimestampOf(w + ("." + f)) == ValueOf(w, 10) * 1_000_000_000 + ValueOf(f, 10) / Power(10, |f| - 9)
  {
    hide FromChars, ValueOf, ToNine, Power, TimestampOf, DigitValue;
    DigitsArePlain(w, 10);
    DigitsArePlain(f, 10);
    NumberReads(w, 10, INT64_MAX);
    NumberReads(f, 10, INT64_MAX);
    assert FromCharsSigned(w) == ValueOf(w, 10) && FromCharsSigned(f) == ValueOf(f, 10) by {
      assert w != "" ==> w[0] != '-';
      assert f != "" ==> f[0] != '-';
    }
    WholeOnly(w);
    WholeAndFraction(w + ("." + f), w, f);
    DecimalsScale(ValueOf(f, 10), |f|);
  }

  lemma WholeOnly(w: string)
    requires forall i | 0 <= i < |w| :: w[i] != '.'
    ensures TimestampOf(w) == FromCharsSigned(w) * GIGA
  {
    hide FromCharsSigned, ToNine;
    NoneOf(w, '.');
    assert w[..|w|] == w;
  }

  // ----- Identifiers and bytes

  /** An identifier with or without "0x": its low eleven bits, or 0 if it does not fit into 32. */
  lemma IdIsHex(digits: string)
    requires AllDigits(digits, 16)
    ensures var v := ValueOf(digits, 16);
            var id := if v < 0x1_0000_0000 then v % 2048 else 0;
            ParseHexId(digits) == id && ParseHexId("0x" + digits) == id && ParseHexId("0X" + digits) == id
  {
    hide FromChars, ValueOf, DigitValue;
    assert digits[..|digits|] == digits;
    NumberEnds(digits, |digits|, 16, 0xFFFF_FFFF);
    assert forall i | 0 <= i < |digits| :: digits[i] != 'x' && digits[i] != 'X' by { DigitsArePlain(digits, 16); }
    assert ("0x" + digits)[2..] == digits && ("0X" + digits)[2..] == digits;
  }

  /** A printed identifier: "0x", and its hexadecimal digits, at least three of them. */
  lemma IdIsPrinted(id: nat)
    ensures var s := IdText(id);
            && |s| >= 5 && s[0] == '0' && s[1] == 'x' && (|s| > 5 ==> s[2] != '0') && id < Power(16, |s| - 2)
            && forall k | 0 <= k < |s| - 2 :: HasDigit(s, id, 16, k)
  {
    hide DigitChar, Numeral, Padded, Power;
    hide HasDigit;
    var digits := Numeral(id, 16);
    var padded, s := Padded(digits, 3), IdText(id);
    NumeralByDigits(id, 16);
    PaddedByDigits(digits, 3);
    assert s == "0x" + padded && s[2..] == padded;
    PowerGrows(16, |digits|, |padded|);
    forall k | 0 <= k < |s| - 2
      ensures HasDigit(s, id, 16, k)
    {
      PaddedDigit(id, 16, 3, k);
      SameDigit(padded, s, id, 16, k);
    }
    if |s| > 5 {
      assert padded == digits by { assert padded[0..] == digits; }
      assert s[2] == digits[0];
      if id == 0 { OneDigit(); }
    }
  }

  lemma OneDigit()
    ensures |Numeral(0, 16)| == 1
  {
  }

  lemma {:induction false} PowerGrows(base: nat, k: nat, n: nat)
    requires base > 0 && k <= n
    ensures Power(base, k) <= Power(base, n)
    decreases n
  {
    if k < n {
      PowerGrows(base, k, n - 1);
      assert Power(base, n - 1) <= base * Power(base, n - 1);
    }
  }

  /** Two hexadecimal digits are a byte, with any number of spaces in front. */
  lemma {:induction false} BytesAreHex(spaces: string, a: char, b: char, high: nat, low: nat, rest: string, n: nat)
    requires (forall i | 0 <= i < |spaces| :: spaces[i] == ' ') && n > 0
    requires high < 16 && low < 16 && IsDigit(a, high) && IsDigit(b, low)
    ensures BytesOf(spaces + ([a, b] + rest), n) == [16 * high + low] + BytesOf(rest, n - 1)
  {
    hide DigitValue, BytesOf, ValueOf;
    var t := [a, b] + rest;
    DigitsAreRead(a, 16, high);
    DigitsAreRead(b, 16, low);
    assert a != ' ';
    SpacesAreSkipped(spaces, t);
    assert t[..2] == [a, b] && t[2..] == rest;
    BytesStep(spaces + t, n);
    TwoDigits(a, b, high, low);
    NumberReads([a, b], 16, 255);
  }

  lemma TwoDigits(a: char, b: char, high: nat, low: nat)
    requires DigitValue(a, 16) == Some(high) && DigitValue(b, 16) == Some(low)
    ensures AllDigits([a, b], 16) && ValueOf([a, b], 16) == 16 * high + low <= 255
  {
    assert [a, b][..1] == [a] && [a][..0] == "";
    assert ValueOf([a], 16) == high;
  }

  lemma {:induction false} SpacesAreSkipped(spaces: string, t: string)
    requires (forall i | 0 <= i < |spaces| :: spaces[i] == ' ') && (t != "" ==> t[0] != ' ')
    ensures SkipSpaces(spaces + t) == t
  {
    if spaces == "" {
      assert spaces + t == t;
    } else {
      assert (spaces + t)[1..] == spaces[1..] + t;
      SpacesAreSkipped(spaces[1..], t);
    }
  }

  /** Printed bytes: two digits each, with a space between any two bytes. */
  lemma {:induction false} BytesArePrinted(bytes: seq<Byte>)
    ensures var s := DataText(bytes);
            && |s| == (if bytes == [] then 0 else 3 * |bytes| - 1)
            && forall k | 0 <= k < |bytes| ::
                 && s[3 * k] == DigitChar(bytes[k] / 16) && s[3 * k + 1] == DigitChar(bytes[k] % 16)
                 && (k + 1 < |bytes| ==> s[3 * k + 2] == ' ')
  {
    hide DigitChar, HexByte;
    if bytes != [] {
      var init, last := bytes[..|bytes| - 1], bytes[|bytes| - 1];
      BytesArePrinted(init);
      ByteIsPrinted(last);
      var s, before := DataText(bytes), DataText(init);
      if |bytes| > 1 {
        assert s == before + (" " + HexByte(last));
        forall k | 0 <= k < |bytes|
          ensures s[3 * k] == DigitChar(bytes[k] / 16) && s[3 * k + 1] == DigitChar(bytes[k] % 16)
                  && (k + 1 < |bytes| ==> s[3 * k + 2] == ' ')
        {
          if k < |init| { assert init[k] == bytes[k]; }
        }
      }
    }
  }

  lemma ByteIsPrinted(b: Byte)
    ensures HexByte(b) == [DigitChar(b / 16), DigitChar(b % 16)]
  {
    assert DigitChar(0) == '0';
    hide DigitChar;
    if b < 16 {
      assert Numeral(b, 16) == [DigitChar(b)];
      assert Padded([DigitChar(b)], 2) == "0" + [DigitChar(b)];
    } else {
      assert Numeral(b / 16, 16) == [DigitChar(b / 16)];
      assert Numeral(b, 16) == [DigitChar(b / 16)] + [DigitChar(b % 16)];
    }
  }

  /** A printed time: a sign, the seconds, a point and nine decimals. */
  lemma TimeIsPrinted(negative: bool, n: nat)
    ensures var s := FixedText(negative, n);
            var whole := (if negative then "-" else "") + Numeral(n / 1_000_000_000, 10);
            && |s| == |whole| + 10 && s[..|whole|] == whole && s[|whole|] == '.'
            && forall k | 0 <= k < 9 :: HasDigit(s, n, 10, k)
  {
    hide Numeral, Padded, DigitChar, Power, HasDigit;
    var whole := (if negative then "-" else "") + Numeral(n / GIGA, 10);
    var decimals := Padded(Numeral(n % GIGA, 10), 9);
    var s := FixedText(negative, n);
    assert s == whole + ("." + decimals);
    DecimalIs(n, 0);
    forall k | 0 <= k < 9
      ensures HasDigit(s, n, 10, k)
    {
      DecimalIs(n, k);
      BehindThePoint(s, whole, decimals, k);
      SameDigit(decimals, s, n, 10, k);
    }
  }

  lemma BehindThePoint(s: string, whole: string, decimals: string, k: nat)
    requires s == whole + ("." + decimals) && k < |decimals|
    ensures |s| == |whole| + 1 + |decimals| && s[|s| - 1 - k] == decimals[|decimals| - 1 - k]
  {
  }

  lemma DecimalIs(n: nat, k: nat)
    requires k < 9
    ensures var decimals := Padded(Numeral(n % GIGA, 10), 9);
            |decimals| == 9 && HasDigit(decimals, n, 10, k)
  {
    hide Numeral, Padded, DigitChar, Power;
    FractionReads(n % GIGA);
    PaddedDigit(n % GIGA, 10, 9, k);
    LowDigit(n, k);
  }

  /** The decimals of a number of billionths are not touched by its seconds. */
  lemma LowDigit(n: nat, k: nat)
    requires k < 9
    ensures Power(10, k) > 0 && n / Power(10, k) % 10 == n % GIGA / Power(10, k) % 10
  {
    hide Power;
    PowerIsPositive(10, k);
    PowerIsPositive(10, 8 - k);
    var p, q := Power(10, k), Power(10, 8 - k);
    assert 10 * q * p == GIGA by { PowerSplits(k); }
    var w, f := n / GIGA, n % GIGA;
    assert n == w * GIGA + f;
    assert n == (w * (10 * q)) * p + f by { assert w * (10 * q * p) == (w * (10 * q)) * p; }
    var r := f / p;
    assert f == r * p + f % p;
    assert n == (w * (10 * q) + r) * p + f % p by {
      assert (w * (10 * q) + r) * p == (w * (10 * q)) * p + r * p;
    }
    DivModUnique(n, p, w * (10 * q) + r, f % p);
    assert w * (10 * q) == (w * q) * 10;
    DivModUnique(w * (10 * q) + r, 10, w * q + r / 10, r % 10);
  }

  lemma {:induction false} PowerSplits(k: nat)
    requires k < 9
    ensures 10 * Power(10, 8 - k) * Power(10, k) == GIGA
  {
    hide Power;
    NextPower(10, 8 - k);
    if k == 0 {
      PowerOfTen();
      NoPower();
    } else {
      PowerSplits(k - 1);
      NextPower(10, k - 1);
      Regroup(Power(10, 8 - k), Power(10, k - 1));
    }
  }

  lemma NoPower()
    ensures Power(10, 0) == 1
  {
  }

  lemma Regroup(a: nat, b: nat)
    ensures 10 * a * (10 * b) == 10 * (10 * a) * b
  {
  }

  /** The row of a frame, field by field. */
  lemma RowIsPrinted(seconds: Seconds, m: RawCanMessage)
    ensures var dlc := Numeral(m.dlc, 10);
            Row(seconds, m) == PrintedSeconds(seconds(m.receiveTime)) + ",1," + IdText(m.messageId) + ",Rx," + dlc + ","
                               + dlc + "," + DataText(m.data[..if m.dlc < 8 then m.dlc else 8])
  {
    hide DataText, Numeral, PrintedSeconds, Join, IdText;
    var f := RowFields(seconds, m);
    JoinSeven(f[0], f[1], f[2], f[3], f[4], f[5], f[6]);
  }

  // ----- Columns

  /** The last column of the name; a missing one leaves the column of the previous file. */
  predicate IsColumn(headers: seq<string>, name: string, at: nat, before: nat) {
    if name in headers then at < |headers| && headers[at] == name && forall k | at < k < |headers| :: headers[k] != name
    else at == before
  }

  lemma {:induction false} ColumnsAreLast(headers: seq<string>, before: Columns)
    ensures var c := ColumnsOf(headers, before);
            && IsColumn(headers, "ID", c.id, before.id) && IsColumn(headers, "DLC", c.dlc, before.dlc)
            && IsColumn(headers, "Data", c.data, before.data)
  {
    hide IsColumn;
    if headers == [] {
      NoColumn("ID", before.id);
      NoColumn("DLC", before.dlc);
      NoColumn("Data", before.data);
    } else {
      var init := headers[..|headers| - 1];
      ColumnsAreLast(init, before);
      var c := ColumnsOf(init, before);
      NextColumn(headers, "ID", c.id, before.id);
      NextColumn(headers, "DLC", c.dlc, before.dlc);
      NextColumn(headers, "Data", c.data, before.data);
    }
  }

  lemma NoColumn(name: string, before: nat)
    ensures IsColumn([], name, before, before)
  {
  }

  lemma NextColumn(headers: seq<string>, name: string, at: nat, before: nat)
    requires headers != [] && IsColumn(headers[..|headers| - 1], name, at, before)
    ensures var last := |headers| - 1; IsColumn(headers, name, if headers[last] == name then last else at, before)
  {
    var last := |headers| - 1;
    assert headers == headers[..last] + [headers[last]];
  }

  /** A column behind the time that is not the identifier's and holds a number. */
  predicate HoldsNumber(fields: seq<string>, i: nat, idColumn: Option<nat>, stod: Stod) {
    1 <= i < |fields| && idColumn != Some(i) && fields[i] != "" && fields[i] != "-" && stod(fields[i]).Some?
  }

  /** The values are those of the columns that hold numbers, from left to right. */
  ghost predicate AreCells(headers: seq<string>, fields: seq<string>, n: nat, idColumn: Option<nat>, stod: Stod,
                           values: seq<SignalValue>, at: seq<nat>)
    requires n <= |headers| && n <= |fields|
  {
    && |at| == |values|
    && (forall k | 0 <= k < |at| :: at[k] < n && HoldsNumber(fields, at[k], idColumn, stod)
                                    && values[k] == SignalValue(headers[at[k]], stod(fields[at[k]]).value))
    && (forall k, l | 0 <= k < l < |at| :: at[k] < at[l])
    && forall i | 0 <= i < n && HoldsNumber(fields, i, idColumn, stod) :: i in at
  }

  lemma {:induction false} CellsAreNumbers(headers: seq<string>, fields: seq<string>, n: nat, idColumn: Option<nat>,
                                           stod: Stod)
    returns (at: seq<nat>)
    requires n <= |headers| && n <= |fields|
    ensures AreCells(headers, fields, n, idColumn, stod, CellsOf(headers, fields, n, idColumn, stod), at)
  {
    if n <= 1 {
      at := [];
    } else {
      hide AreCells, HoldsNumber, CellsOf, CellOf;
      at := CellsAreNumbers(headers, fields, n - 1, idColumn, stod);
      NextCell(headers, fields, n - 1, idColumn, stod);
      MoreCells(headers, fields, n, idColumn, stod, CellsOf(headers, fields, n - 1, idColumn, stod), at);
      if HoldsNumber(fields, n - 1, idColumn, stod) { at := at + [n - 1]; }
    }
  }

  lemma MoreCells(headers: seq<string>, fields: seq<string>, n: nat, idColumn: Option<nat>, stod: Stod,
                  values: seq<SignalValue>, at: seq<nat>)
    requires 1 < n <= |headers| && n <= |fields| && AreCells(headers, fields, n - 1, idColumn, stod, values, at)
    ensures var cell := CellOf(headers[n - 1], fields[n - 1], idColumn == Some(n - 1), stod);
            var more := if HoldsNumber(fields, n - 1, idColumn, stod) then at + [n - 1] else at;
            AreCells(headers, fields, n, idColumn, stod, values + cell, more)
  {
    var i := n - 1;
    var cell := CellOf(headers[i], fields[i], idColumn == Some(i), stod);
    if HoldsNumber(fields, i, idColumn, stod) {
      assert cell == [SignalValue(headers[i], stod(fields[i]).value)];
      forall k | 0 <= k < n && HoldsNumber(fields, k, idColumn, stod)
        ensures k in at + [i]
      {
        assert k < i ==> k in at;
      }
    } else {
      assert values + cell == values;
    }
  }
}
