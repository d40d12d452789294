/**
 * Money quantisation (backend/utils/money.js), and the pieces of JavaScript
 * and of the Decimal128 type it is built from: `Number(string)`,
 * `Number.prototype.toFixed`, `Decimal128.fromString` and
 * `Decimal128.prototype.toString`. Numbers are exact reals; the rounding
 * `toFixed` performs is written out as round-half-away-from-zero.
 */
module Money {
  import opened Strings

  /**
   * A JavaScript number. NaN, Infinity and -Infinity are one case: every use
   * in the core only asks whether a number is finite.
   */
  datatype Num = Finite(v: real) | NonFinite

  /**
   * 2^1024 - 2^970, the least magnitude that rounds to Infinity: it lies
   * half a unit in the last place above Number.MAX_VALUE, and the tie
   * rounds to the even neighbour, 2^1024, which overflows.
   */
  const InfinityBound: real := 179769313486231580793728971405303415079934132710037826936173778980444968292764750946649017977587207096330286416692887910946555547851940402630657488671505820681908902000708383676273854845817711531764475730270069855571366959622842914819860834936475292719074168444365510704342711559699508093042880177904174497792.0

  /**
   * 10^21: from this magnitude on, `toFixed` spells a number in exponent
   * notation instead of with fixed fractional digits.
   */
  const FixedLimit: real := 1000000000000000000000.0

  /**
   * The number a written value `x` becomes: `x` itself, or Infinity (with
   * the sign of `x`) once `x` is too large for a double.
   */
  function NumberOf(x: real): Num
  {
    if Abs(x) < InfinityBound then Finite(x) else NonFinite
  }

  lemma ScaledZero(f: nat)
    ensures Scaled(0, f) == 0.0
  {
    var p := Pow10(f) as real;
    assert p != 0.0;
    assert 0.0 / p == 0.0;
  }

  /** `x` with a minus sign when `negative`. */
  function Signed(negative: bool, x: real): real
  {
    if negative then -x else x
  }

  /** The number a coefficient `m` denotes with `f` fractional digits: m / 10^f. */
  function Scaled(m: nat, f: nat): real
  {
    m as real / (Pow10(f) as real)
  }

  function Abs(x: real): (r: real)
    ensures r >= 0.0 && (r == x || r == -x)
  {
    if x < 0.0 then -x else x
  }

  /**
   * A stored Decimal128 value: sign, coefficient and number of fractional
   * digits. "-0.00" and "0.00" are different values, as in Decimal128.
   */
  datatype Decimal = Decimal(negative: bool, magnitude: nat, scale: nat)
  {
    function Value(): real
    {
      Signed(negative, Scaled(magnitude, scale))
    }

    /** `Decimal128.prototype.toString` in plain (non-exponent) notation. */
    function ToString(): string
    {
      FixedString(negative, magnitude, scale)
    }
  }

  // ---------------------------------------------------------------------------
  // The fixed-point layout shared by toFixed and Decimal128.toString
  // ---------------------------------------------------------------------------

  /** The digits of `n`, left-padded with zeros to at least `f + 1` digits. */
  function Padded(n: nat, f: nat): (p: string)
    ensures |p| >= f + 1 && AllDigits(p)
    ensures DigitsValue(p) == n
  {
    var m := NatToString(n);
    NatToStringValue(n);
    if |m| <= f then
      LeadingZeros(f + 1 - |m|, m);
      Zeros(f + 1 - |m|) + m
    else m
  }

  function IntPart(n: nat, f: nat): (s: string)
    ensures s != [] && AllDigits(s)
  {
    var p := Padded(n, f);
    p[..|p| - f]
  }

  function FracPart(n: nat, f: nat): (s: string)
    ensures |s| == f && AllDigits(s)
  {
    var p := Padded(n, f);
    p[|p| - f..]
  }

  /**
   * The string `toFixed(f)` builds for a sign and a rounded coefficient `n`:
   * the digits of `n`, padded with zeros, with a point before the last `f`.
   */
  function FixedString(negative: bool, n: nat, f: nat): string
  {
    (if negative then "-" else "") + IntPart(n, f) + (if f == 0 then "" else "." + FracPart(n, f))
  }

  /** Integer and fractional digits together spell the coefficient. */
  lemma FixedDigitsValue(n: nat, f: nat)
    ensures AllDigits(IntPart(n, f) + FracPart(n, f))
    ensures DigitsValue(IntPart(n, f) + FracPart(n, f)) == n
  {
    var p := Padded(n, f);
    assert IntPart(n, f) + FracPart(n, f) == p;
  }

  // ---------------------------------------------------------------------------
  // Decimal128.fromString (plain notation)
  // ---------------------------------------------------------------------------

  /**
   * `Decimal128.fromString` for strings of the form `[-]digits[.digits]`,
   * the only form the core hands it; None where it would throw.
   */
  function ParsePlainDecimal(s: string): Option<Decimal>
  {
    if |s| > 0 && s[0] == '-' then ParsePlainBody(true, s[1..]) else ParsePlainBody(false, s)
  }

  /** The unsigned part `digits[.digits]` of a plain-notation decimal. */
  function ParsePlainBody(negative: bool, body: string): Option<Decimal>
  {
    var k := IndexOf(body, '.');
    if k < |body| then
      var ip := body[..k];
      var fp := body[k + 1..];
      if ip != [] && fp != [] && AllDigits(ip) && AllDigits(fp) then
        DigitsValueAppend(ip, fp);
        Some(Decimal(negative, DigitsValue(ip + fp), |fp|))
      else None
    else if body != [] && AllDigits(body) then Some(Decimal(negative, DigitsValue(body), 0))
    else None
  }

  /** A digit string holds no point, exponent marker or sign. */
  lemma NoPointInDigits(s: string)
    requires AllDigits(s)
    ensures '.' !in s && 'e' !in s && 'E' !in s && '-' !in s
  {
  }

  function Sign(negative: bool): string
  {
    if negative then "-" else ""
  }

  /** The unsigned part of a plain-notation string: integer digits, then "." and fraction digits if any. */
  function PlainBody(ip: string, fp: string): string
  {
    ip + (if fp == [] then "" else "." + fp)
  }

  /** The plain-notation string of a sign, integer digits and fraction digits. */
  function PlainString(negative: bool, ip: string, fp: string): string
  {
    Sign(negative) + PlainBody(ip, fp)
  }

  lemma FixedStringIsPlain(negative: bool, n: nat, f: nat)
    ensures FixedString(negative, n, f) == PlainString(negative, IntPart(n, f), FracPart(n, f))
  {
    var sg, ip, fp := Sign(negative), IntPart(n, f), FracPart(n, f);
    var tail := if f == 0 then "" else "." + fp;
    assert PlainBody(ip, fp) == ip + tail by {
      assert fp == [] <==> f == 0;
    }
    assert FixedString(negative, n, f) == (sg + ip) + tail;
    assert (sg + ip) + tail == sg + (ip + tail);
  }

  /** The body of a plain-notation string is read digit for digit. */
  lemma ParsePlainBodyParts(negative: bool, ip: string, fp: string)
    requires ip != [] && AllDigits(ip) && AllDigits(fp)
    ensures AllDigits(ip + fp)
    ensures ParsePlainBody(negative, PlainBody(ip, fp)) == Some(Decimal(negative, DigitsValue(ip + fp), |fp|))
  {
    DigitsValueAppend(ip, fp);
    NoPointInDigits(ip);
    var body := PlainBody(ip, fp);
    if fp == [] {
      assert body == ip;
      assert ip + fp == ip;
    } else {
      assert body == ip + ("." + fp);
      assert body[..|ip|] == ip && body[|ip|] == '.';
      assert IndexOf(body, '.') == |ip|;
      assert body[|ip| + 1..] == fp;
    }
  }

  /** A sign in front of a body that does not start with "-" is read as the sign. */
  lemma ParseSignedDecimal(negative: bool, body: string)
    requires body != [] && body[0] != '-'
    ensures ParsePlainDecimal(Sign(negative) + body) == ParsePlainBody(negative, body)
  {
    var s := Sign(negative) + body;
    if negative {
      assert s[0] == '-' && s[1..] == body;
    } else {
      assert s == body;
    }
  }

  /** Decimal128.fromString reads a plain-notation string digit for digit. */
  lemma ParsePlainString(negative: bool, ip: string, fp: string)
    requires ip != [] && AllDigits(ip) && AllDigits(fp)
    ensures AllDigits(ip + fp)
    ensures ParsePlainDecimal(PlainString(negative, ip, fp)) == Some(Decimal(negative, DigitsValue(ip + fp), |fp|))
  {
    ParsePlainBodyParts(negative, ip, fp);
    var body := PlainBody(ip, fp);
    assert body[0] == ip[0];
    ParseSignedDecimal(negative, body);
  }

  /** Decimal128.fromString reads back exactly what toString wrote. */
  lemma ParseFixedString(negative: bool, n: nat, f: nat)
    ensures ParsePlainDecimal(FixedString(negative, n, f)) == Some(Decimal(negative, n, f))
  {
    FixedStringIsPlain(negative, n, f);
    ParsePlainString(negative, IntPart(n, f), FracPart(n, f));
    FixedDigitsValue(n, f);
  }

  // ---------------------------------------------------------------------------
  // Number(string)
  // ---------------------------------------------------------------------------

  function Pow10Real(e: int): (r: real)
    ensures r > 0.0
  {
    if e >= 0 then Pow10(e) as real else 1.0 / (Pow10(-e) as real)
  }

  /** The mantissa of a decimal literal: `digits[.digits]`, `.digits` or `digits.`. */
  function ParseMantissa(m: string): Option<real>
  {
    var k := IndexOf(m, '.');
    if k < |m| then
      var ip := m[..k];
      var fp := m[k + 1..];
      if (ip != [] || fp != []) && AllDigits(ip) && AllDigits(fp) then
        DigitsValueAppend(ip, fp);
        Some(Scaled(DigitsValue(ip + fp), |fp|))
      else None
    else if m != [] && AllDigits(m) then Some(DigitsValue(m) as real)
    else None
  }

  /** The exponent after `e`/`E`: an optional sign and at least one digit. */
  function ParseExponent(x: string): Option<int>
  {
    var negative := |x| > 0 && x[0] == '-';
    var digits := if |x| > 0 && (x[0] == '-' || x[0] == '+') then x[1..] else x;
    if digits != [] && AllDigits(digits) then
      var n: int := DigitsValue(digits);
      Some(if negative then -n else n)
    else None
  }

  function ParseUnsignedLiteral(b: string): Option<real>
  {
    var e := if IndexOf(b, 'e') < IndexOf(b, 'E') then IndexOf(b, 'e') else IndexOf(b, 'E');
    var mantissa := ParseMantissa(b[..e]);
    var exponent := if e < |b| then ParseExponent(b[e + 1..]) else Some(0);
    if mantissa.Some? && exponent.Some? then Some(mantissa.value * Pow10Real(exponent.value))
    else None
  }

  /**
   * `Number(s)` for a string: surrounding whitespace is ignored, the empty
   * string is 0, `Infinity` with an optional sign is not finite, a decimal
   * literal with optional sign, point and exponent is its value (Infinity
   * when that is too large for a double), and anything else is NaN.
   */
  function ParseNumber(s: string): Num
  {
    var t := Trim(s);
    if t == [] then Finite(0.0)
    else
      var body := if t[0] == '-' || t[0] == '+' then t[1..] else t;
      if body == "Infinity" then NonFinite
      else match ParseUnsignedLiteral(body)
        case None => NonFinite
        case Some(x) => NumberOf(Signed(t[0] == '-', x))
  }

  /** The mantissa `ip[.fp]` denotes its digits shifted by the fraction length. */
  lemma ParseMantissaPlain(ip: string, fp: string)
    requires ip != [] && AllDigits(ip) && AllDigits(fp)
    ensures AllDigits(ip + fp)
    ensures ParseMantissa(PlainBody(ip, fp)) == Some(Scaled(DigitsValue(ip + fp), |fp|))
  {
    DigitsValueAppend(ip, fp);
    NoPointInDigits(ip);
    var body := PlainBody(ip, fp);
    if fp == [] {
      assert body == ip;
      assert ip + fp == ip;
      assert IndexOf(ip, '.') == |ip|;
      assert Scaled(DigitsValue(ip), 0) == DigitsValue(ip) as real by {
        assert Pow10(0) == 1;
      }
    } else {
      assert body == ip + ("." + fp);
      assert body[..|ip|] == ip && body[|ip|] == '.';
      assert IndexOf(body, '.') == |ip|;
      assert body[|ip| + 1..] == fp;
    }
  }

  /** A literal with no exponent marker is its mantissa. */
  lemma ParseUnsignedNoExponent(b: string)
    requires 'e' !in b && 'E' !in b
    ensures ParseUnsignedLiteral(b) == ParseMantissa(b)
  {
    assert b[..|b|] == b;
    assert Pow10Real(0) == 1.0;
  }

  /** An unsigned plain-notation literal without exponent has its digit value. */
  lemma ParseUnsignedPlain(ip: string, fp: string)
    requires ip != [] && AllDigits(ip) && AllDigits(fp)
    ensures AllDigits(ip + fp)
    ensures ParseUnsignedLiteral(PlainBody(ip, fp)) == Some(Scaled(DigitsValue(ip + fp), |fp|))
  {
    NoPointInDigits(ip);
    NoPointInDigits(fp);
    var body := PlainBody(ip, fp);
    assert 'e' !in body && 'E' !in body;
    ParseUnsignedNoExponent(body);
    ParseMantissaPlain(ip, fp);
  }

  /** A signed literal that starts and ends with a digit is its own trim. */
  lemma SignedLiteralTrimmed(negative: bool, body: string)
    requires body != [] && IsDigit(body[0]) && IsDigit(body[|body| - 1])
    ensures Trim(Sign(negative) + body) == Sign(negative) + body
  {
    var s := Sign(negative) + body;
    assert s[|s| - 1] == body[|body| - 1];
    assert s[0] == (if negative then '-' else body[0]);
    TrimUnchanged(s);
  }

  /** `Number` of a signed literal that starts and ends with a digit. */
  lemma ParseNumberSigned(negative: bool, body: string, x: real)
    requires body != [] && IsDigit(body[0]) && IsDigit(body[|body| - 1])
    requires ParseUnsignedLiteral(body) == Some(x)
    ensures ParseNumber(Sign(negative) + body) == NumberOf(Signed(negative, x))
  {
    var s := Sign(negative) + body;
    SignedLiteralTrimmed(negative, body);
    assert body != "Infinity" by { assert "Infinity"[0] == 'I'; }
    if negative {
      assert s[0] == '-' && s[1..] == body;
    } else {
      assert s == body;
    }
  }

  /** The last character of a plain body is a digit. */
  lemma PlainBodyEnds(ip: string, fp: string)
    requires ip != [] && AllDigits(ip) && AllDigits(fp)
    ensures var body := PlainBody(ip, fp); body != [] && IsDigit(body[0]) && IsDigit(body[|body| - 1])
  {
    var body := PlainBody(ip, fp);
    assert body[0] == ip[0];
    if fp == [] {
      assert body == ip;
    } else {
      assert body[|body| - 1] == fp[|fp| - 1];
    }
  }

  /** `Number` reads the value of a plain-notation string. */
  lemma ParseNumberPlain(negative: bool, ip: string, fp: string)
    requires ip != [] && AllDigits(ip) && AllDigits(fp)
    ensures AllDigits(ip + fp)
    ensures ParseNumber(PlainString(negative, ip, fp))
         == NumberOf(Decimal(negative, DigitsValue(ip + fp), |fp|).Value())
  {
    ParseUnsignedPlain(ip, fp);
    PlainBodyEnds(ip, fp);
    ParseNumberSigned(negative, PlainBody(ip, fp), Scaled(DigitsValue(ip + fp), |fp|));
  }

  /**
   * `Number` reads the value of a fixed-point string, and Infinity when
   * that value is too large for a double.
   */
  lemma ParseNumberFixedString(negative: bool, n: nat, f: nat)
    ensures ParseNumber(FixedString(negative, n, f)) == NumberOf(Decimal(negative, n, f).Value())
  {
    FixedStringIsPlain(negative, n, f);
    ParseNumberPlain(negative, IntPart(n, f), FracPart(n, f));
    FixedDigitsValue(n, f);
  }

  /** 2^n. */
  function Pow2(n: nat): (p: nat)
  {
    if n == 0 then 1 else 2 * Pow2(n - 1)
  }

  /** Powers of two multiply by adding exponents. */
  lemma {:induction false} Pow2Add(a: nat, b: nat)
    ensures Pow2(a + b) == Pow2(a) * Pow2(b)
    decreases b
  {
    if b > 0 {
      Pow2Add(a, b - 1);
    }
  }

  /** InfinityBound is 2^1024 - 2^970. */
  lemma InfinityBoundValue()
    ensures InfinityBound == (Pow2(1024) - Pow2(970)) as real
  {
    assert Pow2(1) == 2;
    Pow2Add(1, 1);
    assert Pow2(2) == 4;
    Pow2Add(2, 2);
    assert Pow2(4) == 16;
    Pow2Add(4, 4);
    assert Pow2(8) == 256;
    Pow2Add(8, 8);
    assert Pow2(16) == 65536;
    Pow2Add(16, 16);
    assert Pow2(32) == 4294967296;
    Pow2Add(32, 32);
    assert Pow2(64) == 18446744073709551616;
    Pow2Add(64, 64);
    assert Pow2(128) == 340282366920938463463374607431768211456;
    Pow2Add(128, 128);
    assert Pow2(256) == 115792089237316195423570985008687907853269984665640564039457584007913129639936;
    Pow2Add(256, 256);
    assert Pow2(512) == 13407807929942597099574024998205846127479365820592393377723561443721764030073546976801874298166903427690031858186486050853753882811946569946433649006084096;
    Pow2Add(512, 512);
    assert Pow2(1024) == 179769313486231590772930519078902473361797697894230657273430081157732675805500963132708477322407536021120113879871393357658789768814416622492847430639474124377767893424865485276302219601246094119453082952085005768838150682342462881473913110540827237163350510684586298239947245938479716304835356329624224137216;
    Pow2Add(512, 256);
    assert Pow2(768) == 1552518092300708935148979488462502555256886017116696611139052038026050952686376886330878408828646477950487730697131073206171580044114814391444287275041181139204454976020849905550265285631598444825262999193716468750892846853816057856;
    Pow2Add(768, 128);
    assert Pow2(896) == 528294531135665246352339784916516606518847326036121522127960709026673902556724859474417255887657187894674394993257128678882347559502685537250538978462939576908386683999005084168731517676426441053024232908211188404148028292751561738838396898767036476489538580897737998336;
    Pow2Add(896, 64);
    assert Pow2(960) == 9745314011399999080353382387875188310876226857595007526867906457212948690766426102465615065882010259225304916231408668183459169865203094046577987296312653419531277699956473029870789655490053648352799593479218378873685597925394874945746363615468965612827738803104277547081828589991914110976;
    Pow2Add(960, 8);
    assert Pow2(968) == 2494800386918399764570465891296048207584314075544321926878184053046514864836205082231197456865794626361678058555240619054965547485491992075923964747856039275400007091188857095646922151805453733978316695930679904991663513068901087986111069085560055196883901133594695052052948119037930012409856;
    Pow2Add(968, 2);
    assert Pow2(970) == 9979201547673599058281863565184192830337256302177287707512736212186059459344820328924789827463178505446712234220962476219862189941967968303695858991424157101600028364755428382587688607221814935913266783722719619966654052275604351944444276342240220787535604534378780208211792476151720049639424;
  }

  /** "1e309" is beyond the largest double, so `Number` reads it as Infinity. */
  lemma OverflowingNumeral()
    ensures ParseNumber("1e309") == NonFinite
  {
    TrimUnchanged("1e309");
    OneE309Overflows();
  }

  /** `stringToDecimal128("1e309")` is 0.00: its `Number` is not finite. */
  lemma OverflowingStringIsZero()
    ensures StringToDecimal128("1e309") == Decimal(false, 0, 2)
  {
    OverflowingNumeral();
  }

  /** The literal "1e309" denotes a value beyond the largest double. */
  lemma OneE309Overflows()
    ensures ParseUnsignedLiteral("1e309").Some? && ParseUnsignedLiteral("1e309").value >= InfinityBound
  {
    UnsignedOneE309();
    Pow10Overflows();
  }

  /** A literal "1e" followed by digits denotes ten to the power those digits spell. */
  lemma ParseOneExponent(x: string)
    requires x != [] && AllDigits(x)
    ensures ParseUnsignedLiteral("1e" + x) == Some(Pow10(DigitsValue(x)) as real)
  {
    var b := "1e" + x;
    NoPointInDigits(x);
    assert b[..1] == "1" && b[1] == 'e' && b[2..] == x;
    assert IndexOf(b, 'e') == 1;
    assert 'E' !in b;
    assert ParseMantissa(b[..1]) == Some(1.0) by {
      assert IndexOf("1", '.') == 1;
      assert DigitsValue("1") == 1;
    }
    assert x[0] != '-' && x[0] != '+';
    var n: int := DigitsValue(x);
    assert ParseExponent(b[2..]) == Some(n);
    assert Pow10Real(n) == Pow10(n) as real;
  }

  /** The literal "1e309" denotes 10^309. */
  lemma UnsignedOneE309()
    ensures ParseUnsignedLiteral("1e309") == Some(Pow10(309) as real)
  {
    assert "1e309" == "1e" + "309";
    assert DigitsValue("309") == 309 by {
      assert "309"[..2] == "30" && "30"[..1] == "3" && "3"[..0] == [];
    }
    ParseOneExponent("309");
  }

  /** Powers of ten multiply by adding exponents. */
  lemma {:induction false} Pow10Add(a: nat, b: nat)
    ensures Pow10(a + b) == Pow10(a) * Pow10(b)
    decreases b
  {
    if b > 0 {
      Pow10Add(a, b - 1);
    }
  }

  /** 10^309 is beyond the largest double. */
  lemma Pow10Overflows()
    ensures Pow10(309) as real >= InfinityBound
  {
    assert Pow10(1) == 10;
    Pow10Add(1, 1);
    assert Pow10(2) == 100;
    Pow10Add(2, 2);
    assert Pow10(4) == 10000;
    Pow10Add(4, 4);
    assert Pow10(8) == 100000000;
    Pow10Add(8, 8);
    assert Pow10(16) == 10000000000000000;
    Pow10Add(16, 16);
    assert Pow10(32) == 100000000000000000000000000000000;
    Pow10Add(32, 32);
    assert Pow10(64) == 10000000000000000000000000000000000000000000000000000000000000000;
    Pow10Add(64, 64);
    assert Pow10(128) == 100000000000000000000000000000000000000000000000000000000000000000000000000000000000000000000000000000000000000000000000000000000;
    Pow10Add(128, 128);
    assert Pow10(256) == 10000000000000000000000000000000000000000000000000000000000000000000000000000000000000000000000000000000000000000000000000000000000000000000000000000000000000000000000000000000000000000000000000000000000000000000000000000000000000000000000000000000000000000;
    Pow10Add(4, 1);
    assert Pow10(5) == 100000;
    Pow10Add(16, 5);
    assert Pow10(21) == 1000000000000000000000;
    Pow10Add(32, 21);
    assert Pow10(53) == 100000000000000000000000000000000000000000000000000000;
    Pow10Add(256, 53);
    assert Pow10(309) == 1000000000000000000000000000000000000000000000000000000000000000000000000000000000000000000000000000000000000000000000000000000000000000000000000000000000000000000000000000000000000000000000000000000000000000000000000000000000000000000000000000000000000000000000000000000000000000000000000000000000000000000000;
  }

  // ---------------------------------------------------------------------------
  // toFixed and its rounding
  // ---------------------------------------------------------------------------

  /** `m` is within half a unit of `r`, the larger on a tie. */
  predicate NearestTo(m: nat, r: real)
  {
    (m as real) - 0.5 <= r < (m as real) + 0.5
  }

  /**
   * The coefficient `toFixed(f)` keeps for `x`: the integer nearest to
   * |x| * 10^f, the larger one on a tie.
   */
  function RoundedMagnitude(x: real, f: nat): (m: nat)
    ensures NearestTo(m, Abs(x) * (Pow10(f) as real))
  {
    (Abs(x) * (Pow10(f) as real) + 0.5).Floor
  }

  /**
   * `x.toFixed(f)` for |x| < 10^21: a "-" when x < 0, then the rounded
   * coefficient with `f` fractional digits. At or above 10^21 `toFixed`
   * gives the number's exponent form instead, which this function does not
   * model.
   */
  function ToFixed(x: real, f: nat): string
  {
    FixedString(x < 0.0, RoundedMagnitude(x, f), f)
  }

  /**
   * `x` rounded half away from zero to exactly `f` fractional digits,
   * keeping the sign of `x`: for |x| < 10^21, the decimal `x.toFixed(f)`
   * spells.
   */
  function Quantize(x: real, f: nat): Decimal
  {
    Decimal(x < 0.0, RoundedMagnitude(x, f), f)
  }

  /** `Decimal128.fromString(x.toFixed(f))` is the quantised value of `x`. */
  lemma FromStringToFixed(x: real, f: nat)
    ensures ParsePlainDecimal(ToFixed(x, f)) == Some(Quantize(x, f))
  {
    ParseFixedString(x < 0.0, RoundedMagnitude(x, f), f);
  }

  /** Dividing a rounded coefficient by the scale is off by at most half a unit. */
  lemma DivBound(m: real, y: real, p: real)
    requires p > 0.0 && y >= 0.0
    requires m - 0.5 <= y * p < m + 0.5
    ensures Abs(m / p - y) <= 0.5 / p
  {
    var e := m - y * p;
    assert m / p - y == e / p;
    assert -0.5 / p <= e / p <= 0.5 / p;
  }

  /** The rounding error of Quantize is at most half a unit of the last digit. */
  lemma QuantizeError(x: real, f: nat)
    ensures Abs(Quantize(x, f).Value() - x) <= 0.5 / (Pow10(f) as real)
  {
    var d := Quantize(x, f);
    MagnitudeError(x, f);
    SignedError(d.negative, Scaled(d.magnitude, f), x, 0.5 / (Pow10(f) as real));
  }

  /** The rounded coefficient, scaled back, is within half a unit of |x|. */
  lemma MagnitudeError(x: real, f: nat)
    ensures Abs(Scaled(RoundedMagnitude(x, f), f) - Abs(x)) <= 0.5 / (Pow10(f) as real)
  {
    var m, y := RoundedMagnitude(x, f), Abs(x);
    assert NearestTo(m, y * (Pow10(f) as real));
    ScaledNear(m, f, y);
  }

  /** A coefficient within half a unit of y * 10^f denotes a number within half a unit of y. */
  lemma ScaledNear(m: nat, f: nat, y: real)
    requires y >= 0.0
    requires NearestTo(m, y * (Pow10(f) as real))
    ensures Abs(Scaled(m, f) - y) <= 0.5 / (Pow10(f) as real)
  {
    DivBound(m as real, y, Pow10(f) as real);
  }

  /** A sign taken from `x` keeps the distance between magnitudes. */
  lemma SignedError(negative: bool, q: real, x: real, b: real)
    requires negative == (x < 0.0) && Abs(q - Abs(x)) <= b
    ensures Abs(Signed(negative, q) - x) <= b
  {
  }

  /** The string "0.00" that money.js falls back to. */
  lemma ZeroString()
    ensures FixedString(false, 0, 2) == "0.00"
  {
    assert NatToString(0) == "0";
    assert Padded(0, 2) == "000";
    assert IntPart(0, 2) == "0";
    assert FracPart(0, 2) == "00";
  }

  // ---------------------------------------------------------------------------
  // backend/utils/money.js
  // ---------------------------------------------------------------------------

  /**
   * `decimal128ToString`: "0.00" for a missing value, otherwise the value's
   * own string, which reads back as exactly the stored decimal (no
   * re-rounding).
   */
  function DecimalToString(d: Option<Decimal>): (r: string)
    ensures d.None? ==> r == "0.00"
    ensures d.Some? ==> ParsePlainDecimal(r) == d
  {
    match d
    case None => "0.00"
    case Some(x) =>
      ParseFixedString(x.negative, x.magnitude, x.scale);
      x.ToString()
  }

  /**
   * `decimal128ToNumber`, defined by what it computes: the stored value (0
   * for a missing one), or 0 when that is too large for a double.
   * DecimalToNumberIsNumberOfString shows that this is
   * `Number(decimal128ToString(d))` with its fallback to 0.
   */
  function DecimalToNumber(d: Option<Decimal>): Num
  {
    var x := if d.Some? then d.value.Value() else 0.0;
    Finite(if Abs(x) < InfinityBound then x else 0.0)
  }

  /**
   * `Number` of the stored string is the stored value, and Infinity exactly
   * when that is too large for a double; `decimal128ToNumber` is this
   * number, or 0 when it is not finite.
   */
  lemma DecimalToNumberIsNumberOfString(d: Option<Decimal>)
    ensures ParseNumber(DecimalToString(d)).Finite? <==> d.None? || Abs(d.value.Value()) < InfinityBound
    ensures ParseNumber(DecimalToString(d)).Finite? ==> ParseNumber(DecimalToString(d)).v == (if d.Some? then d.value.Value() else 0.0)
    ensures DecimalToNumber(d) == (if ParseNumber(DecimalToString(d)).Finite? then ParseNumber(DecimalToString(d)) else Finite(0.0))
  {
    match d {
      case None =>
        ZeroString();
        ParseNumberFixedString(false, 0, 2);
        ScaledZero(2);
      case Some(x) =>
        ParseNumberFixedString(x.negative, x.magnitude, x.scale);
        assert DecimalToString(d) == x.ToString();
    }
  }

  /**
   * `numberToDecimal128`, defined by what it computes: a finite number
   * quantised to two digits, 0.00 for any other.
   * NumberToDecimal128IsFromString shows that this is
   * `Decimal128.fromString` of `toFixed(2)`, or of "0.00".
   */
  function NumberToDecimal128(n: Num): (r: Decimal)
    ensures r.scale == 2
    ensures n.NonFinite? ==> r == Decimal(false, 0, 2)
    ensures n.Finite? ==>
      && (r.negative <==> n.v < 0.0)
      && (r.magnitude as real) - 0.5 <= Abs(n.v) * 100.0 < (r.magnitude as real) + 0.5
  {
    if n.Finite? then Quantize(n.v, 2) else Decimal(false, 0, 2)
  }

  lemma NumberToDecimal128IsFromString(n: Num)
    ensures ParsePlainDecimal(if n.Finite? then ToFixed(n.v, 2) else "0.00") == Some(NumberToDecimal128(n))
  {
    if n.Finite? {
      FromStringToFixed(n.v, 2);
    } else {
      ZeroString();
      ParseFixedString(false, 0, 2);
    }
  }

  /** A number is quantised to within half a cent. */
  lemma NumberToDecimal128Error(x: real)
    ensures Abs(NumberToDecimal128(Finite(x)).Value() - x) <= 0.005
  {
    QuantizeError(x, 2);
  }

  /**
   * `stringToDecimal128`: `numberToDecimal128(Number(s))`, with 0.00 for
   * a string that is not a finite number.
   */
  function StringToDecimal128(s: string): (r: Decimal)
    ensures ParseNumber(s).Finite? ==> r == NumberToDecimal128(ParseNumber(s))
    ensures ParseNumber(s).NonFinite? ==> r == Decimal(false, 0, 2)
  {
    var n := ParseNumber(s);
    if n.NonFinite? then
      assert RoundedMagnitude(0.0, 2) == 0;
      NumberToDecimal128(Finite(0.0))
    else NumberToDecimal128(n)
  }

  // ---------------------------------------------------------------------------
  // Properties of the quantisation
  // ---------------------------------------------------------------------------

  /** A two-digit decimal is its signed coefficient in cents. */
  lemma CentsValue(d: Decimal)
    requires d.scale == 2
    ensures d.Value() == (if d.negative then -(d.magnitude as real) else d.magnitude as real) / 100.0
  {
    assert Pow10(2) == 100;
  }

  /**
   * Re-quantising a quantised value keeps its value, and keeps the decimal
   * itself unless it is a negative zero.
   */
  lemma QuantizeIdempotent(x: Num)
    requires x.Finite? ==> Abs(x.v) < FixedLimit
    ensures NumberToDecimal128(DecimalToNumber(Some(NumberToDecimal128(x)))).Value()
         == NumberToDecimal128(x).Value()
    ensures var d := NumberToDecimal128(x);
      !(d.negative && d.magnitude == 0) ==>
        NumberToDecimal128(DecimalToNumber(Some(d))) == d
  {
    var d := NumberToDecimal128(x);
    var y := DecimalToNumber(Some(d)).v;
    var e := NumberToDecimal128(Finite(y));
    CentsValue(d);
    var c := d.magnitude as real;
    assert Abs(y) * 100.0 == c;
    assert e.magnitude == d.magnitude;
    CentsValue(e);
    if d.negative && d.magnitude == 0 {
      assert y == 0.0;
    }
  }

  /**
   * The exception: a small negative amount is quantised to "-0.00", which
   * reads back as 0 and is re-quantised to "0.00".
   */
  lemma NegativeZeroNotIdempotent()
    ensures NumberToDecimal128(Finite(-0.001)) == Decimal(true, 0, 2)
    ensures NumberToDecimal128(DecimalToNumber(Some(Decimal(true, 0, 2)))) == Decimal(false, 0, 2)
    ensures Decimal(true, 0, 2).ToString() == "-0.00"
  {
    var d := NumberToDecimal128(Finite(-0.001));
    assert d.magnitude == 0;
    CentsValue(Decimal(true, 0, 2));
    ZeroString();
  }

  /** A whole-cent number is quantised to two digits without change. */
  lemma WholeCentsQuantized(k: int)
    ensures NumberToDecimal128(Finite(k as real / 100.0)).Value() == k as real / 100.0
  {
    var x := k as real / 100.0;
    var d := NumberToDecimal128(Finite(x));
    var a := if k < 0 then -k else k;
    assert Abs(x) * 100.0 == a as real;
    assert d.magnitude == a;
    CentsValue(d);
  }

  /** A whole-cent number survives numberToDecimal128 followed by decimal128ToNumber. */
  lemma WholeCentsRoundTrip(k: int)
    requires Abs(k as real / 100.0) < FixedLimit
    ensures DecimalToNumber(Some(NumberToDecimal128(Finite(k as real / 100.0)))) == Finite(k as real / 100.0)
  {
    WholeCentsQuantized(k);
  }
}
