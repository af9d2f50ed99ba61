/** The administrator's one-time code and the wait for a fresh one: e2e/lib/totp.ts. */
module OneTimeCode {
  import opened Wrappers
  import opened Text

  const Period := 30
  const Digits := 6

  type Byte = b: nat | b < 256

  /** What HMAC-SHA1 gives: twenty bytes. */
  type Digest = d: seq<Byte> | |d| == 20 witness seq(20, _ => 0)

  /** The keyed hash, by its key and its message. */
  type Mac = (seq<Byte>, seq<Byte>) -> Digest

  // ------------------------------------------------------------ the code

  function Pow(b: nat, n: nat): (r: nat)
    ensures b > 0 ==> r > 0
  {
    if n == 0 then 1 else Timed(b, Pow(b, n - 1))
  }

  /** A product, which is positive when its factors are. */
  function Timed(a: nat, b: nat): (r: nat)
    ensures a > 0 && b > 0 ==> r > 0
    ensures r == a * b
  {
    a * b
  }

  /** A number in so many bytes, the most significant first. */
  function BigEndian(n: nat, width: nat): seq<Byte> {
    if width == 0 then [] else BigEndian(n / 256, width - 1) + [n % 256]
  }

  function Word(d: seq<Byte>): nat {
    if d == [] then 0 else Word(d[..|d| - 1]) * 256 + d[|d| - 1]
  }

  function Padded(s: string, width: nat): string
    decreases width - |s|
  {
    if |s| >= width then s else Padded("0" + s, width)
  }

  /** `digest[last] & 0x0f`. */
  function Offset(d: Digest): nat {
    d[19] % 16
  }

  /** The four bytes at the offset, with the top bit off. */
  function Truncated(d: Digest): nat {
    Word(d[Offset(d)..Offset(d) + 4]) % 0x8000_0000
  }

  /** The truncation by its bytes: the low nibble of the last byte says where, and the first byte's top bit is off. */
  lemma TruncatedByItsBytes(d: Digest, o: nat)
    requires o == d[19] % 16
    ensures o + 4 <= 20
    ensures var a: int, b: int, c: int, e: int := d[o], d[o + 1], d[o + 2], d[o + 3];
            Truncated(d) == a % 128 * 0x100_0000 + b * 0x1_0000 + c * 0x100 + e
  {
    var four := d[o..o + 4];
    var a: int, b: int, c: int, e: int := d[o], d[o + 1], d[o + 2], d[o + 3];
    assert four[..3][..2][..1][..0] == [];
    assert Word(four[..3][..2][..1]) == a;
    assert Word(four[..3][..2]) == a * 256 + b;
    assert Word(four[..3]) == (a * 256 + b) * 256 + c;
    assert Word(four) == a * 0x100_0000 + b * 0x1_0000 + c * 0x100 + e;
  }

  /** The worked example of section 5.4 of RFC 4226. */
  const EXAMPLE: Digest := [0x1f, 0x86, 0x98, 0x69, 0x0e, 0x02, 0xca, 0x16, 0x61, 0x85,
                            0x50, 0xef, 0x7f, 0x19, 0xda, 0x8e, 0x94, 0x5b, 0x55, 0x5a]

  lemma TheExampleIsTruncated()
    ensures Offset(EXAMPLE) == 10 && Truncated(EXAMPLE) == 0x50ef7f19 && Truncated(EXAMPLE) % 1_000_000 == 872921
  {
    TruncatedByItsBytes(EXAMPLE, 10);
  }

  /** `codeAt`; writing a counter of more than eight bytes raises. */
  function CodeAt(mac: Mac, key: seq<Byte>, seconds: nat, digits: nat): Option<string> {
    var counter := seconds / Period;
    if counter >= 0x1_0000_0000_0000_0000 then None
    else
      var digest := mac(key, BigEndian(counter, 8));
      Some(Padded(Decimal(Truncated(digest) % Pow(10, digits)), digits))
  }

  /** A number below ten to a power has no more digits than the power. */
  lemma {:induction false} DecimalFits(n: nat, width: nat)
    requires width > 0
    ensures |Decimal(n)| <= width <==> n < Pow(10, width)
  {
    assert Pow(10, width) == 10 * Pow(10, width - 1);
    if n >= 10 && width == 1 {
      assert Pow(10, 0) == 1;
    } else if n >= 10 {
      DecimalFits(n / 10, width - 1);
    }
  }

  lemma {:induction false} PaddedIs(s: string, width: nat)
    ensures |Padded(s, width)| == if |s| >= width then |s| else width
    ensures Number(Padded(s, width)) == Number(s)
    ensures (forall i | 0 <= i < |s| :: '0' <= s[i] <= '9') ==>
              forall i | 0 <= i < |Padded(s, width)| :: '0' <= Padded(s, width)[i] <= '9'
    decreases width - |s|
  {
    if |s| < width {
      PaddedIs("0" + s, width);
      LeadingZero(s);
    }
  }

  lemma {:induction false} LeadingZero(s: string)
    ensures Number("0" + s) == Number(s)
  {
    if s == "" {
      assert ("0" + s)[..0] == "";
    } else {
      LeadingZero(s[..|s| - 1]);
      assert ("0" + s)[..|s|] == "0" + s[..|s| - 1];
    }
  }

  /**
   A code is the number the last nibble of the digest points at, modulo ten to the digits, written
   with exactly that many digits; only a code of no digits at all comes out one longer.
   */
  lemma CodeHasItsDigits(mac: Mac, key: seq<Byte>, seconds: nat, digits: nat)
    requires CodeAt(mac, key, seconds, digits).Some?
    ensures var code := CodeAt(mac, key, seconds, digits).value;
            && (|code| == digits <==> digits > 0)
            && (forall i | 0 <= i < |code| :: '0' <= code[i] <= '9')
            && Number(code) == Truncated(mac(key, BigEndian(seconds / Period, 8))) % Pow(10, digits)
  {
    var n := Truncated(mac(key, BigEndian(seconds / Period, 8)));
    PaddedIs(Decimal(n % Pow(10, digits)), digits);
    NumberOfDecimal(n % Pow(10, digits));
    if digits > 0 {
      DecimalFits(n % Pow(10, digits), digits);
    }
  }

  lemma {:induction false} WordOfBigEndian(n: nat, width: nat)
    requires n < Pow(256, width)
    ensures |BigEndian(n, width)| == width && Word(BigEndian(n, width)) == n
  {
    if width > 0 {
      WordOfBigEndian(n / 256, width - 1);
      assert BigEndian(n, width)[..width - 1] == BigEndian(n / 256, width - 1);
    }
  }

  /** A fresh code is asked for with six digits, and has them. */
  lemma AFreshCodeHasSixDigits(mac: Mac, key: seq<Byte>, seconds: nat)
    requires CodeAt(mac, key, seconds, Digits).Some?
    ensures |CodeAt(mac, key, seconds, Digits).value| == 6
  {
    CodeHasItsDigits(mac, key, seconds, Digits);
  }

  /** What is hashed is the period and nothing else of the time: two times share it exactly within one period. */
  lemma TheMessageIsThePeriod(a: nat, b: nat)
    requires a / Period < 0x1_0000_0000_0000_0000 && b / Period < 0x1_0000_0000_0000_0000
    ensures BigEndian(a / Period, 8) == BigEndian(b / Period, 8) <==> a / Period == b / Period
  {
    EightBytes();
    WordOfBigEndian(a / Period, 8);
    WordOfBigEndian(b / Period, 8);
  }

  lemma EightBytes()
    ensures Pow(256, 8) == 0x1_0000_0000_0000_0000
  {
    assert Pow(256, 4) == 256 * (256 * (256 * 256));
    assert Pow(256, 8) == 256 * (256 * (256 * (256 * Pow(256, 4))));
  }

  // ------------------------------------------------------------ a fresh code

  /** A number as a script holds it, but for rounding. */
  datatype Last = At(value: real) | PlusInfinity | MinusInfinity | NotANumber

  predicate AllDigits(s: string) {
    forall i | 0 <= i < |s| :: '0' <= s[i] <= '9'
  }

  /** What a letter or digit counts for in a numeral of radix up to sixteen, or sixteen if nothing. */
  function DigitValue(c: char): nat {
    if '0' <= c <= '9' then c as int - '0' as int
    else if 'a' <= c <= 'f' then c as int - 'a' as int + 10
    else if 'A' <= c <= 'F' then c as int - 'A' as int + 10
    else 16
  }

  function InRadix(s: string, radix: nat): nat {
    if s == "" then 0 else InRadix(s[..|s| - 1], radix) * radix + DigitValue(s[|s| - 1])
  }

  function RadixOf(c: char): nat {
    if c == 'x' || c == 'X' then 16 else if c == 'o' || c == 'O' then 8 else if c == 'b' || c == 'B' then 2 else 0
  }

  /** Ten to a power of either sign. */
  function TenTo(e: int): real {
    if e >= 0 then Pow(10, e) as real else 1.0 / Pow(10, -e) as real
  }

  /** Digits with a point in them or not, without a sign or an exponent. */
  predicate IsMantissa(s: string) {
    var point := IndexOfChar(s, '.');
    var (whole, part) := (s[..point], if point < |s| then s[point + 1..] else "");
    AllDigits(whole) && AllDigits(part) && (whole != "" || part != "")
  }

  function Mantissa(s: string): real {
    var point := IndexOfChar(s, '.');
    var part := if point < |s| then s[point + 1..] else "";
    Number(s[..point] + part) as real * TenTo(-|part|)
  }

  /** A sign, taken off. */
  function Unsigned(s: string): string {
    if s != "" && (s[0] == '+' || s[0] == '-') then s[1..] else s
  }

  function Negated(s: string): bool {
    s != "" && s[0] == '-'
  }

  /** A decimal literal without a sign: a mantissa, and an exponent after the first `e` or `E` if there is one. */
  function Decimals(s: string): Last {
    var mark := if IndexOfChar(s, 'e') < IndexOfChar(s, 'E') then IndexOfChar(s, 'e') else IndexOfChar(s, 'E');
    var exponent := if mark < |s| then s[mark + 1..] else "0";
    var digits := Unsigned(exponent);
    if !IsMantissa(s[..mark]) || digits == "" || !AllDigits(digits) then NotANumber
    else At(Mantissa(s[..mark]) * TenTo(if Negated(exponent) then -Number(digits) else Number(digits)))
  }

  /** A decimal literal or infinity, with or without a sign. */
  function Signed(s: string): Last {
    if Unsigned(s) == INFINITY then
      if Negated(s) then MinusInfinity else PlusInfinity
    else
      match Decimals(Unsigned(s))
      case At(value) => At(if Negated(s) then -value else value)
      case other => other
  }

  const INFINITY := "Infinity"

  predicate IsRadixLiteral(s: string) {
    |s| > 2 && s[0] == '0' && RadixOf(s[1]) > 0
  }

  /** `Number(text)`: nothing at all is nought, and a literal with a radix takes no sign. */
  function NumberOf(text: string): Last {
    var s := Trimmed(text);
    if s == "" then At(0.0)
    else if !IsRadixLiteral(s) then Signed(s)
    else if forall i | 2 <= i < |s| :: DigitValue(s[i]) < RadixOf(s[1]) then At(InRadix(s[2..], RadixOf(s[1])) as real)
    else NotANumber
  }

  /** `lastPeriod`: minus one where there is no file. */
  function LastPeriod(file: Option<string>): Last {
    match file
    case None => At(-1.0)
    case Some(text) => NumberOf(text)
  }

  function Seconds(ms: nat): nat {
    ms / 1000
  }

  function PeriodOf(ms: nat): nat {
    Seconds(ms) / Period
  }

  /** A period later than the last one used; nothing is later than what is not a number. */
  predicate LaterThan(last: Last, period: nat) {
    match last
    case At(value) => period as real > value
    case MinusInfinity => true
    case PlusInfinity => false
    case NotANumber => false
  }

  /** A later period than the last one used, with more than two seconds of it left. */
  predicate Usable(last: Last, ms: nat) {
    LaterThan(last, PeriodOf(ms)) && Period - Seconds(ms) % Period > 2
  }

  class Authenticator {
    const mac: Mac
    /** The ledger file every worker shares. */
    var file: Option<string>

    constructor (mac: Mac)
      ensures this.mac == mac && file == None
    {
      this.mac := mac;
      file := None;
    }

    /**
     `freshCode`, over what the clock reads at each pass: the first usable reading gives the code, and
     its period is written down before the code is given out.
     */
    method FreshCode(key: seq<Byte>, clock: seq<nat>) returns (r: Option<(nat, Option<string>)>)
      modifies this
      ensures r.None? ==> file == old(file) && forall i | 0 <= i < |clock| :: !Usable(LastPeriod(old(file)), clock[i])
      ensures r.Some? ==>
                && r.value.0 < |clock| && Usable(LastPeriod(old(file)), clock[r.value.0])
                && (forall i | 0 <= i < r.value.0 :: !Usable(LastPeriod(old(file)), clock[i]))
                && r.value.1 == CodeAt(mac, key, Seconds(clock[r.value.0]), Digits)
                && file == Some(Decimal(PeriodOf(clock[r.value.0])))
      ensures (r, file) == After(mac, key, old(file), clock)
    {
      var last := LastPeriod(file);
      for i := 0 to |clock|
        invariant file == old(file)
        invariant forall j | 0 <= j < i :: !Usable(last, clock[j])
      {
        if Usable(last, clock[i]) {
          FirstUsableIs(last, clock, i);
          file := Some(Decimal(PeriodOf(clock[i])));
          return Some((i, CodeAt(mac, key, Seconds(clock[i]), Digits)));
        }
      }
      NoneUsable(last, clock);
      r := None;
    }
  }

  // ------------------------------------------------------------ what one call leaves

  function FirstUsable(last: Last, clock: seq<nat>): Option<nat> {
    if clock == [] then None
    else if Usable(last, clock[0]) then Some(0)
    else match FirstUsable(last, clock[1..])
         case None => None
         case Some(i) => Some(i + 1)
  }

  lemma {:induction false} FirstUsableIs(last: Last, clock: seq<nat>, i: nat)
    requires i < |clock| && Usable(last, clock[i]) && forall j | 0 <= j < i :: !Usable(last, clock[j])
    ensures FirstUsable(last, clock) == Some(i)
  {
    if i > 0 {
      FirstUsableIs(last, clock[1..], i - 1);
    }
  }

  lemma {:induction false} NoneUsable(last: Last, clock: seq<nat>)
    requires forall j | 0 <= j < |clock| :: !Usable(last, clock[j])
    ensures FirstUsable(last, clock) == None
  {
    if clock != [] {
      NoneUsable(last, clock[1..]);
    }
  }

  lemma {:induction false} FirstUsableFound(last: Last, clock: seq<nat>)
    ensures var r := FirstUsable(last, clock);
            && (r.None? ==> forall j | 0 <= j < |clock| :: !Usable(last, clock[j]))
            && (r.Some? ==> r.value < |clock| && Usable(last, clock[r.value]))
            && (r.Some? ==> forall j | 0 <= j < r.value :: !Usable(last, clock[j]))
  {
    if clock != [] && !Usable(last, clock[0]) {
      FirstUsableFound(last, clock[1..]);
    }
  }

  function After(mac: Mac, key: seq<Byte>, file: Option<string>, clock: seq<nat>)
    : (Option<(nat, Option<string>)>, Option<string>)
  {
    FirstUsableFound(LastPeriod(file), clock);
    match FirstUsable(LastPeriod(file), clock)
    case None => (None, file)
    case Some(i) => (Some((i, CodeAt(mac, key, Seconds(clock[i]), Digits))), Some(Decimal(PeriodOf(clock[i]))))
  }

  // ------------------------------------------------------------ any number of calls

  /** The periods of the codes given out by a run of calls that share the file, in order. */
  function Used(file: Option<string>, calls: seq<seq<nat>>): seq<nat>
    decreases |calls|
  {
    if calls == [] then []
    else
      FirstUsableFound(LastPeriod(file), calls[0]);
      match FirstUsable(LastPeriod(file), calls[0])
      case None => Used(file, calls[1..])
      case Some(i) =>
        var p := PeriodOf(calls[0][i]);
        [p] + Used(Some(Decimal(p)), calls[1..])
  }

  lemma NoMark(s: string, c: char)
    requires AllDigits(s) && !('0' <= c <= '9')
    ensures IndexOfChar(s, c) == |s|
  {
  }

  lemma DigitsAreNotTrimmed(s: string)
    requires s != "" && AllDigits(s)
    ensures Trimmed(s) == s && Unsigned(s) == s && !Negated(s)
  {
    assert !IsWhite(s[0]) && !IsWhite(s[|s| - 1]);
  }

  lemma DigitsAreAMantissa(s: string)
    requires s != "" && AllDigits(s)
    ensures IsMantissa(s) && Mantissa(s) == Number(s) as real
  {
    NoMark(s, '.');
    assert s[..|s|] == s && s + "" == s;
    assert Mantissa(s) == Number(s) as real * TenTo(0);
    assert TenTo(0) == 1.0;
  }

  lemma DigitsAreDecimals(s: string)
    requires s != "" && AllDigits(s)
    ensures Decimals(s) == At(Number(s) as real)
  {
    NoMark(s, 'e');
    NoMark(s, 'E');
    assert s[..|s|] == s;
    DigitsAreAMantissa(s);
    NoExponent();
  }

  lemma NoExponent()
    ensures AllDigits("0") && Unsigned("0") == "0" && !Negated("0") && Number("0") == 0 && TenTo(0) == 1.0
  {
    assert "0"[..0] == "";
  }

  lemma DigitsAreSigned(s: string)
    requires s != "" && AllDigits(s)
    ensures Signed(s) == At(Number(s) as real)
  {
    DigitsAreNotTrimmed(s);
    DigitsAreDecimals(s);
    assert INFINITY[0] == 'I';
  }

  lemma NoRadix(s: string)
    requires s != "" && Trimmed(s) == s && !IsRadixLiteral(s)
    ensures NumberOf(s) == Signed(s)
  {
  }

  lemma DigitsHaveNoRadix(s: string)
    requires AllDigits(s)
    ensures !IsRadixLiteral(s)
  {
    if |s| > 2 {
      assert '0' <= s[1] <= '9';
    }
  }

  /** Plain digits are read as the number they are. */
  lemma DigitsAreRead(s: string)
    requires s != "" && AllDigits(s)
    ensures NumberOf(s) == At(Number(s) as real)
  {
    DigitsAreNotTrimmed(s);
    DigitsHaveNoRadix(s);
    NoRadix(s);
    DigitsAreSigned(s);
  }

  /** A period written down is read back as that period. */
  lemma WrittenIsRead(p: nat)
    ensures LastPeriod(Some(Decimal(p))) == At(p as real)
  {
    NumberOfDecimal(p);
    DigitsAreRead(Decimal(p));
  }

  /** Where there is no file yet every period is late enough. */
  lemma NoFileBarsNothing(period: nat)
    ensures LaterThan(LastPeriod(None), period)
  {
  }

  /** No two codes of a run are from one period, nor is any from the period the file began with. */
  lemma {:induction false} PeriodsOnlyIncrease(file: Option<string>, calls: seq<seq<nat>>)
    ensures forall i, j | 0 <= i < j < |Used(file, calls)| :: Used(file, calls)[i] < Used(file, calls)[j]
    ensures forall p | p in Used(file, calls) :: LaterThan(LastPeriod(file), p)
    decreases |calls|
  {
    if calls != [] {
      FirstUsableFound(LastPeriod(file), calls[0]);
      var first := FirstUsable(LastPeriod(file), calls[0]);
      if first.None? {
        assert Used(file, calls) == Used(file, calls[1..]);
        PeriodsOnlyIncrease(file, calls[1..]);
      } else {
        var p := PeriodOf(calls[0][first.value]);
        WrittenIsRead(p);
        PeriodsOnlyIncrease(Some(Decimal(p)), calls[1..]);
        var rest := Used(Some(Decimal(p)), calls[1..]);
        assert Used(file, calls) == [p] + rest;
        forall i | 0 <= i < |rest| ensures p < rest[i] {
          assert rest[i] in rest && LaterThan(At(p as real), rest[i]);
        }
      }
    }
  }

  ghost predicate StopsEveryCall(last: Last) {
    forall clock :: FirstUsable(last, clock).None?
  }

  /** The least whole number past a bound. */
  function Past(value: real): (n: nat)
    ensures n as real > value
  {
    if value < 0.0 then 0 else value.Floor + 1
  }

  /**
   No call ever returns, whatever the clock reads, exactly when the file holds what `Number` makes no
   number of or makes infinite: for any other file a late enough reading is usable.
   */
  lemma ASpoiltFileStopsEveryCall(file: Option<string>)
    ensures StopsEveryCall(LastPeriod(file))
       <==> LastPeriod(file).NotANumber? || LastPeriod(file).PlusInfinity?
  {
    var last := LastPeriod(file);
    if last.NotANumber? || last.PlusInfinity? {
      forall clock ensures FirstUsable(last, clock).None? {
        NoneUsable(last, clock);
      }
    } else {
      var period := if last.At? then Past(last.value) else 0;
      var ms := period * Period * 1000;
      assert PeriodOf(ms) == period && Seconds(ms) % Period == 0;
      var clock: seq<nat> := [ms];
      assert Usable(last, clock[0]);
      assert FirstUsable(last, clock) == Some(0);
    }
  }

  /** What white space at either end does to a file of digits: nothing. */
  lemma SpacesSpoilNothing(before: string, digits: string, after: string)
    requires digits != "" && AllDigits(digits)
    requires forall i | 0 <= i < |before| :: IsWhite(before[i])
    requires forall i | 0 <= i < |after| :: IsWhite(after[i])
    ensures LastPeriod(Some(before + digits + after)) == At(Number(digits) as real)
  {
    SpacesAreTrimmed(before, digits, after);
    DigitsAreNotTrimmed(digits);
    DigitsAreRead(digits);
  }

  /** Numerals of the other kinds, as they are read. */
  lemma OtherNumerals()
    ensures NumberOf("1e3") == At(1000.0) && NumberOf("-5") == At(-5.0) && NumberOf(".5") == At(0.5)
    ensures NumberOf("0x1F") == At(31.0) && NumberOf("-Infinity") == MinusInfinity && NumberOf("-0x1") == NotANumber
  {
    ReadsExponent();
    ReadsSign();
    ReadsFraction();
    ReadsRadix();
    ReadsInfinity();
  }

  lemma ReadsExponent()
    ensures NumberOf("1e3") == At(1000.0)
  {
    assert Trimmed("1e3") == "1e3" && Unsigned("1e3") == "1e3";
    AThousand();
    NoRadix("1e3");
  }

  lemma AThousand()
    ensures Decimals("1e3") == At(1000.0)
  {
    assert IndexOfChar("1e3", 'e') == 1 && IndexOfChar("1e3", 'E') == 3;
    assert "1e3"[..1] == "1" && "1e3"[2..] == "3";
    DigitsAreAMantissa("1");
    OneDigit("1");
    OneDigit("3");
    assert Pow(10, 3) == 10 * (10 * (10 * Pow(10, 0)));
    assert Decimals("1e3") == At(1.0 * TenTo(3));
  }

  lemma OneDigit(s: string)
    requires |s| == 1 && AllDigits(s)
    ensures Number(s) == s[0] as int - '0' as int
  {
    assert s[..0] == "";
  }

  lemma ReadsSign()
    ensures NumberOf("-5") == At(-5.0)
  {
    assert Trimmed("-5") == "-5" && Unsigned("-5") == "5";
    DigitsAreDecimals("5");
    OneDigit("5");
    NoRadix("-5");
  }

  lemma AHalf()
    ensures IsMantissa(".5") && Mantissa(".5") == 0.5
  {
    assert IndexOfChar(".5", '.') == 0 && ".5"[..0] == "" && ".5"[1..] == "5" && "" + "5" == "5";
    OneDigit("5");
    assert Pow(10, 1) == 10 * Pow(10, 0);
    assert Mantissa(".5") == 5.0 * TenTo(-1);
  }

  lemma HalfInDecimals()
    ensures Decimals(".5") == At(0.5)
  {
    assert IndexOfChar(".5", 'e') == IndexOfChar(".5", 'E') == 2 && ".5"[..2] == ".5";
    AHalf();
    NoExponent();
    assert Decimals(".5") == At(0.5 * TenTo(0));
  }

  lemma ReadsFraction()
    ensures NumberOf(".5") == At(0.5)
  {
    assert Trimmed(".5") == ".5" && Unsigned(".5") == ".5";
    HalfInDecimals();
    NoRadix(".5");
  }

  lemma ReadsRadix()
    ensures NumberOf("0x1F") == At(31.0) && NumberOf("-0x1") == NotANumber
  {
    ReadsHex();
    SignedHexIsNone();
  }

  lemma ReadsHex()
    ensures NumberOf("0x1F") == At(31.0)
  {
    assert Trimmed("0x1F") == "0x1F" && "0x1F"[2..] == "1F" && "1F"[..1] == "1" && "1"[..0] == "";
    assert InRadix("1F", 16) == InRadix("1", 16) * 16 + 15;
  }

  lemma SignedHexIsNone()
    ensures NumberOf("-0x1") == NotANumber
  {
    assert Trimmed("-0x1") == "-0x1" && Unsigned("-0x1") == "0x1";
    NoDecimals();
    assert "0x1"[0] != INFINITY[0];
    NoRadix("-0x1");
  }

  lemma NoDecimals()
    ensures Decimals("0x1") == NotANumber
  {
    assert IndexOfChar("0x1", 'e') == IndexOfChar("0x1", 'E') == IndexOfChar("0x1", '.') == 3;
    assert "0x1"[..3] == "0x1" && "0x1"[1] == 'x' && !AllDigits("0x1");
    assert !IsMantissa("0x1");
  }

  lemma ReadsInfinity()
    ensures NumberOf("-Infinity") == MinusInfinity
  {
    assert Trimmed("-Infinity") == "-Infinity" && Unsigned("-Infinity") == INFINITY;
    NoRadix("-Infinity");
  }

  /** Text that is none of these numerals, such as one letter, does spoil it. */
  lemma ALetterIsNoNumber(c: char)
    requires 'f' <= c <= 'z'
    ensures LastPeriod(Some([c])) == NotANumber
  {
    var s := [c];
    assert Trimmed(s) == s && Unsigned(s) == s && |s| == 1;
    assert IndexOfChar(s, 'e') == IndexOfChar(s, 'E') == IndexOfChar(s, '.') == 1;
    assert s[..1] == s && s[0] == c && !AllDigits(s);
    assert !IsMantissa(s);
    assert |INFINITY| > 1;
  }

  // ------------------------------------------------------------ how long it waits

  /** Each pass finds the clock between one second and `most` seconds on. */
  predicate Advances(clock: seq<nat>, most: nat) {
    forall i | 0 <= i < |clock| - 1 :: 1 <= Seconds(clock[i + 1]) - Seconds(clock[i]) <= most
  }

  lemma {:induction false} AtLeastSoFar(clock: seq<nat>, most: nat, i: nat)
    requires Advances(clock, most) && i < |clock|
    ensures Seconds(clock[i]) >= Seconds(clock[0]) + i
  {
    if i > 0 {
      AtLeastSoFar(clock, most, i - 1);
      assert 1 <= Seconds(clock[i - 1 + 1]) - Seconds(clock[i - 1]);
    }
  }

  /** The first reading past an unusable one that reaches a new period is early enough in it. */
  lemma ANewPeriodIsUsable(last: Last, before: nat, now: nat)
    requires !LaterThan(last, PeriodOf(before)) && LaterThan(last, PeriodOf(now))
    requires 1 <= Seconds(now) - Seconds(before) <= 28
    ensures PeriodOf(now) == PeriodOf(before) + 1 && Usable(last, now)
  {
    assert PeriodOf(before) < PeriodOf(now);
  }

  /** A file that is not ahead of a period. */
  predicate NotAhead(last: Last, period: nat) {
    match last
    case At(value) => value <= period as real
    case MinusInfinity => true
    case PlusInfinity => false
    case NotANumber => false
  }

  /**
   With the file no later than the clock, and a clock that moves on by one to twenty-eight seconds a
   pass, a fresh code comes within thirty waits.
   */
  lemma AFreshCodeWithinThirtyWaits(file: Option<string>, clock: seq<nat>)
    requires |clock| >= 31 && Advances(clock, 28)
    requires NotAhead(LastPeriod(file), PeriodOf(clock[0]))
    ensures FirstUsable(LastPeriod(file), clock).Some? && FirstUsable(LastPeriod(file), clock).value <= 30
  {
    var last := LastPeriod(file);
    var i := FirstNewPeriod(last, clock);
    var at := i;
    if i > 0 {
      assert 1 <= Seconds(clock[i - 1 + 1]) - Seconds(clock[i - 1]) <= 28;
      ANewPeriodIsUsable(last, clock[i - 1], clock[i]);
    } else {
      at := UsableByTheThird(last, clock);
    }
    assert Usable(last, clock[at]);
    FirstUsableFound(last, clock);
  }

  /** The first reading past the period last used comes within thirty seconds of the first. */
  lemma FirstNewPeriod(last: Last, clock: seq<nat>) returns (i: nat)
    requires |clock| >= 31 && Advances(clock, 28) && NotAhead(last, PeriodOf(clock[0]))
    ensures i <= 30 && LaterThan(last, PeriodOf(clock[i])) && (i > 0 ==> !LaterThan(last, PeriodOf(clock[i - 1])))
  {
    AtLeastSoFar(clock, 28, 30);
    assert PeriodOf(clock[30]) > PeriodOf(clock[0]);
    i := 0;
    while !LaterThan(last, PeriodOf(clock[i]))
      invariant 0 <= i <= 30
      invariant i > 0 ==> !LaterThan(last, PeriodOf(clock[i - 1]))
      decreases 30 - i
    {
      i := i + 1;
    }
  }

  /** From a reading past the period last used, one of the next three is early enough. */
  lemma UsableByTheThird(last: Last, clock: seq<nat>) returns (at: nat)
    requires |clock| >= 3 && Advances(clock, 28) && LaterThan(last, PeriodOf(clock[0]))
    ensures at <= 2 && Usable(last, clock[at])
  {
    assert 1 <= Seconds(clock[0 + 1]) - Seconds(clock[0]) <= 28;
    assert 1 <= Seconds(clock[1 + 1]) - Seconds(clock[1]) <= 28;
    LaterStays(last, PeriodOf(clock[0]), PeriodOf(clock[1]));
    LaterStays(last, PeriodOf(clock[0]), PeriodOf(clock[2]));
    at := if Usable(last, clock[0]) then 0 else if Usable(last, clock[1]) then 1 else 2;
  }

  lemma LaterStays(last: Last, p: nat, q: nat)
    requires p <= q && LaterThan(last, p)
    ensures LaterThan(last, q)
  {
  }

  /** Thirty waits can be needed: a clock that moves on a second a pass, just after a code was used. */
  lemma ThirtyWaitsAreNeeded(period: nat, clock: seq<nat>)
    requires |clock| == 30 && forall i | 0 <= i < 30 :: clock[i] == (period * Period + i) * 1000
    ensures Advances(clock, 28) && FirstUsable(At(period as real), clock) == None
  {
    forall i | 0 <= i < 30 ensures PeriodOf(clock[i]) == period && Seconds(clock[i]) == period * Period + i {
    }
    NoneUsable(At(period as real), clock);
  }

  /** At twenty-nine seconds a pass there is no bound: a clock can step over every usable second for ever. */
  lemma TwentyNineIsTooFar(n: nat, clock: seq<nat>)
    requires |clock| == n && forall i | 0 <= i < n :: clock[i] == (i / 2 * Period + 28 + i % 2) * 1000
    ensures Advances(clock, 29) && FirstUsable(At(-1.0), clock) == None
  {
    forall i | 0 <= i < n ensures Seconds(clock[i]) % Period >= 28 && Seconds(clock[i]) == i / 2 * Period + 28 + i % 2 {
    }
    NoneUsable(At(-1.0), clock);
  }
}
