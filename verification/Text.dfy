/** Numbers and instants as the text the database renders. */
module Text {

  function Digit(n: nat): char
    requires n < 10
  {
    ('0' as int + n) as char
  }

  /** A natural number in decimal, as `::text` and `String()` print it. */
  function Decimal(n: nat): (s: string)
    ensures s != "" && forall i | 0 <= i < |s| :: '0' <= s[i] <= '9'
  {
    if n < 10 then [Digit(n)] else Decimal(n / 10) + [Digit(n % 10)]
  }

  /** The number a run of digits denotes. */
  function Number(s: string): int {
    if s == "" then 0 else 10 * Number(s[..|s| - 1]) + (s[|s| - 1] as int - '0' as int)
  }

  lemma {:induction false} NumberOfDecimal(n: nat)
    ensures Number(Decimal(n)) == n
  {
    if n >= 10 {
      NumberOfDecimal(n / 10);
      assert Decimal(n)[..|Decimal(n)| - 1] == Decimal(n / 10);
    } else {
      assert Decimal(n)[..0] == "";
    }
  }

  lemma DecimalInjective(m: nat, n: nat)
    requires Decimal(m) == Decimal(n)
    ensures m == n
  {
    NumberOfDecimal(m);
    NumberOfDecimal(n);
  }

  /** Where a character first is, or the length where it is nowhere. */
  function IndexOfChar(s: string, c: char): (i: nat)
    ensures i <= |s|
    ensures i < |s| ==> s[i] == c
    ensures forall j | 0 <= j < i :: s[j] != c
  {
    if s == "" || s[0] == c then 0 else 1 + IndexOfChar(s[1..], c)
  }

  lemma IndexAfter(a: string, c: char, b: string)
    requires c !in a
    ensures IndexOfChar(a + [c] + b, c) == |a|
  {
    var s := a + [c] + b;
    assert s[|a|] == c && forall j | 0 <= j < |a| :: s[j] == a[j];
  }

  /** Digits ending at a mark that is not a digit: the same text splits one way only. */
  lemma DecimalThenMark(m: nat, n: nat, mark: char, a: string, b: string)
    requires !('0' <= mark <= '9')
    requires Decimal(m) + [mark] + a == Decimal(n) + [mark] + b
    ensures m == n && a == b
  {
    var s, t := Decimal(m) + [mark] + a, Decimal(n) + [mark] + b;
    IndexAfter(Decimal(m), mark, a);
    IndexAfter(Decimal(n), mark, b);
    assert Decimal(m) == s[..|Decimal(m)|] && Decimal(n) == t[..|Decimal(n)|];
    DecimalInjective(m, n);
    assert a == s[|Decimal(m)| + 1..] && b == t[|Decimal(n)| + 1..];
  }

  /** White space and line ends, as JavaScript's `trim` and `Number` take them off. */
  predicate IsWhite(c: char) {
    || '\U{0009}' <= c <= '\U{000D}' || c == ' ' || c == '\U{00A0}' || c == '\U{1680}'
    || '\U{2000}' <= c <= '\U{200A}' || c == '\U{2028}' || c == '\U{2029}'
    || c == '\U{202F}' || c == '\U{205F}' || c == '\U{3000}' || c == '\U{FEFF}'
  }

  /** `trim`. */
  function Trimmed(s: string): string {
    if s != "" && IsWhite(s[0]) then Trimmed(s[1..])
    else if s != "" && IsWhite(s[|s| - 1]) then Trimmed(s[..|s| - 1])
    else s
  }

  /** Trimming takes off white space at the ends, all of it and nothing else. */
  lemma {:induction false} SpacesAreTrimmed(before: string, s: string, after: string)
    requires s != "" && !IsWhite(s[0]) && !IsWhite(s[|s| - 1])
    requires forall i | 0 <= i < |before| :: IsWhite(before[i])
    requires forall i | 0 <= i < |after| :: IsWhite(after[i])
    ensures Trimmed(before + s + after) == s
    decreases |before| + |after|
  {
    var all := before + s + after;
    if before != "" {
      assert all[0] == before[0] && all[1..] == before[1..] + s + after;
      SpacesAreTrimmed(before[1..], s, after);
    } else if after != "" {
      assert all[0] == s[0] && all[|all| - 1] == after[|after| - 1];
      assert all[..|all| - 1] == before + s + after[..|after| - 1];
      SpacesAreTrimmed(before, s, after[..|after| - 1]);
    } else {
      assert all == s;
    }
  }

  lemma {:induction false} TrimmedToNothing(s: string)
    ensures Trimmed(s) == "" <==> forall i | 0 <= i < |s| :: IsWhite(s[i])
  {
    if s != "" && IsWhite(s[0]) {
      TrimmedToNothing(s[1..]);
      assert forall i | 0 < i < |s| :: s[i] == s[1..][i - 1];
    } else if s != "" && IsWhite(s[|s| - 1]) {
      TrimmedToNothing(s[..|s| - 1]);
    }
  }

  // ------------------------------------------------------------ timestamps

  /** A UTC instant of the common era, by its calendar fields, to the microsecond. */
  datatype Instant = Instant(year: nat, month: nat, day: nat, hour: nat, minute: nat, second: nat, micro: nat)

  predicate IsInstant(t: Instant) {
    && 1 <= t.year && 1 <= t.month <= 12 && 1 <= t.day <= 31
    && t.hour < 24 && t.minute < 60 && t.second < 60 && t.micro < 1_000_000
  }

  function TwoDigits(n: nat): string
    requires n < 100
  {
    [Digit(n / 10), Digit(n % 10)]
  }

  function SixDigits(n: nat): string
    requires n < 1_000_000
  {
    TwoDigits(n / 10000) + TwoDigits(n / 100 % 100) + TwoDigits(n % 100)
  }

  /** `YYYY`: at least four digits, and as many as the year needs. */
  function Year(n: nat): string {
    if n < 10000 then TwoDigits(n / 100) + TwoDigits(n % 100) else Decimal(n)
  }

  /** `-MM-DD"T"HH24:MI:SS`. */
  function Clock(t: Instant): string
    requires IsInstant(t)
  {
    "-" + TwoDigits(t.month) + "-" + TwoDigits(t.day) + "T" + TwoDigits(t.hour)
    + ":" + TwoDigits(t.minute) + ":" + TwoDigits(t.second)
  }

  /** `to_char` with microseconds, which are dropped whole when they are zero. */
  function Stamp(t: Instant): string
    requires IsInstant(t)
  {
    var full := Year(t.year) + Clock(t) + "." + SixDigits(t.micro);
    var trimmed := if full[|full| - 7..] == ".000000" then full[..|full| - 7] else full;
    trimmed + "+00:00"
  }

  lemma TwoDigitsInjective(m: nat, n: nat)
    requires m < 100 && n < 100 && TwoDigits(m) == TwoDigits(n)
    ensures m == n
  {
    assert TwoDigits(m)[0] == TwoDigits(n)[0] && TwoDigits(m)[1] == TwoDigits(n)[1];
  }

  lemma SixDigitsInPairs(n: nat)
    requires n < 1_000_000
    ensures |SixDigits(n)| == 6
    ensures SixDigits(n)[..2] == TwoDigits(n / 10000)
    ensures SixDigits(n)[2..4] == TwoDigits(n / 100 % 100)
    ensures SixDigits(n)[4..] == TwoDigits(n % 100)
  {
  }

  lemma SixDigitsInjective(m: nat, n: nat)
    requires m < 1_000_000 && n < 1_000_000 && SixDigits(m) == SixDigits(n)
    ensures m == n
  {
    SixDigitsInPairs(m);
    SixDigitsInPairs(n);
    TwoDigitsInjective(m / 10000, n / 10000);
    TwoDigitsInjective(m / 100 % 100, n / 100 % 100);
    TwoDigitsInjective(m % 100, n % 100);
    InPairs(m);
    InPairs(n);
  }

  lemma InPairs(n: nat)
    ensures n == n / 10000 * 10000 + n / 100 % 100 * 100 + n % 100
  {
    assert n / 100 / 100 == n / 10000;
  }

  lemma YearInjective(m: nat, n: nat)
    requires Year(m) == Year(n)
    ensures m == n
  {
    if m < 10000 && n < 10000 {
      assert Year(m)[..2] == TwoDigits(m / 100) && Year(n)[..2] == TwoDigits(n / 100);
      assert Year(m)[2..] == TwoDigits(m % 100) && Year(n)[2..] == TwoDigits(n % 100);
      TwoDigitsInjective(m / 100, n / 100);
      TwoDigitsInjective(m % 100, n % 100);
    } else if m >= 10000 && n >= 10000 {
      DecimalInjective(m, n);
    } else {
      DecimalLength(if m >= 10000 then m else n);
    }
  }

  lemma DecimalLength(n: nat)
    requires n >= 10000
    ensures |Decimal(n)| >= 5
  {
    assert n / 10 / 10 / 10 / 10 >= 1;
    assert |Decimal(n)| == |Decimal(n / 10)| + 1;
    assert |Decimal(n / 10)| == |Decimal(n / 10 / 10)| + 1;
    assert |Decimal(n / 10 / 10)| == |Decimal(n / 10 / 10 / 10)| + 1;
    assert |Decimal(n / 10 / 10 / 10)| == |Decimal(n / 10 / 10 / 10 / 10)| + 1;
  }

  lemma ClockInjective(t: Instant, u: Instant)
    requires IsInstant(t) && IsInstant(u) && Clock(t) == Clock(u)
    ensures t.month == u.month && t.day == u.day
    ensures t.hour == u.hour && t.minute == u.minute && t.second == u.second
  {
    var s, r := Clock(t), Clock(u);
    assert s[1..3] == TwoDigits(t.month) && r[1..3] == TwoDigits(u.month);
    assert s[4..6] == TwoDigits(t.day) && r[4..6] == TwoDigits(u.day);
    assert s[7..9] == TwoDigits(t.hour) && r[7..9] == TwoDigits(u.hour);
    assert s[10..12] == TwoDigits(t.minute) && r[10..12] == TwoDigits(u.minute);
    assert s[13..15] == TwoDigits(t.second) && r[13..15] == TwoDigits(u.second);
    TwoDigitsInjective(t.month, u.month);
    TwoDigitsInjective(t.day, u.day);
    TwoDigitsInjective(t.hour, u.hour);
    TwoDigitsInjective(t.minute, u.minute);
    TwoDigitsInjective(t.second, u.second);
  }

  /** Two texts ending in equally long pieces are equal piece by piece. */
  lemma SameTail(a: string, b: string, x: string, y: string)
    requires a + x == b + y && |x| == |y|
    ensures a == b && x == y
  {
    assert |a| == |b|;
    assert a == (a + x)[..|a|] && b == (b + y)[..|b|];
    assert x == (a + x)[|a|..] && y == (b + y)[|b|..];
  }

  lemma EndsIn(head: string, tail: string)
    ensures var full := head + tail;
            full[|full| - |tail|..] == tail && full[..|full| - |tail|] == head
  {
  }

  lemma NoMicros(micro: nat)
    requires micro < 1_000_000
    ensures "." + SixDigits(micro) == ".000000" <==> micro == 0
  {
    var tail := "." + SixDigits(micro);
    if tail == ".000000" {
      assert SixDigits(micro) == tail[1..] == "000000" == SixDigits(0);
      SixDigitsInjective(micro, 0);
    }
  }

  lemma StampShape(t: Instant)
    requires IsInstant(t)
    ensures Stamp(t) == (if t.micro == 0 then Year(t.year) + Clock(t)
                         else Year(t.year) + Clock(t) + "." + SixDigits(t.micro)) + "+00:00"
  {
    var head, tail := Year(t.year) + Clock(t), "." + SixDigits(t.micro);
    assert head + "." + SixDigits(t.micro) == head + tail;
    SixDigitsInPairs(t.micro);
    EndsIn(head, tail);
    NoMicros(t.micro);
  }

  /** The thirteenth character from the end is the decimal point exactly when there is one. */
  lemma StampMark(t: Instant)
    requires IsInstant(t)
    ensures |Stamp(t)| >= 13
    ensures Stamp(t)[|Stamp(t)| - 13] == '.' <==> t.micro != 0
  {
    StampShape(t);
    var head := Year(t.year) + Clock(t);
    if t.micro == 0 {
      assert Stamp(t) == head + "+00:00";
      assert Stamp(t)[|Stamp(t)| - 13] == head[|head| - 7] == Clock(t)[8] == TwoDigits(t.hour)[1];
    } else {
      assert Stamp(t) == head + "." + (SixDigits(t.micro) + "+00:00");
      assert Stamp(t)[|Stamp(t)| - 13] == Stamp(t)[|head|] == '.';
    }
  }

  /** What comes before the zone, when the zones are the same. */
  lemma StampBody(t: Instant, u: Instant)
    requires IsInstant(t) && IsInstant(u) && Stamp(t) == Stamp(u) && (t.micro == 0 <==> u.micro == 0)
    ensures t.micro == u.micro && Year(t.year) + Clock(t) == Year(u.year) + Clock(u)
  {
    StampShape(t);
    StampShape(u);
    var h, k := Year(t.year) + Clock(t), Year(u.year) + Clock(u);
    if t.micro == 0 {
      SameTail(h, k, "+00:00", "+00:00");
    } else {
      SameTail(h + "." + SixDigits(t.micro), k + "." + SixDigits(u.micro), "+00:00", "+00:00");
      SixDigitsInPairs(t.micro);
      SixDigitsInPairs(u.micro);
      SameTail(h + ".", k + ".", SixDigits(t.micro), SixDigits(u.micro));
      SameTail(h, k, ".", ".");
      SixDigitsInjective(t.micro, u.micro);
    }
  }

  /** What the places after the year read as, in a text that has the clock there. */
  predicate ReadsAs(s: string, y: nat, t: Instant)
    requires |s| >= y + 15
  {
    && s[y] == '-' && Number(s[y + 1..y + 3]) == t.month
    && s[y + 3] == '-' && Number(s[y + 4..y + 6]) == t.day
    && s[y + 6] == 'T' && Number(s[y + 7..y + 9]) == t.hour
    && s[y + 9] == ':' && Number(s[y + 10..y + 12]) == t.minute
    && s[y + 12] == ':' && Number(s[y + 13..y + 15]) == t.second
  }

  lemma ClockReadsBack(a: string, t: Instant, rest: string)
    requires IsInstant(t)
    ensures |Clock(t)| == 15 && ReadsAs(a + Clock(t) + rest, |a|, t)
  {
    var clock := Clock(t);
    ClockPieces(t);
    Piece(a, clock, rest, 1, 3);
    Piece(a, clock, rest, 4, 6);
    Piece(a, clock, rest, 7, 9);
    Piece(a, clock, rest, 10, 12);
    Piece(a, clock, rest, 13, 15);
    TwoDigitsReadBack(t.month);
    TwoDigitsReadBack(t.day);
    TwoDigitsReadBack(t.hour);
    TwoDigitsReadBack(t.minute);
    TwoDigitsReadBack(t.second);
  }

  lemma StampIsYearAndClock(t: Instant)
    requires IsInstant(t)
    ensures var y := |Year(t.year)|;
            && |Stamp(t)| >= y + 21 && Stamp(t) == Year(t.year) + Clock(t) + Stamp(t)[y + 15..]
            && Stamp(t)[|Stamp(t)| - 6..] == "+00:00"
  {
    StampShape(t);
    ClockPieces(t);
  }

  /** The stamp's places read back as the instant they were written from, to the second. */
  lemma StampReadsBack(t: Instant)
    requires IsInstant(t)
    ensures var s, y := Stamp(t), |Year(t.year)|;
            |s| >= y + 21 && Number(s[..y]) == t.year && ReadsAs(s, y, t) && s[|s| - 6..] == "+00:00"
  {
    var y := |Year(t.year)|;
    StampIsYearAndClock(t);
    ClockReadsBack(Year(t.year), t, Stamp(t)[y + 15..]);
    YearReadsBack(t.year);
    assert Stamp(t)[..y] == Year(t.year);
  }

  lemma ClockPieces(t: Instant)
    requires IsInstant(t)
    ensures var c := Clock(t);
            && |c| == 15
            && c[1..3] == TwoDigits(t.month) && c[4..6] == TwoDigits(t.day)
            && c[7..9] == TwoDigits(t.hour) && c[10..12] == TwoDigits(t.minute) && c[13..15] == TwoDigits(t.second)
            && c[0] == '-' && c[3] == '-' && c[6] == 'T' && c[9] == ':' && c[12] == ':'
  {
  }

  lemma Piece(a: string, b: string, c: string, i: nat, j: nat)
    requires i <= j <= |b|
    ensures (a + b + c)[|a| + i..|a| + j] == b[i..j]
  {
  }

  lemma TwoDigitsReadBack(n: nat)
    requires n < 100
    ensures Number(TwoDigits(n)) == n
  {
    FourDigits("", TwoDigits(n));
    assert "" + TwoDigits(n) == TwoDigits(n);
    assert Number("") == 0;
    PairIs(Digit(n / 10), Digit(n % 10));
  }

  lemma PairIs(c: char, d: char)
    ensures Number([c, d]) == (c as int - '0' as int) * 10 + (d as int - '0' as int)
  {
    assert [c, d][..1] == [c] && [c][..0] == [];
    assert Number([c]) == c as int - '0' as int;
  }

  lemma YearReadsBack(n: nat)
    ensures Number(Year(n)) == n
  {
    if n < 10000 {
      FourDigits(TwoDigits(n / 100), TwoDigits(n % 100));
      TwoDigitsReadBack(n / 100);
      TwoDigitsReadBack(n % 100);
    } else {
      NumberOfDecimal(n);
    }
  }

  lemma FourDigits(a: string, b: string)
    requires |b| == 2
    ensures Number(a + b) == Number(a) * 100 + Number(b)
  {
    var s := a + b;
    var t := a + [b[0]];
    assert s[..|s| - 1] == t && t[..|t| - 1] == a && s[|s| - 1] == b[1] && t[|t| - 1] == b[0];
    assert Number(t) == 10 * Number(a) + (b[0] as int - '0' as int);
    assert Number(s) == 10 * Number(t) + (b[1] as int - '0' as int);
    assert b == [b[0], b[1]];
    PairIs(b[0], b[1]);
  }

  /** No two instants share a stamp, although some stamps carry microseconds and some do not. */
  lemma StampInjective(t: Instant, u: Instant)
    requires IsInstant(t) && IsInstant(u) && Stamp(t) == Stamp(u)
    ensures t == u
  {
    StampMark(t);
    StampMark(u);
    StampBody(t, u);
    SameTail(Year(t.year), Year(u.year), Clock(t), Clock(u));
    YearInjective(t.year, u.year);
    ClockInjective(t, u);
  }
}
