/** How `ca -updatedb` decides from two date strings that a certificate has expired. */
module ExpiryTime {
  import opened CStrings

  predicate IsDigit(c: char) {
    '0' <= c <= '9'
  }

  predicate AllDigits(s: string) {
    forall i :: 0 <= i < |s| ==> IsDigit(s[i])
  }

  /** The date is taken to lie in the years 2000 to 2049. */
  predicate Y2k(date: string) {
    StrNLe(date, "49", 2)
  }

  /** The test `do_updatedb` applies to the expiry date of a valid row. */
  predicate CountsAsExpired(exp: string, now: string) {
    if Y2k(exp) == Y2k(now) then StrLe(exp, now) else Y2k(now)
  }

  /** YYMMDDHHMMSSZ, the form section 4.1.2.5.1 of RFC 5280 requires. */
  ghost predicate IsUtcTime(s: string) {
    |s| == 13 && AllDigits(s[..12]) && s[12] == 'Z'
  }

  /** YYYYMMDDHHMMSSZ, the form for the years from 2050 on. */
  ghost predicate IsGeneralizedTime(s: string) {
    |s| == 15 && AllDigits(s[..14]) && s[14] == 'Z'
  }

  ghost function Number(s: string): nat
    requires AllDigits(s)
  {
    if s == "" then 0 else 10 * Number(s[..|s| - 1]) + (s[|s| - 1] - '0') as nat
  }

  /** The fourteen digits YYYYMMDDHHMMSS of a UTCTime, as one number that grows with time. */
  ghost function UtcInstant(s: string): nat
    requires IsUtcTime(s)
  {
    Number((if Number(s[..2]) < 50 then "20" else "19") + s[..12])
  }

  ghost function GeneralizedInstant(s: string): nat
    requires IsGeneralizedTime(s)
  {
    Number(s[..14])
  }

  lemma StrLeStep(c: char, d: char, x: string, y: string)
    ensures StrLe([c] + x, [d] + y) <==> c < d || (c == d && StrLe(x, y))
  {
  }

  /** On digit strings of one length, `strcmp` compares the numbers, and what follows only when they are equal. */
  lemma {:induction false} DigitsCompare(a: string, b: string, x: string, y: string)
    requires AllDigits(a) && AllDigits(b) && |a| == |b|
    ensures StrLe(a + x, b + y) <==> Number(a) < Number(b) || (Number(a) == Number(b) && StrLe(x, y))
    decreases |a|
  {
    if a == "" {
      assert a + x == x && b + y == y;
    } else {
      var c, d := a[|a| - 1], b[|b| - 1];
      DigitsCompare(a[..|a| - 1], b[..|b| - 1], [c] + x, [d] + y);
      assert a + x == a[..|a| - 1] + ([c] + x) && b + y == b[..|b| - 1] + ([d] + y);
      StrLeStep(c, d, x, y);
    }
  }

  lemma TwoDigits(s: string)
    requires |s| == 2 && AllDigits(s)
    ensures Number(s) == 10 * (s[0] - '0') as nat + (s[1] - '0') as nat
  {
    assert s[..1] == [s[0]];
    assert Number([s[0]]) == (s[0] - '0') as nat by { assert [s[0]][..0] == ""; }
  }

  lemma Y2kByNumber(s: string)
    requires |s| >= 2 && AllDigits(s[..2])
    ensures Y2k(s) <==> Number(s[..2]) <= 49
  {
    var head := s[..2];
    assert head == (if |s| <= 2 then s else head);
    NumberLe(head, "49");
    TwoDigits("49");
  }

  lemma NumberLe(a: string, b: string)
    requires AllDigits(a) && AllDigits(b) && |a| == |b|
    ensures Number(a) <= Number(b) <==> StrLe(a, b)
  {
    DigitsCompare(a, b, "", "");
    assert a + "" == a && b + "" == b;
  }

  lemma DigitsJoin(a: string, b: string)
    requires AllDigits(a) && AllDigits(b)
    ensures AllDigits(a + b)
  {
  }

  /** Putting a century in front compares the centuries first. */
  lemma CenturyCompare(c: string, d: string, a: string, b: string)
    requires |c| == |d| && AllDigits(c) && AllDigits(d)
    requires AllDigits(a) && AllDigits(b) && |a| == |b|
    requires AllDigits(c + a) && AllDigits(d + b)
    ensures Number(c + a) <= Number(d + b) <==>
      Number(c) < Number(d) || (Number(c) == Number(d) && Number(a) <= Number(b))
  {
    DigitsCompare(c, d, a, b);
    NumberLe(a, b);
    NumberLe(c + a, d + b);
  }

  /** The string test with its 49/50 pivot is the chronological one on two UTCTimes. */
  lemma UtcExpiryIsChronological(exp: string, now: string)
    requires IsUtcTime(exp) && IsUtcTime(now)
    ensures CountsAsExpired(exp, now) <==> UtcInstant(exp) <= UtcInstant(now)
  {
    var a, b := exp[..12], now[..12];
    assert a[..2] == exp[..2] && b[..2] == now[..2];
    Y2kByNumber(exp);
    Y2kByNumber(now);
    TwoDigits("20");
    TwoDigits("19");
    var c, d := if Number(exp[..2]) < 50 then "20" else "19", if Number(now[..2]) < 50 then "20" else "19";
    DigitsJoin(c, a);
    DigitsJoin(d, b);
    CenturyCompare(c, d, a, b);
    assert exp == a + "Z" && now == b + "Z";
    DigitsCompare(a, b, "Z", "Z");
    assert StrLe("Z", "Z") by { StrLeStep('Z', 'Z', "", ""); assert ['Z'] + "" == "Z"; }
  }

  /** The digits of the clock, taken as a UTCTime without its century. */
  ghost function Clock(now: string): nat
    requires IsUtcTime(now)
  {
    Number(now[..12])
  }

  /** What the comparison takes the date for: its first twelve digits, the century in place of the year. */
  ghost function Misread(exp: string): nat
    requires IsGeneralizedTime(exp)
  {
    Number(exp[..12])
  }

  lemma {:induction false} NumberOfSum(a: string, b: string)
    requires AllDigits(a) && AllDigits(b) && AllDigits(a + b)
    ensures Number(a + b) == Number(a) * Pow10(|b|) + Number(b)
    decreases |b|
  {
    if b == "" {
      assert a + b == a;
    } else {
      var n := |b| - 1;
      var head := b[..n];
      assert (a + b)[..|a + b| - 1] == a + head && (a + b)[|a + b| - 1] == b[n];
      NumberOfSum(a, head);
      TenTimes(Number(a), Pow10(n), Number(head), Number(a + head), (b[n] - '0') as nat);
    }
  }

  lemma TenTimes(x: nat, p: nat, y: nat, z: nat, d: nat)
    requires z == x * p + y
    ensures 10 * z + d == x * (10 * p) + (10 * y + d)
  {
  }

  ghost function Pow10(n: nat): nat {
    if n == 0 then 1 else 10 * Pow10(n - 1)
  }

  lemma {:induction false} NumberBound(s: string)
    requires AllDigits(s)
    ensures Number(s) < Pow10(|s|)
  {
    if s == "" {
    } else {
      NumberBound(s[..|s| - 1]);
    }
  }

  lemma Pow10Values()
    ensures Pow10(12) == 1_000_000_000_000 && Pow10(10) == 10_000_000_000 && Pow10(2) == 100
  {
    assert Pow10(4) == 10_000;
    assert Pow10(8) == 100_000_000;
  }

  lemma InstantIs(now: string)
    requires IsUtcTime(now)
    ensures UtcInstant(now) == (if Number(now[..2]) < 50 then 20 else 19) * 1_000_000_000_000 + Clock(now)
    ensures Number(now[..2]) < 50 <==> Clock(now) < 500_000_000_000
    ensures Clock(now) < 1_000_000_000_000
  {
    var c, a := if Number(now[..2]) < 50 then "20" else "19", now[..12];
    Pow10Values();
    TwoDigits("20");
    TwoDigits("19");
    DigitsJoin(c, a);
    NumberOfSum(c, a);
    NumberBound(a);
    assert a == now[..2] + now[2..12];
    NumberOfSum(now[..2], now[2..12]);
    NumberBound(now[2..12]);
  }

  /** The string test on a date with a four-digit year. */
  lemma GeneralizedCounts(exp: string, now: string)
    requires IsGeneralizedTime(exp) && IsUtcTime(now)
    ensures CountsAsExpired(exp, now) <==>
      if (Number(exp[..2]) < 50) == (Number(now[..2]) < 50) then Misread(exp) <= Clock(now) else Number(now[..2]) < 50
  {
    Y2kByNumber(exp);
    Y2kByNumber(now);
    var x := [exp[12]] + exp[13..];
    assert exp == exp[..12] + x && now == now[..12] + "Z";
    DigitsCompare(exp[..12], now[..12], x, "Z");
    assert exp[12] == exp[..14][12];
    StrLeStep(exp[12], 'Z', exp[13..], "");
    assert ['Z'] + "" == "Z";
  }

  /** `n` is one of the numbers from the smaller of `a` and `b` up to, and without, the larger. */
  ghost predicate Between(a: int, n: int, b: int) {
    a <= n < b || b <= n < a
  }

  /**
   * When the test misjudges a date with a four-digit year. With a clock from 2000 on: always if the year is 5000 or
   * later, and otherwise while the clock is between the date and what it is misread as, both counted from the year
   * 2000. With a clock before 2000: a date before 5000 once it has passed, and a later one once the misreading has.
   */
  ghost predicate Misjudged(exp: string, now: string)
    requires IsGeneralizedTime(exp) && IsUtcTime(now)
  {
    if Number(now[..2]) < 50 then
      Number(exp[..2]) >= 50 || Between(GeneralizedInstant(exp) - 20_000_000_000_000, Clock(now), Misread(exp))
    else if Number(exp[..2]) < 50 then GeneralizedInstant(exp) <= 19_000_000_000_000 + Clock(now)
    else Misread(exp) <= Clock(now)
  }

  lemma LateCentury(exp: string)
    requires IsGeneralizedTime(exp) && Number(exp[..2]) >= 50
    ensures GeneralizedInstant(exp) >= 50_000_000_000_000
  {
    Pow10Values();
    assert exp[..14] == exp[..2] + exp[2..14];
    NumberOfSum(exp[..2], exp[2..14]);
  }

  /** On every date with a four-digit year the test is the chronological one exactly if it does not misjudge it. */
  lemma GeneralizedExpiryIff(exp: string, now: string)
    requires IsGeneralizedTime(exp) && IsUtcTime(now)
    ensures (CountsAsExpired(exp, now) <==> GeneralizedInstant(exp) <= UtcInstant(now)) <==> !Misjudged(exp, now)
  {
    GeneralizedCounts(exp, now);
    InstantIs(now);
    if Number(exp[..2]) >= 50 { LateCentury(exp); }
  }

  lemma TwelveDigitsOf(century: string, date: string, clock: string)
    requires |century| == 2 && |date| == |clock| == 12
    ensures (century + date + "Z")[2..14] == date && (clock + "Z")[..12] == clock
  {
  }

  /** A date four years ahead that is marked. */
  lemma MarkedTooEarly()
    ensures var exp, now := "20300101000000Z", "260101000000Z";
      IsGeneralizedTime(exp) && IsUtcTime(now) && CountsAsExpired(exp, now) && UtcInstant(now) < GeneralizedInstant(exp)
  {
    var exp, now := "20300101000000Z", "260101000000Z";
    assert exp == "20" + "300101000000" + "Z" && now == "260101000000" + "Z";
    InThisCentury(exp, now);
    TwelveDigitsOf("20", "300101000000", "260101000000");
  }

  /** A date five years past that is not marked. */
  lemma MarkedTooLate()
    ensures var exp, now := "20100101000000Z", "150101000000Z";
      && IsGeneralizedTime(exp) && IsUtcTime(now)
      && !CountsAsExpired(exp, now) && GeneralizedInstant(exp) <= UtcInstant(now)
  {
    var exp, now := "20100101000000Z", "150101000000Z";
    assert exp == "20" + "100101000000" + "Z" && now == "150101000000" + "Z";
    InThisCentury(exp, now);
    TwelveDigitsOf("20", "100101000000", "150101000000");
  }

  lemma InThisCentury(exp: string, now: string)
    requires |exp| == 15 && AllDigits(exp[..14]) && exp[14] == 'Z'
    requires |now| == 13 && AllDigits(now[..12]) && now[12] == 'Z'
    requires exp[..2] == "20" && (now[0] == '1' || now[0] == '2')
    ensures IsGeneralizedTime(exp) && IsUtcTime(now)
    ensures GeneralizedInstant(exp) <= UtcInstant(now) <==> StrLe(exp[2..14], now[..12])
    ensures CountsAsExpired(exp, now) <==> StrLe(exp, now)
  {
    TwoDigits("20");
    TwoDigits(now[..2]);
    DigitsJoin("20", now[..12]);
    assert exp[..14] == "20" + exp[2..14];
    CenturyCompare("20", "20", exp[2..14], now[..12]);
    NumberLe(exp[2..14], now[..12]);
    Y2kByNumber(exp);
    Y2kByNumber(now);
  }

  /** The date RFC 5280 reserves for "no expiration" is taken for a past one by every clock from 2000 to 2049. */
  lemma NoExpirationDateIsMarked(now: string)
    requires IsUtcTime(now) && Number(now[..2]) < 50
    ensures CountsAsExpired("99991231235959Z", now)
  {
    var exp := "99991231235959Z";
    Y2kByNumber(exp);
    Y2kByNumber(now);
    assert exp[..2] == "99";
    TwoDigits("99");
  }

  /** Once expired, always expired. */
  lemma ExpiryIsMonotone(exp: string, t1: string, t2: string)
    requires IsUtcTime(exp) && IsUtcTime(t1) && IsUtcTime(t2) && UtcInstant(t1) <= UtcInstant(t2)
    ensures CountsAsExpired(exp, t1) ==> CountsAsExpired(exp, t2)
  {
    UtcExpiryIsChronological(exp, t1);
    UtcExpiryIsChronological(exp, t2);
  }

  /** YYMMDDHHMMZ, which a UTCTime may also be. */
  ghost predicate IsShortUtcTime(s: string) {
    |s| == 11 && AllDigits(s[..10]) && s[10] == 'Z'
  }

  /** The date written out with its seconds. */
  ghost function WithSeconds(s: string): string
    requires IsShortUtcTime(s)
  {
    s[..10] + "00Z"
  }

  /** A date without seconds is judged rightly except during the minute it names. */
  lemma ShortExpiryIff(exp: string, now: string)
    requires IsShortUtcTime(exp) && IsUtcTime(now)
    ensures IsUtcTime(WithSeconds(exp))
    ensures (CountsAsExpired(exp, now) <==> UtcInstant(WithSeconds(exp)) <= UtcInstant(now)) <==> exp[..10] != now[..10]
  {
    var full, a, b := WithSeconds(exp), exp[..10], now[..10];
    assert full[..12] == a + "00" && full == a + "00Z" && exp == a + "Z" && now == b + now[10..];
    assert full[..2] == exp[..2] == a[..2] && now[..2] == b[..2];
    assert AllDigits(a);
    forall i | 0 <= i < |b| ensures IsDigit(b[i]) { assert b[i] == now[..12][i]; }
    UtcExpiryIsChronological(full, now);
    DigitsCompare(a, b, "00Z", now[10..]);
    DigitsCompare(a, b, "Z", now[10..]);
    if a == b {
      assert now[10..] == [now[10]] + now[11..] && now[11..] == [now[11]] + now[12..] && now[12..] == "Z";
      assert "Z" == ['Z'] + "" && "00Z" == ['0'] + "0Z" && "0Z" == ['0'] + "Z";
      assert now[10] == now[..12][10] && now[11] == now[..12][11];
      StrLeStep('Z', now[10], "", now[11..]);
      StrLeStep('0', now[10], "0Z", now[11..]);
      StrLeStep('0', now[11], "Z", "Z");
      StrLeStep('Z', 'Z', "", "");
    } else {
      DigitsDiffer(a, b);
    }
    Y2kByNumber(exp);
    Y2kByNumber(full);
    Y2kByNumber(now);
  }

  lemma {:induction false} DigitsDiffer(a: string, b: string)
    requires AllDigits(a) && AllDigits(b) && |a| == |b| && a != b
    ensures Number(a) != Number(b)
  {
    var n := |a| - 1;
    assert a == a[..n] + [a[n]] && b == b[..n] + [b[n]];
    if a[..n] != b[..n] { DigitsDiffer(a[..n], b[..n]); }
  }

  ghost function Pair(s: string, i: nat): nat
    requires AllDigits(s) && i + 1 < |s|
  {
    10 * (s[i] - '0') as nat + (s[i + 1] - '0') as nat
  }

  ghost function OfPairs(s: string): nat
    requires AllDigits(s) && |s| == 12
  {
    10_000_000_000 * Pair(s, 0) + 100_000_000 * Pair(s, 2) + 1_000_000 * Pair(s, 4) +
    10_000 * Pair(s, 6) + 100 * Pair(s, 8) + Pair(s, 10)
  }

  lemma TwoMore(s: string, n: nat)
    requires AllDigits(s) && n + 2 <= |s|
    ensures Number(s[..n + 2]) == 100 * Number(s[..n]) + Pair(s, n)
  {
    assert s[..n + 2][..n + 1] == s[..n + 1] && s[..n + 1][..n] == s[..n];
  }

  lemma TwelveDigits(s: string)
    requires AllDigits(s) && |s| == 12
    ensures Number(s) == OfPairs(s)
  {
    assert s[..0] == "" && s[..12] == s;
    TwoMore(s, 0);
    TwoMore(s, 2);
    TwoMore(s, 4);
    TwoMore(s, 6);
    TwoMore(s, 8);
    TwoMore(s, 10);
  }

  lemma InstantOf(s: string, century: nat)
    requires IsUtcTime(s) && century == if Pair(s[..12], 0) < 50 then 20 else 19
    ensures UtcInstant(s) == century * 1_000_000_000_000 + Clock(s)
    ensures Clock(s) == OfPairs(s[..12])
  {
    TwelveDigits(s[..12]);
    TwoDigits(s[..2]);
    assert s[0] == s[..12][0] && s[1] == s[..12][1];
    InstantIs(s);
  }

  /** Where the two-digit years turn over: 49 is 2049, and 50 is 1950. */
  lemma YearsTurnOver(late: string, early: string)
    requires late == "491231235959Z" && early == "500101000000Z"
    ensures IsUtcTime(late) && UtcInstant(late) == 20_491_231_235_959
    ensures IsUtcTime(early) && UtcInstant(early) == 19_500_101_000_000
    ensures CountsAsExpired(early, late) && !CountsAsExpired(late, early)
  {
    InstantOf(late, 20);
    InstantOf(early, 19);
    UtcExpiryIsChronological(early, late);
    UtcExpiryIsChronological(late, early);
  }
}
