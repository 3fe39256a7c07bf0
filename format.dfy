/**
 The time helpers of src/format/index.ts on whole numbers: `formatMin`,
 `formatSec` and `formatTimestamp`.
 */
module Format {
  import opened JsString
  import opened JsNumber

  /** `` `0${t}`.slice(-2) ``: the last two characters of "0" followed by the digits of `t`. */
  function Pad2(t: nat): (r: string)
    ensures |r| == 2
  {
    var s := "0" + DecimalString(t);
    s[|s| - 2..]
  }

  /** The last digit of a number's decimal text is the number modulo 10. */
  lemma DecimalStringLast(n: nat)
    ensures var r := DecimalString(n); r[|r| - 1] == DigitChar(n % 10) && (n >= 10 ==> r[..|r| - 1] == DecimalString(n / 10))
  {
  }

  /** The two characters are the tens and the units digit: a field of 100 or more loses its leading digits. */
  lemma Pad2Digits(t: nat)
    ensures Pad2(t) == [DigitChar(t / 10 % 10), DigitChar(t % 10)]
  {
    if t < 10 {
      Pad2OneDigit(t);
    } else {
      Pad2SeveralDigits(t);
    }
  }

  lemma Pad2OneDigit(t: nat)
    requires t < 10
    ensures Pad2(t) == [DigitChar(t / 10 % 10), DigitChar(t % 10)]
  {
    DivTen(t, 0, t);
    var s := "0" + DecimalString(t);
    assert s == ['0', DigitChar(t)];
  }

  lemma Pad2SeveralDigits(t: nat)
    requires t >= 10
    ensures Pad2(t) == [DigitChar(t / 10 % 10), DigitChar(t % 10)]
  {
    var p := DecimalString(t / 10);
    var s := "0" + DecimalString(t);
    assert s == "0" + p + [DigitChar(t % 10)];
    assert s[|s| - 2..] == [p[|p| - 1], DigitChar(t % 10)];
    DecimalStringLast(t / 10);
  }

  /** Joining two fields. */
  lemma JoinTwo(a: string, b: string, sep: char)
    ensures Join([a, b], sep) == a + [sep] + b
  {
    assert [a, b][1..] == [b];
  }

  /** Joining three fields. */
  lemma JoinThree(a: string, b: string, c: string, sep: char)
    ensures Join([a, b, c], sep) == a + [sep] + b + [sep] + c
  {
    assert [a, b, c][1..] == [b, c];
    JoinTwo(b, c, sep);
    assert a + [sep] + (b + [sep] + c) == a + [sep] + b + [sep] + c;
  }

  /**
   `formatMin`: hours and minutes, each as two digits, joined by ':'. The
   output is `hh:mm`: the last two digits of the whole hours and the two
   digits of the remaining minutes.
   */
  function FormatMin(min: nat): (r: string)
    ensures |r| == 5
    ensures r == TwoDigits(min / 60 % 100) + ":" + TwoDigits(min % 60)
  {
    PaddedPair(min / 60, min % 60);
    LastTwoDigits(min / 60);
    Join([Pad2(min / 60), Pad2(min % 60)], ':')
  }

  /** The digits of a number below 100: its tens and its units digit. */
  function TwoDigits(t: nat): (r: string)
    ensures |r| == 2 && AllDigits(r)
  {
    [DigitChar(t / 10 % 10), DigitChar(t % 10)]
  }

  /** Only the last two digits of a number matter to `TwoDigits`. */
  lemma LastTwoDigits(t: nat)
    ensures TwoDigits(t) == TwoDigits(t % 100)
  {
    var q, r := t / 100, t % 100;
    DivTen(t, 10 * q + r / 10, r % 10);
    DivTen(10 * q + r / 10, q, r / 10);
    DivTen(r, r / 10, r % 10);
    DivTen(r / 10, 0, r / 10);
  }

  /** Quotient and remainder by ten are determined by `n == 10 * q + r` with `r < 10`. */
  lemma DivTen(n: nat, q: nat, r: nat)
    requires r < 10 && n == 10 * q + r
    ensures n / 10 == q && n % 10 == r
  {
  }

  lemma DivSixty(n: nat, q: nat, r: nat)
    requires r < 60 && n == 60 * q + r
    ensures n / 60 == q && n % 60 == r
  {
  }

  lemma DivHundred(n: nat, q: nat, r: nat)
    requires r < 100 && n == 100 * q + r
    ensures n / 100 == q && n % 100 == r
  {
  }

  /** Whole hours modulo 100 and the remaining minutes do not change when 100 hours are dropped. */
  lemma WrapArithmetic(min: nat)
    ensures (min % 6000) / 60 % 100 == (min / 60) % 100
    ensures (min % 6000) % 60 == min % 60
  {
    var q, r := min / 6000, min % 6000;
    var h, m := r / 60, r % 60;
    DivSixty(r, h, m);
    assert h < 100;
    DivSixty(min, 100 * q + h, m);
    DivHundred(100 * q + h, q, h);
    DivHundred(h, 0, h);
  }

  /** Two padded fields joined by ':'. */
  lemma PaddedPair(a: nat, b: nat)
    ensures Join([Pad2(a), Pad2(b)], ':') == TwoDigits(a) + ":" + TwoDigits(b)
  {
    Pad2Digits(a);
    Pad2Digits(b);
    JoinTwo(Pad2(a), Pad2(b), ':');
  }

  /** Three padded fields joined by ':'. */
  lemma PaddedTriple(a: nat, b: nat, c: nat)
    ensures Join([Pad2(a), Pad2(b), Pad2(c)], ':') == TwoDigits(a) + ":" + TwoDigits(b) + ":" + TwoDigits(c)
  {
    Pad2Digits(a);
    Pad2Digits(b);
    Pad2Digits(c);
    JoinThree(Pad2(a), Pad2(b), Pad2(c), ':');
  }

  /** Only the minutes modulo 100 hours are shown. */
  lemma FormatMinWraps(min: nat)
    ensures FormatMin(min) == FormatMin(min % 6000)
  {
    WrapArithmetic(min);
  }

  lemma FormatMinExample()
    ensures FormatMin(80) == "01:20"
  {
    MinutesExampleFields();
  }

  lemma MinutesExampleFields()
    ensures TwoDigits(80 / 60 % 100) + ":" + TwoDigits(80 % 60) == "01:20"
  {
    ExampleQuotients();
    ExampleDigits();
    assert "01" + ":" + "20" == "01:20";
  }

  lemma ExampleQuotients()
    ensures 80 / 60 % 100 == 1 && 80 / 3600 % 100 == 0 && 80 / 60 % 60 == 1 && 80 % 60 == 20
  {
    DivSixty(80, 1, 20);
  }

  lemma ExampleDigits()
    ensures TwoDigits(0) == "00" && TwoDigits(1) == "01" && TwoDigits(20) == "20"
  {
    DivTen(20, 2, 0);
  }

  /**
   `formatSec`: hours, minutes and seconds, each as two digits, joined by
   ':'. The output is `hh:mm:ss`: the last two digits of the whole hours,
   then the two digits of the remaining minutes and of the remaining seconds.
   */
  function FormatSec(sec: nat): (r: string)
    ensures |r| == 8
    ensures r == TwoDigits(sec / 3600 % 100) + ":" + TwoDigits(sec / 60 % 60) + ":" + TwoDigits(sec % 60)
  {
    PaddedTriple(sec / 3600, sec / 60 % 60, sec % 60);
    LastTwoDigits(sec / 3600);
    Join([Pad2(sec / 3600), Pad2(sec / 60 % 60), Pad2(sec % 60)], ':')
  }

  lemma FormatSecExample()
    ensures FormatSec(80) == "00:01:20"
  {
    SecondsExampleFields();
  }

  lemma SecondsExampleFields()
    ensures TwoDigits(80 / 3600 % 100) + ":" + TwoDigits(80 / 60 % 60) + ":" + TwoDigits(80 % 60) == "00:01:20"
  {
    ExampleQuotients();
    ExampleDigits();
    assert "00" + ":" + "01" + ":" + "20" == "00:01:20";
  }

  /** `reduce((prev, curr) => prev + curr)`, continued from the accumulated `acc`. */
  function Reduce(acc: Num, rest: seq<Num>): Num
    decreases |rest|
  {
    if rest == [] then acc else Reduce(acc.Plus(rest[0]), rest[1..])
  }

  predicate AllTracked(nums: seq<Num>) {
    forall i :: 0 <= i < |nums| ==> nums[i].Int?
  }

  /** The sum of tracked numbers. */
  function Sum(nums: seq<Num>): int
    requires AllTracked(nums)
  {
    if nums == [] then 0 else nums[0].value + Sum(nums[1..])
  }

  /** Reducing adds up the numbers, as long as every one of them is tracked. */
  lemma {:induction false} ReduceSum(acc: Num, rest: seq<Num>)
    ensures Reduce(acc, rest).Int? <==> acc.Int? && AllTracked(rest)
    ensures Reduce(acc, rest).Int? ==> Reduce(acc, rest).value == acc.value + Sum(rest)
    decreases |rest|
  {
    if rest != [] {
      ReduceSum(acc.Plus(rest[0]), rest[1..]);
      if acc.Int? && AllTracked(rest) {
        assert AllTracked(rest[1..]);
      }
      if Reduce(acc, rest).Int? {
        assert rest == [rest[0]] + rest[1..];
      }
    }
  }

  /** `Number(stm)` of every ':'-separated field of a timestamp. */
  function Readings(stamp: string): (r: seq<Num>)
    ensures |r| >= 1
  {
    var fields := Split(stamp, ':');
    seq(|fields|, i requires 0 <= i < |fields| => ToNumber(fields[i]))
  }

  /** One reading per ':'-separated field: one more than there are ':' characters. */
  lemma ReadingsPerField(stamp: string)
    ensures |Readings(stamp)| == Count(stamp, ':') + 1
  {
  }

  /** `formatTimestamp`: the first field times 60 plus every later field. */
  function FormatTimestamp(stamp: string): Num
  {
    var numbers := Readings(stamp);
    Reduce(numbers[0].Times(60), numbers[1..])
  }

  /**
   A timestamp whose fields all read as integers gives 60 times the first
   field plus the sum of all later fields; a field that does not read as an
   integer makes the result untracked.
   */
  lemma FormatTimestampSum(stamp: string)
    ensures var fields := Readings(stamp);
      FormatTimestamp(stamp).Int? <==> AllTracked(fields)
    ensures var fields := Readings(stamp);
      FormatTimestamp(stamp).Int? ==> FormatTimestamp(stamp).value == 60 * fields[0].value + Sum(fields[1..])
  {
    ReduceFields(Readings(stamp));
  }

  /** Reducing `60 * nums[0]` with the later numbers. */
  lemma ReduceFields(nums: seq<Num>)
    requires |nums| >= 1
    ensures Reduce(nums[0].Times(60), nums[1..]).Int? <==> AllTracked(nums)
    ensures Reduce(nums[0].Times(60), nums[1..]).Int? ==> Reduce(nums[0].Times(60), nums[1..]).value == 60 * nums[0].value + Sum(nums[1..])
  {
    ReduceSum(nums[0].Times(60), nums[1..]);
    if AllTracked(nums[1..]) && nums[0].Int? {
      forall i | 0 <= i < |nums| ensures nums[i].Int? {
        if i > 0 { assert nums[1..][i - 1] == nums[i]; }
      }
    }
  }

  /** A non-empty string of digits reads as its decimal value. */
  lemma ReadDigits(s: string)
    requires s != [] && AllDigits(s)
    ensures ToNumber(s) == Int(DigitsValue(s))
  {
    TrimOfTrimmed(s);
  }

  /** Two digits read as the tens digit times ten plus the units digit. */
  lemma DigitsValueOfPair(s: string)
    requires |s| == 2 && AllDigits(s)
    ensures DigitsValue(s) == DigitValue(s[0]) * 10 + DigitValue(s[1])
  {
    var p := s[..1];
    assert p[..0] == [] && p[0] == s[0] && s[..|s| - 1] == p;
    assert DigitsValue(p) == DigitValue(s[0]);
  }

  lemma TensAndUnits(d: nat)
    requires d < 100
    ensures d / 10 % 10 * 10 + d % 10 == d
  {
  }

  /** The two digits of a number below 100 read back as that number. */
  lemma ReadTwoDigits(d: nat)
    requires d < 100
    ensures ToNumber(TwoDigits(d)) == Int(d)
  {
    PairValue(TwoDigits(d), d / 10 % 10, d % 10);
    TensAndUnits(d);
    ReadValue(TwoDigits(d), d);
  }

  /** A non-empty string of digits whose value is `v` reads as `v`. */
  lemma ReadValue(s: string, v: nat)
    requires s != [] && AllDigits(s) && DigitsValue(s) == v
    ensures ToNumber(s) == Int(v)
  {
    ReadDigits(s);
  }

  /** A tens digit and a units digit make the number they stand for. */
  lemma PairValue(s: string, t: int, u: int)
    requires 0 <= t <= 9 && 0 <= u <= 9 && s == [DigitChar(t), DigitChar(u)]
    ensures AllDigits(s) && DigitsValue(s) == t * 10 + u
  {
    DigitsValueOfPair(s);
    DigitValueOfChar(t);
    DigitValueOfChar(u);
  }

  lemma NoColonInDigits(s: string)
    requires AllDigits(s)
    ensures ':' !in s
  {
  }

  /** A timestamp of two fields is the first field times 60 plus the second. */
  lemma TwoFieldTimestamp(a: string, b: string)
    requires ':' !in a && ':' !in b
    ensures FormatTimestamp(a + ":" + b) == ToNumber(a).Times(60).Plus(ToNumber(b))
  {
    var stamp := a + ":" + b;
    JoinTwo(a, b, ':');
    SplitJoin([a, b], ':');
    assert Split(stamp, ':') == [a, b];
    var numbers := Readings(stamp);
    assert numbers == [ToNumber(a), ToNumber(b)];
    assert numbers[1..] == [ToNumber(b)];
    assert Reduce(ToNumber(a).Times(60), [ToNumber(b)]) == ToNumber(a).Times(60).Plus(ToNumber(b));
  }

  lemma FormatTimestampExample()
    ensures FormatTimestamp("8:15") == Int(495)
  {
    TwoFieldTimestamp("8", "15");
    ExampleStamp();
    ReadExampleFields();
  }

  lemma ExampleStamp()
    ensures "8" + ":" + "15" == "8:15"
  {
  }

  lemma ReadExampleFields()
    ensures ToNumber("8") == Int(8) && ToNumber("15") == Int(15)
  {
    ReadExampleHours();
    ReadExampleMinutes();
  }

  lemma ReadExampleHours()
    ensures ToNumber("8") == Int(8)
  {
    ReadDigits("8");
    ExampleHoursValue();
  }

  lemma ExampleHoursValue()
    ensures DigitsValue("8") == 8
  {
    assert "8"[..0] == "";
  }

  lemma ReadExampleMinutes()
    ensures ToNumber("15") == Int(15)
  {
    ReadDigits("15");
    ExampleMinutesValue();
  }

  lemma ExampleMinutesValue()
    ensures DigitsValue("15") == 15
  {
    assert "15"[..1] == "1" && "1"[..0] == "";
  }

  /** Reading back what `formatMin` prints gives the minutes, below 100 hours. */
  lemma FormatTimestampOfFormatMin(min: nat)
    requires min < 6000
    ensures FormatTimestamp(FormatMin(min)) == Int(min)
  {
    FormatMinBelow100Hours(min);
    HoursAndMinutes(min);
    ReadPaddedFields(min / 60, min % 60);
  }

  /** Two padded fields read back as hours and minutes. */
  lemma ReadPaddedFields(h: nat, m: nat)
    requires h < 100 && m < 100
    ensures FormatTimestamp(TwoDigits(h) + ":" + TwoDigits(m)) == Int(h * 60 + m)
  {
    ReadTwoDigits(h);
    ReadTwoDigits(m);
    NoColonInDigits(TwoDigits(h));
    NoColonInDigits(TwoDigits(m));
    ReadFields(TwoDigits(h), TwoDigits(m), h, m);
  }

  /** Two fields that read as `x` and `y` make a timestamp of `60 * x + y`. */
  lemma ReadFields(a: string, b: string, x: int, y: int)
    requires ':' !in a && ':' !in b
    requires ToNumber(a) == Int(x) && ToNumber(b) == Int(y)
    ensures FormatTimestamp(a + ":" + b) == Int(x * 60 + y)
  {
    TwoFieldTimestamp(a, b);
    TimesSixtyPlus(ToNumber(a), ToNumber(b), x, y);
  }

  lemma TimesSixtyPlus(na: Num, nb: Num, x: int, y: int)
    requires na == Int(x) && nb == Int(y)
    ensures na.Times(60).Plus(nb) == Int(x * 60 + y)
  {
  }

  lemma FormatMinBelow100Hours(min: nat)
    requires min < 6000
    ensures FormatMin(min) == TwoDigits(min / 60) + ":" + TwoDigits(min % 60)
  {
    HoursAndMinutes(min);
  }

  lemma HoursAndMinutes(min: nat)
    requires min < 6000
    ensures min / 60 % 100 == min / 60 && min / 60 < 100 && min % 60 < 100
    ensures min == min / 60 * 60 + min % 60
  {
  }
}
