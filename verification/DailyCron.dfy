/** EFD.cron: printing, recognising and parsing daily cron expressions. */
module DailyCron {
  import opened Wrappers

  // ---------------------------------------------------------------- JavaScript strings

  predicate IsSpace(c: char) { c == ' ' || ('\t' <= c <= '\r') }

  predicate IsDigit(c: char) { '0' <= c <= '9' }

  function Digit(d: nat): char
    requires d < 10
  {
    ('0' as int + d) as char
  }

  /** split on one character. */
  function Split(s: string, sep: char): (parts: seq<string>)
    ensures |parts| > 0
  {
    if s == "" then [""]
    else
      var rest := Split(s[1..], sep);
      if s[0] == sep then [""] + rest else [[s[0]] + rest[0]] + rest[1..]
  }

  function TrimLeft(s: string): string {
    if s != "" && IsSpace(s[0]) then TrimLeft(s[1..]) else s
  }

  function TrimRight(s: string): string {
    if s != "" && IsSpace(s[|s| - 1]) then TrimRight(s[..|s| - 1]) else s
  }

  function Trim(s: string): string { TrimRight(TrimLeft(s)) }

  function DigitPrefix(s: string): (ds: string)
    ensures forall i :: 0 <= i < |ds| ==> IsDigit(ds[i])
  {
    if s != "" && IsDigit(s[0]) then [s[0]] + DigitPrefix(s[1..]) else ""
  }

  function Value(ds: string): nat
    requires forall i :: 0 <= i < |ds| ==> IsDigit(ds[i])
  {
    if ds == "" then 0
    else
      assert IsDigit(ds[|ds| - 1]);
      10 * Value(ds[..|ds| - 1]) + (ds[|ds| - 1] as int - '0' as int)
  }

  /** parseInt(s, 10); None is NaN. */
  function ParseInt(s: string): Option<int> {
    var t := TrimLeft(s);
    var signed := t != "" && (t[0] == '-' || t[0] == '+');
    var ds := DigitPrefix(if signed then t[1..] else t);
    var v: int := Value(ds);
    if ds == "" then None else Some(if signed && t[0] == '-' then -v else v)
  }

  function Dec(n: nat): string {
    if n < 10 then [Digit(n)] else Dec(n / 10) + [Digit(n % 10)]
  }

  /** A number printed into a string. */
  function Num(n: Option<int>): string {
    match n
    case None => "NaN"
    case Some(i) => if i < 0 then "-" + Dec(-i) else Dec(i)
  }

  function LeftPad(s: string, width: nat, c: char): string
    decreases width - |s|
  {
    if |s| < width then LeftPad([c] + s, width, c) else s
  }

  // ---------------------------------------------------------------- the code

  function FormatDaily(timeValue: string, days: string): string {
    var timeParts := Split(timeValue, ':');
    var hour := ParseInt(timeParts[0]);
    var min := if |timeParts| > 1 then ParseInt(timeParts[1]) else None;
    "59 " + Num(min) + " " + Num(hour) + " ? * " + days + " *"
  }

  datatype Daily = Daily(timeValue: Option<string>, days: seq<int>)

  function InWeek(part: Option<int>): seq<int> {
    if part.Some? && 1 <= part.value <= 7 then [part.value] else []
  }

  /** The days of a list of parts, read one by one. */
  function Checked(parts: seq<string>): seq<int>
    decreases |parts|
  {
    if parts == [] then [] else CheckedPart(parts[0]) + Checked(parts[1..])
  }

  function CheckedPart(part: string): seq<int> {
    if Trim(part) != "*" then InWeek(ParseInt(Trim(part))) else []
  }

  /** What parseDaily means by its day field. */
  function DaysOf(days: string): seq<int> {
    if ',' !in days then InWeek(ParseInt(days)) else Checked(Split(days, ','))
  }

  /** parseDaily; None is the TypeError thrown when there are too few parts. */
  method ParseDaily(expr: string) returns (r: Option<Daily>)
    ensures r == Parsed(expr)
  {
    var parts := Split(expr, ' ');
    if |parts| < 6 {
      return None;
    }
    var min := Trim(parts[1]);
    var hour := Trim(parts[2]);
    var timeValue: Option<string> := None;
    if min != "*" && hour != "*" {
      timeValue := Some(LeftPad(hour, 2, '0') + LeftPad(min, 2, '0'));
    }
    var days := Trim(parts[5]);
    var checked: seq<int> := [];
    if ',' !in days {
      checked := InWeek(ParseInt(days));
    } else {
      var list := Split(days, ',');
      for i := 0 to |list|
        invariant checked + Checked(list[i..]) == Checked(list)
      {
        ghost var was, rest := checked, Checked(list[i + 1..]);
        assert list[i..][0] == list[i] && list[i..][1..] == list[i + 1..];
        var part := Trim(list[i]);
        if part != "*" {
          var day := ParseInt(part);
          if day.Some? && 1 <= day.value <= 7 {
            checked := checked + [day.value];
          }
        }
        assert checked == was + CheckedPart(list[i]);
        Reassociate(was, CheckedPart(list[i]), rest);
      }
      assert checked + [] == checked;
    }
    r := Some(Daily(timeValue, checked));
  }

  function Parsed(expr: string): Option<Daily> {
    var parts := Split(expr, ' ');
    if |parts| < 6 then None
    else
      var min, hour := Trim(parts[1]), Trim(parts[2]);
      Some(Daily(if min != "*" && hour != "*" then Some(LeftPad(hour, 2, '0') + LeftPad(min, 2, '0')) else None,
                 DaysOf(Trim(parts[5]))))
  }

  predicate Spaces(s: string) { forall i :: 0 <= i < |s| ==> IsSpace(s[i]) }

  /** \d{1,2} */
  predicate OneOrTwoDigits(s: string) { 1 <= |s| <= 2 && forall i :: 0 <= i < |s| ==> IsDigit(s[i]) }

  /** ((\d,)+\d)|\d */
  predicate DayList(s: string) {
    s != "" && IsDigit(s[0]) && (|s| == 1 || (s[1] == ',' && DayList(s[2..])))
  }

  /** The parts of a match of the daily expression's pattern. */
  datatype Match = Match(s1: string, min: string, s2: string, hour: string, s3: string, s4: string, s5: string,
      days: string, s6: string) {
    predicate Fits() {
      && Spaces(s1) && Spaces(s2) && Spaces(s3) && Spaces(s4) && Spaces(s5) && Spaces(s6)
      && OneOrTwoDigits(min) && OneOrTwoDigits(hour) && DayList(days)
    }

    function Text(): string {
      "59" + s1 + min + s2 + hour + s3 + "?" + s4 + "*" + s5 + days + s6 + "*"
    }
  }

  ghost predicate IsDailyExpression(expr: string) {
    exists m: Match :: m.Fits() && m.Text() == Trim(expr)
  }

  // ---------------------------------------------------------------- lemmas on strings

  lemma {:induction false} SplitFirst(a: string, sep: char, rest: string)
    requires sep !in a
    ensures Split(a + [sep] + rest, sep) == [a] + Split(rest, sep)
    decreases |a|
  {
    var s := a + [sep] + rest;
    if a == "" {
      assert s[1..] == rest;
    } else {
      assert s[0] == a[0] && a[0] in a;
      assert s[1..] == a[1..] + [sep] + rest;
      SplitFirst(a[1..], sep, rest);
      assert [a[0]] + a[1..] == a;
    }
  }

  lemma {:induction false} SplitOnly(a: string, sep: char)
    requires sep !in a
    ensures Split(a, sep) == [a]
    decreases |a|
  {
    if a != "" {
      assert a[0] in a;
      SplitOnly(a[1..], sep);
      assert [a[0]] + a[1..] == a;
    }
  }

  lemma {:induction false} TrimNothing(s: string)
    requires s != "" && !IsSpace(s[0]) && !IsSpace(s[|s| - 1])
    ensures Trim(s) == s
  {
  }

  /** A number below 100 prints as one or two digits, and pads to two. */
  lemma {:induction false} SmallNumber(n: nat)
    requires n < 100
    ensures OneOrTwoDigits(Dec(n)) && Trim(Dec(n)) == Dec(n) && ' ' !in Dec(n)
    ensures LeftPad(Dec(n), 2, '0') == [Digit(n / 10), Digit(n % 10)]
  {
    if n < 10 {
      assert Dec(n) == [Digit(n)];
      assert LeftPad(Dec(n), 2, '0') == LeftPad(['0', Digit(n)], 2, '0');
    } else {
      assert Dec(n) == [Digit(n / 10), Digit(n % 10)];
    }
    TrimNothing(Dec(n));
  }

  // ---------------------------------------------------------------- the round trip

  ghost predicate Week(days: seq<int>) { forall i :: 0 <= i < |days| ==> 1 <= days[i] <= 7 }

  /** The day list as the form hands it over: the numbers separated by commas. */
  function Join(days: seq<int>): string
    requires Week(days)
    decreases |days|
  {
    if days == [] then ""
    else if |days| == 1 then [Digit(days[0])]
    else [Digit(days[0])] + "," + Join(days[1..])
  }

  lemma DayParses(d: nat)
    requires 1 <= d <= 7
    ensures ParseInt([Digit(d)]) == Some(d) && Trim([Digit(d)]) == [Digit(d)]
  {
    var s := [Digit(d)];
    assert s[1..] == "" && DigitPrefix(s) == [s[0]] + DigitPrefix("") == s;
    assert s[..0] == "" && Value(s) == 10 * Value("") + d;
    assert TrimLeft(s) == s;
    TrimNothing(s);
  }

  lemma {:induction false} JoinShape(days: seq<int>)
    requires Week(days) && days != []
    ensures DayList(Join(days)) && ' ' !in Join(days) && Trim(Join(days)) == Join(days)
    ensures ',' in Join(days) <==> |days| > 1
    ensures IsDigit(Join(days)[0]) && IsDigit(Join(days)[|Join(days)| - 1])
    decreases |days|
  {
    var s := Join(days);
    if |days| > 1 {
      JoinShape(days[1..]);
      assert s[1] == ',' && s[2..] == Join(days[1..]);
      assert s[|s| - 1] == Join(days[1..])[|s| - 3];
    }
    TrimNothing(s);
  }

  lemma Reassociate(a: seq<int>, b: seq<int>, c: seq<int>)
    ensures (a + b) + c == a + (b + c)
  {
  }

  lemma CheckedDay(d: nat)
    requires 1 <= d <= 7
    ensures CheckedPart([Digit(d)]) == [d]
  {
    DayParses(d);
  }

  /** Splitting a printed list at its commas gives back the days. */
  lemma {:induction false} JoinSplits(days: seq<int>)
    requires Week(days) && days != []
    ensures Checked(Split(Join(days), ',')) == days
    decreases |days|
  {
    var first := [Digit(days[0])];
    CheckedDay(days[0]);
    if |days| == 1 {
      SplitOnly(first, ',');
      assert [first][1..] == [] && days == [days[0]] + [];
    } else {
      SplitFirst(first, ',', Join(days[1..]));
      assert Join(days) == first + [','] + Join(days[1..]);
      JoinSplits(days[1..]);
      var parts := Split(Join(days), ',');
      assert parts[0] == first && parts[1..] == Split(Join(days[1..]), ',');
      assert CheckedPart(first) == [days[0]];
    }
  }

  lemma DaysRoundTrip(days: seq<int>)
    requires Week(days) && days != []
    ensures DaysOf(Join(days)) == days
  {
    JoinShape(days);
    if |days| == 1 {
      DayParses(days[0]);
    } else {
      JoinSplits(days);
    }
  }

  /** What formatDaily prints for numbers of one or two digits. */
  function Expression(min: string, hour: string, days: string): string {
    "59 " + min + " " + hour + " ? * " + days + " *"
  }

  lemma ExpressionSplits(min: string, hour: string, days: string)
    requires ' ' !in min && ' ' !in hour && ' ' !in days
    ensures Split(Expression(min, hour, days), ' ') == ["59", min, hour, "?", "*", days, "*"]
  {
    var r2 := "? * " + days + " *";
    var r0 := min + [' '] + (hour + [' '] + r2);
    assert Expression(min, hour, days) == "59" + [' '] + r0;
    SplitFirst("59", ' ', r0);
    SplitFirst(min, ' ', hour + [' '] + r2);
    SplitFirst(hour, ' ', r2);
    TailSplits(days);
  }

  lemma TailSplits(days: string)
    requires ' ' !in days
    ensures Split("? * " + days + " *", ' ') == ["?", "*", days, "*"]
  {
    var r4 := days + [' '] + "*";
    var r3 := "*" + [' '] + r4;
    assert "? * " + days + " *" == "?" + [' '] + r3;
    SplitFirst("?", ' ', r3);
    SplitFirst("*", ' ', r4);
    SplitFirst(days, ' ', "*");
    SplitOnly("*", ' ');
  }

  lemma {:induction false} ExpressionText(min: string, hour: string, days: string)
    ensures var e := Expression(min, hour, days);
            && Match(" ", min, " ", hour, " ", " ", " ", days, " ").Text() == e
            && e != "" && e[0] == '5' && e[|e| - 1] == '*'
  {
  }

  lemma {:induction false} ExpressionIsDaily(min: string, hour: string, days: string)
    requires OneOrTwoDigits(min) && OneOrTwoDigits(hour) && DayList(days)
    ensures IsDailyExpression(Expression(min, hour, days))
  {
    ExpressionText(min, hour, days);
    TrimNothing(Expression(min, hour, days));
    FitsTogether(" ", min, hour, days);
  }

  /**
   * For every time value that reads as an hour and a minute of the day, and every non-empty list of week days:
   * formatDaily's output is recognised, and parseDaily gives back the zero-padded time and the days.
   */
  lemma FormatParses(timeValue: string, hour: nat, min: nat, days: seq<int>)
    requires hour < 24 && min < 60 && Week(days) && days != []
    requires |Split(timeValue, ':')| > 1
    requires ParseInt(Split(timeValue, ':')[0]) == Some(hour) && ParseInt(Split(timeValue, ':')[1]) == Some(min)
    ensures var expr := FormatDaily(timeValue, Join(days));
            && IsDailyExpression(expr)
            && Parsed(expr) ==
               Some(Daily(Some([Digit(hour / 10), Digit(hour % 10), Digit(min / 10), Digit(min % 10)]), days))
  {
    FormatIsExpression(timeValue, hour, min, Join(days));
    SmallNumber(hour);
    SmallNumber(min);
    JoinShape(days);
    assert IsDigit(Dec(min)[0]) && IsDigit(Dec(hour)[0]);
    ExpressionIsDaily(Dec(min), Dec(hour), Join(days));
    ExpressionParses(Dec(min), Dec(hour), Join(days));
    DaysRoundTrip(days);
    assert [Digit(hour / 10), Digit(hour % 10)] + [Digit(min / 10), Digit(min % 10)]
        == [Digit(hour / 10), Digit(hour % 10), Digit(min / 10), Digit(min % 10)];
  }

  lemma FormatIsExpression(timeValue: string, hour: nat, min: nat, days: string)
    requires |Split(timeValue, ':')| > 1
    requires ParseInt(Split(timeValue, ':')[0]) == Some(hour) && ParseInt(Split(timeValue, ':')[1]) == Some(min)
    ensures FormatDaily(timeValue, days) == Expression(Dec(min), Dec(hour), days)
  {
    assert Num(Some(hour)) == Dec(hour) && Num(Some(min)) == Dec(min);
  }

  lemma ExpressionParses(min: string, hour: string, days: string)
    requires ' ' !in min && ' ' !in hour && ' ' !in days
    requires Trim(min) == min != "*" && Trim(hour) == hour != "*" && Trim(days) == days
    ensures Parsed(Expression(min, hour, days)) ==
        Some(Daily(Some(LeftPad(hour, 2, '0') + LeftPad(min, 2, '0')), DaysOf(days)))
  {
    ExpressionSplits(min, hour, days);
  }

  /** A time of day as the form shows it, HH:MM. */
  function Clock(hour: nat, min: nat): string
    requires hour < 100 && min < 100
  {
    [Digit(hour / 10), Digit(hour % 10)] + [':'] + [Digit(min / 10), Digit(min % 10)]
  }

  lemma {:induction false} TwoDigitsPrefix(s: string)
    requires |s| == 2 && IsDigit(s[0]) && IsDigit(s[1])
    ensures DigitPrefix(s) == s
  {
    var t := s[1..];
    assert t[1..] == "";
    assert DigitPrefix(t) == [t[0]] + DigitPrefix("");
    assert t == [t[0]] + "" && s == [s[0]] + t;
  }

  lemma {:induction false} TwoDigitsValue(s: string)
    requires |s| == 2 && IsDigit(s[0]) && IsDigit(s[1])
    ensures Value(s) == 10 * (s[0] as int - '0' as int) + (s[1] as int - '0' as int)
  {
    var t := s[..1];
    assert t[..0] == "";
    assert Value(t) == 10 * Value("") + (t[0] as int - '0' as int);
  }

  lemma {:induction false} TwoDigitsRead(a: nat, b: nat)
    requires a < 10 && b < 10
    ensures ParseInt([Digit(a), Digit(b)]) == Some(10 * a + b)
  {
    var s := [Digit(a), Digit(b)];
    TwoDigitsPrefix(s);
    TwoDigitsValue(s);
    assert TrimLeft(s) == s;
  }

  /** Such a time reads as its hour and minute, so it survives the round trip. */
  lemma ClockRoundTrip(hour: nat, min: nat, days: seq<int>)
    requires hour < 24 && min < 60 && Week(days) && days != []
    ensures var expr := FormatDaily(Clock(hour, min), Join(days));
            && IsDailyExpression(expr)
            && Parsed(expr) ==
               Some(Daily(Some([Digit(hour / 10), Digit(hour % 10), Digit(min / 10), Digit(min % 10)]), days))
  {
    var h, m := [Digit(hour / 10), Digit(hour % 10)], [Digit(min / 10), Digit(min % 10)];
    SplitFirst(h, ':', m);
    SplitOnly(m, ':');
    TwoDigitsRead(hour / 10, hour % 10);
    TwoDigitsRead(min / 10, min % 10);
    FormatParses(Clock(hour, min), hour, min, days);
  }

  lemma FitsTogether(space: string, min: string, hour: string, days: string)
    requires Spaces(space) && OneOrTwoDigits(min) && OneOrTwoDigits(hour) && DayList(days)
    ensures Match(space, min, space, hour, space, space, space, days, space).Fits()
  {
  }

  function CountOf(s: string, c: char): nat {
    if s == "" then 0 else (if s[0] == c then 1 else 0) + CountOf(s[1..], c)
  }

  lemma {:induction false} SplitCounts(s: string, sep: char)
    ensures |Split(s, sep)| == CountOf(s, sep) + 1
    decreases |s|
  {
    if s != "" {
      SplitCounts(s[1..], sep);
    }
  }

  /** parseDaily gets by, recognised or not, exactly on the expressions with five spaces or more. */
  lemma ParsesIff(expr: string)
    ensures Parsed(expr).Some? <==> CountOf(expr, ' ') >= 5
  {
    SplitCounts(expr, ' ');
  }

  // ---------------------------------------------------------------- what is printed and read

  lemma PrintedExample()
    ensures Expression("1", "23", "1,2") == "59 1 23 ? * 1,2 *"
  {
  }

  /** The numbers that are days of the week. */
  function WeekDays(ds: seq<nat>): seq<int> {
    if ds == [] then [] else (if 1 <= ds[0] <= 7 then [ds[0]] else []) + WeekDays(ds[1..])
  }

  predicate AreDigits(ds: seq<nat>) { forall i :: 0 <= i < |ds| ==> ds[i] < 10 }

  /** Digits with commas between them. */
  function JoinDigits(ds: seq<nat>): string
    requires AreDigits(ds)
    decreases |ds|
  {
    if ds == [] then ""
    else if |ds| == 1 then [Digit(ds[0])]
    else [Digit(ds[0])] + "," + JoinDigits(ds[1..])
  }

  lemma {:induction false} DigitIsChecked(d: nat)
    requires d < 10
    ensures ParseInt([Digit(d)]) == Some(d)
    ensures CheckedPart([Digit(d)]) == if 1 <= d <= 7 then [d] else []
  {
    var s := [Digit(d)];
    assert s[1..] == "" && DigitPrefix(s) == [s[0]] + DigitPrefix("") == s;
    assert s[..0] == "" && Value(s) == 10 * Value("") + d;
    assert TrimLeft(s) == s;
    TrimNothing(s);
  }

  lemma {:induction false} DigitsAreChecked(ds: seq<nat>)
    requires ds != [] && AreDigits(ds)
    ensures Checked(Split(JoinDigits(ds), ',')) == WeekDays(ds)
    ensures ',' in JoinDigits(ds) <==> |ds| > 1
    decreases |ds|
  {
    var first := [Digit(ds[0])];
    DigitIsChecked(ds[0]);
    if |ds| == 1 {
      SplitOnly(first, ',');
      assert [first][1..] == [] && ds[1..] == [];
    } else {
      var rest := JoinDigits(ds[1..]);
      DigitsAreChecked(ds[1..]);
      SplitFirst(first, ',', rest);
      assert JoinDigits(ds) == first + [','] + rest;
      assert ([first] + Split(rest, ','))[1..] == Split(rest, ',');
    }
  }

  /** Of a list of digits exactly those from 1 to 7 are read as days, in their order. */
  lemma DaysReadAre(ds: seq<nat>)
    requires ds != [] && AreDigits(ds)
    ensures DaysOf(JoinDigits(ds)) == WeekDays(ds)
  {
    DigitsAreChecked(ds);
    if |ds| == 1 {
      DigitIsChecked(ds[0]);
      assert ds[1..] == [];
    }
  }

  /** A star for the minute or the hour leaves the time out. */
  lemma StarHasNoTime(min: string, hour: string, days: string)
    requires ' ' !in min && ' ' !in hour && ' ' !in days && (min == "*" || hour == "*")
    ensures Parsed(Expression(min, hour, days)) == Some(Daily(None, DaysOf(Trim(days))))
  {
    ExpressionSplits(min, hour, days);
    TrimNothing("*");
  }

  /** What counts as white space and as a digit. */
  lemma CharacterClasses(c: char)
    requires c as int < 128
    ensures IsSpace(c) <==>
        c as int == 9 || c as int == 10 || c as int == 11 || c as int == 12 || c as int == 13 || c as int == 32
    ensures IsDigit(c) <==> 48 <= c as int <= 57
  {
  }

  /** The day lists of the pattern are the digits, of whatever value, with commas between them. */
  lemma {:induction false} DayListIff(s: string)
    ensures DayList(s) <==> exists ds :: ds != [] && AreDigits(ds) && s == JoinDigits(ds)
    decreases |s|
  {
    if DayList(s) {
      var ds := DigitsOf(s);
    }
    if ds :| ds != [] && AreDigits(ds) && s == JoinDigits(ds) {
      JoinedIsDayList(ds);
    }
  }

  lemma {:induction false} DigitsOf(s: string) returns (ds: seq<nat>)
    requires DayList(s)
    ensures ds != [] && AreDigits(ds) && s == JoinDigits(ds)
    decreases |s|
  {
    var d: nat := s[0] as int - '0' as int;
    assert Digit(d) == s[0];
    if |s| == 1 {
      ds := [d];
    } else {
      var rest := DigitsOf(s[2..]);
      ds := [d] + rest;
      assert ds[1..] == rest && s == [s[0]] + "," + s[2..];
    }
  }

  lemma {:induction false} JoinedIsDayList(ds: seq<nat>)
    requires ds != [] && AreDigits(ds)
    ensures DayList(JoinDigits(ds))
    decreases |ds|
  {
    if |ds| > 1 {
      JoinedIsDayList(ds[1..]);
      var s := JoinDigits(ds);
      assert s[1] == ',' && s[2..] == JoinDigits(ds[1..]);
    }
  }
}
