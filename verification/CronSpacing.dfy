/**
 * Which white space a daily expression may have: EFD.cron.isDailyExpression accepts any amount of it, and
 * parseDaily splits at single spaces.
 */
module CronSpacing {
  import opened Wrappers
  import opened DailyCron

  // ---------------------------------------------------------------- what can be seen of a part

  /** The characters that are no white space. */
  function Ink(s: string): string {
    if s == "" then "" else (if IsSpace(s[0]) then "" else [s[0]]) + Ink(s[1..])
  }

  /** Those of them that stand behind exactly k spaces. */
  function InkAt(s: string, k: int): string {
    if s == "" then ""
    else if s[0] == ' ' then InkAt(s[1..], k - 1)
    else (if k == 0 && !IsSpace(s[0]) then [s[0]] else "") + InkAt(s[1..], k)
  }

  lemma {:induction false} NoInkBefore(s: string, k: int)
    requires k < 0
    ensures InkAt(s, k) == ""
    decreases |s|
  {
    if s != "" {
      NoInkBefore(s[1..], if s[0] == ' ' then k - 1 else k);
    }
  }

  /** What is seen of part k. */
  lemma {:induction false} InkOfPart(s: string, k: nat)
    requires k < |Split(s, ' ')|
    ensures Ink(Split(s, ' ')[k]) == InkAt(s, k)
    decreases |s|
  {
    if s != "" {
      var rest := Split(s[1..], ' ');
      if s[0] == ' ' {
        if k == 0 {
          NoInkBefore(s[1..], -1);
        } else {
          InkOfPart(s[1..], k - 1);
        }
      } else {
        InkOfPart(s[1..], k);
        if k == 0 {
          assert ([s[0]] + rest[0])[1..] == rest[0];
        }
      }
    }
  }

  lemma {:induction false} InkConcat(a: string, b: string, k: int)
    ensures InkAt(a + b, k) == InkAt(a, k) + InkAt(b, k - CountOf(a, ' '))
    ensures CountOf(a + b, ' ') == CountOf(a, ' ') + CountOf(b, ' ')
    decreases |a|
  {
    if a == "" {
      assert a + b == b;
    } else {
      assert (a + b)[1..] == a[1..] + b;
      InkConcat(a[1..], b, if a[0] == ' ' then k - 1 else k);
    }
  }

  lemma {:induction false} SpacesHaveNoInk(s: string, k: int)
    requires Spaces(s)
    ensures InkAt(s, k) == ""
    decreases |s|
  {
    if s != "" {
      SpacesHaveNoInk(s[1..], if s[0] == ' ' then k - 1 else k);
    }
  }

  predicate Solid(t: string) { forall i :: 0 <= i < |t| ==> !IsSpace(t[i]) }

  lemma {:induction false} SolidInk(t: string, k: int)
    requires Solid(t)
    ensures InkAt(t, k) == (if k == 0 then t else "") && CountOf(t, ' ') == 0 && Ink(t) == t
    decreases |t|
  {
    if t != "" {
      assert t == [t[0]] + t[1..];
      SolidInk(t[1..], k);
    }
  }

  /** A token behind white space. */
  lemma {:induction false} TokenInk(before: string, gap: string, token: string, k: int)
    requires Spaces(gap) && Solid(token)
    ensures var n := CountOf(before, ' ') + CountOf(gap, ' ');
            && InkAt(before + gap + token, k) == InkAt(before, k) + (if k == n then token else "")
            && CountOf(before + gap + token, ' ') == n
  {
    InkConcat(before + gap, token, k);
    GapInk(before, gap, k);
    SolidInk(token, k - CountOf(before + gap, ' '));
  }

  lemma {:induction false} GapInk(before: string, gap: string, k: int)
    requires Spaces(gap)
    ensures InkAt(before + gap, k) == InkAt(before, k)
        && CountOf(before + gap, ' ') == CountOf(before, ' ') + CountOf(gap, ' ')
  {
    InkConcat(before, gap, k);
    SpacesHaveNoInk(gap, k - CountOf(before, ' '));
    assert InkAt(before, k) + "" == InkAt(before, k);
  }

  lemma {:induction false} InkOfTrimLeft(s: string)
    ensures Ink(TrimLeft(s)) == Ink(s)
    decreases |s|
  {
    if s != "" && IsSpace(s[0]) {
      InkOfTrimLeft(s[1..]);
    }
  }

  lemma {:induction false} InkEnd(s: string)
    requires s != ""
    ensures Ink(s) == Ink(s[..|s| - 1]) + if IsSpace(s[|s| - 1]) then "" else [s[|s| - 1]]
    decreases |s|
  {
    if |s| > 1 {
      InkEnd(s[1..]);
      assert s[1..][..|s| - 2] == s[..|s| - 1][1..];
    }
  }

  lemma {:induction false} InkOfTrimRight(s: string)
    ensures Ink(TrimRight(s)) == Ink(s)
    decreases |s|
  {
    if s != "" && IsSpace(s[|s| - 1]) {
      InkEnd(s);
      InkOfTrimRight(s[..|s| - 1]);
    }
  }

  lemma InkOfTrim(s: string)
    ensures Ink(Trim(s)) == Ink(s)
  {
    InkOfTrimLeft(s);
    InkOfTrimRight(TrimLeft(s));
  }

  // ---------------------------------------------------------------- spacing

  /** A recognised expression: what the pattern matches, and white space around it. */
  datatype Spaced = Spaced(lead: string, m: Match, trail: string) {
    predicate Fits() { Spaces(lead) && Spaces(trail) && m.Fits() }

    function Text(): string { lead + m.Text() + trail }

    /** parseDaily returns the matched time and days. */
    predicate Read() {
      Parsed(Text()) == Some(Daily(Some(LeftPad(m.hour, 2, '0') + LeftPad(m.min, 2, '0')), DaysOf(m.days)))
    }

    /**
     * No space in front, one before the minute and one before the hour, at least one behind the hour and one
     * before the days, and three from the hour to the days in all.
     */
    predicate WellSpaced() {
      && CountOf(lead, ' ') == 0 && CountOf(m.s1, ' ') == 1 && CountOf(m.s2, ' ') == 1
      && CountOf(m.s3, ' ') >= 1 && CountOf(m.s5, ' ') >= 1
      && CountOf(m.s3, ' ') + CountOf(m.s4, ' ') + CountOf(m.s5, ' ') == 3
    }

    /** The same white space around another time and other days. */
    predicate SameGaps(other: Spaced) {
      && lead == other.lead && trail == other.trail && m.s1 == other.m.s1 && m.s2 == other.m.s2
      && m.s3 == other.m.s3 && m.s4 == other.m.s4 && m.s5 == other.m.s5 && m.s6 == other.m.s6
    }
  }

  // ---------------------------------------------------------------- enough and not too many spaces

  lemma {:induction false} SplitGlue(a: string, b: string)
    ensures Split(a + " " + b, ' ') == Split(a, ' ') + Split(b, ' ')
    decreases |a|
  {
    var s := a + " " + b;
    if a == "" {
      assert s[1..] == b;
    } else {
      assert s[1..] == a[1..] + " " + b;
      SplitGlue(a[1..], b);
    }
  }

  lemma {:induction false} NoneIn(s: string, c: char)
    ensures CountOf(s, c) == 0 <==> c !in s
    decreases |s|
  {
    if s != "" {
      assert s == [s[0]] + s[1..];
      NoneIn(s[1..], c);
    }
  }

  /** White space around its first space. */
  lemma {:induction false} FirstSpace(s: string) returns (u: string, v: string)
    requires Spaces(s) && CountOf(s, ' ') >= 1
    ensures s == u + " " + v && ' ' !in u && Spaces(u) && Spaces(v) && CountOf(v, ' ') == CountOf(s, ' ') - 1
    decreases |s|
  {
    if s[0] == ' ' {
      u, v := "", s[1..];
      assert s == [' '] + s[1..];
    } else {
      u, v := FirstSpace(s[1..]);
      assert s == [s[0]] + s[1..] == ([s[0]] + u) + " " + v;
      u := [s[0]] + u;
    }
  }

  /** White space around its last space. */
  lemma {:induction false} LastSpace(s: string) returns (u: string, v: string)
    requires Spaces(s) && CountOf(s, ' ') >= 1
    ensures s == u + " " + v && ' ' !in v && Spaces(u) && Spaces(v) && CountOf(u, ' ') == CountOf(s, ' ') - 1
    decreases |s|
  {
    u, v := FirstSpace(s);
    NoneIn(u, ' ');
    NoneIn(v, ' ');
    if CountOf(v, ' ') > 0 {
      var x, y := LastSpace(v);
      assert s == (u + " " + x) + " " + y;
      InkConcat(u + " ", x, 0);
      InkConcat(u, " ", 0);
      u, v := u + " " + x, y;
    }
  }

  lemma {:induction false} TrimAround(u: string, t: string, v: string)
    requires Spaces(u) && Spaces(v) && t != "" && !IsSpace(t[0]) && !IsSpace(t[|t| - 1])
    ensures Trim(u + t + v) == t
    decreases |u|, |v|
  {
    var s := u + t + v;
    if u != "" {
      assert s[1..] == u[1..] + t + v;
      TrimAround(u[1..], t, v);
    } else if v != "" {
      assert s[0] == t[0] && s[..|s| - 1] == u + t + v[..|v| - 1];
      TrimAround(u, t, v[..|v| - 1]);
      assert TrimLeft(s[..|s| - 1]) == s[..|s| - 1];
    } else {
      assert s == t;
    }
  }

  /** The first part of a string that begins without a space. */
  lemma {:induction false} FirstPart(a: string, b: string)
    requires ' ' !in a
    ensures Split(a + b, ' ')[0] == a + Split(b, ' ')[0]
    decreases |a|
  {
    if a == "" {
      assert a + b == b;
    } else {
      assert a == [a[0]] + a[1..] && (a + b)[1..] == a[1..] + b;
      FirstPart(a[1..], b);
    }
  }

  lemma {:induction false} FirstPartBlank(s: string, rest: string)
    requires Spaces(s) && (' ' in s || rest == "")
    ensures Spaces(Split(s + rest, ' ')[0])
    decreases |s|
  {
    if s == "" {
      assert s + rest == "";
    } else if s[0] != ' ' {
      assert s == [s[0]] + s[1..] && (s + rest)[1..] == s[1..] + rest;
      FirstPartBlank(s[1..], rest);
    }
  }

  // ---------------------------------------------------------------- the day field

  lemma {:induction false} PartWithTail(d: char, tail: string)
    requires IsDigit(d) && tail != "" && (IsSpace(tail[0]) || tail[0] == '*') && !IsSpace(tail[|tail| - 1])
    ensures ParseInt([d] + tail) == ParseInt([d]) && CheckedPart([d] + tail) == CheckedPart([d])
  {
    var s := [d] + tail;
    assert s[1..] == tail && [d][1..] == "";
    assert DigitPrefix(s) == [d] + DigitPrefix(tail) == [d] + "" == DigitPrefix([d]);
    TrimNothing(s);
    TrimNothing([d]);
  }

  lemma {:induction false} ListWithTail(days: string, tail: string)
    requires DayList(days) && tail != "" && ',' !in tail
    requires (IsSpace(tail[0]) || tail[0] == '*') && !IsSpace(tail[|tail| - 1])
    ensures Checked(Split(days + tail, ',')) == Checked(Split(days, ','))
    decreases |days|
  {
    var d := [days[0]];
    if |days| == 1 {
      assert days == d;
      SplitOnly(d + tail, ',');
      SplitOnly(d, ',');
      PartWithTail(days[0], tail);
      assert [d + tail][1..] == [] && [d][1..] == [];
    } else {
      var rest := days[2..];
      assert days == d + [','] + rest && days + tail == d + [','] + (rest + tail);
      SplitFirst(d, ',', rest);
      SplitFirst(d, ',', rest + tail);
      ListWithTail(rest, tail);
      HeadChecked(d, Split(rest, ','));
      HeadChecked(d, Split(rest + tail, ','));
    }
  }

  lemma HeadChecked(d: string, parts: seq<string>)
    ensures Checked([d] + parts) == CheckedPart(d) + Checked(parts)
  {
    assert ([d] + parts)[1..] == parts;
  }

  lemma {:induction false} CommaIff(days: string)
    requires DayList(days)
    ensures Solid(days) && (',' in days <==> |days| > 1)
    ensures IsDigit(days[0]) && IsDigit(days[|days| - 1])
    decreases |days|
  {
    if |days| > 1 {
      CommaIff(days[2..]);
      assert days[1] == ',';
      assert forall i :: 2 <= i < |days| ==> days[i] == days[2..][i - 2];
    }
  }

  /** The star right behind the days does not matter. */
  lemma {:induction false} DaysWithTail(days: string, gap: string)
    requires DayList(days) && Spaces(gap)
    ensures DaysOf(days + (gap + "*")) == DaysOf(days)
  {
    var tail := gap + "*";
    CommaIff(days);
    assert ',' !in tail;
    if |days| == 1 {
      assert days == [days[0]];
      PartWithTail(days[0], tail);
      assert ',' !in days + tail;
    } else {
      assert (days + tail)[1] == ',';
      ListWithTail(days, tail);
    }
  }

  /** The day field, when a space is right in front of the days or only other white space between. */
  lemma {:induction false} DayField(v: string, days: string, gap: string, trail: string)
    requires Spaces(v) && ' ' !in v && DayList(days) && Spaces(gap) && Spaces(trail)
    ensures DaysOf(Trim(Split(v + days + gap + "*" + trail, ' ')[0])) == DaysOf(days)
  {
    CommaIff(days);
    assert ' ' !in days;
    if ' ' in gap {
      var rest := "*" + trail;
      assert v + days + gap + "*" + trail == (v + days) + (gap + rest);
      FirstPart(v + days, gap + rest);
      FirstPartBlank(gap, rest);
      TrimAround(v, days, Split(gap + rest, ' ')[0]);
    } else {
      var field := days + (gap + "*");
      assert v + days + gap + "*" + trail == (v + field) + trail;
      FirstPart(v + field, trail);
      assert trail + "" == trail;
      FirstPartBlank(trail, "");
      TrimAround(v, field, Split(trail, ' ')[0]);
      DaysWithTail(days, gap);
    }
  }

  // ---------------------------------------------------------------- the theorem

  /** The parts of an expression cut at five of its spaces. */
  lemma {:induction false} PartsOf(a: string, b: string, c: string, d: string, e: string)
    requires ' ' !in a && ' ' !in b && ' ' !in c && CountOf(d, ' ') == 1
    ensures var parts := Split(a + " " + (b + " " + (c + " " + (d + " " + e))), ' ');
            |parts| >= 6 && parts[1] == b && parts[2] == c && parts[5] == Split(e, ' ')[0]
  {
    SplitGlue(a, b + " " + (c + " " + (d + " " + e)));
    SplitGlue(b, c + " " + (d + " " + e));
    SplitGlue(c, d + " " + e);
    SplitGlue(d, e);
    SplitOnly(a, ' ');
    SplitOnly(b, ' ');
    SplitOnly(c, ' ');
    SplitCounts(d, ' ');
  }

  lemma {:induction false} WellSpacedReads(x: Spaced)
    requires x.Fits() && x.WellSpaced()
    ensures x.Read()
  {
    var m := x.m;
    var u1, v1 := FirstSpace(m.s1);
    var u2, v2 := FirstSpace(m.s2);
    var u3, v3 := FirstSpace(m.s3);
    var u5, v5 := LastSpace(m.s5);
    NoneIn(x.lead, ' ');
    NoneIn(v1, ' ');
    NoneIn(v2, ' ');
    var a, b, c := x.lead + "59" + u1, v1 + m.min + u2, v2 + m.hour + u3;
    var d, e := v3 + "?" + m.s4 + "*" + u5, v5 + m.days + m.s6 + "*" + x.trail;
    MiddleSpaces(v3, m.s4, u5);
    Assembled(x, u1, v1, u2, v2, u3, v3, u5, v5);
    PartsOf(a, b, c, d, e);
    TrimAround(v1, m.min, u2);
    TrimAround(v2, m.hour, u3);
    DayField(v5, m.days, m.s6, x.trail);
    assert m.min != "*" && m.hour != "*";
  }

  lemma {:induction false} MiddleSpaces(u: string, v: string, w: string)
    ensures CountOf(u + "?" + v + "*" + w, ' ') == CountOf(u, ' ') + CountOf(v, ' ') + CountOf(w, ' ')
  {
    InkConcat(u + "?" + v + "*", w, 0);
    InkConcat(u + "?" + v, "*", 0);
    InkConcat(u + "?", v, 0);
    InkConcat(u, "?", 0);
  }

  lemma {:induction false} Assembled(x: Spaced, u1: string, v1: string, u2: string, v2: string, u3: string,
      v3: string, u5: string, v5: string)
    requires x.m.s1 == u1 + " " + v1 && x.m.s2 == u2 + " " + v2 && x.m.s3 == u3 + " " + v3 && x.m.s5 == u5 + " " + v5
    ensures var m := x.m;
            x.Text() == x.lead + "59" + u1 + " " + (v1 + m.min + u2 + " " + (v2 + m.hour + u3 + " " +
                        (v3 + "?" + m.s4 + "*" + u5 + " " + (v5 + m.days + m.s6 + "*" + x.trail))))
  {
  }

  /** The time and days that tell every spacing apart. */
  function Probe(x: Spaced): Spaced { x.(m := x.m.(min := "12", hour := "34", days := "1")) }

  /** How many spaces stand in front of the tokens of an expression. */
  datatype Places = Places(n0: int, n1: int, n2: int, n3: int, n4: int, n5: int, n6: int)

  function PlacesOf(x: Spaced): Places {
    var n0 := CountOf(x.lead, ' ');
    var n1 := n0 + CountOf(x.m.s1, ' ');
    var n2 := n1 + CountOf(x.m.s2, ' ');
    var n3 := n2 + CountOf(x.m.s3, ' ');
    var n4 := n3 + CountOf(x.m.s4, ' ');
    var n5 := n4 + CountOf(x.m.s5, ' ');
    Places(n0, n1, n2, n3, n4, n5, n5 + CountOf(x.m.s6, ' '))
  }

  function Piece(here: bool, token: string): string { if here then token else "" }

  /** What is seen of part k of the probe. */
  function Seen(n: Places, k: int): string {
    Piece(n.n0 == k, "59") + Piece(n.n1 == k, "12") + Piece(n.n2 == k, "34") + Piece(n.n3 == k, "?")
    + Piece(n.n4 == k, "*") + Piece(n.n5 == k, "1") + Piece(n.n6 == k, "*")
  }

  function Front(x: Spaced): string { "" + x.lead + "59" + x.m.s1 + "12" + x.m.s2 + "34" }

  function Back(x: Spaced): string { Front(x) + x.m.s3 + "?" + x.m.s4 + "*" + x.m.s5 + "1" }

  lemma {:induction false} FrontInk(x: Spaced, k: int)
    requires x.Fits()
    ensures var n := PlacesOf(x);
            && InkAt(Front(x), k) == Piece(n.n0 == k, "59") + Piece(n.n1 == k, "12") + Piece(n.n2 == k, "34")
            && CountOf(Front(x), ' ') == n.n2
  {
    TokenInk("", x.lead, "59", k);
    TokenInk("" + x.lead + "59", x.m.s1, "12", k);
    TokenInk("" + x.lead + "59" + x.m.s1 + "12", x.m.s2, "34", k);
  }

  lemma {:induction false} BackInk(x: Spaced, k: int)
    requires x.Fits()
    ensures var n := PlacesOf(x);
            && InkAt(Back(x), k) ==
               InkAt(Front(x), k) + Piece(n.n3 == k, "?") + Piece(n.n4 == k, "*") + Piece(n.n5 == k, "1")
            && CountOf(Back(x), ' ') == n.n5
  {
    FrontInk(x, k);
    TokenInk(Front(x), x.m.s3, "?", k);
    TokenInk(Front(x) + x.m.s3 + "?", x.m.s4, "*", k);
    TokenInk(Front(x) + x.m.s3 + "?" + x.m.s4 + "*", x.m.s5, "1", k);
  }

  lemma {:induction false} ProbeInk(x: Spaced, k: int)
    requires x.Fits()
    ensures InkAt(Probe(x).Text(), k) == Seen(PlacesOf(x), k)
  {
    FrontInk(x, k);
    BackInk(x, k);
    TokenInk(Back(x), x.m.s6, "*", k);
    InkConcat(Back(x) + x.m.s6 + "*", x.trail, k);
    SpacesHaveNoInk(x.trail, k - CountOf(Back(x) + x.m.s6 + "*", ' '));
    ProbeText(x);
  }

  lemma {:induction false} ProbeText(x: Spaced)
    ensures Probe(x).Text() == Back(x) + x.m.s6 + "*" + x.trail
  {
    var m := x.m;
    assert Probe(x).Text() ==
        ("" + x.lead + "59" + m.s1 + "12" + m.s2 + "34" + m.s3 + "?" + m.s4 + "*" + m.s5 + "1" + m.s6 + "*") + x.trail;
  }

  /** Two padded fields that make up 3412. */
  lemma {:induction false} PaddedTime(hour: string, min: string)
    requires LeftPad(hour, 2, '0') + LeftPad(min, 2, '0') == "3412"
    ensures hour == "34" && min == "12"
  {
    PaddedLength(hour);
    PaddedLength(min);
    var s := LeftPad(hour, 2, '0') + LeftPad(min, 2, '0');
    assert LeftPad(hour, 2, '0') == s[..2] == "34" && LeftPad(min, 2, '0') == s[2..] == "12";
  }

  lemma {:induction false} PaddedLength(s: string)
    ensures |LeftPad(s, 2, '0')| == (if |s| < 2 then 2 else |s|)
    ensures |s| < 2 ==> LeftPad(s, 2, '0')[0] == '0'
    ensures |s| >= 2 ==> LeftPad(s, 2, '0') == s
  {
    if s == "" {
      assert LeftPad("", 2, '0') == LeftPad("0" + "", 2, '0') == LeftPad("0" + "0", 2, '0');
    } else if |s| == 1 {
      assert LeftPad(s, 2, '0') == LeftPad("0" + s, 2, '0');
    }
  }

  /** A day field read as day 1 alone begins, apart from white space, with a digit or a sign. */
  lemma {:induction false} DayOneBegins(field: string)
    requires DaysOf(field) == [1] && ',' !in field
    ensures Ink(field) != "" && (IsDigit(Ink(field)[0]) || Ink(field)[0] == '-' || Ink(field)[0] == '+')
  {
    InkOfTrimLeft(field);
    var t := TrimLeft(field);
    TrimLeftBegins(field);
    assert ParseInt(field) == Some(1);
    assert t != "";
  }

  lemma {:induction false} TrimLeftBegins(s: string)
    ensures TrimLeft(s) != "" ==> !IsSpace(TrimLeft(s)[0])
    decreases |s|
  {
    if s != "" && IsSpace(s[0]) {
      TrimLeftBegins(s[1..]);
    }
  }

  lemma {:induction false} InkIn(s: string, c: char)
    requires !IsSpace(c)
    ensures c in s <==> c in Ink(s)
    decreases |s|
  {
    if s != "" {
      assert s == [s[0]] + s[1..];
      InkIn(s[1..], c);
    }
  }

  /** What part k shows decides where the tokens are. */
  lemma {:induction false} MinuteAt(n: Places)
    requires 0 <= n.n0 <= n.n1 <= n.n2 <= n.n3 <= n.n4 <= n.n5 <= n.n6
    requires Seen(n, 1) == "12"
    ensures n.n0 == 0 && n.n1 == 1 && n.n2 > 1
  {
    var s := Seen(n, 1);
    assert s[0] == '1' && s[1] == '2' && |s| == 2;
  }

  lemma {:induction false} HourAt(n: Places)
    requires 0 <= n.n0 <= n.n1 <= n.n2 <= n.n3 <= n.n4 <= n.n5 <= n.n6
    requires n.n1 == 1 && n.n2 > 1 && Seen(n, 2) == "34"
    ensures n.n2 == 2 && n.n3 > 2
  {
    var s := Seen(n, 2);
    assert s[0] == '3' && |s| == 2;
  }

  lemma {:induction false} DaysAt(n: Places)
    requires 0 <= n.n0 <= n.n1 <= n.n2 < n.n3 <= n.n4 <= n.n5 <= n.n6
    requires n.n2 == 2 && Seen(n, 5) != "" && Seen(n, 5)[0] != '?' && Seen(n, 5)[0] != '*'
    ensures n.n5 == 5 && n.n4 < 5
  {
  }

  lemma {:induction false} NoComma(n: Places, k: int)
    ensures ',' !in Seen(n, k) && '-' !in Seen(n, k) && '+' !in Seen(n, k)
  {
    NotSeen(n, k, ',');
    NotSeen(n, k, '-');
    NotSeen(n, k, '+');
  }

  lemma {:induction false} NotSeen(n: Places, k: int, c: char)
    requires c == ',' || c == '-' || c == '+'
    ensures c !in Seen(n, k)
  {
    var front := Piece(n.n0 == k, "59") + Piece(n.n1 == k, "12") + Piece(n.n2 == k, "34");
    assert c !in front;
    var middle := front + Piece(n.n3 == k, "?") + Piece(n.n4 == k, "*");
    assert c !in middle;
    assert Seen(n, k) == middle + Piece(n.n5 == k, "1") + Piece(n.n6 == k, "*");
  }

  lemma {:induction false} ReadProbeIsWellSpaced(x: Spaced)
    requires x.Fits() && Probe(x).Read()
    ensures x.WellSpaced()
  {
    ProbeFields(x);
    TimeIsPlaced(x);
    DaysArePlaced(x);
  }

  lemma {:induction false} TimeIsPlaced(x: Spaced)
    requires x.Fits() && |Split(Probe(x).Text(), ' ')| >= 3
    requires var parts := Split(Probe(x).Text(), ' ');
             LeftPad(Trim(parts[2]), 2, '0') + LeftPad(Trim(parts[1]), 2, '0') == "3412"
    ensures var n := PlacesOf(x); n.n0 == 0 && n.n1 == 1 && n.n2 == 2 && n.n3 > 2
  {
    var parts := Split(Probe(x).Text(), ' ');
    PaddedTime(Trim(parts[2]), Trim(parts[1]));
    SeenInField(x, 1);
    SeenInField(x, 2);
    SolidInk("12", 0);
    SolidInk("34", 0);
    MinuteAt(PlacesOf(x));
    HourAt(PlacesOf(x));
  }

  lemma {:induction false} DaysArePlaced(x: Spaced)
    requires x.Fits() && |Split(Probe(x).Text(), ' ')| >= 6 && DaysOf(Trim(Split(Probe(x).Text(), ' ')[5])) == [1]
    requires var n := PlacesOf(x); n.n2 == 2 && n.n3 > 2
    ensures PlacesOf(x).n5 == 5 && PlacesOf(x).n4 < 5
  {
    var days := Trim(Split(Probe(x).Text(), ' ')[5]);
    SeenInField(x, 5);
    NoComma(PlacesOf(x), 5);
    InkIn(days, ',');
    DayOneBegins(days);
    DaysAt(PlacesOf(x));
  }

  lemma {:induction false} SeenInField(x: Spaced, k: nat)
    requires x.Fits() && k < |Split(Probe(x).Text(), ' ')|
    ensures Ink(Trim(Split(Probe(x).Text(), ' ')[k])) == Seen(PlacesOf(x), k)
  {
    var part := Split(Probe(x).Text(), ' ')[k];
    InkOfTrim(part);
    InkOfPart(Probe(x).Text(), k);
    ProbeInk(x, k);
  }

  /** What it means that the probe is read. */
  lemma {:induction false} ProbeFields(x: Spaced)
    requires Probe(x).Read()
    ensures var parts := Split(Probe(x).Text(), ' ');
            && |parts| >= 6
            && LeftPad(Trim(parts[2]), 2, '0') + LeftPad(Trim(parts[1]), 2, '0') == "3412"
            && DaysOf(Trim(parts[5])) == [1]
  {
    PaddedLength("34");
    PaddedLength("12");
    DayParses(1);
    assert [Digit(1)] == "1";
  }

  /**
   * parseDaily reads every time and day list that has the white space of a recognised expression around it
   * exactly when the expression is well spaced.
   */
  lemma {:induction false} ReadsEveryTimeIff(x: Spaced)
    requires x.Fits()
    ensures (forall y: Spaced :: y.Fits() && y.SameGaps(x) ==> y.Read()) <==> x.WellSpaced()
  {
    if x.WellSpaced() {
      forall y: Spaced | y.Fits() && y.SameGaps(x) ensures y.Read() {
        WellSpacedReads(y);
      }
    } else {
      var y := Probe(x);
      ProbeFits(x);
      if y.Read() {
        ReadProbeIsWellSpaced(x);
      }
    }
  }

  lemma ProbeFits(x: Spaced)
    requires x.Fits()
    ensures Probe(x).Fits() && Probe(x).SameGaps(x)
  {
    assert "1"[1..] == "";
  }

  /** These are the recognised expressions. */
  lemma {:induction false} RecognisedIff(expr: string)
    ensures IsDailyExpression(expr) <==> exists x: Spaced :: x.Fits() && x.Text() == expr
  {
    if IsDailyExpression(expr) {
      var m: Match :| m.Fits() && m.Text() == Trim(expr);
      var lead, trail := TrimmedOff(expr);
      assert Spaced(lead, m, trail).Fits() && Spaced(lead, m, trail).Text() == expr;
    }
    if x: Spaced :| x.Fits() && x.Text() == expr {
      MatchEnds(x.m);
      TrimAround(x.lead, x.m.Text(), x.trail);
    }
  }

  lemma MatchEnds(m: Match)
    requires m.Fits()
    ensures m.Text() != "" && !IsSpace(m.Text()[0]) && !IsSpace(m.Text()[|m.Text()| - 1])
  {
  }

  lemma {:induction false} TrimmedOff(s: string) returns (lead: string, trail: string)
    ensures Spaces(lead) && Spaces(trail) && s == lead + Trim(s) + trail
  {
    lead := LeftOff(s);
    trail := RightOff(TrimLeft(s));
  }

  lemma {:induction false} LeftOff(s: string) returns (lead: string)
    ensures Spaces(lead) && s == lead + TrimLeft(s)
    decreases |s|
  {
    lead := "";
    if s != "" && IsSpace(s[0]) {
      lead := LeftOff(s[1..]);
      assert s == [s[0]] + s[1..] == ([s[0]] + lead) + TrimLeft(s);
      lead := [s[0]] + lead;
    }
  }

  lemma {:induction false} RightOff(s: string) returns (trail: string)
    ensures Spaces(trail) && s == TrimRight(s) + trail
    decreases |s|
  {
    trail := "";
    if s != "" && IsSpace(s[|s| - 1]) {
      var front := s[..|s| - 1];
      trail := RightOff(front);
      assert s == front + [s[|s| - 1]] == TrimRight(s) + (trail + [s[|s| - 1]]);
      trail := trail + [s[|s| - 1]];
    }
  }

  function Tight(min: string, hour: string, days: string): Spaced {
    Spaced("", Match("", min, "", hour, "", "", "", days, ""), "")
  }

  lemma {:induction false} TightText(min: string, hour: string, days: string)
    requires Solid(min) && Solid(hour) && Solid(days)
    ensures ' ' !in Tight(min, hour, days).Text()
  {
    var front := "59" + min + hour + "?*";
    assert ' ' !in "59" + min && ' ' !in "59" + min + hour && ' ' !in front;
    assert Tight(min, hour, days).Text() == front + days + "*";
  }

  /** The pattern allows the spaces to be missing for any time and days, and then parseDaily finds too few parts. */
  lemma {:induction false} RecognisedButNotParsed(min: string, hour: string, days: string)
    requires OneOrTwoDigits(min) && OneOrTwoDigits(hour) && DayList(days)
    ensures IsDailyExpression(Tight(min, hour, days).Text()) && Parsed(Tight(min, hour, days).Text()).None?
  {
    CommaIff(days);
    TightText(min, hour, days);
    SplitOnly(Tight(min, hour, days).Text(), ' ');
    assert Tight(min, hour, days).Fits();
    RecognisedIff(Tight(min, hour, days).Text());
  }

  /**
   * A second space in front of the hour: a recognised expression for any hour and days is read as hour 00 on no day.
   */
  lemma {:induction false} TwoSpacesReadWrong(x: Spaced)
    requires x.Fits() && x.lead == "" && x.m.s1 == x.m.s3 == x.m.s4 == x.m.s5 == " " && x.m.s2 == "  "
    ensures IsDailyExpression(x.Text()) && Parsed(x.Text()) == Some(Daily(Some("00" + LeftPad(x.m.min, 2, '0')), []))
  {
    RecognisedIff(x.Text());
    TwoSpacesText(x);
    TwoSpacesParts(x);
    TrimNothing(x.m.min);
    TrimNothing("*");
    PaddedNothing();
  }

  function LastPart(x: Spaced): string { "*" + " " + (x.m.days + x.m.s6 + "*" + x.trail) }

  function TwoSpaced(x: Spaced): string {
    "59" + " " + (x.m.min + " " + ("" + " " + ((x.m.hour + " " + "?") + " " + LastPart(x))))
  }

  lemma {:induction false} TwoSpacesText(x: Spaced)
    requires x.lead == "" && x.m.s1 == x.m.s3 == x.m.s4 == x.m.s5 == " " && x.m.s2 == "  "
    ensures x.Text() == TwoSpaced(x)
  {
    assert "  " == " " + " ";
  }

  lemma {:induction false} TwoSpacesParts(x: Spaced)
    requires Solid(x.m.hour) && Solid(x.m.min)
    ensures var parts := Split(TwoSpaced(x), ' ');
            |parts| >= 6 && parts[1] == x.m.min && parts[2] == "" && parts[5] == "*"
  {
    InkConcat(x.m.hour + " ", "?", 0);
    InkConcat(x.m.hour, " ", 0);
    SolidInk(x.m.hour, 0);
    SolidInk(x.m.min, 0);
    NoneIn(x.m.min, ' ');
    PartsOf("59", x.m.min, "", x.m.hour + " " + "?", LastPart(x));
    SplitFirst("*", ' ', x.m.days + x.m.s6 + "*" + x.trail);
  }

  lemma PaddedNothing()
    ensures LeftPad("", 2, '0') == "00"
  {
    assert LeftPad("", 2, '0') == LeftPad("0" + "", 2, '0');
    assert LeftPad("0", 2, '0') == LeftPad("0" + "0", 2, '0');
  }
}
