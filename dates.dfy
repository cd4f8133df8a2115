/** `fix_date`: the date normaliser used on every `Build #` cell at load
    time and on the `--date` filter at query time. It renders a date as
    `MM/DD/YYYY`; it never fails, falling back to a value of its own. */
module Dates {
  import opened Text
  import opened Cells

  /** A month, day and year as `strptime` hands them to `datetime`. */
  datatype CivilDate = CivilDate(month: int, day: int, year: int)

  predicate IsDigit(c: char)
  {
    '0' <= c <= '9'
  }

  function DigitValue(c: char): (n: int)
    requires IsDigit(c)
    ensures 0 <= n <= 9
  {
    c as int - '0' as int
  }

  function DigitChar(n: int): (c: char)
    requires 0 <= n <= 9
    ensures IsDigit(c) && DigitValue(c) == n
  {
    ('0' as int + n) as char
  }

  /** The `%m` group of strptime's pattern, `1[0-2]|0[1-9]|[1-9]`, matched
      against the whole of `s`. */
  function MonthText(s: string): (r: Option<int>)
    ensures r.Some? ==> 1 <= r.value <= 12
  {
    if |s| == 1 && '1' <= s[0] <= '9' then Some(DigitValue(s[0]))
    else if |s| == 2 && s[0] == '1' && '0' <= s[1] <= '2' then Some(10 + DigitValue(s[1]))
    else if |s| == 2 && s[0] == '0' && '1' <= s[1] <= '9' then Some(DigitValue(s[1]))
    else None
  }

  /** The `%d` group, `3[01]|[12]\d|0[1-9]|[1-9]| [1-9]`, against all of `s`. */
  function DayText(s: string): (r: Option<int>)
    ensures r.Some? ==> 1 <= r.value <= 31
  {
    if |s| == 1 && '1' <= s[0] <= '9' then Some(DigitValue(s[0]))
    else if |s| == 2 && s[0] == '3' && '0' <= s[1] <= '1' then Some(30 + DigitValue(s[1]))
    else if |s| == 2 && '1' <= s[0] <= '2' && IsDigit(s[1]) then Some(10 * DigitValue(s[0]) + DigitValue(s[1]))
    else if |s| == 2 && (s[0] == '0' || s[0] == ' ') && '1' <= s[1] <= '9' then Some(DigitValue(s[1]))
    else None
  }

  /** The `%Y` group, `\d\d\d\d`, against all of `s`. */
  function YearText(s: string): (r: Option<int>)
    ensures r.Some? ==> 0 <= r.value <= 9999
  {
    if |s| == 4 && IsDigit(s[0]) && IsDigit(s[1]) && IsDigit(s[2]) && IsDigit(s[3])
    then Some(1000 * DigitValue(s[0]) + 100 * DigitValue(s[1]) + 10 * DigitValue(s[2]) + DigitValue(s[3]))
    else None
  }

  /** The day and year part of the pattern `%d/%Y`, to the end of `t`. Neither
      alternative of a group contains `/`, so the group ends just before the
      next `/` and the regular expression has at most one way to match. */
  function MatchDayYear(month: int, t: string): Option<CivilDate>
  {
    if |t| >= 2 && t[1] == '/' && DayText(t[..1]).Some? && YearText(t[2..]).Some? then
      Some(CivilDate(month, DayText(t[..1]).value, YearText(t[2..]).value))
    else if |t| >= 3 && t[2] == '/' && DayText(t[..2]).Some? && YearText(t[3..]).Some? then
      Some(CivilDate(month, DayText(t[..2]).value, YearText(t[3..]).value))
    else None
  }

  /** The whole string `t` against the pattern `%m/%d/%Y` (strptime refuses
      unconverted trailing text). */
  function MatchDate(t: string): Option<CivilDate>
  {
    if |t| >= 2 && t[1] == '/' && MonthText(t[..1]).Some? then MatchDayYear(MonthText(t[..1]).value, t[2..])
    else if |t| >= 3 && t[2] == '/' && MonthText(t[..2]).Some? then MatchDayYear(MonthText(t[..2]).value, t[3..])
    else None
  }

  /** `datetime.strptime(t, "%m/%d/%Y")`: the pattern must match all of `t`
      and the fields must name a day `datetime` accepts; `None` stands for
      the `ValueError` it raises otherwise. */
  function Strptime(t: string): (r: Option<CivilDate>)
    ensures r.Some? ==> ValidDay(r.value.year, r.value.month, r.value.day)
  {
    match MatchDate(t)
    case Some(d) => if ValidDay(d.year, d.month, d.day) then Some(d) else None
    case None => None
  }

  function Pad2(n: int): (s: string)
    requires 0 <= n <= 99
    ensures |s| == 2 && IsDigit(s[0]) && IsDigit(s[1])
    ensures 10 * DigitValue(s[0]) + DigitValue(s[1]) == n
  {
    [DigitChar(n / 10), DigitChar(n % 10)]
  }

  function Pad4(n: int): (s: string)
    requires 0 <= n <= 9999
    ensures |s| == 4 && YearText(s) == Some(n)
  {
    var q1, r1 := n / 10, n % 10;
    var q2, r2 := q1 / 10, q1 % 10;
    var q3, r3 := q2 / 10, q2 % 10;
    assert n == 1000 * q3 + 100 * r3 + 10 * r2 + r1;
    [DigitChar(q3), DigitChar(r3), DigitChar(r2), DigitChar(r1)]
  }

  /** `strftime("%m/%d/%Y")`: month and day zero-padded to two digits, the
      year to four. */
  function Canonical(d: CivilDate): (s: string)
    requires ValidDay(d.year, d.month, d.day)
    ensures |s| == 10 && s[2] == '/' && s[5] == '/'
  {
    Pad2(d.month) + "/" + Pad2(d.day) + "/" + Pad4(d.year)
  }

  /** `str.replace("-", "/").replace(".", "/")`. */
  function Resep(t: string): (r: string)
    ensures |r| == |t|
    ensures forall i :: 0 <= i < |t| ==> r[i] == (if t[i] == '-' || t[i] == '.' then '/' else t[i])
  {
    seq(|t|, i requires 0 <= i < |t| => if t[i] == '-' || t[i] == '.' then '/' else t[i])
  }

  /** `fix_date(input_date)`. A `datetime` is formatted. Any other value goes
      through `input_date.split()[0].replace(...)`: a non-string, or a string
      with no token, raises there and comes back unchanged. A token that then
      fails `strptime` comes back as the reassigned variable, the token with
      its separators replaced. */
  function FixDate(v: Value): (r: Value)
    ensures v.Date? || v.Str? ==> r.Str?
    ensures !v.Date? && !v.Str? ==> r == v
  {
    match v
    case Date(t) => Str(Canonical(CivilDate(t.month, t.day, t.year)))
    case Str(s) =>
      if !HasToken(s) then v
      else
        var u := Resep(FirstToken(s));
        (match Strptime(u)
         case Some(d) => Str(Canonical(d))
         case None => Str(u))
    case _ => v
  }

  /** A string in the normaliser's output form. */
  predicate IsCanonical(s: string)
  {
    Strptime(s).Some? && Canonical(Strptime(s).value) == s
  }

  lemma {:induction false} MonthOfPad2(n: int)
    requires 1 <= n <= 12
    ensures MonthText(Pad2(n)) == Some(n)
  {
  }

  lemma {:induction false} DayOfPad2(n: int)
    requires 1 <= n <= 31
    ensures DayText(Pad2(n)) == Some(n)
  {
    var s := Pad2(n);
    if n >= 30 {
      assert s[0] == '3';
    } else if n >= 10 {
      assert '1' <= s[0] <= '2';
    } else {
      assert s[0] == '0';
    }
  }

  /** strptime reads back what strftime wrote. */
  lemma {:induction false} CanonicalRoundTrip(d: CivilDate)
    requires ValidDay(d.year, d.month, d.day)
    ensures Strptime(Canonical(d)) == Some(d)
    ensures IsCanonical(Canonical(d))
  {
    var s := Canonical(d);
    var m, dd, y := Pad2(d.month), Pad2(d.day), Pad4(d.year);
    assert s == m + "/" + dd + "/" + y;
    MonthOfPad2(d.month);
    DayOfPad2(d.day);
    assert s[..2] == m;
    assert !(s[1] == '/');
    var t := s[3..];
    assert t == dd + "/" + y;
    assert t[..2] == dd && t[3..] == y;
    assert !(t[1] == '/');
    assert MatchDayYear(d.month, t) == Some(d);
    assert MatchDate(s) == Some(d);
  }

  lemma {:induction false} NoSpaceCanonical(d: CivilDate)
    requires ValidDay(d.year, d.month, d.day)
    ensures NoSpace(Canonical(d))
    ensures forall i :: 0 <= i < |Canonical(d)| ==> Canonical(d)[i] != '-' && Canonical(d)[i] != '.'
  {
    var s := Canonical(d);
    forall i | 0 <= i < |s| ensures IsDigit(s[i]) || s[i] == '/' {
      assert s == Pad2(d.month) + "/" + Pad2(d.day) + "/" + Pad4(d.year);
    }
  }

  /** A word without whitespace, `-` or `.` is its own first token after
      separator replacement, so `fix_date` gives it straight to strptime. */
  lemma {:induction false} PlainWord(u: string)
    requires |u| > 0 && NoSpace(u)
    requires forall i :: 0 <= i < |u| ==> u[i] != '-' && u[i] != '.'
    ensures HasToken(u) && Resep(FirstToken(u)) == u
  {
    FirstTokenOf([], u, []);
    assert [] + u + [] == u;
  }

  /** A `datetime` becomes its zero-padded `MM/DD/YYYY` rendering, which
      strptime reads back as the same day; the time of day is dropped. */
  lemma FixDateOfDateTime(t: DateTime)
    ensures FixDate(Date(t)).Str?
    ensures IsCanonical(FixDate(Date(t)).s)
    ensures Strptime(FixDate(Date(t)).s) == Some(CivilDate(t.month, t.day, t.year))
    ensures forall t': DateTime :: t'.year == t.year && t'.month == t.month && t'.day == t.day ==>
      FixDate(Date(t')) == FixDate(Date(t))
  {
    CanonicalRoundTrip(CivilDate(t.month, t.day, t.year));
  }

  /** The characters a date field of the pattern can be made of. */
  predicate DigitsOnly(s: string)
  {
    forall i :: 0 <= i < |s| ==> IsDigit(s[i])
  }

  lemma {:induction false} FieldDigits(mt: string, dt: string, yt: string)
    requires MonthText(mt).Some? && DayText(dt).Some? && YearText(yt).Some?
    requires dt[0] != ' '
    ensures DigitsOnly(mt) && DigitsOnly(dt) && DigitsOnly(yt)
  {
  }

  /** The token a loose date is made of has no whitespace, and separator
      replacement turns both of its separators into `/`. */
  lemma {:induction false} LooseToken(mt: string, s1: char, dt: string, s2: char, yt: string)
    requires DigitsOnly(mt) && DigitsOnly(dt) && DigitsOnly(yt)
    requires s1 in {'-', '.', '/'} && s2 in {'-', '.', '/'}
    ensures NoSpace(mt + [s1] + dt + [s2] + yt)
    ensures Resep(mt + [s1] + dt + [s2] + yt) == mt + "/" + dt + "/" + yt
  {
    var tok := mt + [s1] + dt + [s2] + yt;
    var want := mt + "/" + dt + "/" + yt;
    var a, b := |mt|, |mt| + 1 + |dt|;
    forall i | 0 <= i < |tok|
      ensures (IsDigit(tok[i]) && tok[i] == want[i]) || (i == a || i == b)
      ensures (i == a || i == b) ==> tok[i] in {'-', '.', '/'} && want[i] == '/'
    {
      if i < a { assert tok[i] == mt[i] && want[i] == mt[i]; }
      else if i == a { }
      else if i < b { assert tok[i] == dt[i - a - 1] && want[i] == dt[i - a - 1]; }
      else if i == b { }
      else { assert tok[i] == yt[i - b - 1] && want[i] == yt[i - b - 1]; }
    }
    assert |Resep(tok)| == |want|;
  }

  /** strptime accepts `mt/dt/yt` when the three fields match their groups
      and name a real day. */
  lemma {:induction false} MatchFields(mt: string, dt: string, yt: string)
    requires MonthText(mt).Some? && DayText(dt).Some? && YearText(yt).Some?
    requires dt[0] != ' '
    ensures MatchDate(mt + "/" + dt + "/" + yt)
         == Some(CivilDate(MonthText(mt).value, DayText(dt).value, YearText(yt).value))
  {
    var u := mt + "/" + dt + "/" + yt;
    var v := dt + "/" + yt;
    var d := CivilDate(MonthText(mt).value, DayText(dt).value, YearText(yt).value);
    if |dt| == 1 {
      assert v[..1] == dt && v[2..] == yt;
    } else {
      assert v[..2] == dt && v[3..] == yt;
    }
    assert MatchDayYear(d.month, v) == Some(d);
    if |mt| == 1 {
      assert u[..1] == mt && u[2..] == v;
    } else {
      assert u[..2] == mt && u[3..] == v;
    }
  }

  /** The normaliser's success case, stated from the outside: leading
      whitespace, a month, a `-`, `.` or `/`, a day, another separator, a
      four-digit year, then nothing or whitespace and anything after it
      (a time of day, say). If that names a real day the result is its
      canonical rendering, whichever separators were used. */
  lemma FixDateLoose(w: string, mt: string, s1: char, dt: string, s2: char, yt: string, rest: string)
    requires AllSpace(w)
    requires MonthText(mt).Some? && DayText(dt).Some? && YearText(yt).Some?
    requires dt[0] != ' '
    requires s1 in {'-', '.', '/'} && s2 in {'-', '.', '/'}
    requires rest == [] || IsSpace(rest[0])
    requires ValidDay(YearText(yt).value, MonthText(mt).value, DayText(dt).value)
    ensures FixDate(Str(w + mt + [s1] + dt + [s2] + yt + rest))
         == Str(Canonical(CivilDate(MonthText(mt).value, DayText(dt).value, YearText(yt).value)))
  {
    var tok := mt + [s1] + dt + [s2] + yt;
    FieldDigits(mt, dt, yt);
    LooseToken(mt, s1, dt, s2, yt);
    assert w + mt + [s1] + dt + [s2] + yt + rest == w + tok + rest;
    FirstTokenOf(w, tok, rest);
    MatchFields(mt, dt, yt);
  }

  lemma CanonicalExample()
    ensures Canonical(CivilDate(2, 24, 2024)) == "02/24/2024"
  {
  }

  /** The example of the `--date` option, `"2/24/2024"`, with a time of
      day after it: the time is cut off and the month padded. (The string is
      a parameter so that the verifier does not evaluate `FixDate` on a
      literal.) */
  lemma FixDateExampleTime(s: string)
    requires s == "2/24/2024 10:00"
    ensures FixDate(Str(s)) == Str("02/24/2024")
  {
    assert MonthText("2") == Some(2) && DayText("24") == Some(24) && YearText("2024") == Some(2024);
    assert s == [] + "2" + ['/'] + "24" + ['/'] + "2024" + " 10:00";
    FixDateLoose([], "2", '/', "24", '/', "2024", " 10:00");
    CanonicalExample();
  }

  /** `-` works as a separator as well as `/`. */
  lemma FixDateExampleDash(s: string)
    requires s == "2-24-2024"
    ensures FixDate(Str(s)) == Str("02/24/2024")
  {
    assert MonthText("2") == Some(2) && DayText("24") == Some(24) && YearText("2024") == Some(2024);
    assert s == [] + "2" + ['-'] + "24" + ['-'] + "2024" + [];
    FixDateLoose([], "2", '-', "24", '-', "2024", []);
    CanonicalExample();
  }

  /** The fallbacks, none of which is an error: a value that is neither a
      string nor a `datetime`, and a string with no token, come back
      unchanged; a string whose token strptime rejects comes back as that
      token with its separators replaced. */
  lemma FixDateFallbacks(v: Value)
    ensures !v.Str? && !v.Date? ==> FixDate(v) == v
    ensures v.Str? && AllSpace(v.s) ==> FixDate(v) == v
    ensures v.Str? && !AllSpace(v.s) ==>
      HasToken(v.s) &&
      (Strptime(Resep(FirstToken(v.s))).None? ==> FixDate(v) == Str(Resep(FirstToken(v.s))))
  {
    if v.Str? {
      HasTokenIff(v.s);
    }
  }

  lemma ResepExample(t: string)
    requires t == "13-01-2024"
    ensures Resep(t) == "13/01/2024"
  {
  }

  lemma NoMonthThirteen(u: string)
    requires u == "13/01/2024"
    ensures Strptime(u).None?
  {
    assert !(u[1] == '/');
    assert MonthText(u[..2]).None?;
  }

  /** The fallback is not the original input: `" 13-01-2024 10:00"` (there
      is no month 13) comes back as `"13/01/2024"`. */
  lemma FallbackExample(s: string)
    requires s == " 13-01-2024 10:00"
    ensures FixDate(Str(s)) == Str("13/01/2024")
  {
    var tok := "13-01-2024";
    assert s == " " + tok + " 10:00";
    FirstTokenOf(" ", tok, " 10:00");
    ResepExample(tok);
    NoMonthThirteen(Resep(tok));
  }

  /** Every result is one of three things: the input itself, the input's
      first token with separators replaced, or a canonical date string. */
  lemma FixDateOutcomes(v: Value)
    ensures FixDate(v) == v
         || (v.Str? && HasToken(v.s) && FixDate(v) == Str(Resep(FirstToken(v.s))))
         || (FixDate(v).Str? && IsCanonical(FixDate(v).s))
  {
    match v
    case Date(t) => FixDateOfDateTime(t);
    case Str(s) =>
      if HasToken(s) {
        var u := Resep(FirstToken(s));
        match Strptime(u)
        case Some(d) => CanonicalRoundTrip(d);
        case None =>
      }
    case _ =>
  }

  /** Normalising twice is normalising once, whether the first pass
      succeeded, fell back to the token, or returned its input. */
  lemma FixDateIdempotent(v: Value)
    ensures FixDate(FixDate(v)) == FixDate(v)
  {
    match v
    case Date(t) =>
      var d := CivilDate(t.month, t.day, t.year);
      CanonicalRoundTrip(d);
      NoSpaceCanonical(d);
      PlainWord(Canonical(d));
    case Str(s) =>
      if HasToken(s) {
        var u := Resep(FirstToken(s));
        match Strptime(u)
        case Some(d) =>
          CanonicalRoundTrip(d);
          NoSpaceCanonical(d);
          PlainWord(Canonical(d));
        case None =>
          var tok := FirstToken(s);
          assert NoSpace(u) by {
            forall i | 0 <= i < |u| ensures !IsSpace(u[i]) {
              assert !IsSpace(tok[i]);
            }
          }
          PlainWord(u);
      }
    case _ =>
  }
}
