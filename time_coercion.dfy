/** `time(x)`: a string is parsed with `datetime.strptime(x, "%H:%M:%S")`
    and gives its time of day, or None when parsing raises ValueError; a
    datetime gives its time component; any other value comes back as it is. */
module TimeCoercion {
  import opened PyValues

  predicate IsDigit(c: char) {
    '0' <= c <= '9'
  }

  function Digit(c: char): nat
    requires IsDigit(c)
  {
    c as int - '0' as int
  }

  predicate AllDigits(f: string) {
    forall i :: 0 <= i < |f| ==> IsDigit(f[i])
  }

  /** The value of a field of one or two decimal digits. */
  function FieldValue(f: string): nat
    requires 1 <= |f| <= 2 && AllDigits(f)
  {
    if |f| == 1 then Digit(f[0]) else 10 * Digit(f[0]) + Digit(f[1])
  }

  /** A field of one or two ASCII digits whose value is at most `max`. */
  predicate IsField(f: string, max: nat) {
    1 <= |f| <= 2 && AllDigits(f) && FieldValue(f) <= max
  }

  /** The text `h:m:s`. */
  function Hms(h: string, m: string, s: string): string {
    h + ":" + m + ":" + s
  }

  // ---------------------------------------------------------------------
  // The regular expression strptime builds for "%H:%M:%S"
  //   H: 2[0-3] | [0-1]\d | \d     M: [0-5]\d | \d     S: 6[0-1] | [0-5]\d | \d
  // matched from the start of the text, alternatives tried left to right,
  // backtracking into an earlier group when the rest of the pattern fails.
  // ---------------------------------------------------------------------

  /** The text of each group of a successful match (`match.group("H")`, …). */
  datatype Groups = Groups(hour: string, minute: string, second: string)

  /** `g` describes a match of the pattern at the start of `s`: each group is a
      field of one or two digits within the pattern's range, the groups are
      separated by colons, and together they are a prefix of `s`. */
  predicate MatchesAt(s: string, g: Groups) {
    && IsField(g.hour, 23) && IsField(g.minute, 59) && IsField(g.second, 61)
    && Hms(g.hour, g.minute, g.second) <= s
  }

  lemma PrefixJoin(s: string, k: nat, p: string)
    requires k <= |s| && p <= s[k..]
    ensures s[..k] + p <= s
  {
    assert (s[..k] + p) == s[..k + |p|];
  }

  /** The `S` group at the start of `s`. */
  function MatchSecond(s: string): (r: Option<string>)
    ensures r.Some? ==> IsField(r.value, 61) && r.value <= s
  {
    if |s| >= 2 && s[0] == '6' && '0' <= s[1] <= '1' then Some(s[..2])
    else if |s| >= 2 && '0' <= s[0] <= '5' && IsDigit(s[1]) then Some(s[..2])
    else if |s| >= 1 && IsDigit(s[0]) then Some(s[..1])
    else None
  }

  /** `:` and the `S` group at the start of `s`. */
  function MatchColonSecond(s: string): (r: Option<string>)
    ensures r.Some? ==> IsField(r.value, 61) && ":" + r.value <= s
  {
    if |s| >= 1 && s[0] == ':' then
      match MatchSecond(s[1..])
      case Some(sec) =>
        PrefixJoin(s, 1, sec);
        assert s[..1] == ":";
        Some(sec)
      case None => None
    else None
  }

  /** One alternative of the `M` group, `len` characters long, followed by `:`
      and the `S` group. */
  function MinuteThen(s: string, len: nat): (r: Option<(string, string)>)
    requires len <= |s|
    ensures r.Some? ==> r.value.0 == s[..len] && IsField(r.value.1, 61) && r.value.0 + ":" + r.value.1 <= s
  {
    match MatchColonSecond(s[len..])
    case Some(sec) =>
      PrefixJoin(s, len, ":" + sec);
      assert s[..len] + ":" + sec == s[..len] + (":" + sec);
      Some((s[..len], sec))
    case None => None
  }

  /** The `M` group, `:` and the `S` group at the start of `s`, backtracking
      from the two-digit to the one-digit minute. */
  function MatchMinute(s: string): (r: Option<(string, string)>)
    ensures r.Some? ==> IsField(r.value.0, 59) && IsField(r.value.1, 61) && r.value.0 + ":" + r.value.1 <= s
  {
    if |s| >= 2 && '0' <= s[0] <= '5' && IsDigit(s[1]) && MinuteThen(s, 2).Some? then MinuteThen(s, 2)
    else if |s| >= 1 && IsDigit(s[0]) && MinuteThen(s, 1).Some? then MinuteThen(s, 1)
    else None
  }

  /** One alternative of the `H` group, `len` characters long, followed by `:`
      and the rest of the pattern. */
  function HourThen(s: string, len: nat): (r: Option<Groups>)
    requires len <= |s|
    ensures r.Some? ==>
      && r.value.hour == s[..len] && IsField(r.value.minute, 59) && IsField(r.value.second, 61)
      && Hms(r.value.hour, r.value.minute, r.value.second) <= s
  {
    if len < |s| && s[len] == ':' then
      match MatchMinute(s[len + 1..])
      case Some((m, sec)) =>
        PrefixJoin(s, len + 1, m + ":" + sec);
        assert s[..len + 1] == s[..len] + ":";
        assert Hms(s[..len], m, sec) == s[..len + 1] + (m + ":" + sec);
        Some(Groups(s[..len], m, sec))
      case None => None
    else None
  }

  /** The whole pattern at the start of `s` (`re.match`), backtracking through
      the three alternatives of the `H` group. */
  function MatchHms(s: string): (r: Option<Groups>)
    ensures r.Some? ==> MatchesAt(s, r.value)
  {
    if |s| >= 2 && s[0] == '2' && '0' <= s[1] <= '3' && HourThen(s, 2).Some? then HourThen(s, 2)
    else if |s| >= 2 && '0' <= s[0] <= '1' && IsDigit(s[1]) && HourThen(s, 2).Some? then HourThen(s, 2)
    else if |s| >= 1 && IsDigit(s[0]) && HourThen(s, 1).Some? then HourThen(s, 1)
    else None
  }

  /** The time a match spells. */
  function TimeOfGroups(g: Groups): TimeOfDay
    requires IsField(g.hour, 23) && IsField(g.minute, 59) && IsField(g.second, 61)
  {
    TimeOfDay(FieldValue(g.hour), FieldValue(g.minute), FieldValue(g.second), 0)
  }

  /** `datetime.strptime(s, "%H:%M:%S").time()`, or None where it raises
      ValueError: the text does not match, text remains after the match, or
      the second is 60 or 61, which the pattern admits and the datetime
      constructor refuses. */
  function Strptime(s: string): Option<TimeOfDay> {
    match MatchHms(s)
    case None => None
    case Some(g) =>
      if |Hms(g.hour, g.minute, g.second)| != |s| then None
      else if ValidTimeOfDay(TimeOfGroups(g)) then Some(TimeOfGroups(g))
      else None
  }

  // ---------------------------------------------------------------------
  // The grammar strptime accepts
  // ---------------------------------------------------------------------

  /** Hours 0-23, minutes and seconds 0-59, each written with one or two digits. */
  predicate ValidFields(h: string, m: string, s: string) {
    IsField(h, 23) && IsField(m, 59) && IsField(s, 59)
  }

  lemma SecondAccepts(c: string)
    requires IsField(c, 59)
    ensures MatchSecond(c) == Some(c)
  {
    assert c[..|c|] == c;
  }

  lemma MinuteAccepts(m: string, c: string)
    requires IsField(m, 59) && IsField(c, 59)
    ensures MatchMinute(m + ":" + c) == Some((m, c))
  {
    var s := m + ":" + c;
    SecondAccepts(c);
    assert s[|m|..] == ":" + c;
    assert (":" + c)[1..] == c;
    assert s[..|m|] == m;
    if |m| == 2 {
      assert s[0] == m[0] && s[1] == m[1];
    } else {
      assert s[0] == m[0] && s[1] == ':';
    }
  }

  lemma HourThenAccepts(h: string, m: string, sec: string)
    requires ValidFields(h, m, sec)
    ensures |h| <= |Hms(h, m, sec)| && HourThen(Hms(h, m, sec), |h|) == Some(Groups(h, m, sec))
  {
    var s := Hms(h, m, sec);
    var rest := m + ":" + sec;
    assert s == h + ":" + rest;
    MinuteAccepts(m, sec);
    assert s[|h| + 1..] == rest;
    assert s[..|h|] == h;
    assert s[|h|] == ':';
  }

  /** The pattern matches `h:m:s` with fields in range, group for group. */
  lemma MatchHmsAccepts(h: string, m: string, sec: string)
    requires ValidFields(h, m, sec)
    ensures MatchHms(Hms(h, m, sec)) == Some(Groups(h, m, sec))
  {
    var s := Hms(h, m, sec);
    HourThenAccepts(h, m, sec);
    assert s[..|h|] == h;
    assert s[0] == s[..|h|][0];
    if |h| == 1 {
      assert s[1] == ':' by { assert s == h + (":" + (m + ":" + sec)); }
    } else {
      assert s[1] == s[..|h|][1];
      if h[0] == '2' {
        assert '0' <= h[1] <= '3';
      } else {
        assert '0' <= h[0] <= '1';
      }
    }
  }

  /** Every text `h:m:s` with fields in range parses to the time those fields spell. */
  lemma StrptimeAccepts(h: string, m: string, sec: string)
    requires ValidFields(h, m, sec)
    ensures Strptime(Hms(h, m, sec)) == Some(TimeOfDay(FieldValue(h), FieldValue(m), FieldValue(sec), 0))
  {
    MatchHmsAccepts(h, m, sec);
  }

  /** Whatever strptime accepts is a text `h:m:s` with fields in range, and
      it gives the time those fields spell. */
  lemma StrptimeSound(s: string)
    requires Strptime(s).Some?
    ensures exists h, m, sec ::
      && ValidFields(h, m, sec) && s == Hms(h, m, sec)
      && Strptime(s).value == TimeOfDay(FieldValue(h), FieldValue(m), FieldValue(sec), 0)
  {
    var g := MatchHms(s).value;
    assert s == Hms(g.hour, g.minute, g.second);
    assert ValidFields(g.hour, g.minute, g.second);
  }

  // ---------------------------------------------------------------------
  // time(x)
  // ---------------------------------------------------------------------

  /** `time(x)`. Parse failures give None; nothing is raised. */
  function Time(x: Value): (r: Value)
    ensures x.StrVal? ==> r.TimeVal? || r == NoneVal
    ensures x.StrVal? && r.TimeVal? ==> ValidTimeOfDay(r.t) && r.t.microsecond == 0
    ensures x.DateTimeVal? ==> r == TimeVal(TimeOfDay(x.dt.hour, x.dt.minute, x.dt.second, x.dt.microsecond))
    ensures !x.StrVal? && !x.DateTimeVal? ==> r == x
  {
    match x
    case StrVal(s) =>
      (match Strptime(s)
       case Some(t) => TimeVal(t)
       case None => NoneVal)
    case DateTimeVal(d) => TimeVal(TimeOfDay(d.hour, d.minute, d.second, d.microsecond))
    case _ => x
  }

  /** On a string, `time` gives a time of day exactly for the texts `h:m:s`
      with hours 0-23 and minutes and seconds 0-59 written with one or two
      digits, and that time is the one the fields spell; every other string
      gives None. */
  lemma TimeOnStrings(s: string)
    ensures Time(StrVal(s)).TimeVal? <==> exists h, m, sec :: ValidFields(h, m, sec) && s == Hms(h, m, sec)
    ensures forall h, m, sec :: ValidFields(h, m, sec) && s == Hms(h, m, sec) ==>
      Time(StrVal(s)) == TimeVal(TimeOfDay(FieldValue(h), FieldValue(m), FieldValue(sec), 0))
  {
    if Time(StrVal(s)).TimeVal? {
      StrptimeSound(s);
    }
    forall h, m, sec | ValidFields(h, m, sec) && s == Hms(h, m, sec)
      ensures Time(StrVal(s)) == TimeVal(TimeOfDay(FieldValue(h), FieldValue(m), FieldValue(sec), 0))
    {
      StrptimeAccepts(h, m, sec);
    }
  }

  /** A valid datetime gives a valid time of day, with the same clock fields. */
  lemma TimeOfValidDateTime(d: DateTime)
    requires ValidDateTime(d)
    ensures Time(DateTimeVal(d)).TimeVal? && ValidTimeOfDay(Time(DateTimeVal(d)).t)
    ensures Time(DateTimeVal(d)).t == TimeOfDay(d.hour, d.minute, d.second, d.microsecond)
  {
  }

  /** `time` is idempotent: coercing a coerced value changes nothing more
      (a time of day and None are passed through). */
  lemma TimeIdempotent(x: Value)
    ensures Time(Time(x)) == Time(x)
  {
  }

  /** Worked case: a zero-padded time. */
  lemma TimeExamplePadded()
    ensures Time(StrVal("13:45:00")) == TimeVal(TimeOfDay(13, 45, 0, 0))
  {
    assert Hms("13", "45", "00") == "13:45:00";
    StrptimeAccepts("13", "45", "00");
  }

  /** Worked case: one-digit fields, which Python's `%H`, `%M` and `%S` also accept. */
  lemma TimeExampleOneDigit()
    ensures Time(StrVal("9:5:7")) == TimeVal(TimeOfDay(9, 5, 7, 0))
  {
    assert Hms("9", "5", "7") == "9:5:7";
    StrptimeAccepts("9", "5", "7");
  }

  /** Worked case: a missing field. */
  lemma TimeExampleShort()
    ensures Time(StrVal("13:45")) == NoneVal
  {
  }

  /** Worked case: an hour out of range. */
  lemma TimeExampleHour()
    ensures Time(StrVal("25:00:00")) == NoneVal
  {
  }

  /** Worked case: a leap second, which the pattern admits and datetime refuses. */
  lemma TimeExampleLeapSecond()
    ensures Time(StrVal("12:30:60")) == NoneVal
  {
  }

  /** Worked case: text left over after the match. */
  lemma TimeExampleTrailing()
    ensures Time(StrVal("12:30:00 ")) == NoneVal
  {
  }

  /** Worked case: a value that is neither a string nor a datetime. */
  lemma TimeExamplePassThrough()
    ensures Time(IntVal(42)) == IntVal(42)
  {
  }
}
