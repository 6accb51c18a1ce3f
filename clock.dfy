/**
 * Times of day and the working-hours string "HH:mm-HH:mm".  A
 * `java.time.LocalTime` at minute precision is a number of minutes since
 * midnight; `plusMinutes` wraps around midnight.
 */
module Clock {
  import opened Wrappers

  const MinutesPerDay: int := 1440

  /** A time of day in minutes since midnight (00:00 .. 23:59). */
  type TimeOfDay = m: int | 0 <= m < 1440

  /** `LocalTime.plusMinutes(d)`: adds `d` minutes and wraps around midnight. */
  function PlusMinutes(t: TimeOfDay, d: int): (r: TimeOfDay)
    ensures 0 <= t + d < MinutesPerDay ==> r == t + d
    ensures MinutesPerDay <= t + d < 2 * MinutesPerDay ==> r == t + d - MinutesPerDay
  {
    (t + d) % MinutesPerDay
  }

  predicate IsDigit(c: char)
  {
    '0' <= c <= '9'
  }

  function DigitValue(c: char): (n: nat)
    requires IsDigit(c)
    ensures n < 10
  {
    (c as int) - ('0' as int)
  }

  function DigitChar(n: nat): (c: char)
    requires n < 10
    ensures IsDigit(c) && DigitValue(c) == n
  {
    ('0' as int + n) as char
  }

  /** The number written by two decimal digits. */
  function TwoDigits(a: char, b: char): (n: nat)
    requires IsDigit(a) && IsDigit(b)
    ensures n < 100
  {
    10 * DigitValue(a) + DigitValue(b)
  }

  /**
   * `LocalTime.parse(s, DateTimeFormatter.ofPattern("HH:mm"))`: exactly two
   * digits of hour (below 24), a colon and two digits of minute (below 60),
   * with nothing before or after; anything else is a parse error (`None`).
   */
  function ParseHHmm(s: string): (r: Option<TimeOfDay>)
    ensures r.Some? ==> |s| == 5 && s[2] == ':'
  {
    if |s| == 5 && s[2] == ':' && IsDigit(s[0]) && IsDigit(s[1]) && IsDigit(s[3]) && IsDigit(s[4])
       && TwoDigits(s[0], s[1]) < 24 && TwoDigits(s[3], s[4]) < 60
    then Some(TwoDigits(s[0], s[1]) * 60 + TwoDigits(s[3], s[4]))
    else None
  }

  /** `time.format(DateTimeFormatter.ofPattern("HH:mm"))`: zero-padded hour and minute. */
  function FormatHHmm(t: TimeOfDay): (s: string)
    ensures |s| == 5 && s[2] == ':'
    ensures IsDigit(s[0]) && IsDigit(s[1]) && IsDigit(s[3]) && IsDigit(s[4])
  {
    var h, m := t / 60, t % 60;
    [DigitChar(h / 10), DigitChar(h % 10), ':', DigitChar(m / 10), DigitChar(m % 10)]
  }

  /** Parsing reads back exactly the time that was formatted. */
  lemma FormatThenParse(t: TimeOfDay)
    ensures ParseHHmm(FormatHHmm(t)) == Some(t)
  {
    var h, m := t / 60, t % 60;
    var s := FormatHHmm(t);
    assert TwoDigits(s[0], s[1]) == h;
    assert TwoDigits(s[3], s[4]) == m;
  }

  /** Whatever parses is written back by formatting exactly as it was read: "HH:mm" is zero-padded both ways. */
  lemma ParseThenFormat(s: string)
    requires ParseHHmm(s).Some?
    ensures FormatHHmm(ParseHHmm(s).value) == s
  {
    var h, m := TwoDigits(s[0], s[1]), TwoDigits(s[3], s[4]);
    var t := ParseHHmm(s).value;
    assert t / 60 == h && t % 60 == m;
    assert h / 10 == DigitValue(s[0]) && h % 10 == DigitValue(s[1]);
    assert m / 10 == DigitValue(s[3]) && m % 10 == DigitValue(s[4]);
    var f := FormatHHmm(t);
    assert f[0] == s[0] && f[1] == s[1] && f[3] == s[3] && f[4] == s[4];
  }

  /** Distinct times format to distinct strings, so string keys built from them match only when the times do. */
  lemma FormatInjective(a: TimeOfDay, b: TimeOfDay)
    ensures FormatHHmm(a) == FormatHHmm(b) <==> a == b
  {
    FormatThenParse(a);
    FormatThenParse(b);
  }

  /** Kotlin's `Char.isWhitespace`, restricted to ASCII. */
  predicate IsWhitespace(c: char)
  {
    c == ' ' || 9 <= c as int <= 13 || 28 <= c as int <= 31
  }

  function TrimStart(s: string): (r: string)
    ensures |r| <= |s| && r == s[|s| - |r|..]
    ensures |r| > 0 ==> !IsWhitespace(r[0])
  {
    if |s| > 0 && IsWhitespace(s[0]) then TrimStart(s[1..]) else s
  }

  function TrimEnd(s: string): (r: string)
    ensures |r| <= |s| && r == s[..|r|]
    ensures |r| > 0 ==> !IsWhitespace(r[|r| - 1])
  {
    if |s| > 0 && IsWhitespace(s[|s| - 1]) then TrimEnd(s[..|s| - 1]) else s
  }

  /** `String.trim()`: drops leading and trailing whitespace. */
  function Trim(s: string): string
  {
    TrimEnd(TrimStart(s))
  }

  /** A string with no whitespace at either end is its own trim. */
  lemma TrimUntouched(s: string)
    requires |s| > 0 ==> !IsWhitespace(s[0]) && !IsWhitespace(s[|s| - 1])
    ensures Trim(s) == s
  {
  }

  /** One space padded on either side of a string with no whitespace at its ends is trimmed away. */
  lemma TrimPadded(s: string)
    requires |s| > 0 && !IsWhitespace(s[0]) && !IsWhitespace(s[|s| - 1])
    ensures Trim(s + " ") == s
    ensures Trim(" " + s) == s
  {
    var p, q := s + " ", " " + s;
    assert p[0] == s[0] && TrimStart(p) == p;
    assert p[..|p| - 1] == s && TrimEnd(p) == TrimEnd(s);
    assert TrimEnd(s) == s;
    assert q[1..] == s && TrimStart(q) == TrimStart(s);
    assert TrimStart(s) == s;
  }

  /**
   * `s.split(sep)` with a one-character delimiter and no limit: every
   * occurrence of `sep` cuts, and empty parts are kept.
   */
  function Split(s: string, sep: char): (parts: seq<string>)
    ensures |parts| >= 1
  {
    if |s| == 0 then [""]
    else
      var rest := Split(s[1..], sep);
      if s[0] == sep then [""] + rest else [[s[0]] + rest[0]] + rest[1..]
  }

  /** A string without the delimiter is one part. */
  lemma {:induction false} SplitNone(s: string, sep: char)
    requires sep !in s
    ensures Split(s, sep) == [s]
  {
    if |s| > 0 {
      SplitNone(s[1..], sep);
      assert [s[0]] + s[1..] == s;
    }
  }

  /** Cutting at the first delimiter: the part before it, then the parts of what follows. */
  lemma {:induction false} SplitFirst(a: string, b: string, sep: char)
    requires sep !in a
    ensures Split(a + [sep] + b, sep) == [a] + Split(b, sep)
  {
    if |a| > 0 {
      assert (a + [sep] + b)[1..] == a[1..] + [sep] + b;
      SplitFirst(a[1..], b, sep);
      assert [a[0]] + a[1..] == a;
    } else {
      assert a + [sep] + b == [sep] + b;
    }
  }

  /** Why a working-hours string was refused. */
  datatype HoursError =
    | MalformedTime(part: string)   // `LocalTime.parse` threw DateTimeParseException
    | MissingEndTime                 // `val (start, end)` on a one-part list threw IndexOutOfBoundsException

  /** A part as handed to `LocalTime.parse`: trimmed or not. */
  function Prepared(part: string, trim: bool): string
  {
    if trim then Trim(part) else part
  }

  /** `parts.map(parse)` where `parse` throws on a bad part: all results, or the first part that failed. */
  function ParseAll<T>(parts: seq<string>, parse: string -> Option<T>): (r: Result<seq<T>, string>)
    ensures r.Success? ==> |r.value| == |parts|
  {
    if |parts| == 0 then Success([])
    else match parse(parts[0])
      case None => Failure(parts[0])
      case Some(t) =>
        match ParseAll(parts[1..], parse)
        case Failure(e) => Failure(e)
        case Success(ts) => Success([t] + ts)
  }

  /**
   * Mapping succeeds if and only if every part parses, and then yields each
   * part's value in order; otherwise it fails on the first part that does
   * not parse.
   */
  lemma {:induction false} ParseAllMeaning<T>(parts: seq<string>, parse: string -> Option<T>)
    ensures ParseAll(parts, parse).Success? <==> forall i :: 0 <= i < |parts| ==> parse(parts[i]).Some?
    ensures ParseAll(parts, parse).Success? ==>
      forall i :: 0 <= i < |parts| ==> parse(parts[i]) == Some(ParseAll(parts, parse).value[i])
    ensures ParseAll(parts, parse).Failure? ==> exists i :: (0 <= i < |parts| &&
      ParseAll(parts, parse).error == parts[i] && parse(parts[i]).None? &&
      (forall j :: 0 <= j < i ==> parse(parts[j]).Some?))
  {
    if |parts| > 0 {
      var tail := parts[1..];
      ParseAllMeaning(tail, parse);
      assert forall i :: 1 <= i < |parts| ==> parts[i] == tail[i - 1];
      if parse(parts[0]).Some? && ParseAll(tail, parse).Failure? {
        var k :| 0 <= k < |tail| && ParseAll(tail, parse).error == tail[k] &&
          parse(tail[k]).None? && forall j :: 0 <= j < k ==> parse(tail[j]).Some?;
        assert parts[k + 1] == tail[k];
        forall j | 0 <= j < k + 1
          ensures parse(parts[j]).Some?
        {
          if j > 0 {
            assert parts[j] == tail[j - 1];
          }
        }
      }
    }
  }

  /** `LocalTime.parse(part, "HH:mm")`, on the part trimmed or not. */
  function PartParser(trim: bool): string -> Option<TimeOfDay>
  {
    (part: string) => ParseHHmm(Prepared(part, trim))
  }

  /** `parts.map { LocalTime.parse(...) }`: all parts parsed, or the first that fails. */
  function ParseParts(parts: seq<string>, trim: bool): (r: Result<seq<TimeOfDay>, HoursError>)
    ensures r.Success? ==> |r.value| == |parts|
  {
    if |parts| == 0 then Success([])
    else match ParseHHmm(Prepared(parts[0], trim))
      case None => Failure(MalformedTime(parts[0]))
      case Some(t) =>
        match ParseParts(parts[1..], trim)
        case Failure(e) => Failure(e)
        case Success(ts) => Success([t] + ts)
  }

  /** Parsing the working-hours parts is mapping `LocalTime.parse` over them. */
  lemma {:induction false} ParsePartsIsParseAll(parts: seq<string>, trim: bool)
    ensures ParseParts(parts, trim) == match ParseAll(parts, PartParser(trim))
      case Failure(part) => Failure(MalformedTime(part))
      case Success(ts) => Success(ts)
  {
    if |parts| > 0 {
      ParsePartsIsParseAll(parts[1..], trim);
      assert PartParser(trim)(parts[0]) == ParseHHmm(Prepared(parts[0], trim));
    }
  }

  /**
   * The working-hours parts parse if and only if every (prepared) part
   * parses, and then give each part's time in order; otherwise the error
   * names the first part that does not parse.
   */
  lemma ParsePartsMeaning(parts: seq<string>, trim: bool)
    ensures ParseParts(parts, trim).Success? <==> forall i :: 0 <= i < |parts| ==> PartParser(trim)(parts[i]).Some?
    ensures ParseParts(parts, trim).Success? ==>
      forall i :: 0 <= i < |parts| ==> PartParser(trim)(parts[i]) == Some(ParseParts(parts, trim).value[i])
    ensures ParseParts(parts, trim).Failure? ==> exists i :: (0 <= i < |parts| &&
      ParseParts(parts, trim).error == MalformedTime(parts[i]) && PartParser(trim)(parts[i]).None? &&
      (forall j :: 0 <= j < i ==> PartParser(trim)(parts[j]).Some?))
  {
    ParsePartsIsParseAll(parts, trim);
    ParseAllMeaning(parts, PartParser(trim));
  }

  /** Two parts that each parse give their two values, in order. */
  lemma ParseAllPair<T>(a: string, b: string, parse: string -> Option<T>, ta: T, tb: T)
    requires parse(a) == Some(ta) && parse(b) == Some(tb)
    ensures ParseAll([a, b], parse) == Success([ta, tb])
  {
    var parts := [a, b];
    assert parse(parts[0]) == Some(ta) && parse(parts[1]) == Some(tb);
    ParseAllMeaning(parts, parse);
    var r := ParseAll(parts, parse);
    assert r.Success? && r.value[0] == ta && r.value[1] == tb;
    assert r.value == [ta, tb];
  }

  /** Two parts that each parse give the two times, in order. */
  lemma ParsePair(a: string, b: string, trim: bool, ta: TimeOfDay, tb: TimeOfDay)
    requires ParseHHmm(Prepared(a, trim)) == Some(ta) && ParseHHmm(Prepared(b, trim)) == Some(tb)
    ensures ParseParts([a, b], trim) == Success([ta, tb])
  {
    ParsePartsIsParseAll([a, b], trim);
    ParseAllPair(a, b, PartParser(trim), ta, tb);
  }

  /**
   * `val (start, end) = workingHours.split("-").map { LocalTime.parse(...) }`:
   * the opening and closing times; `trim` says whether each part is trimmed first.
   */
  function ParseWorkingHours(workingHours: string, trim: bool): (r: Result<(TimeOfDay, TimeOfDay), HoursError>)
  {
    match ParseParts(Split(workingHours, '-'), trim)
    case Failure(e) => Failure(e)
    case Success(ts) => if |ts| < 2 then Failure(MissingEndTime) else Success((ts[0], ts[1]))
  }

  /** Parsing reads back the window that "HH:mm-HH:mm" formatting wrote, trimmed or not. */
  lemma WorkingHoursRoundTrip(open: TimeOfDay, close: TimeOfDay, trim: bool)
    ensures ParseWorkingHours(FormatHHmm(open) + "-" + FormatHHmm(close), trim) == Success((open, close))
  {
    var a, b := FormatHHmm(open), FormatHHmm(close);
    SplitFirst(a, b, '-');
    SplitNone(b, '-');
    assert a + "-" + b == a + ['-'] + b;
    TrimUntouched(a);
    TrimUntouched(b);
    FormatThenParse(open);
    FormatThenParse(close);
    ParsePair(a, b, trim, open, close);
  }
}
