/**
 `UTime`: times of day written as text in a 24-hour or a 12-hour form,
 parsed into hour and minute (`HourInfo`), and spans between two such times
 (`HourSpan`) with containment and overlap tests.
 */
module UTime {
  import opened Lang
  import opened UString
  import opened Evaluation

  // ---------------------------------------------------------------------------
  // The accepted forms
  // ---------------------------------------------------------------------------

  predicate IsDigit(c: char)
  {
    '0' <= c <= '9'
  }

  predicate AllDigits(s: string)
  {
    forall i | 0 <= i < |s| :: IsDigit(s[i])
  }

  /** An hour of the 24-hour forms: one digit, `0`/`1` and a digit, or `2` and `0`..`3`. */
  predicate Hour24Token(h: string)
  {
    || (|h| == 1 && IsDigit(h[0]))
    || (|h| == 2 && '0' <= h[0] <= '1' && IsDigit(h[1]))
    || (|h| == 2 && h[0] == '2' && '0' <= h[1] <= '3')
  }

  /** An hour of the 12-hour forms: `1`..`9`, `10`..`12`, or `01`..`09`. */
  predicate Hour12Token(h: string)
  {
    || (|h| == 1 && '1' <= h[0] <= '9')
    || (|h| == 2 && h[0] == '1' && '0' <= h[1] <= '2')
    || (|h| == 2 && h[0] == '0' && '1' <= h[1] <= '9')
  }

  /** A minute: `0`..`5` and a digit. */
  predicate MinuteToken(m: string)
  {
    |m| == 2 && '0' <= m[0] <= '5' && IsDigit(m[1])
  }

  /** A meridiem: `a` or `p`, then `m`, in either case. */
  predicate MeridiemToken(a: string)
  {
    |a| == 2 && a[0] in "aApP" && a[1] in "mM"
  }

  /**
   How a time is laid out: the hour, an optional space on each side of the
   colon, the minute, and for the 12-hour forms an optional space and the
   meridiem (empty for the 24-hour forms).
   */
  datatype Shape = Shape(hour: string, spaceBeforeColon: bool, spaceAfterColon: bool,
                         minute: string, spaceBeforeMeridiem: bool, meridiem: string)

  function Space(b: bool): string
  {
    if b then " " else ""
  }

  /** The text of a shape. */
  function Layout(sh: Shape): string
  {
    sh.hour + (Space(sh.spaceBeforeColon) + (":" + (Space(sh.spaceAfterColon) + (sh.minute
      + (Space(sh.spaceBeforeMeridiem) + sh.meridiem)))))
  }

  /**
   The shapes of `VALID_TIME_24H` (spaces around the colon allowed) and
   `VALID_TIME_24H_NO_SPACES` (none), or of `VALID_TIME_12H` (spaces around
   the colon and before the meridiem allowed) and `VALID_TIME_12H_NO_SPACES`.
   */
  predicate ValidShape(sh: Shape, allowSpaces: bool, twelveHour: bool)
  {
    && MinuteToken(sh.minute)
    && (allowSpaces || (!sh.spaceBeforeColon && !sh.spaceAfterColon && !sh.spaceBeforeMeridiem))
    && (if twelveHour then Hour12Token(sh.hour) && MeridiemToken(sh.meridiem)
        else Hour24Token(sh.hour) && !sh.spaceBeforeMeridiem && sh.meridiem == "")
  }

  /** The number of leading digits. */
  function DigitRun(s: string): (n: nat)
    ensures n <= |s|
    ensures AllDigits(s[..n])
    ensures n < |s| ==> !IsDigit(s[n])
  {
    if |s| > 0 && IsDigit(s[0]) then
      var n := 1 + DigitRun(s[1..]);
      assert forall i | 1 <= i < n :: s[..n][i] == s[1..][..n - 1][i - 1];
      n
    else 0
  }

  /** An optional single space, when spaces are allowed: whether it was there, and what follows. */
  function TakeSpace(r: string, allowSpaces: bool): (t: (bool, string))
    ensures Space(t.0) + t.1 == r
    ensures t.0 ==> allowSpaces
    ensures !t.0 ==> t.1 == r
  {
    if allowSpaces && |r| > 0 && r[0] == ' ' then (true, r[1..]) else (false, r)
  }

  /**
   Matching one of the four patterns, left to right: the hour is the run of
   leading digits (the character after it must be a space or the colon),
   and every optional space is taken when it is present. The shape found is
   a valid one and lays out to the text.
   */
  function Scan(s: string, allowSpaces: bool, twelveHour: bool): (r: Nullable<Shape>)
    ensures r.NonNull? ==> ValidShape(r.value, allowSpaces, twelveHour) && Layout(r.value) == s
  {
    var n := DigitRun(s);
    var hour := s[..n];
    var (sp1, r1) := TakeSpace(s[n..], allowSpaces);
    if |r1| == 0 || r1[0] != ':' then Null
    else
      var (sp2, r2) := TakeSpace(r1[1..], allowSpaces);
      if |r2| < 2 then Null
      else
        var minute := r2[..2];
        var (sp3, meridiem) := if twelveHour then TakeSpace(r2[2..], allowSpaces) else (false, r2[2..]);
        var sh := Shape(hour, sp1, sp2, minute, sp3, meridiem);
        if ValidShape(sh, allowSpaces, twelveHour) then
          LayoutOfPieces(s, n, sp1, r1, sp2, r2, sp3, meridiem);
          NonNull(sh)
        else Null
  }

  /** The pieces `Scan` cuts a text into lay it out again. */
  lemma LayoutOfPieces(s: string, n: nat, sp1: bool, r1: string, sp2: bool, r2: string, sp3: bool, meridiem: string)
    requires n <= |s| && s[n..] == Space(sp1) + r1
    requires |r1| > 0 && r1[0] == ':' && r1[1..] == Space(sp2) + r2
    requires |r2| >= 2 && r2[2..] == Space(sp3) + meridiem
    ensures Layout(Shape(s[..n], sp1, sp2, r2[..2], sp3, meridiem)) == s
  {
    assert r2 == r2[..2] + (Space(sp3) + meridiem);
    assert r1 == ":" + (Space(sp2) + r2);
    assert s == s[..n] + (Space(sp1) + r1);
  }

  /** The leading digit run of a digit string followed by a non-digit is that string. */
  lemma {:induction false} DigitRunOf(d: string, rest: string)
    requires AllDigits(d) && (|rest| == 0 || !IsDigit(rest[0]))
    ensures DigitRun(d + rest) == |d|
    decreases |d|
  {
    if |d| == 0 {
      assert d + rest == rest;
    } else {
      assert (d + rest)[1..] == d[1..] + rest;
      DigitRunOf(d[1..], rest);
    }
  }

  /** Every valid shape is found again in its own layout: the scanner accepts exactly the valid layouts. */
  lemma ScanLayout(sh: Shape, allowSpaces: bool, twelveHour: bool)
    requires ValidShape(sh, allowSpaces, twelveHour)
    ensures Scan(Layout(sh), allowSpaces, twelveHour) == NonNull(sh)
  {
    var s := Layout(sh);
    var r2 := sh.minute + (Space(sh.spaceBeforeMeridiem) + sh.meridiem);
    var r1 := ":" + (Space(sh.spaceAfterColon) + r2);
    var tail := Space(sh.spaceBeforeColon) + r1;
    DigitRunOf(sh.hour, tail);
    assert s[..|sh.hour|] == sh.hour && s[|sh.hour|..] == tail;
    TakeSpaceOf(sh.spaceBeforeColon, r1, allowSpaces);
    assert r1[1..] == Space(sh.spaceAfterColon) + r2;
    TakeSpaceOf(sh.spaceAfterColon, r2, allowSpaces);
    assert r2[..2] == sh.minute && r2[2..] == Space(sh.spaceBeforeMeridiem) + sh.meridiem;
    if twelveHour {
      TakeSpaceOf(sh.spaceBeforeMeridiem, sh.meridiem, allowSpaces);
    }
  }

  /** An optional space is taken exactly when it was laid out. */
  lemma TakeSpaceOf(b: bool, r: string, allowSpaces: bool)
    requires b ==> allowSpaces
    requires |r| > 0 && r[0] != ' '
    ensures TakeSpace(Space(b) + r, allowSpaces) == (b, r)
  {
    if b {
      assert (Space(b) + r)[1..] == r;
    } else {
      assert Space(b) + r == r;
    }
  }

  /** The text matches a pattern exactly when it is the layout of a valid shape. */
  lemma MatchesExactlyLayouts(s: string, allowSpaces: bool, twelveHour: bool)
    ensures Scan(s, allowSpaces, twelveHour).NonNull? <==>
              exists sh :: ValidShape(sh, allowSpaces, twelveHour) && Layout(sh) == s
  {
    if exists sh :: ValidShape(sh, allowSpaces, twelveHour) && Layout(sh) == s {
      var sh :| ValidShape(sh, allowSpaces, twelveHour) && Layout(sh) == s;
      ScanLayout(sh, allowSpaces, twelveHour);
    }
  }

  // ---------------------------------------------------------------------------
  // Numbers: Integer.parseInt and StringBuilder.append(int)
  // ---------------------------------------------------------------------------

  /** The value of a decimal digit (and 0 for any other character, which no caller passes). */
  function DigitValue(c: char): nat
  {
    if IsDigit(c) then c as int - '0' as int else 0
  }

  function Pow10(n: nat): nat
  {
    if n == 0 then 1 else 10 * Pow10(n - 1)
  }

  /** The value of a string of decimal digits. */
  function Number(d: string): (v: nat)
    ensures v < Pow10(|d|)
  {
    if |d| == 0 then 0 else 10 * Number(d[..|d| - 1]) + DigitValue(d[|d| - 1])
  }

  /**
   `Integer.parseInt`: an optional sign and at least one decimal digit, with
   a value that fits an `int`; anything else is a number-format failure.
   */
  function ParseInt(s: string): (r: Result<int, Exception>)
    ensures r.Failure? ==> r.error == NumberFormat(s)
    ensures r.Success? ==> IsInt32(r.value)
    ensures |s| > 0 && AllDigits(s) && Number(s) < 0x8000_0000 ==> r == Success(Number(s))
    ensures |s| > 0 && !IsDigit(s[0]) && s[0] != '-' && s[0] != '+' ==> r.Failure?
  {
    if |s| == 0 then Failure(NumberFormat(s))
    else
      var digits := if s[0] == '-' || s[0] == '+' then s[1..] else s;
      if |digits| == 0 || !AllDigits(digits) then Failure(NumberFormat(s))
      else
        var n: int := Number(digits);
        var v := if s[0] == '-' then -n else n;
        if IsInt32(v) then Success(v) else Failure(NumberFormat(s))
  }

  function Digit(n: nat): (c: char)
    requires n < 10
    ensures IsDigit(c) && DigitValue(c) == n
  {
    ('0' as int + n) as char
  }

  /** `StringBuilder.append(int)` of a non-negative value: its decimal digits, no leading zero. */
  function Decimal(n: nat): (r: string)
    ensures |r| > 0 && AllDigits(r) && Number(r) == n
    ensures n < 10 ==> r == [Digit(n)]
    ensures 10 <= n < 100 ==> r == [Digit(n / 10), Digit(n % 10)]
  {
    if n < 10 then [Digit(n)]
    else
      var r := Decimal(n / 10) + [Digit(n % 10)];
      assert r[..|r| - 1] == Decimal(n / 10);
      r
  }

  /** Reading back what was written: `parseInt(String.valueOf(n)) == n` for every non-negative `int`. */
  lemma ParseIntDecimal(n: nat)
    requires n < 0x8000_0000
    ensures ParseInt(Decimal(n)) == Success(n)
  {
  }

  // ---------------------------------------------------------------------------
  // HourInfo
  // ---------------------------------------------------------------------------

  /** A parsed time of day: the trimmed text, the hour (0..23) and the minute. */
  datatype HourInfo = HourInfo(trimmedTime: string, hour24: int, minute: int)

  /** Hour and minute are those of a time of day. */
  predicate ValidInfo(h: HourInfo)
  {
    0 <= h.hour24 < 24 && 0 <= h.minute < 60
  }

  /** `List.get`. */
  function At(l: seq<string>, i: nat): (r: Result<string, Exception>)
    ensures i < |l| ==> r == Success(l[i])
    ensures i >= |l| <==> r == Failure(IndexOutOfBounds(i))
  {
    if i < |l| then Success(l[i]) else Failure(IndexOutOfBounds(i))
  }

  /** `String.substring(b, e)`, whose failure reports the end index. */
  function Substring(s: string, b: nat, e: nat): (r: Result<string, Exception>)
    ensures b <= e <= |s| ==> r == Success(s[b..e])
    ensures !(b <= e <= |s|) <==> r == Failure(IndexOutOfBounds(e))
  {
    if b <= e <= |s| then Success(s[b..e]) else Failure(IndexOutOfBounds(e))
  }

  /** `String.toLowerCase` on ASCII letters. */
  function ToLower(s: string): (r: string)
    ensures |r| == |s|
    ensures forall i | 0 <= i < |s| :: r[i] == (if 'A' <= s[i] <= 'Z' then (s[i] as int + 32) as char else s[i])
  {
    seq(|s|, i requires 0 <= i < |s| => if 'A' <= s[i] <= 'Z' then (s[i] as int + 32) as char else s[i])
  }

  /**
   The 12-hour conversion of the parser: `12` in the morning is hour 0, an
   hour before 12 in the afternoon moves on twelve hours.
   */
  function To24(hour: int, am: bool): (h: int)
    ensures 1 <= hour <= 12 ==> h == (if am then hour % 12 else hour % 12 + 12)
    ensures 1 <= hour <= 12 ==> 0 <= h < 24
  {
    var h := if hour == 12 && am then 0 else hour;
    if h < 12 && !am then (h + 12) % 24 else h
  }

  /** Where the parser reads the meridiem of a 12-hour time from the text after the colon. */
  datatype MeridiemRule =
    | FixedColumns // characters 2 and 3, as written
    | LastTwo      // the last two characters, as intended

  /** The meridiem token under a rule. */
  function AmToken(minuteToken: string, rule: MeridiemRule): Result<string, Exception>
  {
    match rule
    case FixedColumns => Substring(minuteToken, 2, 4)
    case LastTwo => if |minuteToken| < 2 then Failure(IndexOutOfBounds(|minuteToken|))
                    else Substring(minuteToken, |minuteToken| - 2, |minuteToken|)
  }

  /** The minute and the meridiem of a 12-hour time, from the tokens around the colon. */
  function TwelveHourParts(tokens: seq<string>, minuteToken: string, rule: MeridiemRule): Result<(int, string), Exception>
  {
    if |tokens| == 2 then
      match Substring(minuteToken, 0, 2)
      case Failure(e) => Failure(e)
      case Success(m) =>
        match ParseInt(m)
        case Failure(e) => Failure(e)
        case Success(minute) =>
          match AmToken(minuteToken, rule)
          case Failure(e) => Failure(e)
          case Success(a) => Success((minute, a))
    else
      match ParseInt(minuteToken)
      case Failure(e) => Failure(e)
      case Success(minute) =>
        match At(tokens, 2)
        case Failure(e) => Failure(e)
        case Success(a) => Success((minute, a))
  }

  function InvalidTimeMessage(trimmed: string): string
  {
    "Invalid time: '" + trimmed + "'"
  }

  const NoTimeProvided := "No time provided!"

  /**
   `new HourInfo(time, allowSpaces)` with the meridiem read under `rule`:
   null is refused; the trimmed text must match the 24-hour or the 12-hour
   pattern; it is broken at the colon into trimmed non-empty tokens, the
   hour and minute are parsed from them, and a 12-hour time is converted
   by its meridiem.
   */
  function ParseHourInfoWith(time: Nullable<string>, allowSpaces: bool, rule: MeridiemRule): (r: Result<HourInfo, Exception>)
    ensures time.Null? ==> r == Failure(IllegalArgument(NoTimeProvided))
    ensures time.NonNull? ==> r == ParseTrimmed(Trim(time.value), allowSpaces, rule)
  {
    if time.Null? then Failure(IllegalArgument(NoTimeProvided))
    else ParseTrimmed(Trim(time.value), allowSpaces, rule)
  }

  /** The parser after trimming: the pattern test, then the token stage. */
  function ParseTrimmed(trimmed: string, allowSpaces: bool, rule: MeridiemRule): (r: Result<HourInfo, Exception>)
    ensures Scan(trimmed, allowSpaces, false).Null? && Scan(trimmed, allowSpaces, true).Null? ==>
              r == Failure(IllegalState(InvalidTimeMessage(trimmed)))
    ensures r.Success? ==> r.value.trimmedTime == trimmed
  {
    var format24h := Scan(trimmed, allowSpaces, false).NonNull?;
    if !format24h && Scan(trimmed, allowSpaces, true).Null? then Failure(IllegalState(InvalidTimeMessage(trimmed)))
    else
      ReadTokens(trimmed, format24h, BreakAndTrimNonEmptyLines(NonNull(trimmed), ":"), rule)
  }

  /**
   The second half of the parser: the hour from the first token, the minute
   from the second (and the meridiem from the second or a third token).
   */
  function ReadTokens(trimmed: string, format24h: bool, tokens: seq<string>, rule: MeridiemRule): (r: Result<HourInfo, Exception>)
    ensures r.Success? ==> r.value.trimmedTime == trimmed
  {
    match At(tokens, 0)
    case Failure(e) => Failure(e)
    case Success(hourToken) =>
      match ParseInt(hourToken)
      case Failure(e) => Failure(e)
      case Success(hour) =>
        match At(tokens, 1)
        case Failure(e) => Failure(e)
        case Success(minuteToken) =>
          if format24h then
            match ParseInt(minuteToken)
            case Failure(e) => Failure(e)
            case Success(minute) => Success(HourInfo(trimmed, hour, minute))
          else
            match TwelveHourParts(tokens, minuteToken, rule)
            case Failure(e) => Failure(e)
            case Success((minute, amToken)) =>
              Success(HourInfo(trimmed, To24(hour, ToLower(amToken) == "am"), minute))
  }

  /** `new HourInfo(time, allowSpaces)` as written. */
  function ParseHourInfoAsWritten(time: Nullable<string>, allowSpaces: bool): Result<HourInfo, Exception>
  {
    ParseHourInfoWith(time, allowSpaces, FixedColumns)
  }

  /** `new HourInfo(time, allowSpaces)` with the meridiem read from the end, as intended. */
  function ParseHourInfo(time: Nullable<string>, allowSpaces: bool): Result<HourInfo, Exception>
  {
    ParseHourInfoWith(time, allowSpaces, LastTwo)
  }

  // ---------------------------------------------------------------------------
  // What the parser makes of a matching text
  // ---------------------------------------------------------------------------

  /** Trimming removes exactly a blank frame around a core that neither starts nor ends blank. */
  lemma TrimFrame(pre: string, core: string, post: string)
    requires forall i | 0 <= i < |pre| :: IsBlank(pre[i])
    requires forall i | 0 <= i < |post| :: IsBlank(post[i])
    requires |core| > 0 && !IsBlank(core[0]) && !IsBlank(core[|core| - 1])
    ensures Trim(pre + core + post) == core
  {
    var s := pre + core + post;
    assert forall i | 0 <= i < |pre| :: IsBlank(s[i]);
    assert !IsBlank(s[|pre|]);
    assert Lead(s) == |pre|;
    var r := Trim(s);
    assert !IsBlank(s[|pre| + |core| - 1]);
    assert forall i | |pre| + |core| <= i < |s| :: IsBlank(s[i]);
    assert |r| == |core|;
    assert s[|pre|..|pre| + |core|] == core;
  }

  /** Trimmed non-empty pieces are all kept. */
  lemma TrimPiecesPair(a: string, b: string)
    requires Trim(a) != "" && Trim(b) != ""
    ensures TrimPieces([a, b], false) == [Trim(a), Trim(b)]
  {
    assert [a, b][1..] == [b];
    assert [b][1..] == [];
  }

  /** What follows the colon once trimmed: the minute, and for 12-hour times the meridiem. */
  function MinuteRest(sh: Shape): string
  {
    sh.minute + (Space(sh.spaceBeforeMeridiem) + sh.meridiem)
  }

  /** A layout is the text before the colon, the colon, and the text after it. */
  lemma LayoutAroundColon(sh: Shape)
    ensures Layout(sh) == (sh.hour + Space(sh.spaceBeforeColon)) + ":" + (Space(sh.spaceAfterColon) + MinuteRest(sh))
  {
  }

  /** The tokens of a valid shape: digits for hour and minute, and letters ending a meridiem. */
  lemma ShapeTokens(sh: Shape, allowSpaces: bool, twelveHour: bool)
    requires ValidShape(sh, allowSpaces, twelveHour)
    ensures 1 <= |sh.hour| <= 2 && AllDigits(sh.hour) && |sh.minute| == 2 && AllDigits(sh.minute)
    ensures twelveHour ==> |sh.meridiem| == 2 && sh.meridiem[1] in "mM" && sh.meridiem[0] in "aApP"
    ensures !twelveHour ==> sh.meridiem == "" && !sh.spaceBeforeMeridiem
  {
  }

  /** Neither side of the colon of a valid layout holds another colon. */
  lemma LayoutSidesLackColon(sh: Shape, allowSpaces: bool, twelveHour: bool)
    requires ValidShape(sh, allowSpaces, twelveHour)
    ensures Lacks(sh.hour + Space(sh.spaceBeforeColon), ':')
    ensures Lacks(Space(sh.spaceAfterColon) + MinuteRest(sh), ':')
  {
    ShapeTokens(sh, allowSpaces, twelveHour);
    assert Lacks(sh.hour, ':') && Lacks(sh.minute, ':') && Lacks(sh.meridiem, ':');
    LacksConcat(sh.hour, Space(sh.spaceBeforeColon), ':');
    LacksConcat(Space(sh.spaceBeforeMeridiem), sh.meridiem, ':');
    LacksConcat(sh.minute, Space(sh.spaceBeforeMeridiem) + sh.meridiem, ':');
    LacksConcat(Space(sh.spaceAfterColon), MinuteRest(sh), ':');
  }

  /** The hour side of a valid layout trims to the hour. */
  lemma HourSideTrim(sh: Shape, allowSpaces: bool, twelveHour: bool)
    requires ValidShape(sh, allowSpaces, twelveHour)
    ensures Trim(sh.hour + Space(sh.spaceBeforeColon)) == sh.hour
  {
    ShapeTokens(sh, allowSpaces, twelveHour);
    assert !IsBlank(sh.hour[0]) && !IsBlank(sh.hour[|sh.hour| - 1]);
    TrimFrame("", sh.hour, Space(sh.spaceBeforeColon));
    assert "" + sh.hour + Space(sh.spaceBeforeColon) == sh.hour + Space(sh.spaceBeforeColon);
  }

  /** The rest of a valid layout starts with a digit and ends with a digit or a letter. */
  lemma MinuteRestEnds(sh: Shape, allowSpaces: bool, twelveHour: bool)
    requires ValidShape(sh, allowSpaces, twelveHour)
    ensures var rest := MinuteRest(sh);
            |rest| >= 2 && !IsBlank(rest[0]) && !IsBlank(rest[|rest| - 1])
  {
    ShapeTokens(sh, allowSpaces, twelveHour);
    var rest := MinuteRest(sh);
    assert rest[0] == sh.minute[0];
    if twelveHour {
      assert rest[|rest| - 1] == sh.meridiem[1];
    } else {
      assert rest == sh.minute;
    }
  }

  /** The minute side of a valid layout trims to the rest after the colon. */
  lemma MinuteSideTrim(sh: Shape, allowSpaces: bool, twelveHour: bool)
    requires ValidShape(sh, allowSpaces, twelveHour)
    ensures Trim(Space(sh.spaceAfterColon) + MinuteRest(sh)) == MinuteRest(sh)
  {
    MinuteRestEnds(sh, allowSpaces, twelveHour);
    TrimFrame(Space(sh.spaceAfterColon), MinuteRest(sh), "");
    assert Space(sh.spaceAfterColon) + MinuteRest(sh) + "" == Space(sh.spaceAfterColon) + MinuteRest(sh);
  }

  /** A valid layout breaks at its colon into the hour and the trimmed rest. */
  lemma TokensOfLayout(sh: Shape, allowSpaces: bool, twelveHour: bool)
    requires ValidShape(sh, allowSpaces, twelveHour)
    ensures BreakAndTrimNonEmptyLines(NonNull(Layout(sh)), ":") == [sh.hour, MinuteRest(sh)]
  {
    var a := sh.hour + Space(sh.spaceBeforeColon);
    var b := Space(sh.spaceAfterColon) + MinuteRest(sh);
    LayoutAroundColon(sh);
    LayoutSidesLackColon(sh, allowSpaces, twelveHour);
    SplitAtOnly(a, b, ':');
    assert Split(Layout(sh), ":") == [a, b];
    HourSideTrim(sh, allowSpaces, twelveHour);
    MinuteSideTrim(sh, allowSpaces, twelveHour);
    TrimPiecesPair(a, b);
    BreakNonEmptyPieces(Layout(sh), ":");
  }

  /** Hour and minute tokens of a valid shape parse to their values, which are in range. */
  lemma TokenValues(sh: Shape, allowSpaces: bool, twelveHour: bool)
    requires ValidShape(sh, allowSpaces, twelveHour)
    ensures ParseInt(sh.hour) == Success(Number(sh.hour)) && ParseInt(sh.minute) == Success(Number(sh.minute))
    ensures Number(sh.minute) < 60
    ensures twelveHour ==> 1 <= Number(sh.hour) <= 12
    ensures !twelveHour ==> Number(sh.hour) < 24
  {
    ShapeTokens(sh, allowSpaces, twelveHour);
    assert sh.minute[..1][0] == sh.minute[0];
    assert Number(sh.minute) == 10 * DigitValue(sh.minute[0]) + DigitValue(sh.minute[1]);
    if |sh.hour| == 2 {
      assert sh.hour[..1][0] == sh.hour[0];
      assert Number(sh.hour) == 10 * DigitValue(sh.hour[0]) + DigitValue(sh.hour[1]);
    }
  }

  /** The last character of a layout. */
  lemma LayoutLast(sh: Shape)
    requires |sh.minute| == 2
    ensures |Layout(sh)| > 0
    ensures Layout(sh)[|Layout(sh)| - 1] ==
              if |sh.meridiem| > 0 then sh.meridiem[|sh.meridiem| - 1]
              else if sh.spaceBeforeMeridiem then ' ' else sh.minute[1]
  {
  }

  /** A text either pattern accepts ends with a digit (24-hour) or with `m` (12-hour). */
  lemma ScanLast(s: string, allowSpaces: bool, twelveHour: bool)
    ensures Scan(s, allowSpaces, twelveHour).NonNull? ==>
              |s| > 0 && (if twelveHour then s[|s| - 1] in "mM" else IsDigit(s[|s| - 1]))
  {
    var r := Scan(s, allowSpaces, twelveHour);
    if r.NonNull? {
      LayoutLast(r.value);
    }
  }

  /** No text has both forms: a 24-hour time ends with a digit, a 12-hour one with `m`. */
  lemma FormsDisjoint(s: string, allowSpaces: bool)
    ensures Scan(s, allowSpaces, true).NonNull? ==> Scan(s, allowSpaces, false).Null?
  {
    ScanLast(s, allowSpaces, true);
    ScanLast(s, allowSpaces, false);
  }

  /** Whether a meridiem says morning. */
  predicate IsMorning(sh: Shape)
  {
    |sh.meridiem| > 0 && sh.meridiem[0] in "aA"
  }

  /** Lower-casing a meridiem gives "am" exactly for a morning one. */
  lemma LowerMeridiem(mer: string)
    requires MeridiemToken(mer)
    ensures ToLower(mer) == "am" <==> mer[0] in "aA"
  {
    var l := ToLower(mer);
    assert l[1] == 'm';
    if mer[0] in "aA" {
      assert l[0] == 'a';
      assert l == "am";
    }
  }

  /** A matching text goes on to the token stage with the tokens it breaks into. */
  lemma ParseMatching(t: string, allowSpaces: bool, rule: MeridiemRule, sh: Shape, twelveHour: bool)
    requires Scan(t, allowSpaces, twelveHour) == NonNull(sh)
    ensures ParseTrimmed(t, allowSpaces, rule) == ReadTokens(t, !twelveHour, [sh.hour, MinuteRest(sh)], rule)
  {
    FormsDisjoint(t, allowSpaces);
    assert Scan(t, allowSpaces, false).NonNull? == !twelveHour;
    TokensOfLayout(sh, allowSpaces, twelveHour);
  }

  /** The token stage of a 24-hour time. */
  lemma ReadTwentyFourHour(trimmed: string, hourToken: string, minuteToken: string, rule: MeridiemRule)
    requires ParseInt(hourToken).Success? && ParseInt(minuteToken).Success?
    ensures ReadTokens(trimmed, true, [hourToken, minuteToken], rule)
              == Success(HourInfo(trimmed, ParseInt(hourToken).value, ParseInt(minuteToken).value))
  {
  }

  /** The token stage of a valid 24-hour shape reads its hour and minute. */
  lemma ReadShape24(trimmed: string, sh: Shape, allowSpaces: bool, rule: MeridiemRule)
    requires ValidShape(sh, allowSpaces, false)
    ensures ReadTokens(trimmed, true, [sh.hour, MinuteRest(sh)], rule)
              == Success(HourInfo(trimmed, Number(sh.hour), Number(sh.minute)))
    ensures ValidInfo(HourInfo(trimmed, Number(sh.hour), Number(sh.minute)))
  {
    ShapeTokens(sh, allowSpaces, false);
    assert MinuteRest(sh) == sh.minute;
    TokenValues(sh, allowSpaces, false);
    ReadTwentyFourHour(trimmed, sh.hour, sh.minute, rule);
  }

  /** Every 24-hour text is read as its hour and minute, by either rule. */
  lemma ParseTwentyFourHour(time: string, allowSpaces: bool, rule: MeridiemRule, sh: Shape)
    requires ValidShape(sh, allowSpaces, false) && Trim(time) == Layout(sh)
    ensures ParseHourInfoWith(NonNull(time), allowSpaces, rule)
              == Success(HourInfo(Trim(time), Number(sh.hour), Number(sh.minute)))
    ensures ValidInfo(HourInfo(Trim(time), Number(sh.hour), Number(sh.minute)))
  {
    var t := Trim(time);
    ScanLayout(sh, allowSpaces, false);
    ParseMatching(t, allowSpaces, rule, sh, false);
    ReadShape24(t, sh, allowSpaces, rule);
  }

  /** The text after the colon of a 12-hour time: the minute in front, the meridiem at the end. */
  lemma MinuteRestPieces(sh: Shape, allowSpaces: bool)
    requires ValidShape(sh, allowSpaces, true)
    ensures var mt := MinuteRest(sh);
            && |mt| >= 4
            && mt[0..2] == sh.minute
            && mt[2..4] == (if sh.spaceBeforeMeridiem then [' ', sh.meridiem[0]] else sh.meridiem)
            && mt[|mt| - 2..] == sh.meridiem
  {
    ShapeTokens(sh, allowSpaces, true);
  }

  /** The meridiem token a rule reads from the text after the colon of a 12-hour time. */
  function MeridiemRead(mt: string, rule: MeridiemRule): string
    requires |mt| >= 4
  {
    if rule == FixedColumns then mt[2..4] else mt[|mt| - 2..]
  }

  /** The token stage of a 12-hour time whose hour and meridiem share the token after the colon. */
  lemma ReadTwelveHour(trimmed: string, hourToken: string, mt: string, rule: MeridiemRule)
    requires |mt| >= 4 && ParseInt(hourToken).Success? && ParseInt(mt[0..2]).Success?
    ensures ReadTokens(trimmed, false, [hourToken, mt], rule)
              == Success(HourInfo(trimmed, To24(ParseInt(hourToken).value, ToLower(MeridiemRead(mt, rule)) == "am"),
                                  ParseInt(mt[0..2]).value))
  {
    assert mt[|mt| - 2..|mt|] == mt[|mt| - 2..];
    assert AmToken(mt, rule) == Success(MeridiemRead(mt, rule));
    assert TwelveHourParts([hourToken, mt], mt, rule) == Success((ParseInt(mt[0..2]).value, MeridiemRead(mt, rule)));
  }

  /** Whether a rule reads a valid 12-hour shape as morning. */
  predicate ReadsMorning(sh: Shape, rule: MeridiemRule)
  {
    if rule == LastTwo then IsMorning(sh) else IsMorning(sh) && !sh.spaceBeforeMeridiem
  }

  /**
   The token stage of a valid 12-hour shape: the intended rule reads the
   meridiem, the as-written rule reads it only when no space precedes it.
   */
  lemma ReadShape12(trimmed: string, sh: Shape, allowSpaces: bool, rule: MeridiemRule)
    requires ValidShape(sh, allowSpaces, true)
    ensures ReadTokens(trimmed, false, [sh.hour, MinuteRest(sh)], rule)
              == Success(HourInfo(trimmed, To24(Number(sh.hour), ReadsMorning(sh, rule)), Number(sh.minute)))
    ensures ValidInfo(HourInfo(trimmed, To24(Number(sh.hour), ReadsMorning(sh, rule)), Number(sh.minute)))
  {
    TokenValues(sh, allowSpaces, true);
    MinuteRestPieces(sh, allowSpaces);
    ReadTwelveHour(trimmed, sh.hour, MinuteRest(sh), rule);
    LowerMeridiem(sh.meridiem);
    var m := MeridiemRead(MinuteRest(sh), rule);
    if rule == LastTwo {
      assert m == sh.meridiem;
    } else if sh.spaceBeforeMeridiem {
      assert ToLower(m)[0] == ' ';
    } else {
      assert m == sh.meridiem;
    }
    assert (ToLower(m) == "am") == ReadsMorning(sh, rule);
  }

  /** Every 12-hour text is read under a rule as its hour, converted by what the rule reads, and its minute. */
  lemma ParseTwelveHourWith(time: string, allowSpaces: bool, rule: MeridiemRule, sh: Shape)
    requires ValidShape(sh, allowSpaces, true) && Trim(time) == Layout(sh)
    ensures ParseHourInfoWith(NonNull(time), allowSpaces, rule)
              == Success(HourInfo(Trim(time), To24(Number(sh.hour), ReadsMorning(sh, rule)), Number(sh.minute)))
    ensures ValidInfo(HourInfo(Trim(time), To24(Number(sh.hour), ReadsMorning(sh, rule)), Number(sh.minute)))
  {
    var t := Trim(time);
    ScanLayout(sh, allowSpaces, true);
    ParseMatching(t, allowSpaces, rule, sh, true);
    ReadShape12(t, sh, allowSpaces, rule);
  }

  /** The corrected parser reads every 12-hour text by its meridiem. */
  lemma ParseTwelveHour(time: string, allowSpaces: bool, sh: Shape)
    requires ValidShape(sh, allowSpaces, true) && Trim(time) == Layout(sh)
    ensures ParseHourInfo(NonNull(time), allowSpaces)
              == Success(HourInfo(Trim(time), To24(Number(sh.hour), IsMorning(sh)), Number(sh.minute)))
  {
    ParseTwelveHourWith(time, allowSpaces, LastTwo, sh);
  }

  /**
   The parser as written reads a 12-hour text by its meridiem only when no
   space precedes the meridiem; with a space it always reads the afternoon.
   */
  lemma ParseTwelveHourAsWritten(time: string, allowSpaces: bool, sh: Shape)
    requires ValidShape(sh, allowSpaces, true) && Trim(time) == Layout(sh)
    ensures ParseHourInfoAsWritten(NonNull(time), allowSpaces)
              == Success(HourInfo(Trim(time), To24(Number(sh.hour), IsMorning(sh) && !sh.spaceBeforeMeridiem),
                                  Number(sh.minute)))
  {
    ParseTwelveHourWith(time, allowSpaces, FixedColumns, sh);
  }

  /** Whatever either parser accepts is a time of day. */
  lemma ParsedIsValid(time: Nullable<string>, allowSpaces: bool, rule: MeridiemRule)
    ensures ParseHourInfoWith(time, allowSpaces, rule).Success? ==> ValidInfo(ParseHourInfoWith(time, allowSpaces, rule).value)
  {
    if time.NonNull? {
      var t := Trim(time.value);
      if Scan(t, allowSpaces, false).NonNull? {
        ParseTwentyFourHour(time.value, allowSpaces, rule, Scan(t, allowSpaces, false).value);
      } else if Scan(t, allowSpaces, true).NonNull? {
        var sh := Scan(t, allowSpaces, true).value;
        ParseTwelveHourWith(time.value, allowSpaces, rule, sh);
      }
    }
  }

  /** The shape of "9:05 am": spaces allowed, a space before the meridiem. */
  lemma SpacedMorningShape(t: string)
    requires t == "9:05 am"
    ensures ValidShape(Shape("9", false, false, "05", true, "am"), true, true)
    ensures Layout(Shape("9", false, false, "05", true, "am")) == t
    ensures Scan(t, true, true) == NonNull(Shape("9", false, false, "05", true, "am"))
  {
    var sh := Shape("9", false, false, "05", true, "am");
    assert Layout(sh) == t;
    assert ValidShape(sh, true, true);
    ScanLayout(sh, true, true);
  }

  /** The hour and minute of "9:05 am", and its meridiem says morning. */
  lemma SpacedMorningValues()
    ensures Number("9") == 9 && Number("05") == 5
    ensures IsMorning(Shape("9", false, false, "05", true, "am"))
  {
    assert "05"[..1] == "0";
  }

  /**
   The parser as written reads every 12-hour text with a space before its
   meridiem as an afternoon time, whatever the meridiem says.
   */
  lemma SpacedMeridiemReadAsAfternoon(time: string, allowSpaces: bool, sh: Shape)
    requires ValidShape(sh, allowSpaces, true) && Trim(time) == Layout(sh) && sh.spaceBeforeMeridiem
    ensures ParseHourInfoAsWritten(NonNull(time), allowSpaces)
              == Success(HourInfo(Trim(time), Number(sh.hour) % 12 + 12, Number(sh.minute)))
  {
    ParseTwelveHourAsWritten(time, allowSpaces, sh);
    TokenValues(sh, allowSpaces, true);
  }

  /**
   On any text that trims to "9:05 am", with spaces allowed, the parser as
   written reads 21:05 and the corrected one reads 9:05.
   */
  lemma SpacedMorningReadAsEvening(time: string)
    requires Trim(time) == "9:05 am"
    ensures ParseHourInfoAsWritten(NonNull(time), true) == Success(HourInfo("9:05 am", 21, 5))
    ensures ParseHourInfo(NonNull(time), true) == Success(HourInfo("9:05 am", 9, 5))
  {
    var sh := Shape("9", false, false, "05", true, "am");
    SpacedMorningShape(Trim(time));
    SpacedMorningValues();
    SpacedMeridiemReadAsAfternoon(time, true, sh);
    ParseTwelveHour(time, true, sh);
  }

  /** The shape of "9:05 pm": spaces allowed, a space before the meridiem. */
  lemma SpacedEveningShape(t: string)
    requires t == "9:05 pm"
    ensures ValidShape(Shape("9", false, false, "05", true, "pm"), true, true)
    ensures Layout(Shape("9", false, false, "05", true, "pm")) == t
    ensures !IsMorning(Shape("9", false, false, "05", true, "pm"))
    ensures Scan(t, true, true) == NonNull(Shape("9", false, false, "05", true, "pm"))
  {
    var sh := Shape("9", false, false, "05", true, "pm");
    assert Layout(sh) == t;
    assert ValidShape(sh, true, true);
    ScanLayout(sh, true, true);
  }

  /** The hour "9" of an evening time converts to 21. */
  lemma SpacedEveningHour(sh: Shape)
    requires sh == Shape("9", false, false, "05", true, "pm")
    ensures To24(Number(sh.hour), IsMorning(sh)) == 21
    ensures Number(sh.hour) % 12 + 12 == 21 && Number(sh.minute) == 5
  {
    SpacedMorningValues();
    assert !IsMorning(sh);
  }

  /** On any text that trims to "9:05 pm", with spaces allowed, both parsers read 21:05. */
  lemma SpacedEveningReadAsEvening(time: string)
    requires Trim(time) == "9:05 pm"
    ensures ParseHourInfoAsWritten(NonNull(time), true) == Success(HourInfo("9:05 pm", 21, 5))
    ensures ParseHourInfo(NonNull(time), true) == Success(HourInfo("9:05 pm", 21, 5))
  {
    var sh := Shape("9", false, false, "05", true, "pm");
    SpacedEveningShape(Trim(time));
    SpacedEveningHour(sh);
    SpacedMeridiemReadAsAfternoon(time, true, sh);
    ParseTwelveHour(time, true, sh);
  }

  // ---------------------------------------------------------------------------
  // Times of a date
  // ---------------------------------------------------------------------------

  /** The fields a calendar reads off a date: the hour of the day and the minute. */
  datatype Clock = Clock(hourOfDay: nat, minute: nat)

  predicate ValidClock(c: Clock)
  {
    c.hourOfDay < 24 && c.minute < 60
  }

  /** The minute written with two digits. */
  function MinuteText(m: nat): string
  {
    if m < 10 then "0" + Decimal(m) else Decimal(m)
  }

  /** The text `getTime` builds: the hour, a colon, and the minute padded to two digits. */
  function ClockText(c: Clock): string
  {
    Decimal(c.hourOfDay) + ":" + MinuteText(c.minute)
  }

  const NoDateTime := "No time provided."

  /** `getTime`: a null date is refused, any other is written as its clock text. */
  function GetTime(date: Nullable<Clock>): (r: Result<string, Exception>)
    ensures date.Null? <==> r == Failure(IllegalState(NoDateTime))
    ensures date.NonNull? ==> r == Success(ClockText(date.value))
  {
    if date.Null? then Failure(IllegalState(NoDateTime)) else Success(ClockText(date.value))
  }

  /** The shape of a clock text: a 24-hour time without spaces. */
  function ClockShape(c: Clock): Shape
  {
    Shape(Decimal(c.hourOfDay), false, false, MinuteText(c.minute), false, "")
  }

  lemma ClockShapeValid(c: Clock)
    requires ValidClock(c)
    ensures ValidShape(ClockShape(c), false, false)
    ensures Layout(ClockShape(c)) == ClockText(c)
    ensures Number(ClockShape(c).hour) == c.hourOfDay && Number(ClockShape(c).minute) == c.minute
  {
    var sh := ClockShape(c);
    if c.minute < 10 {
      assert sh.minute == ['0', Digit(c.minute)];
      assert sh.minute[..1] == "0";
    } else {
      assert sh.minute == [Digit(c.minute / 10), Digit(c.minute % 10)];
    }
    assert Layout(sh) == sh.hour + (":" + sh.minute);
  }

  /** A clock text is trimmed: it starts and ends with a digit. */
  lemma ClockTextTrimmed(c: Clock)
    requires ValidClock(c)
    ensures Trim(ClockText(c)) == ClockText(c)
  {
    ClockShapeValid(c);
    var t := ClockText(c);
    assert t[0] == Decimal(c.hourOfDay)[0];
    assert t[|t| - 1] == MinuteText(c.minute)[|MinuteText(c.minute)| - 1];
    TrimOfTrimmed(t);
  }

  /**
   `new HourInfo(date)`: the clock text of the date with the date's own hour
   and minute, which is what parsing that text gives (`DateReadBack`).
   */
  function HourInfoOfDate(date: Nullable<Clock>): (r: Result<HourInfo, Exception>)
    requires date.NonNull? ==> ValidClock(date.value)
    ensures date.Null? ==> r == Failure(IllegalState(NoDateTime))
    ensures r.Success? ==> ValidInfo(r.value)
  {
    match GetTime(date)
    case Failure(e) => Failure(e)
    case Success(t) => Success(HourInfo(t, date.value.hourOfDay, date.value.minute))
  }

  /**
   Writing a date's clock fields as text and parsing that text without
   spaces (by the parser as written or as intended) gives back the hour and
   the minute: `new HourInfo(date)` is `new HourInfo(getTime(date), false)`.
   */
  lemma DateReadBack(c: Clock)
    requires ValidClock(c)
    ensures ParseHourInfo(NonNull(ClockText(c)), false) == HourInfoOfDate(NonNull(c))
    ensures ParseHourInfoAsWritten(NonNull(ClockText(c)), false) == HourInfoOfDate(NonNull(c))
  {
    ClockShapeValid(c);
    ClockTextTrimmed(c);
    ScanLayout(ClockShape(c), false, false);
    ParseTwentyFourHour(ClockText(c), false, LastTwo, ClockShape(c));
    ParseTwentyFourHour(ClockText(c), false, FixedColumns, ClockShape(c));
  }

  // ---------------------------------------------------------------------------
  // Comparison
  // ---------------------------------------------------------------------------

  /** `Integer.compareTo`. */
  function CompareInt(a: int, b: int): (r: int)
    ensures r == -1 <==> a < b
    ensures r == 0 <==> a == b
    ensures r == 1 <==> a > b
  {
    if a < b then -1 else if a == b then 0 else 1
  }

  /** `getAllMinutes`: the minutes since midnight. */
  function AllMinutes(h: HourInfo): (n: int)
    ensures ValidInfo(h) ==> 0 <= n < 24 * 60
  {
    60 * h.hour24 + h.minute
  }

  /**
   `HourInfo.compareTo`: a null argument compares equal; otherwise the hours
   decide, then the minutes. On times of day this is the order of their
   minutes since midnight.
   */
  function CompareTo(a: HourInfo, b: Nullable<HourInfo>): (r: int)
    ensures b.Null? ==> r == 0
    ensures -1 <= r <= 1
    ensures b.NonNull? && ValidInfo(a) && ValidInfo(b.value) ==>
              r == CompareInt(AllMinutes(a), AllMinutes(b.value))
  {
    if b.Null? then 0
    else
      var result := CompareInt(a.hour24, b.value.hour24);
      if result != 0 then result else CompareInt(a.minute, b.value.minute)
  }

  /** Comparison is antisymmetric on times of day. */
  lemma CompareToAntisymmetric(a: HourInfo, b: HourInfo)
    requires ValidInfo(a) && ValidInfo(b)
    ensures CompareTo(a, NonNull(b)) == -CompareTo(b, NonNull(a))
  {
  }

  // ---------------------------------------------------------------------------
  // HourSpan
  // ---------------------------------------------------------------------------

  /** A span between two different times of day; ascending when the first comes first. */
  datatype HourSpan = HourSpan(t1: HourInfo, t2: HourInfo, ascSpan: bool)

  /** What every constructed span satisfies. */
  predicate ValidSpan(s: HourSpan)
  {
    && ValidInfo(s.t1) && ValidInfo(s.t2)
    && AllMinutes(s.t1) != AllMinutes(s.t2)
    && (s.ascSpan <==> AllMinutes(s.t1) < AllMinutes(s.t2))
  }

  const SameTimeMessage := "Cannot have a hourly span that starts and ends on the same date."

  /**
   The span between two parsed times: equal times are refused, and the span
   is ascending when the first time is earlier.
   */
  function SpanOf(a: HourInfo, b: HourInfo): (r: Result<HourSpan, Exception>)
    requires ValidInfo(a) && ValidInfo(b)
    ensures AllMinutes(a) == AllMinutes(b) <==> r == Failure(IllegalArgument(SameTimeMessage))
    ensures AllMinutes(a) != AllMinutes(b) ==> r == Success(HourSpan(a, b, AllMinutes(a) < AllMinutes(b)))
    ensures r.Success? ==> ValidSpan(r.value)
  {
    var compareResult := CompareTo(a, NonNull(b));
    if compareResult == 0 then Failure(IllegalArgument(SameTimeMessage))
    else Success(HourSpan(a, b, compareResult == -1))
  }

  /**
   The body of `new HourSpan(time1, time2, allowSpaces)` once both times are
   parsed: the first failure propagates, and two times give their span.
   */
  function SpanOfParsed(p1: Result<HourInfo, Exception>, p2: Result<HourInfo, Exception>): (r: Result<HourSpan, Exception>)
    requires p1.Success? ==> ValidInfo(p1.value)
    requires p2.Success? ==> ValidInfo(p2.value)
    ensures p1.Failure? ==> r == Failure(p1.error)
    ensures p1.Success? && p2.Failure? ==> r == Failure(p2.error)
    ensures p1.Success? && p2.Success? ==> r == SpanOf(p1.value, p2.value)
    ensures r.Success? ==> ValidSpan(r.value)
  {
    match p1
    case Failure(e) => Failure(e)
    case Success(a) =>
      match p2
      case Failure(e) => Failure(e)
      case Success(b) => SpanOf(a, b)
  }

  /**
   The constructor as written: both times are read by `new HourInfo`, whose
   meridiem comes from fixed columns.
   */
  function NewHourSpan(time1: Nullable<string>, time2: Nullable<string>, allowSpaces: bool): (r: Result<HourSpan, Exception>)
    ensures ParseHourInfoAsWritten(time1, allowSpaces).Failure? ==> r == Failure(ParseHourInfoAsWritten(time1, allowSpaces).error)
    ensures ParseHourInfoAsWritten(time1, allowSpaces).Success? && ParseHourInfoAsWritten(time2, allowSpaces).Failure? ==>
              r == Failure(ParseHourInfoAsWritten(time2, allowSpaces).error)
    ensures ParseHourInfoAsWritten(time1, allowSpaces).Success? && ParseHourInfoAsWritten(time2, allowSpaces).Success? ==>
              && ValidInfo(ParseHourInfoAsWritten(time1, allowSpaces).value) && ValidInfo(ParseHourInfoAsWritten(time2, allowSpaces).value)
              && r == SpanOf(ParseHourInfoAsWritten(time1, allowSpaces).value, ParseHourInfoAsWritten(time2, allowSpaces).value)
    ensures r.Success? ==> ValidSpan(r.value)
  {
    ParsedIsValid(time1, allowSpaces, FixedColumns);
    ParsedIsValid(time2, allowSpaces, FixedColumns);
    SpanOfParsed(ParseHourInfoAsWritten(time1, allowSpaces), ParseHourInfoAsWritten(time2, allowSpaces))
  }

  /** The constructor with the corrected meridiem reading of `ParseHourInfo`. */
  function NewHourSpanIntended(time1: Nullable<string>, time2: Nullable<string>, allowSpaces: bool): (r: Result<HourSpan, Exception>)
    ensures ParseHourInfo(time1, allowSpaces).Failure? ==> r == Failure(ParseHourInfo(time1, allowSpaces).error)
    ensures ParseHourInfo(time1, allowSpaces).Success? && ParseHourInfo(time2, allowSpaces).Failure? ==>
              r == Failure(ParseHourInfo(time2, allowSpaces).error)
    ensures ParseHourInfo(time1, allowSpaces).Success? && ParseHourInfo(time2, allowSpaces).Success? ==>
              && ValidInfo(ParseHourInfo(time1, allowSpaces).value) && ValidInfo(ParseHourInfo(time2, allowSpaces).value)
              && r == SpanOf(ParseHourInfo(time1, allowSpaces).value, ParseHourInfo(time2, allowSpaces).value)
    ensures r.Success? ==> ValidSpan(r.value)
  {
    ParsedIsValid(time1, allowSpaces, LastTwo);
    ParsedIsValid(time2, allowSpaces, LastTwo);
    SpanOfParsed(ParseHourInfo(time1, allowSpaces), ParseHourInfo(time2, allowSpaces))
  }

  /**
   "9:05 am" to "9:05 pm", spaces allowed: as written both ends read 21:05
   and the constructor refuses the span; corrected, it ascends from 9:05 to
   21:05.
   */
  lemma SpacedMorningSpanRefused(time1: string, time2: string)
    requires Trim(time1) == "9:05 am" && Trim(time2) == "9:05 pm"
    ensures NewHourSpan(NonNull(time1), NonNull(time2), true) == Failure(IllegalArgument(SameTimeMessage))
    ensures NewHourSpanIntended(NonNull(time1), NonNull(time2), true)
              == Success(HourSpan(HourInfo("9:05 am", 9, 5), HourInfo("9:05 pm", 21, 5), true))
  {
    SpacedMorningReadAsEvening(time1);
    SpacedEveningReadAsEvening(time2);
  }

  /**
   `isDateInside` as written: the date lies inside when the start compares
   below the end against it, reversed for a descending span.
   */
  function IsDateInsideAsWritten(span: HourSpan, date: Nullable<Clock>): (r: Result<bool, Exception>)
    requires date.NonNull? ==> ValidClock(date.value)
    ensures date.Null? <==> r == Failure(IllegalState(NoDateTime))
  {
    match HourInfoOfDate(date)
    case Failure(e) => Failure(e)
    case Success(h) =>
      var result1 := CompareTo(span.t1, NonNull(h));
      var result2 := CompareTo(span.t2, NonNull(h));
      Success((result1 < result2) == span.ascSpan)
  }

  /** The minute of the day a date falls on. */
  function MinuteOfDay(c: Clock): nat
  {
    60 * c.hourOfDay + c.minute
  }

  /**
   `isDateInside` as intended: an ascending span holds the minutes from its
   start to its end, both included; a descending span runs over midnight and
   holds the minutes from its start to the end of the day and from the start
   of the day to its end.
   */
  function IsDateInside(span: HourSpan, date: Nullable<Clock>): (r: Result<bool, Exception>)
    requires date.NonNull? ==> ValidClock(date.value)
    ensures date.Null? <==> r == Failure(IllegalState(NoDateTime))
    ensures date.NonNull? && span.ascSpan ==>
              r == Success(AllMinutes(span.t1) <= MinuteOfDay(date.value) <= AllMinutes(span.t2))
    ensures date.NonNull? && !span.ascSpan ==>
              r == Success(MinuteOfDay(date.value) >= AllMinutes(span.t1) || MinuteOfDay(date.value) <= AllMinutes(span.t2))
  {
    match HourInfoOfDate(date)
    case Failure(e) => Failure(e)
    case Success(h) =>
      var m := AllMinutes(h);
      if span.ascSpan then Success(AllMinutes(span.t1) <= m <= AllMinutes(span.t2))
      else Success(m >= AllMinutes(span.t1) || m <= AllMinutes(span.t2))
  }

  /** What the comparisons of the test as written decide about a time of day. */
  lemma ComparisonsInside(span: HourSpan, h: HourInfo)
    requires ValidSpan(span) && ValidInfo(h)
    ensures var inside := (CompareTo(span.t1, NonNull(h)) < CompareTo(span.t2, NonNull(h))) == span.ascSpan;
            if span.ascSpan then inside == (AllMinutes(span.t1) <= AllMinutes(h) <= AllMinutes(span.t2))
            else inside
  {
  }

  /** The time of day read from a date falls on the date's minute of the day. */
  lemma DateMinute(date: Clock)
    requires ValidClock(date)
    ensures HourInfoOfDate(NonNull(date)).Success?
    ensures ValidInfo(HourInfoOfDate(NonNull(date)).value)
    ensures AllMinutes(HourInfoOfDate(NonNull(date)).value) == MinuteOfDay(date)
  {
  }

  /** On an ascending span the test as written and the intended one agree. */
  lemma AscendingInsideAgrees(span: HourSpan, date: Clock)
    requires ValidSpan(span) && span.ascSpan && ValidClock(date)
    ensures IsDateInsideAsWritten(span, NonNull(date)) == IsDateInside(span, NonNull(date))
  {
    DateMinute(date);
    ComparisonsInside(span, HourInfoOfDate(NonNull(date)).value);
  }

  /** On a descending span the test as written holds for every date. */
  lemma DescendingInsideAlways(span: HourSpan, date: Clock)
    requires ValidSpan(span) && !span.ascSpan && ValidClock(date)
    ensures IsDateInsideAsWritten(span, NonNull(date)) == Success(true)
  {
    DateMinute(date);
    ComparisonsInside(span, HourInfoOfDate(NonNull(date)).value);
  }

  /** The night span from 22:00 to 06:00, as the intended test sees it, does not hold noon. */
  lemma NightSpanAtNoon(span: HourSpan)
    requires span == HourSpan(HourInfo("22:00", 22, 0), HourInfo("06:00", 6, 0), false)
    ensures ValidSpan(span)
    ensures IsDateInsideAsWritten(span, NonNull(Clock(12, 0))) == Success(true)
    ensures IsDateInside(span, NonNull(Clock(12, 0))) == Success(false)
  {
    DescendingInsideAlways(span, Clock(12, 0));
  }

  /**
   `overlaps`: a null span overlaps nothing; otherwise each span starts no
   later than the other ends.
   */
  function Overlaps(span: HourSpan, other: Nullable<HourSpan>): (b: bool)
    ensures other.Null? ==> !b
  {
    other.NonNull? &&
    AllMinutes(span.t1) <= AllMinutes(other.value.t2) && AllMinutes(other.value.t1) <= AllMinutes(span.t2)
  }

  /** The minutes an ascending span holds, both ends included. */
  predicate Holds(span: HourSpan, minute: int)
  {
    AllMinutes(span.t1) <= minute <= AllMinutes(span.t2)
  }

  /** Overlap is symmetric. */
  lemma OverlapsSymmetric(a: HourSpan, b: HourSpan)
    ensures Overlaps(a, NonNull(b)) == Overlaps(b, NonNull(a))
  {
  }

  /** Two ascending spans overlap exactly when some minute lies in both. */
  lemma OverlapsMeansCommonMinute(a: HourSpan, b: HourSpan)
    requires a.ascSpan && b.ascSpan && ValidSpan(a) && ValidSpan(b)
    ensures Overlaps(a, NonNull(b)) <==> exists m :: Holds(a, m) && Holds(b, m)
  {
    if Overlaps(a, NonNull(b)) {
      var m := if AllMinutes(a.t1) < AllMinutes(b.t1) then AllMinutes(b.t1) else AllMinutes(a.t1);
      assert Holds(a, m) && Holds(b, m);
    }
  }

  /** Some span of `rest` is overlapped by `span`. */
  predicate OverlapsAny(span: HourSpan, rest: seq<Nullable<HourSpan>>)
  {
    exists j | 0 <= j < |rest| :: Overlaps(span, rest[j])
  }

  /**
   The search `areSpansOverlapping` performs: the first span is compared with
   every later one (a null first span is dereferenced), then dropped, until a
   single span is left.
   */
  function OverlapSearch(spans: seq<Nullable<HourSpan>>): Result<bool, Exception>
  {
    if |spans| <= 1 then Success(false)
    else if spans[0].Null? then Failure(NullPointer(Null))
    else if OverlapsAny(spans[0].value, spans[1..]) then Success(true)
    else OverlapSearch(spans[1..])
  }

  /** Any two spans, the earlier one non-null, overlap. */
  predicate SomePairOverlaps(spans: seq<Nullable<HourSpan>>)
  {
    exists i, j | 0 <= i < j < |spans| :: spans[i].NonNull? && Overlaps(spans[i].value, spans[j])
  }

  /** Without a null in front of the last span, the search answers whether some pair overlaps. */
  lemma {:induction false} OverlapSearchFindsPairs(spans: seq<Nullable<HourSpan>>)
    requires forall i | 0 <= i < |spans| - 1 :: spans[i].NonNull?
    ensures OverlapSearch(spans) == Success(SomePairOverlaps(spans))
    decreases |spans|
  {
    if |spans| <= 1 {
    } else {
      var rest := spans[1..];
      OverlapSearchFindsPairs(rest);
      if OverlapsAny(spans[0].value, rest) {
        var j :| 0 <= j < |rest| && Overlaps(spans[0].value, rest[j]);
        assert spans[1 + j] == rest[j];
      } else if SomePairOverlaps(spans) {
        var i, j :| 0 <= i < j < |spans| && spans[i].NonNull? && Overlaps(spans[i].value, spans[j]);
        assert rest[j - 1] == spans[j];
        assert rest[i - 1] == spans[i];
        assert SomePairOverlaps(rest);
      } else {
        forall i, j | 0 <= i < j < |rest| && rest[i].NonNull? ensures !Overlaps(rest[i].value, rest[j]) {
          assert spans[i + 1] == rest[i] && spans[j + 1] == rest[j];
        }
      }
    }
  }

  /**
   `areSpansOverlapping`: a null or empty argument overlaps nowhere; each
   span but the last is compared with every later one in turn, and the
   first overlap found answers true.
   */
  method AreSpansOverlapping(hourSpans: Nullable<seq<Nullable<HourSpan>>>) returns (r: Result<bool, Exception>)
    ensures hourSpans.Null? || |hourSpans.value| == 0 ==> r == Success(false)
    ensures r == OverlapSearch(Source(hourSpans))
    ensures var s := Source(hourSpans);
            (forall i | 0 <= i < |s| - 1 :: s[i].NonNull?) ==> r == Success(SomePairOverlaps(s))
    ensures r.Failure? ==> r.error == NullPointer(Null)
  {
    var s := Source(hourSpans);
    if forall i | 0 <= i < |s| - 1 :: s[i].NonNull? {
      OverlapSearchFindsPairs(s);
    }
    var i := 0;
    while i + 1 < |s|
      invariant 0 <= i <= |s|
      invariant OverlapSearch(s) == OverlapSearch(s[i..])
    {
      var removed := s[i];
      if removed.Null? {
        return Failure(NullPointer(Null));
      }
      var j := i + 1;
      while j < |s|
        invariant i + 1 <= j <= |s|
        invariant forall k | i + 1 <= k < j :: !Overlaps(removed.value, s[k])
      {
        if Overlaps(removed.value, s[j]) {
          assert s[i..][1..][j - i - 1] == s[j];
          return Success(true);
        }
        j := j + 1;
      }
      var later := s[i + 1..];
      assert s[i..][1..] == later;
      assert !OverlapsAny(removed.value, later) by {
        forall k | 0 <= k < |later| ensures !Overlaps(removed.value, later[k]) {
          assert later[k] == s[i + 1 + k];
        }
      }
      i := i + 1;
    }
    return Success(false);
  }
}
