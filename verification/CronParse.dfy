/** From the text of a cron expression to a schedule, measured against what the
    five fields say. */
module CronParse {
  import opened Text
  import opened Bits
  import opened Calendar
  import opened CronField
  import opened Cron

  /* ----- Whitespace ----- */

  /** Unicode's `White_Space`, which trimming removes. */
  predicate IsWhitespace(c: char) {
    var n := c as int;
    0x9 <= n <= 0xD || n == 0x20 || n == 0x85 || n == 0xA0 || n == 0x1680 || 0x2000 <= n <= 0x200A
    || n == 0x2028 || n == 0x2029 || n == 0x202F || n == 0x205F || n == 0x3000
  }

  /** What separates fields; the vertical tab is not among them. */
  predicate IsSeparator(c: char) {
    var n := c as int;
    n == 0x9 || n == 0xA || n == 0xC || n == 0xD || n == 0x20
  }

  function TrimStart(s: string): string {
    if s != [] && IsWhitespace(s[0]) then TrimStart(s[1..]) else s
  }

  function TrimEnd(s: string): string {
    if s != [] && IsWhitespace(s[|s| - 1]) then TrimEnd(s[..|s| - 1]) else s
  }

  function Trim(s: string): string {
    TrimEnd(TrimStart(s))
  }

  function WordLength(s: string): (n: nat)
    ensures n <= |s|
    ensures forall i :: 0 <= i < n ==> !IsSeparator(s[i])
    ensures n < |s| ==> IsSeparator(s[n])
  {
    if s == [] || IsSeparator(s[0]) then 0 else 1 + WordLength(s[1..])
  }

  /** The runs of non-separators. */
  function Words(s: string): seq<string>
    decreases |s|
  {
    if s == [] then []
    else if IsSeparator(s[0]) then Words(s[1..])
    else [s[..WordLength(s)]] + Words(s[WordLength(s)..])
  }

  /* ----- What the text says ----- */

  const FIELDS: seq<Field> := [Minute, Hour, DayOfMonth, Month, DayOfWeek]

  /** The refusal of the first bad field from field `i` on. */
  function FirstRefusal(alphabetic: char -> bool, words: seq<string>, i: nat): Option<CronError>
    requires |words| == 5 && i <= 5
    decreases 5 - i
  {
    if i == 5 then None
    else match FieldSpans(alphabetic, FIELDS[i], words[i])
      case Err(e) => Some(e)
      case Ok(_) => FirstRefusal(alphabetic, words, i + 1)
  }

  /** Field `i` of the text admits `v`. */
  ghost predicate Says(alphabetic: char -> bool, words: seq<string>, i: nat, v: nat)
    requires |words| == 5 && i < 5
  {
    var spans := FieldSpans(alphabetic, FIELDS[i], words[i]);
    spans.Ok? && AnyAdmits(FIELDS[i], spans.value, v)
  }

  predicate Unrestricted(word: string) {
    word != [] && word[0] == '*'
  }

  ghost predicate TextDay(alphabetic: char -> bool, words: seq<string>, day: nat)
    requires |words| == 5
  {
    var date := FromDays(day);
    var byDate := Says(alphabetic, words, 2, date.day);
    var byWeekday := Says(alphabetic, words, 4, Weekday(day));
    && Says(alphabetic, words, 3, date.month)
    && (if !Unrestricted(words[2]) && !Unrestricted(words[4]) then byDate || byWeekday else byDate && byWeekday)
  }

  ghost predicate TextMinute(alphabetic: char -> bool, words: seq<string>, m: nat)
    requires |words| == 5
  {
    Says(alphabetic, words, 1, m / 60) && Says(alphabetic, words, 0, m % 60)
  }

  ghost predicate NoDayEver(alphabetic: char -> bool, words: seq<string>)
    requires |words| == 5
  {
    forall day: nat :: !TextDay(alphabetic, words, day)
  }

  /* ----- The parser ----- */

  predicate IsDated(months: nat, daysOfMonth: nat) {
    exists m | 1 <= m <= 12 ::
      And(months, Pow2(m)) != 0 && And(daysOfMonth, Pow2(LongestMonth(m) + 1) - 1) != 0
  }

  /** A schedule, or the reason there is none: a macro, a wrong number of
      fields, the first bad field, or a text that no day ever matches. */
  method FromStr(alphabetic: char -> bool, text: string) returns (r: Result<Schedule, CronError>)
    ensures
      var expression := Trim(text);
      var words := Words(expression);
      if expression != [] && expression[0] == '@' then r == Err(Macro)
      else if |words| != 5 then r == Err(FieldCount(|words|))
      else match FirstRefusal(alphabetic, words, 0)
        case Some(e) => r == Err(e)
        case None =>
          if NoDayEver(alphabetic, words) then r == Err(NeverFires)
          else
            && r.Ok? && Accepted(r.value) && r.value.expression == expression
            && (forall day: nat :: DayFires(r.value, day) <==> TextDay(alphabetic, words, day))
            && (forall m: nat :: MinuteOfDayFires(r.value, m) <==> TextMinute(alphabetic, words, m))
  {
    hide Trim, Words, FirstRefusal, TextDay, TextMinute, DayFires, MinuteOfDayFires, Encodes, Dated, Masked, IsDated;
    var expression := Trim(text);
    if expression != [] && expression[0] == '@' {
      return Err(Macro);
    }
    var words := Words(expression);
    if |words| != 5 {
      return Err(FieldCount(|words|));
    }
    var parsed := ParseFields(alphabetic, words);
    if parsed.Err? {
      return Err(parsed.error);
    }
    var masks := parsed.value;
    var eitherDay := !Unrestricted(words[2]) && !Unrestricted(words[4]);
    var s := Schedule(masks[0], masks[1], masks[2], masks[3], masks[4], eitherDay, expression);
    MeansTheText(alphabetic, words, s);
    DatedIsDated(s);
    RefusalIsExact(s);
    if !IsDated(s.months, s.daysOfMonth) && !eitherDay {
      return Err(NeverFires);
    }
    return Ok(s);
  }

  /** The five masks, or the refusal of the first bad field. */
  method ParseFields(alphabetic: char -> bool, words: seq<string>) returns (r: Result<seq<nat>, CronError>)
    requires |words| == 5
    ensures match FirstRefusal(alphabetic, words, 0)
            case Some(e) => r == Err(e)
            case None => r.Ok? && |r.value| == 5 && forall j :: 0 <= j < 5 ==> Encodes(alphabetic, words, j, r.value[j])
  {
    hide Bit, Legal, HasBit, MaskOf;
    var masks := [0, 0, 0, 0, 0];
    for i := 0 to 5
      invariant |masks| == 5
      invariant FirstRefusal(alphabetic, words, 0) == FirstRefusal(alphabetic, words, i)
      invariant forall j :: 0 <= j < i ==> Encodes(alphabetic, words, j, masks[j])
    {
      var parsed := ParseField(alphabetic, FIELDS[i], words[i]);
      if parsed.Err? {
        return Err(parsed.error);
      }
      MaskEncodes(alphabetic, words, i, parsed.value);
      masks := masks[i := parsed.value];
    }
    return Ok(masks);
  }

  lemma MaskEncodes(alphabetic: char -> bool, words: seq<string>, i: nat, mask: nat)
    requires |words| == 5 && i < 5 && FieldSpans(alphabetic, FIELDS[i], words[i]).Ok?
    requires MaskOf(FIELDS[i], FieldSpans(alphabetic, FIELDS[i], words[i]).value, mask)
    requires mask != 0 && forall v: nat :: Bit(mask, v) ==> Legal(FIELDS[i], v)
    ensures Encodes(alphabetic, words, i, mask)
  {
    NonZeroHasBit(mask);
    hide Bit, Legal, FieldSpans;
  }

  /** `mask` is exactly what field `i` says. */
  ghost predicate Encodes(alphabetic: char -> bool, words: seq<string>, i: nat, mask: nat)
    requires |words| == 5 && i < 5
  {
    Holds(FIELDS[i], mask) && forall v: nat :: Bit(mask, v) <==> Says(alphabetic, words, i, v)
  }

  lemma MeansTheText(alphabetic: char -> bool, words: seq<string>, s: Schedule)
    requires |words| == 5
    requires s.eitherDay == (!Unrestricted(words[2]) && !Unrestricted(words[4]))
    requires Encodes(alphabetic, words, 0, s.minutes) && Encodes(alphabetic, words, 1, s.hours)
    requires Encodes(alphabetic, words, 2, s.daysOfMonth) && Encodes(alphabetic, words, 3, s.months)
    requires Encodes(alphabetic, words, 4, s.daysOfWeek)
    ensures Masked(s)
    ensures forall day: nat :: DayFires(s, day) <==> TextDay(alphabetic, words, day)
    ensures forall m: nat :: MinuteOfDayFires(s, m) <==> TextMinute(alphabetic, words, m)
  {
    hide FromDays, Weekday, Says, Bit;
  }

  lemma DatedIsDated(s: Schedule)
    ensures IsDated(s.months, s.daysOfMonth) <==> Dated(s)
  {
    hide And, Pow2, Bit, LongestMonth;
    forall m: nat | 1 <= m <= 12
      ensures And(s.months, Pow2(m)) != 0 <==> Bit(s.months, m)
      ensures And(s.daysOfMonth, Pow2(LongestMonth(m) + 1) - 1) != 0
         <==> HasBitBelow(s.daysOfMonth, LongestMonth(m) + 1)
    {
      TestBit(s.months, m);
      TestLowBits(s.daysOfMonth, LongestMonth(m) + 1);
    }
    if Dated(s) {
      var m: nat, d: nat :| 1 <= m <= 12 && Bit(s.months, m) && d <= LongestMonth(m) && Bit(s.daysOfMonth, d);
      assert HasBitBelow(s.daysOfMonth, LongestMonth(m) + 1);
    }
    if IsDated(s.months, s.daysOfMonth) {
      var m :| 1 <= m <= 12 && And(s.months, Pow2(m)) != 0 && And(s.daysOfMonth, Pow2(LongestMonth(m) + 1) - 1) != 0;
      var d: nat :| d < LongestMonth(m) + 1 && Bit(s.daysOfMonth, d);
      assert Dated(s);
    }
  }

  /* ----- Printing an expression ----- */

  predicate IsBlank(s: string) {
    forall i :: 0 <= i < |s| ==> IsSeparator(s[i])
  }

  predicate IsWord(s: string) {
    s != [] && forall i :: 0 <= i < |s| ==> !IsSeparator(s[i])
  }

  /** Words with a blank before each. */
  function Spaced(blanks: seq<string>, words: seq<string>): string
    requires |blanks| == |words|
  {
    if words == [] then [] else blanks[0] + words[0] + Spaced(blanks[1..], words[1..])
  }

  lemma {:induction false} SkipBlank(blank: string, s: string)
    requires IsBlank(blank)
    ensures Words(blank + s) == Words(s)
  {
    if blank == [] {
      assert blank + s == s;
    } else {
      assert (blank + s)[1..] == blank[1..] + s;
      SkipBlank(blank[1..], s);
    }
  }

  lemma {:induction false} TakeWord(word: string, s: string)
    requires IsWord(word) && (s != [] ==> IsSeparator(s[0]))
    ensures Words(word + s) == [word] + Words(s)
  {
    var all := word + s;
    var n := WordLength(all);
    assert forall i :: 0 <= i < |word| ==> all[i] == word[i];
    assert s != [] ==> all[|word|] == s[0];
    assert n == |word|;
    assert all[..n] == word && all[n..] == s;
  }

  /** Any blanks between the fields give the fields back. */
  lemma {:induction false} WordsOfSpaced(blanks: seq<string>, words: seq<string>)
    requires |blanks| == |words|
    requires forall i :: 0 <= i < |words| ==> IsBlank(blanks[i]) && IsWord(words[i])
    requires forall i :: 0 < i < |words| ==> blanks[i] != []
    ensures Words(Spaced(blanks, words)) == words
  {
    if words != [] {
      var rest := Spaced(blanks[1..], words[1..]);
      assert Spaced(blanks, words) == blanks[0] + (words[0] + rest);
      SkipBlank(blanks[0], words[0] + rest);
      assert |words| > 1 ==> rest[0] == blanks[1][0];
      TakeWord(words[0], rest);
      WordsOfSpaced(blanks[1..], words[1..]);
    }
  }

  /* ----- Blanks, day rules and whole expressions ----- */

  /** A space, a tab, a line feed, a form feed or a carriage return. */
  const SEPARATORS: seq<int> := [32, 9, 10, 12, 13]

  /** The code points with Unicode's `White_Space`, one by one. */
  const WHITE_SPACE: seq<int> := [
    9, 10, 11, 12, 13, 32, 133, 160, 5_760, 8_192, 8_193, 8_194, 8_195, 8_196, 8_197, 8_198, 8_199, 8_200, 8_201,
    8_202, 8_232, 8_233, 8_239, 8_287, 12_288]

  lemma BlanksAreListed(c: char)
    ensures IsSeparator(c) <==> c as int in SEPARATORS
    ensures IsWhitespace(c) <==> c as int in WHITE_SPACE
  {
    var n := c as int;
    assert 9 <= n <= 13 ==> WHITE_SPACE[n - 9] == n;
    assert 8_192 <= n <= 8_202 ==> WHITE_SPACE[n - 8_183] == n;
    assert WHITE_SPACE[5] == 32 && WHITE_SPACE[6] == 133 && WHITE_SPACE[7] == 160 && WHITE_SPACE[8] == 5_760;
    assert WHITE_SPACE[20] == 8_232 && WHITE_SPACE[21] == 8_233 && WHITE_SPACE[22] == 8_239;
    assert WHITE_SPACE[23] == 8_287 && WHITE_SPACE[24] == 12_288;
    assert SEPARATORS[0] == 32 && SEPARATORS[1] == 9 && SEPARATORS[2] == 10;
    assert SEPARATORS[3] == 12 && SEPARATORS[4] == 13;
  }

  predicate AllWhite(s: string) {
    forall i :: 0 <= i < |s| ==> s[i] as int in WHITE_SPACE
  }

  /** Trimming removes white space from both ends and nothing else. */
  lemma TrimOfPadded(before: string, s: string, after: string)
    requires AllWhite(before) && AllWhite(after)
    requires s != [] && s[0] as int !in WHITE_SPACE && s[|s| - 1] as int !in WHITE_SPACE
    ensures Trim(before + s + after) == s
  {
    hide TrimStart, TrimEnd;
    assert before + s + after == before + (s + after);
    TrimStartOf(before, s + after);
    TrimEndOf(s, after);
  }

  lemma {:induction false} TrimStartOf(before: string, s: string)
    requires AllWhite(before) && s != [] && s[0] as int !in WHITE_SPACE
    ensures TrimStart(before + s) == s
  {
    hide IsWhitespace;
    if before == [] {
      assert before + s == s;
      BlanksAreListed(s[0]);
    } else {
      BlanksAreListed(before[0]);
      assert (before + s)[1..] == before[1..] + s;
      TrimStartOf(before[1..], s);
    }
  }

  lemma {:induction false} TrimEndOf(s: string, after: string)
    requires AllWhite(after) && s != [] && s[|s| - 1] as int !in WHITE_SPACE
    ensures TrimEnd(s + after) == s
  {
    hide IsWhitespace;
    if after == [] {
      assert s + after == s;
      BlanksAreListed(s[|s| - 1]);
    } else {
      BlanksAreListed(after[|after| - 1]);
      assert (s + after)[..|s + after| - 1] == s + after[..|after| - 1];
      TrimEndOf(s, after[..|after| - 1]);
    }
  }

  /** A day field that begins with a star, stepped or not, leaves the day to the
      other: both must admit it. */
  lemma StarRequiresBoth(alphabetic: char -> bool, words: seq<string>, day: nat, rest: string)
    requires |words| == 5 && (words[2] == "*" + rest || words[4] == "*" + rest)
    ensures TextDay(alphabetic, words, day) <==>
              && Says(alphabetic, words, 3, PagesTurned(day).month)
              && Says(alphabetic, words, 2, PagesTurned(day).day)
              && Says(alphabetic, words, 4, WeekdayTurned(day))
  {
    hide FromDays, Weekday, PagesTurned, WeekdayTurned, Says;
    assert ("*" + rest)[0] == '*';
    FromDaysIsTheCalendar(day);
    WeekdayIsTheCalendar(day);
  }

  /** With no star at the head of either, one of them is enough. */
  lemma NoStarRequiresEither(alphabetic: char -> bool, words: seq<string>, day: nat)
    requires |words| == 5 && !("*" <= words[2]) && !("*" <= words[4])
    ensures TextDay(alphabetic, words, day) <==>
              && Says(alphabetic, words, 3, PagesTurned(day).month)
              && (Says(alphabetic, words, 2, PagesTurned(day).day) || Says(alphabetic, words, 4, WeekdayTurned(day)))
  {
    hide FromDays, Weekday, PagesTurned, WeekdayTurned, Says;
    assert forall w: string :: w != [] && w[0] == '*' ==> "*" <= w;
    FromDaysIsTheCalendar(day);
    WeekdayIsTheCalendar(day);
  }
}
