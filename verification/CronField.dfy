/** One field of a cron expression: the token grammar, the parser that turns a
    comma list into a bit mask, and the set of values the list denotes. */
module CronField {
  import opened Arithmetic
  import opened Text
  import opened Bits

  datatype Field = Minute | Hour | DayOfMonth | Month | DayOfWeek

  datatype CronError =
    | Macro
    | FieldCount(found: nat)
    | Unsupported(field: Field, token: string)
    | Malformed(field: Field, token: string)
    | OutOfRange(field: Field, token: string, value: nat, min: nat, max: nat)
    | ReversedRange(field: Field, token: string)
    | InvalidStep(field: Field, token: string, max: nat)
    | NeverFires

  const U32_MAX := 0xFFFF_FFFF

  function Min(field: Field): nat {
    match field
    case Minute | Hour | DayOfWeek => 0
    case DayOfMonth | Month => 1
  }

  function Max(field: Field): nat {
    match field
    case Minute => 59
    case Hour => 23
    case DayOfMonth => 31
    case Month => 12
    case DayOfWeek => 7
  }

  /** Sunday is written 0 or 7 and kept as 0. */
  function Fold(field: Field, value: nat): nat {
    if field.DayOfWeek? then value % 7 else value
  }

  /** The values a mask of `field` may hold. */
  predicate Legal(field: Field, v: nat) {
    Min(field) <= v <= Max(field) && (field.DayOfWeek? ==> v < 7)
  }

  /** The values `low`, `low + step`, ... up to `high`. */
  datatype Span = Span(low: nat, high: nat, step: nat)

  predicate ValidSpan(field: Field, span: Span) {
    Min(field) <= span.low <= span.high <= Max(field) && 1 <= span.step <= Max(field)
  }

  /** A whole number of steps from `low`. */
  predicate OnGrid(span: Span, raw: nat)
    requires span.step > 0
  {
    (raw - span.low) % span.step == 0
  }

  predicate Walks(span: Span, raw: nat)
    requires span.step > 0
  {
    span.low <= raw <= span.high && OnGrid(span, raw)
  }

  ghost predicate Admits(field: Field, span: Span, v: nat) {
    span.step > 0 && exists raw: nat :: Walks(span, raw) && Fold(field, raw) == v
  }

  ghost predicate AnyAdmits(field: Field, spans: seq<Span>, v: nat) {
    exists i :: 0 <= i < |spans| && Admits(field, spans[i], v)
  }

  /* ----- The parser ----- */

  function Number(field: Field, token: string, digits: string): Result<nat, CronError> {
    if digits == [] || !AllDigits(digits) then Err(Malformed(field, token))
    else
      var value := if DigitsValue(digits) > U32_MAX then U32_MAX else DigitsValue(digits);
      if Min(field) <= value <= Max(field) then Ok(value)
      else Err(OutOfRange(field, token, value, Min(field), Max(field)))
  }

  function Bounds(field: Field, token: string, range: string, stepped: bool): Result<(nat, nat), CronError> {
    if range == "*" then Ok((Min(field), Max(field)))
    else match SplitOnce(range, '-')
      case Some((low, high)) =>
        (match Number(field, token, low)
         case Err(e) => Err(e)
         case Ok(l) =>
           match Number(field, token, high)
           case Err(e) => Err(e)
           case Ok(h) => Ok((l, h)))
      case None =>
        if stepped then Err(Malformed(field, token))
        else match Number(field, token, range)
          case Err(e) => Err(e)
          case Ok(v) => Ok((v, v))
  }

  function Step(field: Field, token: string, step: Option<string>): Result<nat, CronError> {
    match step
    case None => Ok(1)
    case Some(digits) =>
      if digits == [] || !AllDigits(digits) then Err(Malformed(field, token))
      else if 1 <= DigitsValue(digits) <= Max(field) then Ok(DigitsValue(digits))
      else Err(InvalidStep(field, token, Max(field)))
  }

  predicate HasUnsupported(alphabetic: char -> bool, token: string) {
    exists c | c in token :: alphabetic(c) || c == '#' || c == '?'
  }

  function ParseParts(field: Field, token: string, range: string, step: Option<string>): Result<Span, CronError> {
    match Bounds(field, token, range, step.Some?)
    case Err(e) => Err(e)
    case Ok((low, high)) =>
      if low > high then Err(ReversedRange(field, token))
      else match Step(field, token, step)
        case Err(e) => Err(e)
        case Ok(n) => Ok(Span(low, high, n))
  }

  /** One list element. `alphabetic` is Unicode's `Alphabetic` property. */
  function ParseToken(alphabetic: char -> bool, field: Field, token: string): Result<Span, CronError> {
    if HasUnsupported(alphabetic, token) then Err(Unsupported(field, token))
    else match SplitOnce(token, '/')
      case Some((range, step)) => ParseParts(field, token, range, Some(step))
      case None => ParseParts(field, token, token, None)
  }

  /** The spans of a comma list, or the refusal of its first bad element. */
  function ParseTokens(alphabetic: char -> bool, field: Field, tokens: seq<string>): Result<seq<Span>, CronError> {
    if tokens == [] then Ok([])
    else match ParseToken(alphabetic, field, tokens[0])
      case Err(e) => Err(e)
      case Ok(span) =>
        match ParseTokens(alphabetic, field, tokens[1..])
        case Err(e) => Err(e)
        case Ok(spans) => Ok([span] + spans)
  }

  function FieldSpans(alphabetic: char -> bool, field: Field, text: string): Result<seq<Span>, CronError> {
    ParseTokens(alphabetic, field, Split(text, ','))
  }

  /** `mask` holds exactly the values `spans` denote. */
  ghost predicate MaskOf(field: Field, spans: seq<Span>, mask: nat) {
    forall v: nat :: Bit(mask, v) <==> AnyAdmits(field, spans, v)
  }

  /** Reads one field into the mask of the values it admits. */
  method ParseField(alphabetic: char -> bool, field: Field, text: string) returns (r: Result<nat, CronError>)
    ensures r.Err? <==> FieldSpans(alphabetic, field, text).Err?
    ensures r.Err? ==> r.error == FieldSpans(alphabetic, field, text).error
    ensures r.Ok? ==> MaskOf(field, FieldSpans(alphabetic, field, text).value, r.value)
    ensures r.Ok? ==> r.value != 0 && r.value < Pow2(64)
    ensures r.Ok? ==> forall v: nat :: Bit(r.value, v) ==> Legal(field, v)
  {
    hide ParseToken, MaskOf, Bit, Legal, ValidSpan;
    var tokens := Split(text, ',');
    var bits := 0;
    ghost var spans := [];
    NoSpans(field);
    assert tokens[0..] == tokens;
    NothingToPrepend(ParseTokens(alphabetic, field, tokens));
    for n := 0 to |tokens|
      invariant |spans| == n && forall i :: 0 <= i < n ==> ValidSpan(field, spans[i])
      invariant MaskOf(field, spans, bits)
      invariant FieldSpans(alphabetic, field, text)
             == Prepend(spans, ParseTokens(alphabetic, field, tokens[n..]))
    {
      var parsed := ParseToken(alphabetic, field, tokens[n]);
      if parsed.Err? {
        return Err(parsed.error);
      }
      var span := parsed.value;
      ParsedSpanIsValid(alphabetic, field, tokens[n]);
      assert tokens[n..][1..] == tokens[n + 1..];
      bits := AddSpan(field, span, spans, bits);
      PrependOne(spans, span, ParseTokens(alphabetic, field, tokens[n + 1..]));
      spans := spans + [span];
    }
    assert tokens[|tokens|..] == [];
    assert spans + [] == spans;
    MaskIsLegal(field, spans, bits);
    r := Ok(bits);
  }

  /** Walk one span, setting a bit per value. */
  method AddSpan(field: Field, span: Span, ghost spans: seq<Span>, bits: nat) returns (r: nat)
    requires ValidSpan(field, span) && MaskOf(field, spans, bits)
    ensures MaskOf(field, spans + [span], r)
  {
    hide OnGrid, WalkedBelow, Bit, AnyAdmits, Admits, Fold;
    r := bits;
    var value := span.low;
    StartOfWalk(field, span);
    while value <= span.high
      invariant span.low <= value && OnGrid(span, value)
      invariant forall v: nat :: Bit(r, v) <==> Bit(bits, v) || WalkedBelow(field, span, value, v)
      decreases span.high + span.step - value
    {
      ghost var before := r;
      r := Or(r, Pow2(Fold(field, value)));
      forall v: nat
        ensures Bit(r, v) <==> Bit(bits, v) || WalkedBelow(field, span, value + span.step, v)
      {
        SetBit(before, Fold(field, value), v);
        StepWalks(field, span, value, v);
      }
      NextOnGrid(span, value);
      value := value + span.step;
    }
    forall v: nat
      ensures Bit(r, v) <==> AnyAdmits(field, spans + [span], v)
    {
      EndOfWalk(field, span, value, v);
      AnyAdmitsAppend(field, spans, span, v);
    }
  }

  /* ----- Proof support for the loops ----- */

  function Prepend(spans: seq<Span>, rest: Result<seq<Span>, CronError>): Result<seq<Span>, CronError> {
    match rest
    case Err(e) => Err(e)
    case Ok(more) => Ok(spans + more)
  }

  lemma NothingToPrepend(rest: Result<seq<Span>, CronError>)
    ensures Prepend([], rest) == rest
  {
    if rest.Ok? { assert [] + rest.value == rest.value; }
  }

  lemma PrependOne(spans: seq<Span>, span: Span, rest: Result<seq<Span>, CronError>)
    ensures Prepend(spans, Prepend([span], rest)) == Prepend(spans + [span], rest)
  {
    if rest.Ok? { assert spans + ([span] + rest.value) == spans + [span] + rest.value; }
  }

  ghost predicate WalkedBelow(field: Field, span: Span, bound: nat, v: nat)
    requires span.step > 0
  {
    exists raw: nat :: Walks(span, raw) && raw < bound && Fold(field, raw) == v
  }

  lemma QuotientOfMultiple(d: nat, n: nat) returns (q: nat)
    requires n > 0 && d % n == 0
    ensures d == q * n
  {
    q := d / n;
  }

  lemma MultipleIsDivisible(q: nat, n: nat)
    requires n > 0
    ensures q * n % n == 0
  {
    var d := q * n;
    var q', r := d / n, d % n;
    assert d == q' * n + r;
    if q' < q {
      MultiplesApart(q', q, n);
    } else if q < q' {
      MultiplesApart(q, q', n);
    }
  }

  lemma NextIsMultiple(d: nat, step: nat)
    requires step > 0 && d % step == 0
    ensures (d + step) % step == 0
  {
    var q := QuotientOfMultiple(d, step);
    assert d + step == (q + 1) * step;
    MultipleIsDivisible(q + 1, step);
  }

  /** Between one walked value and the next there is none. */
  lemma NoMultipleBetween(d: nat, e: nat, step: nat)
    requires step > 0 && d % step == 0 && e % step == 0 && d < e
    ensures d + step <= e
  {
    var a := QuotientOfMultiple(d, step);
    var b := QuotientOfMultiple(e, step);
    if b < a {
      MultiplesApart(b, a, step);
    } else if a < b {
      MultiplesApart(a, b, step);
    }
  }

  lemma StartOfWalk(field: Field, span: Span)
    requires span.step > 0
    ensures OnGrid(span, span.low)
    ensures forall v: nat :: !WalkedBelow(field, span, span.low, v)
  {
    MultipleIsDivisible(0, span.step);
  }

  lemma NextOnGrid(span: Span, value: nat)
    requires span.step > 0 && span.low <= value && OnGrid(span, value)
    ensures OnGrid(span, value + span.step)
  {
    NextIsMultiple(value - span.low, span.step);
  }

  lemma NothingBetween(span: Span, value: nat, raw: nat)
    requires span.step > 0 && span.low <= value < raw && OnGrid(span, value) && OnGrid(span, raw)
    ensures value + span.step <= raw
  {
    NoMultipleBetween(value - span.low, raw - span.low, span.step);
  }

  lemma StepWalks(field: Field, span: Span, value: nat, v: nat)
    requires span.step > 0 && span.low <= value <= span.high && OnGrid(span, value)
    ensures WalkedBelow(field, span, value + span.step, v)
       <==> WalkedBelow(field, span, value, v) || Fold(field, value) == v
  {
    hide OnGrid, Fold;
    if Fold(field, value) == v { assert Walks(span, value); }
    if WalkedBelow(field, span, value + span.step, v) && Fold(field, value) != v {
      var raw: nat :| Walks(span, raw) && raw < value + span.step && Fold(field, raw) == v;
      if raw > value { NothingBetween(span, value, raw); }
    }
  }

  lemma EndOfWalk(field: Field, span: Span, value: nat, v: nat)
    requires span.step > 0 && value > span.high
    ensures WalkedBelow(field, span, value, v) <==> Admits(field, span, v)
  {
    hide OnGrid, Fold;
  }

  lemma AnyAdmitsAppend(field: Field, spans: seq<Span>, span: Span, v: nat)
    ensures AnyAdmits(field, spans + [span], v) <==> AnyAdmits(field, spans, v) || Admits(field, span, v)
  {
    var all := spans + [span];
    if AnyAdmits(field, spans, v) {
      var i :| 0 <= i < |spans| && Admits(field, spans[i], v);
      assert all[i] == spans[i];
    }
    if Admits(field, span, v) { assert all[|spans|] == span; }
  }

  lemma NoSpans(field: Field)
    ensures MaskOf(field, [], 0)
  {
    forall v: nat ensures Bit(0, v) <==> AnyAdmits(field, [], v) { BitOfZero(v); }
  }

  lemma ParsedSpanIsValid(alphabetic: char -> bool, field: Field, token: string)
    requires ParseToken(alphabetic, field, token).Ok?
    ensures ValidSpan(field, ParseToken(alphabetic, field, token).value)
  {
    hide ParseParts;
    match SplitOnce(token, '/')
    case Some((range, step)) => PartsSpanIsValid(field, token, range, Some(step));
    case None => PartsSpanIsValid(field, token, token, None);
  }

  lemma PartsSpanIsValid(field: Field, token: string, range: string, step: Option<string>)
    requires ParseParts(field, token, range, step).Ok?
    ensures ValidSpan(field, ParseParts(field, token, range, step).value)
  {
    hide SplitOnce, DigitsValue;
  }

  /** A mask of at least one valid span is non-zero, legal and one word wide. */
  lemma MaskIsLegal(field: Field, spans: seq<Span>, mask: nat)
    requires |spans| >= 1 && (forall i :: 0 <= i < |spans| ==> ValidSpan(field, spans[i]))
    requires MaskOf(field, spans, mask)
    ensures mask != 0 && mask < Pow2(64)
    ensures forall v: nat :: Bit(mask, v) ==> Legal(field, v)
  {
    forall v: nat | Bit(mask, v)
      ensures Legal(field, v)
    {
      var i :| 0 <= i < |spans| && Admits(field, spans[i], v);
    }
    FitsWidth(mask, 64);
    MultipleIsDivisible(0, spans[0].step);
    assert Walks(spans[0], spans[0].low);
    assert Admits(field, spans[0], Fold(field, spans[0].low));
    assert Bit(mask, Fold(field, spans[0].low));
    NonZeroHasBit(mask);
  }

  /* ----- The grammar, as a printer ----- */

  datatype Item =
    | Star(step: Option<string>)
    | Single(value: string)
    | Range(low: string, high: string, step: Option<string>)

  predicate Spells(s: string, low: nat, high: nat) {
    s != [] && AllDigits(s) && low <= DigitsValue(s) <= high
  }

  predicate ValidStep(field: Field, step: Option<string>) {
    step.Some? ==> Spells(step.value, 1, Max(field))
  }

  predicate ValidItem(field: Field, item: Item) {
    match item
    case Star(step) => ValidStep(field, step)
    case Single(value) => Spells(value, Min(field), Max(field))
    case Range(low, high, step) =>
      && Spells(low, Min(field), Max(field))
      && Spells(high, Min(field), Max(field))
      && DigitsValue(low) <= DigitsValue(high)
      && ValidStep(field, step)
  }

  function RenderStep(step: Option<string>): string {
    if step.Some? then "/" + step.value else ""
  }

  function Render(item: Item): string {
    match item
    case Star(step) => "*" + RenderStep(step)
    case Single(value) => value
    case Range(low, high, step) => low + "-" + high + RenderStep(step)
  }

  function StepValue(step: Option<string>): nat
    requires step.Some? ==> AllDigits(step.value)
  {
    if step.Some? then DigitsValue(step.value) else 1
  }

  function SpanOf(field: Field, item: Item): Span
    requires ValidItem(field, item)
  {
    match item
    case Star(step) => Span(Min(field), Max(field), StepValue(step))
    case Single(value) => Span(DigitsValue(value), DigitsValue(value), 1)
    case Range(low, high, step) => Span(DigitsValue(low), DigitsValue(high), StepValue(step))
  }

  /** The characters of the grammar are not letters. */
  ghost predicate PunctuationIsNotAlphabetic(alphabetic: char -> bool) {
    !alphabetic('*') && !alphabetic('-') && !alphabetic('/') && forall c :: IsDigit(c) ==> !alphabetic(c)
  }

  lemma NoneAlphabetic(alphabetic: char -> bool, s: string)
    requires PunctuationIsNotAlphabetic(alphabetic)
    requires forall c :: c in s ==> IsDigit(c) || c == '*' || c == '-' || c == '/'
    ensures !HasUnsupported(alphabetic, s)
  {
  }

  lemma SplitStep(range: string, step: Option<string>)
    requires '/' !in range
    ensures SplitOnce(range + RenderStep(step), '/')
         == if step.Some? then Some((range, step.value)) else None
  {
    if step.Some? {
      assert range + RenderStep(step) == range + ['/'] + step.value;
      SplitOnceAt(range, '/', step.value);
    } else {
      assert range + RenderStep(step) == range;
    }
  }

  /** A printed item is split at the step it was printed with. */
  lemma ParseAtStep(alphabetic: char -> bool, field: Field, range: string, step: Option<string>)
    requires PunctuationIsNotAlphabetic(alphabetic) && (step.Some? ==> AllDigits(step.value))
    requires forall c :: c in range ==> IsDigit(c) || c == '*' || c == '-'
    ensures
      var token := range + RenderStep(step);
      ParseToken(alphabetic, field, token) == ParseParts(field, token, range, step)
  {
    hide ParseParts, DigitsValue, SplitOnce;
    var token := range + RenderStep(step);
    NoneAlphabetic(alphabetic, token);
    SplitStep(range, step);
    if step.None? { assert token == range; }
  }

  /** Printing an item and parsing the print gives back its span. */
  lemma ParseOfRender(alphabetic: char -> bool, field: Field, item: Item)
    requires PunctuationIsNotAlphabetic(alphabetic) && ValidItem(field, item)
    ensures ParseToken(alphabetic, field, Render(item)) == Ok(SpanOf(field, item))
  {
    hide ParseToken, DigitsValue, SplitOnce;
    match item
    case Star(step) =>
      ParseAtStep(alphabetic, field, "*", step);
    case Single(value) =>
      assert value + RenderStep(None) == value;
      assert IsDigit(value[0]);
      ParseAtStep(alphabetic, field, value, None);
    case Range(low, high, step) =>
      var range := low + ['-'] + high;
      SplitOnceAt(low, '-', high);
      assert range[|low|] == '-';
      ParseAtStep(alphabetic, field, range, step);
  }

  lemma PartsIsRender(field: Field, token: string, range: string, step: Option<string>) returns (item: Item)
    requires ParseParts(field, token, range, step).Ok?
    ensures ValidItem(field, item) && Render(item) == range + RenderStep(step)
    ensures ParseParts(field, token, range, step).value == SpanOf(field, item)
  {
    hide DigitsValue, SplitOnce, Number, Step, Spells;
    StepSpells(field, token, step);
    if range == "*" {
      item := Star(step);
    } else {
      match SplitOnce(range, '-')
      case Some((low, high)) =>
        NumberSpells(field, token, low);
        NumberSpells(field, token, high);
        item := Range(low, high, step);
      case None =>
        NumberSpells(field, token, range);
        item := Single(range);
        assert range + RenderStep(None) == range;
    }
  }

  lemma NumberSpells(field: Field, token: string, digits: string)
    ensures Number(field, token, digits).Ok? ==>
              Spells(digits, Min(field), Max(field)) && AllDigits(digits)
              && Number(field, token, digits).value == DigitsValue(digits)
  {
    hide DigitsValue;
  }

  lemma StepSpells(field: Field, token: string, step: Option<string>)
    ensures Step(field, token, step).Ok? ==> ValidStep(field, step)
    ensures Step(field, token, step).Ok? && step.Some? ==> AllDigits(step.value)
    ensures Step(field, token, step).Ok? && step.Some? ==> Step(field, token, step).value == DigitsValue(step.value)
    ensures step.None? ==> Step(field, token, step) == Ok(1)
  {
    hide DigitsValue;
  }

  lemma SplitIsStep(token: string)
    ensures
      match SplitOnce(token, '/')
      case Some((range, step)) => token == range + RenderStep(Some(step))
      case None => token == token + RenderStep(None)
  {
    hide SplitOnce;
    match SplitOnce(token, '/')
    case Some((range, step)) => assert range + ['/'] + step == range + ("/" + step);
    case None =>
  }

  /** Whatever the parser accepts is the print of a valid item. */
  lemma ParseIsRender(alphabetic: char -> bool, field: Field, token: string) returns (item: Item)
    requires ParseToken(alphabetic, field, token).Ok?
    ensures ValidItem(field, item) && Render(item) == token
    ensures ParseToken(alphabetic, field, token).value == SpanOf(field, item)
  {
    hide ParseParts, ValidItem, Render, SpanOf, HasUnsupported;
    SplitIsStep(token);
    hide RenderStep, SplitOnce;
    match SplitOnce(token, '/')
    case Some((range, step)) => item := PartsIsRender(field, token, range, Some(step));
    case None => item := PartsIsRender(field, token, token, None);
  }

  /** The language and the meaning of one list element: a token is accepted,
      with a given span, exactly when it is the print of a valid item of that
      span. */
  lemma TokenExact(alphabetic: char -> bool, field: Field, token: string, span: Span)
    requires PunctuationIsNotAlphabetic(alphabetic)
    ensures ParseToken(alphabetic, field, token) == Ok(span)
       <==> exists item :: ValidItem(field, item) && Render(item) == token && SpanOf(field, item) == span
  {
    if ParseToken(alphabetic, field, token) == Ok(span) {
      var item := ParseIsRender(alphabetic, field, token);
    }
    forall item | ValidItem(field, item) && Render(item) == token
      ensures ParseToken(alphabetic, field, token) == Ok(SpanOf(field, item))
    {
      ParseOfRender(alphabetic, field, item);
    }
  }

  function RenderAll(items: seq<Item>): (r: seq<string>)
    ensures |r| == |items|
    ensures forall i :: 0 <= i < |items| ==> r[i] == Render(items[i])
  {
    seq(|items|, i requires 0 <= i < |items| => Render(items[i]))
  }

  function SpansOf(field: Field, items: seq<Item>): (r: seq<Span>)
    requires forall i :: 0 <= i < |items| ==> ValidItem(field, items[i])
    ensures |r| == |items|
    ensures forall i :: 0 <= i < |items| ==> r[i] == SpanOf(field, items[i])
  {
    seq(|items|, i requires 0 <= i < |items| => SpanOf(field, items[i]))
  }

  function RenderField(items: seq<Item>): string
    requires items != []
  {
    Join(RenderAll(items), ',')
  }

  /** Printing any list of valid items as a field and parsing it gives back the
      items' spans, in order. */
  lemma FieldRoundTrip(alphabetic: char -> bool, field: Field, items: seq<Item>)
    requires PunctuationIsNotAlphabetic(alphabetic)
    requires items != [] && forall i :: 0 <= i < |items| ==> ValidItem(field, items[i])
    ensures FieldSpans(alphabetic, field, RenderField(items))
         == Ok(SpansOf(field, items))
  {
    SplitOfJoin(RenderAll(items), ',');
    TokensRoundTrip(alphabetic, field, items);
  }

  lemma {:induction false} TokensRoundTrip(alphabetic: char -> bool, field: Field, items: seq<Item>)
    requires PunctuationIsNotAlphabetic(alphabetic)
    requires forall i :: 0 <= i < |items| ==> ValidItem(field, items[i])
    ensures ParseTokens(alphabetic, field, RenderAll(items))
         == Ok(SpansOf(field, items))
  {
    hide ParseToken, ValidItem, Render, SpanOf, RenderAll, SpansOf;
    if items == [] {
      assert RenderAll(items) == [] && SpansOf(field, items) == [];
    } else {
      ParseOfRender(alphabetic, field, items[0]);
      TokensRoundTrip(alphabetic, field, items[1..]);
      assert RenderAll(items)[1..] == RenderAll(items[1..]);
      SpansOfFirst(field, items);
    }
  }

  lemma SpansOfFirst(field: Field, items: seq<Item>)
    requires items != [] && forall i :: 0 <= i < |items| ==> ValidItem(field, items[i])
    ensures SpansOf(field, items) == [SpanOf(field, items[0])] + SpansOf(field, items[1..])
  {
    hide SpanOf, ValidItem;
  }

  /** The parsed mask depends only on the set of values the text denotes. */
  lemma MaskIsUnique(field: Field, spans: seq<Span>, a: nat, b: nat)
    requires MaskOf(field, spans, a) && MaskOf(field, spans, b)
    ensures a == b
  {
    SameBits(a, b);
  }

  /* ----- Every printed element, by the numbers in it ----- */

  /** The values that may be written, as crontab(5) lists them. */
  ghost function Written(field: Field): (nat, nat) {
    match field
    case Minute => (0, 59)
    case Hour => (0, 23)
    case DayOfMonth => (1, 31)
    case Month => (1, 12)
    case DayOfWeek => (0, 7)
  }

  ghost predicate MayWrite(field: Field, n: nat) {
    Written(field).0 <= n <= Written(field).1
  }

  predicate IsNumber(s: string) {
    s != [] && AllDigits(s)
  }

  /** An element with numbers of any size in it. */
  predicate Numeric(item: Item) {
    match item
    case Star(step) => step.Some? ==> IsNumber(step.value)
    case Single(value) => IsNumber(value)
    case Range(low, high, step) => IsNumber(low) && IsNumber(high) && (step.Some? ==> IsNumber(step.value))
  }

  ghost function TooFar(field: Field, token: string, n: nat): CronError {
    OutOfRange(field, token, if n < 0x1_0000_0000 then n else 0xFFFF_FFFF, Written(field).0, Written(field).1)
  }

  ghost function Stepped(field: Field, token: string, low: nat, high: nat, step: Option<string>)
    : Result<Span, CronError>
    requires step.Some? ==> AllDigits(step.value)
  {
    if low > high then Err(ReversedRange(field, token))
    else if step.None? then Ok(Span(low, high, 1))
    else if 1 <= DigitsValue(step.value) <= Written(field).1 then Ok(Span(low, high, DigitsValue(step.value)))
    else Err(InvalidStep(field, token, Written(field).1))
  }

  /** What an element comes to: the first number out of range, a range that runs
      backwards, a step out of range, or a span. */
  ghost function Meaning(field: Field, item: Item): Result<Span, CronError>
    requires Numeric(item)
  {
    var token := Render(item);
    match item
    case Star(step) => Stepped(field, token, Written(field).0, Written(field).1, step)
    case Single(value) =>
      var n := DigitsValue(value);
      if MayWrite(field, n) then Ok(Span(n, n, 1)) else Err(TooFar(field, token, n))
    case Range(low, high, step) =>
      var l, h := DigitsValue(low), DigitsValue(high);
      if !MayWrite(field, l) then Err(TooFar(field, token, l))
      else if !MayWrite(field, h) then Err(TooFar(field, token, h))
      else Stepped(field, token, l, h, step)
  }

  lemma MeaningOfRender(alphabetic: char -> bool, field: Field, item: Item)
    requires PunctuationIsNotAlphabetic(alphabetic) && Numeric(item)
    ensures ParseToken(alphabetic, field, Render(item)) == Meaning(field, item)
  {
    hide ParseToken, DigitsValue, SplitOnce;
    match item
    case Star(step) =>
      ParseAtStep(alphabetic, field, "*", step);
    case Single(value) =>
      assert value + RenderStep(None) == value;
      assert IsDigit(value[0]);
      ParseAtStep(alphabetic, field, value, None);
    case Range(low, high, step) =>
      MeaningOfRange(alphabetic, field, low, high, step);
  }

  lemma MeaningOfRange(alphabetic: char -> bool, field: Field, low: string, high: string, step: Option<string>)
    requires PunctuationIsNotAlphabetic(alphabetic) && Numeric(Range(low, high, step))
    ensures ParseToken(alphabetic, field, Render(Range(low, high, step))) == Meaning(field, Range(low, high, step))
  {
    hide ParseToken, DigitsValue, SplitOnce, ParseParts, Stepped, MayWrite;
    var range := low + ['-'] + high;
    assert forall c :: c in range ==> IsDigit(c) || c == '-';
    ParseAtStep(alphabetic, field, range, step);
    RangeParts(field, Render(Range(low, high, step)), low, high, step);
  }

  lemma RangeParts(field: Field, token: string, low: string, high: string, step: Option<string>)
    requires IsNumber(low) && IsNumber(high) && (step.Some? ==> IsNumber(step.value))
    ensures
      var l, h := DigitsValue(low), DigitsValue(high);
      ParseParts(field, token, low + ['-'] + high, step)
        == if !MayWrite(field, l) then Err(TooFar(field, token, l))
           else if !MayWrite(field, h) then Err(TooFar(field, token, h))
           else Stepped(field, token, l, h, step)
  {
    hide DigitsValue, SplitOnce, Number, Step, MayWrite, TooFar, Written;
    var range := low + ['-'] + high;
    assert '-' !in low && range != "*" by { assert IsDigit(low[0]) && range[0] == low[0]; }
    SplitOnceAt(low, '-', high);
    NumberMeaning(field, token, low);
    NumberMeaning(field, token, high);
    StepMeaning(field, token, step);
  }

  lemma NumberMeaning(field: Field, token: string, digits: string)
    requires IsNumber(digits)
    ensures
      var n := DigitsValue(digits);
      Number(field, token, digits) == if MayWrite(field, n) then Ok(n) else Err(TooFar(field, token, n))
  {
    hide DigitsValue;
  }

  lemma StepMeaning(field: Field, token: string, step: Option<string>)
    requires step.Some? ==> IsNumber(step.value)
    ensures Step(field, token, step)
         == if step.None? then Ok(1)
            else if 1 <= DigitsValue(step.value) <= Written(field).1 then Ok(DigitsValue(step.value))
            else Err(InvalidStep(field, token, Written(field).1))
  {
    hide DigitsValue;
  }

  /** A number on its own is accepted exactly in the written range. */
  lemma NumbersAccepted(alphabetic: char -> bool, field: Field, n: nat)
    requires PunctuationIsNotAlphabetic(alphabetic)
    ensures ParseToken(alphabetic, field, Decimal(n))
         == if MayWrite(field, n) then Ok(Span(n, n, 1)) else Err(TooFar(field, Decimal(n), n))
  {
    hide ParseToken, DigitsValue, Decimal;
    DecimalIsCanonical(n);
    MeaningOfRender(alphabetic, field, Single(Decimal(n)));
  }

  /** And it admits itself, except that weekday 7 is Sunday, which is 0. */
  lemma NumberAdmitsItself(field: Field, n: nat, v: nat)
    requires MayWrite(field, n)
    ensures Admits(field, Span(n, n, 1), v) <==> v == if field == DayOfWeek && n == 7 then 0 else n
  {
    assert Walks(Span(n, n, 1), n);
  }

  /** A step needs a range to walk. */
  lemma SteppedNumberIsMalformed(alphabetic: char -> bool, field: Field, number: string, step: string)
    requires PunctuationIsNotAlphabetic(alphabetic) && IsNumber(number) && AllDigits(step)
    ensures
      var token := number + "/" + step;
      ParseToken(alphabetic, field, token) == Err(Malformed(field, token))
  {
    hide ParseToken, SplitOnce;
    assert number + RenderStep(Some(step)) == number + "/" + step;
    assert IsDigit(number[0]) && '-' !in number;
    ParseAtStep(alphabetic, field, number, Some(step));
  }

  /** An element is refused as unsupported exactly for a letter, `#` or `?`. */
  lemma UnsupportedExactly(alphabetic: char -> bool, field: Field, token: string)
    ensures ParseToken(alphabetic, field, token) == Err(Unsupported(field, token))
       <==> '#' in token || '?' in token || exists i :: 0 <= i < |token| && alphabetic(token[i])
  {
    hide SplitOnce, ParseParts;
    assert forall i :: 0 <= i < |token| ==> token[i] in token;
    match SplitOnce(token, '/')
    case Some((range, step)) => PartsAreSupported(field, token, range, Some(step));
    case None => PartsAreSupported(field, token, token, None);
  }

  lemma PartsAreSupported(field: Field, token: string, range: string, step: Option<string>)
    ensures ParseParts(field, token, range, step) != Err(Unsupported(field, token))
  {
    hide SplitOnce, DigitsValue, AllDigits, Step, Number;
    NumberIsSupported(field, token, range);
    if SplitOnce(range, '-').Some? {
      NumberIsSupported(field, token, SplitOnce(range, '-').value.0);
      NumberIsSupported(field, token, SplitOnce(range, '-').value.1);
    }
    StepIsSupported(field, token, step);
  }

  lemma NumberIsSupported(field: Field, token: string, digits: string)
    ensures Number(field, token, digits) != Err(Unsupported(field, token))
  {
    hide DigitsValue, AllDigits;
  }

  lemma StepIsSupported(field: Field, token: string, step: Option<string>)
    ensures Step(field, token, step) != Err(Unsupported(field, token))
  {
    hide DigitsValue, AllDigits;
  }
}
