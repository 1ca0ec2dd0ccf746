/** TOML v1.0.0 documents, printed from their parts, and what the scanner makes
    of the print: comments are found exactly where they were printed, and every
    string leaves it outside of any string. */
module TomlText {
  import opened Text
  import opened Substitution

  /** A piece of a value, a key or the text between them. */
  datatype Seg =
    | Chr(c: char)
    | Esc(c: char)        // an escaped quote or backslash
    | Var(name: string)   // a `${NAME}` token
    | Quotes(n: nat)      // one or two quotes inside a multi-line string

  datatype Part =
    | Plain(segs: seq<Seg>)
    | Remark(text: string, closed: bool)   // a comment, up to its newline if any
    | Quoted(lex: Lex, segs: seq<Seg>, extra: nat)
    // A single-line string that its line ends before its quote does.
    | Stray(lex: Lex, segs: seq<Seg>)

  /* ----- The printer ----- */

  function QuoteOf(lex: Lex): char {
    if lex.Literal? || lex.MultiLiteral? then '\'' else '"'
  }

  function Repeat(c: char, n: nat): string {
    seq(n, _ => c)
  }

  function PrintSeg(lex: Lex, seg: Seg): string {
    match seg
    case Chr(c) => [c]
    case Esc(c) => ['\\', c]
    case Var(name) => TokenText(name)
    case Quotes(n) => Repeat(QuoteOf(lex), n)
  }

  function PrintSegs(lex: Lex, segs: seq<Seg>): string {
    if segs == [] then "" else PrintSeg(lex, segs[0]) + PrintSegs(lex, segs[1..])
  }

  /** How many quotes open a string, and how many close it. */
  function Delimiters(lex: Lex): nat {
    if lex.MultiBasic? || lex.MultiLiteral? then 3 else 1
  }

  function PrintPart(part: Part): string {
    match part
    case Plain(segs) => PrintSegs(Bare, segs)
    case Remark(text, closed) => "#" + text + (if closed then "\n" else "")
    case Quoted(lex, segs, extra) =>
      Repeat(QuoteOf(lex), Delimiters(lex)) + PrintSegs(lex, segs) + Repeat(QuoteOf(lex), Delimiters(lex) + extra)
    case Stray(lex, segs) => [QuoteOf(lex)] + PrintSegs(lex, segs) + "\n"
  }

  function Print(parts: seq<Part>): string {
    if parts == [] then "" else PrintPart(parts[0]) + Print(parts[1..])
  }

  /* ----- Well-formed documents ----- */

  predicate SegFits(lex: Lex, seg: Seg) {
    match seg
    case Chr(c) =>
      (match lex
       case Bare => c != '#' && c != '"' && c != '\''
       case Basic => c != '"' && c != '\n'
       case Literal => c != '\'' && c != '\n'
       case MultiBasic => c != '"'
       case MultiLiteral => c != '\''
       case Comment => false)
    case Esc(c) => Escapes(lex) && (c == '"' || c == '\\')
    case Var(name) => IsValidEnvName(name) && !lex.Comment?
    case Quotes(n) => (lex.MultiBasic? || lex.MultiLiteral?) && 1 <= n <= 2
  }

  /** A backslash escapes in the two basic forms. */
  predicate Escapes(lex: Lex) {
    lex.Basic? || lex.MultiBasic?
  }

  /** Neighbours do not run together: a dollar is not followed by a brace, inner
      quotes are not followed by quotes, the closing ones included, and a lone
      backslash that escapes is not followed by a backslash. Any other escape is a
      lone backslash and what follows it, which may be a variable. */
  predicate SegsFit(lex: Lex, segs: seq<Seg>) {
    && (forall i :: 0 <= i < |segs| ==> SegFits(lex, segs[i]))
    && (forall i :: 0 <= i < |segs| - 1 ==> !(segs[i] == Chr('$') && segs[i + 1] == Chr('{')))
    && (forall i :: 0 <= i < |segs| && segs[i].Quotes? ==> i + 1 < |segs| && !segs[i + 1].Quotes?)
    && (Escapes(lex) ==>
          forall i :: 0 <= i < |segs| - 1 && segs[i] == Chr('\\') ==>
            segs[i + 1].Var? || (segs[i + 1].Chr? && segs[i + 1].c != '\\'))
  }

  /** The segments end in a lone backslash that escapes. */
  predicate EndsEscaping(lex: Lex, segs: seq<Seg>) {
    Escapes(lex) && segs != [] && segs[|segs| - 1] == Chr('\\')
  }

  predicate PartFits(part: Part) {
    match part
    case Plain(segs) => SegsFit(Bare, segs)
    case Remark(text, _) => '\n' !in text
    case Quoted(lex, segs, extra) =>
      && !lex.Bare? && !lex.Comment? && SegsFit(lex, segs) && !EndsEscaping(lex, segs)
      && (if Delimiters(lex) == 3 then extra <= 2 else extra == 0)
    case Stray(lex, segs) => (lex.Basic? || lex.Literal?) && SegsFit(lex, segs)
  }

  predicate StartsWithChar(s: string, c: char) {
    s != [] && s[0] == c
  }

  /** Parts do not run together either. */
  predicate PartsFit(parts: seq<Part>) {
    parts == [] ||
    (&& PartFits(parts[0])
     && PartsFit(parts[1..])
     && (parts[0].Plain? ==> !StartsWithChar(Print(parts[1..]), '{'))
     && (parts[0].Remark? && !parts[0].closed ==> |parts| == 1)
     && (parts[0].Quoted? ==> !StartsWithChar(Print(parts[1..]), QuoteOf(parts[0].lex))))
  }

  /* ----- What the scanner should make of it ----- */

  function SegPieces(lex: Lex, seg: Seg): seq<Piece> {
    match seg
    case Var(name) => [Token(lex, name)]
    case _ => [Copied(lex, PrintSeg(lex, seg))]
  }

  function SegsPieces(lex: Lex, segs: seq<Seg>): seq<Piece> {
    if segs == [] then [] else SegPieces(lex, segs[0]) + SegsPieces(lex, segs[1..])
  }

  function CommentPieces(text: string): seq<Piece> {
    seq(|text|, i requires 0 <= i < |text| => Copied(Comment, [text[i]]))
  }

  function PartPieces(part: Part): seq<Piece> {
    match part
    case Plain(segs) => SegsPieces(Bare, segs)
    case Remark(text, closed) => [Copied(Bare, "#")] + CommentPieces(text + (if closed then "\n" else ""))
    case Quoted(lex, segs, extra) =>
      [Copied(Bare, Repeat(QuoteOf(lex), Delimiters(lex)))] + SegsPieces(lex, segs)
      + [Copied(lex, Repeat(QuoteOf(lex), Delimiters(lex) + extra))]
    case Stray(lex, segs) => [Copied(Bare, [QuoteOf(lex)])] + SegsPieces(lex, segs) + [Copied(lex, "\n")]
  }

  function DocPieces(parts: seq<Part>): seq<Piece> {
    if parts == [] then [] else PartPieces(parts[0]) + DocPieces(parts[1..])
  }

  /* ----- One unit at a time ----- */

  /** `text` is one unit in state `lex`, whatever follows in `tail`. */
  lemma OneUnit(lex: Lex, text: string, tail: string, next: Lex, offset: nat)
    requires text != [] && (lex.Comment? || !OpensToken(text + tail))
    requires Step(lex, text + tail) == (|text|, next)
    ensures Cut(lex, text + tail, offset) == Prepend([Copied(lex, text)], Cut(next, tail, offset + Utf8Length(text)))
  {
    hide Step, Cut, Utf8Length;
    CutUnit(lex, text + tail, offset);
    assert (text + tail)[..|text|] == text && (text + tail)[|text|..] == tail;
  }

  lemma RunOfRepeat(c: char, n: nat, tail: string)
    requires !StartsWithChar(tail, c)
    ensures QuoteRun(Repeat(c, n) + tail, c) == n
  {
    var s := Repeat(c, n) + tail;
    var run := QuoteRun(s, c);
    assert run < |s| ==> s[run] != c;
    assert forall i :: 0 <= i < n ==> s[i] == c;
    assert n < |s| ==> s[n] == tail[0];
  }

  /** One segment, in a state it fits, keeps the state. */
  lemma SegCut(lex: Lex, seg: Seg, tail: string, offset: nat)
    requires SegFits(lex, seg)
    requires seg == Chr('$') ==> !StartsWithChar(tail, '{')
    requires seg.Quotes? ==> !StartsWithChar(tail, QuoteOf(lex))
    requires seg == Chr('\\') && Escapes(lex) ==> !StartsWithChar(tail, '"') && !StartsWithChar(tail, '\\')
    ensures Cut(lex, PrintSeg(lex, seg) + tail, offset)
         == Prepend(SegPieces(lex, seg), Cut(lex, tail, offset + Utf8Length(PrintSeg(lex, seg))))
  {
    hide Cut, Utf8Length, QuoteRun;
    match seg
    case Chr(c) => OneUnit(lex, [c], tail, lex, offset);
    case Esc(c) => OneUnit(lex, ['\\', c], tail, lex, offset);
    case Var(name) => VarCut(lex, name, tail, offset);
    case Quotes(n) =>
      RunOfRepeat(QuoteOf(lex), n, tail);
      OneUnit(lex, Repeat(QuoteOf(lex), n), tail, lex, offset);
  }

  lemma VarCut(lex: Lex, name: string, tail: string, offset: nat)
    requires IsValidEnvName(name) && !lex.Comment?
    ensures Cut(lex, TokenText(name) + tail, offset)
         == Prepend([Token(lex, name)], Cut(lex, tail, offset + Utf8Length(TokenText(name))))
  {
    hide Cut, Utf8Length;
    var rest := TokenText(name) + tail;
    assert rest[2..] == name + ['}'] + tail;
    assert OpensToken(rest);
    SplitOnceAt(name, '}', tail);
    CutToken(lex, rest, offset);
    TokenTextLength(name);
  }

  /* ----- Whole strings and comments ----- */

  lemma PrependTwice(a: seq<Piece>, b: seq<Piece>, t: Template)
    ensures Prepend(a, Prepend(b, t)) == Prepend(a + b, t)
  {
    assert a + (b + t.pieces) == a + b + t.pieces;
  }

  /** The first printed character of a segment. */
  lemma HeadOfSegs(lex: Lex, segs: seq<Seg>, tail: string)
    requires segs != [] && SegsFit(lex, segs)
    ensures PrintSegs(lex, segs) + tail != []
    ensures StartsWithChar(PrintSegs(lex, segs) + tail, '{') ==> segs[0] == Chr('{')
    ensures !lex.Bare? && StartsWithChar(PrintSegs(lex, segs) + tail, QuoteOf(lex)) ==> segs[0].Quotes?
    ensures StartsWithChar(PrintSegs(lex, segs) + tail, '\\') ==> segs[0].Esc? || segs[0] == Chr('\\')
  {
    hide IsValidEnvName;
    assert SegFits(lex, segs[0]);
    assert PrintSeg(lex, segs[0]) != [];
    assert (PrintSegs(lex, segs) + tail)[0] == PrintSeg(lex, segs[0])[0];
  }

  lemma {:induction false} SegsCut(lex: Lex, segs: seq<Seg>, tail: string, offset: nat)
    requires SegsFit(lex, segs) && !StartsWithChar(tail, '{')
    requires EndsEscaping(lex, segs) ==> !StartsWithChar(tail, '"') && !StartsWithChar(tail, '\\')
    ensures Cut(lex, PrintSegs(lex, segs) + tail, offset)
         == Prepend(SegsPieces(lex, segs), Cut(lex, tail, offset + Utf8Length(PrintSegs(lex, segs))))
    decreases |segs|
  {
    hide Cut, Utf8Length, SegPieces, PrintSeg, SegFits;
    if segs == [] {
      assert PrintSegs(lex, segs) + tail == tail;
      NoLength();
      NothingPrepended(Cut(lex, tail, offset));
    } else {
      var seg, rest := segs[0], segs[1..];
      var head, more := PrintSeg(lex, seg), PrintSegs(lex, rest);
      NextFits(lex, segs, tail);
      RestFits(lex, segs);
      hide SegsFit, EndsEscaping;
      assert PrintSegs(lex, segs) == head + more && head + more + tail == head + (more + tail);
      SegCut(lex, seg, more + tail, offset);
      SegsCut(lex, rest, tail, offset + Utf8Length(head));
      Utf8LengthAdds(head, more);
      hide PrintSegs;
      PrependTwice(SegPieces(lex, seg), SegsPieces(lex, rest), Cut(lex, tail, offset + Utf8Length(head + more)));
    }
  }

  lemma RestFits(lex: Lex, segs: seq<Seg>)
    requires segs != [] && SegsFit(lex, segs)
    ensures SegsFit(lex, segs[1..])
    ensures EndsEscaping(lex, segs[1..]) ==> EndsEscaping(lex, segs)
  {
    hide SegFits;
    var rest := segs[1..];
    assert forall i :: 0 <= i < |rest| ==> rest[i] == segs[i + 1];
  }

  lemma NoLength()
    ensures Utf8Length("") == 0
  {
  }

  lemma NothingPrepended(t: Template)
    ensures Prepend([], t) == t
  {
    assert [] + t.pieces == t.pieces;
  }

  lemma NextFits(lex: Lex, segs: seq<Seg>, tail: string)
    requires segs != [] && SegsFit(lex, segs) && !StartsWithChar(tail, '{')
    requires EndsEscaping(lex, segs) ==> !StartsWithChar(tail, '"') && !StartsWithChar(tail, '\\')
    ensures SegFits(lex, segs[0])
    ensures segs[0] == Chr('\\') && Escapes(lex) ==>
              !StartsWithChar(PrintSegs(lex, segs[1..]) + tail, '"')
              && !StartsWithChar(PrintSegs(lex, segs[1..]) + tail, '\\')
    ensures segs[0] == Chr('$') ==> !StartsWithChar(PrintSegs(lex, segs[1..]) + tail, '{')
    ensures segs[0].Quotes? ==> !StartsWithChar(PrintSegs(lex, segs[1..]) + tail, QuoteOf(lex))
  {
    hide SegFits;
    var rest := segs[1..];
    assert SegsFit(lex, rest);
    assert SegFits(lex, segs[0]);
    if rest == [] {
      assert PrintSegs(lex, rest) + tail == tail;
    } else {
      assert rest[0] == segs[1];
      HeadOfSegs(lex, rest, tail);
      if segs[0].Quotes? { OnlyInStrings(lex, segs[0]); }
    }
  }

  lemma OnlyInStrings(lex: Lex, seg: Seg)
    requires seg.Quotes? && SegFits(lex, seg)
    ensures !lex.Bare?
  {
  }

  lemma {:induction false} CommentCut(text: string, tail: string, offset: nat)
    requires '\n' !in text
    ensures Cut(Comment, text + tail, offset)
         == Prepend(CommentPieces(text), Cut(Comment, tail, offset + Utf8Length(text)))
  {
    hide Cut, Utf8Length;
    if text == [] {
      assert text + tail == tail;
      NoLength();
      NothingPrepended(Cut(Comment, tail, offset));
    } else {
      assert text + tail == [text[0]] + (text[1..] + tail);
      OneUnit(Comment, [text[0]], text[1..] + tail, Comment, offset);
      CommentCut(text[1..], tail, offset + Utf8Length([text[0]]));
      assert [text[0]] + text[1..] == text;
      Utf8LengthAdds([text[0]], text[1..]);
      assert CommentPieces(text) == [Copied(Comment, [text[0]])] + CommentPieces(text[1..]);
      PrependTwice([Copied(Comment, [text[0]])], CommentPieces(text[1..]),
                   Cut(Comment, tail, offset + Utf8Length(text)));
    }
  }

  /** Three cuts in a row. */
  lemma Chain(a: seq<Piece>, b: seq<Piece>, c: seq<Piece>, x: string, y: string, z: string, t: Template)
    ensures Prepend(a, Prepend(b, Prepend(c, t))) == Prepend(a + b + c, t)
    ensures Utf8Length(x + y + z) == Utf8Length(x) + Utf8Length(y) + Utf8Length(z)
  {
    PrependTwice(b, c, t);
    PrependTwice(a, b + c, t);
    assert a + (b + c) == a + b + c;
    Utf8LengthAdds(x + y, z);
    Utf8LengthAdds(x, y);
  }

  lemma RemarkCut(text: string, closed: bool, tail: string, offset: nat)
    requires '\n' !in text && (!closed ==> tail == [])
    ensures
      var part := Remark(text, closed);
      Cut(Bare, PrintPart(part) + tail, offset)
        == Prepend(PartPieces(part), Cut(Bare, tail, offset + Utf8Length(PrintPart(part))))
  {
    hide Cut, Utf8Length;
    var end := if closed then "\n" else "";
    var pieces := if closed then [Copied(Comment, "\n")] else [];
    var part := Remark(text, closed);
    assert PrintPart(part) + tail == "#" + (text + (end + tail));
    OneUnit(Bare, "#", text + (end + tail), Comment, offset);
    var at := offset + Utf8Length("#");
    CommentCut(text, end + tail, at);
    if closed {
      OneUnit(Comment, "\n", tail, Bare, at + Utf8Length(text));
    } else {
      assert end + tail == [];
      NothingToCut(Comment, at + Utf8Length(text));
      NothingToCut(Bare, offset + Utf8Length(PrintPart(part)));
      NothingPrepended(Cut(Bare, tail, offset + Utf8Length(PrintPart(part))));
    }
    NoLength();
    assert CommentPieces(text + end) == CommentPieces(text) + pieces;
    Chain([Copied(Bare, "#")], CommentPieces(text), pieces, "#", text, end,
          Cut(Bare, tail, offset + Utf8Length(PrintPart(part))));
    assert [Copied(Bare, "#")] + CommentPieces(text) + pieces == PartPieces(part);
  }

  /** The opening quotes of a string are read as that string's opening. */
  lemma OpeningStep(lex: Lex, segs: seq<Seg>, close: string)
    requires !lex.Bare? && !lex.Comment? && SegsFit(lex, segs)
    requires Delimiters(lex) == 1 && segs == [] ==> |close| >= 1 && !StartsWithChar(close[1..], QuoteOf(lex))
    ensures
      var open := Repeat(QuoteOf(lex), Delimiters(lex));
      Step(Bare, open + (PrintSegs(lex, segs) + close)) == (Delimiters(lex), lex)
  {
    hide PrintSegs;
    var q := QuoteOf(lex);
    var rest := PrintSegs(lex, segs) + close;
    var all := Repeat(q, Delimiters(lex)) + rest;
    assert all[0] == q;
    var run := QuoteRun(all, q);
    if Delimiters(lex) == 3 {
      assert all[1] == q && all[2] == q;
      assert run >= 3;
    } else {
      SecondQuote(lex, segs, close);
      assert all[1..] == rest;
      assert run < 3;
    }
  }

  /** Inside a single-line string, the quotes after the opening one run short. */
  lemma SecondQuote(lex: Lex, segs: seq<Seg>, close: string)
    requires (lex.Basic? || lex.Literal?) && SegsFit(lex, segs)
    requires segs == [] ==> |close| >= 1 && !StartsWithChar(close[1..], QuoteOf(lex))
    ensures QuoteRun(PrintSegs(lex, segs) + close, QuoteOf(lex)) < 2
  {
    hide SegFits;
    var rest := PrintSegs(lex, segs) + close;
    if segs == [] {
      assert rest == close;
      assert QuoteRun(close[1..], QuoteOf(lex)) == 0;
    } else {
      HeadOfSegs(lex, segs, close);
      assert SegFits(lex, segs[0]);
      NoInnerQuotes(lex, segs[0]);
    }
  }

  lemma NoInnerQuotes(lex: Lex, seg: Seg)
    requires (lex.Basic? || lex.Literal?) && SegFits(lex, seg)
    ensures !seg.Quotes?
  {
  }

  /** The closing quotes of a string are read as its close. */
  lemma ClosingStep(lex: Lex, extra: nat, tail: string)
    requires !lex.Bare? && !lex.Comment? && !StartsWithChar(tail, QuoteOf(lex))
    requires if Delimiters(lex) == 3 then extra <= 2 else extra == 0
    ensures Step(lex, Repeat(QuoteOf(lex), Delimiters(lex) + extra) + tail) == (Delimiters(lex) + extra, Bare)
  {
    RunOfRepeat(QuoteOf(lex), Delimiters(lex) + extra, tail);
  }

  lemma StringCut(lex: Lex, segs: seq<Seg>, open: string, close: string, tail: string, offset: nat)
    requires !lex.Bare? && !lex.Comment? && SegsFit(lex, segs)
    requires open != [] && close != [] && !OpensToken(open + (PrintSegs(lex, segs) + (close + tail)))
    requires !StartsWithChar(close, '{') && !StartsWithChar(close, '$')
    requires EndsEscaping(lex, segs) ==> !StartsWithChar(close, '"') && !StartsWithChar(close, '\\')
    requires Step(Bare, open + (PrintSegs(lex, segs) + (close + tail))) == (|open|, lex)
    requires Step(lex, close + tail) == (|close|, Bare)
    ensures Cut(Bare, open + PrintSegs(lex, segs) + close + tail, offset)
         == Prepend([Copied(Bare, open)] + SegsPieces(lex, segs) + [Copied(lex, close)],
                    Cut(Bare, tail, offset + Utf8Length(open + PrintSegs(lex, segs) + close)))
  {
    hide Cut, Utf8Length, Step, SegsPieces, PrintSegs, SegsFit;
    var body := PrintSegs(lex, segs);
    assert open + body + close + tail == open + (body + (close + tail));
    OneUnit(Bare, open, body + (close + tail), lex, offset);
    SegsCut(lex, segs, close + tail, offset + Utf8Length(open));
    OneUnit(lex, close, tail, Bare, offset + Utf8Length(open) + Utf8Length(body));
    Chain([Copied(Bare, open)], SegsPieces(lex, segs), [Copied(lex, close)], open, body, close,
          Cut(Bare, tail, offset + Utf8Length(open + body + close)));
  }

  /** One part, printed before a tail it does not run into, is cut into its own
      pieces and leaves the scanner outside of everything. */
  lemma PartCut(part: Part, tail: string, offset: nat)
    requires PartFits(part)
    requires part.Plain? ==> !StartsWithChar(tail, '{')
    requires part.Remark? && !part.closed ==> tail == []
    requires part.Quoted? ==> !StartsWithChar(tail, QuoteOf(part.lex))
    ensures Cut(Bare, PrintPart(part) + tail, offset)
         == Prepend(PartPieces(part), Cut(Bare, tail, offset + Utf8Length(PrintPart(part))))
  {
    hide Cut, Utf8Length, Step, PrintSegs, SegsPieces, SegsFit;
    match part
    case Plain(segs) => SegsCut(Bare, segs, tail, offset);
    case Remark(text, closed) => RemarkCut(text, closed, tail, offset);
    case Quoted(lex, segs, extra) =>
      var q := QuoteOf(lex);
      var open, close := Repeat(q, Delimiters(lex)), Repeat(q, Delimiters(lex) + extra);
      assert Delimiters(lex) == 1 ==> (close + tail)[1..] == tail;
      OpeningStep(lex, segs, close + tail);
      ClosingStep(lex, extra, tail);
      assert (open + (PrintSegs(lex, segs) + (close + tail)))[0] == q;
      StringCut(lex, segs, open, close, tail, offset);
    case Stray(lex, segs) =>
      var open := [QuoteOf(lex)];
      assert open == Repeat(QuoteOf(lex), 1);
      assert ("\n" + tail)[0] == '\n';
      StrayOpening(lex, segs, tail);
      StrayClosing(lex, tail);
      assert (open + (PrintSegs(lex, segs) + ("\n" + tail)))[0] == QuoteOf(lex);
      StringCut(lex, segs, open, "\n", tail, offset);
  }

  lemma StrayOpening(lex: Lex, segs: seq<Seg>, tail: string)
    requires (lex.Basic? || lex.Literal?) && SegsFit(lex, segs)
    ensures Step(Bare, [QuoteOf(lex)] + (PrintSegs(lex, segs) + ("\n" + tail))) == (1, lex)
  {
    hide PrintSegs;
    var q := QuoteOf(lex);
    var rest := PrintSegs(lex, segs) + ("\n" + tail);
    var all := [q] + rest;
    assert all[1..] == rest;
    if segs == [] {
      NoSegs(lex);
      assert rest[0] == '\n';
      assert QuoteRun(rest, q) == 0;
    } else {
      SecondQuote(lex, segs, "\n" + tail);
    }
  }

  lemma NoSegs(lex: Lex)
    ensures PrintSegs(lex, []) == ""
  {
  }

  lemma StrayClosing(lex: Lex, tail: string)
    requires lex.Basic? || lex.Literal?
    ensures Step(lex, "\n" + tail) == (1, Bare)
  {
  }

  /* ----- Main results ----- */

  /** A printed document is cut into exactly its parts' pieces: the scanner is in
      `Comment` on comment text and nowhere else, and outside of every string
      when the string is over. */
  lemma {:induction false} DocumentCut(parts: seq<Part>, offset: nat)
    requires PartsFit(parts)
    ensures Cut(Bare, Print(parts), offset) == Template(DocPieces(parts), Finished)
  {
    hide Cut, Utf8Length, PartFits, PartPieces, PrintPart;
    if parts == [] {
      NothingToCut(Bare, offset);
    } else {
      var at := offset + Utf8Length(PrintPart(parts[0]));
      if |parts| == 1 { assert parts[1..] == []; }
      PartCut(parts[0], Print(parts[1..]), offset);
      DocumentCut(parts[1..], at);
    }
  }

  /** For each character of the source, whether it was read as comment text. */
  function CommentMask(pieces: seq<Piece>): seq<bool> {
    if pieces == [] then []
    else
      (match pieces[0]
       case Copied(lex, text) => Flags(lex.Comment?, |text|)
       case Token(lex, name) => Flags(lex.Comment?, |TokenText(name)|))
      + CommentMask(pieces[1..])
  }

  function Flags(b: bool, n: nat): seq<bool> {
    seq(n, _ => b)
  }

  /** For each printed character, whether it is comment text. */
  function PrintedMask(parts: seq<Part>): seq<bool> {
    if parts == [] then []
    else
      (match parts[0]
       case Remark(text, closed) => [false] + Flags(true, |text| + (if closed then 1 else 0))
       case _ => Flags(false, |PrintPart(parts[0])|))
      + PrintedMask(parts[1..])
  }

  /** The scanner is in a comment on exactly the printed comment text. */
  lemma CommentsAreFound(parts: seq<Part>)
    requires PartsFit(parts)
    ensures CommentMask(Cut(Bare, Print(parts), 0).pieces) == PrintedMask(parts)
    ensures |PrintedMask(parts)| == |Print(parts)|
  {
    hide Cut;
    DocumentCut(parts, 0);
    MaskOfDoc(parts);
  }

  lemma {:induction false} MaskOfConcat(a: seq<Piece>, b: seq<Piece>)
    ensures CommentMask(a + b) == CommentMask(a) + CommentMask(b)
  {
    if a == [] {
      assert a + b == b;
    } else {
      assert (a + b)[1..] == a[1..] + b;
      MaskOfConcat(a[1..], b);
    }
  }

  lemma MaskOfOne(piece: Piece)
    ensures CommentMask([piece])
         == Flags(piece.lex.Comment?, if piece.Copied? then |piece.text| else |TokenText(piece.name)|)
  {
    assert [piece][1..] == [];
  }

  lemma FlagsAdd(b: bool, m: nat, n: nat)
    ensures Flags(b, m) + Flags(b, n) == Flags(b, m + n)
  {
  }

  lemma {:induction false} MaskOfSegs(lex: Lex, segs: seq<Seg>)
    requires !lex.Comment?
    ensures CommentMask(SegsPieces(lex, segs)) == Flags(false, |PrintSegs(lex, segs)|)
  {
    hide CommentMask;
    if segs == [] {
      assert CommentMask([]) == [] by { NoMask(); }
    } else {
      MaskOfSeg(lex, segs[0]);
      MaskOfSegs(lex, segs[1..]);
      MaskOfConcat(SegPieces(lex, segs[0]), SegsPieces(lex, segs[1..]));
      FlagsAdd(false, |PrintSeg(lex, segs[0])|, |PrintSegs(lex, segs[1..])|);
    }
  }

  lemma NoMask()
    ensures CommentMask([]) == []
  {
  }

  lemma MaskOfSeg(lex: Lex, seg: Seg)
    requires !lex.Comment?
    ensures CommentMask(SegPieces(lex, seg)) == Flags(false, |PrintSeg(lex, seg)|)
  {
    hide CommentMask;
    match seg
    case Var(name) => MaskOfOne(Token(lex, name));
    case _ => MaskOfOne(Copied(lex, PrintSeg(lex, seg)));
  }

  lemma {:induction false} MaskOfComment(text: string)
    ensures CommentMask(CommentPieces(text)) == Flags(true, |text|)
  {
    if text != [] {
      assert CommentPieces(text)[1..] == CommentPieces(text[1..]);
      MaskOfComment(text[1..]);
      FlagsAdd(true, 1, |text| - 1);
    }
  }

  lemma MaskOfString(lex: Lex, segs: seq<Seg>, open: string, close: string)
    requires !lex.Comment?
    ensures CommentMask([Copied(Bare, open)] + SegsPieces(lex, segs) + [Copied(lex, close)])
         == Flags(false, |open + PrintSegs(lex, segs) + close|)
  {
    hide CommentMask, SegsPieces, PrintSegs;
    MaskOfConcat([Copied(Bare, open)] + SegsPieces(lex, segs), [Copied(lex, close)]);
    MaskOfConcat([Copied(Bare, open)], SegsPieces(lex, segs));
    MaskOfOne(Copied(Bare, open));
    MaskOfSegs(lex, segs);
    MaskOfOne(Copied(lex, close));
    FlagsAdd(false, |open|, |PrintSegs(lex, segs)|);
    FlagsAdd(false, |open| + |PrintSegs(lex, segs)|, |close|);
  }

  lemma {:induction false} MaskOfDoc(parts: seq<Part>)
    requires PartsFit(parts)
    ensures CommentMask(DocPieces(parts)) == PrintedMask(parts)
    ensures |PrintedMask(parts)| == |Print(parts)|
  {
    hide CommentMask;
    if parts == [] {
      NoMask();
    } else {
      MaskOfDoc(parts[1..]);
      MaskOfConcat(PartPieces(parts[0]), DocPieces(parts[1..]));
      MaskOfPart(parts[0]);
    }
  }

  lemma MaskOfPart(part: Part)
    requires PartFits(part)
    ensures CommentMask(PartPieces(part))
         == match part
            case Remark(text, closed) => [false] + Flags(true, |text| + (if closed then 1 else 0))
            case _ => Flags(false, |PrintPart(part)|)
  {
    hide CommentMask, SegsPieces, PrintSegs, CommentPieces;
    match part
    case Plain(segs) => MaskOfSegs(Bare, segs);
    case Remark(text, closed) =>
      var rest := text + (if closed then "\n" else "");
      MaskOfConcat([Copied(Bare, "#")], CommentPieces(rest));
      MaskOfOne(Copied(Bare, "#"));
      MaskOfComment(rest);
    case Quoted(lex, segs, extra) =>
      MaskOfString(lex, segs, Repeat(QuoteOf(lex), Delimiters(lex)), Repeat(QuoteOf(lex), Delimiters(lex) + extra));
    case Stray(lex, segs) => MaskOfString(lex, segs, [QuoteOf(lex)], "\n");
  }

  /* ----- Substituting into a document ----- */

  function ExpandSegs(lex: Lex, segs: seq<Seg>, env: Env): Result<string, EnvVarError> {
    if segs == [] then Ok("")
    else
      Then(if !segs[0].Var? then Ok(PrintSeg(lex, segs[0]))
           else if segs[0].name in env then Ok(env[segs[0].name])
           else Err(Missing(segs[0].name)),
           ExpandSegs(lex, segs[1..], env))
  }

  /** A part with its variables replaced; a comment is left as it is. */
  function ExpandPart(part: Part, env: Env): Result<string, EnvVarError> {
    match part
    case Plain(segs) => ExpandSegs(Bare, segs, env)
    case Remark(_, _) => Ok(PrintPart(part))
    case Quoted(lex, segs, extra) =>
      Then(Then(Ok(Repeat(QuoteOf(lex), Delimiters(lex))), ExpandSegs(lex, segs, env)),
           Ok(Repeat(QuoteOf(lex), Delimiters(lex) + extra)))
    case Stray(lex, segs) => Then(Then(Ok([QuoteOf(lex)]), ExpandSegs(lex, segs, env)), Ok("\n"))
  }

  function ExpandDoc(parts: seq<Part>, env: Env): Result<string, EnvVarError> {
    if parts == [] then Ok("") else Then(ExpandPart(parts[0], env), ExpandDoc(parts[1..], env))
  }

  /** Substituting into a printed document replaces the variables of its values
      and keys, one by one, and leaves its comments alone. */
  lemma SubstitutionExpands(parts: seq<Part>, env: Env)
    requires PartsFit(parts)
    ensures Fill(Cut(Bare, Print(parts), 0), env) == ExpandDoc(parts, env)
  {
    hide Cut, Fill;
    DocumentCut(parts, 0);
    FillDoc(parts, env);
  }

  /** What a run of pieces comes to. */
  function FillPieces(pieces: seq<Piece>, env: Env): Result<string, EnvVarError> {
    Fill(Template(pieces, Finished), env)
  }

  lemma {:induction false} FillConcat(a: seq<Piece>, b: seq<Piece>, env: Env)
    ensures FillPieces(a + b, env) == Then(FillPieces(a, env), FillPieces(b, env))
  {
    if a == [] {
      assert a + b == b;
      NothingBefore(FillPieces(b, env));
    } else {
      assert (a + b)[1..] == a[1..] + b;
      FillConcat(a[1..], b, env);
      ThenAssociates(Value(a[0], env), FillPieces(a[1..], env), FillPieces(b, env));
    }
  }

  lemma FillOne(piece: Piece, env: Env)
    ensures FillPieces([piece], env) == Value(piece, env)
  {
    assert [piece][1..] == [];
    EmptyTemplate(Finished, env);
    if Value(piece, env).Ok? { assert Value(piece, env).value + "" == Value(piece, env).value; }
  }

  lemma {:induction false} FillSegs(lex: Lex, segs: seq<Seg>, env: Env)
    ensures FillPieces(SegsPieces(lex, segs), env) == ExpandSegs(lex, segs, env)
  {
    if segs != [] {
      FillSegs(lex, segs[1..], env);
      hide FillPieces;
      FillConcat(SegPieces(lex, segs[0]), SegsPieces(lex, segs[1..]), env);
      FillSeg(lex, segs[0], env);
    }
  }

  lemma FillSeg(lex: Lex, seg: Seg, env: Env)
    ensures FillPieces(SegPieces(lex, seg), env)
         == if !seg.Var? then Ok(PrintSeg(lex, seg))
            else if seg.name in env then Ok(env[seg.name])
            else Err(Missing(seg.name))
  {
    hide FillPieces;
    match seg
    case Var(name) => FillOne(Token(lex, name), env);
    case _ => FillOne(Copied(lex, PrintSeg(lex, seg)), env);
  }

  lemma {:induction false} FillComment(text: string, env: Env)
    ensures FillPieces(CommentPieces(text), env) == Ok(text)
  {
    if text != [] {
      assert CommentPieces(text)[1..] == CommentPieces(text[1..]);
      FillComment(text[1..], env);
      assert [text[0]] + text[1..] == text;
    }
  }

  lemma FillString(lex: Lex, segs: seq<Seg>, open: string, close: string, env: Env)
    ensures FillPieces([Copied(Bare, open)] + SegsPieces(lex, segs) + [Copied(lex, close)], env)
         == Then(Then(Ok(open), ExpandSegs(lex, segs, env)), Ok(close))
  {
    hide FillPieces, SegsPieces;
    FillConcat([Copied(Bare, open)] + SegsPieces(lex, segs), [Copied(lex, close)], env);
    FillConcat([Copied(Bare, open)], SegsPieces(lex, segs), env);
    FillOne(Copied(Bare, open), env);
    FillSegs(lex, segs, env);
    FillOne(Copied(lex, close), env);
  }

  lemma FillPart(part: Part, env: Env)
    ensures FillPieces(PartPieces(part), env) == ExpandPart(part, env)
  {
    hide FillPieces, SegsPieces, CommentPieces, ExpandSegs;
    match part
    case Plain(segs) => FillSegs(Bare, segs, env);
    case Remark(text, closed) =>
      var rest := text + (if closed then "\n" else "");
      FillConcat([Copied(Bare, "#")], CommentPieces(rest), env);
      FillOne(Copied(Bare, "#"), env);
      FillComment(rest, env);
      assert "#" + rest == PrintPart(part);
    case Quoted(lex, segs, extra) =>
      FillString(lex, segs, Repeat(QuoteOf(lex), Delimiters(lex)), Repeat(QuoteOf(lex), Delimiters(lex) + extra), env);
    case Stray(lex, segs) => FillString(lex, segs, [QuoteOf(lex)], "\n", env);
  }

  lemma {:induction false} FillDoc(parts: seq<Part>, env: Env)
    ensures FillPieces(DocPieces(parts), env) == ExpandDoc(parts, env)
  {
    if parts != [] {
      FillDoc(parts[1..], env);
      hide FillPieces;
      FillConcat(PartPieces(parts[0]), DocPieces(parts[1..]), env);
      FillPart(parts[0], env);
    }
  }
}
