/** `${VAR}` substitution over TOML text: a scanner that knows comments and the
    four string forms, and copies comments through untouched. */
module Substitution {
  import opened Text
  import Bytes

  /** The scanner's state: outside of everything, or inside what. */
  datatype Lex = Bare | Comment | Basic | Literal | MultiBasic | MultiLiteral

  datatype EnvVarError = Unclosed(offset: nat) | InvalidName(name: string) | Missing(name: string)

  type Env = map<string, string>

  /* ----- The scanner ----- */

  function QuoteRun(s: string, quote: char): (n: nat)
    ensures n <= |s|
    ensures forall i :: 0 <= i < n ==> s[i] == quote
    ensures n < |s| ==> s[n] != quote
  {
    if s == [] || s[0] != quote then 0 else 1 + QuoteRun(s[1..], quote)
  }

  /** Three quotes close a multi-line string, with up to two more before them. */
  function MultiLineQuotes(lex: Lex, run: nat): (nat, Lex) {
    if run >= 3 then (if run < 5 then run else 5, Bare) else (run, lex)
  }

  /** Length of the unit at the head of `rest` and the state after it. */
  function Step(lex: Lex, rest: string): (r: (nat, Lex))
    requires rest != []
    ensures 1 <= r.0 <= |rest|
  {
    var c := rest[0];
    match lex
    case Bare =>
      if c == '#' then (1, Comment)
      else if c == '"' then (if QuoteRun(rest, '"') >= 3 then (3, MultiBasic) else (1, Basic))
      else if c == '\'' then (if QuoteRun(rest, '\'') >= 3 then (3, MultiLiteral) else (1, Literal))
      else (1, Bare)
    case Comment => (1, if c == '\n' then Bare else Comment)
    case Basic =>
      if c == '"' || c == '\n' then (1, Bare)
      else if EscapesQuote(rest) then (2, Basic)
      else (1, Basic)
    case Literal => (1, if c == '\'' || c == '\n' then Bare else Literal)
    case MultiBasic =>
      if EscapesQuote(rest) then (2, MultiBasic)
      else if c == '"' then MultiLineQuotes(MultiBasic, QuoteRun(rest, '"'))
      else (1, MultiBasic)
    case MultiLiteral =>
      if c == '\'' then MultiLineQuotes(MultiLiteral, QuoteRun(rest, '\'')) else (1, MultiLiteral)
  }

  /** An escaped quote or an escaped backslash. */
  predicate EscapesQuote(rest: string) {
    |rest| >= 2 && rest[0] == '\\' && (rest[1] == '"' || rest[1] == '\\')
  }

  predicate IsUpper(c: char) {
    'A' <= c <= 'Z'
  }

  predicate IsValidEnvName(s: string) {
    && s != []
    && (IsUpper(s[0]) || s[0] == '_')
    && forall i :: 1 <= i < |s| ==> IsUpper(s[i]) || IsDigit(s[i]) || s[i] == '_'
  }

  predicate OpensToken(rest: string) {
    |rest| >= 2 && rest[0] == '$' && rest[1] == '{'
  }

  /** Bytes of UTF-8; error offsets count bytes. */
  function Utf8Length(s: string): nat {
    if s == [] then 0
    else
      var n := s[|s| - 1] as int;
      Utf8Length(s[..|s| - 1]) + (if n < 0x80 then 1 else if n < 0x800 then 2 else if n < 0x1_0000 then 3 else 4)
  }

  /** Replace every token with its environment value. */
  method SubstituteEnvVars(raw: string, env: Env) returns (r: Result<string, EnvVarError>)
    ensures r == Fill(Cut(Bare, raw, 0), env)
  {
    hide Step, Cut, Fill, IsValidEnvName, SplitOnce, Utf8Length;
    var out := "";
    var lex := Bare;
    var i := 0;
    StartOfText(raw, env);
    while i < |raw|
      invariant 0 <= i <= |raw|
      invariant Fill(Cut(Bare, raw, 0), env) == Then(Ok(out), Remaining(raw, i, lex, env))
    {
      if lex != Comment && OpensToken(raw[i..]) {
        var start := i + 2;
        TokenStep(raw, i, lex, env);
        match SplitOnce(raw[start..], '}')
        case None =>
          return Err(Unclosed(Utf8Length(raw[..i])));
        case Some((name, after)) =>
          if !IsValidEnvName(name) {
            return Err(InvalidName(name));
          }
          if name !in env {
            return Err(Missing(name));
          }
          ThenAssociates(Ok(out), Ok(env[name]), Remaining(raw, start + |name| + 1, lex, env));
          out := out + env[name];
          i := start + |name| + 1;
      } else {
        UnitStep(raw, i, lex, env);
        var (len, next) := Step(lex, raw[i..]);
        ThenAssociates(Ok(out), Ok(raw[i..i + len]), Remaining(raw, i + len, next, env));
        out := out + raw[i..i + len];
        i := i + len;
        lex := next;
      }
    }
    EndOfText(raw, lex, env);
    assert out + "" == out;
    r := Ok(out);
  }

  /** What the text from character `i` on comes to. */
  ghost function Remaining(raw: string, i: nat, lex: Lex, env: Env): Result<string, EnvVarError>
    requires i <= |raw|
  {
    Fill(Cut(lex, raw[i..], Utf8Length(raw[..i])), env)
  }

  lemma StartOfText(raw: string, env: Env)
    ensures Fill(Cut(Bare, raw, 0), env) == Then(Ok(""), Remaining(raw, 0, Bare, env))
  {
    assert raw[0..] == raw;
    NothingBefore(Fill(Cut(Bare, raw, 0), env));
  }

  lemma EndOfText(raw: string, lex: Lex, env: Env)
    ensures Remaining(raw, |raw|, lex, env) == Ok("")
  {
    assert raw[|raw|..] == [];
  }

  lemma TokenStep(raw: string, i: nat, lex: Lex, env: Env)
    requires i < |raw| && lex != Comment && OpensToken(raw[i..])
    ensures
      match SplitOnce(raw[i + 2..], '}')
      case None => Remaining(raw, i, lex, env) == Err(Unclosed(Utf8Length(raw[..i])))
      case Some((name, after)) =>
        if !IsValidEnvName(name) then Remaining(raw, i, lex, env) == Err(InvalidName(name))
        else
          && i + 3 + |name| <= |raw|
          && Remaining(raw, i, lex, env)
             == Then(Value(Token(lex, name), env), Remaining(raw, i + 3 + |name|, lex, env))
  {
    hide Fill, IsValidEnvName, Utf8Length, Step, SplitOnce;
    var offset := Utf8Length(raw[..i]);
    assert raw[i..][2..] == raw[i + 2..];
    match SplitOnce(raw[i + 2..], '}')
    case None => EmptyTemplate(Unterminated(offset), env);
    case Some((name, after)) =>
      if !IsValidEnvName(name) {
        EmptyTemplate(BadName(name), env);
      } else {
        TokenLength(raw, i, name, after);
        FillFirst(Token(lex, name), Cut(lex, after, offset + 3 + |name|), env);
      }
  }

  lemma UnitStep(raw: string, i: nat, lex: Lex, env: Env)
    requires i < |raw| && (lex == Comment || !OpensToken(raw[i..]))
    ensures
      var (len, next) := Step(lex, raw[i..]);
      Remaining(raw, i, lex, env) == Then(Ok(raw[i..i + len]), Remaining(raw, i + len, next, env))
  {
    hide Fill, Utf8Length, Step, OpensToken, Cut;
    CutUnit(lex, raw[i..], Utf8Length(raw[..i]));
    var (len, next) := Step(lex, raw[i..]);
    Slices(raw, i, len);
    Utf8LengthAdds(raw[..i], raw[i..i + len]);
    FillFirst(Copied(lex, raw[i..i + len]), Cut(next, raw[i + len..], Utf8Length(raw[..i + len])), env);
  }

  lemma Slices(raw: string, i: nat, len: nat)
    requires i + len <= |raw|
    ensures raw[i..][len..] == raw[i + len..]
    ensures raw[i..][..len] == raw[i..i + len]
    ensures raw[..i] + raw[i..i + len] == raw[..i + len]
  {
  }

  /* ----- The template a text is, whatever the environment ----- */

  datatype Piece = Copied(lex: Lex, text: string) | Token(lex: Lex, name: string)

  datatype Ending = Finished | Unterminated(offset: nat) | BadName(name: string)

  datatype Template = Template(pieces: seq<Piece>, ending: Ending)

  function Prepend(pieces: seq<Piece>, t: Template): Template {
    Template(pieces + t.pieces, t.ending)
  }

  /** The text cut into copied units and tokens, from byte `offset` on. */
  function Cut(lex: Lex, rest: string, offset: nat): Template
    decreases |rest|
  {
    if rest == [] then Template([], Finished)
    else if lex != Comment && OpensToken(rest) then
      match SplitOnce(rest[2..], '}')
      case None => Template([], Unterminated(offset))
      case Some((name, after)) =>
        assert |rest[2..]| == |name + ['}'] + after|;
        if !IsValidEnvName(name) then Template([], BadName(name))
        else Prepend([Token(lex, name)], Cut(lex, after, offset + 3 + |name|))
    else
      var (len, next) := Step(lex, rest);
      Prepend([Copied(lex, rest[..len])], Cut(next, rest[len..], offset + Utf8Length(rest[..len])))
  }

  function Value(piece: Piece, env: Env): Result<string, EnvVarError> {
    match piece
    case Copied(_, text) => Ok(text)
    case Token(_, name) => if name in env then Ok(env[name]) else Err(Missing(name))
  }

  function Then(a: Result<string, EnvVarError>, b: Result<string, EnvVarError>): Result<string, EnvVarError> {
    if a.Err? then a else if b.Err? then b else Ok(a.value + b.value)
  }

  function Fill(t: Template, env: Env): Result<string, EnvVarError>
    decreases |t.pieces|
  {
    if t.pieces == [] then
      match t.ending
      case Finished => Ok("")
      case Unterminated(offset) => Err(Unclosed(offset))
      case BadName(name) => Err(InvalidName(name))
    else Then(Value(t.pieces[0], env), Fill(Template(t.pieces[1..], t.ending), env))
  }

  lemma FillFirst(piece: Piece, t: Template, env: Env)
    ensures Fill(Prepend([piece], t), env) == Then(Value(piece, env), Fill(t, env))
  {
    assert ([piece] + t.pieces)[1..] == t.pieces;
  }

  lemma EmptyTemplate(ending: Ending, env: Env)
    ensures Fill(Template([], ending), env)
         == match ending
            case Finished => Ok("")
            case Unterminated(offset) => Err(Unclosed(offset))
            case BadName(name) => Err(InvalidName(name))
  {
  }

  lemma NothingBefore(r: Result<string, EnvVarError>)
    ensures Then(Ok(""), r) == r
  {
    if r.Ok? { assert "" + r.value == r.value; }
  }

  lemma ThenAssociates(a: Result<string, EnvVarError>, b: Result<string, EnvVarError>, c: Result<string, EnvVarError>)
    ensures Then(a, Then(b, c)) == Then(Then(a, b), c)
  {
    if a.Ok? && b.Ok? && c.Ok? { assert a.value + (b.value + c.value) == a.value + b.value + c.value; }
  }

  lemma {:induction false} Utf8LengthAdds(a: string, b: string)
    ensures Utf8Length(a + b) == Utf8Length(a) + Utf8Length(b)
  {
    if b == [] {
      assert a + b == a;
    } else {
      Utf8LengthAdds(a, b[..|b| - 1]);
      assert (a + b)[..|a + b| - 1] == a + b[..|b| - 1];
    }
  }

  lemma {:induction false} AsciiLength(s: string)
    requires forall i :: 0 <= i < |s| ==> s[i] as int < 0x80
    ensures Utf8Length(s) == |s|
  {
    if s != [] { AsciiLength(s[..|s| - 1]); }
  }

  function TokenText(name: string): string {
    "${" + name + "}"
  }

  lemma TokenTextLength(name: string)
    requires IsValidEnvName(name)
    ensures Utf8Length(TokenText(name)) == |TokenText(name)| == |name| + 3
  {
    AsciiLength(TokenText(name));
  }

  /** Where a token leaves the scanner. */
  lemma TokenLength(raw: string, i: nat, name: string, after: string)
    requires i + 2 <= |raw| && OpensToken(raw[i..]) && IsValidEnvName(name)
    requires raw[i + 2..] == name + ['}'] + after
    ensures i + 3 + |name| <= |raw| && raw[i + 3 + |name|..] == after
    ensures Utf8Length(raw[..i + 3 + |name|]) == Utf8Length(raw[..i]) + 3 + |name|
  {
    hide Utf8Length, IsValidEnvName, OpensToken;
    var j := i + 3 + |name|;
    assert |raw[i + 2..]| == |name| + 1 + |after|;
    assert raw[j..] == raw[i + 2..][|name| + 1..] == after;
    TokenIsThere(raw, i, name, after);
    TokenTextLength(name);
    Utf8LengthAdds(raw[..i], raw[i..j]);
    assert raw[..i] + raw[i..j] == raw[..j];
  }

  lemma TokenIsThere(raw: string, i: nat, name: string, after: string)
    requires i + 2 <= |raw| && OpensToken(raw[i..]) && raw[i + 2..] == name + ['}'] + after
    ensures i + 3 + |name| <= |raw| && raw[i..i + 3 + |name|] == TokenText(name)
  {
    var j := i + 3 + |name|;
    assert |raw[i + 2..]| == |name| + 1 + |after|;
    assert raw[i..][0] == raw[i] && raw[i..][1] == raw[i + 1];
    assert raw[i + 2..j] == raw[i + 2..][..|name| + 1] == name + ['}'];
    assert raw[i..j] == [raw[i], raw[i + 1]] + raw[i + 2..j];
  }

  /* ----- Substitution is templating ----- */

  function Source(pieces: seq<Piece>): string {
    if pieces == [] then ""
    else (match pieces[0] case Copied(_, text) => text case Token(_, name) => TokenText(name)) + Source(pieces[1..])
  }

  /** The cut loses nothing, and only a finished one has read to the end. */
  lemma {:induction false} CutIsLossless(lex: Lex, rest: string, offset: nat)
    ensures Source(Cut(lex, rest, offset).pieces) <= rest
    ensures Cut(lex, rest, offset).ending.Finished? ==> Source(Cut(lex, rest, offset).pieces) == rest
    decreases |rest|
  {
    hide Step, IsValidEnvName, Utf8Length, SplitOnce, Source, Cut;
    if rest == [] {
      NothingToCut(lex, offset);
    } else if lex != Comment && OpensToken(rest) {
      CutToken(lex, rest, offset);
      match SplitOnce(rest[2..], '}')
      case None => NothingToCut(lex, offset);
      case Some((name, after)) =>
        NothingToCut(lex, offset);
        if IsValidEnvName(name) {
          CutIsLossless(lex, after, offset + 3 + |name|);
          SourceFirst(Token(lex, name), Cut(lex, after, offset + 3 + |name|).pieces);
          PrefixAfter(TokenText(name), Source(Cut(lex, after, offset + 3 + |name|).pieces), after);
        }
    } else {
      CutUnit(lex, rest, offset);
      var (len, next) := Step(lex, rest);
      var more := Cut(next, rest[len..], offset + Utf8Length(rest[..len]));
      CutIsLossless(next, rest[len..], offset + Utf8Length(rest[..len]));
      SourceFirst(Copied(lex, rest[..len]), more.pieces);
      PrefixAfter(rest[..len], Source(more.pieces), rest[len..]);
      assert rest == rest[..len] + rest[len..];
    }
  }

  lemma NothingToCut(lex: Lex, offset: nat)
    ensures Cut(lex, [], offset) == Template([], Finished) && Source([]) == ""
  {
  }

  lemma CutUnit(lex: Lex, rest: string, offset: nat)
    requires rest != [] && (lex.Comment? || !OpensToken(rest))
    ensures
      var (len, next) := Step(lex, rest);
      Cut(lex, rest, offset)
        == Prepend([Copied(lex, rest[..len])], Cut(next, rest[len..], offset + Utf8Length(rest[..len])))
  {
  }

  lemma CutToken(lex: Lex, rest: string, offset: nat)
    requires !lex.Comment? && OpensToken(rest)
    ensures
      match SplitOnce(rest[2..], '}')
      case None => Cut(lex, rest, offset) == Template([], Unterminated(offset))
      case Some((name, after)) =>
        if !IsValidEnvName(name) then Cut(lex, rest, offset) == Template([], BadName(name))
        else
          && rest == TokenText(name) + after
          && Cut(lex, rest, offset) == Prepend([Token(lex, name)], Cut(lex, after, offset + 3 + |name|))
  {
    hide Step, IsValidEnvName, SplitOnce;
    if SplitOnce(rest[2..], '}').Some? {
      var (name, after) := SplitOnce(rest[2..], '}').value;
      assert rest == rest[..2] + rest[2..];
      assert rest[..2] == "${";
    }
  }

  lemma PrefixAfter(a: string, b: string, c: string)
    requires b <= c
    ensures a + b <= a + c
  {
  }

  lemma SourceFirst(piece: Piece, pieces: seq<Piece>)
    ensures Source([piece] + pieces)
         == (match piece case Copied(_, text) => text case Token(_, name) => TokenText(name)) + Source(pieces)
  {
    assert ([piece] + pieces)[1..] == pieces;
  }

  /** No token is ever cut out of a comment. */
  lemma {:induction false} CommentsAreCopied(lex: Lex, rest: string, offset: nat)
    ensures forall piece :: piece in Cut(lex, rest, offset).pieces && piece.lex.Comment? ==> piece.Copied?
    decreases |rest|
  {
    hide Step, IsValidEnvName, Utf8Length, SplitOnce;
    if rest == [] {
    } else if lex != Comment && OpensToken(rest) {
      match SplitOnce(rest[2..], '}')
      case None =>
      case Some((name, after)) =>
        if IsValidEnvName(name) {
          assert |rest[2..]| == |name + ['}'] + after|;
          CommentsAreCopied(lex, after, offset + 3 + |name|);
        }
    } else {
      var (len, next) := Step(lex, rest);
      CommentsAreCopied(next, rest[len..], offset + Utf8Length(rest[..len]));
    }
  }

  /** The first token whose name is not defined. */
  function FirstMissing(pieces: seq<Piece>, names: set<string>): Option<string> {
    if pieces == [] then None
    else if pieces[0].Token? && pieces[0].name !in names then Some(pieces[0].name)
    else FirstMissing(pieces[1..], names)
  }

  /** Copied pieces as they are, tokens as their values. */
  function Instantiate(pieces: seq<Piece>, env: Env): string
    requires FirstMissing(pieces, env.Keys).None?
  {
    if pieces == [] then ""
    else (match pieces[0] case Copied(_, text) => text case Token(_, name) => env[name]) + Instantiate(pieces[1..], env)
  }

  /** The whole result, by the text's cut and the set of defined names: which
      error comes first does not depend on any value, and a value is only ever
      inserted, never read. */
  lemma {:induction false} FillIsTemplating(t: Template, env: Env)
    ensures Fill(t, env)
         == match FirstMissing(t.pieces, env.Keys)
            case Some(name) => Err(Missing(name))
            case None =>
              match t.ending
              case Finished => Ok(Instantiate(t.pieces, env))
              case Unterminated(offset) => Err(Unclosed(offset))
              case BadName(name) => Err(InvalidName(name))
    decreases |t.pieces|
  {
    if t.pieces != [] {
      FillIsTemplating(Template(t.pieces[1..], t.ending), env);
    }
  }

  /** Two environments that define the same names fail alike or succeed alike. */
  lemma SameNamesSameOutcome(raw: string, a: Env, b: Env)
    requires a.Keys == b.Keys
    ensures Fill(Cut(Bare, raw, 0), a).Err? <==> Fill(Cut(Bare, raw, 0), b).Err?
    ensures Fill(Cut(Bare, raw, 0), a).Err? ==> Fill(Cut(Bare, raw, 0), a) == Fill(Cut(Bare, raw, 0), b)
  {
    hide Cut, Fill;
    FillIsTemplating(Cut(Bare, raw, 0), a);
    FillIsTemplating(Cut(Bare, raw, 0), b);
  }

  /** Values that look like tokens are not read again: with every variable set to
      its own token the text comes back unchanged. */
  lemma ValuesAreOpaque(raw: string, env: Env)
    requires Fill(Cut(Bare, raw, 0), env).Ok?
    requires forall name :: name in env ==> env[name] == TokenText(name)
    ensures Fill(Cut(Bare, raw, 0), env) == Ok(raw)
  {
    hide Cut, Fill;
    var t := Cut(Bare, raw, 0);
    FillIsTemplating(t, env);
    InstantiateSelf(t.pieces, env);
    CutIsLossless(Bare, raw, 0);
  }

  lemma {:induction false} InstantiateSelf(pieces: seq<Piece>, env: Env)
    requires FirstMissing(pieces, env.Keys).None?
    requires forall name :: name in env ==> env[name] == TokenText(name)
    ensures Instantiate(pieces, env) == Source(pieces)
  {
    if pieces != [] { InstantiateSelf(pieces[1..], env); }
  }

  /* ----- Tokens on their own ----- */

  const UPPER := "ABCDEFGHIJKLMNOPQRSTUVWXYZ"

  predicate IsLetter(c: char) {
    c in UPPER || c == '_'
  }

  /** A letter or underscore, and then letters, underscores and digits. */
  predicate IsName(s: string) {
    s != [] && IsLetter(s[0]) && forall i :: 1 <= i < |s| ==> IsLetter(s[i]) || s[i] in DIGITS
  }

  lemma UpperIsListed(c: char)
    requires 'A' <= c <= 'Z'
    ensures c in UPPER
  {
    assert UPPER[c as int - 'A' as int] == c;
  }

  lemma ListedIsUpper(c: char)
    requires c in UPPER
    ensures 'A' <= c <= 'Z'
  {
  }

  lemma NamesAreListed(s: string)
    ensures IsValidEnvName(s) <==> IsName(s)
  {
    hide IsDigit;
    forall i | 0 <= i < |s|
      ensures IsUpper(s[i]) <==> s[i] in UPPER
      ensures IsDigit(s[i]) <==> s[i] in DIGITS
    {
      if 'A' <= s[i] <= 'Z' { UpperIsListed(s[i]); }
      if s[i] in UPPER { ListedIsUpper(s[i]); }
      DigitsAreListed(s[i]);
    }
    hide IsUpper;
  }

  /** A token alone comes to its value, exactly when it holds a name and the name
      is defined. */
  lemma LoneToken(name: string, env: Env)
    requires '}' !in name
    ensures Fill(Cut(Bare, "${" + name + "}", 0), env)
         == if !IsName(name) then Err(InvalidName(name))
            else if name in env then Ok(env[name])
            else Err(Missing(name))
  {
    hide Cut, IsValidEnvName, IsName, SplitOnce;
    var rest := "${" + name + "}";
    assert rest[2..] == name + ['}'] + "";
    SplitOnceAt(name, '}', "");
    CutToken(Bare, rest, 0);
    NamesAreListed(name);
    if IsName(name) {
      NothingToCut(Bare, 3 + |name|);
      FillFirst(Token(Bare, name), Template([], Finished), env);
      EmptyTemplate(Finished, env);
      if name in env { assert env[name] + "" == env[name]; }
    } else {
      EmptyTemplate(BadName(name), env);
    }
  }

  /** A token that is not closed is reported at the byte it opens at. */
  lemma {:induction false} UnclosedIsLocated(before: string, rest: string, env: Env, offset: nat)
    requires '}' !in rest && forall i :: 0 <= i < |before| ==> before[i] !in "$#'\""
    ensures Fill(Cut(Bare, before + ("${" + rest), offset), env) == Err(Unclosed(offset + |Bytes.Encode(before)|))
  {
    hide Cut, Fill, SplitOnce, Utf8Length;
    var all := before + ("${" + rest);
    if before == [] {
      assert all == "${" + rest && all[2..] == rest;
      CutToken(Bare, all, offset);
      EmptyTemplate(Unterminated(offset), env);
    } else {
      var tail := before[1..] + ("${" + rest);
      assert all == [before[0]] + tail;
      assert before[0] !in "$#'\"";
      PlainUnit(before[0], tail, offset);
      var next := offset + Utf8Length([before[0]]);
      UnclosedIsLocated(before[1..], rest, env, next);
      FillFirst(Copied(Bare, [before[0]]), Cut(Bare, tail, next), env);
      BytesOfChar(before[0]);
    }
  }

  lemma PlainUnit(c: char, tail: string, offset: nat)
    requires c !in "$#'\""
    ensures Cut(Bare, [c] + tail, offset)
         == Prepend([Copied(Bare, [c])], Cut(Bare, tail, offset + Utf8Length([c])))
  {
    hide Cut, Utf8Length;
    assert "$#'\""[0] == '$' && "$#'\""[1] == '#' && "$#'\""[2] == '\'' && "$#'\""[3] == '"';
    var all := [c] + tail;
    assert all[..1] == [c] && all[1..] == tail;
    CutUnit(Bare, all, offset);
  }

  lemma BytesOfChar(c: char)
    ensures Utf8Length([c]) == |Bytes.EncodeChar(c)|
  {
    assert [c][..0] == [];
  }

  /** Offsets count the bytes of the encoded text. */
  lemma {:induction false} Utf8LengthIsEncoded(s: string)
    ensures Utf8Length(s) == |Bytes.Encode(s)|
  {
    hide Utf8Length;
    if s == [] {
      Utf8LengthAdds("", "");
      assert "" + "" == "";
    } else {
      Utf8LengthIsEncoded(s[1..]);
      Utf8LengthAdds([s[0]], s[1..]);
      assert [s[0]] + s[1..] == s;
      BytesOfChar(s[0]);
    }
  }
}
