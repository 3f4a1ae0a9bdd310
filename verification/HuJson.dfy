/** The HuJSON-to-JSON converter: a single pass over the characters with six states and a
    deferred comma (`ToJson`), proved equal to a two-pass reading of the text: cut it into
    tokens (`Lex`), then forget comments and commas that close nothing (`DropTrailing`). */
module HuJson {
  import opened Wrappers

  datatype Error = UnterminatedString | UnterminatedBlockComment

  datatype Mode = Normal | InString | InStringEscape | InLineComment | InBlockComment | InBlockCommentStar

  // ---------- Reference reading of the text ----------

  /** A plain character, a string literal with its quotes, or a comment with its delimiters. */
  datatype Token = Plain(c: char) | Quoted(text: string) | Comment(text: string)

  /** The Unicode White_Space property. */
  predicate IsWhitespace(c: char) {
    var n := c as int;
    || 0x09 <= n <= 0x0D || n == 0x20 || n == 0x85 || n == 0xA0 || n == 0x1680
    || 0x2000 <= n <= 0x200A || n == 0x2028 || n == 0x2029 || n == 0x202F || n == 0x205F || n == 0x3000
  }

  predicate IsClose(c: char) { c == ']' || c == '}' }

  function Plus(n: nat, m: Option<nat>): Option<nat> {
    match m case None => None case Some(k) => Some(n + k)
  }

  /** Length of a string literal after its opening quote, closing quote included; a backslash
      takes the next character with it. */
  function StringEnd(s: string): (n: Option<nat>)
    ensures n.Some? ==> 0 < n.value <= |s| && s[n.value - 1] == '"'
  {
    if s == [] then None
    else if s[0] == '"' then Some(1)
    else if s[0] == '\\' then if |s| < 2 then None else Plus(2, StringEnd(s[2..]))
    else Plus(1, StringEnd(s[1..]))
  }

  /** Length of a line comment after `//`, newline included; the end of input also ends it. */
  function LineEnd(s: string): (n: nat)
    ensures n <= |s|
  {
    if s == [] then 0 else if s[0] == '\n' then 1 else 1 + LineEnd(s[1..])
  }

  /** Length of a block comment after its opener, through the first star-slash. */
  function BlockEnd(s: string): (n: Option<nat>)
    ensures n.Some? ==> 2 <= n.value <= |s|
  {
    if |s| < 2 then None
    else if s[0] == '*' && s[1] == '/' then Some(2)
    else Plus(1, BlockEnd(s[1..]))
  }

  function Cons(t: Token, r: Result<seq<Token>, Error>): Result<seq<Token>, Error> {
    match r case Err(e) => Err(e) case Ok(ts) => Ok([t] + ts)
  }

  function Lex(s: string): Result<seq<Token>, Error>
    decreases |s|
  {
    if s == [] then Ok([])
    else if s[0] == '"' then
      match StringEnd(s[1..])
      case None => Err(UnterminatedString)
      case Some(n) => Cons(Quoted(s[..n + 1]), Lex(s[n + 1..]))
    else if |s| >= 2 && s[0] == '/' && s[1] == '/' then
      var n := LineEnd(s[2..]);
      Cons(Comment(s[..n + 2]), Lex(s[n + 2..]))
    else if |s| >= 2 && s[0] == '/' && s[1] == '*' then
      match BlockEnd(s[2..])
      case None => Err(UnterminatedBlockComment)
      case Some(n) => Cons(Comment(s[..n + 2]), Lex(s[n + 2..]))
    else Cons(Plain(s[0]), Lex(s[1..]))
  }

  function Text(t: Token): string {
    match t case Plain(c) => [c] case Quoted(x) => x case Comment(x) => x
  }

  function Source(ts: seq<Token>): string {
    if ts == [] then "" else Text(ts[0]) + Source(ts[1..])
  }

  /** Tokens that matter to JSON: no comments, no whitespace between tokens. */
  predicate Matters(t: Token) { t.Quoted? || (t.Plain? && !IsWhitespace(t.c)) }

  function Significant(ts: seq<Token>): seq<Token> {
    if ts == [] then [] else if Matters(ts[0]) then [ts[0]] + Significant(ts[1..]) else Significant(ts[1..])
  }

  const COMMA := Plain(',')

  predicate Closes(t: Token) { t.Plain? && IsClose(t.c) }

  predicate StartsTrailing(ts: seq<Token>) { |ts| > 1 && ts[0] == COMMA && Closes(ts[1]) }

  /** Second pass of the reference: drop each comma whose next significant token closes a bracket. */
  function DropTrailing(ts: seq<Token>): seq<Token> {
    if ts == [] then []
    else if StartsTrailing(ts) then DropTrailing(ts[1..])
    else [ts[0]] + DropTrailing(ts[1..])
  }

  predicate NoTrailing(ts: seq<Token>) {
    ts == [] || (!StartsTrailing(ts) && NoTrailing(ts[1..]))
  }

  predicate NoComments(ts: seq<Token>) { forall t :: t in ts ==> !t.Comment? }

  function Newlines(s: string): nat {
    if s == [] then 0 else (if s[0] == '\n' then 1 else 0) + Newlines(s[1..])
  }

  // ---------- What the converter emits, token by token ----------

  function Breaks(n: nat): (ts: seq<Token>)
    ensures |ts| == n && forall t :: t in ts ==> t == Plain('\n')
  {
    if n == 0 then [] else [Plain('\n')] + Breaks(n - 1)
  }

  /** Output for `ts` while `held` (a comma and the whitespace after it) is still undecided. */
  function Flush(ts: seq<Token>, held: seq<Token>): seq<Token>
    decreases |ts|
  {
    if ts == [] then held
    else
      var t, rest := ts[0], ts[1..];
      if t.Comment? then Breaks(Newlines(t.text)) + Flush(rest, held)
      else if held != [] && t.Plain? && IsWhitespace(t.c) then Flush(rest, held + [t])
      else if held != [] && Closes(t) then held[1..] + [t] + Flush(rest, [])
      else if t == COMMA then held + Flush(rest, [t])
      else held + [t] + Flush(rest, [])
  }

  function Emitted(lexed: Result<seq<Token>, Error>, held: seq<Token>): Result<string, Error> {
    match lexed case Err(e) => Err(e) case Ok(ts) => Ok(Source(Flush(ts, held)))
  }

  /** The converter as a function of the whole input. */
  function Converted(s: string): Result<string, Error> { Emitted(Lex(s), []) }

  // ---------- The single-pass converter ----------

  function Prepend(a: string, r: Result<string, Error>): Result<string, Error> {
    match r case Err(e) => Err(e) case Ok(b) => Ok(a + b)
  }

  function Plains(s: string): (ts: seq<Token>)
    ensures |ts| == |s| && forall i :: 0 <= i < |s| ==> ts[i] == Plain(s[i])
  {
    seq(|s|, i requires 0 <= i < |s| => Plain(s[i]))
  }

  function InComment(end: Option<nat>, s: string, held: seq<Token>): Result<string, Error>
    requires end.Some? ==> end.value <= |s|
  {
    match end
    case None => Err(UnterminatedBlockComment)
    case Some(n) => Prepend(Source(Breaks(Newlines(s[..n]))), Emitted(Lex(s[n..]), held))
  }

  function InLiteral(s: string): Result<string, Error> {
    Literal(StringEnd(s), s)
  }

  function Literal(end: Option<nat>, s: string): Result<string, Error>
    requires end.Some? ==> end.value <= |s|
  {
    match end
    case None => Err(UnterminatedString)
    case Some(n) => Prepend(s[..n], Emitted(Lex(s[n..]), []))
  }

  /** What remains to be produced from `s` in each state of the converter. */
  function Remaining(mode: Mode, held: seq<Token>, s: string): Result<string, Error> {
    match mode
    case Normal => Emitted(Lex(s), held)
    case InString => InLiteral(s)
    case InStringEscape => if s == [] then Err(UnterminatedString) else Prepend(s[..1], InLiteral(s[1..]))
    case InLineComment => InComment(Some(LineEnd(s)), s, held)
    case InBlockComment => InComment(BlockEnd(s), s, held)
    case InBlockCommentStar => InComment(StarEnd(s), s, held)
  }

  /** Length of the rest of a block comment whose last character was a star. */
  function StarEnd(s: string): (n: Option<nat>)
    ensures n.Some? ==> n.value <= |s|
  {
    if |s| > 0 && s[0] == '/' then Some(1) else BlockEnd(s)
  }

  lemma {:induction false} SourceConcat(a: seq<Token>, b: seq<Token>)
    ensures Source(a + b) == Source(a) + Source(b)
  {
    if a == [] {
      assert a + b == b;
    } else {
      assert (a + b)[1..] == a[1..] + b;
      SourceConcat(a[1..], b);
    }
  }

  lemma {:induction false} SourcePlains(s: string)
    ensures Source(Plains(s)) == s
  {
    if s != [] {
      assert Plains(s)[1..] == Plains(s[1..]);
      SourcePlains(s[1..]);
    }
  }

  /** How one token changes what is emitted and what stays undecided. */
  lemma EmitToken(t: Token, r: Result<seq<Token>, Error>, held: seq<Token>)
    ensures Emitted(Cons(t, r), held) ==
            if t.Comment? then Prepend(Source(Breaks(Newlines(t.text))), Emitted(r, held))
            else if held != [] && t.Plain? && IsWhitespace(t.c) then Emitted(r, held + [t])
            else if held != [] && Closes(t) then Prepend(Source(held[1..]) + Text(t), Emitted(r, []))
            else if t == COMMA then Prepend(Source(held), Emitted(r, [t]))
            else Prepend(Source(held) + Text(t), Emitted(r, []))
  {
    if r.Ok? {
      var ts := r.value;
      assert ([t] + ts)[1..] == ts;
      assert Source([t]) == Text(t);
      if t.Comment? {
        SourceConcat(Breaks(Newlines(t.text)), Flush(ts, held));
      } else if held != [] && t.Plain? && IsWhitespace(t.c) {
      } else if held != [] && Closes(t) {
        SourceConcat(held[1..], [t]);
        SourceConcat(held[1..] + [t], Flush(ts, []));
      } else if t == COMMA {
        SourceConcat(held, Flush(ts, [t]));
      } else {
        SourceConcat(held, [t]);
        SourceConcat(held + [t], Flush(ts, []));
      }
    }
  }

  /** A comment opener switches to the comment's own state and leaves the comma undecided. */
  lemma CommentStep(held: seq<Token>, s: string)
    requires |s| > 1 && s[0] == '/' && (s[1] == '/' || s[1] == '*')
    ensures Emitted(Lex(s), held) ==
            InComment(if s[1] == '/' then Some(LineEnd(s[2..])) else BlockEnd(s[2..]), s[2..], held)
  {
    var end := if s[1] == '/' then Some(LineEnd(s[2..])) else BlockEnd(s[2..]);
    if end.Some? {
      var n := end.value;
      assert s[n + 2..] == s[2..][n..];
      assert s[..n + 2][1..][1..] == s[2..][..n];
      assert Newlines(s[..n + 2]) == Newlines(s[..n + 2][1..]) == Newlines(s[2..][..n]);
      EmitToken(Comment(s[..n + 2]), Lex(s[n + 2..]), held);
    }
  }

  /** Reading one character inside a comment emits it exactly when it is a newline. */
  lemma InCommentStep(end: Option<nat>, s: string, held: seq<Token>)
    requires s != [] && (end.Some? ==> end.value < |s|)
    ensures InComment(Plus(1, end), s, held) ==
            Prepend(if s[0] == '\n' then "\n" else "", InComment(end, s[1..], held))
  {
    if end.Some? {
      var n := end.value;
      assert s[..n + 1][1..] == s[1..][..n];
      assert s[n + 1..] == s[1..][n..];
      var k := Newlines(s[1..][..n]);
      assert s[0] == '\n' ==> Breaks(k + 1)[1..] == Breaks(k);
      PrependTwice(if s[0] == '\n' then "\n" else "", Source(Breaks(k)), Emitted(Lex(s[n + 1..]), held));
      assert s[0] != '\n' ==> "" + Source(Breaks(k)) == Source(Breaks(k));
    }
  }

  lemma PrependTwice(a: string, b: string, r: Result<string, Error>)
    ensures Prepend(a, Prepend(b, r)) == Prepend(a + b, r)
    ensures Prepend("", r) == r
  {
    if r.Ok? {
      assert a + (b + r.value) == (a + b) + r.value;
      assert "" + r.value == r.value;
    }
  }

  // One lemma per kind of character read: the output so far followed by what remains never changes.

  lemma ReadSpaceHeld(out: string, buf: string, s: string)
    requires buf != [] && s != [] && IsWhitespace(s[0])
    ensures Prepend(out, Remaining(Normal, Plains(buf), s)) ==
            Prepend(out, Remaining(Normal, Plains(buf + [s[0]]), s[1..]))
  {
    EmitToken(Plain(s[0]), Lex(s[1..]), Plains(buf));
    assert Plains(buf) + [Plain(s[0])] == Plains(buf + [s[0]]);
  }

  lemma ReadCloseHeld(out: string, buf: string, s: string)
    requires buf != [] && s != [] && IsClose(s[0])
    ensures Prepend(out, Remaining(Normal, Plains(buf), s)) ==
            Prepend(out + buf[1..] + [s[0]], Remaining(Normal, [], s[1..]))
  {
    EmitToken(Plain(s[0]), Lex(s[1..]), Plains(buf));
    assert Plains(buf)[1..] == Plains(buf[1..]);
    SourcePlains(buf[1..]);
    PrependTwice(out, buf[1..] + [s[0]], Emitted(Lex(s[1..]), []));
    assert out + (buf[1..] + [s[0]]) == out + buf[1..] + [s[0]];
  }

  predicate OpensComment(s: string) { |s| > 1 && s[0] == '/' && (s[1] == '/' || s[1] == '*') }

  /** Any other character settles the comma as a real one. */
  lemma KeepComma(out: string, buf: string, s: string)
    requires buf != [] && s != [] && !IsWhitespace(s[0]) && !IsClose(s[0]) && !OpensComment(s)
    ensures Prepend(out, Remaining(Normal, Plains(buf), s)) == Prepend(out + buf, Remaining(Normal, [], s))
  {
    var t, r := LexOther(s);
    EmitToken(t, r, Plains(buf));
    EmitToken(t, r, []);
    SourcePlains(buf);
    PrependTwice(out, buf + Text(t), Emitted(r, []));
    PrependTwice(out + buf, "" + Text(t), Emitted(r, []));
    assert out + (buf + Text(t)) == out + buf + ("" + Text(t));
    PrependTwice(out, buf, Emitted(r, [t]));
    PrependTwice(out + buf, "", Emitted(r, [t]));
    PrependTwice(out, buf, Err(UnterminatedString));
  }

  lemma LexOther(s: string) returns (t: Token, r: Result<seq<Token>, Error>)
    requires s != [] && !OpensComment(s)
    ensures Lex(s) == Cons(t, r) && !t.Comment? && (t.Plain? ==> t.c == s[0])
  {
    if s[0] != '"' {
      t, r := Plain(s[0]), Lex(s[1..]);
    } else if StringEnd(s[1..]).Some? {
      var n := StringEnd(s[1..]).value;
      t, r := Quoted(s[..n + 1]), Lex(s[n + 1..]);
    } else {
      t, r := Quoted(""), Err(UnterminatedString);
    }
  }

  lemma ReadQuote(out: string, s: string)
    requires s != [] && s[0] == '"'
    ensures Prepend(out, Remaining(Normal, [], s)) == Prepend(out + ['"'], Remaining(InString, [], s[1..]))
  {
    var end := StringEnd(s[1..]);
    if end.Some? {
      var n := end.value;
      var r := Emitted(Lex(s[n + 1..]), []);
      assert s[n + 1..] == s[1..][n..];
      assert s[..n + 1] == ['"'] + s[1..][..n];
      EmitToken(Quoted(s[..n + 1]), Lex(s[n + 1..]), []);
      assert Source([]) + s[..n + 1] == s[..n + 1];
      PrependTwice(out, s[..n + 1], r);
      PrependTwice(out + ['"'], s[1..][..n], r);
      assert out + s[..n + 1] == out + ['"'] + s[1..][..n];
    }
  }

  lemma ReadPlain(out: string, s: string)
    requires s != [] && s[0] != '"' && !OpensComment(s)
    ensures Prepend(out, Remaining(Normal, [], s)) ==
            if s[0] == ',' then Prepend(out, Remaining(Normal, Plains(","), s[1..]))
            else Prepend(out + [s[0]], Remaining(Normal, [], s[1..]))
  {
    EmitToken(Plain(s[0]), Lex(s[1..]), []);
    assert Plains(",") == [COMMA];
    PrependTwice("", "", Emitted(Lex(s[1..]), [COMMA]));
    assert Source([]) + [s[0]] == [s[0]];
    PrependTwice(out, [s[0]], Emitted(Lex(s[1..]), []));
  }

  lemma ReadClosingQuote(out: string, s: string)
    requires s != [] && s[0] == '"'
    ensures Prepend(out, Remaining(InString, [], s)) == Prepend(out + [s[0]], Remaining(Normal, [], s[1..]))
  {
    assert s[..1] == [s[0]];
    PrependTwice(out, [s[0]], Emitted(Lex(s[1..]), []));
  }

  lemma ReadBackslash(out: string, s: string)
    requires s != [] && s[0] == '\\'
    ensures Prepend(out, Remaining(InString, [], s)) == Prepend(out + [s[0]], Remaining(InStringEscape, [], s[1..]))
  {
    if |s| >= 2 {
      LiteralAfter(StringEnd(s[2..]), s, 2);
      assert s[1..][1..] == s[2..] && s[..2] == [s[0]] + s[1..][..1];
      PrependTwice([s[0]], s[1..][..1], InLiteral(s[2..]));
      PrependTwice(out, [s[0]], Prepend(s[1..][..1], InLiteral(s[2..])));
    }
  }

  lemma ReadInString(out: string, s: string)
    requires s != [] && s[0] != '"' && s[0] != '\\'
    ensures Prepend(out, Remaining(InString, [], s)) == Prepend(out + [s[0]], Remaining(InString, [], s[1..]))
  {
    LiteralAfter(StringEnd(s[1..]), s, 1);
    assert s[..1] == [s[0]];
    PrependTwice(out, [s[0]], InLiteral(s[1..]));
  }

  /** A literal that does not end within its first `k` characters copies them. */
  lemma LiteralAfter(end: Option<nat>, s: string, k: nat)
    requires k <= |s| && (end.Some? ==> k + end.value <= |s|)
    ensures Literal(Plus(k, end), s) == Prepend(s[..k], Literal(end, s[k..]))
  {
    if end.Some? {
      var n := end.value;
      assert s[k..][n..] == s[k + n..];
      assert s[..k + n] == s[..k] + s[k..][..n];
      PrependTwice(s[..k], s[k..][..n], Emitted(Lex(s[k + n..]), []));
    }
  }

  lemma ReadEscaped(out: string, s: string)
    requires s != []
    ensures Prepend(out, Remaining(InStringEscape, [], s)) == Prepend(out + [s[0]], Remaining(InString, [], s[1..]))
  {
    assert s[..1] == [s[0]];
    PrependTwice(out, [s[0]], InLiteral(s[1..]));
  }

  lemma ReadInComment(out: string, mode: Mode, held: seq<Token>, s: string)
    requires s != [] && (mode.InLineComment? || mode.InBlockComment? || mode.InBlockCommentStar?)
    ensures Prepend(out, Remaining(mode, held, s)) ==
            Prepend(if s[0] == '\n' then out + "\n" else out, Remaining(AfterCommentChar(mode, s[0]), held, s[1..]))
  {
    var end := match AfterCommentChar(mode, s[0])
               case Normal => Some(0) case InLineComment => Some(LineEnd(s[1..]))
               case InBlockCommentStar => StarEnd(s[1..]) case _ => BlockEnd(s[1..]);
    assert Remaining(mode, held, s) == InComment(Plus(1, end), s, held);
    InCommentStep(end, s, held);
    InCommentEnd(s[1..], held);
    var r := InComment(end, s[1..], held);
    PrependTwice(out, "\n", r);
    PrependTwice(out, "", r);
  }

  function AfterCommentChar(mode: Mode, c: char): Mode {
    if mode.InLineComment? then if c == '\n' then Normal else mode
    else if c == '*' then InBlockCommentStar
    else if mode.InBlockCommentStar? && c == '/' then Normal
    else InBlockComment
  }

  /** One character of a string or a comment. */
  method ReadInside(before: string, inside: Mode, c: char, ghost held: seq<Token>, ghost s: string)
    returns (out: string, mode: Mode)
    requires s != [] && s[0] == c && !inside.Normal?
    requires inside.InString? || inside.InStringEscape? ==> held == []
    ensures Prepend(before, Remaining(inside, held, s)) == Prepend(out, Remaining(mode, held, s[1..]))
    ensures mode.InString? || mode.InStringEscape? ==> held == []
  {
    out, mode := before, inside;
    match inside
    case InString =>
      if c == '\\' {
        ReadBackslash(out, s);
        mode := InStringEscape;
      } else if c == '"' {
        ReadClosingQuote(out, s);
        mode := Normal;
      } else {
        ReadInString(out, s);
      }
      out := out + [c];
    case InStringEscape =>
      ReadEscaped(out, s);
      out, mode := out + [c], InString;
    case InLineComment =>
      ReadInComment(out, mode, held, s);
      if c == '\n' {
        out, mode := out + "\n", Normal;
      }
    case InBlockComment =>
      ReadInComment(out, mode, held, s);
      if c == '*' {
        mode := InBlockCommentStar;
      } else if c == '\n' {
        out := out + "\n";
      }
    case InBlockCommentStar =>
      ReadInComment(out, mode, held, s);
      if c == '/' {
        mode := Normal;
      } else if c == '*' {
      } else {
        if c == '\n' {
          out := out + "\n";
        }
        mode := InBlockComment;
      }
  }

  /** One character, or the two that open a comment, with no comma held. */
  method ReadNormal(before: string, c: char, input: string, next: nat, ghost s: string)
    returns (out: string, mode: Mode, pending: Option<string>, i: nat)
    requires 0 < next <= |input| && input[next - 1] == c && s == input[next - 1..]
    ensures next <= i <= |input|
    ensures Prepend(before, Emitted(Lex(s), [])) == Prepend(out, Remaining(mode, Held(pending), input[i..]))
    ensures pending.Some? ==> pending.value != [] && mode.Normal?
  {
    out, mode, pending, i := before, Normal, None, next;
    assert s[1..] == input[i..];
    assert i < |input| ==> s[2..] == input[i + 1..] && s[1] == input[i];
    if c == '"' {
      ReadQuote(out, s);
      out, mode := out + [c], InString;
    } else if c == '/' && i < |input| && input[i] == '/' {
      CommentStep([], s);
      i, mode := i + 1, InLineComment;
    } else if c == '/' && i < |input| && input[i] == '*' {
      CommentStep([], s);
      i, mode := i + 1, InBlockComment;
    } else if c == ',' {
      ReadPlain(out, s);
      pending := Some(",");
    } else {
      ReadPlain(out, s);
      out := out + [c];
    }
  }

  /** `to_json`: one pass, one state variable, one deferred comma. */
  method ToJson(input: string) returns (r: Result<string, Error>)
    ensures r == Converted(input)
  {
    var out, mode, pending: Option<string>, i := "", Normal, None, 0;
    assert input[0..] == input;
    PrependTwice("", "", Converted(input));
    while i < |input|
      invariant 0 <= i <= |input|
      invariant pending.Some? ==> pending.value != [] && !mode.InString? && !mode.InStringEscape?
      invariant Converted(input) == Prepend(out, Remaining(mode, Held(pending), input[i..]))
    {
      var c := input[i];
      ghost var s := input[i..];
      i := i + 1;
      assert s[1..] == input[i..];
      assert i < |input| ==> s[2..] == input[i + 1..] && s[1] == input[i];
      match mode
      case Normal =>
        if pending.Some? {
          if IsWhitespace(c) {
            ReadSpaceHeld(out, pending.value, s);
            pending := Some(pending.value + [c]);
            continue;
          }
          if c == '/' && i < |input| && input[i] == '/' {
            CommentStep(Held(pending), s);
            i, mode := i + 1, InLineComment;
            continue;
          }
          if c == '/' && i < |input| && input[i] == '*' {
            CommentStep(Held(pending), s);
            i, mode := i + 1, InBlockComment;
            continue;
          }
          if IsClose(c) {
            ReadCloseHeld(out, pending.value, s);
            out := out + pending.value[1..] + [c];
            pending := None;
            continue;
          }
          KeepComma(out, pending.value, s);
          out := out + pending.value;
          pending := None;
        }
        out, mode, pending, i := ReadNormal(out, c, input, i, s);
      case _ =>
        out, mode := ReadInside(out, mode, c, Held(pending), s);
    }
    assert input[i..] == [];
    AtEnd(mode, pending, out);
    if pending.Some? {
      out := out + pending.value;
    }
    match mode
    case Normal => r := Ok(out);
    case InString => r := Err(UnterminatedString);
    case InStringEscape => r := Err(UnterminatedString);
    case InBlockComment => r := Err(UnterminatedBlockComment);
    case InBlockCommentStar => r := Err(UnterminatedBlockComment);
    case InLineComment => r := Ok(out);
  }

  /** At the end of input the held comma is kept, and only strings and block comments are errors. */
  lemma AtEnd(mode: Mode, pending: Option<string>, out: string)
    ensures Prepend(out, Remaining(mode, Held(pending), "")) ==
            match mode
            case Normal => Ok(if pending.Some? then out + pending.value else out)
            case InLineComment => Ok(if pending.Some? then out + pending.value else out)
            case InString => Err(UnterminatedString)
            case InStringEscape => Err(UnterminatedString)
            case InBlockComment => Err(UnterminatedBlockComment)
            case InBlockCommentStar => Err(UnterminatedBlockComment)
  {
    assert out + "" == out;
    InCommentEnd("", Held(pending));
    if pending.Some? { SourcePlains(pending.value); }
  }

  function Held(pending: Option<string>): seq<Token> {
    match pending case None => [] case Some(buf) => Plains(buf)
  }

  lemma InCommentEnd(s: string, held: seq<Token>)
    ensures InComment(Some(0), s, held) == Emitted(Lex(s), held)
  {
    assert s[..0] == [] && s[0..] == s;
    assert Source(Breaks(0)) == "";
    PrependTwice("", "", Emitted(Lex(s), held));
  }
}
