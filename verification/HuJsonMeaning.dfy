/** What the HuJSON converter means: its output against the two-pass reading, and what it preserves. */
module HuJsonMeaning {
  import opened Wrappers
  import opened HuJson

  // ---------- What the output is ----------

  predicate WellFormed(t: Token) {
    match t
    case Plain(c) => c != '"'
    case Quoted(x) => x != [] && x[0] == '"' && StringEnd(x[1..]) == Some(|x| - 1)
    case Comment(x) => |x| >= 2 && x[0] == '/' && (x[1] == '/' || x[1] == '*')
  }

  /** A lone slash is not followed by something that would make it open a comment. */
  predicate MayFollow(t: Token, u: Token) {
    t == Plain('/') ==> !u.Comment? && u != Plain('/') && u != Plain('*')
  }

  predicate WellCut(ts: seq<Token>) {
    && (forall t :: t in ts ==> WellFormed(t))
    && forall i :: 0 <= i < |ts| - 1 ==> MayFollow(ts[i], ts[i + 1])
  }

  lemma {:induction false} StringEndPrefix(s: string, more: string)
    ensures StringEnd(s).Some? ==> StringEnd(s + more) == StringEnd(s)
                                   && StringEnd(s[..StringEnd(s).value]) == StringEnd(s)
    decreases |s|
  {
    if StringEnd(s).Some? && s[0] != '"' {
      var k := if s[0] == '\\' then 2 else 1;
      StringEndPrefix(s[k..], more);
      assert (s + more)[k..] == s[k..] + more;
      assert s[..StringEnd(s).value][k..] == s[k..][..StringEnd(s[k..]).value];
    }
  }

  /** The first token of a non-empty text. */
  lemma LexFirst(s: string) returns (t: Token, n: nat)
    requires s != [] && Lex(s).Ok?
    ensures 0 < n <= |s| && Text(t) == s[..n] && WellFormed(t)
    ensures Lex(s[n..]).Ok? && Lex(s).value == [t] + Lex(s[n..]).value
    ensures t == Plain('/') && n < |s| ==> s[n] != '/' && s[n] != '*'
  {
    t := Lex(s).value[0];
    n := |Text(t)|;
    if s[0] == '"' {
      StringEndPrefix(s[1..], "");
      assert t.text[1..] == s[1..][..n - 1];
    }
  }

  /** Cutting into tokens loses and reorders nothing. */
  lemma {:induction false} LexKeepsText(s: string)
    requires Lex(s).Ok?
    ensures Source(Lex(s).value) == s
    decreases |s|
  {
    if s != [] {
      var t, n := LexFirst(s);
      LexKeepsText(s[n..]);
      assert s == s[..n] + s[n..];
    }
  }

  lemma WellCutCons(t: Token, rest: seq<Token>)
    requires WellFormed(t) && WellCut(rest) && (rest != [] ==> MayFollow(t, rest[0]))
    ensures WellCut([t] + rest)
  {
  }

  lemma {:induction false} LexIsWellCut(s: string)
    requires Lex(s).Ok?
    ensures WellCut(Lex(s).value)
    decreases |s|
  {
    if s != [] {
      var t, n := LexFirst(s);
      LexIsWellCut(s[n..]);
      if s[n..] != [] {
        var u, m := LexFirst(s[n..]);
        assert Text(u)[0] == s[n];
      }
      WellCutCons(t, Lex(s[n..]).value);
    }
  }

  lemma LexPlain(c: char, more: string)
    requires c != '"'
    requires c == '/' && more != [] ==> more[0] != '/' && more[0] != '*'
    ensures Lex([c] + more) == Cons(Plain(c), Lex(more))
  {
    assert ([c] + more)[1..] == more;
  }

  lemma LexQuoted(t: Token, more: string)
    requires t.Quoted? && WellFormed(t)
    ensures Lex(t.text + more) == Cons(t, Lex(more))
  {
    var s, n := t.text + more, |t.text|;
    StringEndPrefix(t.text[1..], more);
    assert s[1..] == t.text[1..] + more;
    assert StringEnd(s[1..]) == Some(n - 1);
    assert s[n..] == more;
    assert s[..n] == t.text;
  }

  /** Comment-free, well cut tokens are what their own text lexes to. */
  lemma {:induction false} Relex(ts: seq<Token>)
    requires WellCut(ts) && NoComments(ts)
    ensures Lex(Source(ts)) == Ok(ts)
  {
    if ts != [] {
      RelexReady(ts);
      Relex(ts[1..]);
      RelexStep(ts[0], ts[1..]);
      assert ts == [ts[0]] + ts[1..];
    }
  }

  lemma RelexReady(ts: seq<Token>)
    requires WellCut(ts) && NoComments(ts) && ts != []
    ensures WellFormed(ts[0]) && !ts[0].Comment? && WellCut(ts[1..]) && NoComments(ts[1..])
    ensures ts[1..] != [] ==> WellFormed(ts[1..][0]) && MayFollow(ts[0], ts[1..][0])
  {
    WellCutTail(ts);
    assert ts[0] in ts && forall u :: u in ts[1..] ==> u in ts;
    if ts[1..] != [] { WellCutTail(ts[1..]); }
  }

  lemma RelexStep(t: Token, rest: seq<Token>)
    requires WellFormed(t) && !t.Comment? && Lex(Source(rest)) == Ok(rest)
    requires rest != [] ==> WellFormed(rest[0]) && MayFollow(t, rest[0])
    ensures Lex(Text(t) + Source(rest)) == Ok([t] + rest)
  {
    if rest != [] { SourceHead(rest); }
    if t.Quoted? { LexQuoted(t, Source(rest)); } else { LexPlain(t.c, Source(rest)); }
  }

  lemma SourceHead(ts: seq<Token>)
    requires ts != [] && WellFormed(ts[0])
    ensures Source(ts) != [] && Source(ts)[0] == Text(ts[0])[0]
  {
  }

  /** A comma followed by whitespace, or nothing: the only things ever held back. */
  predicate Holdable(held: seq<Token>) {
    held != [] ==> held[0] == COMMA && forall i :: 1 <= i < |held| ==> held[i].Plain? && IsWhitespace(held[i].c)
  }

  /** Neither `/` nor `*` ever comes first out of a held comma. */
  lemma {:induction false} FlushHead(ts: seq<Token>, held: seq<Token>)
    requires Holdable(held) && held != []
    ensures var f := Flush(ts, held); f != [] && MayFollow(Plain('/'), f[0])
    decreases |ts|
  {
    if ts != [] {
      var t := ts[0];
      if t.Comment? {
        FlushHead(ts[1..], held);
      } else if t.Plain? && IsWhitespace(t.c) {
        FlushHead(ts[1..], held + [t]);
      }
    }
  }

  lemma WellCutConcat(a: seq<Token>, b: seq<Token>)
    requires WellCut(a) && WellCut(b)
    requires a != [] && b != [] ==> MayFollow(a[|a| - 1], b[0])
    ensures WellCut(a + b)
  {
  }

  lemma BreaksAreWellCut(n: nat, b: seq<Token>)
    requires WellCut(b)
    ensures WellCut(Breaks(n) + b)
  {
    var a := Breaks(n);
    assert forall i :: 0 <= i < |a| ==> a[i] in a;
    WellCutConcat(a, b);
  }

  /** The head of the output after `t` when nothing is held. */
  lemma FlushAfter(t: Token, rest: seq<Token>)
    requires rest != [] && MayFollow(t, rest[0])
    ensures Flush(rest, []) != [] ==> MayFollow(t, Flush(rest, [])[0])
  {
    if t == Plain('/') {
      if rest[0] == COMMA {
        FlushHead(rest[1..], [COMMA]);
        assert Flush(rest, []) == [] + Flush(rest[1..], [COMMA]);
      } else {
        assert Flush(rest, []) == [] + [rest[0]] + Flush(rest[1..], []);
      }
    }
  }

  lemma WellCutTail(ts: seq<Token>)
    requires WellCut(ts) && ts != []
    ensures WellFormed(ts[0]) && WellCut(ts[1..])
    ensures |ts| > 1 ==> MayFollow(ts[0], ts[1])
  {
    assert forall t :: t in ts[1..] ==> t in ts;
  }

  lemma {:induction false} FlushIsWellCut(ts: seq<Token>, held: seq<Token>)
    requires WellCut(ts) && Holdable(held)
    ensures WellCut(Flush(ts, held)) && NoComments(Flush(ts, held))
    decreases |ts|
  {
    if ts != [] {
      var t, rest := ts[0], ts[1..];
      WellCutTail(ts);
      if t.Comment? {
        FlushIsWellCut(rest, held);
        BreaksAreWellCut(Newlines(t.text), Flush(rest, held));
      } else if held != [] && t.Plain? && IsWhitespace(t.c) {
        FlushIsWellCut(rest, held + [t]);
      } else if t == COMMA {
        FlushIsWellCut(rest, [t]);
        WellCutConcat(held, Flush(rest, [t]));
      } else {
        FlushIsWellCut(rest, []);
        if rest != [] { FlushAfter(t, rest); }
        Settled(if held != [] && Closes(t) then held[1..] else held, t, Flush(rest, []));
      }
    }
  }

  lemma Settled(front: seq<Token>, t: Token, back: seq<Token>)
    requires forall u :: u in front ==> u == COMMA || (u.Plain? && IsWhitespace(u.c))
    requires WellFormed(t) && !t.Comment? && WellCut(back) && NoComments(back)
    requires back != [] ==> MayFollow(t, back[0])
    ensures WellCut(front + [t] + back) && NoComments(front + [t] + back)
  {
    assert forall i :: 0 <= i < |front| ==> front[i] in front;
    WellCutConcat(front, [t]);
    WellCutConcat(front + [t], back);
  }

  lemma {:induction false} SignificantConcat(a: seq<Token>, b: seq<Token>)
    ensures Significant(a + b) == Significant(a) + Significant(b)
  {
    if a == [] {
      assert a + b == b;
    } else {
      assert (a + b)[1..] == a[1..] + b;
      SignificantConcat(a[1..], b);
    }
  }

  lemma {:induction false} InsignificantOnly(ts: seq<Token>)
    requires forall t :: t in ts ==> !Matters(t)
    ensures Significant(ts) == []
  {
    if ts != [] { InsignificantOnly(ts[1..]); }
  }

  lemma DropTrailingCons(t: Token, ts: seq<Token>)
    ensures DropTrailing([t] + ts) == if StartsTrailing([t] + ts) then DropTrailing(ts) else [t] + DropTrailing(ts)
    ensures Closes(t) ==> DropTrailing([COMMA, t] + ts) == DropTrailing([t] + ts)
  {
    assert ([t] + ts)[1..] == ts;
    assert ([COMMA, t] + ts)[1..] == [t] + ts;
  }

  lemma SignificantCons(t: Token, rest: seq<Token>)
    ensures Significant([t] + rest) == if Matters(t) then [t] + Significant(rest) else Significant(rest)
  {
    assert ([t] + rest)[1..] == rest;
  }

  function Deferred(held: seq<Token>): seq<Token> { if held == [] then [] else [COMMA] }

  lemma SignificantHeld(held: seq<Token>)
    requires Holdable(held)
    ensures Significant(held) == Deferred(held)
    ensures held != [] ==> Significant(held[1..]) == []
  {
    if held != [] {
      InsignificantOnly(held[1..]);
      SignificantCons(COMMA, held[1..]);
      assert held == [COMMA] + held[1..];
    }
  }

  /** The deferred comma does exactly what looking ahead to the next significant token does. */
  lemma {:induction false} FlushDropsTrailing(ts: seq<Token>, held: seq<Token>)
    requires Holdable(held)
    ensures Significant(Flush(ts, held)) == DropTrailing(Deferred(held) + Significant(ts))
    decreases |ts|
  {
    SignificantHeld(held);
    if ts == [] {
      assert Deferred(held) + [] == Deferred(held);
    } else {
      var t, rest := ts[0], ts[1..];
      assert ts == [t] + rest;
      SignificantCons(t, rest);
      if t.Comment? {
        FlushDropsTrailing(rest, held);
        InsignificantOnly(Breaks(Newlines(t.text)));
        SignificantConcat(Breaks(Newlines(t.text)), Flush(rest, held));
      } else if held != [] && t.Plain? && IsWhitespace(t.c) {
        FlushDropsTrailing(rest, held + [t]);
      } else if t == COMMA {
        FlushDropsTrailing(rest, [t]);
        SignificantConcat(held, Flush(rest, [t]));
        if held != [] { DropTrailingCons(COMMA, [COMMA] + Significant(rest)); }
        assert [] + ([COMMA] + Significant(rest)) == [COMMA] + Significant(rest);
      } else {
        FlushDropsTrailing(rest, []);
        SignificantOne(t);
        var front := if held != [] && Closes(t) then held[1..] else held;
        SignificantConcat(front, [t]);
        SignificantConcat(front + [t], Flush(rest, []));
        if Matters(t) { DropSettled(held != [], t, Significant(rest)); }
        assert [] + Significant(rest) == Significant(rest);
      }
    }
  }

  /** A token other than a comma settles the comma before it, if any. */
  lemma DropSettled(held: bool, t: Token, sig: seq<Token>)
    requires t != COMMA && Matters(t)
    ensures DropTrailing((if held then [COMMA] else []) + ([t] + sig)) ==
            (if held && !Closes(t) then [COMMA] else []) + [t] + DropTrailing(sig)
  {
    DropTrailingCons(t, sig);
    DropTrailingCons(COMMA, [t] + sig);
    assert [] + ([t] + sig) == [t] + sig;
  }

  lemma SignificantOne(t: Token)
    ensures Significant([t]) == if Matters(t) then [t] else []
  {
    assert [t][1..] == [];
  }

  // ---------- Main results ----------

  /** The conversion equals the two-pass reading: same errors, and a successful output has no
      comment outside a string and, whitespace apart, the input's tokens without trailing commas. */
  lemma TwoPass(s: string)
    ensures Lex(s).Err? <==> Converted(s).Err?
    ensures Lex(s).Err? ==> Converted(s).error == Lex(s).error
    ensures Lex(s).Ok? ==>
              var out := Lex(Converted(s).value);
              out.Ok? && NoComments(out.value) && Significant(out.value) == DropTrailing(Significant(Lex(s).value))
  {
    if Lex(s).Ok? {
      var ts := Lex(s).value;
      LexIsWellCut(s);
      FlushIsWellCut(ts, []);
      Relex(Flush(ts, []));
      FlushDropsTrailing(ts, []);
      assert [] + Significant(ts) == Significant(ts);
    }
  }

  function Literals(ts: seq<Token>): seq<string> {
    if ts == [] then [] else if ts[0].Quoted? then [ts[0].text] + Literals(ts[1..]) else Literals(ts[1..])
  }

  lemma {:induction false} SignificantLiterals(ts: seq<Token>)
    ensures Literals(Significant(ts)) == Literals(ts)
  {
    if ts != [] {
      SignificantLiterals(ts[1..]);
      if Matters(ts[0]) { assert Significant(ts)[1..] == Significant(ts[1..]); }
    }
  }

  lemma {:induction false} DropTrailingLiterals(ts: seq<Token>)
    ensures Literals(DropTrailing(ts)) == Literals(ts)
  {
    if ts != [] {
      DropTrailingLiterals(ts[1..]);
      if !StartsTrailing(ts) { assert DropTrailing(ts)[1..] == DropTrailing(ts[1..]); }
    }
  }

  /** Every string literal survives, unchanged and in order. */
  lemma LiteralsPreserved(s: string)
    requires Converted(s).Ok?
    ensures Lex(Converted(s).value).Ok?
    ensures Literals(Lex(Converted(s).value).value) == Literals(Lex(s).value)
  {
    TwoPass(s);
    var ts := Lex(s).value;
    SignificantLiterals(ts);
    DropTrailingLiterals(Significant(ts));
    SignificantLiterals(Lex(Converted(s).value).value);
  }

  lemma {:induction false} NewlinesConcat(a: string, b: string)
    ensures Newlines(a + b) == Newlines(a) + Newlines(b)
  {
    if a == [] {
      assert a + b == b;
    } else {
      assert (a + b)[1..] == a[1..] + b;
      NewlinesConcat(a[1..], b);
    }
  }

  function Lines(ts: seq<Token>): nat { Newlines(Source(ts)) }

  lemma LinesConcat(a: seq<Token>, b: seq<Token>)
    ensures Lines(a + b) == Lines(a) + Lines(b)
  {
    SourceConcat(a, b);
    NewlinesConcat(Source(a), Source(b));
  }

  lemma {:induction false} LinesBreaks(n: nat)
    ensures Lines(Breaks(n)) == n
  {
    if n > 0 {
      LinesBreaks(n - 1);
      LinesConcat([Plain('\n')], Breaks(n - 1));
      assert Lines([Plain('\n')]) == 1;
    }
  }

  lemma {:induction false} FlushLines(ts: seq<Token>, held: seq<Token>)
    requires Holdable(held)
    ensures Lines(Flush(ts, held)) == Lines(held) + Lines(ts)
    decreases |ts|
  {
    if ts != [] {
      var t, rest := ts[0], ts[1..];
      assert ts == [t] + rest;
      LinesConcat([t], rest);
      assert Source([t]) == Text(t);
      LinesConcat(held, [t]);
      if t.Comment? {
        FlushLines(rest, held);
        LinesBreaks(Newlines(t.text));
        LinesConcat(Breaks(Newlines(t.text)), Flush(rest, held));
      } else if held != [] && t.Plain? && IsWhitespace(t.c) {
        FlushLines(rest, held + [t]);
      } else if held != [] && Closes(t) {
        FlushLines(rest, []);
        LinesConcat(held[..1], held[1..]);
        assert held == held[..1] + held[1..] && held[..1] == [COMMA];
        LinesConcat(held[1..], [t]);
        LinesConcat(held[1..] + [t], Flush(rest, []));
      } else if t == COMMA {
        FlushLines(rest, [t]);
        LinesConcat(held, Flush(rest, [t]));
      } else {
        FlushLines(rest, []);
        LinesConcat(held + [t], Flush(rest, []));
      }
    }
  }

  /** Line numbers in later error messages stay right: no newline is added or lost. */
  lemma NewlinesPreserved(s: string)
    requires Converted(s).Ok?
    ensures Newlines(Converted(s).value) == Newlines(s)
  {
    FlushLines(Lex(s).value, []);
    LexKeepsText(s);
  }

  // ---------- Comments leave their newlines behind ----------

  function Stripped(ts: seq<Token>): seq<Token> {
    if ts == [] then [] else if ts[0].Comment? then Stripped(ts[1..]) else [ts[0]] + Stripped(ts[1..])
  }

  /** The documented output: a line comment removed with its newline, a block comment entirely. */
  function Documented(s: string): Result<string, Error> {
    match Lex(s) case Err(e) => Err(e) case Ok(ts) => Ok(Source(Flush(Stripped(ts), [])))
  }

  predicate OneLineComments(ts: seq<Token>) { forall t :: t in ts && t.Comment? ==> Newlines(t.text) == 0 }

  lemma {:induction false} StrippedLines(ts: seq<Token>)
    ensures Lines(Stripped(ts)) <= Lines(ts)
    ensures Lines(Stripped(ts)) == Lines(ts) ==> OneLineComments(ts)
  {
    if ts != [] {
      var t, rest := ts[0], ts[1..];
      StrippedLines(rest);
      assert ts == [t] + rest && Source([t]) == Text(t);
      LinesConcat([t], rest);
      LinesConcat([t], Stripped(rest));
    }
  }

  lemma {:induction false} StrippedFlush(ts: seq<Token>, held: seq<Token>)
    requires OneLineComments(ts)
    ensures Flush(Stripped(ts), held) == Flush(ts, held)
    decreases |ts|
  {
    if ts != [] {
      var t, rest := ts[0], ts[1..];
      StrippedFlush(rest, held);
      StrippedFlush(rest, held + [t]);
      StrippedFlush(rest, [t]);
      StrippedFlush(rest, []);
      if t.Comment? {
        assert Breaks(0) + Flush(rest, held) == Flush(rest, held);
      } else {
        assert ([t] + Stripped(rest))[1..] == Stripped(rest);
      }
    }
  }

  /** The output is the documented one exactly when no comment contains a newline. */
  lemma AsDocumentedIff(s: string)
    requires Converted(s).Ok?
    ensures Converted(s) == Documented(s) <==> OneLineComments(Lex(s).value)
  {
    var ts := Lex(s).value;
    FlushLines(ts, []);
    FlushLines(Stripped(ts), []);
    StrippedLines(ts);
    if OneLineComments(ts) { StrippedFlush(ts, []); }
  }

  /** The shortest line comment with a newline: the newline stays. */
  lemma NewlineStays()
    ensures Converted("//\n") == Ok("\n") && Documented("//\n") == Ok("")
  {
    var s, t := "//\n", Comment("//\n");
    assert s[2..] == "\n" && LineEnd("\n") == 1 && s[..3] == s && s[3..] == "";
    assert Lex(s) == Ok([t]) by { assert Lex("") == Ok([]) && [t] + [] == [t]; }
    assert [t][1..] == [] && s[1..] == "/\n" && "/\n"[1..] == "\n" && "\n"[1..] == "";
    assert Newlines("\n") == 1 && Newlines(s) == 1;
    assert Breaks(1) == [Plain('\n')] && Flush([t], []) == [Plain('\n')];
    assert Source([Plain('\n')]) == "\n" by { assert [Plain('\n')][1..] == []; }
  }

  lemma NoTrailingTail(held: seq<Token>, t: Token, sig: seq<Token>)
    requires NoTrailing(Deferred(held) + ([t] + sig))
    ensures NoTrailing([t] + sig) && NoTrailing(sig) && (held != [] ==> !Closes(t))
  {
    assert ([t] + sig)[1..] == sig;
    if held == [] {
      assert [] + ([t] + sig) == [t] + sig;
    } else {
      assert ([COMMA] + ([t] + sig))[1..] == [t] + sig;
    }
  }

  /** What is held back after `t`, when `t` does not close a bracket. */
  function HeldAfter(held: seq<Token>, t: Token): seq<Token> {
    if held != [] && t.Plain? && IsWhitespace(t.c) then held + [t] else if t == COMMA then [t] else []
  }

  lemma FlushIdentityStep(t: Token, rest: seq<Token>, held: seq<Token>)
    requires !t.Comment? && !(held != [] && Closes(t))
    requires Flush(rest, HeldAfter(held, t)) == HeldAfter(held, t) + rest
    ensures Flush([t] + rest, held) == held + ([t] + rest)
  {
    assert ([t] + rest)[1..] == rest;
    Regroup(held, t, rest);
    if held != [] && t.Plain? && IsWhitespace(t.c) {
      assert Flush([t] + rest, held) == Flush(rest, held + [t]);
    } else if t == COMMA {
      assert Flush([t] + rest, held) == held + Flush(rest, [t]);
    } else {
      assert Flush([t] + rest, held) == held + [t] + Flush(rest, []);
    }
  }

  lemma Regroup(a: seq<Token>, t: Token, b: seq<Token>)
    ensures a + [t] + b == a + ([t] + b)
    ensures [] + b == b
  {
  }

  lemma {:induction false} FlushIdentity(ts: seq<Token>, held: seq<Token>)
    requires Holdable(held) && NoComments(ts) && NoTrailing(Deferred(held) + Significant(ts))
    ensures Flush(ts, held) == held + ts
    decreases |ts|
  {
    if ts != [] {
      var t, sig := ts[0], Significant(ts[1..]);
      assert [] + sig == sig;
      if Matters(t) { NoTrailingTail(held, t, sig); }
      FlushIdentity(ts[1..], HeldAfter(held, t));
      FlushIdentityStep(t, ts[1..], held);
      assert ts == [t] + ts[1..];
    } else {
      assert held + [] == held;
    }
  }

  /** The converter leaves a text alone exactly when it already is comment-free JSON lexically. */
  lemma IdentityIff(s: string)
    ensures Converted(s) == Ok(s) <==>
            Lex(s).Ok? && NoComments(Lex(s).value) && NoTrailing(Significant(Lex(s).value))
  {
    if Converted(s) == Ok(s) { UnchangedIsPlain(s); }
    if Lex(s).Ok? && NoComments(Lex(s).value) && NoTrailing(Significant(Lex(s).value)) { PlainIsUnchanged(s); }
  }

  lemma UnchangedIsPlain(s: string)
    requires Converted(s) == Ok(s)
    ensures Lex(s).Ok? && NoComments(Lex(s).value) && NoTrailing(Significant(Lex(s).value))
  {
    TwoPass(s);
    DropTrailingFixed(Significant(Lex(s).value));
  }

  lemma PlainIsUnchanged(s: string)
    requires Lex(s).Ok? && NoComments(Lex(s).value) && NoTrailing(Significant(Lex(s).value))
    ensures Converted(s) == Ok(s)
  {
    var ts := Lex(s).value;
    assert [] + Significant(ts) == Significant(ts) && [] + ts == ts;
    FlushIdentity(ts, []);
    LexKeepsText(s);
  }

  lemma {:induction false} DropTrailingShrinks(ts: seq<Token>)
    ensures |DropTrailing(ts)| <= |ts|
  {
    if ts != [] { DropTrailingShrinks(ts[1..]); }
  }

  lemma {:induction false} DropTrailingFixed(ts: seq<Token>)
    ensures DropTrailing(ts) == ts <==> NoTrailing(ts)
  {
    if ts != [] {
      DropTrailingFixed(ts[1..]);
      DropTrailingShrinks(ts[1..]);
      assert ts == [ts[0]] + ts[1..];
    }
  }

  /** Two commas in a row before a closing bracket. */
  predicate NoDoubled(ts: seq<Token>) {
    ts == [] || (!(ts[0] == COMMA && StartsTrailing(ts[1..])) && NoDoubled(ts[1..]))
  }

  lemma {:induction false} DropTrailingTwice(ts: seq<Token>)
    ensures NoTrailing(DropTrailing(ts)) <==> NoDoubled(ts)
    ensures ts != [] ==> DropTrailing(ts) != [] && DropTrailing(ts)[0] == if StartsTrailing(ts) then ts[1] else ts[0]
  {
    if ts != [] {
      DropTrailingTwice(ts[1..]);
      if !StartsTrailing(ts) { assert DropTrailing(ts)[1..] == DropTrailing(ts[1..]); }
    }
  }

  /** Converting twice is converting once exactly when no bracket is closed after two commas. */
  lemma IdempotentIff(s: string)
    requires Converted(s).Ok?
    ensures Converted(Converted(s).value) == Converted(s) <==> NoDoubled(Significant(Lex(s).value))
  {
    TwoPass(s);
    IdentityIff(Converted(s).value);
    DropTrailingTwice(Significant(Lex(s).value));
  }

  lemma LexPlains(s: string)
    requires '"' !in s && '/' !in s
    ensures Lex(s) == Ok(Plains(s))
  {
    assert forall i :: 0 <= i < |s| ==> s[i] in s;
    Relex(Plains(s));
    SourcePlains(s);
  }

  lemma FlushCons(t: Token, rest: seq<Token>, held: seq<Token>)
    requires t.Plain? && !IsWhitespace(t.c)
    ensures Flush([t] + rest, held) ==
            if held != [] && Closes(t) then held[1..] + [t] + Flush(rest, [])
            else if t == COMMA then held + Flush(rest, [t])
            else held + [t] + Flush(rest, [])
  {
    assert ([t] + rest)[1..] == rest;
  }

  /** An open bracket, one character, and the rest. */
  function Bracketed(rest: seq<Token>): seq<Token> { [Plain('[')] + ([Plain('1')] + rest) }

  lemma FlushBracketed(commas: seq<Token>)
    ensures Flush(Bracketed(commas), []) == Bracketed(Flush(commas, []))
  {
    var one := [Plain('1')] + commas;
    FlushCons(Plain('['), one, []);
    FlushCons(Plain('1'), commas, []);
    assert [] + [Plain('[')] + Flush(one, []) == [Plain('[')] + Flush(one, []);
    assert [] + [Plain('1')] + Flush(commas, []) == [Plain('1')] + Flush(commas, []);
  }

  lemma FlushCommas()
    ensures Flush([COMMA, Plain(']')], []) == [Plain(']')]
    ensures Flush([COMMA, COMMA, Plain(']')], []) == [COMMA, Plain(']')]
  {
    var close := Plain(']');
    FlushCons(close, [], [COMMA]);
    FlushCons(COMMA, [close], []);
    FlushCons(COMMA, [close], [COMMA]);
    FlushCons(COMMA, [COMMA, close], []);
    assert [COMMA] + [close] == [COMMA, close] && [COMMA] + [COMMA, close] == [COMMA, COMMA, close];
  }

  /** Two commas before a bracket: one conversion drops one of them, a second one the other. */
  lemma DoubledComma()
    ensures Converted("[1,,]") == Ok("[1,]") && Converted("[1,]") == Ok("[1]")
  {
    FlushCommas();
    FlushBracketed([COMMA, COMMA, Plain(']')]);
    FlushBracketed([COMMA, Plain(']')]);
    assert Plains("[1,,]") == Bracketed([COMMA, COMMA, Plain(']')]);
    assert Plains("[1,]") == Bracketed([COMMA, Plain(']')]);
    assert Plains("[1]") == Bracketed([Plain(']')]);
    LexPlains("[1,,]");
    LexPlains("[1,]");
    SourcePlains("[1,]");
    SourcePlains("[1]");
  }
}
