/** What the converter drops, written out in characters: comments, and each comma that nothing but
    whitespace and comments separates from a `]` or a `}`. */
module HuJsonCommas {
  import opened Wrappers
  import opened HuJson
  import opened HuJsonMeaning

  /** The code points with the Unicode property White_Space: tab, line feed, vertical tab, form feed,
      carriage return, space, next line, and the spaces and separators beyond ASCII. */
  const WHITE_SPACE: set<int> := {
    9, 10, 11, 12, 13, 32, 133, 160, 5760, 8192, 8193, 8194, 8195, 8196, 8197, 8198, 8199, 8200, 8201, 8202,
    8232, 8233, 8239, 8287, 12288
  }

  predicate IsBlank(t: Token) { t.Comment? || (t.Plain? && t.c as int in WHITE_SPACE) }

  lemma BlankIff(t: Token)
    ensures IsBlank(t) <==> !Matters(t)
    ensures t in {Plain(' '), Plain('\t'), Plain('\r'), Plain('\n')} ==> IsBlank(t)
  {
  }

  /** Past whitespace and comments, the next token after position `i` closes an array or an object. */
  predicate CloseFollows(ts: seq<Token>, i: nat) {
    exists k :: i < k < |ts| && (ts[k] == Plain(']') || ts[k] == Plain('}')) && AllBlank(ts, i + 1, k)
  }

  predicate AllBlank(ts: seq<Token>, i: nat, k: nat)
    requires k <= |ts|
  {
    forall j :: i <= j < k ==> IsBlank(ts[j])
  }

  /** The tokens from position `i` on that stay, newlines aside. */
  function Survivors(ts: seq<Token>, i: nat): seq<Token>
    requires i <= |ts|
    decreases |ts| - i
  {
    if i == |ts| then []
    else if ts[i].Comment? || ts[i] == Plain('\n') || (ts[i] == Plain(',') && CloseFollows(ts, i)) then
      Survivors(ts, i + 1)
    else [ts[i]] + Survivors(ts, i + 1)
  }

  function WithoutNewlines(ts: seq<Token>): seq<Token> {
    if ts == [] then []
    else if ts[0] == Plain('\n') then WithoutNewlines(ts[1..])
    else [ts[0]] + WithoutNewlines(ts[1..])
  }

  lemma {:induction false} NewlinesConcatenated(a: seq<Token>, b: seq<Token>)
    ensures WithoutNewlines(a + b) == WithoutNewlines(a) + WithoutNewlines(b)
  {
    if a == [] {
      assert a + b == b;
    } else {
      assert (a + b)[1..] == a[1..] + b;
      NewlinesConcatenated(a[1..], b);
    }
  }

  lemma {:induction false} BreaksVanish(n: nat)
    ensures WithoutNewlines(Breaks(n)) == []
  {
    if n > 0 { BreaksVanish(n - 1); }
  }

  lemma OneToken(t: Token)
    ensures WithoutNewlines([t]) == if t == Plain('\n') then [] else [t]
  {
    assert [t][1..] == [];
  }

  // ---------- The same reading, one token at a time ----------

  predicate ClosesSoon(ts: seq<Token>) {
    ts != [] && (Closes(ts[0]) || (!Matters(ts[0]) && ClosesSoon(ts[1..])))
  }

  function Kept(ts: seq<Token>): seq<Token> {
    if ts == [] then []
    else if ts[0].Comment? || ts[0] == Plain('\n') || (ts[0] == COMMA && ClosesSoon(ts[1..])) then Kept(ts[1..])
    else [ts[0]] + Kept(ts[1..])
  }

  lemma {:induction false} ClosesSoonIff(ts: seq<Token>, i: nat)
    requires i < |ts|
    ensures ClosesSoon(ts[i + 1..]) <==> CloseFollows(ts, i)
    decreases |ts| - i
  {
    if i + 1 < |ts| {
      var t := ts[i + 1];
      assert ts[i + 1..][0] == t && ts[i + 1..][1..] == ts[i + 2..];
      ClosesSoonIff(ts, i + 1);
      CloseStep(ts, i);
      BlankIff(t);
    }
  }

  /** Looking one token further ahead. */
  lemma CloseStep(ts: seq<Token>, i: nat)
    requires i + 1 < |ts|
    ensures CloseFollows(ts, i) <==>
            ts[i + 1] == Plain(']') || ts[i + 1] == Plain('}') || (IsBlank(ts[i + 1]) && CloseFollows(ts, i + 1))
  {
    if CloseFollows(ts, i) {
      var k :| i < k < |ts| && (ts[k] == Plain(']') || ts[k] == Plain('}')) && AllBlank(ts, i + 1, k);
      if k > i + 1 { assert AllBlank(ts, i + 2, k); }
    }
    if ts[i + 1] == Plain(']') || ts[i + 1] == Plain('}') {
      assert AllBlank(ts, i + 1, i + 1);
    } else if IsBlank(ts[i + 1]) && CloseFollows(ts, i + 1) {
      var k :| i + 1 < k < |ts| && (ts[k] == Plain(']') || ts[k] == Plain('}')) && AllBlank(ts, i + 2, k);
      assert AllBlank(ts, i + 1, k);
    }
  }

  lemma {:induction false} KeptSurvives(ts: seq<Token>, i: nat)
    requires i <= |ts|
    ensures Kept(ts[i..]) == Survivors(ts, i)
    decreases |ts| - i
  {
    if i < |ts| {
      assert ts[i..][0] == ts[i] && ts[i..][1..] == ts[i + 1..];
      ClosesSoonIff(ts, i);
      KeptSurvives(ts, i + 1);
    }
  }

  // ---------- What the converter emits ----------

  lemma SnocHeld(held: seq<Token>, t: Token)
    requires held != []
    ensures WithoutNewlines(held + [t]) == WithoutNewlines(held) + WithoutNewlines([t])
    ensures WithoutNewlines((held + [t])[1..]) == WithoutNewlines(held[1..]) + WithoutNewlines([t])
  {
    NewlinesConcatenated(held, [t]);
    NewlinesConcatenated(held[1..], [t]);
    assert (held + [t])[1..] == held[1..] + [t];
  }

  /** What is left of a comma and the whitespace after it when `ts` comes next. */
  function Settled(held: seq<Token>, ts: seq<Token>): seq<Token> {
    if held != [] && ClosesSoon(ts) then held[1..] else held
  }

  predicate EmitsKept(ts: seq<Token>, held: seq<Token>) {
    WithoutNewlines(Flush(ts, held)) == WithoutNewlines(Settled(held, ts)) + Kept(ts)
  }

  lemma PastComment(ts: seq<Token>, held: seq<Token>)
    requires ts != [] && ts[0].Comment? && EmitsKept(ts[1..], held)
    ensures EmitsKept(ts, held)
  {
    var breaks := Breaks(Newlines(ts[0].text));
    BreaksVanish(Newlines(ts[0].text));
    NewlinesConcatenated(breaks, Flush(ts[1..], held));
    assert Settled(held, ts) == Settled(held, ts[1..]);
  }

  lemma KeptHead(ts: seq<Token>)
    requires ts != [] && !ts[0].Comment? && ts[0] != COMMA
    ensures Kept(ts) == WithoutNewlines([ts[0]]) + Kept(ts[1..])
  {
    OneToken(ts[0]);
  }

  lemma SettledSpace(ts: seq<Token>, held: seq<Token>)
    requires ts != [] && held != [] && !Matters(ts[0])
    ensures WithoutNewlines(Settled(held + [ts[0]], ts[1..])) ==
            WithoutNewlines(Settled(held, ts)) + WithoutNewlines([ts[0]])
  {
    SnocHeld(held, ts[0]);
  }

  lemma PastSpace(ts: seq<Token>, held: seq<Token>)
    requires ts != [] && held != [] && ts[0].Plain? && IsWhitespace(ts[0].c) && EmitsKept(ts[1..], held + [ts[0]])
    ensures EmitsKept(ts, held)
  {
    SettledSpace(ts, held);
    KeptHead(ts);
    Regrouped(WithoutNewlines(Settled(held, ts)), WithoutNewlines([ts[0]]), Kept(ts[1..]));
  }

  lemma Regrouped(a: seq<Token>, b: seq<Token>, c: seq<Token>)
    ensures (a + b) + c == a + (b + c)
  {
  }

  lemma PastComma(ts: seq<Token>, held: seq<Token>)
    requires ts != [] && ts[0] == COMMA && EmitsKept(ts[1..], [ts[0]])
    ensures EmitsKept(ts, held)
  {
    var t, rest := ts[0], ts[1..];
    OneToken(t);
    assert [t][1..] == [];
    assert WithoutNewlines(Settled([t], rest)) + Kept(rest) == Kept(ts);
    NewlinesConcatenated(held, Flush(rest, [t]));
  }

  lemma FlushOther(ts: seq<Token>, held: seq<Token>)
    requires ts != [] && !ts[0].Comment? && ts[0] != COMMA && !(held != [] && ts[0].Plain? && IsWhitespace(ts[0].c))
    ensures Flush(ts, held) == Settled(held, ts) + [ts[0]] + Flush(ts[1..], [])
  {
  }

  lemma NothingHeld(ts: seq<Token>)
    requires EmitsKept(ts, [])
    ensures WithoutNewlines(Flush(ts, [])) == Kept(ts)
  {
  }

  /** One token after a settled comma, and something that reads as `kept` after it. */
  lemma Joined(front: seq<Token>, t: Token, out: seq<Token>, kept: seq<Token>)
    requires WithoutNewlines(out) == kept
    ensures WithoutNewlines(front + [t] + out) == WithoutNewlines(front) + (WithoutNewlines([t]) + kept)
  {
    NewlinesConcatenated(front, [t]);
    NewlinesConcatenated(front + [t], out);
  }

  /** Any other token settles the comma held before it. */
  lemma PastOther(ts: seq<Token>, held: seq<Token>)
    requires ts != [] && !ts[0].Comment? && ts[0] != COMMA && !(held != [] && ts[0].Plain? && IsWhitespace(ts[0].c))
    requires EmitsKept(ts[1..], [])
    ensures EmitsKept(ts, held)
  {
    NothingHeld(ts[1..]);
    Joined(Settled(held, ts), ts[0], Flush(ts[1..], []), Kept(ts[1..]));
    KeptHead(ts);
    FlushOther(ts, held);
  }

  lemma {:induction false} FlushKept(ts: seq<Token>, held: seq<Token>)
    requires Holdable(held)
    ensures EmitsKept(ts, held)
    decreases |ts|
  {
    if ts == [] {
    } else if ts[0].Comment? {
      FlushKept(ts[1..], held);
      PastComment(ts, held);
    } else if held != [] && ts[0].Plain? && IsWhitespace(ts[0].c) {
      FlushKept(ts[1..], held + [ts[0]]);
      PastSpace(ts, held);
    } else if ts[0] == COMMA {
      FlushKept(ts[1..], [ts[0]]);
      PastComma(ts, held);
    } else {
      FlushKept(ts[1..], []);
      PastOther(ts, held);
    }
  }

  /** The output reads back as the tokens it was put together from. */
  lemma OutputTokens(s: string)
    requires Lex(s).Ok?
    ensures Converted(s).Ok? && Lex(Converted(s).value) == Ok(Flush(Lex(s).value, []))
  {
    LexIsWellCut(s);
    FlushIsWellCut(Lex(s).value, []);
    Relex(Flush(Lex(s).value, []));
  }

  /** For every text that reads as tokens, newlines aside, the output reads as the input's tokens
      without comments and without each comma that only whitespace and comments separate from `]` or `}`. */
  lemma DroppedIff(s: string)
    requires Lex(s).Ok?
    ensures Converted(s).Ok? && Lex(Converted(s).value).Ok?
    ensures WithoutNewlines(Lex(Converted(s).value).value) == Survivors(Lex(s).value, 0)
  {
    var ts := Lex(s).value;
    OutputTokens(s);
    FlushKept(ts, []);
    KeptSurvives(ts, 0);
    assert ts[0..] == ts;
  }
}
