/** Line numbers: what a parser reports about the converted text is true of the original one. */
module HuJsonLines {
  import opened Wrappers
  import opened HuJson
  import opened HuJsonMeaning
  import opened HuJsonCommas

  /** A token and the number of newlines before it. */
  datatype Mark = Mark(token: Token, line: nat)

  /** The tokens that are no whitespace, comment or comma, with their lines. */
  function Marks(ts: seq<Token>, line: nat): seq<Mark> {
    if ts == [] then []
    else if IsBlank(ts[0]) || ts[0] == Plain(',') then Marks(ts[1..], line + Newlines(Text(ts[0])))
    else [Mark(ts[0], line)] + Marks(ts[1..], line + Newlines(Text(ts[0])))
  }

  // ---------- The same for any way to mark tokens and count their lines ----------

  datatype Ruler = Ruler(height: Token -> nat, marked: Token -> bool)

  /** All that matters to the converter: a comment has as many newlines as its text, a comma has none,
      and comments, commas and whitespace are not marked. */
  ghost predicate CountsLines(r: Ruler) {
    && r.height(COMMA) == 0 && r.height(Plain('\n')) == 1 && (forall x :: r.height(Comment(x)) == Newlines(x))
    && !r.marked(COMMA) && (forall x :: !r.marked(Comment(x))) && forall c :: IsWhitespace(c) ==> !r.marked(Plain(c))
  }

  predicate Unmarked(r: Ruler, ts: seq<Token>) { forall t :: t in ts ==> !r.marked(t) }

  function Placed(r: Ruler, ts: seq<Token>, line: nat): seq<Mark> {
    if ts == [] then []
    else (if r.marked(ts[0]) then [Mark(ts[0], line)] else []) + Placed(r, ts[1..], line + r.height(ts[0]))
  }

  function Total(r: Ruler, ts: seq<Token>): nat { if ts == [] then 0 else r.height(ts[0]) + Total(r, ts[1..]) }

  lemma {:induction false} TotalSnoc(r: Ruler, ts: seq<Token>, t: Token)
    ensures Total(r, ts + [t]) == Total(r, ts) + r.height(t)
  {
    if ts == [] {
      assert [] + [t] == [t] && [t][1..] == [];
    } else {
      assert (ts + [t])[1..] == ts[1..] + [t];
      TotalSnoc(r, ts[1..], t);
    }
  }

  lemma {:induction false} TotalBreaks(r: Ruler, n: nat)
    requires CountsLines(r)
    ensures Total(r, Breaks(n)) == n
  {
    if n > 0 { TotalBreaks(r, n - 1); }
  }

  lemma PlacedCons(r: Ruler, t: Token, rest: seq<Token>, line: nat)
    ensures Placed(r, [t] + rest, line) ==
            (if r.marked(t) then [Mark(t, line)] else []) + Placed(r, rest, line + r.height(t))
  {
    assert ([t] + rest)[1..] == rest;
  }

  /** Unmarked tokens in front only move what follows down. */
  lemma {:induction false} PlacedAfter(r: Ruler, front: seq<Token>, back: seq<Token>, line: nat)
    requires Unmarked(r, front)
    ensures Placed(r, front + back, line) == Placed(r, back, line + Total(r, front))
  {
    if front == [] {
      assert front + back == back;
    } else {
      var t, rest := front[0], front[1..];
      PlacedAfter(r, rest, back, line + r.height(t));
      PlacedCons(r, t, rest + back, line);
      assert front + back == [t] + (rest + back);
    }
  }

  /** A token that is left out or put off, and something placed like `rest` after it. */
  lemma PlacedWithout(r: Ruler, front: seq<Token>, out: seq<Token>, t: Token, rest: seq<Token>, line: nat, at: nat)
    requires Unmarked(r, front) && !r.marked(t)
    requires Placed(r, out, line + Total(r, front)) == Placed(r, rest, at + r.height(t))
    ensures Placed(r, front + out, line) == Placed(r, [t] + rest, at)
  {
    PlacedAfter(r, front, out, line);
    PlacedCons(r, t, rest, at);
  }

  /** A token put out after unmarked ones, and something placed like `rest` after it. */
  lemma PlacedBehind(r: Ruler, front: seq<Token>, t: Token, out: seq<Token>, rest: seq<Token>, line: nat)
    requires Unmarked(r, front)
    requires var next := line + Total(r, front) + r.height(t); Placed(r, out, next) == Placed(r, rest, next)
    ensures Placed(r, front + [t] + out, line) == Placed(r, [t] + rest, line + Total(r, front))
  {
    assert front + [t] + out == front + ([t] + out);
    PlacedAfter(r, front, [t] + out, line);
    PlacedCons(r, t, out, line + Total(r, front));
    PlacedCons(r, t, rest, line + Total(r, front));
  }

  // ---------- What the converter emits ----------

  lemma HeldUnmarked(r: Ruler, held: seq<Token>)
    requires CountsLines(r) && Holdable(held)
    ensures Unmarked(r, held) && (held != [] ==> Unmarked(r, held[1..]) && Total(r, held[1..]) == Total(r, held))
  {
  }

  lemma OneTotal(r: Ruler, t: Token)
    ensures Total(r, [t]) == r.height(t)
  {
    assert [t][1..] == [];
  }

  lemma BreaksUnmarked(r: Ruler, x: string)
    requires CountsLines(r)
    ensures Unmarked(r, Breaks(Newlines(x))) && Total(r, Breaks(Newlines(x))) == r.height(Comment(x)) == Newlines(x)
  {
    TotalBreaks(r, Newlines(x));
  }

  /** `out` is placed as `ts` is, once the lines of `held` are counted in. */
  predicate KeepsLines(r: Ruler, out: seq<Token>, ts: seq<Token>, held: seq<Token>, line: nat) {
    Placed(r, out, line) == Placed(r, ts, line + Total(r, held))
  }

  lemma PastComment(r: Ruler, t: Token, out: seq<Token>, rest: seq<Token>, held: seq<Token>, line: nat)
    requires CountsLines(r) && t.Comment? && KeepsLines(r, out, rest, held, line + Newlines(t.text))
    ensures KeepsLines(r, Breaks(Newlines(t.text)) + out, [t] + rest, held, line)
  {
    BreaksUnmarked(r, t.text);
    PlacedWithout(r, Breaks(Newlines(t.text)), out, t, rest, line, line + Total(r, held));
  }

  lemma PastSpace(r: Ruler, t: Token, out: seq<Token>, rest: seq<Token>, held: seq<Token>, line: nat)
    requires !r.marked(t) && KeepsLines(r, out, rest, held + [t], line)
    ensures KeepsLines(r, out, [t] + rest, held, line)
  {
    TotalSnoc(r, held, t);
    PlacedCons(r, t, rest, line + Total(r, held));
  }

  lemma PastComma(r: Ruler, t: Token, out: seq<Token>, rest: seq<Token>, held: seq<Token>, line: nat)
    requires Unmarked(r, held) && !r.marked(t) && KeepsLines(r, out, rest, [t], line + Total(r, held))
    ensures KeepsLines(r, held + out, [t] + rest, held, line)
  {
    OneTotal(r, t);
    PlacedWithout(r, held, out, t, rest, line, line + Total(r, held));
  }

  lemma PastOther(r: Ruler, front: seq<Token>, t: Token, out: seq<Token>, rest: seq<Token>, held: seq<Token>, line: nat)
    requires Unmarked(r, front) && Total(r, front) == Total(r, held)
    requires KeepsLines(r, out, rest, [], line + Total(r, held) + r.height(t))
    ensures KeepsLines(r, front + [t] + out, [t] + rest, held, line)
  {
    assert Total(r, []) == 0;
    PlacedBehind(r, front, t, out, rest, line);
  }

  lemma {:induction false} FlushKeepsLines(r: Ruler, ts: seq<Token>, held: seq<Token>, line: nat)
    requires CountsLines(r) && Holdable(held)
    ensures KeepsLines(r, Flush(ts, held), ts, held, line)
    decreases |ts|
  {
    HeldUnmarked(r, held);
    if ts == [] {
      PlacedAfter(r, held, [], line);
      assert held + [] == held;
    } else {
      var t, rest := ts[0], ts[1..];
      assert ts == [t] + rest;
      if t.Comment? {
        FlushKeepsLines(r, rest, held, line + Newlines(t.text));
        PastComment(r, t, Flush(rest, held), rest, held, line);
      } else if held != [] && t.Plain? && IsWhitespace(t.c) {
        FlushKeepsLines(r, rest, held + [t], line);
        PastSpace(r, t, Flush(rest, held + [t]), rest, held, line);
      } else if t == COMMA {
        FlushKeepsLines(r, rest, [t], line + Total(r, held));
        PastComma(r, t, Flush(rest, [t]), rest, held, line);
      } else {
        FlushKeepsLines(r, rest, [], line + Total(r, held) + r.height(t));
        PastOther(r, if held != [] && Closes(t) then held[1..] else held, t, Flush(rest, []), rest, held, line);
      }
    }
  }

  // ---------- Counting newlines ----------

  function HeightOf(t: Token): nat { Newlines(Text(t)) }

  predicate IsMarked(t: Token) { Matters(t) && t != COMMA }

  const NEWLINES := Ruler(HeightOf, IsMarked)

  lemma {:induction false} PlacedIsMarks(ts: seq<Token>, line: nat)
    ensures Placed(NEWLINES, ts, line) == Marks(ts, line)
  {
    if ts != [] {
      PlacedIsMarks(ts[1..], line + HeightOf(ts[0]));
      BlankIff(ts[0]);
    }
  }

  lemma NewlinesCounted()
    ensures CountsLines(NEWLINES)
  {
  }

  lemma FlushMarks(ts: seq<Token>)
    ensures Marks(Flush(ts, []), 0) == Marks(ts, 0)
  {
    NewlinesCounted();
    FlushKeepsLines(NEWLINES, ts, [], 0);
    PlacedIsMarks(Flush(ts, []), 0);
    PlacedIsMarks(ts, 0);
  }

  /** Every token of the output that is no whitespace or comma is a token of the input, in order and on
      the same line. */
  lemma LinesKept(s: string)
    requires Lex(s).Ok?
    ensures Converted(s).Ok? && Lex(Converted(s).value).Ok?
    ensures Marks(Lex(Converted(s).value).value, 0) == Marks(Lex(s).value, 0)
  {
    OutputTokens(s);
    FlushMarks(Lex(s).value);
  }
}
