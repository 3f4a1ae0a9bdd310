/** The reference tokens pinned down from outside: what a literal, a comment and a plain character
    are is written out in characters, and the lexer's reading of a text is the only one there is. */
module HuJsonTokens {
  import opened Wrappers
  import opened HuJson
  import opened HuJsonMeaning

  // ---------- String literals, as in section 7 of RFC 8259 ----------

  /** How many backslashes stand right before position `k`. */
  function Backslashes(s: string, k: nat): nat
    requires k <= |s|
  {
    if k > 0 && s[k - 1] == '\\' then 1 + Backslashes(s, k - 1) else 0
  }

  /** After an opening quote, the first quote not preceded by an odd number of backslashes is the
      `n`-th character. */
  predicate Ends(s: string, n: nat) {
    && 0 < n <= |s| && s[n - 1] == '"' && Backslashes(s, n - 1) % 2 == 0
    && forall k :: 0 <= k < n - 1 && s[k] == '"' ==> Backslashes(s, k) % 2 == 1
  }

  lemma {:induction false} SameParity(s: string, d: nat, k: nat)
    requires d <= k <= |s| && ((d == 1 && s[0] != '\\') || (d == 2 && s[0] == '\\'))
    ensures Backslashes(s, k) % 2 == Backslashes(s[d..], k - d) % 2
  {
    if k > d {
      SameParity(s, d, k - 1);
      assert s[d..][k - d - 1] == s[k - 1];
    } else if d == 2 {
      assert Backslashes(s, 1) == 1;
    }
  }

  lemma EndsLater(s: string, d: nat, n: nat)
    requires d <= |s| && ((d == 1 && s[0] != '\\' && s[0] != '"') || (d == 2 && s[0] == '\\'))
    ensures Ends(s, n) <==> n > d && Ends(s[d..], n - d)
  {
    forall k | d <= k <= |s| { SameParity(s, d, k); }
    assert forall k :: d <= k < |s| ==> s[d..][k - d] == s[k];
    if d == 2 { assert Backslashes(s, 1) == 1; }
    if Ends(s, n) {
      assert n > d;
      forall k | 0 <= k < n - d - 1 && s[d..][k] == '"' ensures Backslashes(s[d..], k) % 2 == 1 {
        assert s[k + d] == '"';
      }
    }
    if n > d && Ends(s[d..], n - d) {
      forall k | 0 <= k < n - 1 && s[k] == '"' ensures Backslashes(s, k) % 2 == 1 {
        if k >= d { assert s[d..][k - d] == '"'; }
      }
    }
  }

  lemma {:induction false} StringEndIff(s: string, n: nat)
    ensures StringEnd(s) == Some(n) <==> Ends(s, n)
    decreases |s|
  {
    if s != [] && s[0] == '\\' {
      if |s| >= 2 {
        EndsLater(s, 2, n);
        if n >= 2 { StringEndIff(s[2..], n - 2); }
      }
    } else if s != [] && s[0] != '"' {
      EndsLater(s, 1, n);
      if n >= 1 { StringEndIff(s[1..], n - 1); }
    }
  }

  lemma {:induction false} BackslashesPrefix(a: string, more: string, k: nat)
    requires k <= |a|
    ensures Backslashes(a + more, k) == Backslashes(a, k)
  {
    if k > 0 { BackslashesPrefix(a, more, k - 1); }
  }

  lemma EndsPrefix(a: string, more: string, n: nat)
    requires n <= |a|
    ensures Ends(a + more, n) <==> Ends(a, n)
  {
    forall k | 0 <= k <= |a| { BackslashesPrefix(a, more, k); }
    assert forall k :: 0 <= k < |a| ==> (a + more)[k] == a[k];
  }

  // ---------- Comments ----------

  /** The line goes through its newline, or through the end of the text. */
  predicate LineStops(s: string, n: nat) {
    n <= |s| && (forall k :: 0 <= k < n - 1 ==> s[k] != '\n') && (n < |s| ==> n > 0 && s[n - 1] == '\n')
  }

  lemma {:induction false} LineEndIff(s: string, n: nat)
    ensures LineEnd(s) == n <==> LineStops(s, n)
  {
    if s != [] && s[0] != '\n' {
      if n > 0 {
        LineEndIff(s[1..], n - 1);
        assert forall k :: 0 <= k < |s| - 1 ==> s[1..][k] == s[k + 1];
        if LineStops(s[1..], n - 1) {
          forall k | 0 <= k < n - 1 ensures s[k] != '\n' { if k > 0 { assert s[1..][k - 1] == s[k]; } }
        }
      }
    }
  }

  predicate StarSlash(s: string, k: nat) { k + 1 < |s| && s[k] == '*' && s[k + 1] == '/' }

  /** The first star-slash ends at position `n`. */
  predicate BlockStops(s: string, n: nat) {
    2 <= n && StarSlash(s, n - 2) && forall k :: 0 <= k < n - 2 ==> !StarSlash(s, k)
  }

  lemma {:induction false} BlockEndIff(s: string, n: nat)
    ensures BlockEnd(s) == Some(n) <==> BlockStops(s, n)
  {
    if |s| >= 2 && !StarSlash(s, 0) {
      if n > 0 {
        BlockEndIff(s[1..], n - 1);
        assert forall k: nat :: StarSlash(s[1..], k) <==> StarSlash(s, k + 1);
        if BlockStops(s[1..], n - 1) {
          forall k | 0 <= k < n - 2 ensures !StarSlash(s, k) { if k > 0 { assert !StarSlash(s[1..], k - 1); } }
        }
      }
    }
  }

  // ---------- Readings ----------

  predicate IsLiteral(x: string) { |x| >= 2 && x[0] == '"' && Ends(x[1..], |x| - 1) }

  predicate IsLineComment(x: string) {
    |x| >= 2 && x[0] == '/' && x[1] == '/' && forall k :: 0 <= k < |x| - 1 ==> x[k] != '\n'
  }

  predicate IsBlockComment(x: string) {
    |x| >= 4 && x[0] == '/' && x[1] == '*' && BlockStops(x[2..], |x| - 2)
  }

  predicate IsToken(t: Token) {
    match t
    case Plain(c) => c != '"'
    case Quoted(x) => IsLiteral(x)
    case Comment(x) => IsLineComment(x) || IsBlockComment(x)
  }

  /** What may come next: after a lone slash nothing that makes it a comment opener, after a line
      comment anything once its newline is in. */
  predicate Fits(t: Token, next: string) {
    && (t == Plain('/') && next != [] ==> next[0] != '/' && next[0] != '*')
    && (t.Comment? && IsLineComment(t.text) && next != [] ==> t.text[|t.text| - 1] == '\n')
  }

  /** A way to read a text as tokens. */
  predicate IsReading(ts: seq<Token>) {
    ts == [] || (IsToken(ts[0]) && Fits(ts[0], Source(ts[1..])) && IsReading(ts[1..]))
  }

  lemma LiteralStep(x: string, more: string)
    requires IsLiteral(x)
    ensures Lex(x + more) == Cons(Quoted(x), Lex(more))
  {
    var s, n := x + more, |x| - 1;
    assert s[1..] == x[1..] + more && s[..n + 1] == x && s[n + 1..] == more;
    EndsPrefix(x[1..], more, n);
    StringEndIff(s[1..], n);
  }

  lemma LineStep(x: string, more: string)
    requires IsLineComment(x) && (more != [] ==> x[|x| - 1] == '\n')
    ensures Lex(x + more) == Cons(Comment(x), Lex(more))
  {
    LineStopsHere(x[2..], more);
    LineEndIff(x[2..] + more, |x| - 2);
    CommentCut(x, more);
  }

  lemma LineStopsHere(body: string, more: string)
    requires (forall k :: 0 <= k < |body| - 1 ==> body[k] != '\n')
    requires more != [] ==> body != [] && body[|body| - 1] == '\n'
    ensures LineStops(body + more, |body|)
  {
  }

  lemma BlockStep(x: string, more: string)
    requires IsBlockComment(x)
    ensures Lex(x + more) == Cons(Comment(x), Lex(more))
  {
    BlockStopsHere(x[2..], more);
    BlockEndIff(x[2..] + more, |x| - 2);
    CommentCut(x, more);
  }

  lemma BlockStopsHere(body: string, more: string)
    requires BlockStops(body, |body|)
    ensures BlockStops(body + more, |body|)
  {
    var n := |body|;
    assert forall k: nat :: k + 1 < n ==> (StarSlash(body + more, k) <==> StarSlash(body, k));
  }

  lemma CommentCut(x: string, more: string)
    requires |x| >= 2 && x[0] == '/'
    requires || (x[1] == '/' && LineEnd(x[2..] + more) == |x| - 2)
             || (x[1] == '*' && BlockEnd(x[2..] + more) == Some(|x| - 2))
    ensures Lex(x + more) == Cons(Comment(x), Lex(more))
  {
    var s := x + more;
    assert s[0] == '/' && s[1] == x[1] && s[2..] == x[2..] + more;
    assert s[..|x|] == x && s[|x|..] == more;
  }

  lemma TokenStep(t: Token, more: string)
    requires IsToken(t) && Fits(t, more)
    ensures Lex(Text(t) + more) == Cons(t, Lex(more))
  {
    match t
    case Plain(c) => LexPlain(c, more);
    case Quoted(x) => LiteralStep(x, more);
    case Comment(x) => if IsLineComment(x) { LineStep(x, more); } else { BlockStep(x, more); }
  }

  lemma {:induction false} ReadingIsLexed(ts: seq<Token>)
    requires IsReading(ts)
    ensures Lex(Source(ts)) == Ok(ts)
  {
    if ts != [] {
      ReadingIsLexed(ts[1..]);
      TokenStep(ts[0], Source(ts[1..]));
      assert ts == [ts[0]] + ts[1..];
    }
  }

  /** The text begins a string or block comment that never ends. */
  predicate NeverEnds(s: string) {
    || (s != [] && s[0] == '"' && StringEnd(s[1..]).None?)
    || (|s| >= 2 && s[0] == '/' && s[1] == '*' && BlockEnd(s[2..]).None?)
  }

  /** The first token cut off a text, and what it may be followed by. */
  lemma FirstToken(s: string) returns (t: Token, n: nat)
    requires s != [] && !NeverEnds(s)
    ensures 0 < n <= |s| && Text(t) == s[..n] && IsToken(t) && Fits(t, s[n..])
    ensures Lex(s) == Cons(t, Lex(s[n..]))
  {
    if s[0] == '"' {
      n := StringEnd(s[1..]).value + 1;
      t := Quoted(s[..n]);
      StringEndIff(s[1..], n - 1);
      assert s[1..] == s[..n][1..] + s[n..];
      EndsPrefix(s[..n][1..], s[n..], n - 1);
    } else if |s| >= 2 && s[0] == '/' && s[1] == '/' {
      n := LineEnd(s[2..]) + 2;
      t := Comment(s[..n]);
      LineEndIff(s[2..], n - 2);
      assert forall k :: 2 <= k < n ==> s[2..][k - 2] == s[k];
    } else if |s| >= 2 && s[0] == '/' && s[1] == '*' {
      n := BlockEnd(s[2..]).value + 2;
      t := Comment(s[..n]);
      BlockCut(s, n);
    } else {
      t, n := Plain(s[0]), 1;
      assert s[..1] == [s[0]];
    }
  }

  lemma BlockCut(s: string, n: nat)
    requires 4 <= n <= |s| && s[0] == '/' && s[1] == '*' && BlockEnd(s[2..]) == Some(n - 2)
    ensures IsBlockComment(s[..n])
  {
    BlockEndIff(s[2..], n - 2);
    assert forall k: nat :: StarSlash(s[..n][2..], k) ==> StarSlash(s[2..], k);
    assert StarSlash(s[..n][2..], n - 4);
  }

  lemma {:induction false} LexIsReading(s: string)
    requires Lex(s).Ok?
    ensures IsReading(Lex(s).value) && Source(Lex(s).value) == s
    decreases |s|
  {
    if s != [] {
      var t, n := FirstToken(s);
      LexIsReading(s[n..]);
      var ts := Lex(s).value;
      assert ts[1..] == Lex(s[n..]).value;
      assert s == s[..n] + s[n..];
    }
  }

  /** A text has at most one reading as literals, comments and plain characters, and the tokens found
      are that reading. */
  lemma LexIff(s: string, ts: seq<Token>)
    ensures Lex(s) == Ok(ts) <==> Source(ts) == s && IsReading(ts)
  {
    if Lex(s) == Ok(ts) { LexIsReading(s); }
    if Source(ts) == s && IsReading(ts) { ReadingIsLexed(ts); }
  }

  /** A text is refused as an unterminated string or comment because, after a readable part, one
      begins that never ends. */
  lemma {:induction false} LexFails(s: string) returns (ts: seq<Token>, rest: string)
    requires Lex(s).Err?
    ensures Source(ts) + rest == s && rest != [] && IsReading(ts)
    ensures match Lex(s).error
            case UnterminatedString => rest[0] == '"' && forall n: nat :: !Ends(rest[1..], n)
            case UnterminatedBlockComment =>
              |rest| >= 2 && rest[0] == '/' && rest[1] == '*' && forall n: nat :: !BlockStops(rest[2..], n)
    decreases |s|
  {
    if NeverEnds(s) {
      ts, rest := [], s;
      if s[0] == '"' {
        forall n: nat ensures !Ends(s[1..], n) { StringEndIff(s[1..], n); }
      } else {
        forall n: nat ensures !BlockStops(s[2..], n) { BlockEndIff(s[2..], n); }
      }
    } else {
      var t, n := FirstToken(s);
      var more;
      more, rest := LexFails(s[n..]);
      ts := [t] + more;
      ReadingCons(t, more, rest, s, n);
    }
  }

  lemma ReadingCons(t: Token, more: seq<Token>, rest: string, s: string, n: nat)
    requires n <= |s| && Text(t) == s[..n] && IsToken(t) && Fits(t, s[n..]) && IsReading(more)
    requires Source(more) + rest == s[n..]
    ensures IsReading([t] + more) && Source([t] + more) + rest == s
  {
    assert ([t] + more)[1..] == more && s == s[..n] + s[n..];
    assert s[..n] + Source(more) + rest == s[..n] + (Source(more) + rest);
    assert Source(more) != [] ==> Source(more)[0] == s[n..][0];
  }
}
