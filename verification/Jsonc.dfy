/** The JSONC comment stripper: a character-level state machine, and what it does to the
    stream of string literals, code and comments that a text consists of. */
module Jsonc {

  // ----- where strings and comments end

  const QUOTE: char := "\""[0]
  const BACKSLASH: char := "\\"[0]

  /** Length of the string body at the front of t: up to the first unescaped quote, or all of t. */
  function BodyLength(t: string, escape: bool): (n: nat)
    ensures n <= |t|
  {
    if t == "" then 0
    else if escape then 1 + BodyLength(t[1..], false)
    else if t[0] == BACKSLASH then 1 + BodyLength(t[1..], true)
    else if t[0] == QUOTE then 0
    else 1 + BodyLength(t[1..], false)
  }

  predicate IsNewline(c: char) { c == '\r' || c == '\n' }

  /** Distance to the first line break, or all of t. */
  function LineLength(t: string): (n: nat)
    ensures n <= |t|
  {
    if t == "" || IsNewline(t[0]) then 0 else 1 + LineLength(t[1..])
  }

  predicate ClosesBlock(t: string) { |t| >= 2 && t[0] == '*' && t[1] == '/' }

  /** Distance to the first closing mark of a block comment, or all of t. */
  function BlockLength(t: string): (n: nat)
    ensures n <= |t|
  {
    if t == "" || ClosesBlock(t) then 0 else 1 + BlockLength(t[1..])
  }

  function Drop(t: string, n: nat): string {
    if n <= |t| then t[n..] else ""
  }

  predicate OpensLine(t: string) { |t| >= 2 && t[0] == '/' && t[1] == '/' }

  predicate OpensBlock(t: string) { |t| >= 2 && t[0] == '/' && t[1] == '*' }

  // ----- the stripper as a state machine

  function Strip(t: string, inString: bool, escape: bool): string
    decreases |t|
  {
    if t == "" then ""
    else if inString then
      [t[0]] + Strip(t[1..], escape || t[0] != QUOTE, !escape && t[0] == BACKSLASH)
    else if t[0] == QUOTE then [t[0]] + Strip(t[1..], true, false)
    else if OpensLine(t) then Strip(t[2 + LineLength(t[2..])..], false, false)
    else if OpensBlock(t) then Strip(Drop(t, BlockLength(t[2..]) + 4), false, false)
    else [t[0]] + Strip(t[1..], false, false)
  }

  function StripJsonc(t: string): string { Strip(t, false, false) }

  method SkipLine(text: string, start: nat) returns (i: nat)
    requires start <= |text|
    ensures i == start + LineLength(text[start..])
  {
    i := start;
    while i < |text| && !IsNewline(text[i])
      invariant start <= i <= |text|
      invariant LineLength(text[start..]) == i - start + LineLength(text[i..])
    {
      assert text[i..][1..] == text[i + 1..];
      i := i + 1;
    }
  }

  method SkipBlock(text: string, start: nat) returns (i: nat)
    requires start <= |text|
    ensures Drop(text, i) == Drop(text, start + BlockLength(text[start..]) + 2)
  {
    i := start;
    while i + 1 < |text| && !(text[i] == '*' && text[i + 1] == '/')
      invariant start <= i <= |text|
      invariant BlockLength(text[start..]) == i - start + BlockLength(text[i..])
    {
      assert text[i..][1..] == text[i + 1..];
      i := i + 1;
    }
    if i < |text| { assert text[i..][1..] == text[i + 1..]; }
    i := i + 2;
  }

  lemma SkipBlockAdvances(text: string, i: nat, j: nat)
    requires i + 2 <= |text| && Drop(text, j) == Drop(text, i + 2 + BlockLength(text[i + 2..]) + 2)
    ensures j > i
  {
    assert |Drop(text, j)| < |text| - i;
  }

  lemma DropFrom(text: string, i: nat, n: nat)
    requires i <= |text|
    ensures Drop(text[i..], n) == Drop(text, i + n)
  {}

  lemma StepInside(t: string, escape: bool)
    requires t != ""
    ensures Strip(t, true, escape) == [t[0]] + Strip(t[1..], escape || t[0] != QUOTE, !escape && t[0] == BACKSLASH)
  {}

  lemma StepQuote(t: string)
    requires t != "" && t[0] == QUOTE
    ensures StripJsonc(t) == [QUOTE] + Strip(t[1..], true, false)
  {}

  lemma StepLine(t: string)
    requires OpensLine(t)
    ensures StripJsonc(t) == StripJsonc(t[2 + LineLength(t[2..])..])
  {}

  lemma StepBlock(t: string)
    requires OpensBlock(t)
    ensures StripJsonc(t) == StripJsonc(Drop(t, BlockLength(t[2..]) + 4))
  {}

  lemma StepCode(t: string)
    requires t != "" && t[0] != QUOTE && !OpensLine(t) && !OpensBlock(t)
    ensures StripJsonc(t) == [t[0]] + StripJsonc(t[1..])
  {}

  /** The source's loop over i, in_string and escape. */
  method StripJsoncComments(text: string) returns (out: string)
    ensures out == StripJsonc(text)
  {
    out := "";
    var i, inString, escape := 0, false, false;
    while i < |text|
      invariant !inString ==> !escape
      invariant out + Strip(Drop(text, i), inString, escape) == StripJsonc(text)
      decreases |text| - i
    {
      i, inString, escape, out := Advance(text, i, inString, escape, out);
    }
  }

  /** One pass through the loop body. */
  method Advance(text: string, at: nat, wasInString: bool, wasEscaped: bool, soFar: string)
      returns (i: nat, inString: bool, escape: bool, out: string)
    requires at < |text| && (!wasInString ==> !wasEscaped)
    ensures i > at && (!inString ==> !escape)
    ensures out + Strip(Drop(text, i), inString, escape) == soFar + Strip(Drop(text, at), wasInString, wasEscaped)
  {
    i, inString, escape, out := at, wasInString, wasEscaped, soFar;
    var ch := text[i];
    ghost var t := text[at..];
    DropFrom(text, at, 1);
    if inString {
      StepInside(t, escape);
      out := out + [ch];
      if escape {
        escape := false;
      } else if ch == BACKSLASH {
        escape := true;
      } else if ch == QUOTE {
        inString := false;
      }
      i := i + 1;
      Emit(soFar, ch, Strip(Drop(text, i), inString, escape));
    } else if ch == QUOTE {
      StepQuote(t);
      inString := true;
      out := out + [ch];
      i := i + 1;
      Emit(soFar, ch, Strip(Drop(text, i), true, false));
    } else if ch == '/' && i + 1 < |text| && (text[i + 1] == '/' || text[i + 1] == '*') {
      i := SkipComment(text, at);
    } else {
      StepCode(t);
      out := out + [ch];
      i := i + 1;
      Emit(soFar, ch, StripJsonc(Drop(text, i)));
    }
  }

  lemma Emit(soFar: string, ch: char, later: string)
    ensures soFar + [ch] + later == soFar + ([ch] + later)
  {}

  method SkipComment(text: string, at: nat) returns (i: nat)
    requires at + 1 < |text| && text[at] == '/' && (text[at + 1] == '/' || text[at + 1] == '*')
    ensures i > at && StripJsonc(Drop(text, i)) == StripJsonc(text[at..])
  {
    ghost var t := text[at..];
    assert t[2..] == text[at + 2..];
    if text[at + 1] == '/' {
      StepLine(t);
      i := SkipLine(text, at + 2);
      DropFrom(text, at, i - at);
    } else {
      i := SkipBlock(text, at + 2);
      BlockSkipped(text, at, i);
      SkipBlockAdvances(text, at, i);
    }
  }

  lemma BlockSkipped(text: string, at: nat, i: nat)
    requires at + 1 < |text| && OpensBlock(text[at..])
    requires Drop(text, i) == Drop(text, at + 2 + BlockLength(text[at + 2..]) + 2)
    ensures StripJsonc(Drop(text, i)) == StripJsonc(text[at..])
  {
    var t := text[at..];
    assert t[2..] == text[at + 2..];
    StepBlock(t);
    DropFrom(text, at, BlockLength(t[2..]) + 4);
  }

  // ----- streams of tokens

  datatype Token =
    | Code(c: char)
    | Literal(body: string)          // "body"
    | OpenLiteral(body: string)      // a string the text ends in
    | LineComment(body: string)
    | BlockComment(body: string)
    | OpenBlock(body: string)        // a block comment the text ends in

  predicate IsComment(k: Token) { k.LineComment? || k.BlockComment? || k.OpenBlock? }

  function RenderToken(k: Token): (s: string)
    ensures s != ""
  {
    match k
    case Code(c) => [c]
    case Literal(body) => [QUOTE] + body + [QUOTE]
    case OpenLiteral(body) => [QUOTE] + body
    case LineComment(body) => ['/', '/'] + body
    case BlockComment(body) => ['/', '*'] + body + ['*', '/']
    case OpenBlock(body) => ['/', '*'] + body
  }

  function Render(ks: seq<Token>): string {
    if ks == [] then "" else RenderToken(ks[0]) + Render(ks[1..])
  }

  /** What may follow token k, and what its body may hold, for the stream to read back. */
  ghost predicate FitsBefore(k: Token, after: string) {
    match k
    case Code(c) => c != QUOTE && (c == '/' ==> after == "" || (after[0] != '/' && after[0] != '*'))
    case Literal(body) => BodyLength(body + [QUOTE], false) == |body|
    case OpenLiteral(body) => after == "" && BodyLength(body, false) == |body|
    case LineComment(body) => LineLength(body) == |body| && (after == "" || IsNewline(after[0]))
    case BlockComment(body) => BlockLength(body + ['*', '/']) == |body|
    case OpenBlock(body) => after == "" && BlockLength(body) == |body|
  }

  ghost predicate WellFormed(ks: seq<Token>) {
    ks != [] ==> FitsBefore(ks[0], Render(ks[1..])) && WellFormed(ks[1..])
  }

  /** The stream without its comments. */
  function Visible(ks: seq<Token>): seq<Token> {
    if ks == [] then [] else (if IsComment(ks[0]) then [] else [ks[0]]) + Visible(ks[1..])
  }

  // ----- ends are found where they were rendered

  lemma {:induction false} BodyPrefix(x: string, y: string, escape: bool)
    requires BodyLength(x, escape) < |x|
    ensures BodyLength(x + y, escape) == BodyLength(x, escape)
  {
    assert (x + y)[1..] == x[1..] + y;
    if escape { BodyPrefix(x[1..], y, false); }
    else if x[0] == BACKSLASH { BodyPrefix(x[1..], y, true); }
    else if x[0] != QUOTE { BodyPrefix(x[1..], y, false); }
  }

  lemma {:induction false} LinePrefix(x: string, y: string)
    requires LineLength(x) == |x| && (y == "" || IsNewline(y[0]))
    ensures LineLength(x + y) == |x|
  {
    if x == "" { assert x + y == y; } else {
      assert (x + y)[1..] == x[1..] + y;
      LinePrefix(x[1..], y);
    }
  }

  lemma {:induction false} BlockPrefix(x: string, y: string)
    requires BlockLength(x) < |x|
    ensures BlockLength(x + y) == BlockLength(x)
  {
    if !ClosesBlock(x) {
      assert (x + y)[1..] == x[1..] + y;
      BlockPrefix(x[1..], y);
    }
  }

  // ----- stripping a rendered stream

  lemma BodyTail(body: string, escape: bool)
    requires body != "" && BodyLength(body + [QUOTE], escape) == |body|
    ensures escape || body[0] != QUOTE
    ensures BodyLength(body[1..] + [QUOTE], !escape && body[0] == BACKSLASH) == |body| - 1
  {
    assert (body + [QUOTE])[1..] == body[1..] + [QUOTE];
  }

  lemma {:induction false} StripLiteral(body: string, rest: string, escape: bool)
    requires BodyLength(body + [QUOTE], escape) == |body|
    ensures Strip(body + [QUOTE] + rest, true, escape) == body + [QUOTE] + Strip(rest, false, false)
  {
    var t := body + [QUOTE] + rest;
    StepInside(t, escape);
    if body == "" {
      assert t[1..] == rest;
    } else {
      var tail, later := body[1..], Strip(rest, false, false);
      BodyTail(body, escape);
      assert t[1..] == tail + [QUOTE] + rest;
      StripLiteral(tail, rest, !escape && body[0] == BACKSLASH);
      assert [body[0]] + (tail + [QUOTE] + later) == body + [QUOTE] + later;
    }
  }

  lemma {:induction false} StripOpenLiteral(body: string, escape: bool)
    requires BodyLength(body, escape) == |body|
    ensures Strip(body, true, escape) == body
  {
    if body != "" { StripOpenLiteral(body[1..], !escape && body[0] == BACKSLASH); }
  }

  lemma StripToken(k: Token, rest: string)
    requires FitsBefore(k, rest)
    ensures StripJsonc(RenderToken(k) + rest) == Shown(k) + StripJsonc(rest)
  {
    var t := RenderToken(k) + rest;
    match k
    case Code(c) =>
      assert t[1..] == rest;
      StepCode(t);
    case Literal(body) => StripWholeLiteral(body, rest, t);
    case OpenLiteral(body) =>
      assert t[1..] == body;
      StepQuote(t);
      StripOpenLiteral(body, false);
    case LineComment(body) => StripLineComment(body, rest, t);
    case BlockComment(body) => StripBlockComment(body, rest, t);
    case OpenBlock(body) => StripOpenBlock(body, t);
  }

  lemma StripWholeLiteral(body: string, rest: string, t: string)
    requires FitsBefore(Literal(body), rest) && t == [QUOTE] + body + [QUOTE] + rest
    ensures StripJsonc(t) == [QUOTE] + body + [QUOTE] + StripJsonc(rest)
  {
    assert t[1..] == body + [QUOTE] + rest;
    StepQuote(t);
    StripLiteral(body, rest, false);
  }

  lemma StripOpenBlock(body: string, t: string)
    requires FitsBefore(OpenBlock(body), "") && t == ['/', '*'] + body
    ensures StripJsonc(t) == ""
  {
    assert t[2..] == body;
    StepBlock(t);
  }

  lemma StripLineComment(body: string, rest: string, t: string)
    requires FitsBefore(LineComment(body), rest) && t == ['/', '/'] + body + rest
    ensures StripJsonc(t) == StripJsonc(rest)
  {
    assert t[2..] == body + rest && t[2 + |body|..] == rest;
    LinePrefix(body, rest);
    StepLine(t);
  }

  lemma StripBlockComment(body: string, rest: string, t: string)
    requires FitsBefore(BlockComment(body), rest) && t == ['/', '*'] + body + ['*', '/'] + rest
    ensures StripJsonc(t) == StripJsonc(rest)
  {
    var inner := body + ['*', '/'];
    assert t[2..] == inner + rest && Drop(t, |body| + 4) == rest;
    BlockPrefix(inner, rest);
    StepBlock(t);
  }

  function Shown(k: Token): string { if IsComment(k) then "" else RenderToken(k) }

  /** Stripping any rendered stream gives exactly the render of the stream without its
      comments: literals (escapes and comment-like text included) and code are untouched. */
  lemma {:induction false} StripRendered(ks: seq<Token>)
    requires WellFormed(ks)
    ensures StripJsonc(Render(ks)) == Render(Visible(ks))
  {
    if ks != [] {
      StripToken(ks[0], Render(ks[1..]));
      StripRendered(ks[1..]);
      RenderVisible(ks);
    }
  }

  lemma RenderVisible(ks: seq<Token>)
    requires ks != []
    ensures Render(Visible(ks)) == Shown(ks[0]) + Render(Visible(ks[1..]))
  {
    var later := Visible(ks[1..]);
    if IsComment(ks[0]) {
      assert Visible(ks) == later;
    } else {
      assert ([ks[0]] + later)[1..] == later;
    }
  }

  // ----- every text is exactly one well-formed stream

  function Lex(t: string): seq<Token>
    decreases |t|
  {
    if t == "" then []
    else if t[0] == QUOTE then
      var n := BodyLength(t[1..], false);
      if n + 1 < |t| then [Literal(t[1..n + 1])] + Lex(t[n + 2..]) else [OpenLiteral(t[1..])]
    else if OpensLine(t) then
      var n := LineLength(t[2..]);
      [LineComment(t[2..n + 2])] + Lex(t[n + 2..])
    else if OpensBlock(t) then
      var n := BlockLength(t[2..]);
      if n + 2 < |t| then [BlockComment(t[2..n + 2])] + Lex(Drop(t, n + 4)) else [OpenBlock(t[2..])]
    else [Code(t[0])] + Lex(t[1..])
  }

  lemma LexToken(k: Token, rest: string)
    requires FitsBefore(k, rest)
    ensures Lex(RenderToken(k) + rest) == [k] + Lex(rest)
  {
    var t := RenderToken(k) + rest;
    match k
    case Code(c) => assert t[1..] == rest;
    case Literal(body) => LexLiteral(body, rest, t);
    case OpenLiteral(body) => assert t[1..] == body;
    case LineComment(body) => LexLineComment(body, rest, t);
    case BlockComment(body) => LexBlockComment(body, rest, t);
    case OpenBlock(body) => assert t[2..] == body;
  }

  lemma LexLiteral(body: string, rest: string, t: string)
    requires FitsBefore(Literal(body), rest) && t == [QUOTE] + body + [QUOTE] + rest
    ensures Lex(t) == [Literal(body)] + Lex(rest)
  {
    var inner := body + [QUOTE];
    assert t[1..] == inner + rest && t[|body| + 2..] == rest && t[1..|body| + 1] == body;
    BodyPrefix(inner, rest, false);
  }

  lemma LexLineComment(body: string, rest: string, t: string)
    requires FitsBefore(LineComment(body), rest) && t == ['/', '/'] + body + rest
    ensures Lex(t) == [LineComment(body)] + Lex(rest)
  {
    assert t[2..] == body + rest && t[|body| + 2..] == rest && t[2..|body| + 2] == body;
    LinePrefix(body, rest);
  }

  lemma LexBlockComment(body: string, rest: string, t: string)
    requires FitsBefore(BlockComment(body), rest) && t == ['/', '*'] + body + ['*', '/'] + rest
    ensures Lex(t) == [BlockComment(body)] + Lex(rest)
  {
    var inner := body + ['*', '/'];
    assert t[2..] == inner + rest && Drop(t, |body| + 4) == rest && t[2..|body| + 2] == body;
    BlockPrefix(inner, rest);
  }

  /** Reading back a rendered stream returns the stream ... */
  lemma {:induction false} LexRendered(ks: seq<Token>)
    requires WellFormed(ks)
    ensures Lex(Render(ks)) == ks
  {
    if ks != [] {
      LexToken(ks[0], Render(ks[1..]));
      LexRendered(ks[1..]);
    }
  }

  lemma {:induction false} BodyCut(t: string, escape: bool)
    requires BodyLength(t, escape) < |t|
    ensures var n := BodyLength(t, escape);
      t[n] == QUOTE && BodyLength(t[..n] + [QUOTE], escape) == n
  {
    var n := BodyLength(t, escape);
    if n > 0 {
      var next := !escape && t[0] == BACKSLASH;
      BodyCut(t[1..], next);
      assert (t[..n] + [QUOTE])[1..] == t[1..][..n - 1] + [QUOTE];
    }
  }

  lemma {:induction false} LineCut(t: string)
    ensures var n := LineLength(t);
      LineLength(t[..n]) == n && (n < |t| ==> IsNewline(t[n]))
  {
    var n := LineLength(t);
    if n > 0 {
      LineCut(t[1..]);
      assert t[..n][1..] == t[1..][..n - 1];
    }
  }

  lemma {:induction false} BlockCut(t: string)
    requires BlockLength(t) < |t|
    ensures var n := BlockLength(t);
      n + 2 <= |t| && t[n..n + 2] == ['*', '/'] && BlockLength(t[..n] + ['*', '/']) == n
  {
    var n := BlockLength(t);
    if n == 0 {
      assert ClosesBlock(t[..0] + ['*', '/']);
    } else {
      BlockCut(t[1..]);
      var cut := t[..n] + ['*', '/'];
      assert cut[1..] == t[1..][..n - 1] + ['*', '/'];
      assert cut[0] == t[0] && cut[1] == t[1];
    }
  }

  /** The first token that Lex reads from a non-empty text. */
  function FirstToken(t: string): Token
    requires t != ""
  {
    if t[0] == QUOTE then
      var n := BodyLength(t[1..], false);
      if n + 1 < |t| then Literal(t[1..n + 1]) else OpenLiteral(t[1..])
    else if OpensLine(t) then LineComment(t[2..LineLength(t[2..]) + 2])
    else if OpensBlock(t) then
      var n := BlockLength(t[2..]);
      if n + 2 < |t| then BlockComment(t[2..n + 2]) else OpenBlock(t[2..])
    else Code(t[0])
  }

  lemma FirstTokenFits(t: string) returns (rest: string)
    requires t != ""
    ensures t == RenderToken(FirstToken(t)) + rest && FitsBefore(FirstToken(t), rest)
  {
    if t[0] == QUOTE {
      rest := FirstLiteralFits(t);
    } else if OpensLine(t) {
      rest := FirstLineFits(t);
    } else if OpensBlock(t) {
      rest := FirstBlockFits(t);
    } else {
      rest := t[1..];
    }
  }

  lemma FirstLineFits(t: string) returns (rest: string)
    requires OpensLine(t)
    ensures t == RenderToken(FirstToken(t)) + rest && FitsBefore(FirstToken(t), rest)
  {
    LineCut(t[2..]);
    var n := LineLength(t[2..]);
    assert t[2..][..n] == t[2..n + 2];
    rest := t[n + 2..];
  }

  lemma FirstLiteralFits(t: string) returns (rest: string)
    requires t != "" && t[0] == QUOTE
    ensures t == RenderToken(FirstToken(t)) + rest && FitsBefore(FirstToken(t), rest)
  {
    var n := BodyLength(t[1..], false);
    if n + 1 < |t| {
      BodyCut(t[1..], false);
      assert t[1..][..n] == t[1..n + 1] && t[n + 1] == QUOTE;
      rest := t[n + 2..];
      assert t == [t[0]] + t[1..n + 1] + [t[n + 1]] + rest;
    } else {
      rest := "";
    }
  }

  lemma FirstBlockFits(t: string) returns (rest: string)
    requires OpensBlock(t)
    ensures t == RenderToken(FirstToken(t)) + rest && FitsBefore(FirstToken(t), rest)
  {
    var n := BlockLength(t[2..]);
    if n + 2 < |t| {
      BlockCut(t[2..]);
      assert t[2..][..n] == t[2..n + 2] && t[2..][n..n + 2] == t[n + 2..n + 4];
      rest := t[n + 4..];
    } else {
      rest := "";
    }
  }

  /** ... and rendering what was read returns the text, which is always well-formed. */
  lemma {:induction false} RenderLexed(t: string)
    ensures Render(Lex(t)) == t && WellFormed(Lex(t))
    decreases |t|
  {
    if t != "" {
      var k := FirstToken(t);
      var rest := FirstTokenFits(t);
      LexToken(k, rest);
      RenderLexed(rest);
      assert ([k] + Lex(rest))[1..] == Lex(rest);
    }
  }

  // ----- consequences

  lemma {:induction false} VisibleWellFormed(ks: seq<Token>)
    requires WellFormed(ks)
    ensures WellFormed(Visible(ks))
  {
    if ks != [] {
      var k, rest, later := ks[0], ks[1..], Visible(ks[1..]);
      VisibleWellFormed(rest);
      if IsComment(k) {
        assert Visible(ks) == later;
      } else {
        FitsWithoutComments(k, rest);
        assert ([k] + later)[1..] == later;
      }
    }
  }

  lemma FitsWithoutComments(k: Token, rest: seq<Token>)
    requires !IsComment(k) && FitsBefore(k, Render(rest))
    ensures FitsBefore(k, Render(Visible(rest)))
  {
    if rest != [] {
      assert Render(rest)[0] == RenderToken(rest[0])[0];
      RenderVisible(rest);
      if !IsComment(rest[0]) { assert Render(Visible(rest))[0] == RenderToken(rest[0])[0]; }
    }
  }

  lemma {:induction false} VisibleTwice(ks: seq<Token>)
    ensures Visible(Visible(ks)) == Visible(ks)
  {
    if ks != [] {
      VisibleTwice(ks[1..]);
      var later := Visible(ks[1..]);
      if IsComment(ks[0]) {
        assert Visible(ks) == later;
      } else {
        assert ([ks[0]] + later)[1..] == later;
      }
    }
  }

  /** The stream of a stripped text is the visible part of the text's own stream; in
      particular its string literals are the same, in the same order. */
  lemma StrippedStream(t: string)
    ensures StripJsonc(t) == Render(Visible(Lex(t)))
    ensures Lex(StripJsonc(t)) == Visible(Lex(t))
  {
    RenderLexed(t);
    StripRendered(Lex(t));
    VisibleWellFormed(Lex(t));
    LexRendered(Visible(Lex(t)));
  }

  /** Stripping twice is stripping once. */
  lemma StripIdempotent(t: string)
    ensures StripJsonc(StripJsonc(t)) == StripJsonc(t)
  {
    StrippedStream(t);
    StrippedStream(StripJsonc(t));
    VisibleTwice(Lex(t));
  }
}
