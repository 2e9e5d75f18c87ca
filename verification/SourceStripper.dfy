/** The scanner that blanks comments, strings and template text before row writes are looked for. */
module SourceStripper {
  import opened Ordering

  /** An open template literal, or an interpolation inside one with the braces open in it. */
  datatype Frame = Template | Interp(braces: nat)

  /** What a stretch of source is. `Code`, `Block`, `Line`, `Quote` and `Open` occur in code; `Raw`, `Escape`,
      `Enter` (an interpolation's opener) and `Close` in the text of a template; `Leave` ends an interpolation. */
  datatype Token =
    | Code(c: char)
    | Block(text: string)
    | Line(text: string)
    | Quote(text: string)
    | Open
    | Close
    | Raw(c: char)
    | Escape(text: string)
    | Enter
    | Leave

  function Spelling(t: Token): string {
    match t
    case Code(c) => [c]
    case Block(s) => s
    case Line(s) => s
    case Quote(s) => s
    case Open => "`"
    case Close => "`"
    case Raw(c) => [c]
    case Escape(s) => s
    case Enter => "${"
    case Leave => "}"
  }

  ghost function Source(toks: seq<Token>): string {
    if toks == [] then [] else Source(toks[..|toks| - 1]) + Spelling(toks[|toks| - 1])
  }

  // ------------------------------------------------------------------ nesting

  function Pop(frames: seq<Frame>): seq<Frame> { if frames == [] then [] else frames[..|frames| - 1] }

  predicate InText(frames: seq<Frame>) { frames != [] && frames[|frames| - 1].Template? }

  predicate InInterp(frames: seq<Frame>) { frames != [] && frames[|frames| - 1].Interp? }

  predicate Balanced(frames: seq<Frame>) { InInterp(frames) && frames[|frames| - 1].braces == 0 }

  function After(frames: seq<Frame>, t: Token): seq<Frame> {
    match t
    case Open => frames + [Template]
    case Enter => frames + [Interp(0)]
    case Close => Pop(frames)
    case Leave => Pop(frames)
    case Code(c) =>
      if !InInterp(frames) then frames
      else
        var braces := frames[|frames| - 1].braces;
        if c == '{' then Pop(frames) + [Interp(braces + 1)]
        else if c == '}' && braces > 0 then Pop(frames) + [Interp(braces - 1)]
        else frames
    case _ => frames
  }

  ghost function Frames(toks: seq<Token>): seq<Frame> {
    if toks == [] then [] else After(Frames(toks[..|toks| - 1]), toks[|toks| - 1])
  }

  // ------------------------------------------------------------------ the grammar

  /** `*` and `/` stand together at `k`. */
  predicate EndsComment(s: string, k: int) { 0 <= k < |s| - 1 && s[k] == '*' && s[k + 1] == '/' }

  /** A block comment runs to the first end after its opener, or, where there is none, to the end of the source. */
  ghost predicate BlockShape(s: string, rest: string) {
    && |s| >= 2 && s[0] == '/' && s[1] == '*'
    && ((|s| >= 4 && EndsComment(s, |s| - 2) && forall k :: 2 <= k < |s| - 2 ==> !EndsComment(s, k))
        || (rest == [] && forall k :: 2 <= k ==> !EndsComment(s, k)))
  }

  /** The inside of a quoted literal: escaped pairs and characters other than the quote. */
  ghost predicate Inside(s: string, quote: char) {
    s == [] || (if s[0] == '\\' then |s| >= 2 && Inside(s[2..], quote) else s[0] != quote && Inside(s[1..], quote))
  }

  predicate IsQuote(c: char) { c == '\'' || c == '"' }

  /** A quoted literal runs to its closing quote, or, unclosed, to the end of the source. */
  ghost predicate QuoteShape(s: string, rest: string) {
    && s != [] && IsQuote(s[0])
    && ((|s| >= 2 && s[|s| - 1] == s[0] && Inside(s[1..|s| - 1], s[0]))
        || (rest == [] && (Inside(s[1..], s[0]) || (|s| >= 2 && s[|s| - 1] == '\\' && Inside(s[1..|s| - 1], s[0])))))
  }

  ghost predicate Starts(s: string, c: char) { s != [] && s[0] == c }

  /** The token may stand where `frames` are open and `rest` follows it. */
  ghost predicate Legal(frames: seq<Frame>, t: Token, rest: string) {
    match t
    case Raw(c) => InText(frames) && c != '\\' && c != '`' && !(c == '$' && Starts(rest, '{'))
    case Escape(s) => InText(frames) && Starts(s, '\\') && (|s| == 2 || (|s| == 1 && rest == []))
    case Enter => InText(frames)
    case Close => InText(frames)
    case Open => !InText(frames)
    case Leave => Balanced(frames)
    case Block(s) => !InText(frames) && BlockShape(s, rest)
    case Line(s) => !InText(frames) && |s| >= 2 && s[0] == '/' && s[1] == '/' && '\n' !in s &&
      (rest == [] || rest[0] == '\n')
    case Quote(s) => !InText(frames) && QuoteShape(s, rest)
    case Code(c) =>
      && !InText(frames) && !IsQuote(c) && c != '`' && !(c == '}' && Balanced(frames))
      && !(c == '/' && (Starts(rest, '*') || Starts(rest, '/')))
  }

  /** The tokens lex the text before `rest`. */
  ghost predicate Lexes(toks: seq<Token>, rest: string) {
    toks == [] ||
    var last, init := toks[|toks| - 1], toks[..|toks| - 1];
    Legal(Frames(init), last, rest) && Lexes(init, Spelling(last) + rest)
  }

  /** The tokens are a reading of the whole source. */
  ghost predicate Reads(toks: seq<Token>, src: string) { Lexes(toks, []) && Source(toks) == src }

  // ------------------------------------------------------------------ stripping

  predicate Nested(frames: seq<Frame>) { exists f :: f in frames && f.Template? }

  function Blank(s: string): (r: string)
    ensures |r| == |s| && forall k :: 0 <= k < |s| ==> r[k] == if s[k] == '\n' then '\n' else ' '
  {
    seq(|s|, k requires 0 <= k < |s| => if s[k] == '\n' then '\n' else ' ')
  }

  predicate IsParen(c: char) { c == '(' || c == ')' }

  /** What the scanner writes for a token. */
  function Shown(frames: seq<Frame>, t: Token): string {
    match t
    case Code(c) => [c]
    case Block(s) => Blank(s)
    case Line(s) => Blank(s)
    case Quote(s) => if s == [] then [] else [s[0], s[0]]
    case Open => if Nested(frames) then " " else "`"
    case Close => if Nested(Pop(frames)) then " " else "`"
    case Raw(c) => if IsParen(c) then " " else [c]
    case Escape(s) => if |s| >= 2 && s[1] == '\n' then " \n" else "  "
    case Enter => "  "
    case Leave => " "
  }

  ghost function Stripped(toks: seq<Token>): string {
    if toks == [] then []
    else Stripped(toks[..|toks| - 1]) + Shown(Frames(toks[..|toks| - 1]), toks[|toks| - 1])
  }

  /** `src.indexOf("*\/", from)`, as the end of the comment. */
  method BlockEnd(src: string, i: nat) returns (end: nat)
    requires i + 2 <= |src| && src[i] == '/' && src[i + 1] == '*'
    ensures i + 2 <= end <= |src| && BlockShape(src[i..end], src[end..])
    ensures forall k :: i + 2 <= k && k + 2 < end ==> !(src[k] == '*' && src[k + 1] == '/')
    ensures end == |src| || (i + 4 <= end && src[end - 2] == '*' && src[end - 1] == '/')
  {
    end := i + 2;
    while end < |src| && !EndsComment(src, end)
      invariant i + 2 <= end <= |src|
      invariant forall k :: i + 2 <= k < end ==> !EndsComment(src, k)
    {
      end := end + 1;
    }
    if end < |src| {
      end := end + 2;
      assert EndsComment(src[i..end], end - 2 - i);
    }
    forall k | 2 <= k < |src[i..end]| - 2 ensures !EndsComment(src[i..end], k) {
      assert !EndsComment(src, i + k);
    }
    forall k | i + 2 <= k && k + 2 < end ensures !(src[k] == '*' && src[k + 1] == '/') {
      assert !EndsComment(src, k);
    }
    if end == |src| && !EndsComment(src[i..end], end - 2 - i) {
      forall k | 2 <= k ensures !EndsComment(src[i..end], k) {
        assert i + k < |src| - 1 ==> !EndsComment(src, i + k);
      }
    }
  }

  method LineEnd(src: string, i: nat) returns (end: nat)
    requires i < |src|
    ensures i <= end <= |src| && '\n' !in src[i..end] && (end < |src| ==> src[end] == '\n')
  {
    end := i;
    while end < |src| && src[end] != '\n'
      invariant i <= end <= |src| && '\n' !in src[i..end]
    {
      assert src[i..end + 1] == src[i..end] + [src[end]];
      end := end + 1;
    }
  }

  method QuoteEnd(src: string, i: nat) returns (end: nat)
    requires i < |src| && IsQuote(src[i])
    ensures i < end <= |src| && QuoteShape(src[i..end], src[end..])
  {
    hide Inside, QuoteShape;
    var quote, j := src[i], i + 1;
    InsideNothing(src, i, quote);
    while j < |src| && src[j] != quote
      invariant i < j <= |src| + 1
      invariant if j <= |src| then Inside(src[i + 1..j], quote)
                else i + 1 < |src| && src[|src| - 1] == '\\' && Inside(src[i + 1..|src| - 1], quote)
      decreases |src| + 1 - j
    {
      var step := if src[j] == '\\' then 2 else 1;
      if j + step <= |src| { InsideStep(src, i, j, step, quote); }
      j := j + step;
    }
    end := if j < |src| then j + 1 else |src|;
    QuoteText(src, i, j);
  }

  lemma InsideNothing(src: string, i: nat, quote: char)
    requires i < |src|
    ensures Inside(src[i + 1..i + 1], quote)
  {
  }

  lemma InsideStep(src: string, i: nat, j: nat, step: nat, quote: char)
    requires i < j < |src| && j + step <= |src| && Inside(src[i + 1..j], quote) && src[j] != quote
    requires step == if src[j] == '\\' then 2 else 1
    ensures Inside(src[i + 1..j + step], quote)
  {
    var more := src[j..j + step];
    assert more[0] == src[j] && |more| == step;
    InsidePush(src[i + 1..j], more, quote);
    assert src[i + 1..j] + more == src[i + 1..j + step];
  }

  lemma QuoteText(src: string, i: nat, j: nat)
    requires i < |src| && IsQuote(src[i]) && i < j <= |src| + 1
    requires j < |src| ==> src[j] == src[i]
    requires if j <= |src| then Inside(src[i + 1..j], src[i])
             else i + 1 < |src| && src[|src| - 1] == '\\' && Inside(src[i + 1..|src| - 1], src[i])
    ensures QuoteShape(src[i..if j < |src| then j + 1 else |src|], src[if j < |src| then j + 1 else |src|..])
  {
    hide Inside;
    var end := if j < |src| then j + 1 else |src|;
    var text := src[i..end];
    assert text[0] == src[i] && text[|text| - 1] == src[end - 1] && |text| == end - i;
    if j < |src| {
      assert text[1..|text| - 1] == src[i + 1..j];
    } else if j == |src| {
      assert text[1..] == src[i + 1..j];
    } else {
      assert text[1..|text| - 1] == src[i + 1..|src| - 1];
    }
  }

  lemma {:induction false} InsidePush(s: string, more: string, quote: char)
    requires Inside(s, quote)
    requires (|more| == 1 && more[0] != '\\' && more[0] != quote) || (|more| == 2 && more[0] == '\\')
    ensures Inside(s + more, quote)
  {
    if s == [] {
      assert s + more == more;
      if |more| == 2 { assert more[2..] == []; } else { assert more[1..] == []; }
    } else {
      var step := if s[0] == '\\' then 2 else 1;
      InsidePush(s[step..], more, quote);
      assert (s + more)[step..] == s[step..] + more;
    }
  }

  lemma PushToken(toks: seq<Token>, t: Token, rest: string)
    requires Lexes(toks, Spelling(t) + rest) && Legal(Frames(toks), t, rest)
    ensures Lexes(toks + [t], rest) && Frames(toks + [t]) == After(Frames(toks), t)
    ensures Stripped(toks + [t]) == Stripped(toks) + Shown(Frames(toks), t)
    ensures Source(toks + [t]) == Source(toks) + Spelling(t)
  {
    assert (toks + [t])[..|toks + [t]| - 1] == toks;
    hide Legal;
  }

  lemma SliceStep(src: string, i: nat, s: string)
    requires i + |s| <= |src| && src[i..i + |s|] == s
    ensures src[i..] == s + src[i + |s|..] && src[..i] + s == src[..i + |s|]
  {
  }

  lemma WholeRead(toks: seq<Token>, src: string)
    requires Lexes(toks, []) && Source(toks) == src
    ensures Reads(toks, src)
  {
    hide Lexes, Source;
  }

  /** The scan lexes its whole input by the grammar and shows each token as it is shown. */
  method StripCommentsAndStrings(src: string) returns (out: string)
    ensures exists toks :: Reads(toks, src) && out == Stripped(toks)
  {
    ghost var toks: seq<Token> := [];
    out := [];
    var stack: seq<Frame> := [];
    var i := 0;
    assert src[0..] == src && src[..0] == [];
    hide *;
    NothingLexed(src);
    while i < |src|
      invariant i <= |src| && Source(toks) == src[..i] && Lexes(toks, src[i..])
      invariant out == Stripped(toks) && stack == Frames(toks)
    {
      var t := NextToken(src, i, stack);
      var end := i + |Spelling(t)|;
      SliceStep(src, i, Spelling(t));
      PushToken(toks, t, src[end..]);
      out := out + Shown(stack, t);
      stack := After(stack, t);
      toks := toks + [t];
      i := end;
    }
    assert src[..|src|] == src && src[|src|..] == [];
    WholeRead(toks, src);
  }

  lemma NothingLexed(src: string)
    ensures Source([]) == [] && Lexes([], src) && Stripped([]) == [] && Frames([]) == []
  {
  }

  lemma SliceHead(src: string, i: nat)
    requires i < |src|
    ensures src[i..i + 1] == [src[i]]
    ensures i + 1 < |src| ==> src[i..i + 2] == [src[i], src[i + 1]] && src[i + 1..][0] == src[i + 1]
    ensures src[i + 1..] == [] <==> i + 1 == |src|
  {
  }

  lemma LineLegal(src: string, i: nat, end: nat, stack: seq<Frame>)
    requires i + 2 <= |src| && src[i] == '/' && src[i + 1] == '/' && !InText(stack)
    requires i <= end <= |src| && '\n' !in src[i..end] && (end < |src| ==> src[end] == '\n')
    ensures i + 2 <= end && Legal(stack, Line(src[i..end]), src[end..])
  {
    hide InText;
    assert end < |src| ==> src[end..][0] == '\n';
  }

  lemma SingleLegal(src: string, i: nat, stack: seq<Frame>)
    requires i < |src| && !InText(stack) && !IsQuote(src[i])
    requires src[i] == '/' ==> !(i + 1 < |src| && (src[i + 1] == '*' || src[i + 1] == '/'))
    ensures var t := if src[i] == '`' then Open else if src[i] == '}' && Balanced(stack) then Leave else Code(src[i]);
      Spelling(t) == src[i..i + 1] && Legal(stack, t, src[i + 1..])
  {
    hide InText, Balanced;
    SliceHead(src, i);
  }

  lemma CommentLegal(src: string, i: nat, end: nat, stack: seq<Frame>)
    requires i + 2 <= end <= |src| && !InText(stack) && BlockShape(src[i..end], src[end..])
    ensures Legal(stack, Block(src[i..end]), src[end..])
  {
    hide InText, BlockShape;
  }

  lemma LiteralLegal(src: string, i: nat, end: nat, stack: seq<Frame>)
    requires i < end <= |src| && !InText(stack) && QuoteShape(src[i..end], src[end..])
    ensures Legal(stack, Quote(src[i..end]), src[end..])
  {
    hide InText, QuoteShape;
  }

  /** The token that begins at a column of a template's text. */
  method NextText(src: string, i: nat, stack: seq<Frame>) returns (t: Token)
    requires i < |src| && InText(stack)
    ensures Spelling(t) != [] && i + |Spelling(t)| <= |src| && src[i..i + |Spelling(t)|] == Spelling(t)
    ensures Legal(stack, t, src[i + |Spelling(t)|..])
  {
    hide BlockShape, QuoteShape, Inside, InText, Balanced;
    var ch := src[i];
    SliceHead(src, i);
    if ch == '\\' {
      t := Escape(if i + 1 < |src| then [ch, src[i + 1]] else [ch]);
    } else if ch == '`' {
      t := Close;
    } else if ch == '$' && i + 1 < |src| && src[i + 1] == '{' {
      t := Enter;
    } else {
      t := Raw(ch);
    }
  }

  /** The token at `i`: the branches of the scan, in their order. */
  method NextToken(src: string, i: nat, stack: seq<Frame>) returns (t: Token)
    requires i < |src|
    ensures Spelling(t) != [] && i + |Spelling(t)| <= |src| && src[i..i + |Spelling(t)|] == Spelling(t)
    ensures Legal(stack, t, src[i + |Spelling(t)|..])
  {
    hide Legal, BlockShape, QuoteShape, Inside, InText, Balanced;
    var ch := src[i];
    if InText(stack) {
      t := NextText(src, i, stack);
    } else if ch == '/' && i + 1 < |src| && src[i + 1] == '*' {
      var end := BlockEnd(src, i);
      t := Block(src[i..end]);
      CommentLegal(src, i, end, stack);
    } else if ch == '/' && i + 1 < |src| && src[i + 1] == '/' {
      var end := LineEnd(src, i);
      t := Line(src[i..end]);
      LineLegal(src, i, end, stack);
    } else if IsQuote(ch) {
      var end := QuoteEnd(src, i);
      t := Quote(src[i..end]);
      LiteralLegal(src, i, end, stack);
    } else {
      t := if ch == '`' then Open else if ch == '}' && Balanced(stack) then Leave else Code(ch);
      SingleLegal(src, i, stack);
    }
  }

  // ------------------------------------------------------------------ what survives

  /** Templates and interpolations alternate, a template at the bottom. */
  ghost predicate Alternates(frames: seq<Frame>) {
    forall k :: 0 <= k < |frames| ==> (frames[k].Template? <==> k % 2 == 0)
  }

  lemma {:induction false} FramesAlternate(toks: seq<Token>, rest: string)
    requires Lexes(toks, rest)
    ensures Alternates(Frames(toks))
  {
    if toks != [] {
      var last, init := toks[|toks| - 1], toks[..|toks| - 1];
      FramesAlternate(init, Spelling(last) + rest);
      AfterAlternates(Frames(init), last, rest);
      hide Lexes, Legal, After, Alternates;
    }
  }

  lemma AfterAlternates(frames: seq<Frame>, t: Token, rest: string)
    requires Alternates(frames) && Legal(frames, t, rest)
    ensures Alternates(After(frames, t))
  {
    hide BlockShape, QuoteShape, Starts;
    if !t.Open? && !t.Enter? && !t.Code? {
      assert After(frames, t) == frames || After(frames, t) == Pop(frames);
    }
  }

  ghost function Parens(s: string): string {
    if s == [] then [] else Parens(s[..|s| - 1]) + if IsParen(s[|s| - 1]) then [s[|s| - 1]] else []
  }

  /** The characters of code, in order. */
  ghost function CodeText(toks: seq<Token>): string {
    if toks == [] then []
    else CodeText(toks[..|toks| - 1]) + match toks[|toks| - 1] case Code(c) => [c] case _ => []
  }

  lemma {:induction false} ParensSum(a: string, b: string)
    ensures Parens(a + b) == Parens(a) + Parens(b)
  {
    if b == [] {
      assert a + b == a;
    } else {
      assert (a + b)[..|a + b| - 1] == a + b[..|b| - 1];
      ParensSum(a, b[..|b| - 1]);
    }
  }

  lemma {:induction false} NoParens(s: string)
    requires forall k :: 0 <= k < |s| ==> !IsParen(s[k])
    ensures Parens(s) == []
  {
    if s != [] { NoParens(s[..|s| - 1]); }
  }

  lemma ShownParens(frames: seq<Frame>, t: Token, rest: string)
    requires Legal(frames, t, rest)
    ensures Parens(Shown(frames, t)) == match t case Code(c) => Parens([c]) case _ => []
  {
    if !t.Code? { NoParens(Shown(frames, t)); }
  }

  /** The parentheses left are exactly those of the code, in order. */
  lemma {:induction false} ParensAreCode(toks: seq<Token>, rest: string)
    requires Lexes(toks, rest)
    ensures Parens(Stripped(toks)) == Parens(CodeText(toks))
  {
    if toks != [] {
      var last, init := toks[|toks| - 1], toks[..|toks| - 1];
      ParensAreCode(init, Spelling(last) + rest);
      ShownParens(Frames(init), last, rest);
      ParensSum(Stripped(init), Shown(Frames(init), last));
      ParensSum(CodeText(init), match last case Code(c) => [c] case _ => []);
      hide Frames, Shown, Lexes, Legal, Parens;
      assert Parens([]) == [] by { NoParens([]); }
    }
  }

  function Count(s: string, c: char): nat { multiset(s)[c] }

  lemma CountSum(a: string, b: string, c: char)
    ensures Count(a + b, c) == Count(a, c) + Count(b, c)
  {
  }

  lemma CountOne(s: string, c: char)
    requires |s| == 1
    ensures Count(s, c) == if s[0] == c then 1 else 0
  {
    assert s == [s[0]];
  }

  lemma CountTwo(s: string, c: char)
    requires |s| == 2
    ensures Count(s, c) == (if s[0] == c then 1 else 0) + if s[1] == c then 1 else 0
  {
    assert s == [s[0]] + [s[1]];
    CountSum([s[0]], [s[1]], c);
    CountOne([s[0]], c);
    CountOne([s[1]], c);
  }

  /** A backtick that opens a literal outside every other, or closes one. */
  ghost predicate Outermost(frames: seq<Frame>, t: Token) {
    (t.Open? && frames == []) || (t.Close? && |frames| == 1)
  }

  ghost function Delimiters(toks: seq<Token>): nat {
    if toks == [] then 0
    else Delimiters(toks[..|toks| - 1]) + if Outermost(Frames(toks[..|toks| - 1]), toks[|toks| - 1]) then 1 else 0
  }

  lemma NestedIffOpen(frames: seq<Frame>)
    requires Alternates(frames)
    ensures Nested(frames) <==> frames != []
  {
    if frames != [] { assert frames[0] in frames; }
  }

  lemma ShownTicks(frames: seq<Frame>, t: Token, rest: string)
    requires Alternates(frames) && Legal(frames, t, rest)
    ensures Count(Shown(frames, t), '`') == if Outermost(frames, t) then 1 else 0
  {
    hide BlockShape, Count, Nested, Alternates;
    NestedIffOpen(frames);
    PopAlternates(frames);
    NestedIffOpen(Pop(frames));
    if t.Block? || t.Line? {
      NoTick(Blank(t.text));
    } else if t.Quote? || t.Escape? || t.Enter? {
      CountTwo(Shown(frames, t), '`');
    } else {
      CountOne(Shown(frames, t), '`');
    }
  }

  lemma PopAlternates(frames: seq<Frame>)
    requires Alternates(frames)
    ensures Alternates(Pop(frames))
  {
  }

  lemma NoTick(s: string)
    requires forall k :: 0 <= k < |s| ==> s[k] != '`'
    ensures Count(s, '`') == 0
  {
  }

  predicate Odd(n: nat) { n % 2 == 1 }

  lemma OddTurns(n: nat, more: nat)
    requires more <= 1
    ensures Odd(n + more) <==> Odd(n) != (more == 1)
  {
  }

  /** The backticks left are exactly the delimiters of the outermost literals, so an odd number of them
      stands before a place exactly when it lies inside a template. */
  lemma {:induction false} TicksDelimit(toks: seq<Token>, rest: string)
    requires Lexes(toks, rest)
    ensures Count(Stripped(toks), '`') == Delimiters(toks)
    ensures Odd(Delimiters(toks)) <==> Frames(toks) != []
  {
    if toks != [] {
      var last, init := toks[|toks| - 1], toks[..|toks| - 1];
      TicksDelimit(init, Spelling(last) + rest);
      FramesAlternate(init, Spelling(last) + rest);
      ShownTicks(Frames(init), last, rest);
      DelimiterTurns(Frames(init), last, rest);
      CountSum(Stripped(init), Shown(Frames(init), last), '`');
      OddTurns(Delimiters(init), if Outermost(Frames(init), last) then 1 else 0);
      hide Shown, Legal, Lexes, Outermost, After, Count, Odd, Alternates;
    }
  }

  lemma DelimiterTurns(frames: seq<Frame>, t: Token, rest: string)
    requires Alternates(frames) && Legal(frames, t, rest)
    ensures Outermost(frames, t) <==> (frames == []) != (After(frames, t) == [])
  {
    hide BlockShape, QuoteShape;
  }

  // ------------------------------------------------------------------ line numbers

  ghost predicate OneLineQuotes(toks: seq<Token>) {
    forall t :: t in toks && t.Quote? ==> '\n' !in t.text
  }

  lemma BlankLines(s: string)
    ensures Count(Blank(s), '\n') == Count(s, '\n')
  {
    BlankPrefix(s, |s|);
    assert s[..|s|] == s && Blank(s)[..|s|] == Blank(s);
  }

  lemma {:induction false} BlankPrefix(s: string, n: nat)
    requires n <= |s|
    ensures Count(Blank(s)[..n], '\n') == Count(s[..n], '\n')
  {
    if n > 0 {
      BlankPrefix(s, n - 1);
      assert s[..n] == s[..n - 1] + [s[n - 1]] && Blank(s)[..n] == Blank(s)[..n - 1] + [Blank(s)[n - 1]];
    }
  }

  lemma ShownLines(frames: seq<Frame>, t: Token, rest: string)
    requires Legal(frames, t, rest)
    ensures Count(Shown(frames, t), '\n') == if t.Quote? then 0 else Count(Spelling(t), '\n')
  {
    hide BlockShape, Count, Nested;
    var s := Shown(frames, t);
    if t.Block? || t.Line? {
      BlankLines(t.text);
    } else if t.Quote? {
      CountTwo(s, '\n');
    } else if t.Escape? || t.Enter? {
      CountTwo(s, '\n');
      if |Spelling(t)| == 2 { CountTwo(Spelling(t), '\n'); } else { CountOne(Spelling(t), '\n'); }
    } else {
      CountOne(s, '\n');
      CountOne(Spelling(t), '\n');
    }
  }

  ghost function QuotedLines(toks: seq<Token>): nat {
    if toks == [] then 0
    else
      var last := toks[|toks| - 1];
      QuotedLines(toks[..|toks| - 1]) + if last.Quote? then Count(Spelling(last), '\n') else 0
  }

  /** The newlines lost are exactly those inside quoted literals. */
  lemma {:induction false} LinesLost(toks: seq<Token>, rest: string)
    requires Lexes(toks, rest)
    ensures Count(Source(toks), '\n') == Count(Stripped(toks), '\n') + QuotedLines(toks)
    ensures QuotedLines(toks) == 0 <==> OneLineQuotes(toks)
  {
    if toks != [] {
      var last, init := toks[|toks| - 1], toks[..|toks| - 1];
      LinesLost(init, Spelling(last) + rest);
      ShownLines(Frames(init), last, rest);
      hide Shown, Legal, Lexes, Frames;
      assert forall t :: t in toks <==> t in init || t == last;
      assert last.Quote? ==> (Count(Spelling(last), '\n') == 0 <==> '\n' !in last.text);
    }
  }

  lemma {:induction false} PrefixLexes(toks: seq<Token>, n: nat, rest: string) returns (mid: string)
    requires n <= |toks| && Lexes(toks, rest)
    ensures Lexes(toks[..n], mid) && Source(toks[..n]) + mid == Source(toks) + rest
  {
    if n == |toks| {
      assert toks[..n] == toks;
      mid := rest;
    } else {
      var last, init := toks[|toks| - 1], toks[..|toks| - 1];
      mid := PrefixLexes(init, n, Spelling(last) + rest);
      assert init[..n] == toks[..n];
      Regroup(Source(init), Spelling(last), rest);
    }
  }

  /** What follows the tokens stands on the same line of the output as of the source. */
  ghost predicate SameLine(toks: seq<Token>) { Count(Stripped(toks), '\n') == Count(Source(toks), '\n') }

  /** Every place keeps its line number exactly when no quoted literal before it spans a line. */
  lemma LineNumbersKeptIff(toks: seq<Token>, rest: string)
    requires Lexes(toks, rest)
    ensures (forall n :: 0 <= n <= |toks| ==> SameLine(toks[..n])) <==> OneLineQuotes(toks)
  {
    assert toks[..|toks|] == toks;
    LinesLost(toks, rest);
    if OneLineQuotes(toks) {
      forall n | 0 <= n <= |toks| ensures SameLine(toks[..n]) {
        var mid := PrefixLexes(toks, n, rest);
        LinesLost(toks[..n], mid);
        assert forall t :: t in toks[..n] ==> t in toks;
      }
    }
  }

  // ------------------------------------------------------------------ one reading

  /** Which kind of token the next characters begin. */
  ghost function Kind(frames: seq<Frame>, s: string): nat
    requires s != []
  {
    if InText(frames) then
      if s[0] == '\\' then 0 else if s[0] == '`' then 1 else if s[0] == '$' && Starts(s[1..], '{') then 2 else 3
    else if s[0] == '/' && Starts(s[1..], '*') then 4
    else if s[0] == '/' && Starts(s[1..], '/') then 5
    else if IsQuote(s[0]) then 6
    else if s[0] == '`' then 7
    else if s[0] == '}' && Balanced(frames) then 8
    else 9
  }

  ghost function KindOf(t: Token): nat {
    match t
    case Escape(_) => 0
    case Close => 1
    case Enter => 2
    case Raw(_) => 3
    case Block(_) => 4
    case Line(_) => 5
    case Quote(_) => 6
    case Open => 7
    case Leave => 8
    case Code(_) => 9
  }

  lemma LegalKind(frames: seq<Frame>, t: Token, rest: string)
    requires Legal(frames, t, rest)
    ensures Spelling(t) != [] && Kind(frames, Spelling(t) + rest) == KindOf(t)
  {
    hide Inside, EndsComment;
    var s := Spelling(t) + rest;
    assert s[0] == Spelling(t)[0];
    if |Spelling(t)| == 1 { assert s[1..] == rest; } else { assert s[1] == Spelling(t)[1]; }
  }

  lemma {:induction false} InsideStops(body: string, longer: string, quote: char)
    requires Inside(body, quote) && Inside(longer, quote)
    requires quote != '\\' && |body| < |longer| && longer[..|body|] == body
    ensures longer[|body|] != quote
  {
    if body != [] {
      assert body[0] == longer[0];
      var step := if body[0] == '\\' then 2 else 1;
      assert longer[step..][..|body| - step] == body[step..];
      InsideStops(body[step..], longer[step..], quote);
    }
  }

  /** A token never reaches past where another reading of its kind ends. */
  lemma NoLonger(frames: seq<Frame>, t: Token, rest: string, t': Token, rest': string)
    requires Legal(frames, t, rest) && Legal(frames, t', rest') && Spelling(t) + rest == Spelling(t') + rest'
    requires KindOf(t) == KindOf(t')
    ensures |Spelling(t')| <= |Spelling(t)|
  {
    var s, a, b := Spelling(t) + rest, Spelling(t), Spelling(t');
    if |b| > |a| {
      assert |s| == |a| + |rest| == |b| + |rest'|;
      assert forall k :: 0 <= k < |a| ==> a[k] == s[k] == b[k];
      assert b[|a|] == s[|a|] == rest[0];
      LongerEnds(frames, t, rest, t', rest');
      assert false;
    }
  }

  /** Only where the source ends can a token be a proper beginning of another of its kind. */
  lemma LongerEnds(frames: seq<Frame>, t: Token, rest: string, t': Token, rest': string)
    requires Legal(frames, t, rest) && Legal(frames, t', rest') && KindOf(t) == KindOf(t')
    requires |Spelling(t)| < |Spelling(t')|
    requires forall k :: 0 <= k < |Spelling(t)| ==> Spelling(t)[k] == Spelling(t')[k]
    requires rest != [] ==> Spelling(t')[|Spelling(t)|] == rest[0]
    ensures rest == []
  {
    var a, b := Spelling(t), Spelling(t');
    if t.Block? {
      assert EndsComment(a, |a| - 2) ==> EndsComment(b, |a| - 2);
    } else if t.Quote? {
      QuoteEnds(a, rest, b, rest');
    }
  }

  lemma QuoteEnds(a: string, rest: string, b: string, rest': string)
    requires QuoteShape(a, rest) && QuoteShape(b, rest') && |a| < |b|
    requires forall k :: 0 <= k < |a| ==> a[k] == b[k]
    ensures rest == []
  {
    hide Inside;
    var quote := a[0];
    if |a| >= 2 && a[|a| - 1] == quote && Inside(a[1..|a| - 1], quote) {
      var body := a[1..|a| - 1];
      var longer := if Inside(b[1..|b| - 1], quote) then b[1..|b| - 1] else b[1..];
      assert Inside(longer, quote) && longer[|body|] == b[|a| - 1] == quote && quote != '\\';
      assert longer[..|body|] == body;
      InsideStops(body, longer, quote);
      assert false;
    }
  }

  lemma OneToken(frames: seq<Frame>, t: Token, rest: string, t': Token, rest': string)
    requires Legal(frames, t, rest) && Legal(frames, t', rest') && Spelling(t) + rest == Spelling(t') + rest'
    ensures t == t'
  {
    LegalKind(frames, t, rest);
    LegalKind(frames, t', rest');
    NoLonger(frames, t, rest, t', rest');
    NoLonger(frames, t', rest', t, rest);
    hide Legal, Kind;
    var s := Spelling(t) + rest;
    assert s[..|Spelling(t)|] == Spelling(t);
    assert (Spelling(t') + rest')[..|Spelling(t')|] == Spelling(t');
    SameSpelling(t, t');
  }

  lemma SameSpelling(t: Token, t': Token)
    requires KindOf(t) == KindOf(t') && Spelling(t) == Spelling(t')
    ensures t == t'
  {
    if t.Code? || t.Raw? { assert Spelling(t)[0] == Spelling(t')[0]; }
  }

  lemma NthToken(toks: seq<Token>, n: nat, rest: string) returns (mid: string)
    requires n < |toks| && Lexes(toks, rest)
    ensures Legal(Frames(toks[..n]), toks[n], mid)
    ensures Source(toks[..n]) + (Spelling(toks[n]) + mid) == Source(toks) + rest
  {
    hide Legal, Frames;
    mid := PrefixLexes(toks, n + 1, rest);
    assert toks[..n + 1][..n] == toks[..n];
    Regroup(Source(toks[..n]), Spelling(toks[n]), mid);
  }

  lemma Cancel(a: string, b: string, c: string)
    requires a + b == a + c
    ensures b == c
  {
    assert (a + b)[|a|..] == b && (a + c)[|a|..] == c;
  }

  lemma {:induction false} SamePrefix(toks: seq<Token>, toks': seq<Token>, n: nat)
    requires Lexes(toks, []) && Lexes(toks', []) && Source(toks) == Source(toks')
    requires n <= |toks| && n <= |toks'|
    ensures toks[..n] == toks'[..n]
  {
    hide Legal, Lexes, Frames, Source, Spelling;
    if n > 0 {
      SamePrefix(toks, toks', n - 1);
      var mid := NthToken(toks, n - 1, []);
      var mid' := NthToken(toks', n - 1, []);
      Cancel(Source(toks[..n - 1]), Spelling(toks[n - 1]) + mid, Spelling(toks'[n - 1]) + mid');
      OneToken(Frames(toks[..n - 1]), toks[n - 1], mid, toks'[n - 1], mid');
      assert toks[..n] == toks[..n - 1] + [toks[n - 1]] && toks'[..n] == toks'[..n - 1] + [toks'[n - 1]];
    }
  }

  /** The grammar reads a source one way only. */
  lemma OneReading(src: string, toks: seq<Token>, toks': seq<Token>)
    requires Reads(toks, src) && Reads(toks', src)
    ensures toks == toks'
  {
    NoMore(toks, toks');
    NoMore(toks', toks);
    SamePrefix(toks, toks', |toks|);
    assert toks[..|toks|] == toks && toks'[..|toks'|] == toks';
  }

  lemma NoMore(toks: seq<Token>, toks': seq<Token>)
    requires Lexes(toks, []) && Lexes(toks', []) && Source(toks) == Source(toks')
    ensures |toks'| <= |toks|
  {
    hide Legal, Lexes, Frames, Source, Spelling;
    var n := |toks|;
    if n < |toks'| {
      SamePrefix(toks, toks', n);
      assert toks[..n] == toks;
      var mid := NthToken(toks', n, []);
      LegalKind(Frames(toks'[..n]), toks'[n], mid);
      assert false;
    }
  }

  /** A literal continued over a line end is one line shorter once stripped. */
  lemma ContinuedLiteralLosesALine(src: string, toks: seq<Token>)
    requires src == "'\\\n'" && Reads(toks, src)
    ensures Count(Stripped(toks), '\n') < Count(src, '\n')
  {
    ContinuedReading(src);
    OneReading(src, toks, [Quote(src)]);
    LinesLost(toks, []);
    hide *;
    assert toks[0] == Quote(src) && src[2] == '\n';
    assert toks[0] in toks && '\n' in src && !OneLineQuotes(toks);
  }

  lemma ContinuedReading(src: string)
    requires |src| == 4 && src[0] == src[3] == '\'' && src[1] == '\\'
    ensures Reads([Quote(src)], src)
  {
    var body := src[1..|src| - 1];
    assert body[2..] == [] && Inside(body, '\'');
    assert [Quote(src)][..0] == [];
  }

  // ------------------------------------------------------------------ places

  /** Characters the stripped text shows for something else than the character itself. */
  predicate Faded(c: char) { c == ' ' || c == '\n' || IsQuote(c) || c == '`' }

  lemma ShownPlace(frames: seq<Frame>, t: Token, rest: string, k: nat)
    requires Legal(frames, t, rest) && k < |Shown(frames, t)| && !Faded(Shown(frames, t)[k])
    ensures k == 0 && Spelling(t) == [Shown(frames, t)[k]]
  {
    hide BlockShape, Nested, Inside;
  }

  /** What each token of a reading leaves in the output, between what the tokens before it leave and the rest: code
      itself; template text itself but for parentheses; a comment its length in blanks and its own newlines; a quoted
      literal its quote twice; an escape two characters, a newline it escapes kept; an interpolation's ends their
      width in blanks; a template's ends a backtick where no template is open around it, else a blank. */
  lemma TokenShown(toks: seq<Token>, rest: string, n: nat)
    requires Lexes(toks, rest) && n < |toks|
    ensures Stripped(toks[..n]) <= Stripped(toks[..n + 1]) <= Stripped(toks)
    ensures var out, frames := Stripped(toks[..n + 1])[|Stripped(toks[..n])|..], Frames(toks[..n]);
      match toks[n]
      case Code(c) => out == [c]
      case Raw(c) => out == if c == '(' || c == ')' then [' '] else [c]
      case Block(s) => |out| == |s| && forall k :: 0 <= k < |s| ==> out[k] == if s[k] == '\n' then '\n' else ' '
      case Line(s) => |out| == |s| && forall k :: 0 <= k < |s| ==> out[k] == ' ' && s[k] != '\n'
      case Quote(s) => s != [] && out == [s[0], s[0]]
      case Escape(s) => s != [] && out == if |s| == 2 && s[1] == '\n' then " \n" else "  "
      case Enter => out == "  "
      case Leave => out == " "
      case Open => out == if (exists f :: f in frames && f.Template?) then " " else "`"
      case Close => frames != [] && out == if (exists f :: f in frames[..|frames| - 1] && f.Template?) then " " else "`"
  {
    var upTo, done := toks[..n + 1], toks[..n];
    assert upTo[..n] == done && upTo[n] == toks[n];
    var mid := PrefixLexes(toks, n + 1, rest);
    PrefixShown(toks, n);
    PrefixShown(toks, n + 1);
    PrefixShown(upTo, n);
    LastShown(upTo, n, mid);
    hide *;
    ShownIs(Frames(done), toks[n], mid);
    assert (Stripped(done) + Shown(Frames(done), toks[n]))[|Stripped(done)|..] == Shown(Frames(done), toks[n]);
  }

  lemma LastShown(toks: seq<Token>, n: nat, rest: string)
    requires Lexes(toks, rest) && |toks| == n + 1
    ensures Legal(Frames(toks[..n]), toks[n], rest)
    ensures Stripped(toks) == Stripped(toks[..n]) + Shown(Frames(toks[..n]), toks[n])
  {
    hide Legal, Shown, Frames;
  }

  lemma ShownIs(frames: seq<Frame>, t: Token, rest: string)
    requires Legal(frames, t, rest)
    ensures var out := Shown(frames, t);
      match t
      case Code(c) => out == [c]
      case Raw(c) => out == if c == '(' || c == ')' then [' '] else [c]
      case Block(s) => |out| == |s| && forall k :: 0 <= k < |s| ==> out[k] == if s[k] == '\n' then '\n' else ' '
      case Line(s) => |out| == |s| && forall k :: 0 <= k < |s| ==> out[k] == ' ' && s[k] != '\n'
      case Quote(s) => s != [] && out == [s[0], s[0]]
      case Escape(s) => s != [] && out == if |s| == 2 && s[1] == '\n' then " \n" else "  "
      case Enter => out == "  "
      case Leave => out == " "
      case Open => out == if (exists f :: f in frames && f.Template?) then " " else "`"
      case Close => frames != [] && out == if (exists f :: f in frames[..|frames| - 1] && f.Template?) then " " else "`"
  {
    hide BlockShape, Inside;
  }

  /** Where no comment, literal or template can begin, the output is the source. */
  lemma PlainCodeStands(toks: seq<Token>, src: string)
    requires Reads(toks, src) && '/' !in src && '\'' !in src && '"' !in src && '`' !in src
    ensures Stripped(toks) == src
  {
    AllCode(toks, []);
  }

  lemma {:induction false} AllCode(toks: seq<Token>, rest: string)
    requires Lexes(toks, rest)
    requires var s := Source(toks); '/' !in s && '\'' !in s && '"' !in s && '`' !in s
    ensures Stripped(toks) == Source(toks) && Frames(toks) == []
  {
    if toks != [] {
      var last, init := toks[|toks| - 1], toks[..|toks| - 1];
      assert forall c :: c in Spelling(last) ==> c in Source(toks);
      AllCode(init, Spelling(last) + rest);
      hide Lexes, Stripped, Source;
      PlainTokenIsCode(last, rest);
    }
  }

  lemma PlainTokenIsCode(t: Token, rest: string)
    requires Legal([], t, rest)
    requires var s := Spelling(t); '/' !in s && '\'' !in s && '"' !in s && '`' !in s
    ensures t.Code?
  {
    hide Inside;
    assert "`"[0] == '`';
    assert Spelling(t) != [] ==> Spelling(t)[0] in Spelling(t);
  }

  function Codes(body: string): seq<Token> { seq(|body|, k requires 0 <= k < |body| => Code(body[k])) }

  /** Braces of the body open once its first `k` characters are read. */
  ghost function Opened(body: string, k: nat): int
    requires k <= |body|
  {
    multiset(body[..k])['{'] as int - multiset(body[..k])['}'] as int
  }

  lemma OpenedStep(body: string, k: nat)
    requires k < |body|
    ensures Opened(body, k + 1) ==
            Opened(body, k) + if body[k] == '{' then 1 else if body[k] == '}' then -1 else 0
  {
    assert body[..k + 1] == body[..k] + [body[k]];
  }

  lemma {:induction false} CodesRead(toks: seq<Token>, outer: seq<Frame>, body: string, k: nat, rest: string)
    requires Lexes(toks, body + rest) && Frames(toks) == outer + [Interp(0)] && k <= |body|
    requires forall j :: 0 <= j <= |body| ==> Opened(body, j) >= 0
    requires forall c :: c in body ==> c != '/' && c != '\'' && c != '"' && c != '`'
    ensures Lexes(toks + Codes(body[..k]), body[k..] + rest)
    ensures Frames(toks + Codes(body[..k])) == outer + [Interp(Opened(body, k))]
    decreases k
  {
    hide Lexes, Frames, Opened;
    if k == 0 {
      assert body[..0] == [] && Codes([]) == [] && toks + [] == toks && body[0..] == body;
      NothingOpened(body);
    } else {
      CodesRead(toks, outer, body, k - 1, rest);
      OpenedStep(body, k - 1);
      var init, c := toks + Codes(body[..k - 1]), body[k - 1];
      assert c in body && Opened(body, k) >= 0;
      CodesPush(toks, body, k - 1, rest);
      CodeReads(init, outer, c, Opened(body, k - 1), body[k..] + rest);
    }
  }

  lemma NothingOpened(body: string)
    ensures Opened(body, 0) == 0
  {
  }

  lemma CodesPush(toks: seq<Token>, body: string, k: nat, rest: string)
    requires k < |body|
    ensures toks + Codes(body[..k + 1]) == toks + Codes(body[..k]) + [Code(body[k])]
    ensures body[k..] + rest == [body[k]] + (body[k + 1..] + rest)
  {
    assert Codes(body[..k + 1]) == Codes(body[..k]) + [Code(body[k])];
  }

  lemma CodeReads(toks: seq<Token>, outer: seq<Frame>, c: char, braces: nat, rest: string)
    requires Lexes(toks, [c] + rest) && Frames(toks) == outer + [Interp(braces)]
    requires c != '/' && c != '\'' && c != '"' && c != '`' && (c == '}' ==> braces > 0)
    ensures Lexes(toks + [Code(c)], rest)
    ensures Frames(toks + [Code(c)]) ==
            outer + [Interp(if c == '{' then braces + 1 else if c == '}' then braces - 1 else braces)]
  {
    hide Lexes, Stripped, Source, BlockShape, QuoteShape, Inside;
    var frames := Frames(toks);
    assert frames[..|frames| - 1] == outer;
    assert Legal(frames, Code(c), rest);
    PushToken(toks, Code(c), rest);
    hide Frames;
  }

  /** In a template's text an interpolation whose braces pair up is read as its opener, its code and its end, whatever
      stands around it: no brace inside ends it, and the first unpaired one does. */
  lemma InterpolationReads(toks: seq<Token>, body: string, rest: string)
    requires Lexes(toks, "${" + body + "}" + rest)
    requires Frames(toks) != [] && Frames(toks)[|Frames(toks)| - 1].Template?
    requires forall c :: c in body ==> c != '/' && c != '\'' && c != '"' && c != '`'
    requires forall k :: 0 <= k <= |body| ==> multiset(body[..k])['}'] <= multiset(body[..k])['{']
    requires multiset(body)['}'] == multiset(body)['{']
    ensures Lexes(toks + [Enter] + Codes(body) + [Leave], rest)
    ensures Frames(toks + [Enter] + Codes(body) + [Leave]) == Frames(toks)
  {
    var outer := Frames(toks);
    Fenced("${", body, "}", rest);
    assert forall j :: 0 <= j <= |body| ==> Opened(body, j) >= 0;
    assert Opened(body, |body|) == 0;
    hide *;
    EnterReads(toks, outer, body + ("}" + rest));
    CodesRead(toks + [Enter], outer, body, |body|, "}" + rest);
    LeaveReads(toks + [Enter] + Codes(body), outer, rest);
  }

  lemma EnterReads(toks: seq<Token>, outer: seq<Frame>, rest: string)
    requires Lexes(toks, "${" + rest) && Frames(toks) == outer && outer != [] && outer[|outer| - 1].Template?
    ensures Lexes(toks + [Enter], rest) && Frames(toks + [Enter]) == outer + [Interp(0)]
  {
    hide Lexes, Stripped, Source;
    assert Legal(outer, Enter, rest);
    PushToken(toks, Enter, rest);
    hide Frames;
  }

  function Raws(text: string): seq<Token> { seq(|text|, k requires 0 <= k < |text| => Raw(text[k])) }

  lemma {:induction false} RawsRead(toks: seq<Token>, outer: seq<Frame>, text: string, k: nat, rest: string)
    requires Lexes(toks, text + ("`" + rest)) && Frames(toks) == outer + [Template] && k <= |text|
    requires forall c :: c in text ==> c != '\\' && c != '`' && c != '$'
    ensures Lexes(toks + Raws(text[..k]), text[k..] + ("`" + rest))
    ensures Frames(toks + Raws(text[..k])) == outer + [Template]
    decreases k
  {
    hide Lexes, Frames;
    if k == 0 {
      assert text[..0] == [] && Raws([]) == [] && toks + [] == toks && text[0..] == text;
    } else {
      RawsRead(toks, outer, text, k - 1, rest);
      var init, c := toks + Raws(text[..k - 1]), text[k - 1];
      assert c in text;
      assert toks + Raws(text[..k]) == init + [Raw(c)];
      assert text[k - 1..] + ("`" + rest) == [c] + (text[k..] + ("`" + rest));
      RawReads(init, outer, c, text[k..] + ("`" + rest));
    }
  }

  lemma RawReads(toks: seq<Token>, outer: seq<Frame>, c: char, rest: string)
    requires Lexes(toks, [c] + rest) && Frames(toks) == outer + [Template] && c != '\\' && c != '`' && c != '$'
    ensures Lexes(toks + [Raw(c)], rest) && Frames(toks + [Raw(c)]) == outer + [Template]
  {
    hide Lexes, Stripped, Source;
    assert Legal(Frames(toks), Raw(c), rest);
    PushToken(toks, Raw(c), rest);
    hide Frames;
  }

  /** Wherever code is read, in an interpolation of another template too, a template of plain text is read as its two
      delimiters and the text between, and leaves the nesting as it found it. */
  lemma TemplateReads(toks: seq<Token>, text: string, rest: string)
    requires Lexes(toks, "`" + text + "`" + rest)
    requires Frames(toks) == [] || Frames(toks)[|Frames(toks)| - 1].Interp?
    requires forall c :: c in text ==> c != '\\' && c != '`' && c != '$'
    ensures Lexes(toks + [Open] + Raws(text) + [Close], rest)
    ensures Frames(toks + [Open] + Raws(text) + [Close]) == Frames(toks)
  {
    var outer := Frames(toks);
    assert !InText(outer);
    hide *;
    Fenced("`", text, "`", rest);
    OpenReads(toks, outer, text + ("`" + rest));
    RawsRead(toks + [Open], outer, text, |text|, rest);
    CloseReads(toks + [Open] + Raws(text), outer, rest);
  }

  lemma Fenced(opener: string, text: string, end: string, rest: string)
    ensures opener + text + end + rest == opener + (text + (end + rest))
    ensures text[..|text|] == text && text[|text|..] + (end + rest) == end + rest
  {
    Regroup(opener + text, end, rest);
    Regroup(opener, text, end + rest);
  }

  lemma OpenReads(toks: seq<Token>, outer: seq<Frame>, rest: string)
    requires Lexes(toks, "`" + rest) && Frames(toks) == outer && !InText(outer)
    ensures Lexes(toks + [Open], rest) && Frames(toks + [Open]) == outer + [Template]
  {
    hide Lexes, Stripped, Source;
    assert Legal(outer, Open, rest);
    PushToken(toks, Open, rest);
    hide Frames;
  }

  lemma CloseReads(toks: seq<Token>, outer: seq<Frame>, rest: string)
    requires Lexes(toks, "`" + rest) && Frames(toks) == outer + [Template]
    ensures Lexes(toks + [Close], rest) && Frames(toks + [Close]) == outer
  {
    hide Lexes, Stripped, Source;
    assert Frames(toks)[..|outer|] == outer;
    assert Legal(Frames(toks), Close, rest);
    PushToken(toks, Close, rest);
    hide Frames;
  }

  lemma LeaveReads(toks: seq<Token>, outer: seq<Frame>, rest: string)
    requires Lexes(toks, "}" + rest) && Frames(toks) == outer + [Interp(0)]
    ensures Lexes(toks + [Leave], rest) && Frames(toks + [Leave]) == outer
  {
    hide Lexes, Stripped, Source;
    assert Frames(toks)[..|outer|] == outer;
    assert Legal(Frames(toks), Leave, rest);
    PushToken(toks, Leave, rest);
    hide Frames;
  }

  /** A character of code or raw text in the output is a character of the source, `n` tokens in. */
  lemma {:induction false} PlaceOfToken(toks: seq<Token>, rest: string, o: nat) returns (n: nat)
    requires Lexes(toks, rest) && o < |Stripped(toks)| && !Faded(Stripped(toks)[o])
    ensures n < |toks| && |Stripped(toks[..n])| == o && Spelling(toks[n]) == [Stripped(toks)[o]]
  {
    var last, init := toks[|toks| - 1], toks[..|toks| - 1];
    hide Legal, Shown, Faded;
    if o < |Stripped(init)| {
      n := PlaceOfToken(init, Spelling(last) + rest, o);
      assert init[..n] == toks[..n];
    } else {
      n := |init|;
      ShownPlace(Frames(init), last, rest, o - |Stripped(init)|);
    }
  }

  lemma {:induction false} PrefixShown(toks: seq<Token>, n: nat)
    requires n <= |toks|
    ensures Stripped(toks[..n]) <= Stripped(toks) && Source(toks[..n]) <= Source(toks)
  {
    hide Shown, Spelling;
    if n < |toks| {
      PrefixShown(toks[..|toks| - 1], n);
      assert toks[..|toks| - 1][..n] == toks[..n];
    } else {
      assert toks[..n] == toks;
    }
  }

  /** Where no quoted literal spans a line, each unfaded character of the output stands on its own line of the
      source. */
  lemma PlaceInSource(toks: seq<Token>, src: string, o: nat) returns (s: nat)
    requires Reads(toks, src) && OneLineQuotes(toks) && o < |Stripped(toks)| && !Faded(Stripped(toks)[o])
    ensures s < |src| && src[s] == Stripped(toks)[o] && Count(src[..s], '\n') == Count(Stripped(toks)[..o], '\n')
  {
    hide Lexes, Stripped, Source, Count, Faded, OneLineQuotes, Spelling;
    var n := PlaceOfToken(toks, [], o);
    s := |Source(toks[..n])|;
    PrefixShown(toks, n);
    PrefixShown(toks, n + 1);
    SourceStep(toks, n);
    LineNumbersKeptIff(toks, []);
    assert SameLine(toks[..n]);
    assert src[..s] == Source(toks[..n]) && Stripped(toks)[..o] == Stripped(toks[..n]);
    assert src[s] == Source(toks[..n + 1])[s] == Spelling(toks[n])[0];
  }

  lemma SourceStep(toks: seq<Token>, n: nat)
    requires n < |toks|
    ensures Source(toks[..n + 1]) == Source(toks[..n]) + Spelling(toks[n])
  {
    assert toks[..n + 1][..n] == toks[..n];
  }
}
