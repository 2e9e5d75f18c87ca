/** The argument descriptor grammar: a flat string split on four delimiters, payloads percent-escaped,
    keyword arguments nested in braces; and the order-free normal form descriptors are compared by. */
module ArgDescriptors {
  import opened Ordering
  import opened Text

  // ------------------------------------------------------------------ escaping

  function EscapeChar(c: char): string {
    if c == '%' then "%25" else if c == ',' then "%2C" else if c == '=' then "%3D"
    else if c == '{' then "%7B" else if c == '}' then "%7D" else [c]
  }

  /** The extractors' `escapeDescriptorText`. */
  function Escape(text: string): string {
    if text == [] then [] else EscapeChar(text[0]) + Escape(text[1..])
  }

  /** The character an escape at the front of `s` stands for. */
  function Unescaped(s: string): Option<char> {
    if |s| < 3 || s[0] != '%' then None
    else if s[1] == '2' && s[2] == '5' then Some('%')
    else if s[1] == '2' && s[2] == 'C' then Some(',')
    else if s[1] == '3' && s[2] == 'D' then Some('=')
    else if s[1] == '7' && s[2] == 'B' then Some('{')
    else if s[1] == '7' && s[2] == 'D' then Some('}')
    else None
  }

  /** `unescapeDescriptorText`: every escape replaced, left to right; other percent signs stand. */
  function Unescape(text: string): string {
    if text == [] then []
    else if Unescaped(text).Some? then [Unescaped(text).value] + Unescape(text[3..])
    else [text[0]] + Unescape(text[1..])
  }

  lemma UnescapeStep(c: char, rest: string)
    ensures Unescape(EscapeChar(c) + rest) == [c] + Unescape(rest)
  {
    var head := EscapeChar(c);
    assert (head + rest)[|head|..] == rest;
    if |head| == 3 { assert Unescaped(head + rest) == Some(c); }
  }

  lemma {:induction false} EscapeRoundTrip(text: string)
    ensures Unescape(Escape(text)) == text
  {
    hide Unescape, EscapeChar;
    if text == [] {
      UnescapeNothing(Escape(text));
    } else {
      EscapeRoundTrip(text[1..]);
      UnescapeStep(text[0], Escape(text[1..]));
      assert [text[0]] + text[1..] == text;
    }
  }

  /** The five escapes give their characters, and any other character, a percent sign included, stands for itself. */
  lemma UnescapeReads(text: string, rest: string)
    ensures text == "%25" + rest ==> Unescape(text) == "%" + Unescape(rest)
    ensures text == "%2C" + rest ==> Unescape(text) == "," + Unescape(rest)
    ensures text == "%3D" + rest ==> Unescape(text) == "=" + Unescape(rest)
    ensures text == "%7B" + rest ==> Unescape(text) == "{" + Unescape(rest)
    ensures text == "%7D" + rest ==> Unescape(text) == "}" + Unescape(rest)
    ensures
      || text == [] || "%25" <= text || "%2C" <= text || "%3D" <= text || "%7B" <= text || "%7D" <= text
      || Unescape(text) == [text[0]] + Unescape(text[1..])
  {
    if |text| >= 3 && text[0] == '%' {
      var code := text[..3];
      assert code[0] == '%' && code[1] == text[1] && code[2] == text[2] && code <= text;
      assert Unescaped(text).Some? ==>
        code == "%25" || code == "%2C" || code == "%3D" || code == "%7B" || code == "%7D";
    }
    assert forall code: string :: |code| == 3 && text == code + rest ==> text[3..] == rest;
  }

  lemma UnescapeNothing(text: string)
    requires text == []
    ensures Unescape(text) == text
  {
  }

  /** No delimiter survives escaping. */
  lemma {:induction false} EscapeHidesDelimiters(text: string)
    ensures forall c :: c in Escape(text) ==> c != ',' && c != '=' && c != '{' && c != '}'
  {
    if text != [] { EscapeHidesDelimiters(text[1..]); }
  }

  // ----------------------------------------------------------------- splitting

  /** Put a character at the front of the first piece. */
  function Onto(c: char, pieces: seq<string>): (r: seq<string>)
    requires pieces != []
    ensures r != []
  {
    [[c] + pieces[0]] + pieces[1..]
  }

  /** The pieces between the commas at brace depth zero, the scan starting at `depth`. */
  function Pieces(body: string, depth: int): (pieces: seq<string>)
    ensures pieces != []
  {
    if body == [] then [[]]
    else if body[0] == '{' then Onto('{', Pieces(body[1..], depth + 1))
    else if body[0] == '}' then Onto('}', Pieces(body[1..], depth - 1))
    else if body[0] == ',' && depth == 0 then [[]] + Pieces(body[1..], depth)
    else Onto(body[0], Pieces(body[1..], depth))
  }

  /** `head` put in front of the first piece. */
  function Resume(head: string, pieces: seq<string>): seq<string>
    requires pieces != []
  {
    [head + pieces[0]] + pieces[1..]
  }

  lemma ResumeOnto(head: string, c: char, pieces: seq<string>)
    requires pieces != []
    ensures Resume(head, Onto(c, pieces)) == Resume(head + [c], pieces)
  {
    assert head + ([c] + pieces[0]) == (head + [c]) + pieces[0];
  }

  method SplitPairs(body: string) returns (pairs: seq<string>)
    ensures pairs == Pieces(body, 0)
  {
    hide *;
    pairs := [];
    var depth, start := 0, 0;
    ResumeNothing(Pieces(body, 0));
    assert body[0..0] == [] && body[0..] == body;
    for i := 0 to |body|
      invariant 0 <= start <= i
      invariant Pieces(body, 0) == pairs + Resume(body[start..i], Pieces(body[i..], depth))
    {
      var c := body[i];
      PiecesStep(body[i..], depth);
      SlicesStep(body, start, i);
      if c == '{' {
        ResumeOnto(body[start..i], c, Pieces(body[i + 1..], depth + 1));
        depth := depth + 1;
      } else if c == '}' {
        ResumeOnto(body[start..i], c, Pieces(body[i + 1..], depth - 1));
        depth := depth - 1;
      } else if c == ',' && depth == 0 {
        ResumeCut(body[start..i], Pieces(body[i + 1..], depth));
        Regroup(pairs, [body[start..i]], Pieces(body[i + 1..], depth));
        ResumeNothing(Pieces(body[i + 1..], depth));
        pairs := pairs + [body[start..i]];
        start := i + 1;
        assert body[i + 1..i + 1] == [];
      } else {
        ResumeOnto(body[start..i], c, Pieces(body[i + 1..], depth));
      }
    }
    ResumeLast(body[start..], depth);
    assert body[|body|..] == [] && body[start..|body|] == body[start..];
    pairs := pairs + [body[start..]];
  }

  lemma SlicesStep(body: string, start: nat, i: nat)
    requires start <= i < |body|
    ensures body[i..][0] == body[i] && body[i..][1..] == body[i + 1..]
    ensures body[start..i] + [body[i]] == body[start..i + 1]
  {
  }

  lemma PiecesStep(s: string, depth: int)
    requires s != []
    ensures Pieces(s, depth) ==
      if s[0] == '{' then Onto('{', Pieces(s[1..], depth + 1))
      else if s[0] == '}' then Onto('}', Pieces(s[1..], depth - 1))
      else if s[0] == ',' && depth == 0 then [[]] + Pieces(s[1..], depth)
      else Onto(s[0], Pieces(s[1..], depth))
  {
  }

  lemma ResumeNothing(pieces: seq<string>)
    requires pieces != []
    ensures Resume([], pieces) == pieces
  {
    assert [] + pieces[0] == pieces[0];
  }

  lemma ResumeCut(head: string, pieces: seq<string>)
    requires pieces != []
    ensures Resume(head, [[]] + pieces) == [head] + pieces
  {
    assert head + [] == head;
  }

  lemma ResumeLast(head: string, depth: int)
    ensures Resume(head, Pieces([], depth)) == [head]
  {
    assert head + [] == head;
  }

  lemma JoinOnto(c: char, pieces: seq<string>)
    requires pieces != []
    ensures Join(Onto(c, pieces), ',') == [c] + Join(pieces, ',')
  {
    assert Onto(c, pieces)[1..] == pieces[1..];
    if |pieces| > 1 {
      Regroup([c], pieces[0], [',']);
      Regroup([c], pieces[0] + [','], Join(pieces[1..], ','));
    }
  }

  /** Nothing is lost by splitting: on every text, balanced or not, the pieces rejoin to it. */
  lemma {:induction false} PiecesRejoin(body: string, depth: int)
    ensures Join(Pieces(body, depth), ',') == body
    decreases |body|
  {
    hide Onto, Pieces;
    if body == [] {
      assert Pieces(body, depth) == [[]] by { PiecesOfNothing(body, depth); }
    } else {
      var c := body[0];
      var deeper := if c == '{' then depth + 1 else if c == '}' then depth - 1 else depth;
      var pieces := Pieces(body[1..], deeper);
      PiecesStep(body, depth);
      PiecesRejoin(body[1..], deeper);
      assert [c] + body[1..] == body;
      if c == ',' && depth == 0 {
        assert ([[]] + pieces)[1..] == pieces;
      } else {
        JoinOnto(c, pieces);
      }
    }
  }

  lemma PiecesOfNothing(body: string, depth: int)
    requires body == []
    ensures Pieces(body, depth) == [[]]
  {
  }

  // -------------------------------------------------------------- descriptor trees

  /** What a descriptor describes. An `Atom` is any form written as one word; a unary operator is written in front
      of its operand's descriptor. */
  datatype Tree = Atom(text: string) | Str(payload: string) | Unary(operand: Tree) | Kwargs(entries: seq<Entry>)
  datatype Entry = Pair(key: string, value: Tree) | Splat

  const KWARGS := "kwargs{"
  const STR := "str:"
  const UNARY := "unary"
  const BINOP := "binop:"
  const SPLAT := "**splat"

  function Print(t: Tree): string {
    match t
    case Atom(text) => text
    case Str(payload) => STR + Escape(payload)
    case Unary(operand) => UNARY + Print(operand)
    case Kwargs(entries) => KWARGS + Join(PrintEntries(entries), ',') + "}"
  }

  function PrintEntries(entries: seq<Entry>): (texts: seq<string>)
    ensures |texts| == |entries|
  {
    if entries == [] then [] else [PrintEntry(entries[0])] + PrintEntries(entries[1..])
  }

  function PrintEntry(e: Entry): string {
    match e
    case Pair(key, value) => key + "=" + Print(value)
    case Splat => SPLAT
  }

  predicate Braceless(text: string) { forall c :: c in text ==> c != '{' && c != '}' }

  predicate Plain(text: string) { Braceless(text) && ',' !in text }

  /** The trees the extractors print. A word holds no brace, and no equals sign behind or before a comma: the words
      with a comma are the comma operator `binop:,` and the global `id:$,`, printed as they stand. A key is a name or
      an operator, so it may hold an equals sign (`name=`, `==`) but no other delimiter and no colon. An empty literal
      is no kwargs. */
  predicate Printable(t: Tree) {
    match t
    case Atom(text) => Braceless(text) && !(STR <= text) && !(UNARY <= text) && (',' in text ==> '=' !in text)
    case Str(payload) => true
    case Unary(operand) => Printable(operand)
    case Kwargs(entries) => entries != [] && forall e :: e in entries ==> PrintableEntry(e)
  }

  predicate PrintableEntry(e: Entry) {
    match e
    case Pair(key, value) => Plain(key) && ':' !in key && Printable(value)
    case Splat => true
  }

  /** The printed tree shows a comma outside all braces. */
  predicate ShowsComma(t: Tree) {
    match t
    case Atom(text) => ',' in text
    case Unary(operand) => ShowsComma(operand)
    case _ => false
  }

  predicate EntryShowsComma(e: Entry) { e.Pair? && ShowsComma(e.value) }

  /** The entry prints as one piece, whose first equals sign ends its key. */
  predicate Clean(e: Entry) { e.Pair? ==> '=' !in e.key && !ShowsComma(e.value) }

  // ------------------------------------------------------- splitting printed trees

  /** At brace depth `lo` or more the splitter passes over `a` whole. */
  ghost predicate Solid(a: string, lo: nat) {
    forall b: string, depth: int {:trigger Pieces(a + b, depth)} ::
      depth >= lo ==> Pieces(a + b, depth) == Resume(a, Pieces(b, depth))
  }

  lemma ResumeTwice(a: string, b: string, pieces: seq<string>)
    requires pieces != []
    ensures Resume(a, Resume(b, pieces)) == Resume(a + b, pieces)
  {
    Regroup(a, b, pieces[0]);
  }

  lemma SolidConcat(a: string, b: string, lo: nat)
    requires Solid(a, lo) && Solid(b, lo)
    ensures Solid(a + b, lo)
  {
    hide Pieces;
    forall c: string, depth: int | depth >= lo ensures Pieces((a + b) + c, depth) == Resume(a + b, Pieces(c, depth)) {
      Regroup(a, b, c);
      assert Pieces(a + (b + c), depth) == Resume(a, Pieces(b + c, depth));
      ResumeTwice(a, b, Pieces(c, depth));
    }
  }

  lemma SolidNothing(lo: nat)
    ensures Solid([], lo)
  {
    hide Pieces;
    forall b: string, depth: int ensures Pieces([] + b, depth) == Resume([], Pieces(b, depth)) {
      assert [] + b == b;
      ResumeNothing(Pieces(b, depth));
    }
  }

  lemma SolidChar(c: char, lo: nat)
    requires c != '{' && c != '}' && (c == ',' ==> lo > 0)
    ensures Solid([c], lo)
  {
    forall b: string, depth: int | depth >= lo ensures Pieces([c] + b, depth) == Resume([c], Pieces(b, depth)) {
      assert ([c] + b)[1..] == b;
      PiecesStep([c] + b, depth);
    }
  }

  lemma {:induction false} SolidPlain(a: string, lo: nat)
    requires Braceless(a) && (',' in a ==> lo > 0)
    ensures Solid(a, lo)
  {
    hide Solid;
    if a == [] {
      SolidNothing(lo);
    } else {
      assert a[0] in a;
      SolidChar(a[0], lo);
      assert forall c :: c in a[1..] ==> c in a;
      SolidPlain(a[1..], lo);
      SolidConcat([a[0]], a[1..], lo);
      assert [a[0]] + a[1..] == a;
    }
  }

  lemma BraceSteps(b: string, depth: int)
    ensures Pieces("{" + b, depth) == Resume("{", Pieces(b, depth + 1))
    ensures Pieces("}" + b, depth) == Resume("}", Pieces(b, depth - 1))
  {
    assert ("{" + b)[1..] == b && ("}" + b)[1..] == b;
    PiecesStep("{" + b, depth);
    PiecesStep("}" + b, depth);
  }

  /** Whatever stands inside one more pair of braces is passed over whole. */
  lemma SolidBraces(a: string)
    requires Solid(a, 1)
    ensures Solid("{" + (a + "}"), 0)
  {
    hide Pieces, Resume;
    forall b: string, depth: int | depth >= 0
      ensures Pieces(("{" + (a + "}")) + b, depth) == Resume("{" + (a + "}"), Pieces(b, depth))
    {
      Regroup("{", a + "}", b);
      Regroup(a, "}", b);
      BraceSteps(a + ("}" + b), depth);
      assert Pieces(a + ("}" + b), depth + 1) == Resume(a, Pieces("}" + b, depth + 1));
      BraceSteps(b, depth + 1);
      ResumeTwice(a, "}", Pieces(b, depth));
      ResumeTwice("{", a + "}", Pieces(b, depth));
    }
  }

  lemma SolidDeeper(a: string, lo: nat)
    requires Solid(a, 0)
    ensures Solid(a, lo)
  {
    hide Pieces, Resume;
  }

  lemma EscapedIsPlain(payload: string)
    ensures Plain(Escape(payload))
  {
    EscapeHidesDelimiters(payload);
  }

  /** A printed tree shows the splitter no brace it does not match, and a comma only where `ShowsComma` says. */
  lemma {:induction false} PrintedSolid(t: Tree, lo: nat)
    requires Printable(t) && (ShowsComma(t) ==> lo > 0)
    ensures Solid(Print(t), lo)
    decreases t, 1
  {
    hide Solid, Escape, Plain, Braceless;
    match t
    case Atom(text) => SolidPlain(text, lo);
    case Str(payload) =>
      EscapedIsPlain(payload);
      PlainWords();
      SolidPlain(STR, lo);
      SolidPlain(Escape(payload), lo);
      SolidConcat(STR, Escape(payload), lo);
    case Unary(operand) =>
      PlainWords();
      SolidPlain(UNARY, lo);
      PrintedSolid(operand, lo);
      SolidConcat(UNARY, Print(operand), lo);
    case Kwargs(entries) =>
      var texts := PrintEntries(entries);
      EntriesSolid(entries, 1);
      JoinedSolid(texts);
      SolidBraces(Join(texts, ','));
      PlainWords();
      SolidPlain("kwargs", 0);
      SolidConcat("kwargs", "{" + (Join(texts, ',') + "}"), 0);
      Regroup("kwargs", "{", Join(texts, ',') + "}");
      Regroup(KWARGS, Join(texts, ','), "}");
      assert "kwargs" + "{" == KWARGS;
      SolidDeeper(Print(t), lo);
  }

  lemma PlainWords()
    ensures Plain(STR) && Plain(SPLAT) && Plain("=") && Plain(UNARY) && Plain(BINOP) && Plain("kwargs")
    ensures forall a :: Plain(a) ==> Braceless(a) && ',' !in a
  {
  }

  ghost predicate AllSolid(texts: seq<string>, lo: nat) { forall i :: 0 <= i < |texts| ==> Solid(texts[i], lo) }

  lemma {:induction false} EntriesSolid(entries: seq<Entry>, lo: nat)
    requires forall e :: e in entries ==> PrintableEntry(e) && (EntryShowsComma(e) ==> lo > 0)
    ensures AllSolid(PrintEntries(entries), lo)
    decreases entries, 0
  {
    hide Solid, Plain, Print;
    if entries != [] {
      var e := entries[0];
      assert e in entries;
      EntrySolid(e, lo);
      EntriesSolid(entries[1..], lo);
    }
  }

  lemma {:induction false} EntrySolid(e: Entry, lo: nat)
    requires PrintableEntry(e) && (EntryShowsComma(e) ==> lo > 0)
    ensures Solid(PrintEntry(e), lo)
    decreases e, 2
  {
    hide Solid, Plain, Print, Braceless;
    PlainWords();
    match e
    case Pair(key, value) =>
      PrintedSolid(value, lo);
      SolidPlain(key, lo);
      SolidPlain("=", lo);
      SolidConcat(key, "=", lo);
      SolidConcat(key + "=", Print(value), lo);
    case Splat => SolidPlain(SPLAT, lo);
  }

  lemma {:induction false} JoinedSolid(texts: seq<string>)
    requires AllSolid(texts, 1)
    ensures Solid(Join(texts, ','), 1)
  {
    hide Solid;
    if texts == [] {
      SolidNothing(1);
    } else {
      if |texts| > 1 {
        JoinedSolid(texts[1..]);
        SolidChar(',', 1);
        SolidConcat(texts[0], [','], 1);
        SolidConcat(texts[0] + [','], Join(texts[1..], ','), 1);
      }
    }
  }

  /** Splitting the joined entries gives the entries back. */
  lemma {:induction false} SplitsIntoEntries(texts: seq<string>)
    requires texts != [] && AllSolid(texts, 0)
    ensures Pieces(Join(texts, ','), 0) == texts
  {
    hide Resume, Pieces;
    if |texts| == 1 {
      assert texts[0] + [] == texts[0];
      assert Pieces(texts[0] + [], 0) == Resume(texts[0], Pieces([], 0));
      ResumeLast(texts[0], 0);
    } else {
      var rest := Join(texts[1..], ',');
      SplitsIntoEntries(texts[1..]);
      Regroup(texts[0], [','], rest);
      assert Pieces(texts[0] + ([','] + rest), 0) == Resume(texts[0], Pieces([','] + rest, 0));
      assert ([','] + rest)[1..] == rest;
      PiecesStep([','] + rest, 0);
      ResumeCut(texts[0], texts[1..]);
    }
  }

  // ------------------------------------------------------------ reading trees back

  /** `descriptor.slice("kwargs{".length, -1)`. */
  function KwargsBody(d: string): string { if |d| <= |KWARGS| then [] else d[|KWARGS|..|d| - 1] }

  lemma {:induction false} PiecesAreShorter(body: string, depth: int)
    ensures forall p :: p in Pieces(body, depth) ==> |p| <= |body|
    decreases |body|
  {
    if body != [] {
      var c := body[0];
      var deeper := if c == '{' then depth + 1 else if c == '}' then depth - 1 else depth;
      PiecesAreShorter(body[1..], deeper);
    }
  }

  /** The tree a descriptor spells, by the grammar's own splitting and unescaping. */
  function Parse(d: string): Tree
    decreases |d|, 0
  {
    if KWARGS <= d then
      var pieces := Pieces(KwargsBody(d), 0);
      PiecesAreShorter(KwargsBody(d), 0);
      Kwargs(ParseEntries(pieces, |d| - 1))
    else if STR <= d then Str(Unescape(d[|STR|..]))
    else if UNARY <= d then Unary(Parse(d[|UNARY|..]))
    else Atom(d)
  }

  function ParseEntries(pieces: seq<string>, bound: nat): seq<Entry>
    requires forall p :: p in pieces ==> |p| <= bound
    decreases bound, 1, |pieces|
  {
    if pieces == [] then []
    else
      assert pieces[0] in pieces;
      [ParseEntry(pieces[0], bound)] + ParseEntries(pieces[1..], bound)
  }

  /** One `key=value` piece; a piece without `=` is the splat marker. */
  function ParseEntry(piece: string, bound: nat): Entry
    requires |piece| <= bound
    decreases bound, 1, 0
  {
    var eq := IndexOf(piece, '=');
    if eq == -1 then Splat else Pair(piece[..eq], Parse(piece[eq + 1..]))
  }

  /** At every depth no keyword's value shows a comma, and no key holds an equals sign. */
  predicate Returns(t: Tree) {
    match t
    case Unary(operand) => Returns(operand)
    case Kwargs(entries) => forall e :: e in entries ==> EntryReturns(e)
    case _ => true
  }

  predicate EntryReturns(e: Entry) { Clean(e) && (e.Pair? ==> Returns(e.value)) }

  /** A descriptor tree comes back from its printed form: nested pairs, keys, operators and payloads alike. */
  lemma {:induction false} ParsePrinted(t: Tree)
    requires Printable(t) && Returns(t)
    ensures Parse(Print(t)) == t
    decreases t, 1
  {
    hide Solid, Pieces;
    match t
    case Atom(text) =>
      assert KWARGS[6] == '{';
      assert |text| > 6 ==> text[6] in text;
    case Str(payload) =>
      hide Escape;
      EscapeRoundTrip(payload);
      assert (STR + Escape(payload))[|STR|..] == Escape(payload);
      assert KWARGS[0] == 'k' && Print(t)[0] == 's';
    case Unary(operand) =>
      ParsePrinted(operand);
      ParseUnary(Print(operand));
    case Kwargs(entries) =>
      assert forall e :: e in entries ==> EntryReturns(e);
      ParseEntriesPrinted(entries);
  }

  lemma {:induction false} ParseEntriesPrinted(entries: seq<Entry>)
    requires entries != [] && forall e :: e in entries ==> PrintableEntry(e) && EntryReturns(e)
    ensures Parse(Print(Kwargs(entries))) == Kwargs(entries)
    decreases entries, 1
  {
    assert forall e :: e in entries ==> !EntryShowsComma(e);
    hide *;
    var texts := PrintEntries(entries);
    EntriesSolid(entries, 0);
    SplitsIntoEntries(texts);
    ParseKwargs(entries);
    EntriesParse(entries, |Print(Kwargs(entries))| - 1);
  }

  lemma ParseUnary(d: string)
    ensures Parse(UNARY + d) == Unary(Parse(d))
  {
    assert (UNARY + d)[|UNARY|..] == d && (UNARY + d)[0] == 'u' && KWARGS[0] == 'k' && STR[0] == 's';
  }

  lemma KwargsRead(texts: seq<string>)
    ensures var d := KWARGS + Join(texts, ',') + "}"; KWARGS <= d && KwargsBody(d) == Join(texts, ',')
  {
    hide Join;
  }

  lemma ParsePair(key: string, text: string, bound: nat)
    requires '=' !in key && |key + "=" + text| <= bound
    ensures ParseEntry(key + "=" + text, bound) == Pair(key, Parse(text))
  {
    hide Parse;
    var piece := key + ['='] + text;
    IndexOfFirst(key, text, '=');
    assert piece[|key| + 1..] == text && piece[..|key|] == key;
  }

  lemma {:induction false} EntryParses(e: Entry, bound: nat)
    requires PrintableEntry(e) && EntryReturns(e) && |PrintEntry(e)| <= bound
    ensures ParseEntry(PrintEntry(e), bound) == e
    decreases e, 2
  {
    hide Parse, Print;
    match e
    case Pair(key, value) =>
      hide ParseEntry;
      ParsePair(key, Print(value), bound);
      ParsePrinted(value);
    case Splat => SplatHasNoKey();
  }

  lemma {:induction false} EntriesParse(entries: seq<Entry>, bound: nat)
    requires forall e :: e in entries ==> PrintableEntry(e) && EntryReturns(e)
    requires forall p :: p in PrintEntries(entries) ==> |p| <= bound
    ensures ParseEntries(PrintEntries(entries), bound) == entries
    decreases entries, 0
  {
    hide PrintEntry, ParseEntry, Printable, Plain;
    if entries != [] {
      var texts := PrintEntries(entries);
      assert entries[0] in entries;
      assert texts[0] == PrintEntry(entries[0]) && texts[1..] == PrintEntries(entries[1..]);
      hide PrintEntries, PrintableEntry, EntryReturns;
      assert texts[0] in texts;
      EntryParses(entries[0], bound);
      EntriesParse(entries[1..], bound);
      assert [entries[0]] + entries[1..] == entries;
    }
  }

  lemma SplatHasNoKey()
    ensures IndexOf(SPLAT, '=') == -1
  {
    IndexOfFirst(SPLAT, [], '=');
  }

  // ------------------------------------------------- the pieces of printed entries

  /** A comma behind `a` stands at depth zero: the splitter cuts there and starts afresh. */
  ghost predicate Level(a: string) {
    forall b: string {:trigger Pieces(a + ([','] + b), 0)} :: Pieces(a + ([','] + b), 0) == Pieces(a, 0) + Pieces(b, 0)
  }

  lemma SolidStep(a: string, b: string)
    requires Solid(a, 0)
    ensures Pieces(a + b, 0) == Resume(a, Pieces(b, 0))
  {
    hide Pieces, Resume;
  }

  lemma CommaStep(b: string)
    ensures Pieces([','] + b, 0) == [[]] + Pieces(b, 0)
  {
    assert ([','] + b)[1..] == b;
    PiecesStep([','] + b, 0);
  }

  lemma SolidLevel(a: string)
    requires Solid(a, 0)
    ensures Level(a) && Pieces(a, 0) == [a]
  {
    hide Pieces, Resume, Solid;
    assert a + [] == a;
    SolidStep(a, []);
    ResumeLast(a, 0);
    forall b: string ensures Pieces(a + ([','] + b), 0) == Pieces(a, 0) + Pieces(b, 0) {
      SolidStep(a, [','] + b);
      CommaStep(b);
      ResumeCut(a, Pieces(b, 0));
    }
  }

  lemma LevelComma(a: string, b: string)
    requires Level(a) && Level(b)
    ensures Level(a + ([','] + b)) && Pieces(a + ([','] + b), 0) == Pieces(a, 0) + Pieces(b, 0)
  {
    hide Pieces;
    forall c: string
      ensures Pieces((a + ([','] + b)) + ([','] + c), 0) == Pieces(a + ([','] + b), 0) + Pieces(c, 0)
    {
      Regroup(a, [','] + b, [','] + c);
      Regroup([','], b, [','] + c);
      assert Pieces(a + ([','] + (b + ([','] + c))), 0) == Pieces(a, 0) + Pieces(b + ([','] + c), 0);
      Regroup(Pieces(a, 0), Pieces(b, 0), Pieces(c, 0));
    }
  }

  lemma {:induction false} CutAtComma(text: string) returns (head: string, rest: string)
    requires Braceless(text) && ',' in text
    ensures text == head + ([','] + rest) && Plain(head) && Braceless(rest)
    ensures '=' in rest ==> '=' in text
  {
    assert text[0] in text && text == [text[0]] + text[1..];
    assert forall c :: c in text[1..] ==> c in text;
    if text[0] == ',' {
      head, rest := [], text[1..];
    } else {
      head, rest := CutAtComma(text[1..]);
      Regroup([text[0]], head, [','] + rest);
      head := [text[0]] + head;
    }
  }

  /** A text without braces is cut at each of its commas. */
  lemma {:induction false} BracelessLevel(a: string)
    requires Braceless(a)
    ensures Level(a) && ('=' !in a ==> forall p :: p in Pieces(a, 0) ==> '=' !in p)
    decreases |a|
  {
    hide Level, Solid, Pieces, Braceless;
    if ',' in a {
      var head, rest := CutAtComma(a);
      BracelessLevel(rest);
      SolidPlain(head, 0);
      SolidLevel(head);
      LevelComma(head, rest);
      assert '=' in head ==> '=' in a;
    } else {
      SolidPlain(a, 0);
      SolidLevel(a);
    }
  }

  /** What a text shows before its first comma. */
  function BeforeComma(text: string): string {
    if IndexOf(text, ',') == -1 then text else text[..IndexOf(text, ',')]
  }

  lemma BeforeFirstComma(head: string, rest: string)
    requires ',' !in head
    ensures BeforeComma(head + ([','] + rest)) == head
  {
    IndexOfFirst(head, rest, ',');
    Regroup(head, [','], rest);
  }

  /** A value that shows a comma is cut there, under a unary operator behind the operator's word. */
  lemma {:induction false} CommaHead(v: Tree) returns (head: string, rest: string)
    requires Printable(v) && ShowsComma(v)
    ensures Print(v) == head + ([','] + rest) && head == BeforeComma(Print(v)) && Plain(head)
    ensures Braceless(rest) && '=' !in rest && (v.Unary? ==> UNARY <= head)
  {
    hide BeforeComma;
    match v
    case Atom(text) =>
      head, rest := CutAtComma(text);
      BeforeFirstComma(head, rest);
    case Unary(operand) =>
      head, rest := CommaHead(operand);
      Regroup(UNARY, head, [','] + rest);
      PlainWords();
      head := UNARY + head;
      BeforeFirstComma(head, rest);
  }

  /** The splitter keeps each printed entry apart, whole unless its value shows a comma. */
  lemma EntryPieces(e: Entry)
    requires PrintableEntry(e)
    ensures Level(PrintEntry(e))
    ensures !EntryShowsComma(e) ==> Pieces(PrintEntry(e), 0) == [PrintEntry(e)]
    ensures EntryShowsComma(e) ==>
      var pieces := Pieces(PrintEntry(e), 0);
      |pieces| > 1 && pieces[0] == e.key + "=" + BeforeComma(Print(e.value)) && '=' !in pieces[1]
  {
    hide Level, Solid, Pieces, BeforeComma, Print, Plain, Braceless;
    if EntryShowsComma(e) {
      var head, rest := CommaHead(e.value);
      Regroup(e.key + "=", head, [','] + rest);
      PlainWords();
      SolidPlain(e.key, 0);
      SolidPlain("=", 0);
      SolidPlain(head, 0);
      SolidConcat(e.key, "=", 0);
      SolidConcat(e.key + "=", head, 0);
      SolidLevel(e.key + "=" + head);
      BracelessLevel(rest);
      LevelComma(e.key + "=" + head, rest);
    } else {
      EntrySolid(e, 0);
      SolidLevel(PrintEntry(e));
    }
  }

  /** The pieces of each text in turn. */
  function PiecesEach(texts: seq<string>): seq<string> {
    if texts == [] then [] else Pieces(texts[0], 0) + PiecesEach(texts[1..])
  }

  lemma {:induction false} PiecesOfJoin(texts: seq<string>)
    requires texts != [] && forall text :: text in texts ==> Level(text)
    ensures Pieces(Join(texts, ','), 0) == PiecesEach(texts)
  {
    hide Level, Pieces;
    assert texts[0] in texts;
    if |texts| == 1 {
      assert PiecesEach(texts[1..]) == [];
      assert Pieces(texts[0], 0) + [] == Pieces(texts[0], 0);
    } else {
      PiecesOfJoin(texts[1..]);
      Regroup(texts[0], [','], Join(texts[1..], ','));
      LevelCut(texts[0], Join(texts[1..], ','));
    }
  }

  lemma LevelCut(a: string, b: string)
    requires Level(a)
    ensures Pieces(a + ([','] + b), 0) == Pieces(a, 0) + Pieces(b, 0)
  {
    hide Pieces;
  }

  lemma {:induction false} EntriesLevel(entries: seq<Entry>)
    requires forall e :: e in entries ==> PrintableEntry(e)
    ensures forall text :: text in PrintEntries(entries) ==> Level(text)
  {
    hide Level, PrintEntry, PrintableEntry;
    if entries != [] {
      assert entries[0] in entries;
      EntryPieces(entries[0]);
      EntriesLevel(entries[1..]);
    }
  }

  lemma PiecesOfEntries(entries: seq<Entry>)
    requires entries != [] && forall e :: e in entries ==> PrintableEntry(e)
    ensures Pieces(Join(PrintEntries(entries), ','), 0) == PiecesEach(PrintEntries(entries))
  {
    hide Pieces, Level, Join, PrintEntry, PrintableEntry, PiecesEach;
    EntriesLevel(entries);
    PiecesOfJoin(PrintEntries(entries));
  }

  // ------------------------------------------------- where a tree does not come back

  lemma {:induction false} PiecesCount(entries: seq<Entry>)
    requires forall e :: e in entries ==> PrintableEntry(e)
    ensures |PiecesEach(PrintEntries(entries))| >= |entries|
    ensures (exists e :: e in entries && EntryShowsComma(e)) ==> |PiecesEach(PrintEntries(entries))| > |entries|
  {
    hide Pieces, PrintEntry, PrintableEntry, EntryShowsComma, Level;
    if entries != [] {
      assert entries[0] in entries;
      EntryPieces(entries[0]);
      PiecesCount(entries[1..]);
      assert PrintEntries(entries)[1..] == PrintEntries(entries[1..]);
      assert forall e :: e in entries <==> e == entries[0] || e in entries[1..];
    }
  }

  lemma {:induction false} ParseEntriesAt(pieces: seq<string>, bound: nat, i: nat)
    requires (forall p :: p in pieces ==> |p| <= bound) && i < |pieces|
    ensures pieces[i] in pieces && |ParseEntries(pieces, bound)| == |pieces|
    ensures ParseEntries(pieces, bound)[i] == ParseEntry(pieces[i], bound)
  {
    hide ParseEntry;
    if i > 0 {
      ParseEntriesAt(pieces[1..], bound, i - 1);
    } else if |pieces| > 1 {
      ParseEntriesAt(pieces[1..], bound, 0);
    }
  }

  lemma {:induction false} PrintEntriesAt(entries: seq<Entry>, i: nat)
    requires i < |entries|
    ensures PrintEntries(entries)[i] == PrintEntry(entries[i])
  {
    hide PrintEntry;
    if i > 0 { PrintEntriesAt(entries[1..], i - 1); }
  }

  lemma ParseKwargs(entries: seq<Entry>)
    ensures Print(Kwargs(entries)) != []
    ensures forall p :: p in Pieces(Join(PrintEntries(entries), ','), 0) ==> |p| <= |Print(Kwargs(entries))| - 1
    ensures Parse(Print(Kwargs(entries))) ==
            Kwargs(ParseEntries(Pieces(Join(PrintEntries(entries), ','), 0), |Print(Kwargs(entries))| - 1))
  {
    hide Pieces, ParseEntries, PrintEntries, Join;
    KwargsRead(PrintEntries(entries));
    PiecesAreShorter(KwargsBody(Print(Kwargs(entries))), 0);
  }

  /** A comma shown by a keyword's value cuts one piece too many, so the tree comes back with more entries. */
  lemma CommaMultiplies(entries: seq<Entry>, e: Entry)
    requires entries != [] && (forall e :: e in entries ==> PrintableEntry(e)) && e in entries && EntryShowsComma(e)
    ensures Parse(Print(Kwargs(entries))) != Kwargs(entries)
  {
    hide *;
    var pieces, bound := Pieces(Join(PrintEntries(entries), ','), 0), |Print(Kwargs(entries))| - 1;
    PiecesOfEntries(entries);
    PiecesCount(entries);
    ParseKwargs(entries);
    ParseEntriesAt(pieces, bound, 0);
    assert |ParseEntries(pieces, bound)| != |entries|;
  }

  lemma {:induction false} ParseFails(t: Tree)
    requires Printable(t) && !Returns(t)
    ensures Parse(Print(t)) != t
  {
    hide Parse, Pieces, Join, PrintEntries, PrintEntry, ShowsComma;
    match t
    case Unary(operand) =>
      ParseFails(operand);
      ParseUnary(Print(operand));
    case Kwargs(entries) =>
      if e :| e in entries && EntryShowsComma(e) {
        CommaMultiplies(entries, e);
      } else {
        var i :| 0 <= i < |entries| && !EntryReturns(entries[i]);
        var e := entries[i];
        assert e in entries && PrintableEntry(e);
        assert e.Pair? && ('=' in e.key || !Returns(e.value));
        if '=' !in e.key { ParseFails(e.value); }
        EntryDiffers(entries, i);
      }
    case _ =>
  }

  lemma EntryDiffers(entries: seq<Entry>, i: nat)
    requires Printable(Kwargs(entries)) && i < |entries| && PrintableEntry(entries[i]) && entries[i].Pair?
    requires forall e :: e in entries ==> !EntryShowsComma(e)
    requires '=' in entries[i].key || Parse(Print(entries[i].value)) != entries[i].value
    ensures Parse(Print(Kwargs(entries))) != Kwargs(entries)
  {
    hide *;
    var bound := |Print(Kwargs(entries))| - 1;
    EntriesReadBack(entries, i);
    PairDiffers(entries[i], bound);
    assert ParseEntries(PrintEntries(entries), bound)[i] != entries[i];
  }

  /** Where no entry shows a comma, each printed entry is read on its own. */
  lemma EntriesReadBack(entries: seq<Entry>, i: nat)
    requires Printable(Kwargs(entries)) && i < |entries| && forall e :: e in entries ==> !EntryShowsComma(e)
    ensures |PrintEntry(entries[i])| <= |Print(Kwargs(entries))| - 1
    ensures forall p :: p in PrintEntries(entries) ==> |p| <= |Print(Kwargs(entries))| - 1
    ensures var read := ParseEntries(PrintEntries(entries), |Print(Kwargs(entries))| - 1);
      && |read| == |entries|
      && read[i] == ParseEntry(PrintEntry(entries[i]), |Print(Kwargs(entries))| - 1)
      && Parse(Print(Kwargs(entries))) == Kwargs(read)
  {
    var texts := PrintEntries(entries);
    assert forall e :: e in entries ==> PrintableEntry(e);
    PrintEntriesAt(entries, i);
    hide *;
    EntriesSolid(entries, 0);
    SplitsIntoEntries(texts);
    ParseKwargs(entries);
    ParseEntriesAt(texts, |Print(Kwargs(entries))| - 1, i);
  }

  lemma PairDiffers(e: Entry, bound: nat)
    requires PrintableEntry(e) && e.Pair? && |PrintEntry(e)| <= bound
    requires '=' in e.key || Parse(Print(e.value)) != e.value
    ensures ParseEntry(PrintEntry(e), bound) != e
  {
    hide Parse, Print, Plain;
    if '=' in e.key {
      var name, rest := KeyCut(e.key);
      PairCut(name, rest, Print(e.value));
      assert e.key + "=" + Print(e.value) == name + ['='] + (rest + "=" + Print(e.value));
    } else {
      ParsePair(e.key, Print(e.value), bound);
    }
  }

  /** A key is cut at its first equals sign. */
  lemma {:induction false} KeyCut(key: string) returns (name: string, rest: string)
    requires '=' in key
    ensures key == name + ['='] + rest && '=' !in name
  {
    assert key[0] in key && key == [key[0]] + key[1..];
    if key[0] == '=' {
      name, rest := [], key[1..];
    } else {
      name, rest := KeyCut(key[1..]);
      name := [key[0]] + name;
    }
  }

  /** What the reader takes for key and value where the key holds an equals sign. */
  lemma PairCut(name: string, rest: string, text: string)
    requires '=' !in name
    ensures var piece := (name + ['='] + rest) + "=" + text;
            && IndexOf(piece, '=') == |name| && piece[..|name|] == name
            && piece[|name| + 1..] == rest + ("=" + text)
  {
    var tail := rest + ("=" + text);
    IndexOfFirst(name, tail, '=');
    assert (name + ['='] + rest) + "=" + text == name + ['='] + tail;
  }

  /** A tree the extractors print comes back exactly when no keyword's value shows a comma and no key holds an equals
      sign. */
  lemma ParsePrintedIff(t: Tree)
    requires Printable(t)
    ensures Parse(Print(t)) == t <==> Returns(t)
  {
    if Returns(t) { ParsePrinted(t); } else { ParseFails(t); }
  }

  /** `{ a: (x, y) }` prints as `kwargs{a=binop:,}`, and does not come back. */
  lemma CommaOperatorIsLost(t: Tree)
    requires t == Kwargs([Pair("a", Atom(BINOP + ","))])
    ensures Printable(t) && Parse(Print(t)) != t
  {
    var e := t.entries[0];
    assert (BINOP + ",")[6] == ',' && e.value.text[0] == 'b' && STR[0] == 's' && UNARY[0] == 'u';
    assert e in t.entries && !EntryReturns(e);
    ParsePrintedIff(t);
  }

  /** Ruby's `foo(a: $,)` prints as `kwargs{a=id:$,}`, and does not come back. */
  lemma SeparatorGlobalIsLost(t: Tree)
    requires t == Kwargs([Pair("a", Atom("id:$,"))])
    ensures Printable(t) && Parse(Print(t)) != t
  {
    var e := t.entries[0];
    assert e.value.text[4] == ',' && e.value.text[0] == 'i' && STR[0] == 's' && UNARY[0] == 'u';
    assert e in t.entries && !EntryReturns(e);
    ParsePrintedIff(t);
  }

  /** Ruby's `foo(:name= => x)` prints as `kwargs{name==id:x}`, and does not come back. */
  lemma SetterKeyIsLost(t: Tree)
    requires t == Kwargs([Pair("name=", Atom("id:x"))])
    ensures Printable(t) && Parse(Print(t)) != t
  {
    var e := t.entries[0];
    assert e.key[4] == '=' && e.value.text[0] == 'i' && STR[0] == 's' && UNARY[0] == 'u';
    assert e in t.entries && !EntryReturns(e);
    ParsePrintedIff(t);
  }

  // --------------------------------------------------------------- normal form

  const OPAQUE_DESCRIPTORS := {"?", "array", "hash", "str-interp", "ternary"}

  const LITERAL_KINDS := {"num", "str", "sym", "bool"}

  datatype Reason = OpaqueForm | UnparseableLiteral
  datatype Form = Key(text: string) | Failed(reason: Reason)
  datatype Forms = Keys(texts: seq<string>) | FirstFailed(reason: Reason)

  /** The naming and literal conventions, held in other files. */
  datatype Tables = Tables(
    ref: string -> string,
    constant: string -> string,
    literal: (string, string) -> Option<string>,
    rubyKey: string -> string
  )

  function ScalarForm(t: Tables, d: string): Form {
    var sep := IndexOf(d, ':');
    if "binop:" <= d || "unary" <= d || sep == -1 then Failed(OpaqueForm)
    else
      var kind, value := d[..sep], d[sep + 1..];
      if kind == "id" || kind == "call" then Key("ref:" + t.ref(value))
      else if kind == "const" then Key(t.constant(value))
      else if kind !in LITERAL_KINDS then Failed(OpaqueForm)
      else match t.literal(kind, Unescape(value))
           case Some(key) => Key(key)
           case None => Failed(UnparseableLiteral)
  }

  /** The comparison key of one descriptor, or why it has none. */
  function NormalForm(t: Tables, d: string): Form
    decreases |d|, 0
  {
    if d in OPAQUE_DESCRIPTORS then Failed(OpaqueForm)
    else if d == "nil" then Key("nil")
    else if KWARGS <= d then
      PiecesAreShorter(KwargsBody(d), 0);
      KwargsForm(PairForms(t, Pieces(KwargsBody(d), 0), |d| - 1))
    else ScalarForm(t, d)
  }

  function KwargsForm(pairs: Forms): Form {
    match pairs
    case Keys(texts) => Key(KWARGS + Join(SortStrings(texts), ',') + "}")
    case FirstFailed(reason) => Failed(reason)
  }

  /** One `key=value` piece; a piece without `=` is the splat marker. */
  function PairForm(t: Tables, piece: string, bound: nat): Form
    requires |piece| <= bound
    decreases bound, 1, 0
  {
    var eq := IndexOf(piece, '=');
    if eq == -1 then Failed(OpaqueForm)
    else match NormalForm(t, piece[eq + 1..])
         case Key(text) => Key(t.rubyKey(piece[..eq]) + "=" + text)
         case Failed(reason) => Failed(reason)
  }

  function PairForms(t: Tables, pieces: seq<string>, bound: nat): Forms
    requires forall p :: p in pieces ==> |p| <= bound
    decreases bound, 1, 1 + |pieces|
  {
    if pieces == [] then Keys([])
    else
      assert pieces[|pieces| - 1] in pieces;
      match PairForms(t, pieces[..|pieces| - 1], bound)
      case FirstFailed(reason) => FirstFailed(reason)
      case Keys(texts) =>
        match PairForm(t, pieces[|pieces| - 1], bound)
        case Key(text) => Keys(texts + [text])
        case Failed(reason) => FirstFailed(reason)
  }

  method NormalizeArgOrFailure(t: Tables, d: string) returns (form: Form)
    ensures form == NormalForm(t, d)
    decreases |d|, 0
  {
    hide NormalForm, Pieces;
    NormalFormStep(t, d);
    if d in OPAQUE_DESCRIPTORS {
      form := Failed(OpaqueForm);
    } else if d == "nil" {
      form := Key("nil");
    } else if KWARGS <= d {
      form := NormalizeKwargs(t, d);
    } else {
      form := ScalarForm(t, d);
    }
  }

  lemma NormalFormStep(t: Tables, d: string)
    ensures forall p :: p in Pieces(KwargsBody(d), 0) ==> |p| <= |KwargsBody(d)|
    ensures NormalForm(t, d) ==
      if d in OPAQUE_DESCRIPTORS then Failed(OpaqueForm) else if d == "nil" then Key("nil")
      else if KWARGS <= d then KwargsForm(PairForms(t, Pieces(KwargsBody(d), 0), |d| - 1)) else ScalarForm(t, d)
  {
    hide KwargsForm, PairForms, Pieces, ScalarForm;
    PiecesAreShorter(KwargsBody(d), 0);
  }

  method NormalizeKwargs(t: Tables, d: string) returns (form: Form)
    requires KWARGS <= d
    ensures forall p :: p in Pieces(KwargsBody(d), 0) ==> |p| <= |KwargsBody(d)|
    ensures form == KwargsForm(PairForms(t, Pieces(KwargsBody(d), 0), |d| - 1))
    decreases |d| - 1, 2
  {
    hide Pieces, PairForms, SortStrings, Join;
    var pieces := SplitPairs(KwargsBody(d));
    PiecesAreShorter(KwargsBody(d), 0);
    var pairs := NormalizePairs(t, pieces, |d| - 1);
    if pairs.FirstFailed? {
      return Failed(pairs.reason);
    }
    form := Key(KWARGS + Join(SortStrings(pairs.texts), ',') + "}");
  }

  /** The loop over the pieces, left at the first that has no form. */
  method NormalizePairs(t: Tables, pieces: seq<string>, bound: nat) returns (forms: Forms)
    requires forall p :: p in pieces ==> |p| <= bound
    ensures forms == PairForms(t, pieces, bound)
    decreases bound, 1
  {
    hide NormalForm, PairForms;
    var pairs: seq<string> := [];
    NoPairs(t, pieces[..0], bound);
    for i := 0 to |pieces|
      invariant PairForms(t, pieces[..i], bound) == Keys(pairs)
    {
      var piece := pieces[i];
      assert piece in pieces;
      PairStep(t, pieces, i, bound, pairs);
      var eq := IndexOf(piece, '=');
      if eq == -1 {
        return FirstFailed(OpaqueForm);
      }
      var value := NormalizeArgOrFailure(t, piece[eq + 1..]);
      if value.Failed? {
        return FirstFailed(value.reason);
      }
      pairs := pairs + [t.rubyKey(piece[..eq]) + "=" + value.text];
    }
    assert pieces[..|pieces|] == pieces;
    forms := Keys(pairs);
  }

  lemma NoPairs(t: Tables, pieces: seq<string>, bound: nat)
    requires pieces == []
    ensures PairForms(t, pieces, bound) == Keys([])
  {
  }

  lemma PairStep(t: Tables, pieces: seq<string>, i: nat, bound: nat, pairs: seq<string>)
    requires i < |pieces| && (forall p :: p in pieces ==> |p| <= bound)
    requires PairForms(t, pieces[..i], bound) == Keys(pairs)
    ensures pieces[i] in pieces
    ensures match PairForm(t, pieces[i], bound)
            case Key(text) => PairForms(t, pieces[..i + 1], bound) == Keys(pairs + [text])
            case Failed(reason) => PairForms(t, pieces, bound) == FirstFailed(reason)
  {
    hide PairForm;
    assert pieces[..i + 1][..i] == pieces[..i];
    PrefixFails(t, pieces, i + 1, bound);
  }

  lemma {:induction false} PrefixFails(t: Tables, pieces: seq<string>, n: nat, bound: nat)
    requires n <= |pieces| && forall p :: p in pieces ==> |p| <= bound
    ensures PairForms(t, pieces[..n], bound).FirstFailed? ==>
      PairForms(t, pieces, bound) == PairForms(t, pieces[..n], bound)
    decreases |pieces|
  {
    hide PairForm;
    if n < |pieces| {
      assert pieces[..|pieces| - 1][..n] == pieces[..n];
      PrefixFails(t, pieces[..|pieces| - 1], n, bound);
    } else {
      assert pieces[..n] == pieces;
    }
  }

  // ------------------------------------------------------- what the forms show

  lemma ColonPrefix(word: string, kind: string, value: string)
    requires ':' !in word && ':' !in kind
    ensures word <= kind + ":" + value <==> word <= kind
    ensures word != kind + ":" + value
  {
    var d := kind + ":" + value;
    assert d[|kind|] == ':';
    assert forall k :: 0 <= k < |word| ==> word[k] in word;
    assert word <= d ==> forall k :: 0 <= k < |word| ==> word[k] == d[k];
  }

  /** A scalar descriptor is none of the words and structures the dispatch looks for first. */
  lemma IsScalar(kind: string, value: string)
    requires ':' !in kind && !("kwargs{" <= kind)
    ensures var d := kind + ":" + value;
            d !in OPAQUE_DESCRIPTORS && d != "nil" && !(KWARGS <= d)
  {
    ColonPrefix("kwargs{", kind, value);
    ColonPrefix("nil", kind, value);
    forall word | word in OPAQUE_DESCRIPTORS ensures word != kind + ":" + value { ColonPrefix(word, kind, value); }
  }

  lemma ScalarFormIs(t: Tables, kind: string, value: string)
    requires ':' !in kind
    ensures ScalarForm(t, kind + ":" + value) ==
            if "unary" <= kind || kind == "binop" then Failed(OpaqueForm)
            else if kind == "id" || kind == "call" then Key("ref:" + t.ref(value))
            else if kind == "const" then Key(t.constant(value))
            else if kind !in {"num", "str", "sym", "bool"} then Failed(OpaqueForm)
            else match t.literal(kind, Unescape(value))
                 case Some(key) => Key(key)
                 case None => Failed(UnparseableLiteral)
  {
    hide Unescape;
    var d := kind + [':'] + value;
    ColonPrefix("unary", kind, value);
    IndexOfFirst(kind, value, ':');
    assert d[..|kind|] == kind && d[|kind| + 1..] == value;
    if "binop:" <= d {
      IndexOfFirst("binop", d[6..], ':');
      assert d == "binop" + [':'] + d[6..];
    }
  }

  /** A name is compared by its reference form, a constant and a literal by theirs, the literal's text unescaped; no
      other kind of scalar has a form. */
  lemma ScalarForms(t: Tables, kind: string, value: string)
    requires ':' !in kind && !("kwargs{" <= kind)
    ensures var form := NormalForm(t, kind + ":" + value);
            if kind == "id" || kind == "call" then form == Key("ref:" + t.ref(value))
            else if kind == "const" then form == Key(t.constant(value))
            else if kind == "num" || kind == "str" || kind == "sym" || kind == "bool" then
              match t.literal(kind, Unescape(value))
              case Some(key) => form == Key(key)
              case None => form == Failed(UnparseableLiteral)
            else form == Failed(OpaqueForm)
  {
    var d := kind + ":" + value;
    NormalFormStep(t, d);
    hide *;
    IsScalar(kind, value);
    ScalarFormIs(t, kind, value);
    assert "unary" <= kind ==> kind[0] == 'u';
  }

  /** Of the words without a colon `nil` alone has a form. */
  lemma WordForms(t: Tables, d: string)
    requires ':' !in d && !("kwargs{" <= d)
    ensures NormalForm(t, d) == if d == "nil" then Key("nil") else Failed(OpaqueForm)
  {
    IndexOfFirst(d, "", ':');
  }

  lemma KwargsOf(body: string, last: char)
    ensures var d := "kwargs{" + body + [last];
            KWARGS <= d && KwargsBody(d) == body && |d| - 1 == |body| + 7 && d !in OPAQUE_DESCRIPTORS && d != "nil"
  {
    var d := "kwargs{" + body + [last];
    assert KWARGS <= d && d[|KWARGS|..|d| - 1] == body;
    NotOpaque(d);
  }

  /** The piece names a keyword and its value has a form, and `text` is the two as compared. */
  ghost predicate PieceShows(t: Tables, piece: string, text: string) {
    exists name, value, form :: '=' !in name && piece == name + "=" + value
      && NormalForm(t, value) == Key(form) && text == t.rubyKey(name) + "=" + form
  }

  lemma PieceForm(t: Tables, piece: string, text: string, bound: nat)
    requires |piece| <= bound && PieceShows(t, piece, text)
    ensures PairForm(t, piece, bound) == Key(text)
  {
    hide NormalForm;
    var name, value, form :| '=' !in name && piece == name + "=" + value
      && NormalForm(t, value) == Key(form) && text == t.rubyKey(name) + "=" + form;
    PlainPair(t, name, value, bound);
  }

  lemma {:induction false} PairFormsAre(t: Tables, pieces: seq<string>, bound: nat, texts: seq<string>)
    requires forall p :: p in pieces ==> |p| <= bound
    requires |texts| == |pieces| && forall i :: 0 <= i < |pieces| ==> PieceShows(t, pieces[i], texts[i])
    ensures PairForms(t, pieces, bound) == Keys(texts)
  {
    hide PairForm, PieceShows;
    if pieces != [] {
      var n := |pieces| - 1;
      assert pieces[n] in pieces;
      PairFormsAre(t, pieces[..n], bound, texts[..n]);
      PieceForm(t, pieces[n], texts[n], bound);
      assert texts == texts[..n] + [texts[n]];
    }
  }

  /** Keywords and values as the pieces show them, each value with its form, and the pairs as compared. */
  lemma PairsShow(t: Tables, pieces: seq<string>, names: seq<string>, values: seq<string>, forms: seq<string>)
      returns (texts: seq<string>)
    requires |names| == |values| == |forms| <= |pieces|
    requires forall i :: 0 <= i < |names| ==>
               '=' !in names[i] && pieces[i] == names[i] + "=" + values[i] && NormalForm(t, values[i]) == Key(forms[i])
    ensures |texts| == |names| && forall i :: 0 <= i < |names| ==>
              texts[i] == t.rubyKey(names[i]) + "=" + forms[i] && PieceShows(t, pieces[i], texts[i])
  {
    hide NormalForm;
    texts := seq(|names|, i requires 0 <= i < |names| => t.rubyKey(names[i]) + "=" + forms[i]);
  }

  /** Where every piece names a keyword whose value has a form the key shows the pairs, in ascending order, between its
      braces. */
  lemma KwargsKeyShows(t: Tables, body: string, last: char, names: seq<string>, values: seq<string>,
                       forms: seq<string>) returns (texts: seq<string>, sorted: seq<string>)
    requires |names| == |values| == |forms| == |Pieces(body, 0)|
    requires forall i :: 0 <= i < |names| ==>
               && '=' !in names[i] && Pieces(body, 0)[i] == names[i] + "=" + values[i]
               && NormalForm(t, values[i]) == Key(forms[i])
    ensures |texts| == |names| && forall i :: 0 <= i < |names| ==> texts[i] == t.rubyKey(names[i]) + "=" + forms[i]
    ensures multiset(sorted) == multiset(texts)
    ensures forall i, j :: 0 <= i < j < |sorted| ==> StringLe(sorted[i], sorted[j])
    ensures NormalForm(t, "kwargs{" + body + [last]) == Key("kwargs{" + Join(sorted, ',') + "}")
  {
    hide PieceShows, NormalForm, Pieces;
    texts := PairsShow(t, Pieces(body, 0), names, values, forms);
    sorted := KeyShows(t, body, last, texts);
  }

  lemma KeyShows(t: Tables, body: string, last: char, texts: seq<string>) returns (sorted: seq<string>)
    requires var pieces := Pieces(body, 0);
             |texts| == |pieces| && forall i :: 0 <= i < |pieces| ==> PieceShows(t, pieces[i], texts[i])
    ensures multiset(sorted) == multiset(texts)
    ensures forall i, j :: 0 <= i < j < |sorted| ==> StringLe(sorted[i], sorted[j])
    ensures NormalForm(t, "kwargs{" + body + [last]) == Key("kwargs{" + Join(sorted, ',') + "}")
  {
    hide PieceShows, PairForms, Pieces, StringLe;
    var d := "kwargs{" + body + [last];
    KwargsOf(body, last);
    NormalFormStep(t, d);
    PairFormsAre(t, Pieces(body, 0), |d| - 1, texts);
    sorted := SortStrings(texts);
    StringOrder(texts);
    SortBySorted(StringLe, texts);
  }

  /** The first piece that does not decides: without an equals sign it is opaque, else it fails as its value does. */
  lemma KwargsFail(t: Tables, body: string, last: char, names: seq<string>, values: seq<string>, forms: seq<string>)
    requires |names| == |values| == |forms| < |Pieces(body, 0)|
    requires forall i :: 0 <= i < |names| ==>
               && '=' !in names[i] && Pieces(body, 0)[i] == names[i] + "=" + values[i]
               && NormalForm(t, values[i]) == Key(forms[i])
    ensures var piece, form := Pieces(body, 0)[|names|], NormalForm(t, "kwargs{" + body + [last]);
            && ('=' !in piece ==> form == Failed(OpaqueForm))
            && forall name, value | '=' !in name && piece == name + "=" + value ::
                 NormalForm(t, value).Failed? ==> form == NormalForm(t, value)
  {
    hide *;
    var texts := PairsShow(t, Pieces(body, 0), names, values, forms);
    var d, pieces, n := "kwargs{" + body + [last], Pieces(body, 0), |texts|;
    KwargsOf(body, last);
    KwargsStep(t, d);
    FirstPieceFails(t, pieces, |d| - 1, texts);
    if '=' !in pieces[n] { NoKey(t, pieces[n], |d| - 1); }
    forall name, value | '=' !in name && pieces[n] == name + "=" + value && NormalForm(t, value).Failed?
      ensures NormalForm(t, d) == NormalForm(t, value)
    {
      PlainPair(t, name, value, |d| - 1);
    }
  }

  lemma FirstPieceFails(t: Tables, pieces: seq<string>, bound: nat, texts: seq<string>)
    requires |texts| < |pieces| && forall p :: p in pieces ==> |p| <= bound
    requires forall i :: 0 <= i < |texts| ==> PieceShows(t, pieces[i], texts[i])
    ensures pieces[|texts|] in pieces
    ensures match PairForm(t, pieces[|texts|], bound)
            case Failed(reason) => PairForms(t, pieces, bound) == FirstFailed(reason)
            case Key(text) => true
  {
    hide *;
    var n := |texts|;
    assert pieces[n] in pieces;
    assert forall p :: p in pieces[..n] ==> p in pieces;
    PairFormsAre(t, pieces[..n], bound, texts);
    PairStep(t, pieces, n, bound, texts);
  }

  lemma KwargsStep(t: Tables, d: string)
    requires KWARGS <= d && d !in OPAQUE_DESCRIPTORS && d != "nil"
    ensures forall p :: p in Pieces(KwargsBody(d), 0) ==> |p| <= |d| - 1
    ensures match PairForms(t, Pieces(KwargsBody(d), 0), |d| - 1)
            case FirstFailed(reason) => NormalForm(t, d) == Failed(reason)
            case Keys(texts) => true
  {
    hide PairForms, Pieces;
    NormalFormStep(t, d);
  }

  // --------------------------------------------------- the form of printed trees

  /** The form an entry has by itself. */
  function EntryForm(t: Tables, e: Entry): Form {
    match e
    case Splat => Failed(OpaqueForm)
    case Pair(key, value) =>
      match NormalForm(t, Print(value))
      case Key(text) => Key(t.rubyKey(key) + "=" + text)
      case Failed(reason) => Failed(reason)
  }

  /** The form an entry has among others. A key with an equals sign, or a value that shows a comma, leaves it none:
      the reason is what the value shows before the comma, if that has no form. */
  function ReadForm(t: Tables, e: Entry): Form {
    if Clean(e) then EntryForm(t, e)
    else if '=' in e.key then Failed(OpaqueForm)
    else match NormalForm(t, BeforeComma(Print(e.value)))
         case Key(_) => Failed(OpaqueForm)
         case Failed(reason) => Failed(reason)
  }

  function EntryForms(t: Tables, entries: seq<Entry>): (forms: seq<Form>) {
    seq(|entries|, i requires 0 <= i < |entries| => EntryForm(t, entries[i]))
  }

  function ReadForms(t: Tables, entries: seq<Entry>): (forms: seq<Form>) {
    seq(|entries|, i requires 0 <= i < |entries| => ReadForm(t, entries[i]))
  }

  function Then(f: Forms, g: Forms): Forms {
    if f.FirstFailed? then f else if g.FirstFailed? then g else Keys(f.texts + g.texts)
  }

  function One(f: Form): Forms {
    match f
    case Key(text) => Keys([text])
    case Failed(reason) => FirstFailed(reason)
  }

  /** The keys in order, or the first failure. */
  function Gather(forms: seq<Form>): Forms {
    if forms == [] then Keys([]) else Then(One(forms[0]), Gather(forms[1..]))
  }

  lemma {:induction false} PairFormsConcat(t: Tables, a: seq<string>, b: seq<string>, bound: nat)
    requires (forall p :: p in a ==> |p| <= bound) && forall p :: p in b ==> |p| <= bound
    ensures PairForms(t, a + b, bound) == Then(PairForms(t, a, bound), PairForms(t, b, bound))
    decreases |b|
  {
    hide PairForm, PairForms, Then, One;
    if b == [] {
      assert a + b == a;
      NoPairs(t, b, bound);
      ThenNothing(PairForms(t, a, bound));
    } else {
      var init := b[..|b| - 1];
      assert (a + b)[..|a + b| - 1] == a + init && (a + b)[|a + b| - 1] == b[|b| - 1];
      PairFormsConcat(t, a, init, bound);
      PairFormsLast(t, a + b, bound);
      PairFormsLast(t, b, bound);
      ThenAssociates(PairForms(t, a, bound), PairForms(t, init, bound), One(PairForm(t, b[|b| - 1], bound)));
    }
  }

  lemma ThenNothing(f: Forms)
    ensures Then(f, Keys([])) == f
  {
    if f.Keys? { assert f.texts + [] == f.texts; }
  }

  lemma ThenAssociates(f: Forms, g: Forms, h: Forms)
    ensures Then(Then(f, g), h) == Then(f, Then(g, h))
  {
    if f.Keys? && g.Keys? && h.Keys? { Regroup(f.texts, g.texts, h.texts); }
  }

  lemma PairFormsLast(t: Tables, pieces: seq<string>, bound: nat)
    requires pieces != [] && forall p :: p in pieces ==> |p| <= bound
    ensures pieces[|pieces| - 1] in pieces
    ensures PairForms(t, pieces, bound) ==
            Then(PairForms(t, pieces[..|pieces| - 1], bound), One(PairForm(t, pieces[|pieces| - 1], bound)))
  {
    hide PairForm;
  }

  lemma OnePair(t: Tables, piece: string, bound: nat)
    requires |piece| <= bound
    ensures PairForms(t, [piece], bound) == One(PairForm(t, piece, bound))
  {
    hide PairForm;
    assert [piece][..0] == [];
    NoPairs(t, [piece][..0], bound);
  }

  lemma PairFormOfEntry(t: Tables, e: Entry, bound: nat)
    requires PrintableEntry(e) && (e.Pair? ==> '=' !in e.key) && |PrintEntry(e)| <= bound
    ensures PairForm(t, PrintEntry(e), bound) == EntryForm(t, e)
  {
    hide NormalForm, Print;
    match e
    case Splat => SplatHasNoKey();
    case Pair(key, value) =>
      IndexOfFirst(key, Print(value), '=');
      assert PrintEntry(e) == key + ['='] + Print(value);
      assert PrintEntry(e)[|key| + 1..] == Print(value) && PrintEntry(e)[..|key|] == key;
  }

  /** What is left of a key behind its first equals sign makes the value no descriptor of a known kind. */
  lemma KeyRestIsOpaque(t: Tables, rest: string, text: string)
    requires Plain(rest) && ':' !in rest
    ensures NormalForm(t, rest + ("=" + text)) == Failed(OpaqueForm)
  {
    var d := rest + ("=" + text);
    assert d[|rest|] == '=';
    NotWord(d, |rest|);
    NotKwargs(rest, text);
    var sep := IndexOf(d, ':');
    if sep != -1 {
      IndexOfFinds(d, ':');
      assert forall i :: 0 <= i < |rest| ==> d[i] == rest[i] && rest[i] in rest;
      NotWord(d[..sep], |rest|);
    }
  }

  lemma NotKwargs(rest: string, text: string)
    requires Braceless(rest)
    ensures !(KWARGS <= rest + ("=" + text))
  {
    var d := rest + ("=" + text);
    if |rest| <= 6 {
      assert d[|rest|] == '=' && KWARGS[|rest|] != '=';
    } else {
      assert d[6] == rest[6] && rest[6] in rest && KWARGS[6] == '{';
    }
  }

  lemma {:induction false} IndexOfFinds(s: string, c: char)
    requires IndexOf(s, c) != -1
    ensures s[IndexOf(s, c)] == c
  {
    if s[0] != c { IndexOfFinds(s[1..], c); }
  }

  /** No word the dispatch knows holds an equals sign. */
  lemma NotWord(word: string, i: nat)
    requires i < |word| && word[i] == '='
    ensures word !in OPAQUE_DESCRIPTORS && word !in LITERAL_KINDS
    ensures word != "nil" && word != "id" && word != "call" && word != "const"
  {
  }

  /** An entry whose key holds an equals sign is read as a pair without a form, whatever its value is cut to. */
  lemma KeyedPairFails(t: Tables, key: string, text: string, bound: nat)
    requires Plain(key) && ':' !in key && '=' in key && |key + "=" + text| <= bound
    ensures PairForm(t, key + "=" + text, bound) == Failed(OpaqueForm)
  {
    var name, rest := KeyCut(key);
    assert forall c :: c in rest ==> c in key;
    KeyRestIsOpaque(t, rest, text);
    PairCut(name, rest, text);
    hide NormalForm, Plain, IndexOf;
  }

  lemma OperatorForm(t: Tables, d: string)
    requires UNARY <= d || BINOP <= d
    ensures NormalForm(t, d) == Failed(OpaqueForm)
  {
    assert d[0] == 'u' || d[0] == 'b';
    assert KWARGS[0] == 'k';
  }

  lemma PlainPair(t: Tables, key: string, text: string, bound: nat)
    requires '=' !in key && |key + "=" + text| <= bound
    ensures PairForm(t, key + "=" + text, bound) ==
            match NormalForm(t, text)
            case Key(form) => Key(t.rubyKey(key) + "=" + form)
            case Failed(reason) => Failed(reason)
  {
    hide NormalForm;
    var piece := key + ['='] + text;
    IndexOfFirst(key, text, '=');
    assert piece[|key| + 1..] == text && piece[..|key|] == key;
  }

  lemma NoKey(t: Tables, piece: string, bound: nat)
    requires '=' !in piece && |piece| <= bound
    ensures PairForm(t, piece, bound) == Failed(OpaqueForm)
  {
    IndexOfFirst(piece, [], '=');
  }

  /** The pieces of one printed entry have, taken together, the form it is read as. */
  lemma EntryReads(t: Tables, e: Entry, bound: nat)
    requires PrintableEntry(e) && forall p :: p in Pieces(PrintEntry(e), 0) ==> |p| <= bound
    ensures PairForms(t, Pieces(PrintEntry(e), 0), bound) == One(ReadForm(t, e))
  {
    EntryPieces(e);
    var pieces := Pieces(PrintEntry(e), 0);
    hide *;
    if !EntryShowsComma(e) {
      assert pieces[0] in pieces;
      OnePair(t, PrintEntry(e), bound);
      WholeEntryReads(t, e, bound);
    } else {
      CutEntryReads(t, e, pieces, bound);
    }
  }

  lemma WholeEntryReads(t: Tables, e: Entry, bound: nat)
    requires PrintableEntry(e) && !EntryShowsComma(e) && |PrintEntry(e)| <= bound
    ensures PairForm(t, PrintEntry(e), bound) == ReadForm(t, e)
  {
    hide PairForm, EntryForm, Print, NormalForm;
    if e.Pair? && '=' in e.key {
      KeyedPairFails(t, e.key, Print(e.value), bound);
    } else {
      PairFormOfEntry(t, e, bound);
    }
  }

  lemma CutEntryReads(t: Tables, e: Entry, pieces: seq<string>, bound: nat)
    requires PrintableEntry(e) && EntryShowsComma(e) && |pieces| > 1 && forall p :: p in pieces ==> |p| <= bound
    requires pieces[0] == e.key + "=" + BeforeComma(Print(e.value)) && '=' !in pieces[1]
    ensures PairForms(t, pieces, bound) == One(ReadForm(t, e))
  {
    assert pieces[0] in pieces && pieces[1] in pieces;
    assert pieces[..1] == [pieces[0]];
    OnePair(t, pieces[0], bound);
    NoKey(t, pieces[1], bound);
    if '=' in e.key {
      KeyedPairFails(t, e.key, BeforeComma(Print(e.value)), bound);
    } else {
      PlainPair(t, e.key, BeforeComma(Print(e.value)), bound);
    }
    PrefixFails(t, pieces, 1, bound);
    hide PairForms, PairForm, EntryForm, BeforeComma, Print, NormalForm;
    if PairForm(t, pieces[0], bound).Key? {
      PairStep(t, pieces, 1, bound, [PairForm(t, pieces[0], bound).text]);
    }
  }

  lemma {:induction false} EntriesRead(t: Tables, entries: seq<Entry>, bound: nat)
    requires forall e :: e in entries ==> PrintableEntry(e)
    requires forall p :: p in PiecesEach(PrintEntries(entries)) ==> |p| <= bound
    ensures PairForms(t, PiecesEach(PrintEntries(entries)), bound) == Gather(ReadForms(t, entries))
  {
    hide PairForms, ReadForm, PrintEntry, PrintableEntry, Pieces;
    if entries == [] {
      NoPairs(t, PiecesEach(PrintEntries(entries)), bound);
    } else {
      assert entries[0] in entries && PrintEntries(entries)[1..] == PrintEntries(entries[1..]);
      var first, rest := Pieces(PrintEntry(entries[0]), 0), PiecesEach(PrintEntries(entries[1..]));
      assert PiecesEach(PrintEntries(entries)) == first + rest;
      EntryReads(t, entries[0], bound);
      EntriesRead(t, entries[1..], bound);
      PairFormsConcat(t, first, rest, bound);
      assert ReadForms(t, entries)[1..] == ReadForms(t, entries[1..]);
    }
  }

  lemma NotOpaque(d: string)
    requires KWARGS <= d
    ensures d !in OPAQUE_DESCRIPTORS && d != "nil"
  {
    assert KWARGS[0] == 'k' && d[0] == 'k';
  }

  /** The form of a printed kwargs is made of what each of its entries is read as. */
  lemma FormOfKwargs(t: Tables, entries: seq<Entry>)
    requires Printable(Kwargs(entries))
    ensures NormalForm(t, Print(Kwargs(entries))) == KwargsForm(Gather(ReadForms(t, entries)))
  {
    var texts, d := PrintEntries(entries), Print(Kwargs(entries));
    assert d == KWARGS + Join(texts, ',') + "}";
    assert entries != [] && forall e :: e in entries ==> PrintableEntry(e);
    hide *;
    KwargsRead(texts);
    NotOpaque(d);
    NormalFormStep(t, d);
    PiecesOfEntries(entries);
    assert |KwargsBody(d)| <= |d| - 1 by { BodyIsShorter(d); }
    EntriesRead(t, entries, |d| - 1);
  }

  lemma BodyIsShorter(d: string)
    requires d != []
    ensures |KwargsBody(d)| <= |d| - 1
  {
  }

  // ------------------------------------------- entries read as what they are

  /** The least index of an entry that is not clean, or their number. */
  function FirstUnclean(entries: seq<Entry>): (i: nat)
    ensures i <= |entries| && (i < |entries| ==> !Clean(entries[i]))
    ensures forall k :: 0 <= k < i ==> Clean(entries[k])
  {
    if entries == [] || !Clean(entries[0]) then 0 else 1 + FirstUnclean(entries[1..])
  }

  lemma {:induction false} GatherConcat(a: seq<Form>, b: seq<Form>)
    ensures Gather(a + b) == Then(Gather(a), Gather(b))
  {
    if a == [] {
      assert a + b == b;
      if Gather(b).Keys? { assert [] + Gather(b).texts == Gather(b).texts; }
    } else {
      assert (a + b)[1..] == a[1..] + b;
      GatherConcat(a[1..], b);
      if Gather(a).Keys? && Gather(b).Keys? {
        Regroup(One(a[0]).texts, Gather(a[1..]).texts, Gather(b).texts);
      }
    }
  }

  /** The form of a printed kwargs is made of its entries' own forms exactly when every entry is clean, or one before
      the first unclean has no form, or the first to have none by itself fails for the reason the first unclean one
      does. It has a key when they have, and the same, exactly when every entry is clean or one has no form. */
  lemma FormOfEntriesIff(t: Tables, entries: seq<Entry>)
    requires Printable(Kwargs(entries))
    ensures var u, own := FirstUnclean(entries), EntryForms(t, entries);
      (NormalForm(t, Print(Kwargs(entries))) == KwargsForm(Gather(own)) <==>
       (u == |entries| || Gather(own[..u]).FirstFailed? ||
        Gather(own) == FirstFailed(ReadForm(t, entries[u]).reason)))
    ensures SameKey(NormalForm(t, Print(Kwargs(entries))), KwargsForm(Gather(EntryForms(t, entries)))) <==>
            FirstUnclean(entries) == |entries| || Gather(EntryForms(t, entries)).FirstFailed?
  {
    FormOfKwargs(t, entries);
    var u, own, read := FirstUnclean(entries), EntryForms(t, entries), ReadForms(t, entries);
    assert own[..u] == read[..u] && (u < |entries| ==> read[u] == ReadForm(t, entries[u]) && read[u].Failed?);
    hide *;
    GatherUpTo(own, read, u);
  }

  /** Two lists alike up to a form the second does not have. */
  lemma GatherUpTo(own: seq<Form>, read: seq<Form>, u: nat)
    requires u <= |own| == |read| && own[..u] == read[..u] && (u < |own| ==> read[u].Failed?)
    ensures KwargsForm(Gather(read)) == KwargsForm(Gather(own)) <==>
            (u == |own| || Gather(own[..u]).FirstFailed? || Gather(own) == FirstFailed(read[u].reason))
    ensures SameKey(KwargsForm(Gather(read)), KwargsForm(Gather(own))) <==> u == |own| || Gather(own).FirstFailed?
  {
    assert own == own[..u] + own[u..] && read == read[..u] + read[u..];
    GatherConcat(own[..u], own[u..]);
    GatherConcat(read[..u], read[u..]);
    if u == |own| {
      assert own == read;
    } else {
      assert Gather(read[u..]) == FirstFailed(read[u].reason);
    }
    hide Gather;
  }

  /** The globals and keys that do not come back do not keep their form either. */
  lemma UncleanFormsAreLost(t: Tables, comma: Tree, setter: Tree)
    requires comma == Kwargs([Pair("a", Atom("id:$,"))]) && setter == Kwargs([Pair("name=", Atom("id:x"))])
    ensures NormalForm(t, Print(comma)) == NormalForm(t, Print(setter)) == Failed(OpaqueForm)
    ensures Gather(EntryForms(t, comma.entries)).Keys? && Gather(EntryForms(t, setter.entries)).Keys?
  {
    SeparatorGlobalIsLost(comma);
    SetterKeyIsLost(setter);
    assert comma.entries == [comma.entries[0]] && setter.entries == [setter.entries[0]];
    hide NormalForm, Print, ReadForm, EntryForm, EntryForms, Printable, Gather, Parse;
    OneEntryForm(t, comma.entries[0]);
    OneEntryForm(t, setter.entries[0]);
    SeparatorForms(t, comma.entries[0]);
    SetterForms(t, setter.entries[0]);
  }

  lemma SeparatorForms(t: Tables, e: Entry)
    requires e == Pair("a", Atom("id:$,"))
    ensures ReadForm(t, e) == Failed(OpaqueForm) && EntryForm(t, e).Key?
  {
    hide NormalForm, BeforeComma;
    assert e.value.text == "id:" + "$," && e.value.text[4] == ',';
    SeparatorWord();
    WordForm(t, "$,");
    WordForm(t, "$");
  }

  lemma SeparatorWord()
    ensures BeforeComma("id:$,") == "id:" + "$"
  {
    assert "id:$," == "id:$" + ([','] + []) && "id:$" == "id:" + "$";
    BeforeFirstComma("id:$", []);
    hide BeforeComma;
  }

  lemma SetterForms(t: Tables, e: Entry)
    requires e == Pair("name=", Atom("id:x"))
    ensures ReadForm(t, e) == Failed(OpaqueForm) && EntryForm(t, e).Key?
  {
    WordForm(t, "x");
    assert e.value.text == "id:" + "x" && e.key[4] == '=';
    hide NormalForm, BeforeComma;
  }

  lemma OneEntryForm(t: Tables, e: Entry)
    requires Printable(Kwargs([e]))
    ensures NormalForm(t, Print(Kwargs([e]))) == KwargsForm(One(ReadForm(t, e)))
    ensures Gather(EntryForms(t, [e])) == One(EntryForm(t, e))
  {
    FormOfKwargs(t, [e]);
    hide NormalForm, Print, ReadForm, EntryForm;
    SingleForm(EntryForms(t, [e]));
    SingleForm(ReadForms(t, [e]));
  }

  lemma SingleForm(forms: seq<Form>)
    requires |forms| == 1
    ensures Gather(forms) == One(forms[0])
  {
    assert Gather(forms[1..]) == Keys([]);
  }

  lemma WordForm(t: Tables, name: string)
    ensures NormalForm(t, "id:" + name) == Key("ref:" + t.ref(name))
  {
    var d := "id:" + name;
    IndexOfFirst("id", name, ':');
    assert d == "id" + [':'] + name && d[3..] == name && d[..2] == "id" && d[0] == 'i' && d[2] == ':';
    assert KWARGS[0] == 'k';
    assert d !in OPAQUE_DESCRIPTORS && d != "nil" by { assert ':' in d; }
  }

  // ------------------------------------------------------------- kwarg order

  /** The same tree but for the order keyword arguments are written in, at any depth. */
  ghost predicate Shuffled(a: Tree, b: Tree)
    decreases a, 1
  {
    match (a, b)
    case (Kwargs(es), Kwargs(fs)) => ShuffledEntries(es, fs)
    case (Unary(v), Unary(w)) => Shuffled(v, w)
    case _ => a == b
  }

  ghost predicate ShuffledEntries(es: seq<Entry>, fs: seq<Entry>)
    decreases es, 0
  {
    if es == [] then fs == []
    else exists j :: 0 <= j < |fs| && ShuffledEntry(es[0], fs[j]) && ShuffledEntries(es[1..], Cut(fs, j))
  }

  ghost predicate ShuffledEntry(e: Entry, f: Entry)
    decreases e, 2
  {
    match (e, f)
    case (Pair(k, v), Pair(l, w)) => k == l && Shuffled(v, w)
    case _ => e == f
  }

  function Cut<T>(s: seq<T>, j: nat): seq<T>
    requires j < |s|
  {
    s[..j] + s[j + 1..]
  }

  /** A form placed anywhere in a list contributes its key, or fails the list. */
  lemma GatherInsert(forms: seq<Form>, j: nat)
    requires j < |forms|
    ensures Gather(forms).Keys? <==> Gather(Cut(forms, j)).Keys? && forms[j].Key?
    ensures Gather(forms).Keys? ==>
              multiset(Gather(forms).texts) == multiset{forms[j].text} + multiset(Gather(Cut(forms, j)).texts)
  {
    hide Gather;
    var a, b := forms[..j], forms[j + 1..];
    assert forms == a + ([forms[j]] + b);
    GatherConcat(a, [forms[j]] + b);
    GatherConcat(a, b);
    GatherConcat([forms[j]], b);
    SingleForm([forms[j]]);
    hide Cut;
    if Gather(forms).Keys? {
      TextsInserted(Gather(a).texts, forms[j].text, Gather(b).texts);
    }
  }

  lemma TextsInserted(a: seq<string>, text: string, b: seq<string>)
    ensures multiset(a + ([text] + b)) == multiset{text} + multiset(a + b)
  {
    assert multiset([text] + b) == multiset{text} + multiset(b);
  }

  lemma {:induction false} ShuffleKeepsReadForms(t: Tables, es: seq<Entry>, fs: seq<Entry>)
    requires (forall e :: e in es ==> PrintableEntry(e)) && ShuffledEntries(es, fs)
    ensures forall f :: f in fs ==> PrintableEntry(f)
    ensures var a, b := Gather(ReadForms(t, es)), Gather(ReadForms(t, fs));
      (a.Keys? <==> b.Keys?) && (a.Keys? ==> multiset(a.texts) == multiset(b.texts))
    ensures |es| == |fs|
    decreases es, 0
  {
    hide ReadForm, PrintableEntry, ShuffledEntry, Gather;
    if es != [] {
      var j :| 0 <= j < |fs| && ShuffledEntry(es[0], fs[j]) && ShuffledEntries(es[1..], Cut(fs, j));
      assert es == [es[0]] + es[1..] && es[0] in es;
      ShuffleKeepsReadForms(t, es[1..], Cut(fs, j));
      ShuffleKeepsReadForm(t, es[0], fs[j]);
      ReadFormsCut(t, es, 0);
      ReadFormsCut(t, fs, j);
      assert Cut(es, 0) == es[1..];
      GatherInsert(ReadForms(t, es), 0);
      GatherInsert(ReadForms(t, fs), j);
      CutHolds(fs, j);
    }
  }

  lemma ReadFormsCut(t: Tables, es: seq<Entry>, j: nat)
    requires j < |es|
    ensures Cut(ReadForms(t, es), j) == ReadForms(t, Cut(es, j)) && ReadForms(t, es)[j] == ReadForm(t, es[j])
  {
    hide ReadForm;
  }

  lemma CutHolds(fs: seq<Entry>, j: nat)
    requires j < |fs|
    ensures forall f :: f in fs ==> f == fs[j] || f in Cut(fs, j)
  {
    forall f | f in fs ensures f == fs[j] || f in Cut(fs, j) {
      var k :| 0 <= k < |fs| && fs[k] == f;
      if k != j { assert Cut(fs, j)[if k < j then k else k - 1] == f; }
    }
  }

  /** Both forms are the same key, or both have failed. */
  predicate SameKey(a: Form, b: Form) { (a.Key? <==> b.Key?) && (a.Key? ==> a == b) }

  lemma {:induction false} ShuffleKeepsReadForm(t: Tables, e: Entry, f: Entry)
    requires PrintableEntry(e) && ShuffledEntry(e, f)
    ensures PrintableEntry(f) && SameKey(ReadForm(t, e), ReadForm(t, f))
    decreases e, 2
  {
    hide NormalForm, Print;
    if e.Pair? {
      ShuffleKeepsForm(t, e.value, f.value);
      ShuffleShowsComma(e.value, f.value);
      if ShowsComma(e.value) && e.value != f.value { assert e.value.Unary?; }
    }
  }

  lemma {:induction false} ShuffleShowsComma(a: Tree, b: Tree)
    requires Shuffled(a, b)
    ensures ShowsComma(a) <==> ShowsComma(b)
  {
    if a.Unary? { ShuffleShowsComma(a.operand, b.operand); }
  }

  /** Reordering keyword arguments at any depth neither changes a descriptor's key nor gives or takes it one. */
  lemma {:induction false} ShuffleKeepsForm(t: Tables, a: Tree, b: Tree)
    requires Printable(a) && Shuffled(a, b)
    ensures Printable(b) && SameKey(NormalForm(t, Print(a)), NormalForm(t, Print(b)))
    decreases a, 1
  {
    hide NormalForm, Print, ReadForms, SortStrings, Join, Gather;
    if a.Kwargs? {
      FormOfKwargs(t, a.entries);
      ShuffleKeepsReadForms(t, a.entries, b.entries);
      FormOfKwargs(t, b.entries);
      if Gather(ReadForms(t, a.entries)).Keys? {
        SortStringsIgnoresOrder(Gather(ReadForms(t, a.entries)).texts, Gather(ReadForms(t, b.entries)).texts);
      }
    } else if a.Unary? {
      ShuffleKeepsForm(t, a.operand, b.operand);
      UnaryForm(t, a.operand);
      UnaryForm(t, b.operand);
    }
  }

  lemma {:induction false} ShuffledItself(a: Tree)
    ensures Shuffled(a, a)
    decreases a, 1
  {
    match a
    case Kwargs(entries) => EntriesItself(entries);
    case Unary(operand) => ShuffledItself(operand);
    case _ =>
  }

  lemma {:induction false} EntriesItself(es: seq<Entry>)
    ensures ShuffledEntries(es, es)
    decreases es, 0
  {
    if es != [] {
      EntryItself(es[0]);
      EntriesItself(es[1..]);
      assert Cut(es, 0) == es[1..];
    }
  }

  lemma {:induction false} EntryItself(e: Entry)
    ensures ShuffledEntry(e, e)
    decreases e, 2
  {
    if e.Pair? { ShuffledItself(e.value); }
  }

  lemma CutCounts(es: seq<Entry>, fs: seq<Entry>, j: nat)
    requires multiset(es) == multiset(fs) && es != [] && j < |fs| && fs[j] == es[0]
    ensures multiset(es[1..]) == multiset(Cut(fs, j))
  {
    assert es == [es[0]] + es[1..];
    assert multiset(es[1..]) == multiset(es) - multiset{es[0]};
    WithoutOne(fs, j);
  }

  lemma WithoutOne(fs: seq<Entry>, j: nat)
    requires j < |fs|
    ensures multiset(Cut(fs, j)) == multiset(fs) - multiset{fs[j]}
  {
    var a, b := fs[..j], fs[j + 1..];
    assert fs == a + ([fs[j]] + b);
    assert multiset(fs) == multiset(a) + (multiset{fs[j]} + multiset(b));
  }

  lemma {:induction false} ReorderedShuffles(es: seq<Entry>, fs: seq<Entry>)
    requires multiset(es) == multiset(fs)
    ensures ShuffledEntries(es, fs)
  {
    hide ShuffledEntry, Cut;
    SameLength(es, fs);
    if es != [] {
      SameElements(es, fs);
      assert es[0] in es;
      var j :| 0 <= j < |fs| && fs[j] == es[0];
      EntryItself(es[0]);
      CutCounts(es, fs, j);
      ReorderedShuffles(es[1..], Cut(fs, j));
    }
  }

  lemma ShuffledBelow(name: string, v: Tree, w: Tree)
    requires Shuffled(v, w)
    ensures Shuffled(Kwargs([Pair(name, v)]), Kwargs([Pair(name, w)]))
  {
    var es, fs := [Pair(name, v)], [Pair(name, w)];
    assert ShuffledEntry(es[0], fs[0]);
    assert es[1..] == [] && Cut(fs, 0) == [];
    assert ShuffledEntries(es[1..], Cut(fs, 0));
    assert ShuffledEntries(es, fs);
  }

  /** The same keyword arguments in two orders have one key, or neither has one; so do a keyword's own. */
  lemma ReorderKeepsForm(t: Tables, es: seq<Entry>, fs: seq<Entry>, name: string)
    requires multiset(es) == multiset(fs) && Printable(Kwargs(es))
    ensures var a, b := NormalForm(t, Print(Kwargs(es))), NormalForm(t, Print(Kwargs(fs)));
            (a.Key? || b.Key?) ==> a == b
    ensures var v, w := Kwargs([Pair(name, Kwargs(es))]), Kwargs([Pair(name, Kwargs(fs))]);
            Shuffled(v, w) && (Printable(v) ==>
              var a, b := NormalForm(t, Print(v)), NormalForm(t, Print(w)); (a.Key? || b.Key?) ==> a == b)
  {
    ReorderedShuffles(es, fs);
    assert Shuffled(Kwargs(es), Kwargs(fs));
    hide NormalForm, Print, ShuffledEntries, Printable, Shuffled;
    ShuffleKeepsForm(t, Kwargs(es), Kwargs(fs));
    ShuffledBelow(name, Kwargs(es), Kwargs(fs));
    var v, w := Kwargs([Pair(name, Kwargs(es))]), Kwargs([Pair(name, Kwargs(fs))]);
    if Printable(v) { ShuffleKeepsForm(t, v, w); }
  }

  lemma UnaryForm(t: Tables, operand: Tree)
    ensures NormalForm(t, Print(Unary(operand))) == Failed(OpaqueForm)
  {
    hide NormalForm;
    assert (UNARY + Print(operand))[..|UNARY|] == UNARY;
    OperatorForm(t, Print(Unary(operand)));
  }
}
