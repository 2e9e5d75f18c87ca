/** The scan that reports the row writes standing inside the body of an `it`. */
module RowWriteScope {
  import opened SourceStripper
  import opened Text

  /** What the test-call expression says of a column: the paren of an `it(`, of an `it.each(`, the backtick of a
      tagged table, or nothing. */
  datatype Mark = Nothing | It | Each | Table

  datatype Column = Column(ch: char, mark: Mark)

  // ------------------------------------------------------------------ brackets

  /** The parentheses open before column `n`, by the column each stands at: a closing one takes the innermost,
      or, unmatched, nothing. */
  ghost function OpenParens(cols: seq<Column>, n: nat): (open: seq<nat>)
    requires n <= |cols|
    ensures forall k :: 0 <= k < |open| ==> open[k] < n && cols[open[k]].ch == '('
    ensures forall j, k :: 0 <= j < k < |open| ==> open[j] < open[k]
  {
    if n == 0 then []
    else
      var open := OpenParens(cols, n - 1);
      if cols[n - 1].ch == '(' then open + [n - 1]
      else if cols[n - 1].ch == ')' && open != [] then open[..|open| - 1]
      else open
  }

  /** Opening less closing parentheses between two columns. */
  ghost function Net(cols: seq<Column>, p: nat, n: nat): int
    requires p <= n <= |cols|
  {
    if n == p then 0
    else Net(cols, p, n - 1) + if cols[n - 1].ch == '(' then 1 else if cols[n - 1].ch == ')' then -1 else 0
  }

  // --------------------------------------------------------------------- roles

  /** What a parenthesis holds: the body of a test, the rows of a table, or anything else. */
  datatype Role = Other | Body | Rows

  ghost function Ticks(cols: seq<Column>, n: nat): nat
    requires n <= |cols|
  {
    if n == 0 then 0 else Ticks(cols, n - 1) + if cols[n - 1].ch == '`' then 1 else 0
  }

  /** Column `n` lies in a literal whose opening backtick is a tagged table's. */
  ghost predicate InTable(cols: seq<Column>, n: nat)
    requires n <= |cols|
  {
    Ticks(cols, n) % 2 == 1 && LastTickOpensTable(cols, n)
  }

  ghost predicate LastTickOpensTable(cols: seq<Column>, n: nat)
    requires n <= |cols|
  {
    exists t :: 0 <= t < n && cols[t].ch == '`' && cols[t].mark == Table && forall k :: t < k < n ==> cols[k].ch != '`'
  }

  ghost function RoleOf(cols: seq<Column>, p: nat): Role
    requires p < |cols|
    decreases p, 2
  {
    if cols[p].mark == Each then Rows else if cols[p].mark == It || Awaited(cols, p) then Body else Other
  }

  /** A table ended before the column with only blanks and closing parentheses since. */
  ghost predicate Awaited(cols: seq<Column>, p: nat)
    requires p <= |cols|
    decreases p, 1
  {
    exists q :: 0 <= q < p && EndsTable(cols, q) && forall k :: q < k < p ==> Carries(cols[k].ch)
  }

  predicate Carries(c: char) { IsSpace(c) || c == ')' }

  /** The column closes the rows of a table, or the literal of a tagged one. */
  ghost predicate EndsTable(cols: seq<Column>, q: nat)
    requires q < |cols|
    decreases q, 3
  {
    var open := OpenParens(cols, q);
    || (cols[q].ch == ')' && open != [] && RoleOf(cols, open[|open| - 1]) == Rows)
    || (cols[q].ch == '`' && InTable(cols, q))
  }

  /** A test body's parenthesis is open at the column. */
  ghost predicate InBody(cols: seq<Column>, n: nat)
    requires n <= |cols|
  {
    exists p :: p in OpenParens(cols, n) && RoleOf(cols, p) == Body
  }

  // --------------------------------------------------------------- depth stacks

  /** The depths the open parentheses of a role opened at, outermost first. */
  ghost function Depths(cols: seq<Column>, open: seq<nat>, role: Role): seq<int>
    requires forall k :: 0 <= k < |open| ==> open[k] < |cols|
  {
    if open == [] then []
    else
      var p := open[|open| - 1];
      Depths(cols, open[..|open| - 1], role) + if RoleOf(cols, p) == role then [Net(cols, 0, p + 1)] else []
  }

  /** What the scan's variables hold before column `n`. */
  ghost predicate Tracks(cols: seq<Column>, n: nat, itParens: seq<int>, eachParens: seq<int>, parenDepth: int,
                         bodyCallPending: bool)
    requires n <= |cols|
  {
    && itParens == Depths(cols, OpenParens(cols, n), Body)
    && eachParens == Depths(cols, OpenParens(cols, n), Rows)
    && parenDepth == Net(cols, 0, n)
    && bodyCallPending == Awaited(cols, n)
  }

  ghost predicate TracksTicks(cols: seq<Column>, n: nat, inTemplate: bool, taggedTemplate: bool)
    requires n <= |cols|
  {
    inTemplate == (Ticks(cols, n) % 2 == 1) && taggedTemplate == InTable(cols, n)
  }

  /** The scan's variables. */
  datatype Scan = Scan(
    itParens: seq<int>, eachParens: seq<int>, parenDepth: int,
    bodyCallPending: bool, inTemplate: bool, taggedTemplate: bool)

  ghost predicate Follows(cols: seq<Column>, n: nat, s: Scan)
    requires n <= |cols|
  {
    Tracks(cols, n, s.itParens, s.eachParens, s.parenDepth, s.bodyCallPending) &&
      TracksTicks(cols, n, s.inTemplate, s.taggedTemplate)
  }

  predicate EndsWith(depths: seq<int>, depth: int) { depths != [] && depths[|depths| - 1] == depth }

  /** The parentheses open at a column stand one depth apart, the innermost at the current depth. */
  lemma {:induction false} OpenDepths(cols: seq<Column>, n: nat, k: nat)
    requires n <= |cols| && k < |OpenParens(cols, n)|
    ensures Net(cols, 0, OpenParens(cols, n)[k] + 1) == Net(cols, 0, n) - (|OpenParens(cols, n)| - 1 - k)
  {
    if n > 0 && OpenParens(cols, n)[k] < n - 1 {
      OpenDepths(cols, n - 1, k);
    }
  }

  /** On every input, balanced or not, the depth stack of a role strictly increases, reaches no deeper than the
      scan stands, and reaches that deep exactly when the innermost open parenthesis has the role. */
  lemma DepthsIncrease(cols: seq<Column>, n: nat, role: Role)
    requires n <= |cols|
    ensures Increasing(Depths(cols, OpenParens(cols, n), role), Net(cols, 0, n))
    ensures var open := OpenParens(cols, n);
      (EndsWith(Depths(cols, open, role), Net(cols, 0, n)) <==>
       (open != [] && RoleOf(cols, open[|open| - 1]) == role))
  {
    OpenApart(cols, n);
    hide *;
    DepthsBelow(cols, OpenParens(cols, n), Net(cols, 0, n), role);
  }

  /** The parentheses stand one depth apart, the innermost at `depth`. */
  ghost predicate Apart(cols: seq<Column>, open: seq<nat>, depth: int) {
    forall k :: 0 <= k < |open| ==> open[k] < |cols| && Net(cols, 0, open[k] + 1) == depth - (|open| - 1 - k)
  }

  lemma OpenApart(cols: seq<Column>, n: nat)
    requires n <= |cols|
    ensures Apart(cols, OpenParens(cols, n), Net(cols, 0, n))
  {
    hide OpenParens, Net;
    var open := OpenParens(cols, n);
    forall k | 0 <= k < |open|
      ensures open[k] < |cols| && Net(cols, 0, open[k] + 1) == Net(cols, 0, n) - (|open| - 1 - k)
    {
      OpenDepths(cols, n, k);
    }
  }

  lemma ApartInit(cols: seq<Column>, open: seq<nat>, depth: int)
    requires open != [] && Apart(cols, open, depth)
    ensures Apart(cols, open[..|open| - 1], depth - 1)
    ensures open[|open| - 1] < |cols| && Net(cols, 0, open[|open| - 1] + 1) == depth
  {
    hide Net;
    var init := open[..|open| - 1];
    forall k | 0 <= k < |init|
      ensures init[k] < |cols| && Net(cols, 0, init[k] + 1) == depth - 1 - (|init| - 1 - k)
    {
      assert init[k] == open[k];
    }
  }

  lemma {:induction false} DepthsBelow(cols: seq<Column>, open: seq<nat>, depth: int, role: Role)
    requires Apart(cols, open, depth) && forall k :: 0 <= k < |open| ==> open[k] < |cols|
    ensures Increasing(Depths(cols, open, role), depth)
    ensures (EndsWith(Depths(cols, open, role), depth) <==> (open != [] && RoleOf(cols, open[|open| - 1]) == role))
  {
    if open != [] {
      var init, p := open[..|open| - 1], open[|open| - 1];
      assert Depths(cols, open, role) ==
             Depths(cols, init, role) + if RoleOf(cols, p) == role then [Net(cols, 0, p + 1)] else [];
      hide *;
      ApartInit(cols, open, depth);
      DepthsBelow(cols, init, depth - 1, role);
      IncreasingPush(Depths(cols, init, role), depth - 1, RoleOf(cols, p) == role);
    }
  }

  /** Strictly increasing, and nowhere above the bound. */
  predicate Increasing(depths: seq<int>, bound: int) {
    (forall j, k :: 0 <= j < k < |depths| ==> depths[j] < depths[k]) &&
    (forall k :: 0 <= k < |depths| ==> depths[k] <= bound)
  }

  lemma IncreasingPush(depths: seq<int>, bound: int, push: bool)
    requires Increasing(depths, bound)
    ensures Increasing(depths + if push then [bound + 1] else [], bound + 1)
    ensures EndsWith(depths + if push then [bound + 1] else [], bound + 1) <==> push
  {
    if !push {
      assert depths + [] == depths;
    }
  }

  lemma DepthsPush(cols: seq<Column>, open: seq<nat>, p: nat, role: Role)
    requires p < |cols| && forall k :: 0 <= k < |open| ==> open[k] < |cols|
    ensures Depths(cols, open + [p], role) ==
            Depths(cols, open, role) + if RoleOf(cols, p) == role then [Net(cols, 0, p + 1)] else []
  {
    hide RoleOf, Net;
    assert (open + [p])[..|open + [p]| - 1] == open;
  }

  lemma {:induction false} DepthsShowRole(cols: seq<Column>, open: seq<nat>, role: Role)
    requires forall k :: 0 <= k < |open| ==> open[k] < |cols|
    ensures Depths(cols, open, role) != [] <==> exists p :: p in open && RoleOf(cols, p) == role
  {
    if open != [] {
      var init, p := open[..|open| - 1], open[|open| - 1];
      DepthsShowRole(cols, init, role);
      hide RoleOf;
      assert p in open && forall x :: x in open <==> x in init || x == p;
      if x :| x in init && RoleOf(cols, x) == role { assert x in open; }
    }
  }

  // ------------------------------------------------------------------- one column

  lemma AwaitedStep(cols: seq<Column>, n: nat)
    requires n < |cols|
    ensures Awaited(cols, n + 1) <==> EndsTable(cols, n) || (Awaited(cols, n) && Carries(cols[n].ch))
  {
    hide EndsTable;
  }

  lemma StepOpen(cols: seq<Column>, n: nat, itParens: seq<int>, eachParens: seq<int>, parenDepth: int, pending: bool)
    requires n < |cols| && Tracks(cols, n, itParens, eachParens, parenDepth, pending) && cols[n].ch == '('
    ensures Tracks(cols, n + 1,
                   itParens +
                   (if cols[n].mark != Each && (cols[n].mark == It || pending) then [parenDepth + 1] else []),
                   eachParens + (if cols[n].mark == Each then [parenDepth + 1] else []), parenDepth + 1, false)
  {
    hide *;
    var open := OpenParens(cols, n);
    OpenStep(cols, n);
    OpenedRole(cols, n);
    TracksParts(cols, n, itParens, eachParens, parenDepth, pending);
    DepthsPush(cols, open, n, Body);
    DepthsPush(cols, open, n, Rows);
    PartsTrack(cols, n + 1, Depths(cols, open + [n], Body), Depths(cols, open + [n], Rows), parenDepth + 1, false);
  }

  lemma OpenStep(cols: seq<Column>, n: nat)
    requires n < |cols| && cols[n].ch == '('
    ensures OpenParens(cols, n + 1) == OpenParens(cols, n) + [n] && Net(cols, 0, n + 1) == Net(cols, 0, n) + 1
    ensures !Awaited(cols, n + 1)
  {
    AwaitedStep(cols, n);
    hide Awaited, InTable;
  }

  lemma OpenedRole(cols: seq<Column>, n: nat)
    requires n < |cols|
    ensures RoleOf(cols, n) == if cols[n].mark == Each then Rows else if cols[n].mark == It || Awaited(cols, n)
      then Body else Other
  {
    hide Awaited;
  }

  lemma TracksParts(cols: seq<Column>, n: nat, itParens: seq<int>, eachParens: seq<int>, parenDepth: int, pending: bool)
    requires n <= |cols| && Tracks(cols, n, itParens, eachParens, parenDepth, pending)
    ensures itParens == Depths(cols, OpenParens(cols, n), Body) && eachParens == Depths(cols, OpenParens(cols, n), Rows)
    ensures parenDepth == Net(cols, 0, n) && pending == Awaited(cols, n)
  {
  }

  lemma PartsTrack(cols: seq<Column>, n: nat, itParens: seq<int>, eachParens: seq<int>, parenDepth: int, pending: bool)
    requires n <= |cols|
    requires itParens == Depths(cols, OpenParens(cols, n), Body)
    requires eachParens == Depths(cols, OpenParens(cols, n), Rows)
    requires parenDepth == Net(cols, 0, n) && pending == Awaited(cols, n)
    ensures Tracks(cols, n, itParens, eachParens, parenDepth, pending)
  {
  }

  lemma StepClose(cols: seq<Column>, n: nat, itParens: seq<int>, eachParens: seq<int>, parenDepth: int, pending: bool)
    requires n < |cols| && Tracks(cols, n, itParens, eachParens, parenDepth, pending) && cols[n].ch == ')'
    ensures var it, each := EndsWith(itParens, parenDepth), EndsWith(eachParens, parenDepth);
      Tracks(cols, n + 1, if it then itParens[..|itParens| - 1] else itParens,
             if each then eachParens[..|eachParens| - 1] else eachParens, parenDepth - 1, pending || each)
  {
    hide *;
    CloseStep(cols, n);
    CloseDepths(cols, n, Body);
    CloseDepths(cols, n, Rows);
    TracksParts(cols, n, itParens, eachParens, parenDepth, pending);
    var open := OpenParens(cols, n + 1);
    PartsTrack(cols, n + 1, Depths(cols, open, Body), Depths(cols, open, Rows), parenDepth - 1, Awaited(cols, n + 1));
  }

  /** A closing parenthesis pops the stack of its role, if it closes one, and ends a table if it closed its rows. */
  lemma CloseDepths(cols: seq<Column>, n: nat, role: Role)
    requires n < |cols| && cols[n].ch == ')'
    ensures var depths, open := Depths(cols, OpenParens(cols, n), role), OpenParens(cols, n);
      && (EndsWith(depths, Net(cols, 0, n)) <==> (open != [] && RoleOf(cols, open[|open| - 1]) == role))
      && Depths(cols, OpenParens(cols, n + 1), role) ==
           if EndsWith(depths, Net(cols, 0, n)) then depths[..|depths| - 1] else depths
  {
    DepthsIncrease(cols, n, role);
    CloseStep(cols, n);
    hide OpenParens, RoleOf, Net, Awaited;
  }

  lemma CloseStep(cols: seq<Column>, n: nat)
    requires n < |cols| && cols[n].ch == ')'
    ensures Net(cols, 0, n + 1) == Net(cols, 0, n) - 1
    ensures var open := OpenParens(cols, n);
      && OpenParens(cols, n + 1) == (if open == [] then [] else open[..|open| - 1])
      && (Awaited(cols, n + 1) <==> Awaited(cols, n) || (open != [] && RoleOf(cols, open[|open| - 1]) == Rows))
  {
    AwaitedStep(cols, n);
    hide Awaited, InTable, RoleOf;
  }

  lemma StepOther(cols: seq<Column>, n: nat, itParens: seq<int>, eachParens: seq<int>, parenDepth: int, pending: bool)
    requires n < |cols| && Tracks(cols, n, itParens, eachParens, parenDepth, pending)
    requires cols[n].ch != '(' && cols[n].ch != ')'
    ensures Tracks(cols, n + 1, itParens, eachParens, parenDepth,
                   (cols[n].ch == '`' && InTable(cols, n)) || (pending && IsSpace(cols[n].ch)))
  {
    AwaitedStep(cols, n);
    hide Awaited, InTable, RoleOf, IsSpace;
  }

  lemma StepTick(cols: seq<Column>, n: nat, inTemplate: bool, taggedTemplate: bool)
    requires n < |cols| && TracksTicks(cols, n, inTemplate, taggedTemplate)
    ensures cols[n].ch != '`' ==> TracksTicks(cols, n + 1, inTemplate, taggedTemplate)
    ensures cols[n].ch == '`' ==> TracksTicks(cols, n + 1, !inTemplate, !inTemplate && cols[n].mark == Table)
  {
    if cols[n].ch == '`' {
      if cols[n].mark == Table { assert LastTickOpensTable(cols, n + 1); }
    } else {
      if LastTickOpensTable(cols, n) {
        var t :| 0 <= t < n && cols[t].ch == '`' && cols[t].mark == Table
                 && forall k :: t < k < n ==> cols[k].ch != '`';
        assert LastTickOpensTable(cols, n + 1);
      }
    }
  }

  // ---------------------------------------------------------------- what open means

  ghost predicate Unclosed(cols: seq<Column>, p: nat, n: nat)
    requires n <= |cols|
  {
    p < n && cols[p].ch == '(' && forall m :: p < m <= n ==> Net(cols, p, m) >= 1
  }

  lemma {:induction false} NetOfOpen(cols: seq<Column>, n: nat, k: nat)
    requires n <= |cols| && k < |OpenParens(cols, n)|
    ensures Net(cols, OpenParens(cols, n)[k], n) == |OpenParens(cols, n)| - k
  {
    var p := OpenParens(cols, n)[k];
    if p < n - 1 {
      NetOfOpen(cols, n - 1, k);
    } else {
      assert Net(cols, p, p) == 0;
    }
  }

  lemma {:induction false} OpenUnclosed(cols: seq<Column>, p: nat, n: nat)
    requires n <= |cols| && p in OpenParens(cols, n)
    ensures Unclosed(cols, p, n)
  {
    var now := OpenParens(cols, n);
    var k :| 0 <= k < |now| && now[k] == p;
    NetOfOpen(cols, n, k);
    if p == n - 1 {
      hide OpenParens;
    } else {
      assert OpenParens(cols, n - 1)[k] == p;
      OpenUnclosed(cols, p, n - 1);
      hide OpenParens, Net;
    }
  }

  lemma {:induction false} UnclosedOpen(cols: seq<Column>, p: nat, n: nat)
    requires n <= |cols| && Unclosed(cols, p, n)
    ensures p in OpenParens(cols, n)
  {
    var now := OpenParens(cols, n);
    if p == n - 1 {
      assert now[|now| - 1] == p;
    } else {
      var was := OpenParens(cols, n - 1);
      UnclosedOpen(cols, p, n - 1);
      var k :| 0 <= k < |was| && was[k] == p;
      NetOfOpen(cols, n - 1, k);
      assert Net(cols, p, n) >= 1;
      assert k < |now| && now[k] == p;
    }
  }

  /** A parenthesis is open on the bracket stack exactly when no later column brings its balance back to zero. */
  lemma OpenIffUnclosed(cols: seq<Column>, p: nat, n: nat)
    requires n <= |cols|
    ensures p in OpenParens(cols, n) <==> Unclosed(cols, p, n)
  {
    if p in OpenParens(cols, n) { OpenUnclosed(cols, p, n); }
    if Unclosed(cols, p, n) { UnclosedOpen(cols, p, n); }
  }

  /** A place lies in a test body exactly when some body's parenthesis before it is unclosed there. */
  lemma InBodyIffUnclosed(cols: seq<Column>, n: nat)
    requires n <= |cols|
    ensures InBody(cols, n) <==> exists p :: 0 <= p < |cols| && Unclosed(cols, p, n) && RoleOf(cols, p) == Body
  {
    hide RoleOf, Unclosed;
    if InBody(cols, n) {
      var p :| p in OpenParens(cols, n) && RoleOf(cols, p) == Body;
      OpenIffUnclosed(cols, p, n);
    }
    if p :| 0 <= p < |cols| && Unclosed(cols, p, n) && RoleOf(cols, p) == Body {
      OpenIffUnclosed(cols, p, n);
    }
  }

  // ------------------------------------------------------------------------ lines

  ghost function Flatten(lines: seq<seq<Column>>): seq<Column> {
    if lines == [] then [] else Flatten(lines[..|lines| - 1]) + lines[|lines| - 1]
  }

  ghost function Offset(lines: seq<seq<Column>>, i: nat): nat
    requires i <= |lines|
  {
    |Flatten(lines[..i])|
  }

  lemma {:induction false} FlattenPrefix(lines: seq<seq<Column>>, i: nat)
    requires i <= |lines|
    ensures Flatten(lines[..i]) <= Flatten(lines)
  {
    if i == |lines| {
      assert lines[..i] == lines;
    } else {
      var init := lines[..|lines| - 1];
      FlattenPrefix(init, i);
      assert init[..i] == lines[..i];
    }
  }

  lemma LineInFlatten(lines: seq<seq<Column>>, i: nat)
    requires i < |lines|
    ensures Offset(lines, i + 1) == Offset(lines, i) + |lines[i]| <= |Flatten(lines)|
    ensures forall c :: 0 <= c < |lines[i]| ==> Flatten(lines)[Offset(lines, i) + c] == lines[i][c]
  {
    FlattenPrefix(lines, i + 1);
    assert lines[..i + 1][..i] == lines[..i];
    assert Flatten(lines[..i + 1]) == Flatten(lines[..i]) + lines[i];
  }

  lemma ColumnPlace(lines: seq<seq<Column>>, i: nat, c: nat)
    requires i < |lines| && c < |lines[i]|
    ensures Offset(lines, i) + c < |Flatten(lines)| && Flatten(lines)[Offset(lines, i) + c] == lines[i][c]
  {
    LineInFlatten(lines, i);
    hide Offset, Flatten;
  }

  // ------------------------------------------------------------------------- writes

  datatype RowWrite = RowWrite(line: nat, pattern: string, receiver: string)

  predicate StartsAt(line: seq<Column>, c: nat, pattern: string) {
    c + |pattern| <= |line| && forall k :: 0 <= k < |pattern| ==> line[c + k].ch == pattern[k]
  }

  /** Letters, digits, underscore (code unit 95) and dollar sign (36). */
  predicate IsWord(c: char)
    ensures IsWord(c) <==>
      97 <= c as int <= 122 || 65 <= c as int <= 90 || 48 <= c as int <= 57 || c as int == 95 || c as int == 36
  {
    'a' <= c <= 'z' || 'A' <= c <= 'Z' || '0' <= c <= '9' || c == '_' || c == '$'
  }

  function Chars(line: seq<Column>): string { seq(|line|, k requires 0 <= k < |line| => line[k].ch) }

  /** Where the word ending before the column begins. */
  function WordStart(line: seq<Column>, c: nat): (start: nat)
    requires c <= |line|
    ensures start <= c && forall k :: start <= k < c ==> IsWord(line[k].ch)
    ensures start == 0 || !IsWord(line[start - 1].ch)
  {
    if c > 0 && IsWord(line[c - 1].ch) then WordStart(line, c - 1) else c
  }

  /** The word a method call is made on; a pattern that is no method call has none. */
  function Receiver(line: seq<Column>, c: nat, pattern: string): string
    requires c <= |line|
  {
    if pattern != [] && pattern[0] == '.' then Chars(line)[WordStart(line, c)..c] else []
  }

  method ReceiverAt(line: seq<Column>, c: nat, pattern: string) returns (receiver: string)
    requires c <= |line|
    ensures receiver == Receiver(line, c, pattern)
  {
    if pattern == [] || pattern[0] != '.' {
      return [];
    }
    var start: nat := c;
    while start > 0 && IsWord(line[start - 1].ch)
      invariant start <= c && WordStart(line, c) == WordStart(line, start)
    {
      start := start - 1;
    }
    receiver := Chars(line)[start..c];
  }

  /** The writes that begin at a column, in the order of the patterns. */
  function WritesAt(i: nat, line: seq<Column>, c: nat, patterns: seq<string>): (r: seq<RowWrite>)
    requires c <= |line|
    ensures forall w :: w in r ==> (w.line == i + 1 && w.pattern in patterns && StartsAt(line, c, w.pattern)
                                    && w.receiver == Receiver(line, c, w.pattern))
  {
    if patterns == [] then []
    else
      var p := patterns[|patterns| - 1];
      WritesAt(i, line, c, patterns[..|patterns| - 1])
      + if StartsAt(line, c, p) then [RowWrite(i + 1, p, Receiver(line, c, p))] else []
  }

  /** The writes on a line before a column: at each place in a test body, those that begin there. */
  ghost function OnLine(lines: seq<seq<Column>>, patterns: seq<string>, i: nat, c: nat): seq<RowWrite>
    requires i < |lines| && c <= |lines[i]|
  {
    if c == 0 then []
    else
      LineInFlatten(lines, i);
      OnLine(lines, patterns, i, c - 1)
      + if InBody(Flatten(lines), Offset(lines, i) + c - 1) then WritesAt(i, lines[i], c - 1, patterns) else []
  }

  /** The writes on the first lines. */
  ghost function Above(lines: seq<seq<Column>>, patterns: seq<string>, i: nat): seq<RowWrite>
    requires i <= |lines|
  {
    if i == 0 then [] else Above(lines, patterns, i - 1) + OnLine(lines, patterns, i - 1, |lines[i - 1]|)
  }

  method PatternsAt(i: nat, line: seq<Column>, c: nat, patterns: seq<string>) returns (found: seq<RowWrite>)
    requires c <= |line|
    ensures found == WritesAt(i, line, c, patterns)
  {
    hide StartsAt, Receiver;
    found := [];
    for k := 0 to |patterns|
      invariant found == WritesAt(i, line, c, patterns[..k])
    {
      assert patterns[..k + 1][..k] == patterns[..k];
      if StartsAt(line, c, patterns[k]) {
        var receiver := ReceiverAt(line, c, patterns[k]);
        found := found + [RowWrite(i + 1, patterns[k], receiver)];
      }
    }
    assert patterns[..|patterns|] == patterns;
  }

  lemma StartsWithFirst(line: seq<Column>, c: nat, pattern: string)
    requires pattern != []
    ensures StartsAt(line, c, pattern) ==> c < |line| && line[c].ch == pattern[0]
  {
    if StartsAt(line, c, pattern) { assert line[c + 0].ch == pattern[0]; }
  }

  /** What a write begins with: no parenthesis or backtick, which the scan takes for itself. */
  predicate Headed(pattern: string) { pattern != [] && pattern[0] != '(' && pattern[0] != ')' && pattern[0] != '`' }

  lemma {:induction false} NothingBegins(i: nat, line: seq<Column>, c: nat, patterns: seq<string>)
    requires c < |line| && forall p :: p in patterns ==> Headed(p)
    requires line[c].ch == '(' || line[c].ch == ')' || line[c].ch == '`'
    ensures WritesAt(i, line, c, patterns) == []
  {
    hide StartsAt;
    if patterns != [] {
      var init, p := patterns[..|patterns| - 1], patterns[|patterns| - 1];
      assert p in patterns && forall q :: q in init ==> q in patterns;
      NothingBegins(i, line, c, init);
      StartsWithFirst(line, c, p);
    }
  }

  lemma BeforeAnything(cols: seq<Column>)
    ensures Tracks(cols, 0, [], [], 0, false) && TracksTicks(cols, 0, false, false)
  {
  }

  lemma BodyShows(cols: seq<Column>, n: nat, itParens: seq<int>, eachParens: seq<int>, parenDepth: int, pending: bool)
    requires n <= |cols| && Tracks(cols, n, itParens, eachParens, parenDepth, pending)
    ensures InBody(cols, n) <==> itParens != []
  {
    hide RoleOf, Awaited, Depths;
    DepthsShowRole(cols, OpenParens(cols, n), Body);
  }

  /** An opening parenthesis: a table's rows, a body's, or neither. */
  function Opened(s: Scan, mark: Mark): Scan {
    var depth := s.parenDepth + 1;
    s.(parenDepth := depth, bodyCallPending := false,
       eachParens := if mark == Each then s.eachParens + [depth] else s.eachParens,
       itParens := if mark != Each && (mark == It || s.bodyCallPending) then s.itParens + [depth] else s.itParens)
  }

  function PopAt(depths: seq<int>, depth: int): seq<int> {
    if EndsWith(depths, depth) then depths[..|depths| - 1] else depths
  }

  /** A closing parenthesis; where it ends a table's rows, the body's call is still to come. */
  function Closed(s: Scan): Scan {
    s.(itParens := PopAt(s.itParens, s.parenDepth), eachParens := PopAt(s.eachParens, s.parenDepth),
       bodyCallPending := s.bodyCallPending || EndsWith(s.eachParens, s.parenDepth), parenDepth := s.parenDepth - 1)
  }

  lemma OpenedFollows(cols: seq<Column>, n: nat, s: Scan)
    requires n < |cols| && Follows(cols, n, s) && cols[n].ch == '('
    ensures Follows(cols, n + 1, Opened(s, cols[n].mark))
  {
    StepTick(cols, n, s.inTemplate, s.taggedTemplate);
    StepOpen(cols, n, s.itParens, s.eachParens, s.parenDepth, s.bodyCallPending);
    hide Tracks, TracksTicks;
    assert s.itParens + [] == s.itParens && s.eachParens + [] == s.eachParens;
  }

  lemma ClosedFollows(cols: seq<Column>, n: nat, s: Scan)
    requires n < |cols| && Follows(cols, n, s) && cols[n].ch == ')'
    ensures Follows(cols, n + 1, Closed(s))
  {
    StepTick(cols, n, s.inTemplate, s.taggedTemplate);
    StepClose(cols, n, s.itParens, s.eachParens, s.parenDepth, s.bodyCallPending);
    hide Tracks, TracksTicks;
  }

  lemma OtherFollows(cols: seq<Column>, n: nat, s: Scan, next: Scan)
    requires n < |cols| && Follows(cols, n, s) && cols[n].ch != '(' && cols[n].ch != ')'
    requires next.itParens == s.itParens && next.eachParens == s.eachParens && next.parenDepth == s.parenDepth
    requires next.inTemplate == (s.inTemplate != (cols[n].ch == '`'))
    requires next.taggedTemplate == if cols[n].ch == '`' then !s.inTemplate && cols[n].mark == Table
      else s.taggedTemplate
    requires next.bodyCallPending == ((cols[n].ch == '`' && s.taggedTemplate) ||
      (s.bodyCallPending && IsSpace(cols[n].ch)))
    ensures Follows(cols, n + 1, next)
  {
    StepTick(cols, n, s.inTemplate, s.taggedTemplate);
    TaggedShows(cols, n, s.inTemplate, s.taggedTemplate);
    StepOther(cols, n, s.itParens, s.eachParens, s.parenDepth, s.bodyCallPending);
    hide Tracks, TracksTicks, IsSpace, InTable;
  }

  /** One column of the scan; `looks` tells whether writes are looked for there. */
  method Advance(ghost cols: seq<Column>, ghost n: nat, col: Column, s: Scan) returns (next: Scan, looks: bool)
    requires n < |cols| && cols[n] == col && Follows(cols, n, s)
    ensures Follows(cols, n + 1, next)
    ensures looks ==> s.itParens != []
    ensures looks || col.ch == '(' || col.ch == ')' || col.ch == '`' || s.itParens == []
  {
    TaggedShows(cols, n, s.inTemplate, s.taggedTemplate);
    hide Follows, IsSpace, InTable, Opened, Closed;
    if col.ch == '(' {
      OpenedFollows(cols, n, s);
      return Opened(s, col.mark), false;
    }
    if col.ch == ')' {
      ClosedFollows(cols, n, s);
      return Closed(s), false;
    }
    next, looks := s, false;
    if col.ch == '`' {
      if next.inTemplate {
        next := next.(inTemplate := false);
        if next.taggedTemplate {
          next := next.(taggedTemplate := false, bodyCallPending := true);
          OtherFollows(cols, n, s, next);
          return;
        }
      } else {
        next := next.(inTemplate := true, taggedTemplate := col.mark == Table);
      }
    }
    if next.bodyCallPending && !IsSpace(col.ch) {
      next := next.(bodyCallPending := false);
    }
    OtherFollows(cols, n, s, next);
    looks := next.itParens != [];
  }

  /** One column of a line: the scan's variables behind it, and the writes that begin there. */
  method ScanColumn(lines: seq<seq<Column>>, patterns: seq<string>, i: nat, c: nat, s: Scan)
      returns (next: Scan, writes: seq<RowWrite>)
    requires (forall p :: p in patterns ==> Headed(p)) && i < |lines| && c < |lines[i]|
    requires Offset(lines, i) + |lines[i]| <= |Flatten(lines)| && Follows(Flatten(lines), Offset(lines, i) + c, s)
    ensures Follows(Flatten(lines), Offset(lines, i) + c + 1, next)
    ensures OnLine(lines, patterns, i, c + 1) == OnLine(lines, patterns, i, c) + writes
  {
    hide *;
    ghost var cols, n := Flatten(lines), Offset(lines, i) + c;
    ColumnPlace(lines, i, c);
    var looks;
    next, looks := Advance(cols, n, lines[i][c], s);
    ColumnFound(lines, patterns, i, c, s, looks);
    writes := [];
    if looks {
      writes := PatternsAt(i, lines[i], c, patterns);
    }
  }

  lemma NoneOnLine(lines: seq<seq<Column>>, patterns: seq<string>, i: nat)
    requires i < |lines|
    ensures OnLine(lines, patterns, i, 0) == []
  {
  }

  /** One line of the scan. */
  method ScanLine(lines: seq<seq<Column>>, patterns: seq<string>, i: nat, s: Scan)
      returns (next: Scan, writes: seq<RowWrite>)
    requires (forall p :: p in patterns ==> Headed(p)) && i < |lines|
    requires Offset(lines, i) + |lines[i]| <= |Flatten(lines)| && Follows(Flatten(lines), Offset(lines, i), s)
    ensures Follows(Flatten(lines), Offset(lines, i) + |lines[i]|, next)
    ensures writes == OnLine(lines, patterns, i, |lines[i]|)
  {
    hide *;
    NoneOnLine(lines, patterns, i);
    ghost var cols, off := Flatten(lines), Offset(lines, i);
    next, writes := s, [];
    for c := 0 to |lines[i]|
      invariant Follows(cols, off + c, next) && writes == OnLine(lines, patterns, i, c)
    {
      var found;
      next, found := ScanColumn(lines, patterns, i, c, next);
      writes := writes + found;
    }
  }

  lemma ColumnFound(lines: seq<seq<Column>>, patterns: seq<string>, i: nat, c: nat, s: Scan, looks: bool)
    requires i < |lines| && c < |lines[i]| && Offset(lines, i) + |lines[i]| <= |Flatten(lines)|
    requires forall p :: p in patterns ==> Headed(p)
    requires Follows(Flatten(lines), Offset(lines, i) + c, s) && (looks ==> s.itParens != [])
    requires looks || lines[i][c].ch == '(' || lines[i][c].ch == ')' || lines[i][c].ch == '`' || s.itParens == []
    ensures OnLine(lines, patterns, i, c + 1) ==
            OnLine(lines, patterns, i, c) + if looks then WritesAt(i, lines[i], c, patterns) else []
  {
    BodyShows(Flatten(lines), Offset(lines, i) + c, s.itParens, s.eachParens, s.parenDepth, s.bodyCallPending);
    if lines[i][c].ch == '(' || lines[i][c].ch == ')' || lines[i][c].ch == '`' {
      NothingBegins(i, lines[i], c, patterns);
    }
    hide InBody, Follows, Flatten, Offset, WritesAt;
  }

  // -------------------------------------------------------------------- every write

  /** Where a write may be: a pattern at a column of a line. */
  datatype Site = Site(line: nat, column: nat, pattern: nat)

  /** The pattern stands at the site, character for character, inside an open test body. */
  ghost predicate Stands(lines: seq<seq<Column>>, patterns: seq<string>, s: Site) {
    && s.line < |lines| && s.pattern < |patterns|
    && s.column < |lines[s.line]| && s.column + |patterns[s.pattern]| <= |lines[s.line]|
    && (forall m :: 0 <= m < |patterns[s.pattern]| ==> lines[s.line][s.column + m].ch == patterns[s.pattern][m])
    && Offset(lines, s.line) + s.column <= |Flatten(lines)|
    && InBody(Flatten(lines), Offset(lines, s.line) + s.column)
  }

  ghost predicate Earlier(a: Site, b: Site) {
    a.line < b.line || (a.line == b.line &&
      (a.column < b.column || (a.column == b.column && a.pattern < b.pattern)))
  }

  /** The word before the column, as long as it goes. */
  ghost predicate WordBefore(line: seq<Column>, c: nat, word: string) {
    && |word| <= c <= |line|
    && (forall m :: 0 <= m < |word| ==> word[m] == line[c - |word| + m].ch && IsWord(word[m]))
    && (|word| == c || !IsWord(line[c - |word| - 1].ch))
  }

  /** The write recorded for a site. */
  ghost predicate Records(lines: seq<seq<Column>>, patterns: seq<string>, s: Site, w: RowWrite) {
    && s.line < |lines| && s.pattern < |patterns|
    && w.line == s.line + 1 && w.pattern == patterns[s.pattern]
    && (if w.pattern != [] && w.pattern[0] == '.' then WordBefore(lines[s.line], s.column, w.receiver)
        else w.receiver == [])
  }

  /** The sites are ascending, and each has its write. */
  ghost predicate Lists(lines: seq<seq<Column>>, patterns: seq<string>, sites: seq<Site>, writes: seq<RowWrite>) {
    && |sites| == |writes|
    && (forall j, l :: 0 <= j < l < |sites| ==> Earlier(sites[j], sites[l]))
    && (forall j :: 0 <= j < |sites| ==> Records(lines, patterns, sites[j], writes[j]))
  }

  lemma ListsConcat(lines: seq<seq<Column>>, patterns: seq<string>, a: seq<Site>, b: seq<Site>,
                    v: seq<RowWrite>, w: seq<RowWrite>)
    requires Lists(lines, patterns, a, v) && Lists(lines, patterns, b, w)
    requires forall x, y :: x in a && y in b ==>
      x.line < y.line || (x.line == y.line && (x.column < y.column || (x.column == y.column && x.pattern < y.pattern)))
    ensures Lists(lines, patterns, a + b, v + w)
  {
    assert forall x, y :: x in a && y in b ==> Earlier(x, y);
    hide Records, Earlier;
    forall j | 0 <= j < |a + b| ensures Records(lines, patterns, (a + b)[j], (v + w)[j]) {
      if j >= |a| { assert (a + b)[j] == b[j - |a|] && (v + w)[j] == w[j - |a|]; }
    }
    forall j, l | 0 <= j < l < |a + b| ensures Earlier((a + b)[j], (a + b)[l]) {
      if l < |a| {
        assert Earlier(a[j], a[l]);
      } else if j < |a| {
        assert a[j] in a && b[l - |a|] in b;
      } else {
        assert Earlier(b[j - |a|], b[l - |a|]);
      }
    }
  }

  lemma ReceiverIsWord(line: seq<Column>, c: nat, pattern: string)
    requires c <= |line|
    ensures if pattern != [] && pattern[0] == '.' then WordBefore(line, c, Receiver(line, c, pattern))
            else Receiver(line, c, pattern) == []
  {
    hide IsWord, WordStart;
    var start := WordStart(line, c);
    var word := Chars(line)[start..c];
    assert |word| == c - start && forall m :: 0 <= m < |word| ==> word[m] == line[start + m].ch;
  }

  lemma SiteShows(lines: seq<seq<Column>>, patterns: seq<string>, s: Site)
    requires s.line < |lines| && s.column < |lines[s.line]| && s.pattern < |patterns|
    requires Offset(lines, s.line) + s.column <= |Flatten(lines)|
    requires InBody(Flatten(lines), Offset(lines, s.line) + s.column)
    ensures StartsAt(lines[s.line], s.column, patterns[s.pattern]) <==> Stands(lines, patterns, s)
    ensures Records(lines, patterns, s, RowWrite(s.line + 1, patterns[s.pattern],
                                                Receiver(lines[s.line], s.column, patterns[s.pattern])))
  {
    StartsStands(lines, patterns, s);
    hide *;
    var line, p := lines[s.line], patterns[s.pattern];
    ReceiverIsWord(line, s.column, p);
    RecordsOne(lines, patterns, s, RowWrite(s.line + 1, p, Receiver(line, s.column, p)));
  }

  lemma StartsStands(lines: seq<seq<Column>>, patterns: seq<string>, s: Site)
    requires s.line < |lines| && s.column < |lines[s.line]| && s.pattern < |patterns|
    requires Offset(lines, s.line) + s.column <= |Flatten(lines)|
    requires InBody(Flatten(lines), Offset(lines, s.line) + s.column)
    ensures StartsAt(lines[s.line], s.column, patterns[s.pattern]) <==> Stands(lines, patterns, s)
  {
    hide InBody, Offset, Flatten;
  }

  lemma RecordsOne(lines: seq<seq<Column>>, patterns: seq<string>, s: Site, w: RowWrite)
    requires s.line < |lines| && s.pattern < |patterns|
    requires w.line == s.line + 1 && w.pattern == patterns[s.pattern]
    requires if w.pattern != [] && w.pattern[0] == '.' then WordBefore(lines[s.line], s.column, w.receiver)
             else w.receiver == []
    ensures Records(lines, patterns, s, w)
  {
    hide WordBefore;
  }

  lemma {:induction false} SitesAt(lines: seq<seq<Column>>, patterns: seq<string>, i: nat, c: nat, n: nat)
      returns (sites: seq<Site>)
    requires i < |lines| && c < |lines[i]| && n <= |patterns|
    requires Offset(lines, i) + c <= |Flatten(lines)| && InBody(Flatten(lines), Offset(lines, i) + c)
    ensures Lists(lines, patterns, sites, WritesAt(i, lines[i], c, patterns[..n]))
    ensures forall s :: s in sites <==> s.line == i && s.column == c && s.pattern < n && Stands(lines, patterns, s)
  {
    hide *;
    if n == 0 {
      NoneAt(i, lines[i], c, patterns[..0]);
      NothingListed(lines, patterns);
      sites := [];
    } else {
      var s := Site(i, c, n - 1);
      var before := SitesAt(lines, patterns, i, c, n - 1);
      AtStep(i, lines[i], c, patterns, n - 1);
      SiteShows(lines, patterns, s);
      sites := before;
      if StartsAt(lines[i], c, patterns[n - 1]) {
        var w := RowWrite(i + 1, patterns[n - 1], Receiver(lines[i], c, patterns[n - 1]));
        OneListed(lines, patterns, s, w);
        ListsConcat(lines, patterns, before, [s], WritesAt(i, lines[i], c, patterns[..n - 1]), [w]);
        sites := before + [s];
      }
    }
  }

  lemma NoneAt(i: nat, line: seq<Column>, c: nat, none: seq<string>)
    requires c <= |line| && none == []
    ensures WritesAt(i, line, c, none) == []
  {
  }

  lemma AtStep(i: nat, line: seq<Column>, c: nat, patterns: seq<string>, k: nat)
    requires c <= |line| && k < |patterns|
    ensures WritesAt(i, line, c, patterns[..k + 1]) ==
            if StartsAt(line, c, patterns[k])
            then WritesAt(i, line, c, patterns[..k]) + [RowWrite(i + 1, patterns[k], Receiver(line, c, patterns[k]))]
            else WritesAt(i, line, c, patterns[..k])
  {
    hide StartsAt, Receiver;
    assert patterns[..k + 1][..k] == patterns[..k];
  }

  lemma OneListed(lines: seq<seq<Column>>, patterns: seq<string>, s: Site, w: RowWrite)
    requires Records(lines, patterns, s, w)
    ensures Lists(lines, patterns, [s], [w])
  {
    hide Records;
  }

  lemma {:induction false} SitesOnLine(lines: seq<seq<Column>>, patterns: seq<string>, i: nat, n: nat)
      returns (sites: seq<Site>)
    requires i < |lines| && n <= |lines[i]|
    ensures Lists(lines, patterns, sites, OnLine(lines, patterns, i, n))
    ensures forall s :: s in sites <==> s.line == i && s.column < n && Stands(lines, patterns, s)
  {
    hide *;
    if n == 0 {
      NoneOnLine(lines, patterns, i);
      NothingListed(lines, patterns);
      sites := [];
    } else {
      OnLineStep(lines, patterns, i, n - 1);
      var here := InBody(Flatten(lines), Offset(lines, i) + n - 1);
      NotInBody(lines, patterns, i, n - 1);
      assert patterns[..|patterns|] == patterns;
      var before := SitesOnLine(lines, patterns, i, n - 1);
      sites := before;
      if here {
        var more := SitesAt(lines, patterns, i, n - 1, |patterns|);
        ListsConcat(lines, patterns, before, more, OnLine(lines, patterns, i, n - 1),
                    WritesAt(i, lines[i], n - 1, patterns));
        StandsWithin(lines, patterns);
        sites := before + more;
      }
    }
  }

  lemma OnLineStep(lines: seq<seq<Column>>, patterns: seq<string>, i: nat, c: nat)
    requires i < |lines| && c < |lines[i]|
    ensures Offset(lines, i) + c <= |Flatten(lines)|
    ensures OnLine(lines, patterns, i, c + 1) ==
            if InBody(Flatten(lines), Offset(lines, i) + c)
            then OnLine(lines, patterns, i, c) + WritesAt(i, lines[i], c, patterns) else OnLine(lines, patterns, i, c)
  {
    LineInFlatten(lines, i);
    hide InBody, Offset, Flatten, WritesAt;
  }

  lemma NothingListed(lines: seq<seq<Column>>, patterns: seq<string>)
    ensures Lists(lines, patterns, [], [])
  {
  }

  lemma NotInBody(lines: seq<seq<Column>>, patterns: seq<string>, i: nat, c: nat)
    requires i < |lines| && c < |lines[i]| && Offset(lines, i) + c <= |Flatten(lines)|
    ensures !InBody(Flatten(lines), Offset(lines, i) + c) ==>
      forall s: Site :: s.line == i && s.column == c ==> !Stands(lines, patterns, s)
  {
    hide InBody, Offset, Flatten;
  }

  lemma StandsWithin(lines: seq<seq<Column>>, patterns: seq<string>)
    ensures forall s: Site :: Stands(lines, patterns, s) ==>
      s.pattern < |patterns| && s.line < |lines| && s.column < |lines[s.line]|
  {
    hide InBody, Offset, Flatten;
  }

  lemma {:induction false} SitesAbove(lines: seq<seq<Column>>, patterns: seq<string>, n: nat)
      returns (sites: seq<Site>)
    requires n <= |lines|
    ensures Lists(lines, patterns, sites, Above(lines, patterns, n))
    ensures forall s :: s in sites <==> s.line < n && Stands(lines, patterns, s)
  {
    hide Stands, Records, OnLine;
    if n == 0 {
      sites := [];
    } else {
      var before := SitesAbove(lines, patterns, n - 1);
      var more := SitesOnLine(lines, patterns, n - 1, |lines[n - 1]|);
      ListsConcat(lines, patterns, before, more, Above(lines, patterns, n - 1),
                  OnLine(lines, patterns, n - 1, |lines[n - 1]|));
      StandsWithin(lines, patterns);
      sites := before + more;
    }
  }

  /** Nothing that stands goes unreported: the report has one write for each line, column and pattern such that the
      pattern stands there, character for character, while a parenthesis that holds a test body is open. The writes
      ascend by line, column and pattern, and the receiver of a dotted pattern is the whole word before the dot. */
  lemma EveryWriteIsReported(lines: seq<seq<Column>>, patterns: seq<string>) returns (sites: seq<Site>)
    ensures |Above(lines, patterns, |lines|)| == |sites|
    ensures forall i: nat, c: nat, k: nat :: Site(i, c, k) in sites <==>
      (i < |lines| && k < |patterns| && c < |lines[i]| && c + |patterns[k]| <= |lines[i]| &&
       (forall m :: 0 <= m < |patterns[k]| ==> lines[i][c + m].ch == patterns[k][m]) &&
       Offset(lines, i) + c <= |Flatten(lines)| && InBody(Flatten(lines), Offset(lines, i) + c))
    ensures forall j, l :: 0 <= j < l < |sites| ==>
      sites[j].line < sites[l].line || (sites[j].line == sites[l].line &&
        (sites[j].column < sites[l].column ||
         (sites[j].column == sites[l].column && sites[j].pattern < sites[l].pattern)))
    ensures forall j :: 0 <= j < |sites| ==>
      var s, w := sites[j], Above(lines, patterns, |lines|)[j];
      && s.line < |lines| && s.pattern < |patterns| && s.column <= |lines[s.line]|
      && w.line == s.line + 1 && w.pattern == patterns[s.pattern]
      && (if w.pattern != [] && w.pattern[0] == '.'
          then |w.receiver| <= s.column
               && (forall m :: 0 <= m < |w.receiver| ==>
                     w.receiver[m] == lines[s.line][s.column - |w.receiver| + m].ch && IsWord(w.receiver[m]))
               && (|w.receiver| == s.column || !IsWord(lines[s.line][s.column - |w.receiver| - 1].ch))
          else w.receiver == [])
  {
    hide *;
    sites := SitesAbove(lines, patterns, |lines|);
    SitesMean(lines, patterns, sites);
    ListsMeans(lines, patterns, sites, Above(lines, patterns, |lines|));
  }

  lemma SitesMean(lines: seq<seq<Column>>, patterns: seq<string>, sites: seq<Site>)
    requires forall s :: s in sites <==> s.line < |lines| && Stands(lines, patterns, s)
    ensures forall s :: s in sites ==> Stands(lines, patterns, s)
    ensures forall i: nat, c: nat, k: nat :: Site(i, c, k) in sites <==>
      (i < |lines| && k < |patterns| && c < |lines[i]| && c + |patterns[k]| <= |lines[i]| &&
       (forall m :: 0 <= m < |patterns[k]| ==> lines[i][c + m].ch == patterns[k][m]) &&
       Offset(lines, i) + c <= |Flatten(lines)| && InBody(Flatten(lines), Offset(lines, i) + c))
  {
    hide *;
    forall i: nat, c: nat, k: nat ensures Site(i, c, k) in sites <==>
      (i < |lines| && k < |patterns| && c < |lines[i]| && c + |patterns[k]| <= |lines[i]| &&
       (forall m :: 0 <= m < |patterns[k]| ==> lines[i][c + m].ch == patterns[k][m]) &&
       Offset(lines, i) + c <= |Flatten(lines)| && InBody(Flatten(lines), Offset(lines, i) + c))
    {
      StandsMeans(lines, patterns, Site(i, c, k));
    }
  }

  lemma StandsMeans(lines: seq<seq<Column>>, patterns: seq<string>, s: Site)
    ensures Stands(lines, patterns, s) <==>
      (s.line < |lines| && s.pattern < |patterns| && s.column < |lines[s.line]| &&
       s.column + |patterns[s.pattern]| <= |lines[s.line]| &&
       (forall m :: 0 <= m < |patterns[s.pattern]| ==> lines[s.line][s.column + m].ch == patterns[s.pattern][m]) &&
       Offset(lines, s.line) + s.column <= |Flatten(lines)| &&
       InBody(Flatten(lines), Offset(lines, s.line) + s.column))
    ensures Stands(lines, patterns, s) ==> s.line < |lines|
  {
    hide InBody, Offset, Flatten;
  }

  lemma ListsMeans(lines: seq<seq<Column>>, patterns: seq<string>, sites: seq<Site>, writes: seq<RowWrite>)
    requires Lists(lines, patterns, sites, writes) && forall s :: s in sites ==> Stands(lines, patterns, s)
    ensures |sites| == |writes|
    ensures forall j, l :: 0 <= j < l < |sites| ==>
      sites[j].line < sites[l].line || (sites[j].line == sites[l].line &&
        (sites[j].column < sites[l].column ||
         (sites[j].column == sites[l].column && sites[j].pattern < sites[l].pattern)))
    ensures forall j :: 0 <= j < |sites| ==>
      var s, w := sites[j], writes[j];
      && s.line < |lines| && s.pattern < |patterns| && s.column <= |lines[s.line]|
      && w.line == s.line + 1 && w.pattern == patterns[s.pattern]
      && (if w.pattern != [] && w.pattern[0] == '.'
          then |w.receiver| <= s.column
               && (forall m :: 0 <= m < |w.receiver| ==>
                     w.receiver[m] == lines[s.line][s.column - |w.receiver| + m].ch && IsWord(w.receiver[m]))
               && (|w.receiver| == s.column || !IsWord(lines[s.line][s.column - |w.receiver| - 1].ch))
          else w.receiver == [])
  {
    hide InBody, Offset, Flatten;
    forall j | 0 <= j < |sites| ensures Stands(lines, patterns, sites[j]) { assert sites[j] in sites; }
  }

  /** The report is exact and in order: at every place inside a parenthesis that is still open and holds a test body,
      the writes that begin there, and nothing else. */
  method RowWritesAtItScope(lines: seq<seq<Column>>, patterns: seq<string>)
      returns (writes: seq<RowWrite>, ghost sites: seq<Site>)
    requires forall p :: p in patterns ==> Headed(p)
    ensures writes == Above(lines, patterns, |lines|)
    ensures |writes| == |sites|
    ensures forall i: nat, c: nat, k: nat :: Site(i, c, k) in sites <==>
      (i < |lines| && k < |patterns| && c < |lines[i]| && c + |patterns[k]| <= |lines[i]| &&
       (forall m :: 0 <= m < |patterns[k]| ==> lines[i][c + m].ch == patterns[k][m]) &&
       Offset(lines, i) + c <= |Flatten(lines)| && InBody(Flatten(lines), Offset(lines, i) + c))
    ensures forall j, l :: 0 <= j < l < |sites| ==>
      sites[j].line < sites[l].line || (sites[j].line == sites[l].line &&
        (sites[j].column < sites[l].column ||
         (sites[j].column == sites[l].column && sites[j].pattern < sites[l].pattern)))
    ensures forall j :: 0 <= j < |sites| ==>
      var s, w := sites[j], writes[j];
      && s.line < |lines| && s.pattern < |patterns| && s.column <= |lines[s.line]|
      && w.line == s.line + 1 && w.pattern == patterns[s.pattern]
      && (if w.pattern != [] && w.pattern[0] == '.'
          then |w.receiver| <= s.column
               && (forall m :: 0 <= m < |w.receiver| ==>
                     w.receiver[m] == lines[s.line][s.column - |w.receiver| + m].ch && IsWord(w.receiver[m]))
               && (|w.receiver| == s.column || !IsWord(lines[s.line][s.column - |w.receiver| - 1].ch))
          else w.receiver == [])
  {
    writes := ScanLines(lines, patterns);
    hide *;
    sites := EveryWriteIsReported(lines, patterns);
  }

  method ScanLines(lines: seq<seq<Column>>, patterns: seq<string>) returns (writes: seq<RowWrite>)
    requires forall p :: p in patterns ==> Headed(p)
    ensures writes == Above(lines, patterns, |lines|)
  {
    ghost var cols := Flatten(lines);
    var s := Scan([], [], 0, false, false, false);
    writes := [];
    BeforeAnything(cols);
    assert lines[..0] == [];
    hide Follows, Flatten, OnLine, Headed;
    for i := 0 to |lines|
      invariant Offset(lines, i) <= |cols| && Follows(cols, Offset(lines, i), s)
      invariant writes == Above(lines, patterns, i)
    {
      LineInFlatten(lines, i);
      hide Offset;
      var found;
      s, found := ScanLine(lines, patterns, i, s);
      writes := writes + found;
    }
  }

  lemma TaggedShows(cols: seq<Column>, n: nat, inTemplate: bool, taggedTemplate: bool)
    requires n <= |cols| && TracksTicks(cols, n, inTemplate, taggedTemplate)
    ensures taggedTemplate == InTable(cols, n) && (taggedTemplate ==> inTemplate) && !IsSpace('`')
  {
  }

  /** Every reported write begins, as its pattern does, at a place in a test body on the line reported. */
  lemma {:induction false} WriteStands(lines: seq<seq<Column>>, patterns: seq<string>, n: nat, w: RowWrite)
      returns (i: nat, c: nat)
    requires n <= |lines| && w in Above(lines, patterns, n)
    ensures i < n && w.line == i + 1 && c < |lines[i]| && w.pattern in patterns && StartsAt(lines[i], c, w.pattern)
    ensures Offset(lines, i) + c <= |Flatten(lines)| && InBody(Flatten(lines), Offset(lines, i) + c)
  {
    hide InBody, Flatten, Offset, StartsAt, OnLine;
    if w in OnLine(lines, patterns, n - 1, |lines[n - 1]|) {
      i := n - 1;
      c := WriteOnLine(lines, patterns, i, |lines[i]|, w);
    } else {
      i, c := WriteStands(lines, patterns, n - 1, w);
    }
  }

  lemma {:induction false} WriteOnLine(lines: seq<seq<Column>>, patterns: seq<string>, i: nat, n: nat, w: RowWrite)
      returns (c: nat)
    requires i < |lines| && n <= |lines[i]| && w in OnLine(lines, patterns, i, n)
    ensures w.line == i + 1 && c < n && w.pattern in patterns && StartsAt(lines[i], c, w.pattern)
    ensures Offset(lines, i) + c <= |Flatten(lines)| && InBody(Flatten(lines), Offset(lines, i) + c)
  {
    hide InBody, Flatten, Offset, StartsAt;
    LineInFlatten(lines, i);
    if w in OnLine(lines, patterns, i, n - 1) {
      c := WriteOnLine(lines, patterns, i, n - 1, w);
    } else {
      c := n - 1;
    }
  }

  // ------------------------------------------------------------------ the whole report

  /** The lines of a text, each column with what the test-call expression says of it. */
  function Columns(lines: seq<string>, marks: (string, nat) -> Mark): seq<seq<Column>> {
    seq(|lines|, i requires 0 <= i < |lines| => ColumnsOf(lines[i], marks))
  }

  function ColumnsOf(line: string, marks: (string, nat) -> Mark): seq<Column> {
    seq(|line|, c requires 0 <= c < |line| => Column(line[c], marks(line, c)))
  }

  /** Each column of a split text stands at a place that many newlines into it. */
  lemma {:induction false} SplitPlace(s: string, i: nat, c: nat) returns (o: nat)
    requires i < |Split(s, '\n')| && c < |Split(s, '\n')[i]|
    ensures o < |s| && s[o] == Split(s, '\n')[i][c] && Count(s[..o], '\n') == i
  {
    hide Count;
    var rest := s[1..];
    if s[0] != '\n' && i == 0 && c == 0 {
      o := 0;
      NothingCounted(s[..0], '\n');
    } else {
      o := SplitPlace(rest, if s[0] == '\n' then i - 1 else i, if s[0] != '\n' && i == 0 then c - 1 else c);
      assert s[..o + 1] == [s[0]] + rest[..o];
      CountSum([s[0]], rest[..o], '\n');
      CountOne([s[0]], '\n');
      o := o + 1;
    }
  }

  lemma NothingCounted(none: string, c: char)
    requires none == []
    ensures Count(none, c) == 0
  {
  }

  /** Strip a source and report its row writes, over its one reading. Where no quoted literal spans a line, the line of
      every write holds, in the source, the first character of its pattern. */
  method ReportRowWrites(src: string, marks: (string, nat) -> Mark, patterns: seq<string>)
      returns (writes: seq<RowWrite>, ghost toks: seq<Token>, ghost texts: seq<string>, ghost lines: seq<seq<Column>>)
    requires forall p :: p in patterns ==> Headed(p) && !Faded(p[0])
    ensures exists reading | Reads(reading, src) ::
              var split := Split(Stripped(reading), '\n'); writes == Above(Columns(split, marks), patterns, |split|)
    ensures Reads(toks, src) && texts == Split(Stripped(toks), '\n')
    ensures |lines| == |texts| && forall i | 0 <= i < |texts| ::
              |lines[i]| == |texts[i]| &&
              forall c :: 0 <= c < |texts[i]| ==> lines[i][c] == Column(texts[i][c], marks(texts[i], c))
    ensures writes == Above(lines, patterns, |lines|)
    ensures OneLineQuotes(toks) ==> forall w | w in writes ::
              exists s | 0 <= s < |src| ::
                w.pattern != [] && src[s] == w.pattern[0] && Count(src[..s], '\n') + 1 == w.line
  {
    hide Reads, Split, Above, Count;
    var stripped := StripCommentsAndStrings(src);
    var cols := Columns(Split(stripped, '\n'), marks);
    ghost var sites;
    writes, sites := RowWritesAtItScope(cols, patterns);
    toks :| Reads(toks, src) && stripped == Stripped(toks);
    texts, lines := Split(stripped, '\n'), cols;
    hide Stripped, OneLineQuotes;
    if OneLineQuotes(toks) {
      forall w | w in writes
        ensures exists s | 0 <= s < |src| ::
          w.pattern != [] && src[s] == w.pattern[0] && Count(src[..s], '\n') + 1 == w.line
      {
        var s := LineNamesSource(src, toks, marks, patterns, w);
      }
    }
  }

  lemma LineNamesSource(src: string, toks: seq<Token>, marks: (string, nat) -> Mark, patterns: seq<string>, w: RowWrite)
      returns (s: nat)
    requires Reads(toks, src) && OneLineQuotes(toks) && forall p :: p in patterns ==> Headed(p) && !Faded(p[0])
    requires var lines := Columns(Split(Stripped(toks), '\n'), marks); w in Above(lines, patterns, |lines|)
    ensures s < |src| && w.pattern != [] && src[s] == w.pattern[0] && Count(src[..s], '\n') + 1 == w.line
  {
    hide Reads, Split, Above, InBody, Stripped, OneLineQuotes, StartsAt, Count, Faded;
    var stripped := Stripped(toks);
    var texts := Split(stripped, '\n');
    var lines := Columns(texts, marks);
    var i, c := WriteStands(lines, patterns, |lines|, w);
    StartsWithFirst(lines[i], c, w.pattern);
    assert lines[i][c].ch == texts[i][c];
    var o := SplitPlace(stripped, i, c);
    s := PlaceInSource(toks, src, o);
    assert src[s] == w.pattern[0];
  }
}
