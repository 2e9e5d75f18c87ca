/** The baseline of flagged calls nobody has receipted at the call site, and its diff against an artifact. */
module CallBaseline {
  import opened Ordering
  import opened Text
  import opened CallReceipts

  predicate HasRow(rows: seq<Row>, key: Key) { exists row :: row in rows && row.key == key }

  ghost predicate UniqueKeys(rows: seq<Row>) {
    forall i, j :: 0 <= i < j < |rows| ==> rows[i].key != rows[j].key
  }

  /** The last reason the rows give a key: a later row overrides an earlier one. */
  function LastReason(rows: seq<Row>, key: Key): Option<string> {
    if rows == [] then None
    else if rows[|rows| - 1].key == key then Some(rows[|rows| - 1].reason)
    else LastReason(rows[..|rows| - 1], key)
  }

  lemma {:induction false} LastReasonIsARow(rows: seq<Row>, key: Key)
    ensures LastReason(rows, key).Some? ==> Row(key, LastReason(rows, key).value) in rows
    ensures LastReason(rows, key).Some? <==> HasRow(rows, key)
  {
    if rows != [] {
      assert rows == rows[..|rows| - 1] + [rows[|rows| - 1]];
      LastReasonIsARow(rows[..|rows| - 1], key);
    }
  }

  lemma LastReasonOfUnique(rows: seq<Row>, row: Row)
    requires UniqueKeys(rows) && row in rows
    ensures LastReason(rows, row.key) == Some(row.reason)
  {
    LastReasonIsARow(rows, row.key);
  }

  /** A key without a row has no reason; one with rows has that of the last of them. */
  lemma {:induction false} LastReasonIs(rows: seq<Row>, key: Key)
    ensures (forall row :: row in rows ==> row.key != key) ==> LastReason(rows, key) == None
    ensures forall i | 0 <= i < |rows| && rows[i].key == key && (forall j :: i < j < |rows| ==> rows[j].key != key) ::
              LastReason(rows, key) == Some(rows[i].reason)
  {
    if rows != [] {
      assert rows == rows[..|rows| - 1] + [rows[|rows| - 1]];
      LastReasonIs(rows[..|rows| - 1], key);
    }
  }

  // ---------------------------------------------------------------- the gate

  /** Some flag reads as the key. */
  ghost predicate FlaggedKey(flags: seq<Flag>, key: Key) {
    exists d, r :: Flagged(flags, d, r, key.call) && KeyFor(d, r, key.call) == key
  }

  function FlagKeys(f: Flag): seq<Key> {
    seq(|f.calls|, j requires 0 <= j < |f.calls| => KeyFor(f.decl, f.rubyName, f.calls[j]))
  }

  /** The keys of the flags, in order, repetitions kept. */
  function Flattened(flags: seq<Flag>): seq<Key> {
    if flags == [] then [] else Flattened(flags[..|flags| - 1]) + FlagKeys(flags[|flags| - 1])
  }

  method FlattenArtifact(mismatches: seq<Flag>) returns (keys: seq<Key>)
    ensures keys == Flattened(mismatches)
  {
    keys := [];
    for i := 0 to |mismatches|
      invariant keys == Flattened(mismatches[..i])
    {
      var m := mismatches[i];
      assert mismatches[..i + 1][..i] == mismatches[..i];
      ghost var before := keys;
      for j := 0 to |m.calls|
        invariant keys == before + FlagKeys(m)[..j]
      {
        keys := keys + [KeyFor(m.decl, m.rubyName, m.calls[j])];
        assert FlagKeys(m)[..j + 1] == FlagKeys(m)[..j] + [FlagKeys(m)[j]];
      }
      assert FlagKeys(m)[..|m.calls|] == FlagKeys(m);
    }
    assert mismatches[..|mismatches|] == mismatches;
  }

  lemma {:induction false} FlattenedKeys(flags: seq<Flag>)
    ensures forall k :: k in Flattened(flags) <==> FlaggedKey(flags, k)
  {
    if flags != [] {
      var i := |flags| - 1;
      FlattenedKeys(flags[..i]);
      FlattenOneMore(flags, i, FlagKeys(flags[i]));
      assert flags[..i + 1] == flags;
      hide FlaggedKey, FlagKeys;
    }
  }

  /** The keys stand in the order of the flags and their calls, and each names the declaration's package and file, the
      Ruby method and the call. */
  lemma FlattenedInOrder(flags: seq<Flag>, d: Decl, r: string, calls: seq<string>, c: string)
    ensures Flattened([]) == [] && Flattened(flags + [Flag(d, r, [])]) == Flattened(flags)
    ensures Flattened(flags + [Flag(d, r, calls + [c])]) ==
            Flattened(flags + [Flag(d, r, calls)]) + [Key(d.package, d.file, r, c)]
  {
    forall last ensures (flags + [Flag(d, r, last)])[..|flags|] == flags {}
    var done, keys := Flattened(flags), FlagKeys(Flag(d, r, calls));
    assert FlagKeys(Flag(d, r, calls + [c])) == keys + [Key(d.package, d.file, r, c)];
    assert FlagKeys(Flag(d, r, [])) == [];
    Regroup(done, keys, [Key(d.package, d.file, r, c)]);
  }

  lemma FlattenOneMore(flags: seq<Flag>, i: nat, more: seq<Key>)
    requires i < |flags| && |more| == |flags[i].calls|
    requires forall j :: 0 <= j < |more| ==> more[j] == KeyFor(flags[i].decl, flags[i].rubyName, flags[i].calls[j])
    ensures forall k :: FlaggedKey(flags[..i + 1], k) <==> FlaggedKey(flags[..i], k) || k in more
  {
    var f := flags[i];
    FlaggedOneMore(flags, i);
    hide Flagged;
    forall k ensures FlaggedKey(flags[..i + 1], k) <==> FlaggedKey(flags[..i], k) || k in more {
      if FlaggedKey(flags[..i + 1], k) {
        var d, r :| Flagged(flags[..i + 1], d, r, k.call) && KeyFor(d, r, k.call) == k;
        if !Flagged(flags[..i], d, r, k.call) {
          var j :| 0 <= j < |f.calls| && f.calls[j] == k.call;
          assert more[j] == k;
        }
      }
      if FlaggedKey(flags[..i], k) {
        var d, r :| Flagged(flags[..i], d, r, k.call) && KeyFor(d, r, k.call) == k;
        assert Flagged(flags[..i + 1], d, r, k.call);
      }
      if k in more {
        assert Flagged(flags[..i + 1], f.decl, f.rubyName, k.call);
      }
    }
  }

  datatype Diff = Diff(added: seq<Key>, stale: seq<Row>)

  /** The keys without a row, in order. */
  function Added(current: seq<Key>, rows: seq<Row>): (r: seq<Key>)
    ensures forall k :: k in r <==> k in current && !HasRow(rows, k)
  {
    if current == [] then []
    else
      var init, k := current[..|current| - 1], current[|current| - 1];
      assert forall x :: x in current <==> x in init || x == k;
      Added(init, rows) + if HasRow(rows, k) then [] else [k]
  }

  /** The rows without a key, in order. */
  function Stale(current: seq<Key>, rows: seq<Row>): (r: seq<Row>)
    ensures forall row :: row in r <==> row in rows && row.key !in current
  {
    if rows == [] then []
    else
      var init, row := rows[..|rows| - 1], rows[|rows| - 1];
      assert forall x :: x in rows <==> x in init || x == row;
      Stale(current, init) + if row.key in current then [] else [row]
  }

  lemma {:induction false} AddedPicks(current: seq<Key>, rows: seq<Row>) returns (at: seq<nat>)
    ensures Picked(current, at, Added(current, rows))
    ensures forall i :: 0 <= i < |current| ==> (i in at <==> !HasRow(rows, current[i]))
  {
    hide Picked, HasRow;
    at := [];
    if current == [] {
      assert Added(current, rows) == [];
      NothingPicked(current);
    } else {
      var init, k := current[..|current| - 1], current[|current| - 1];
      var before := AddedPicks(init, rows);
      at := before + if HasRow(rows, k) then [] else [|init|];
      PickedPush(init, k, !HasRow(rows, k), before, Added(init, rows));
      PickedWithin(init, before, Added(init, rows));
      assert init + [k] == current;
    }
  }

  lemma {:induction false} StalePicks(current: seq<Key>, rows: seq<Row>) returns (at: seq<nat>)
    ensures Picked(rows, at, Stale(current, rows))
    ensures forall i :: 0 <= i < |rows| ==> (i in at <==> rows[i].key !in current)
  {
    hide Picked;
    at := [];
    if rows == [] {
      assert Stale(current, rows) == [];
      NothingPicked(rows);
    } else {
      var init, row := rows[..|rows| - 1], rows[|rows| - 1];
      var before := StalePicks(current, init);
      at := before + if row.key in current then [] else [|init|];
      PickedPush(init, row, row.key !in current, before, Stale(current, init));
      PickedWithin(init, before, Stale(current, init));
      assert init + [row] == rows;
    }
  }

  /** The diff is the keys that no row has and the rows whose key is not among them, each list in its order. */
  lemma DiffPicks(current: seq<Key>, rows: seq<Row>) returns (added: seq<nat>, stale: seq<nat>)
    ensures Picked(current, added, Added(current, rows)) && Picked(rows, stale, Stale(current, rows))
    ensures forall i | 0 <= i < |current| :: i in added <==> forall row :: row in rows ==> row.key != current[i]
    ensures forall i :: 0 <= i < |rows| ==> (i in stale <==> rows[i].key !in current)
  {
    added := AddedPicks(current, rows);
    stale := StalePicks(current, rows);
  }

  method DiffAgainstBaseline(current: seq<Key>, rows: seq<Row>) returns (diff: Diff)
    ensures diff == Diff(Added(current, rows), Stale(current, rows))
  {
    hide HasRow;
    var added: seq<Key>, stale: seq<Row> := [], [];
    for i := 0 to |current|
      invariant added == Added(current[..i], rows)
    {
      assert current[..i + 1][..i] == current[..i];
      if !HasRow(rows, current[i]) { added := added + [current[i]]; }
    }
    for i := 0 to |rows|
      invariant stale == Stale(current, rows[..i])
    {
      assert rows[..i + 1][..i] == rows[..i];
      if rows[i].key !in current { stale := stale + [rows[i]]; }
    }
    assert current[..|current|] == current && rows[..|rows|] == rows;
    diff := Diff(added, stale);
  }

  method FindDuplicateKeys(rows: seq<Row>) returns (dups: set<Key>)
    ensures forall k :: k in dups <==> exists i, j :: 0 <= i < j < |rows| && rows[i].key == k == rows[j].key
  {
    var seen: set<Key> := {};
    dups := {};
    for n := 0 to |rows|
      invariant forall k :: k in seen <==> exists i :: 0 <= i < n && rows[i].key == k
      invariant forall k :: k in dups <==> exists i, j :: 0 <= i < j < n && rows[i].key == k == rows[j].key
    {
      if rows[n].key in seen { dups := dups + {rows[n].key}; }
      seen := seen + {rows[n].key};
    }
  }

  /** The rows are a one-to-one record of the artifact's surviving flags, and no tag is stale. */
  ghost predicate Green(a: Artifact, rows: seq<Row>) {
    && UniqueKeys(rows) && a.stale == {}
    && forall k :: FlaggedKey(a.mismatches, k) <==> HasRow(rows, k)
  }

  /** What green is: no stale tag, no key in two rows, a row for every surviving call of every flag, and such a call
      behind every row. */
  lemma GreenMeans(a: Artifact, rows: seq<Row>)
    ensures Green(a, rows) <==>
      && a.stale == {}
      && (forall i, j :: 0 <= i < j < |rows| ==> rows[i].key != rows[j].key)
      && (forall f, c | f in a.mismatches && c in f.calls ::
            exists row | row in rows :: row.key == Key(f.decl.package, f.decl.file, f.rubyName, c))
      && forall row | row in rows ::
           exists f | f in a.mismatches ::
             row.key.call in f.calls && row.key == Key(f.decl.package, f.decl.file, f.rubyName, row.key.call)
  {
    FlaggedKeyIff(a.mismatches);
    if Green(a, rows) {
      forall f, c | f in a.mismatches && c in f.calls
        ensures exists row | row in rows :: row.key == Key(f.decl.package, f.decl.file, f.rubyName, c)
      {
        assert FlaggedKey(a.mismatches, Key(f.decl.package, f.decl.file, f.rubyName, c));
      }
      forall row | row in rows ensures FlaggedKey(a.mismatches, row.key) {
        assert HasRow(rows, row.key);
      }
    }
    hide FlaggedKey;
  }

  lemma FlaggedKeyIff(flags: seq<Flag>)
    ensures forall k: Key :: FlaggedKey(flags, k) <==>
      exists f | f in flags :: k.call in f.calls && k == Key(f.decl.package, f.decl.file, f.rubyName, k.call)
  {
    forall k: Key, f: Flag |
      f in flags && k.call in f.calls && k == Key(f.decl.package, f.decl.file, f.rubyName, k.call)
      ensures FlaggedKey(flags, k)
    {
      assert Flagged(flags, f.decl, f.rubyName, k.call);
    }
  }

  method Gate(a: Artifact, rows: seq<Row>) returns (green: bool)
    ensures green <==> Green(a, rows)
  {
    hide FlaggedKey, Flattened, Added, Stale;
    var current := FlattenArtifact(a.mismatches);
    FlattenedKeys(a.mismatches);
    var dups := FindDuplicateKeys(rows);
    if dups != {} {
      var k :| k in dups;
      return false;
    }
    var diff := DiffAgainstBaseline(current, rows);
    NonEmpty(diff.added);
    NonEmpty(diff.stale);
    assert UniqueKeys(rows) by {
      forall i, j | 0 <= i < j < |rows| ensures rows[i].key != rows[j].key { assert rows[i].key !in dups; }
    }
    assert diff.added == [] <==> forall k :: k in current ==> HasRow(rows, k);
    assert diff.stale == [] <==> forall k :: HasRow(rows, k) ==> k in current by {
      if row :| row in diff.stale { assert HasRow(rows, row.key); }
    }
    green := diff.added == [] && diff.stale == [] && a.stale == {};
  }

  // ------------------------------------------------------------------ reseed

  /** The text a row is keyed and sorted by. */
  function KeyOf(k: Key): string { k.package + " " + (k.file + " " + (k.rubyName + " " + k.call)) }

  predicate KeyLe(a: Row, b: Row) { StringLe(KeyOf(a.key), KeyOf(b.key)) }

  /** No part but the last holds a blank, so the text determines the key. */
  predicate Blankless(k: Key) { ' ' !in k.package && ' ' !in k.file && ' ' !in k.rubyName }

  lemma KeyOfInjective(a: Key, b: Key)
    requires Blankless(a) && Blankless(b) && KeyOf(a) == KeyOf(b)
    ensures a == b
  {
    FirstField(a.package, a.file + " " + (a.rubyName + " " + a.call),
               b.package, b.file + " " + (b.rubyName + " " + b.call));
    FirstField(a.file, a.rubyName + " " + a.call, b.file, b.rubyName + " " + b.call);
    FirstField(a.rubyName, a.call, b.rubyName, b.call);
  }

  lemma FirstField(a: string, x: string, b: string, y: string)
    requires ' ' !in a && ' ' !in b && a + " " + x == b + " " + y
    ensures a == b && x == y
  {
    IndexOfFirst(a, x, ' ');
    IndexOfFirst(b, y, ' ');
    assert a == (a + " " + x)[..|a|] && b == (b + " " + y)[..|b|];
    assert x == (a + " " + x)[|a| + 1..] && y == (b + " " + y)[|b| + 1..];
  }

  /** Rows are sorted by package, file, Ruby method and call with a blank between each, in code-unit order. */
  lemma SortedByText(rows: seq<Row>, i: nat, j: nat)
    requires Sorted(KeyLe, rows) && i < j < |rows|
    ensures var a, b := rows[i].key, rows[j].key;
            StringLe(a.package + " " + (a.file + " " + (a.rubyName + " " + a.call)),
                     b.package + " " + (b.file + " " + (b.rubyName + " " + b.call)))
  {
    assert KeyLe(rows[i], rows[j]);
  }

  method Reseed(current: seq<Key>, rows: seq<Row>, defaultReason: string) returns (next: seq<Row>)
    ensures UniqueKeys(next) && Sorted(KeyLe, next)
    ensures forall k :: (exists row :: row in next && row.key == k) <==> k in current
    ensures forall k :: HasRow(next, k) <==> k in current
    ensures forall row :: row in next ==>
      row.reason == match LastReason(rows, row.key) case Some(reason) => reason case None => defaultReason
  {
    hide LastReason, KeyLe;
    var kept: seq<Row> := [];
    for i := 0 to |current|
      invariant UniqueKeys(kept) && forall k :: HasRow(kept, k) <==> k in current[..i]
      invariant forall row :: row in kept ==>
        row.reason == match LastReason(rows, row.key) case Some(reason) => reason case None => defaultReason
    {
      var key := current[i];
      assert forall k :: k in current[..i + 1] <==> k in current[..i] || k == key;
      if HasRow(kept, key) {
        continue;
      }
      var row := Row(key, match LastReason(rows, key) case Some(reason) => reason case None => defaultReason);
      RowPush(kept, row);
      kept := kept + [row];
    }
    assert current[..|current|] == current;
    next := SortBy(KeyLe, kept);
    SortedRows(kept);
  }

  lemma RowPush(rows: seq<Row>, row: Row)
    requires UniqueKeys(rows) && !HasRow(rows, row.key)
    ensures UniqueKeys(rows + [row]) && forall k :: HasRow(rows + [row], k) <==> HasRow(rows, k) || k == row.key
  {
    assert forall i :: 0 <= i < |rows| ==> rows[i] in rows;
    assert forall r :: r in rows + [row] <==> r in rows || r == row;
  }

  lemma SortedRows(rows: seq<Row>)
    requires UniqueKeys(rows)
    ensures UniqueKeys(SortBy(KeyLe, rows)) && Sorted(KeyLe, SortBy(KeyLe, rows))
    ensures forall row :: row in SortBy(KeyLe, rows) <==> row in rows
    ensures forall k :: HasRow(SortBy(KeyLe, rows), k) <==> HasRow(rows, k)
  {
    hide KeyOf, StringLe;
    var sorted := SortBy(KeyLe, rows);
    assert TotalPreorder(KeyLe) by {
      forall a: Row, b: Row ensures KeyLe(a, b) || KeyLe(b, a) { StringTotal(KeyOf(a.key), KeyOf(b.key)); }
      forall a: Row, b: Row, c: Row | KeyLe(a, b) && KeyLe(b, c) ensures KeyLe(a, c) {
        StringTransitive(KeyOf(a.key), KeyOf(b.key), KeyOf(c.key));
      }
    }
    SortBySorted(KeyLe, rows);
    SameElements(sorted, rows);
    assert Distinct(rows);
    DistinctSurvives(rows, sorted);
    forall i, j | 0 <= i < j < |sorted| ensures sorted[i].key != sorted[j].key {
      assert sorted[i] in rows && sorted[j] in rows && sorted[i] != sorted[j];
    }
  }

  /** A reseed from an artifact without stale tags leaves nothing for the gate to report, keeps every reason a
      surviving row had, and is the identity up to order on a baseline that is already green. */
  lemma ReseedTurnsGreen(a: Artifact, current: seq<Key>, rows: seq<Row>, next: seq<Row>, defaultReason: string)
    requires a.stale == {} && forall k :: k in current <==> FlaggedKey(a.mismatches, k)
    requires UniqueKeys(next) && forall k :: HasRow(next, k) <==> k in current
    requires forall row :: row in next ==>
      row.reason == match LastReason(rows, row.key) case Some(reason) => reason case None => defaultReason
    ensures Green(a, next)
    ensures UniqueKeys(rows) ==> forall row :: row in rows && row.key in current ==> row in next
    ensures Green(a, rows) ==> forall row :: row in rows <==> row in next
  {
    hide FlaggedKey, LastReason;
    if UniqueKeys(rows) {
      forall row | row in rows && row.key in current ensures row in next {
        LastReasonOfUnique(rows, row);
        assert HasRow(next, row.key);
      }
    }
    if Green(a, rows) {
      forall row | row in next ensures row in rows {
        assert HasRow(next, row.key) && HasRow(rows, row.key);
        LastReasonIsARow(rows, row.key);
      }
      forall row | row in rows ensures row in next {
        assert HasRow(rows, row.key);
      }
    }
  }
}
