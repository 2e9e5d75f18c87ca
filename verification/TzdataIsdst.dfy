/** The vendored time-zone table: the printer that writes a zone's `isdst` flips as base-36
    deltas, and the cached reader that answers the bit back out of the printed text. */
module TzdataIsdst {
  import opened Ordering
  import opened Text

  // ------------------------------------------------------------------- base 36

  /** What `parseInt` yields. */
  datatype Number = NaN | Int(value: int)

  function Add(a: Number, b: Number): Number {
    if a.NaN? || b.NaN? then NaN else Int(a.value + b.value)
  }

  function Digit(d: nat): (c: char)
    requires d < 36
    ensures DigitValue(c) == d && c != '-' && c != ',' && !IsSpace(c)
  {
    if d < 10 then ('0' as int + d) as char else ('a' as int + d - 10) as char
  }

  /** The digit's value in base 36, or -1. */
  function DigitValue(c: char): (d: int)
    ensures -1 <= d < 36
  {
    if '0' <= c <= '9' then c as int - '0' as int
    else if 'a' <= c <= 'z' then c as int - 'a' as int + 10
    else if 'A' <= c <= 'Z' then c as int - 'A' as int + 10
    else -1
  }

  function Digits(n: nat): (s: string)
    ensures s != [] && forall c :: c in s ==> DigitValue(c) >= 0 && c != '-' && c != ',' && !IsSpace(c)
  {
    if n < 36 then [Digit(n)] else Digits(n / 36) + [Digit(n % 36)]
  }

  /** `n.toString(36)`. */
  function ToBase36(n: int): (s: string)
    ensures s != [] && ',' !in s && !IsSpace(s[|s| - 1]) && forall c :: c in s ==> !IsSpace(c)
  {
    if n < 0 then ['-'] + Digits(-n) else Digits(n)
  }

  /** Reads digits until the first character that is none. */
  function ReadDigits(s: string, sofar: nat): nat {
    if s == [] || DigitValue(s[0]) < 0 then sofar else ReadDigits(s[1..], 36 * sofar + DigitValue(s[0]))
  }

  /** `parseInt(s, 36)`. */
  function ParseBase36(s: string): Number {
    var t := TrimStart(s);
    var signed := t != [] && (t[0] == '-' || t[0] == '+');
    var body := if signed then t[1..] else t;
    if body == [] || DigitValue(body[0]) < 0 then NaN
    else if signed && t[0] == '-' then Int(0 - ReadDigits(body, 0))
    else Int(ReadDigits(body, 0))
  }

  lemma {:induction false} ReadDigitsLast(s: string, c: char, sofar: nat)
    requires DigitValue(c) >= 0 && forall d :: d in s ==> DigitValue(d) >= 0
    ensures ReadDigits(s + [c], sofar) == 36 * ReadDigits(s, sofar) + DigitValue(c)
    decreases |s|
  {
    if s == [] {
      assert (s + [c])[1..] == [];
    } else {
      assert (s + [c])[1..] == s[1..] + [c];
      ReadDigitsLast(s[1..], c, 36 * sofar + DigitValue(s[0]));
    }
  }

  lemma {:induction false} ReadDigitsOfDigits(n: nat)
    ensures ReadDigits(Digits(n), 0) == n
  {
    if n < 36 {
      assert [Digit(n)][1..] == [];
    } else {
      ReadDigitsOfDigits(n / 36);
      ReadDigitsLast(Digits(n / 36), Digit(n % 36), 0);
    }
  }

  lemma ParsePrinted(n: int)
    ensures ParseBase36(ToBase36(n)) == Int(n)
  {
    hide Digits, ReadDigits;
    var s := ToBase36(n);
    assert s[0] in s;
    assert TrimStart(s) == s;
    if n < 0 {
      assert s[1..] == Digits(-n) && Digits(-n)[0] in Digits(-n);
      ReadDigitsOfDigits(-n);
    } else {
      assert s[0] in Digits(n);
      ReadDigitsOfDigits(n);
    }
  }

  /** A numeral is its sign, its leading digits and the digit of its remainder, `0` to `9` and then `a` to `z`. */
  lemma Base36Numerals(n: nat, d: nat)
    requires d < 36
    ensures ToBase36(d) == ["0123456789abcdefghijklmnopqrstuvwxyz"[d]]
    ensures n > 0 ==> ToBase36(36 * n + d) == ToBase36(n) + ToBase36(d)
    ensures n > 0 ==> ToBase36(0 - n) == "-" + ToBase36(n)
  {
    assert (36 * n + d) / 36 == n && (36 * n + d) % 36 == d;
  }

  /** Capitals read as small letters, a plus sign as none, and what begins with no digit as no number. */
  lemma ParseReads(n: nat, d: nat, s: string)
    ensures ParseBase36("+" + ToBase36(n)) == Int(n)
    ensures 10 <= d < 36 ==> DigitValue(('A' as int + d - 10) as char) == DigitValue(('a' as int + d - 10) as char) == d
    ensures s == [] || (!IsSpace(s[0]) && s[0] != '-' && s[0] != '+' && DigitValue(s[0]) < 0) ==>
              ParseBase36(s) == NaN
  {
    var t := "+" + ToBase36(n);
    assert t[0] == '+' && t[1..] == ToBase36(n) && TrimStart(t) == t;
    var digits := ToBase36(n);
    assert digits[0] in digits && digits == Digits(n);
    ReadDigitsOfDigits(n);
  }

  // ------------------------------------------------------------------- printer

  /** A zone's `isdst` bit before its first transition and the instants it flips at. */
  datatype ZoneHistory = ZoneHistory(initial: bool, flips: seq<int>)

  function EncodedDeltas(previous: int, flips: seq<int>): string
    decreases |flips|
  {
    if flips == [] then [] else "," + ToBase36(flips[0] - previous) + EncodedDeltas(flips[0], flips[1..])
  }

  /** The row `EncodeZone` builds. */
  function Encoded(zone: ZoneHistory): string {
    (if zone.initial then "1" else "0") + EncodedDeltas(0, zone.flips)
  }

  lemma {:induction false} DeltasPush(previous: int, flips: seq<int>, flip: int)
    ensures EncodedDeltas(previous, flips + [flip]) ==
            EncodedDeltas(previous, flips) +
            ("," + ToBase36(flip - if flips == [] then previous else flips[|flips| - 1]))
    decreases |flips|
  {
    hide ToBase36;
    var more := flips + [flip];
    if flips == [] {
      assert more[1..] == [];
      assert EncodedDeltas(flip, more[1..]) == [];
    } else {
      assert more[1..] == flips[1..] + [flip];
      DeltasPush(flips[0], flips[1..], flip);
      DeltasStep(previous, flips);
      DeltasStep(previous, more);
      hide EncodedDeltas;
      var last := "," + ToBase36(flip - flips[|flips| - 1]);
      Regroup("," + ToBase36(flips[0] - previous), EncodedDeltas(flips[0], flips[1..]), last);
    }
  }

  lemma DeltasStep(previous: int, flips: seq<int>)
    requires flips != []
    ensures EncodedDeltas(previous, flips) ==
            ("," + ToBase36(flips[0] - previous)) + EncodedDeltas(flips[0], flips[1..])
  {
    hide ToBase36;
  }

  /** A row is its initial bit and, behind a comma each, the distance of every flip from the one before it. */
  lemma EncodedPush(initial: bool, flips: seq<int>, flip: int)
    ensures Encoded(ZoneHistory(initial, [])) == if initial then "1" else "0"
    ensures Encoded(ZoneHistory(initial, flips + [flip])) ==
            Encoded(ZoneHistory(initial, flips)) + "," + ToBase36(flip - if flips == [] then 0 else flips[|flips| - 1])
  {
    hide ToBase36;
    DeltasPush(0, flips, flip);
  }

  method EncodeZone(initial: bool, flips: seq<int>) returns (row: string)
    ensures row == Encoded(ZoneHistory(initial, flips))
  {
    hide ToBase36;
    var previous := 0;
    row := if initial then "1" else "0";
    for i := 0 to |flips|
      invariant previous == if i == 0 then 0 else flips[i - 1]
      invariant row + EncodedDeltas(previous, flips[i..]) == Encoded(ZoneHistory(initial, flips))
    {
      ghost var rest := flips[i..];
      assert rest[1..] == flips[i + 1..];
      ghost var delta := "," + ToBase36(flips[i] - previous);
      Regroup(row, delta, EncodedDeltas(flips[i], flips[i + 1..]));
      Regroup(row, ",", ToBase36(flips[i] - previous));
      row := row + "," + ToBase36(flips[i] - previous);
      previous := flips[i];
    }
  }

  /** Never on DST: such a zone is left out of the table. */
  predicate NeverDst(zone: ZoneHistory) { !zone.initial && zone.flips == [] }

  function RowOf(id: string, zone: ZoneHistory): string { id + " " + Encoded(zone) }

  function TableRows(ids: seq<string>, zones: map<string, ZoneHistory>): seq<string>
    requires forall id :: id in ids ==> id in zones
  {
    if ids == [] then []
    else
      var last := ids[|ids| - 1];
      TableRows(ids[..|ids| - 1], zones) + if NeverDst(zones[last]) then [] else [RowOf(last, zones[last])]
  }

  /** The table text: the rows between two newlines. */
  function Table(rows: seq<string>): string { "\n" + Join(rows, '\n') + "\n" }

  /** The zones that are ever on DST, in the order given. */
  function EverDst(ids: seq<string>, zones: map<string, ZoneHistory>): (kept: seq<string>)
    requires forall id :: id in ids ==> id in zones
    ensures forall id :: id in kept ==> id in ids
  {
    if ids == [] then []
    else
      var last := ids[|ids| - 1];
      EverDst(ids[..|ids| - 1], zones) + if NeverDst(zones[last]) then [] else [last]
  }

  lemma {:induction false} RowsOf(ids: seq<string>, zones: map<string, ZoneHistory>)
    requires forall id :: id in ids ==> id in zones
    ensures var kept := EverDst(ids, zones);
            |TableRows(ids, zones)| == |kept| &&
            forall i :: 0 <= i < |kept| ==> TableRows(ids, zones)[i] == kept[i] + " " + Encoded(zones[kept[i]])
  {
    hide Encoded, NeverDst;
    if ids != [] { RowsOf(ids[..|ids| - 1], zones); }
  }

  lemma {:induction false} EverDstCounts(ids: seq<string>, zones: map<string, ZoneHistory>, id: string)
    requires forall id :: id in ids ==> id in zones
    ensures multiset(EverDst(ids, zones))[id] ==
            if id in ids && (zones[id].initial || zones[id].flips != []) then multiset(ids)[id] else 0
  {
    if ids != [] {
      var init, last := ids[..|ids| - 1], ids[|ids| - 1];
      assert ids == init + [last];
      EverDstCounts(init, zones, id);
    }
  }

  lemma {:induction false} EverDstSorted(ids: seq<string>, zones: map<string, ZoneHistory>)
    requires (forall id :: id in ids ==> id in zones) && Sorted(StringLe, ids)
    ensures Sorted(StringLe, EverDst(ids, zones))
  {
    hide NeverDst, StringLe;
    if ids != [] {
      var init, last := ids[..|ids| - 1], ids[|ids| - 1];
      EverDstSorted(init, zones);
      forall id | id in init ensures StringLe(id, last) {
        var a :| 0 <= a < |init| && init[a] == id;
        assert StringLe(ids[a], ids[|ids| - 1]);
      }
    }
  }

  /** The table's lines are the rows of the zones ever on DST, in ascending order of their ids. */
  lemma TableIs(ids: seq<string>, zones: map<string, ZoneHistory>) returns (kept: seq<string>, rows: seq<string>)
    requires forall id :: id in ids ==> id in zones
    ensures forall id :: id in SortStrings(ids) ==> id in zones
    ensures forall id | id in ids :: id in zones
    ensures forall id :: multiset(kept)[id] ==
              if id in ids && (zones[id].initial || zones[id].flips != []) then multiset(ids)[id] else 0
    ensures forall i, j :: 0 <= i < j < |kept| ==> StringLe(kept[i], kept[j])
    ensures |rows| == |kept| && Table(TableRows(SortStrings(ids), zones)) == "\n" + Join(rows, '\n') + "\n"
    ensures forall i | 0 <= i < |kept| :: kept[i] in zones && rows[i] == kept[i] + " " + Encoded(zones[kept[i]])
  {
    var sorted := SortStrings(ids);
    SameElements(sorted, ids);
    StringOrder(ids);
    SortBySorted(StringLe, ids);
    rows := TableRows(sorted, zones);
    kept := EverDst(sorted, zones);
    RowsOf(sorted, zones);
    EverDstSorted(sorted, zones);
    hide Encoded, StringLe, Join, SortStrings;
    forall id ensures multiset(kept)[id] ==
      if id in ids && (zones[id].initial || zones[id].flips != []) then multiset(ids)[id] else 0 {
      EverDstCounts(sorted, zones, id);
    }
  }

  method SerializeTable(ids: seq<string>, zones: map<string, ZoneHistory>) returns (table: string)
    requires forall id :: id in ids ==> id in zones
    ensures forall id :: id in SortStrings(ids) ==> id in zones
    ensures table == Table(TableRows(SortStrings(ids), zones))
  {
    hide Encoded, SortStrings, Join;
    var sorted := SortStrings(ids);
    SameElements(sorted, ids);
    var rows: seq<string> := [];
    for i := 0 to |sorted|
      invariant rows == TableRows(sorted[..i], zones)
    {
      assert sorted[..i + 1][..i] == sorted[..i];
      var zone := zones[sorted[i]];
      if !zone.initial && |zone.flips| == 0 {
        continue;
      }
      var row := EncodeZone(zone.initial, zone.flips);
      assert zone == ZoneHistory(zone.initial, zone.flips);
      rows := rows + [sorted[i] + " " + row];
    }
    assert sorted[..|sorted|] == sorted;
    table := "\n" + Join(rows, '\n') + "\n";
  }

  // -------------------------------------------------------------------- reader

  /** Where a row's key ends: at its first space, or, as `slice(0, -1)` has it, one short of its end. */
  function KeyEnd(row: string): (n: nat)
    ensures n <= |row|
  {
    var space := IndexOf(row, ' ');
    if space >= 0 then space else if row == [] then 0 else |row| - 1
  }

  function RowKey(row: string): string { row[..KeyEnd(row)] }

  /** Where a row's value begins: behind its first space, or at its front where it has none. */
  function ValueStart(row: string): (n: nat)
    ensures n <= |row|
  {
    IndexOf(row, ' ') + 1
  }

  function RowValue(row: string): string { row[ValueStart(row)..] }

  /** A row splits at its first blank; one without a blank loses its last character to the key and is its own value. */
  lemma RowParts(key: string, value: string)
    requires ' ' !in key
    ensures RowKey(key + " " + value) == key && RowValue(key + " " + value) == value
    ensures key != [] ==> RowKey(key) == key[..|key| - 1]
    ensures RowValue(key) == key
  {
    IndexOfFirst(key, value, ' ');
  }

  /** `new Map(entries)`: a later entry replaces an earlier one of its key. */
  function RowMap(lines: seq<string>): map<string, string> {
    if lines == [] then map[]
    else RowMap(lines[..|lines| - 1])[RowKey(lines[|lines| - 1]) := RowValue(lines[|lines| - 1])]
  }

  function ParseTable(table: string): map<string, string> { RowMap(Split(Trim(table), '\n')) }

  function Accumulate(previous: Number, deltas: seq<string>): seq<Number>
    decreases |deltas|
  {
    if deltas == [] then []
    else
      var next := Add(previous, ParseBase36(deltas[0]));
      [next] + Accumulate(next, deltas[1..])
  }

  lemma AccumulateOneMore(instants: seq<Number>, previous: Number, deltas: seq<string>, i: nat)
    requires i < |deltas|
    ensures var next := Add(previous, ParseBase36(deltas[i]));
      instants + Accumulate(previous, deltas[i..]) == instants + [next] + Accumulate(next, deltas[i + 1..])
  {
    assert deltas[i..][1..] == deltas[i + 1..];
  }

  lemma AccumulateNothing(previous: Number, deltas: seq<string>)
    ensures Accumulate(previous, deltas[|deltas|..]) == []
  {
  }

  /** The flip instants a row spells. */
  function Instants(row: string): seq<Number> { Accumulate(Int(0), Split(row, ',')[1..]) }

  /** The row answering for a zone id: its own, else that of the zone the host resolves it to. */
  function RowFor(table: string, primary: string -> string, id: string): Option<string> {
    var rows := ParseTable(table);
    if id in rows then Some(rows[id]) else if primary(id) in rows then Some(rows[primary(id)]) else None
  }

  predicate AtMost(x: Number, t: real) { x.Int? && x.value as real <= t }

  function CountAtMost(instants: seq<Number>, t: real): nat {
    if instants == [] then 0 else (if AtMost(instants[0], t) then 1 else 0) + CountAtMost(instants[1..], t)
  }

  /** The row's initial bit flipped once per instant already passed. */
  function Answer(row: Option<string>, t: real): bool {
    row.Some? &&
    ((if row.value != [] && row.value[0] == '1' then 1 else 0) + CountAtMost(Instants(row.value), t)) % 2 == 1
  }

  ghost predicate Ascending(instants: seq<Number>) {
    && (forall i :: 0 <= i < |instants| ==> instants[i].Int?)
    && (forall i, j :: 0 <= i < j < |instants| ==> instants[i].value <= instants[j].value)
  }

  lemma {:induction false} CountSplits(instants: seq<Number>, k: nat, t: real)
    requires k <= |instants|
    requires forall i :: 0 <= i < k ==> AtMost(instants[i], t)
    requires forall i :: k <= i < |instants| ==> !AtMost(instants[i], t)
    ensures CountAtMost(instants, t) == k
  {
    if instants != [] {
      CountSplits(instants[1..], if k == 0 then 0 else k - 1, t);
    }
  }

  /** The generated module's state: the table it embeds, the host's zone resolution, and its three lazy caches. */
  class TzdataReader {
    const table: string
    const primary: string -> string
    var rowsByZoneId: Option<map<string, string>>
    var flipInstants: map<string, seq<Number>>
    var rowsByPrimaryZoneId: map<string, Option<string>>

    /** Every cache entry is what a fresh computation would give. */
    ghost predicate Valid()
      reads this
    {
      && (rowsByZoneId.Some? ==> rowsByZoneId.value == ParseTable(table))
      && (forall row :: row in flipInstants ==> flipInstants[row] == Instants(row))
      && (forall id :: id in rowsByPrimaryZoneId ==>
            var rows := ParseTable(table);
            rowsByPrimaryZoneId[id] == if primary(id) in rows then Some(rows[primary(id)]) else None)
    }

    constructor (table: string, primary: string -> string)
      ensures Valid() && this.table == table && this.primary == primary
    {
      this.table, this.primary := table, primary;
      rowsByZoneId, flipInstants, rowsByPrimaryZoneId := None, map[], map[];
    }

    method Rows() returns (rows: map<string, string>)
      requires Valid()
      modifies this`rowsByZoneId
      ensures Valid() && rows == ParseTable(table)
    {
      if rowsByZoneId.None? {
        rowsByZoneId := Some(ParseTable(table));
      }
      rows := rowsByZoneId.value;
    }

    method ZoneFlipInstants(row: string) returns (instants: seq<Number>)
      requires Valid()
      modifies this`flipInstants
      ensures Valid() && instants == Instants(row)
    {
      hide Accumulate, Split, ParseBase36, Add, ParseTable;
      if row in flipInstants {
        return flipInstants[row];
      }
      instants := [];
      var previous := Int(0);
      var deltas := Split(row, ',')[1..];
      for i := 0 to |deltas|
        invariant Valid() && instants + Accumulate(previous, deltas[i..]) == Instants(row)
      {
        AccumulateOneMore(instants, previous, deltas, i);
        previous := Add(previous, ParseBase36(deltas[i]));
        instants := instants + [previous];
      }
      AccumulateNothing(previous, deltas);
      assert instants + [] == instants;
      flipInstants := flipInstants[row := instants];
    }

    method ZoneRow(id: string) returns (row: Option<string>)
      requires Valid()
      modifies this`rowsByZoneId, this`rowsByPrimaryZoneId
      ensures Valid() && row == RowFor(table, primary, id)
    {
      hide ParseTable;
      var rows := Rows();
      if id in rows {
        return Some(rows[id]);
      }
      if id !in rowsByPrimaryZoneId {
        var resolved := primary(id);
        rowsByPrimaryZoneId :=
          rowsByPrimaryZoneId[id := if resolved in rows then Some(rows[resolved]) else None];
      }
      row := rowsByPrimaryZoneId[id];
    }

    /** Caches never change an answer: it depends on the table, the zone and the instant alone. */
    method TzdataIsdst(id: string, t: real) returns (isdst: bool)
      requires Valid()
      modifies this
      ensures Valid()
      ensures var row := RowFor(table, primary, id);
              (row.Some? ==> Ascending(Instants(row.value))) ==> isdst == Answer(row, t)
    {
      hide ParseTable, RowFor, Instants;
      var row := ZoneRow(id);
      if row.None? {
        return false;
      }
      var instants := ZoneFlipInstants(row.value);
      var low, high := 0, |instants|;
      while low < high
        invariant 0 <= low <= high <= |instants|
        invariant Ascending(instants) ==> forall i :: 0 <= i < low ==> AtMost(instants[i], t)
        invariant Ascending(instants) ==> forall i :: high <= i < |instants| ==> !AtMost(instants[i], t)
      {
        var middle := (low + high) / 2;
        if AtMost(instants[middle], t) {
          low := middle + 1;
        } else {
          high := middle;
        }
      }
      if Ascending(instants) { CountSplits(instants, low, t); }
      isdst := (if |row.value| > 0 && row.value[0] == '1' then low + 1 else low) % 2 == 1;
    }
  }

  // ---------------------------------------------------------------- round trip

  /** The bit the zone's transition list gives at `t`. */
  function History(zone: ZoneHistory, t: real): bool {
    zone.initial != (FlipsPassed(zone.flips, t) % 2 == 1)
  }

  function FlipsPassed(flips: seq<int>, t: real): nat {
    if flips == [] then 0 else (if flips[0] as real <= t then 1 else 0) + FlipsPassed(flips[1..], t)
  }

  /** The number of flips passed at `t` decides, by its parity, whether the initial bit still stands. */
  lemma HistoryCounts(zone: ZoneHistory, t: real)
    ensures History(zone, t) <==>
            zone.initial != (|set i | 0 <= i < |zone.flips| && zone.flips[i] as real <= t| % 2 == 1)
  {
    PassedCounts(zone.flips, 0, t);
    assert zone.flips[0..] == zone.flips;
  }

  lemma {:induction false} PassedCounts(flips: seq<int>, from: nat, t: real)
    requires from <= |flips|
    ensures FlipsPassed(flips[from..], t) == |set i | from <= i < |flips| && flips[i] as real <= t|
    decreases |flips| - from
  {
    var passed := set i | from <= i < |flips| && flips[i] as real <= t;
    if from < |flips| {
      PassedCounts(flips, from + 1, t);
      assert flips[from..][1..] == flips[from + 1..];
      var later := set i | from + 1 <= i < |flips| && flips[i] as real <= t;
      assert passed == later + if flips[from] as real <= t then {from} else {};
    } else {
      assert passed == {};
    }
  }

  function Ints(flips: seq<int>): seq<Number> { seq(|flips|, i requires 0 <= i < |flips| => Int(flips[i])) }

  lemma {:induction false} DeltasRoundTrip(previous: int, flips: seq<int>, head: string)
    requires ',' !in head
    ensures Split(head + EncodedDeltas(previous, flips), ',')[0] == head
    ensures Accumulate(Int(previous), Split(head + EncodedDeltas(previous, flips), ',')[1..]) == Ints(flips)
    decreases |flips|
  {
    hide ToBase36, ParseBase36, Split;
    if flips == [] {
      assert head + EncodedDeltas(previous, flips) == head;
      SplitNone(head, ',');
    } else {
      var delta, rest := ToBase36(flips[0] - previous), EncodedDeltas(flips[0], flips[1..]);
      Regroup(",", delta, rest);
      Regroup(head, ",", delta + rest);
      SplitFirst(head, delta + rest, ',');
      DeltasRoundTrip(flips[0], flips[1..], delta);
      ParsePrinted(flips[0] - previous);
      var parts := Split(delta + rest, ',');
      assert ([head] + parts)[1..] == parts;
      assert [Int(flips[0])] + Ints(flips[1..]) == Ints(flips);
    }
  }

  /** A row decodes to exactly the flips it was encoded from, negative deltas included. */
  lemma RowRoundTrip(zone: ZoneHistory)
    ensures Instants(Encoded(zone)) == Ints(zone.flips)
    ensures Encoded(zone) != [] && (Encoded(zone)[0] == '1' <==> zone.initial)
  {
    DeltasRoundTrip(0, zone.flips, if zone.initial then "1" else "0");
  }

  lemma {:induction false} CountsAgree(flips: seq<int>, t: real)
    ensures CountAtMost(Ints(flips), t) == FlipsPassed(flips, t)
  {
    if flips != [] {
      assert Ints(flips)[1..] == Ints(flips[1..]);
      CountsAgree(flips[1..], t);
    }
  }

  lemma AnswerOfEncoded(zone: ZoneHistory, t: real)
    ensures Answer(Some(Encoded(zone)), t) == History(zone, t)
  {
    hide Instants, Encoded;
    RowRoundTrip(zone);
    CountsAgree(zone.flips, t);
  }

  // -------------------------------------------------------------- whole table

  /** An id the row format can carry: nonempty, without the two separators. */
  predicate CleanId(id: string) { id != [] && ' ' !in id && '\n' !in id }

  ghost predicate CleanTable(ids: seq<string>, zones: map<string, ZoneHistory>) {
    && (Distinct(ids))
    && (forall id :: id in ids <==> id in zones)
    && (forall id :: id in ids ==> CleanId(id))
  }

  /** The rows of the table generated for `zones`. */
  function RowsFor(ids: seq<string>, zones: map<string, ZoneHistory>): seq<string>
    requires forall id :: id in ids ==> id in zones
  {
    SameElements(SortStrings(ids), ids);
    TableRows(SortStrings(ids), zones)
  }

  predicate Kept(id: string, zones: map<string, ZoneHistory>) { id in zones && !NeverDst(zones[id]) }

  lemma {:induction false} RowsAreKept(ids: seq<string>, zones: map<string, ZoneHistory>)
    requires forall id :: id in ids ==> id in zones
    ensures forall row :: row in TableRows(ids, zones) ==>
      exists id :: id in ids && Kept(id, zones) && row == RowOf(id, zones[id])
    ensures forall id :: id in ids && Kept(id, zones) ==> RowOf(id, zones[id]) in TableRows(ids, zones)
  {
    hide RowOf;
    if ids != [] { RowsAreKept(ids[..|ids| - 1], zones); }
  }

  lemma {:induction false} EncodedDeltasPlain(previous: int, flips: seq<int>)
    ensures var s := EncodedDeltas(previous, flips);
            && (forall c :: c in s ==> !IsSpace(c))
            && (s != [] ==> s[0] == ',')
    decreases |flips|
  {
    if flips != [] { EncodedDeltasPlain(flips[0], flips[1..]); }
  }

  lemma EncodedPlain(zone: ZoneHistory)
    ensures Encoded(zone) != [] && forall c :: c in Encoded(zone) ==> !IsSpace(c)
  {
    EncodedDeltasPlain(0, zone.flips);
  }

  lemma RowReadsBack(id: string, zone: ZoneHistory)
    requires CleanId(id)
    ensures RowKey(RowOf(id, zone)) == id && RowValue(RowOf(id, zone)) == Encoded(zone)
    ensures '\n' !in RowOf(id, zone)
  {
    hide Encoded;
    IndexOfFirst(id, Encoded(zone), ' ');
    EncodedPlain(zone);
  }

  lemma {:induction false} RowMapHolds(lines: seq<string>, key: string, value: string)
    requires forall line :: line in lines && RowKey(line) == key ==> RowValue(line) == value
    ensures key in RowMap(lines) <==> exists line :: line in lines && RowKey(line) == key
    ensures key in RowMap(lines) ==> RowMap(lines)[key] == value
  {
    hide RowKey, RowValue;
    if lines != [] {
      var init, last := lines[..|lines| - 1], lines[|lines| - 1];
      RowMapHolds(init, key, value);
      assert forall line :: line in lines <==> line in init || line == last;
    }
  }

  /** Reading rows back gives each kept zone its own row and nothing else. */
  lemma RowsReadBack(ids: seq<string>, zones: map<string, ZoneHistory>)
    requires CleanTable(ids, zones)
    ensures var read := RowMap(RowsFor(ids, zones));
            && (forall id :: id in read <==> Kept(id, zones))
            && (forall id :: Kept(id, zones) ==> read[id] == Encoded(zones[id]))
  {
    hide RowOf, Encoded, RowKey, RowValue, SortStrings, RowMap, NeverDst;
    SameElements(SortStrings(ids), ids);
    var rows := RowsFor(ids, zones);
    RowsAreKept(SortStrings(ids), zones);
    forall id | id in ids { RowReadsBack(id, zones[id]); }
    forall id
      ensures id in RowMap(rows) <==> Kept(id, zones)
      ensures Kept(id, zones) ==> RowMap(rows)[id] == Encoded(zones[id])
    {
      RowMapHolds(rows, id, if Kept(id, zones) then Encoded(zones[id]) else []);
    }
  }

  lemma {:induction false} TrimEndKeeps(s: string, tail: string)
    requires s != [] && !IsSpace(s[|s| - 1]) && forall c :: c in tail ==> IsSpace(c)
    ensures TrimEnd(s + tail) == s
  {
    if tail == [] {
      assert s + tail == s;
    } else {
      assert (s + tail)[..|s + tail| - 1] == s + tail[..|tail| - 1];
      TrimEndKeeps(s, tail[..|tail| - 1]);
    }
  }

  lemma {:induction false} TrimStartKeeps(head: string, s: string)
    requires (s != [] ==> !IsSpace(s[0])) && forall c :: c in head ==> IsSpace(c)
    ensures TrimStart(head + s) == s
  {
    if head == [] {
      assert head + s == s;
    } else {
      assert (head + s)[1..] == head[1..] + s;
      TrimStartKeeps(head[1..], s);
    }
  }

  lemma {:induction false} JoinEnds(rows: seq<string>)
    requires rows != [] && forall i :: 0 <= i < |rows| ==> rows[i] != [] && !IsSpace(rows[i][|rows[i]| - 1])
    ensures var text := Join(rows, '\n'); text != [] && !IsSpace(text[|text| - 1])
  {
    if |rows| > 1 { JoinEnds(rows[1..]); }
  }

  lemma {:induction false} TrimStartPrefix(a: string, b: string)
    requires TrimStart(a) != []
    ensures TrimStart(a + b) == TrimStart(a) + b
  {
    if IsSpace(a[0]) {
      assert (a + b)[1..] == a[1..] + b;
      TrimStartPrefix(a[1..], b);
    }
  }

  lemma {:induction false} TrimStartAllSpace(a: string)
    ensures |TrimStart(a)| <= |a| && (a != [] && IsSpace(a[0]) ==> |TrimStart(a)| < |a|)
    ensures TrimStart(a) == [] ==> forall c :: c in a ==> IsSpace(c)
    ensures TrimStart(a) != [] ==> !IsSpace(TrimStart(a)[0])
    ensures forall c :: c in TrimStart(a) ==> c in a
  {
    if a != [] && IsSpace(a[0]) { TrimStartAllSpace(a[1..]); }
  }

  /** Only the leading white space of the first row is lost with the newlines around the table. */
  lemma TrimTable(rows: seq<string>)
    requires rows != [] && TrimStart(rows[0]) != []
    requires forall i :: 0 <= i < |rows| ==> rows[i] != [] && !IsSpace(rows[i][|rows[i]| - 1])
    requires !IsSpace(TrimStart(rows[0])[|TrimStart(rows[0])| - 1])
    ensures Trim(Table(rows)) == Join([TrimStart(rows[0])] + rows[1..], '\n')
  {
    var first := TrimStart(rows[0]);
    var lines := [first] + rows[1..];
    var body := Join(rows, '\n');
    assert TrimStart("\n" + (body + "\n")) == TrimStart(body + "\n") by {
      assert ("\n" + (body + "\n"))[1..] == body + "\n";
    }
    var tail := if |rows| == 1 then [] else ['\n'] + Join(rows[1..], '\n');
    assert rows[0] + tail == body;
    assert lines[1..] == rows[1..];
    assert first + tail == Join(lines, '\n');
    Regroup(rows[0], tail, "\n");
    TrimStartPrefix(rows[0], tail + "\n");
    Regroup(first, tail, "\n");
    JoinEnds(lines);
    TrimEndKeeps(first + tail, "\n");
    Regroup("\n", body, "\n");
  }

  lemma RowEnds(id: string, zone: ZoneHistory)
    requires CleanId(id)
    ensures var row := RowOf(id, zone);
            && row != [] && !IsSpace(row[|row| - 1])
            && var rest := TrimStart(row);
            rest != [] && !IsSpace(rest[|rest| - 1]) && '\n' !in rest
            && RowValue(rest) == Encoded(zone)
            && (!IsSpace(id[0]) ==> rest == row)
            && (IsSpace(id[0]) ==> RowKey(rest) != id)
  {
    hide Encoded;
    var row, encoded := RowOf(id, zone), Encoded(zone);
    EncodedPlain(zone);
    TrimStartAllSpace(id);
    IndexOfFirst(id, encoded, ' ');
    Regroup(id, " ", encoded);
    assert encoded[|encoded| - 1] in encoded && encoded[0] in encoded;
    if TrimStart(id) != [] {
      TrimStartPrefix(id, " " + encoded);
      Regroup(TrimStart(id), " ", encoded);
      IndexOfFirst(TrimStart(id), encoded, ' ');
    } else {
      TrimStartKeeps(id + " ", encoded);
      IndexOfFirst(encoded, [], ' ');
    }
  }

  /** A row, and what `trim` may leave of it, are lines that end in something solid. */
  ghost predicate Line(row: string) { row != [] && !IsSpace(row[|row| - 1]) && '\n' !in row }

  ghost predicate Sound(row: string) { Line(row) && Line(TrimStart(row)) }

  lemma RowSound(id: string, zone: ZoneHistory)
    requires CleanId(id)
    ensures Sound(RowOf(id, zone))
  {
    hide RowOf, IsSpace, TrimStart, RowKey, RowValue;
    RowEnds(id, zone);
    RowReadsBack(id, zone);
  }

  lemma RowsSound(ids: seq<string>, zones: map<string, ZoneHistory>)
    requires CleanTable(ids, zones)
    ensures forall row :: row in RowsFor(ids, zones) ==> Sound(row)
  {
    hide RowOf, SortStrings, TableRows, Sound, NeverDst;
    SameElements(SortStrings(ids), ids);
    RowsAreKept(SortStrings(ids), zones);
    forall row | row in RowsFor(ids, zones) ensures Sound(row) {
      var id :| id in SortStrings(ids) && Kept(id, zones) && row == RowOf(id, zones[id]);
      RowSound(id, zones[id]);
    }
  }

  /** What splitting the trimmed text of sound rows gives. */
  lemma SoundLines(rows: seq<string>)
    requires rows != [] && forall row :: row in rows ==> Sound(row)
    ensures Split(Trim(Table(rows)), '\n') == [TrimStart(rows[0])] + rows[1..]
  {
    hide Trim, Table, TrimStart, Split, IsSpace;
    assert Sound(rows[0]);
    forall i | 0 <= i < |rows| ensures Line(rows[i]) { assert Sound(rows[i]); }
    TrimTable(rows);
    var lines := [TrimStart(rows[0])] + rows[1..];
    assert forall i :: 0 <= i < |lines| ==> Line(lines[i]);
    SplitJoin(lines, '\n');
  }

  /** What the reader's split sees of the table. */
  lemma TableLines(ids: seq<string>, zones: map<string, ZoneHistory>)
    requires CleanTable(ids, zones) && RowsFor(ids, zones) != []
    ensures var rows := RowsFor(ids, zones); Split(Trim(Table(rows)), '\n') == [TrimStart(rows[0])] + rows[1..]
  {
    hide Trim, Table, TrimStart, Split, RowsFor, Sound;
    RowsSound(ids, zones);
    SoundLines(RowsFor(ids, zones));
  }

  /** The first row, the only one `trim` can shorten, does not begin with white space. */
  ghost predicate FirstRowSolid(ids: seq<string>, zones: map<string, ZoneHistory>)
    requires CleanTable(ids, zones)
  {
    var rows := RowsFor(ids, zones); rows != [] && rows[0] != [] ==> !IsSpace(rows[0][0])
  }

  /** The first row is that of the first kept id in order, solid where that id does not begin with white space. */
  lemma SolidIff(ids: seq<string>, zones: map<string, ZoneHistory>)
    requires CleanTable(ids, zones)
    ensures FirstRowSolid(ids, zones) <==>
            forall id | id in ids && (zones[id].initial || zones[id].flips != []) && IsSpace(id[0]) ::
              exists other | other in ids && (zones[other].initial || zones[other].flips != []) :: !StringLe(id, other)
  {
    var rows := RowsFor(ids, zones);
    assert FirstRowSolid(ids, zones) <==> (rows != [] && rows[0] != [] ==> !IsSpace(rows[0][0]));
    var kept := KeptInOrder(ids, zones);
    hide *;
    FirstOfKept(rows, kept);
  }

  lemma KeptInOrder(ids: seq<string>, zones: map<string, ZoneHistory>) returns (kept: seq<string>)
    requires CleanTable(ids, zones)
    ensures forall id :: id in kept <==> id in ids && (zones[id].initial || zones[id].flips != [])
    ensures Sorted(StringLe, kept) && |kept| == |RowsFor(ids, zones)|
    ensures forall i :: 0 <= i < |kept| ==> kept[i] != [] && kept[i] <= RowsFor(ids, zones)[i]
  {
    var sorted := SortStrings(ids);
    SameElements(sorted, ids);
    StringOrder(ids);
    SortBySorted(StringLe, ids);
    RowsOf(sorted, zones);
    EverDstSorted(sorted, zones);
    kept := EverDst(sorted, zones);
    hide SortStrings, TableRows, StringLe, SortBy, Encoded, EverDst;
    forall id ensures id in kept <==> id in ids && (zones[id].initial || zones[id].flips != []) {
      EverDstCounts(sorted, zones, id);
      assert id in kept <==> multiset(kept)[id] > 0;
    }
  }

  lemma FirstOfKept(rows: seq<string>, kept: seq<string>)
    requires |rows| == |kept| && Sorted(StringLe, kept)
    requires forall i :: 0 <= i < |kept| ==> kept[i] != [] && kept[i] <= rows[i]
    ensures (rows != [] && rows[0] != [] ==> !IsSpace(rows[0][0])) <==>
            forall id | id in kept && IsSpace(id[0]) :: exists other | other in kept :: !StringLe(id, other)
  {
    hide IsSpace;
    if kept != [] {
      var first := kept[0];
      assert rows[0][0] == first[0] && first in kept;
      StringTotal(first, first);
      forall other | other in kept ensures StringLe(first, other) {
        var j :| 0 <= j < |kept| && kept[j] == other;
        assert j > 0 ==> StringLe(kept[0], kept[j]);
      }
      forall id | id in kept && id != first ensures !StringLe(id, first) { StringTotal(id, first); }
    }
  }

  ghost predicate DistinctKeys(rows: seq<string>) {
    forall i, j :: 0 <= i < j < |rows| ==> RowKey(rows[i]) != RowKey(rows[j])
  }

  lemma {:induction false} RowKeysDistinct(ids: seq<string>, zones: map<string, ZoneHistory>)
    requires forall id :: id in ids ==> id in zones && CleanId(id)
    requires Distinct(ids)
    ensures DistinctKeys(TableRows(ids, zones))
  {
    hide RowKey, RowOf, RowValue;
    if ids != [] {
      var last, init := ids[|ids| - 1], ids[..|ids| - 1];
      RowKeysDistinct(init, zones);
      RowsAreKept(init, zones);
      RowReadsBack(last, zones[last]);
      forall row | row in TableRows(init, zones) ensures RowKey(row) != last {
        var id :| id in init && Kept(id, zones) && row == RowOf(id, zones[id]);
        RowReadsBack(id, zones[id]);
      }
      var rows := TableRows(ids, zones);
      forall i, j | 0 <= i < j < |rows| ensures RowKey(rows[i]) != RowKey(rows[j]) {
        assert i < |TableRows(init, zones)| && rows[i] in TableRows(init, zones);
      }
    }
  }

  /** The id of the first row, and the key `trim` leaves that row under. */
  ghost function FirstId(ids: seq<string>, zones: map<string, ZoneHistory>): string
    requires CleanTable(ids, zones) && RowsFor(ids, zones) != []
  {
    RowKey(RowsFor(ids, zones)[0])
  }

  ghost function FirstKey(ids: seq<string>, zones: map<string, ZoneHistory>): string
    requires CleanTable(ids, zones) && RowsFor(ids, zones) != []
  {
    RowKey(TrimStart(RowsFor(ids, zones)[0]))
  }

  /** The first row is a kept zone's, and keeps its value, if not its key, under `trim`. */
  lemma FirstRow(ids: seq<string>, zones: map<string, ZoneHistory>)
    requires CleanTable(ids, zones) && RowsFor(ids, zones) != []
    ensures var rows, id := RowsFor(ids, zones), FirstId(ids, zones);
            && Kept(id, zones) && rows[0] == RowOf(id, zones[id])
            && RowValue(TrimStart(rows[0])) == Encoded(zones[id])
            && (FirstKey(ids, zones) == id <==> FirstRowSolid(ids, zones))
  {
    hide RowOf, SortStrings, TrimStart, TableRows, RowKey, RowValue, IsSpace, NeverDst, Encoded;
    SameElements(SortStrings(ids), ids);
    var rows := RowsFor(ids, zones);
    RowsAreKept(SortStrings(ids), zones);
    assert rows[0] in rows;
    var id :| id in SortStrings(ids) && Kept(id, zones) && rows[0] == RowOf(id, zones[id]);
    RowReadsBack(id, zones[id]);
    RowEnds(id, zones[id]);
    RowStartsWithId(id, zones[id]);
  }

  lemma RowStartsWithId(id: string, zone: ZoneHistory)
    requires id != []
    ensures RowOf(id, zone)[0] == id[0]
  {
    hide Encoded;
  }

  /** A later line overrides the first; without one the first line answers for its key. */
  lemma {:induction false} RowMapHead(head: string, tail: seq<string>)
    ensures RowMap([head] + tail) == map[RowKey(head) := RowValue(head)] + RowMap(tail)
  {
    hide RowKey, RowValue;
    if tail == [] {
      assert [head] + tail == [head] && [head][..0] == [];
    } else {
      var init := tail[..|tail| - 1];
      RowMapHead(head, init);
      assert ([head] + tail)[..|tail|] == [head] + init;
      UpdateSum(map[RowKey(head) := RowValue(head)], RowMap(init), RowKey(tail[|init|]), RowValue(tail[|init|]));
    }
  }

  lemma UpdateSum(a: map<string, string>, b: map<string, string>, key: string, value: string)
    ensures (a + b)[key := value] == a + b[key := value]
  {
  }

  /** The rows after the first hold exactly the other kept zones, each its own. */
  lemma OtherRows(ids: seq<string>, zones: map<string, ZoneHistory>, key: string)
    requires CleanTable(ids, zones) && RowsFor(ids, zones) != []
    ensures var others := RowsFor(ids, zones)[1..];
            && (key in RowMap(others) <==> Kept(key, zones) && key != FirstId(ids, zones))
            && (key in RowMap(others) ==> RowMap(others)[key] == Encoded(zones[key]))
  {
    hide RowOf, Encoded, RowKey, RowValue, SortStrings, RowMap, TableRows, NeverDst;
    SameElements(SortStrings(ids), ids);
    DistinctSurvives(ids, SortStrings(ids));
    var rows := RowsFor(ids, zones);
    RowsAreKept(SortStrings(ids), zones);
    RowKeysDistinct(SortStrings(ids), zones);
    forall id | id in ids { RowReadsBack(id, zones[id]); }
    var others := rows[1..];
    if Kept(key, zones) && key != FirstId(ids, zones) {
      var i :| 0 <= i < |rows| && rows[i] == RowOf(key, zones[key]);
      assert others[i - 1] == rows[i] && RowKey(others[i - 1]) == key;
    }
    forall line | line in others && RowKey(line) == key
      ensures Kept(key, zones) && key != FirstId(ids, zones) && RowValue(line) == Encoded(zones[key])
    {
      var i :| 0 <= i < |others| && others[i] == line;
      assert rows[i + 1] == line && line in rows && RowKey(rows[0]) != RowKey(rows[i + 1]);
    }
    RowMapHolds(others, key, if Kept(key, zones) then Encoded(zones[key]) else []);
  }

  /** The zone whose row the reader finds under a key. A first row shortened by `trim` is lost to its own zone, and
      answers for its new key where no row of that key overrides it. */
  ghost function Holder(ids: seq<string>, zones: map<string, ZoneHistory>, key: string): Option<string>
    requires CleanTable(ids, zones)
  {
    if RowsFor(ids, zones) == [] then None
    else if key == FirstId(ids, zones) && FirstKey(ids, zones) != key then None
    else if Kept(key, zones) then Some(key)
    else if key == FirstKey(ids, zones) then Some(FirstId(ids, zones))
    else None
  }

  /** Under every key the reader finds exactly its holder's row. */
  lemma ReadsHolder(ids: seq<string>, zones: map<string, ZoneHistory>, key: string)
    requires CleanTable(ids, zones) && RowsFor(ids, zones) != []
    ensures var read, holder := ParseTable(Table(RowsFor(ids, zones))), Holder(ids, zones, key);
            && (key in read <==> holder.Some?)
            && (holder.Some? ==> holder.value in zones && read[key] == Encoded(zones[holder.value]))
  {
    hide RowsFor, Table, Trim, TrimStart, Split, RowKey;
    hide RowValue, RowMap, Encoded, RowOf, NeverDst, FirstRowSolid;
    var rows := RowsFor(ids, zones);
    TableLines(ids, zones);
    FirstRow(ids, zones);
    OtherRows(ids, zones, key);
    RowMapHead(TrimStart(rows[0]), rows[1..]);
  }

  /** The history the reader answers from: its holder's, or failing one that of the zone the host resolves the id to. */
  ghost predicate Answered(ids: seq<string>, zones: map<string, ZoneHistory>,
                           primary: string -> string, id: string, t: real)
    requires CleanTable(ids, zones)
  {
    HolderSays(ids, zones, if Holder(ids, zones, id).Some? then id else primary(id), t)
  }

  ghost predicate HolderSays(ids: seq<string>, zones: map<string, ZoneHistory>, key: string, t: real)
    requires CleanTable(ids, zones)
  {
    var holder := Holder(ids, zones, key);
    holder.Some? && holder.value in zones && History(zones[holder.value], t)
  }

  /** For every host, id and instant, and every clean table, the reader answers the history of the holder of the id,
      or failing one of the holder of what the host resolves it to. */
  lemma ReaderAnswers(ids: seq<string>, zones: map<string, ZoneHistory>, primary: string -> string, id: string, t: real)
    requires CleanTable(ids, zones)
    ensures Answer(RowFor(Table(RowsFor(ids, zones)), primary, id), t) == Answered(ids, zones, primary, id, t)
  {
    hide Encoded, History, Table, RowsFor, Instants, ParseTable, Holder, Answer;
    if RowsFor(ids, zones) == [] {
      NothingHeld(ids, zones, id);
      NothingHeld(ids, zones, primary(id));
      EmptyTable(RowsFor(ids, zones), t);
      NoRowNoDst(t);
    } else {
      ReadsHolder(ids, zones, id);
      ReadsHolder(ids, zones, primary(id));
      var holder := Holder(ids, zones, if Holder(ids, zones, id).Some? then id else primary(id));
      if holder.Some? { AnswerOfEncoded(zones[holder.value], t); } else { NoRowNoDst(t); }
    }
  }

  lemma NothingHeld(ids: seq<string>, zones: map<string, ZoneHistory>, key: string)
    requires CleanTable(ids, zones) && RowsFor(ids, zones) == []
    ensures Holder(ids, zones, key).None?
  {
    hide RowsFor;
  }

  lemma EmptyTable(rows: seq<string>, t: real)
    requires rows == []
    ensures ParseTable(Table(rows)) == map["" := ""] && !Answer(Some(""), t)
  {
    var none: string := [];
    assert Trim(Table(rows)) == none by {
      TrimStartKeeps(Table(rows), none);
      assert Table(rows) + none == Table(rows);
    }
    hide RowMap, Split, Trim, Table, Answer;
    SplitNone(none, '\n');
    EmptyLine(none);
    EmptyRow(none, t);
  }

  lemma EmptyLineCut(none: string)
    requires none == []
    ensures RowKey(none) == none && RowValue(none) == none
  {
  }

  lemma EmptyLine(none: string)
    requires none == []
    ensures RowMap([none]) == map[none := none]
  {
    hide RowKey, RowValue;
    EmptyLineCut(none);
    assert [none][..0] == [];
  }

  lemma EmptyRow(none: string, t: real)
    requires none == []
    ensures !Answer(Some(none), t)
  {
    hide Split, ParseBase36;
    SplitNone(none, ',');
    var parts := [none];
    assert parts[1..] == [];
    assert Instants(none) == [];
  }

  ghost predicate AscendingFlips(zones: map<string, ZoneHistory>) {
    forall id, i, j :: id in zones && 0 <= i < j < |zones[id].flips| ==> zones[id].flips[i] < zones[id].flips[j]
  }

  /** The host resolves a zone without a row to itself, to an unknown id or to a zone of the same history. */
  ghost predicate ResolvesAlike(zones: map<string, ZoneHistory>, primary: string -> string) {
    forall id, t :: id in zones && NeverDst(zones[id]) && primary(id) in zones ==>
      History(zones[primary(id)], t) == History(zones[id], t)
  }

  /** No kept zone, no row. */
  lemma NoRows(ids: seq<string>, zones: map<string, ZoneHistory>, id: string)
    requires CleanTable(ids, zones) && RowsFor(ids, zones) == []
    ensures !Kept(id, zones)
  {
    hide RowOf, SortStrings, TableRows, NeverDst;
    SameElements(SortStrings(ids), ids);
    RowsAreKept(SortStrings(ids), zones);
  }

  /** Where no first row is shortened every kept zone holds its own row and no other key is held. */
  lemma SolidHolder(ids: seq<string>, zones: map<string, ZoneHistory>, key: string)
    requires CleanTable(ids, zones) && FirstRowSolid(ids, zones)
    ensures Holder(ids, zones, key) == if Kept(key, zones) then Some(key) else None
  {
    hide RowsFor, FirstKey, FirstId, FirstRowSolid, NeverDst;
    if RowsFor(ids, zones) == [] {
      NoRows(ids, zones, key);
    } else {
      FirstRow(ids, zones);
    }
  }

  /** The reader gives back, for every zone the table was generated from, the bit of its transition list. */
  lemma ReaderAnswersHistory(ids: seq<string>, zones: map<string, ZoneHistory>,
                             primary: string -> string, id: string, t: real)
    requires CleanTable(ids, zones) && FirstRowSolid(ids, zones) && ResolvesAlike(zones, primary) && id in zones
    ensures Answer(RowFor(Table(RowsFor(ids, zones)), primary, id), t) == History(zones[id], t)
  {
    hide Table, RowsFor, RowFor, Answer, Holder, FirstRowSolid;
    ReaderAnswers(ids, zones, primary, id, t);
    SolidHolder(ids, zones, id);
    SolidHolder(ids, zones, primary(id));
  }

  /** Every row the reader can look up decodes to ascending instants, so its binary search counts them. */
  lemma RowsAscend(ids: seq<string>, zones: map<string, ZoneHistory>, primary: string -> string, id: string)
    requires CleanTable(ids, zones) && AscendingFlips(zones)
    ensures var row := RowFor(Table(RowsFor(ids, zones)), primary, id); row.Some? ==> Ascending(Instants(row.value))
  {
    hide Table, RowsFor, Instants, Encoded, ParseTable, Ascending, Ints, Holder;
    if RowsFor(ids, zones) == [] {
      EmptyTable(RowsFor(ids, zones), 0.0);
      EmptyRowAscends();
    } else {
      ReadsHolder(ids, zones, id);
      ReadsHolder(ids, zones, primary(id));
      var holder := Holder(ids, zones, if Holder(ids, zones, id).Some? then id else primary(id));
      if holder.Some? {
        RowRoundTrip(zones[holder.value]);
        IntsAscend(zones[holder.value].flips);
      }
    }
  }

  lemma IntsAscend(flips: seq<int>)
    requires forall i, j :: 0 <= i < j < |flips| ==> flips[i] < flips[j]
    ensures Ascending(Ints(flips))
  {
  }

  lemma EmptyRowAscends()
    ensures Ascending(Instants(""))
  {
    hide Split, ParseBase36;
    SplitNone("", ',');
    var parts: seq<string> := [""];
    assert parts[1..] == [];
  }

  /** A kept zone with ascending flips is on DST at some instant. */
  lemma SometimesDst(zone: ZoneHistory) returns (t: real)
    requires !NeverDst(zone)
    requires forall i, j :: 0 <= i < j < |zone.flips| ==> zone.flips[i] < zone.flips[j]
    ensures History(zone, t)
  {
    if zone.flips == [] {
      t := 0.0;
    } else {
      t := (if zone.initial then zone.flips[0] - 1 else zone.flips[0]) as real;
      NonePassed(zone.flips[1..], t);
    }
  }

  lemma {:induction false} NonePassed(flips: seq<int>, t: real)
    requires forall i :: 0 <= i < |flips| ==> flips[i] as real > t
    ensures FlipsPassed(flips, t) == 0
  {
    if flips != [] { NonePassed(flips[1..], t); }
  }

  /** The zone's own row survives `trim`, and no other's takes its place: what fails is the first row's zone, and a
      zone never on DST whose id is what `trim` leaves of that zone's. */
  ghost predicate Unharmed(ids: seq<string>, zones: map<string, ZoneHistory>, id: string)
    requires CleanTable(ids, zones)
  {
    FirstRowSolid(ids, zones) ||
      (id != FirstIdOr(ids, zones, id) && (id == FirstKeyOr(ids, zones, id) ==> Kept(id, zones)))
  }

  ghost function FirstIdOr(ids: seq<string>, zones: map<string, ZoneHistory>, none: string): string
    requires CleanTable(ids, zones)
  {
    if RowsFor(ids, zones) == [] then none else FirstId(ids, zones)
  }

  ghost function FirstKeyOr(ids: seq<string>, zones: map<string, ZoneHistory>, none: string): string
    requires CleanTable(ids, zones)
  {
    if RowsFor(ids, zones) == [] then none else FirstKey(ids, zones)
  }

  /** On a host that resolves every id to itself, the reader is right about a zone at all instants exactly when the
      zone is unharmed by `trim`. */
  lemma ZoneCorrectIff(ids: seq<string>, zones: map<string, ZoneHistory>, id: string)
    requires CleanTable(ids, zones) && AscendingFlips(zones) && id in zones
    ensures (forall t :: Answer(RowFor(Table(RowsFor(ids, zones)), Self, id), t) == History(zones[id], t))
       <==> Unharmed(ids, zones, id)
  {
    hide Table, RowsFor, RowFor, Answer, Holder, FirstRowSolid, History, NeverDst, FirstId, FirstKey;
    forall t { ReaderAnswers(ids, zones, Self, id, t); }
    UnharmedHolder(ids, zones, id);
    if Unharmed(ids, zones, id) {
      forall t ensures Answered(ids, zones, Self, id, t) == History(zones[id], t) { NeverDstIsNever(zones[id], t); }
    } else if Kept(id, zones) {
      var t := SometimesDst(zones[id]);
      assert !Answered(ids, zones, Self, id, t);
    } else {
      var t := SometimesDst(zones[Holder(ids, zones, id).value]);
      NeverDstIsNever(zones[id], t);
      assert Answered(ids, zones, Self, id, t);
    }
  }

  function Self(id: string): string { id }

  lemma NeverDstIsNever(zone: ZoneHistory, t: real)
    ensures NeverDst(zone) ==> !History(zone, t)
  {
  }

  /** An unharmed zone holds its own row or, never on DST, none; a harmed one lost its row, or holds a kept zone's. */
  lemma UnharmedHolder(ids: seq<string>, zones: map<string, ZoneHistory>, id: string)
    requires CleanTable(ids, zones) && id in zones
    ensures var holder := Holder(ids, zones, id);
            && (holder.Some? ==> Kept(holder.value, zones))
            && (if Unharmed(ids, zones, id) then holder == if Kept(id, zones) then Some(id) else None
                else if Kept(id, zones) then holder == None else holder.Some?)
  {
    hide RowsFor, FirstId, FirstKey, FirstRowSolid, NeverDst;
    if RowsFor(ids, zones) == [] {
      NoRows(ids, zones, id);
      NothingHeld(ids, zones, id);
      NoRowIsSolid(ids, zones);
    } else {
      FirstRow(ids, zones);
    }
  }

  lemma NoRowIsSolid(ids: seq<string>, zones: map<string, ZoneHistory>)
    requires CleanTable(ids, zones) && RowsFor(ids, zones) == []
    ensures FirstRowSolid(ids, zones)
  {
    hide RowsFor;
  }

  /** On such a host it is right about all zones exactly when there is no white space at the front of the first row
      for `trim` to take. */
  lemma ReaderCorrectIff(ids: seq<string>, zones: map<string, ZoneHistory>)
    requires CleanTable(ids, zones) && AscendingFlips(zones)
    ensures (forall id, t :: id in zones ==>
      Answer(RowFor(Table(RowsFor(ids, zones)), Self, id), t) == History(zones[id], t))
       <==> FirstRowSolid(ids, zones)
  {
    hide Table, RowsFor, Answer, RowFor, FirstRowSolid, History, FirstId, FirstKey;
    forall id | id in zones { ZoneCorrectIff(ids, zones, id); }
    if !FirstRowSolid(ids, zones) {
      if RowsFor(ids, zones) == [] { NoRowIsSolid(ids, zones); assert false; }
      FirstRow(ids, zones);
      assert !Unharmed(ids, zones, FirstId(ids, zones));
    }
  }

  /** A zone always on DST whose id begins with a tab, beside one never on DST whose id is what `trim` leaves of it: the
      reader is wrong about both at every instant. */
  lemma TabbedIdIsLost(ids: seq<string>, zones: map<string, ZoneHistory>, t: real)
    requires ids == ["\tA", "A"]
    requires zones == map["\tA" := ZoneHistory(true, []), "A" := ZoneHistory(false, [])]
    ensures CleanTable(ids, zones) && !FirstRowSolid(ids, zones)
    ensures History(zones["\tA"], t) && !Answer(RowFor(Table(RowsFor(ids, zones)), Self, "\tA"), t)
    ensures !History(zones["A"], t) && Answer(RowFor(Table(RowsFor(ids, zones)), Self, "A"), t)
  {
    var tabbed, bare := ids[0], ids[1];
    TabbedIdIsClean(ids, zones);
    assert tabbed == ['\t'] + bare && |bare| == 1 && bare[0] == 'A';
    hide *;
    OnlyTabbedRow(ids, zones, tabbed, bare);
    TabbedHolders(ids, zones, tabbed, bare, t);
    ReaderAnswers(ids, zones, Self, tabbed, t);
    ReaderAnswers(ids, zones, Self, bare, t);
  }

  lemma TabbedIdIsClean(ids: seq<string>, zones: map<string, ZoneHistory>)
    requires ids == ["\tA", "A"] && zones.Keys == {"\tA", "A"}
    ensures CleanTable(ids, zones)
  {
    assert |ids[0]| == 2 && ids[0][0] == '\t' && ids[0][1] == 'A' && |ids[1]| == 1 && ids[1][0] == 'A';
    assert ids[0] in ids && ids[1] in ids;
  }

  lemma TabbedHolders(ids: seq<string>, zones: map<string, ZoneHistory>, tabbed: string, bare: string, t: real)
    requires CleanTable(ids, zones) && RowsFor(ids, zones) != [] && tabbed != bare
    requires zones == map[tabbed := ZoneHistory(true, []), bare := ZoneHistory(false, [])]
    requires FirstId(ids, zones) == tabbed && FirstKey(ids, zones) == bare
    ensures History(zones[tabbed], t) && !Answered(ids, zones, Self, tabbed, t)
    ensures !History(zones[bare], t) && Answered(ids, zones, Self, bare, t)
  {
    hide RowsFor, FirstId, FirstKey;
  }

  lemma OnlyTabbedRow(ids: seq<string>, zones: map<string, ZoneHistory>, tabbed: string, bare: string)
    requires CleanTable(ids, zones) && zones == map[tabbed := ZoneHistory(true, []), bare := ZoneHistory(false, [])]
    requires tabbed == ['\t'] + bare && |bare| == 1 && bare[0] == 'A'
    ensures RowsFor(ids, zones) != [] && !FirstRowSolid(ids, zones)
    ensures FirstId(ids, zones) == tabbed && FirstKey(ids, zones) == bare
  {
    SameElements(SortStrings(ids), ids);
    RowsAreKept(SortStrings(ids), zones);
    assert Kept(tabbed, zones);
    FirstRow(ids, zones);
    TabbedRow(tabbed, bare, zones[tabbed]);
    hide RowKey, TrimStart, RowOf, SortStrings, TableRows;
  }

  lemma TabbedRow(tabbed: string, bare: string, zone: ZoneHistory)
    requires tabbed == ['\t'] + bare && |bare| == 1 && bare[0] == 'A'
    ensures RowOf(tabbed, zone) != [] && IsSpace(RowOf(tabbed, zone)[0])
    ensures RowKey(TrimStart(RowOf(tabbed, zone))) == bare
  {
    hide Encoded, RowKey;
    var row := RowOf(tabbed, zone);
    assert row[1..] == RowOf(bare, zone) && row[0] == '\t';
    assert TrimStart(row[1..]) == row[1..];
    assert ' ' !in bare && '\n' !in bare;
    RowReadsBack(bare, zone);
  }

  /** Generate a table, build a reader over it and ask it anything in any order: every answer is the holder's
      history, which is the zone's own where the first row is solid and the host resolves omitted zones alike. */
  method GenerateAndRead(ids: seq<string>, zones: map<string, ZoneHistory>,
                         primary: string -> string, queries: seq<(string, real)>)
      returns (answers: seq<bool>)
    requires CleanTable(ids, zones) && AscendingFlips(zones)
    ensures |answers| == |queries|
    ensures forall i :: 0 <= i < |queries| ==> answers[i] == Answered(ids, zones, primary, queries[i].0, queries[i].1)
    ensures FirstRowSolid(ids, zones) && ResolvesAlike(zones, primary) ==>
      forall i :: 0 <= i < |queries| && queries[i].0 in zones ==>
        answers[i] == History(zones[queries[i].0], queries[i].1)
    ensures FirstRowSolid(ids, zones) ==> forall i | 0 <= i < |queries| ::
              var (id, t) := queries[i];
              answers[i] ==
                if id in zones && (zones[id].initial || zones[id].flips != []) then History(zones[id], t)
                else primary(id) in zones && History(zones[primary(id)], t)
  {
    answers := ReadBack(ids, zones, primary, queries);
    if FirstRowSolid(ids, zones) {
      forall i | 0 <= i < |queries| { SolidAnswer(ids, zones, primary, queries[i].0, queries[i].1); }
    }
    hide *;
  }

  lemma SolidAnswer(ids: seq<string>, zones: map<string, ZoneHistory>, primary: string -> string, id: string, t: real)
    requires CleanTable(ids, zones) && FirstRowSolid(ids, zones)
    ensures Answered(ids, zones, primary, id, t) <==>
            if id in zones && (zones[id].initial || zones[id].flips != []) then History(zones[id], t)
            else primary(id) in zones && History(zones[primary(id)], t)
  {
    SolidHolder(ids, zones, id);
    SolidHolder(ids, zones, primary(id));
    hide FirstRowSolid, Holder, CleanTable, FlipsPassed;
    if primary(id) in zones { NeverDstIsNever(zones[primary(id)], t); }
  }

  method ReadBack(ids: seq<string>, zones: map<string, ZoneHistory>,
                  primary: string -> string, queries: seq<(string, real)>)
      returns (answers: seq<bool>)
    requires CleanTable(ids, zones) && AscendingFlips(zones)
    ensures |answers| == |queries|
    ensures forall i :: 0 <= i < |queries| ==> answers[i] == Answered(ids, zones, primary, queries[i].0, queries[i].1)
    ensures FirstRowSolid(ids, zones) && ResolvesAlike(zones, primary) ==>
      forall i :: 0 <= i < |queries| && queries[i].0 in zones ==>
        answers[i] == History(zones[queries[i].0], queries[i].1)
  {
    hide Table, Answered, FirstRowSolid, ResolvesAlike, AscendingFlips, History;
    hide RowFor, Answer, Instants, Ascending, TableRows, SortStrings;
    var table := SerializeTable(ids, zones);
    assert table == Table(RowsFor(ids, zones));
    var reader := new TzdataReader(table, primary);
    answers := [];
    for i := 0 to |queries|
      invariant reader.Valid() && fresh(reader) && reader.table == table && reader.primary == primary
      invariant |answers| == i
      invariant forall j :: 0 <= j < i ==> answers[j] == Answered(ids, zones, primary, queries[j].0, queries[j].1)
      invariant FirstRowSolid(ids, zones) && ResolvesAlike(zones, primary) ==>
        forall j :: 0 <= j < i && queries[j].0 in zones ==> answers[j] == History(zones[queries[j].0], queries[j].1)
    {
      var (id, t) := queries[i];
      var isdst := reader.TzdataIsdst(id, t);
      RowsAscend(ids, zones, primary, id);
      ReaderAnswers(ids, zones, primary, id, t);
      if FirstRowSolid(ids, zones) && ResolvesAlike(zones, primary) && id in zones {
        ReaderAnswersHistory(ids, zones, primary, id, t);
      }
      answers := answers + [isdst];
    }
  }

  lemma NoRowNoDst(t: real)
    ensures !Answer(None, t)
  {
  }
}
