/** The only-shrink high-water mark over matched pairs that drop a `throw`. */
module ArmThrowMark {
  import opened Ordering

  /** One flagged pair: where it stands and the control tokens it drops. */
  datatype MeasuredRow = MeasuredRow(package: string, tsFile: string, missing: seq<string>)

  datatype PackageMark = PackageMark(total: nat, byFile: map<string, nat>)

  type Marks = map<string, PackageMark>

  /** What a mark bounds: the package's rows, or those of one file. */
  datatype Dimension = Total | File(name: string)

  const GATED_TOKEN := "throw"

  function Value(mark: PackageMark, d: Dimension): nat {
    match d
    case Total => mark.total
    case File(f) => if f in mark.byFile then mark.byFile[f] else 0
  }

  // ----------------------------------------------------------------- measuring

  predicate Counts(row: MeasuredRow, package: string, d: Dimension) {
    row.package == package && GATED_TOKEN in row.missing && (d == Total || d == File(row.tsFile))
  }

  function CountRows(rows: seq<MeasuredRow>, package: string, d: Dimension): nat {
    if rows == [] then 0
    else CountRows(rows[..|rows| - 1], package, d) + if Counts(rows[|rows| - 1], package, d) then 1 else 0
  }

  lemma {:induction false} CountRowsIs(rows: seq<MeasuredRow>, n: nat, package: string, d: Dimension)
    requires n <= |rows|
    ensures CountRows(rows[..n], package, d) == |Counted(rows, n, package, d)|
  {
    hide Counts, Counted;
    CountedStep(rows, n, package, d);
    if n > 0 {
      CountRowsIs(rows, n - 1, package, d);
      assert rows[..n][..n - 1] == rows[..n - 1];
    }
  }

  ghost function Counted(rows: seq<MeasuredRow>, n: nat, package: string, d: Dimension): set<int>
    requires n <= |rows|
  {
    set i | 0 <= i < n && Counts(rows[i], package, d)
  }

  lemma CountedGrows(rows: seq<MeasuredRow>, n: nat, package: string, d: Dimension)
    requires n < |rows|
    ensures Counted(rows, n + 1, package, d) ==
            Counted(rows, n, package, d) + if Counts(rows[n], package, d) then {n} else {}
    ensures n !in Counted(rows, n, package, d)
  {
    hide Counts;
  }

  lemma OneMore(s: set<int>, x: int, more: bool)
    requires x !in s
    ensures |s + if more then {x} else {}| == |s| + if more then 1 else 0
  {
    if !more { assert s + {} == s; }
  }

  lemma CountedStep(rows: seq<MeasuredRow>, n: nat, package: string, d: Dimension)
    requires n <= |rows|
    ensures |Counted(rows, n, package, d)| ==
            if n == 0 then 0
            else |Counted(rows, n - 1, package, d)| + if Counts(rows[n - 1], package, d) then 1 else 0
  {
    if n == 0 {
      assert Counted(rows, n, package, d) == {};
    } else {
      CountedGrows(rows, n - 1, package, d);
      hide Counted, Counts;
      OneMore(Counted(rows, n - 1, package, d), n - 1, Counts(rows[n - 1], package, d));
    }
  }

  lemma TotalCounts(rows: seq<MeasuredRow>, p: string)
    ensures CountRows(rows, p, Total) ==
            |set i | 0 <= i < |rows| && rows[i].package == p && "throw" in rows[i].missing|
  {
    assert rows[..|rows|] == rows;
    CountRowsIs(rows, |rows|, p, Total);
    hide CountRows;
    assert Counted(rows, |rows|, p, Total)
        == set i | 0 <= i < |rows| && rows[i].package == p && "throw" in rows[i].missing;
  }

  lemma FileCounts(rows: seq<MeasuredRow>, p: string, f: string)
    ensures CountRows(rows, p, File(f)) ==
            |set i | 0 <= i < |rows| && rows[i].package == p && "throw" in rows[i].missing && rows[i].tsFile == f|
  {
    assert rows[..|rows|] == rows;
    CountRowsIs(rows, |rows|, p, File(f));
    hide CountRows;
    assert Counted(rows, |rows|, p, File(f))
        == set i | 0 <= i < |rows| && rows[i].package == p && "throw" in rows[i].missing && rows[i].tsFile == f;
  }

  /** The measured values are numbers of rows: a package's that drop a `throw`, in all its files or in the one named. */
  lemma MeasuredMeans(rows: seq<MeasuredRow>, marks: Marks)
    requires forall p, d :: p in marks ==> Value(marks[p], d) == CountRows(rows, p, d)
    ensures forall p | p in marks :: marks[p].total ==
              |set i | 0 <= i < |rows| && rows[i].package == p && "throw" in rows[i].missing|
    ensures forall p, f | p in marks :: (if f in marks[p].byFile then marks[p].byFile[f] else 0) ==
              |set i | 0 <= i < |rows| && rows[i].package == p && "throw" in rows[i].missing && rows[i].tsFile == f|
  {
    hide CountRows;
    forall p | p in marks
      ensures marks[p].total == |set i | 0 <= i < |rows| && rows[i].package == p && "throw" in rows[i].missing|
    {
      TotalCounts(rows, p);
      assert Value(marks[p], Total) == CountRows(rows, p, Total);
    }
    forall p, f | p in marks
      ensures (if f in marks[p].byFile then marks[p].byFile[f] else 0) ==
        |set i | 0 <= i < |rows| && rows[i].package == p && "throw" in rows[i].missing && rows[i].tsFile == f|
    {
      FileCounts(rows, p, f);
      assert Value(marks[p], File(f)) == CountRows(rows, p, File(f));
    }
  }

  method Measure(gated: seq<string>, rows: seq<MeasuredRow>) returns (marks: Marks)
    ensures forall p :: p in marks <==> p in gated
    ensures forall p, d :: p in marks ==> Value(marks[p], d) == CountRows(rows, p, d)
    ensures forall p | p in marks :: marks[p].total ==
              |set i | 0 <= i < |rows| && rows[i].package == p && "throw" in rows[i].missing|
    ensures forall p, f | p in marks :: (if f in marks[p].byFile then marks[p].byFile[f] else 0) ==
              |set i | 0 <= i < |rows| && rows[i].package == p && "throw" in rows[i].missing && rows[i].tsFile == f|
  {
    marks := map[];
    for i := 0 to |gated|
      invariant forall p :: p in marks <==> p in gated[..i]
      invariant forall p, d :: p in marks ==> Value(marks[p], d) == 0
    {
      marks := marks[gated[i] := PackageMark(0, map[])];
    }
    assert gated[..|gated|] == gated;
    for i := 0 to |rows|
      invariant forall p :: p in marks <==> p in gated
      invariant forall p, d :: p in marks ==> Value(marks[p], d) == CountRows(rows[..i], p, d)
    {
      var row := rows[i];
      assert rows[..i + 1][..i] == rows[..i];
      if GATED_TOKEN !in row.missing || row.package !in marks {
        continue;
      }
      var mark := marks[row.package];
      var byFile := mark.byFile[row.tsFile := Value(mark, File(row.tsFile)) + 1];
      marks := marks[row.package := PackageMark(mark.total + 1, byFile)];
    }
    assert rows[..|rows|] == rows;
    MeasuredMeans(rows, marks);
  }

  // ------------------------------------------------------------------- reports

  datatype Violation = Violation(package: string, dimension: Dimension, mark: nat, current: nat)

  /** The package is one the gate compares: gated, marked and measured. */
  predicate Compared(gated: seq<string>, marks: Marks, current: Marks, p: string) {
    p in gated && p in marks && p in current
  }

  /** `report` lists exactly the compared dimensions `wanted` picks by their mark and measurement. */
  ghost predicate Reports(gated: seq<string>, marks: Marks, current: Marks,
                          wanted: (nat, nat) -> bool, report: seq<Violation>) {
    && (forall v :: v in report ==>
          && Compared(gated, marks, current, v.package)
          && v.mark == Value(marks[v.package], v.dimension) && v.current == Value(current[v.package], v.dimension)
          && wanted(v.mark, v.current))
    && (forall p, d :: Compared(gated, marks, current, p) && wanted(Value(marks[p], d), Value(current[p], d)) ==>
          Violation(p, d, Value(marks[p], d), Value(current[p], d)) in report)
  }

  predicate Grew(mark: nat, current: nat) { current > mark }

  predicate Slack(mark: nat, current: nat) { current < mark }

  /** A set's names in some order, each once. */
  ghost function Listing(names: set<string>): (list: seq<string>)
    ensures Distinct(list) && forall f :: f in list <==> f in names
  {
    if names == {} then []
    else
      var f :| f in names;
      Listing(names - {f}) + [f]
  }

  /** The compared dimensions of one package: the total, then each file either side knows, in order. */
  ghost function DimensionsOf(mark: PackageMark, now: PackageMark): seq<Dimension> {
    [Total] + Files(SortStrings(Listing(mark.byFile.Keys + now.byFile.Keys)))
  }

  function Files(names: seq<string>): seq<Dimension> {
    seq(|names|, i requires 0 <= i < |names| => File(names[i]))
  }

  method Listed(names: set<string>) returns (list: seq<string>)
    ensures Distinct(list) && forall f :: f in list <==> f in names
  {
    list := [];
    var rest := names;
    while rest != {}
      invariant rest <= names
      invariant Distinct(list) && forall f :: f in list <==> f in names - rest
      decreases |rest|
    {
      var f :| f in rest;
      assert f !in list;
      list, rest := list + [f], rest - {f};
    }
  }

  method Dimensions(mark: PackageMark, now: PackageMark) returns (dims: seq<Dimension>)
    ensures dims == DimensionsOf(mark, now)
  {
    hide SortStrings, Listing;
    var files := Listed(mark.byFile.Keys + now.byFile.Keys);
    ghost var listing := Listing(mark.byFile.Keys + now.byFile.Keys);
    SameMembersSameCounts(files, listing);
    SortStringsIgnoresOrder(files, listing);
    dims := [Total] + Files(SortStrings(files));
  }

  /** Every dimension on which mark and measurement differ is compared. */
  lemma DifferingAreCompared(mark: PackageMark, now: PackageMark, d: Dimension)
    requires Value(mark, d) != Value(now, d)
    ensures d in DimensionsOf(mark, now)
  {
    hide SortStrings, Listing;
    if d.File? {
      var files := Listing(mark.byFile.Keys + now.byFile.Keys);
      var sorted := SortStrings(files);
      SameElements(sorted, files);
      var i :| 0 <= i < |sorted| && sorted[i] == d.name;
      assert DimensionsOf(mark, now)[i + 1] == d;
    } else {
      assert DimensionsOf(mark, now)[0] == d;
    }
  }

  /** The violation of one dimension, as a report prints it. */
  function Report(p: string, mark: PackageMark, now: PackageMark, d: Dimension): Violation {
    Violation(p, d, Value(mark, d), Value(now, d))
  }

  /** The violations among some dimensions of a package, in order. */
  function Among(p: string, mark: PackageMark, now: PackageMark,
                 wanted: (nat, nat) -> bool, dims: seq<Dimension>): (r: seq<Violation>)
    ensures forall v :: v in r ==> v == Report(p, mark, now, v.dimension) && wanted(v.mark, v.current)
    ensures forall d :: d in dims && wanted(Value(mark, d), Value(now, d)) ==> Report(p, mark, now, d) in r
  {
    if dims == [] then []
    else
      var init, d := dims[..|dims| - 1], dims[|dims| - 1];
      assert forall x :: x in dims <==> x in init || x == d;
      Among(p, mark, now, wanted, init)
      + if wanted(Value(mark, d), Value(now, d)) then [Report(p, mark, now, d)] else []
  }

  /** The whole report: package by package as they are gated, each dimension in its order. */
  ghost function Violations(gated: seq<string>, marks: Marks, current: Marks,
                            wanted: (nat, nat) -> bool): seq<Violation> {
    if gated == [] then []
    else
      var p := gated[|gated| - 1];
      Violations(gated[..|gated| - 1], marks, current, wanted)
      + if p in marks && p in current
        then Among(p, marks[p], current[p], wanted, DimensionsOf(marks[p], current[p])) else []
  }

  method ComparePackage(p: string, mark: PackageMark, now: PackageMark, wanted: (nat, nat) -> bool)
      returns (report: seq<Violation>)
    ensures report == Among(p, mark, now, wanted, DimensionsOf(mark, now))
  {
    hide Value, DimensionsOf;
    var dims := Dimensions(mark, now);
    report := [];
    for j := 0 to |dims|
      invariant report == Among(p, mark, now, wanted, dims[..j])
    {
      assert dims[..j + 1][..j] == dims[..j];
      if wanted(Value(mark, dims[j]), Value(now, dims[j])) {
        report := report + [Report(p, mark, now, dims[j])];
      }
    }
    assert dims[..|dims|] == dims;
  }

  method Compare(gated: seq<string>, marks: Marks, current: Marks, wanted: (nat, nat) -> bool)
      returns (report: seq<Violation>)
    ensures report == Violations(gated, marks, current, wanted)
  {
    hide Value, Among, DimensionsOf;
    report := [];
    for i := 0 to |gated|
      invariant report == Violations(gated[..i], marks, current, wanted)
    {
      var p := gated[i];
      assert gated[..i + 1][..i] == gated[..i];
      if p !in marks || p !in current {
        continue;
      }
      var more := ComparePackage(p, marks[p], current[p], wanted);
      report := report + more;
    }
    assert gated[..|gated|] == gated;
  }

  /** The report lists exactly the compared dimensions that are wanted, with both values. */
  lemma {:induction false} ViolationsReport(gated: seq<string>, marks: Marks, current: Marks,
                                            wanted: (nat, nat) -> bool)
    requires forall n :: !wanted(n, n)
    ensures Reports(gated, marks, current, wanted, Violations(gated, marks, current, wanted))
  {
    hide Value, Among, DimensionsOf, Reports;
    if gated == [] {
      NothingReported(gated, marks, current, wanted, []);
    } else {
      var done, p := gated[..|gated| - 1], gated[|gated| - 1];
      ViolationsReport(done, marks, current, wanted);
      assert forall q :: q in gated <==> q in done || q == p;
      var report := Violations(done, marks, current, wanted);
      if p in marks && p in current {
        var dims := DimensionsOf(marks[p], current[p]);
        forall d | wanted(Value(marks[p], d), Value(current[p], d)) ensures d in dims {
          DifferingAreCompared(marks[p], current[p], d);
        }
        AnotherPackage(done, gated, p, marks, current, wanted, report, Among(p, marks[p], current[p], wanted, dims));
      } else {
        SkippedPackage(done, gated, p, marks, current, wanted, report);
        assert report + [] == report;
      }
    }
  }

  lemma NothingReported(gated: seq<string>, marks: Marks, current: Marks,
                        wanted: (nat, nat) -> bool, report: seq<Violation>)
    requires gated == [] && report == []
    ensures Reports(gated, marks, current, wanted, report)
  {
  }

  lemma SkippedPackage(done: seq<string>, next: seq<string>, p: string, marks: Marks, current: Marks,
                       wanted: (nat, nat) -> bool, report: seq<Violation>)
    requires forall q :: q in next <==> q in done || q == p
    requires (p !in marks || p !in current) && Reports(done, marks, current, wanted, report)
    ensures Reports(next, marks, current, wanted, report)
  {
    hide Value;
    assert forall q :: Compared(next, marks, current, q) <==> Compared(done, marks, current, q);
  }

  lemma AnotherPackage(done: seq<string>, next: seq<string>, p: string, marks: Marks, current: Marks,
                       wanted: (nat, nat) -> bool, report: seq<Violation>, more: seq<Violation>)
    requires forall q :: q in next <==> q in done || q == p
    requires p in marks && p in current && Reports(done, marks, current, wanted, report)
    requires forall v :: v in more ==> v == Report(p, marks[p], current[p], v.dimension) && wanted(v.mark, v.current)
    requires forall d :: wanted(Value(marks[p], d), Value(current[p], d)) ==> Report(p, marks[p], current[p], d) in more
    ensures Reports(next, marks, current, wanted, report + more)
  {
    hide Value;
    forall q, d | Compared(next, marks, current, q) && wanted(Value(marks[q], d), Value(current[q], d))
      ensures Violation(q, d, Value(marks[q], d), Value(current[q], d)) in report + more
    {
      if q == p {
        assert Report(p, marks[p], current[p], d) in more;
      } else {
        assert Compared(done, marks, current, q);
      }
    }
  }

  /** The violations are of the dimensions at these ascending positions. */
  ghost predicate StandIn(report: seq<Violation>, at: seq<nat>, dims: seq<Dimension>) {
    && |at| == |report| && (forall k :: 0 <= k < |at| ==> at[k] < |dims| && report[k].dimension == dims[at[k]])
    && forall j, k :: 0 <= j < k < |at| ==> at[j] < at[k]
  }

  lemma {:induction false} AmongInOrder(p: string, mark: PackageMark, now: PackageMark, wanted: (nat, nat) -> bool,
                                        dims: seq<Dimension>) returns (at: seq<nat>)
    ensures StandIn(Among(p, mark, now, wanted, dims), at, dims)
  {
    hide Value;
    at := [];
    if dims != [] {
      var init, d := dims[..|dims| - 1], dims[|dims| - 1];
      at := AmongInOrder(p, mark, now, wanted, init);
      if wanted(Value(mark, d), Value(now, d)) { at := at + [|dims| - 1]; }
    }
  }

  /** Files come after the total, in ascending order. */
  predicate Precedes(d: Dimension, e: Dimension) {
    e.File? && (d.File? ==> StringLe(d.name, e.name) && d.name != e.name)
  }

  /** A package's total stands before its files, and those stand in ascending order. */
  lemma DimensionsAscend(mark: PackageMark, now: PackageMark, a: nat, b: nat)
    requires a < b < |DimensionsOf(mark, now)|
    ensures Precedes(DimensionsOf(mark, now)[a], DimensionsOf(mark, now)[b])
    ensures var d, e := DimensionsOf(mark, now)[a], DimensionsOf(mark, now)[b];
            e.File? && (d.File? ==> StringLe(d.name, e.name) && d.name != e.name)
  {
    hide Listing;
    var files := Listing(mark.byFile.Keys + now.byFile.Keys);
    StringOrder(files);
    SortBySorted(StringLe, files);
    DistinctSurvives(files, SortStrings(files));
    hide StringLe, SortBy;
  }

  /** Reports go package by package as they are gated, in each the total before the files, those ascending. */
  lemma {:induction false} ViolationsInOrder(gated: seq<string>, marks: Marks, current: Marks,
                                             wanted: (nat, nat) -> bool) returns (at: seq<nat>)
    ensures var report := Violations(gated, marks, current, wanted);
            && |at| == |report|
            && (forall k :: 0 <= k < |at| ==> at[k] < |gated| && report[k].package == gated[at[k]])
            && (forall j, k :: 0 <= j < k < |at| ==> at[j] <= at[k])
            && forall j, k :: 0 <= j < k < |at| && at[j] == at[k] ==> Precedes(report[j].dimension, report[k].dimension)
  {
    hide Value, Among, DimensionsOf, Precedes;
    at := [];
    if gated != [] {
      var done, p := gated[..|gated| - 1], gated[|gated| - 1];
      at := ViolationsInOrder(done, marks, current, wanted);
      if p in marks && p in current {
        var dims := DimensionsOf(marks[p], current[p]);
        var more := Among(p, marks[p], current[p], wanted, dims);
        var picked := AmongInOrder(p, marks[p], current[p], wanted, dims);
        PackageInOrder(marks[p], current[p], more, picked);
        assert forall v :: v in more ==> v.package == p;
        at := at + seq(|more|, i => |gated| - 1);
      }
    }
  }

  lemma PackageInOrder(mark: PackageMark, now: PackageMark, report: seq<Violation>, at: seq<nat>)
    requires StandIn(report, at, DimensionsOf(mark, now))
    ensures forall j, k :: 0 <= j < k < |report| ==> Precedes(report[j].dimension, report[k].dimension)
  {
    hide DimensionsOf, StringLe;
    forall j, k | 0 <= j < k < |report| ensures Precedes(report[j].dimension, report[k].dimension) {
      DimensionsAscend(mark, now, at[j], at[k]);
    }
  }

  /** The violation holds both sides' values on a package all three inputs know. */
  predicate Concerns(gated: seq<string>, marks: Marks, current: Marks, v: Violation) {
    && v.package in gated && v.package in marks && v.package in current
    && match v.dimension
       case Total => v.mark == marks[v.package].total && v.current == current[v.package].total
       case File(f) =>
         && v.mark == (if f in marks[v.package].byFile then marks[v.package].byFile[f] else 0)
         && v.current == (if f in current[v.package].byFile then current[v.package].byFile[f] else 0)
  }

  /** What a report holds, read off the marks and the measurement. */
  lemma ReportMeans(gated: seq<string>, marks: Marks, current: Marks, wanted: (nat, nat) -> bool,
                    report: seq<Violation>)
    requires Reports(gated, marks, current, wanted, report)
    ensures forall v :: v in report <==> Concerns(gated, marks, current, v) && wanted(v.mark, v.current)
  {
    forall v ensures v in report <==> Concerns(gated, marks, current, v) && wanted(v.mark, v.current) {
      assert v == Violation(v.package, v.dimension, v.mark, v.current);
      if Concerns(gated, marks, current, v) {
        assert v.mark == Value(marks[v.package], v.dimension) && v.current == Value(current[v.package], v.dimension);
        assert Compared(gated, marks, current, v.package);
      }
    }
  }

  /** Every dimension that grew past its mark; empty means the gate passes. */
  method Exceedances(gated: seq<string>, marks: Marks, current: Marks) returns (report: seq<Violation>)
    ensures report == Violations(gated, marks, current, Grew)
    ensures Reports(gated, marks, current, Grew, report)
    ensures forall v :: v in report <==> Concerns(gated, marks, current, v) && v.current > v.mark
  {
    report := Compare(gated, marks, current, Grew);
    ViolationsReport(gated, marks, current, Grew);
    ReportMeans(gated, marks, current, Grew, report);
    hide Concerns, Reports, Violations, Value;
  }

  /** Every mark left above its measurement. */
  method StaleMarks(gated: seq<string>, marks: Marks, current: Marks) returns (report: seq<Violation>)
    ensures report == Violations(gated, marks, current, Slack)
    ensures Reports(gated, marks, current, Slack, report)
    ensures forall v :: v in report <==> Concerns(gated, marks, current, v) && v.current < v.mark
  {
    report := Compare(gated, marks, current, Slack);
    ViolationsReport(gated, marks, current, Slack);
    ReportMeans(gated, marks, current, Slack, report);
    hide Concerns, Reports, Violations, Value;
  }

  // ---------------------------------------------------------------- tightening

  function Min(a: nat, b: nat): nat { if a <= b then a else b }

  /** `next` is the marks lowered to the measurement wherever that is lower, and nowhere else changed. */
  ghost predicate Narrowed(gated: seq<string>, marks: Marks, current: Marks, next: Marks) {
    && next.Keys == marks.Keys
    && (forall p :: p in marks && !Compared(gated, marks, current, p) ==> next[p] == marks[p])
    && (forall p, d :: Compared(gated, marks, current, p) ==>
      Value(next[p], d) == Min(Value(marks[p], d), Value(current[p], d)))
  }

  method NarrowFiles(mark: PackageMark, now: PackageMark) returns (byFile: map<string, nat>)
    ensures forall f :: f in byFile ==> f in mark.byFile && byFile[f] > 0
    ensures forall d :: Value(PackageMark(Min(mark.total, now.total), byFile), d) == Min(Value(mark, d), Value(now, d))
  {
    byFile := map[];
    var rest := mark.byFile.Keys;
    while rest != {}
      invariant rest <= mark.byFile.Keys
      invariant forall f :: f in byFile ==> f in mark.byFile && f !in rest && byFile[f] > 0
      invariant forall f :: f in mark.byFile && f !in rest ==>
        (if f in byFile then byFile[f] else 0) == Min(mark.byFile[f], Value(now, File(f)))
      decreases |rest|
    {
      hide Min, Value;
      var f :| f in rest;
      var narrowed := Min(mark.byFile[f], Value(now, File(f)));
      if narrowed > 0 { byFile := byFile[f := narrowed]; }
      rest := rest - {f};
    }
  }

  lemma NarrowedMeans(gated: seq<string>, marks: Marks, current: Marks, next: Marks)
    requires Narrowed(gated, marks, current, next)
    ensures forall p | p in marks && p in gated && p in current ::
              && next[p].total <= marks[p].total && next[p].total <= current[p].total
              && (next[p].total == marks[p].total || next[p].total == current[p].total)
              && forall f | f in marks[p].byFile ::
                   var mark, now := marks[p].byFile[f], if f in current[p].byFile then current[p].byFile[f] else 0;
                   (if f in next[p].byFile then next[p].byFile[f] else 0) == if now < mark then now else mark
  {
    forall p | p in marks && p in gated && p in current
      ensures next[p].total == Min(marks[p].total, current[p].total)
      ensures forall f | f in marks[p].byFile ::
                var mark, now := marks[p].byFile[f], if f in current[p].byFile then current[p].byFile[f] else 0;
                (if f in next[p].byFile then next[p].byFile[f] else 0) == if now < mark then now else mark
    {
      assert Compared(gated, marks, current, p);
      assert Value(next[p], Total) == Min(Value(marks[p], Total), Value(current[p], Total));
      forall f | f in marks[p].byFile
        ensures (if f in next[p].byFile then next[p].byFile[f] else 0) ==
          Min(marks[p].byFile[f], if f in current[p].byFile then current[p].byFile[f] else 0)
      {
        assert Value(next[p], File(f)) == Min(Value(marks[p], File(f)), Value(current[p], File(f)));
      }
    }
  }

  method Tightened(gated: seq<string>, marks: Marks, current: Marks) returns (next: Marks)
    ensures Narrowed(gated, marks, current, next)
    ensures next.Keys == marks.Keys
    ensures forall p :: p in marks && (p !in gated || p !in current) ==> next[p] == marks[p]
    ensures forall p | p in marks && p in gated && p in current ::
              && next[p].total <= marks[p].total && next[p].total <= current[p].total
              && (next[p].total == marks[p].total || next[p].total == current[p].total)
              && forall f | f in marks[p].byFile ::
                   var mark, now := marks[p].byFile[f], if f in current[p].byFile then current[p].byFile[f] else 0;
                   (if f in next[p].byFile then next[p].byFile[f] else 0) == if now < mark then now else mark
    ensures forall p, f | p in marks && p in gated && p in current && f in next[p].byFile ::
              f in marks[p].byFile && next[p].byFile[f] > 0
  {
    next := NarrowAll(gated, marks, current);
    NarrowedMeans(gated, marks, current, next);
    hide Value, Min;
  }

  method NarrowAll(gated: seq<string>, marks: Marks, current: Marks) returns (next: Marks)
    ensures Narrowed(gated, marks, current, next)
    ensures forall p, f | p in marks && p in gated && p in current && f in next[p].byFile ::
              f in marks[p].byFile && next[p].byFile[f] > 0
  {
    next := marks;
    for i := 0 to |gated|
      invariant Narrowed(gated[..i], marks, current, next)
      invariant forall p, f | p in marks && p in gated[..i] && p in current && f in next[p].byFile ::
        f in marks[p].byFile && next[p].byFile[f] > 0
    {
      var p := gated[i];
      assert forall q :: q in gated[..i + 1] <==> q in gated[..i] || q == p;
      if p !in marks || p !in current {
        continue;
      }
      var byFile := NarrowFiles(marks[p], current[p]);
      next := next[p := PackageMark(Min(marks[p].total, current[p].total), byFile)];
    }
    assert gated[..|gated|] == gated;
  }

  /** Tightening never launders a regression: what exceeded its mark before still does, by as much, and
      nothing new does; and it leaves no slack behind. */
  lemma TighteningKeepsExceedances(gated: seq<string>, marks: Marks, current: Marks, next: Marks,
                                   before: seq<Violation>, after: seq<Violation>, slack: seq<Violation>)
    requires Narrowed(gated, marks, current, next)
    requires Reports(gated, marks, current, Grew, before)
    requires Reports(gated, next, current, Grew, after) && Reports(gated, next, current, Slack, slack)
    ensures forall v :: v in after <==> v in before
    ensures slack == []
  {
    hide Value;
    forall v ensures v in after <==> v in before {
      if Compared(gated, marks, current, v.package) {
        var p, d := v.package, v.dimension;
        assert Value(next[p], d) == Min(Value(marks[p], d), Value(current[p], d));
      }
    }
    forall v ensures v !in slack {
      if Compared(gated, marks, current, v.package) {
        var p, d := v.package, v.dimension;
        assert Value(next[p], d) == Min(Value(marks[p], d), Value(current[p], d));
      }
    }
    NonEmpty(slack);
  }

  /** At a green state tightening empties both reports. */
  lemma GreenTighteningEmptiesReports(gated: seq<string>, marks: Marks, current: Marks, next: Marks,
                                      after: seq<Violation>, slack: seq<Violation>)
    requires Narrowed(gated, marks, current, next) && Reports(gated, marks, current, Grew, [])
    requires Reports(gated, next, current, Grew, after) && Reports(gated, next, current, Slack, slack)
    ensures after == [] && slack == []
  {
    TighteningKeepsExceedances(gated, marks, current, next, [], after, slack);
    NonEmpty(after);
  }

  // ------------------------------------------------------------------- history

  /** What happens to the committed mark: a merge the gate let through, or a tightening. */
  datatype Event = Merge(measured: Marks) | Tighten(measured: Marks)

  /** `states` is a run of the ratchet: each merge is green and leaves the mark, each tightening narrows it. */
  ghost predicate Run(gated: seq<string>, states: seq<Marks>, events: seq<Event>) {
    |states| == |events| + 1 && forall i :: 0 <= i < |events| ==> Step(gated, states[i], events[i], states[i + 1])
  }

  ghost predicate Step(gated: seq<string>, marks: Marks, event: Event, next: Marks) {
    match event
    case Merge(m) => Reports(gated, marks, m, Grew, []) && next == marks
    case Tighten(m) => Narrowed(gated, marks, m, next)
  }

  lemma RunBegins(gated: seq<string>, seed: Marks)
    ensures Run(gated, [seed], [])
  {
  }

  /** A history begins at any marks, and goes on with any green merge and any tightening. */
  lemma RunGoesOn(gated: seq<string>, states: seq<Marks>, events: seq<Event>, seed: Marks, event: Event, next: Marks)
    requires Run(gated, states, events)
    requires var marks := states[|events|];
             match event
             case Merge(m) => next == marks && forall v :: Concerns(gated, marks, m, v) ==> v.current <= v.mark
             case Tighten(m) => Narrowed(gated, marks, m, next)
    ensures Run(gated, [seed], []) && Run(gated, states + [next], events + [event])
  {
    RunBegins(gated, seed);
    var marks := states[|events|];
    if event.Merge? {
      var m := event.measured;
      forall p, d | Compared(gated, marks, m, p) ensures Value(m[p], d) <= Value(marks[p], d) {
        var v := Violation(p, d, Value(marks[p], d), Value(m[p], d));
        assert Concerns(gated, marks, m, v);
      }
    }
    hide Narrowed, Reports;
    assert Step(gated, marks, event, next) by { if event.Merge? { GreenReports(gated, marks, event.measured); } }
    hide Step;
    var more, all := states + [next], events + [event];
    forall i | 0 <= i < |all| ensures Step(gated, more[i], all[i], more[i + 1]) {
      if i < |events| { assert Step(gated, states[i], events[i], states[i + 1]); }
    }
  }

  lemma GreenReports(gated: seq<string>, marks: Marks, m: Marks)
    requires forall p, d :: Compared(gated, marks, m, p) ==> Value(m[p], d) <= Value(marks[p], d)
    ensures Reports(gated, marks, m, Grew, [])
  {
  }

  /** The least of a seed value and what the first `n` events' tightenings measured. */
  function Lowest(gated: seq<string>, seed: PackageMark, events: seq<Event>, n: nat, p: string, d: Dimension): nat
    requires n <= |events|
  {
    if n == 0 then Value(seed, d)
    else
      var sofar := Lowest(gated, seed, events, n - 1, p, d);
      match events[n - 1]
      case Merge(_) => sofar
      case Tighten(m) => if p in gated && p in m then Min(sofar, Value(m[p], d)) else sofar
  }

  /** After any history of gated merges and tightenings a mark is the pointwise minimum of its seed and
      every measurement it was tightened to. */
  lemma {:induction false} MarkIsMinimum(gated: seq<string>, states: seq<Marks>, events: seq<Event>, n: nat,
                                         p: string, d: Dimension)
    requires Run(gated, states, events) && n <= |events| && p in states[0]
    ensures p in states[n] && Value(states[n][p], d) == Lowest(gated, states[0][p], events, n, p, d)
  {
    hide Value;
    if n > 0 {
      MarkIsMinimum(gated, states, events, n - 1, p, d);
      assert Step(gated, states[n - 1], events[n - 1], states[n - 1 + 1]);
    }
  }

  /** Whatever a green merge measured, it was no more than the seed and every measurement tightened to before it. */
  lemma MergesNeverExceedHistory(gated: seq<string>, states: seq<Marks>, events: seq<Event>, n: nat, p: string,
                                 d: Dimension)
    requires Run(gated, states, events) && n < |events| && events[n].Merge?
    requires p in gated && p in states[0] && p in events[n].measured
    ensures Value(events[n].measured[p], d) <= Lowest(gated, states[0][p], events, n, p, d)
  {
    hide Value;
    MarkIsMinimum(gated, states, events, n, p, d);
    assert Step(gated, states[n], events[n], states[n + 1]);
    var m := events[n].measured;
    assert Compared(gated, states[n], m, p);
    assert Violation(p, d, Value(states[n][p], d), Value(m[p], d)) !in [];
  }
}
