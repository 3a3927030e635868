/** CsvParser: derives the cleaned and temporary file names from the raw
    file's, repairs two corrupted annotations line by line, blanks "NA" in the
    DistanceFromStop and ExpectedArrivalTime columns, drops rows whose
    coordinates are unusable, and skips all of this when a cleaned file exists. */
module CsvCleaning {
  import opened Text
  import opened Lists
  import opened BusRecords

  // ---------------------------------------------------------------- String.indexOf and String.replace

  /** t occurs in s starting at k. */
  predicate OccursAt(s: string, t: string, k: int)
  {
    0 <= k && k + |t| <= |s| && s[k..k + |t|] == t
  }

  /** t occurs nowhere in s. */
  ghost predicate Absent(s: string, t: string)
  {
    forall k :: !OccursAt(s, t, k)
  }

  lemma OccursShift(s: string, t: string, k: int)
    requires |s| > 0 && 0 <= k
    ensures OccursAt(s, t, k + 1) <==> OccursAt(s[1..], t, k)
  {
    if k + 1 + |t| <= |s| {
      assert s[k + 1..k + 1 + |t|] == s[1..][k..k + |t|];
    }
  }

  /** String.indexOf: the first position where t occurs, if any. */
  function IndexOf(s: string, t: string): (r: Option<nat>)
    ensures r.Some? ==> r.value + |t| <= |s|
  {
    if |s| < |t| then None
    else if s[..|t|] == t then Some(0)
    else
      var rest := IndexOf(s[1..], t);
      if rest.None? then None else Some(rest.value + 1)
  }

  /** IndexOf finds the first occurrence, and finds one whenever there is one. */
  lemma {:induction false} IndexOfMeaning(s: string, t: string)
    ensures IndexOf(s, t).Some? ==>
      OccursAt(s, t, IndexOf(s, t).value) && forall j :: 0 <= j < IndexOf(s, t).value ==> !OccursAt(s, t, j)
    ensures IndexOf(s, t).None? ==> Absent(s, t)
  {
    if |s| >= |t| && s[..|t|] != t {
      IndexOfMeaning(s[1..], t);
      forall k | k >= 1 ensures OccursAt(s, t, k) <==> OccursAt(s[1..], t, k - 1) {
        OccursShift(s, t, k - 1);
      }
    }
  }

  /** String.replace(target, replacement): every occurrence, left to right,
      each search resuming after the previous match. */
  function Replace(s: string, t: string, r: string): string
    requires |t| > 0
    decreases |s|
  {
    if IndexOf(s, t).None? then s
    else
      var i := IndexOf(s, t).value;
      s[..i] + r + Replace(s[i + |t|..], t, r)
  }

  /** A string without the target comes back unchanged. */
  lemma ReplaceAbsent(s: string, t: string, r: string)
    requires |t| > 0 && Absent(s, t)
    ensures Replace(s, t, r) == s
  {
    IndexOfMeaning(s, t);
  }

  /** a and b agree on their common length. */
  predicate Compatible(a: string, b: string)
  {
    forall i :: 0 <= i < |a| && i < |b| ==> a[i] == b[i]
  }

  /** No occurrence of u can overlap an inserted r without lying inside it,
      and none lies inside it: every placement of u against r disagrees. */
  predicate Separable(u: string, r: string)
  {
    && (forall j {:trigger Compatible(u[j..], r)} :: 0 <= j < |u| ==> !Compatible(u[j..], r))
    && (forall k {:trigger Compatible(r[k..], u)} :: 0 < k < |r| ==> !Compatible(r[k..], u))
  }

  /** Occurrences inside a slice are the occurrences in the whole string that fit in it. */
  lemma OccursInSlice(s: string, u: string, lo: int, hi: int, j: int)
    requires 0 <= lo <= hi <= |s|
    ensures OccursAt(s[lo..hi], u, j) <==> j >= 0 && lo + j + |u| <= hi && OccursAt(s, u, lo + j)
  {
    if j >= 0 && lo + j + |u| <= hi {
      var inner, outer := s[lo..hi][j..j + |u|], s[lo + j..lo + j + |u|];
      forall m | 0 <= m < |u| ensures inner[m] == outer[m] {
        assert s[lo..hi][j + m] == s[lo + j + m];
      }
      assert inner == outer;
    }
  }

  /** One step of Replace: the text before the first t, then r, then the rest replaced. */
  lemma ReplaceStep(s: string, t: string, r: string)
    requires |t| > 0 && IndexOf(s, t).Some?
    ensures Replace(s, t, r) == s[..IndexOf(s, t).value] + r + Replace(s[IndexOf(s, t).value + |t|..], t, r)
  {
  }

  /** The text before the first t holds no t. */
  lemma BeforeFirst(s: string, t: string)
    requires |t| > 0 && IndexOf(s, t).Some?
    ensures Absent(s[..IndexOf(s, t).value], t)
  {
    IndexOfMeaning(s, t);
    AbsentInSlice(s, t, 0, IndexOf(s, t).value);
  }

  /** The pieces of s either side of a slice hold no u that s does not hold. */
  lemma AbsentAround(s: string, u: string, i: nat, j: nat)
    requires i <= j <= |s| && Absent(s, u)
    ensures Absent(s[..i], u) && Absent(s[j..], u)
  {
    assert s[j..] == s[j..|s|];
    AbsentInSlice(s, u, 0, i);
    AbsentInSlice(s, u, j, |s|);
  }

  /** Replacing t by r leaves no t behind, when no t can be formed across an inserted r. */
  lemma {:induction false} ReplaceLeavesNone(s: string, t: string, r: string)
    requires |t| > 0 && Separable(t, r)
    ensures Absent(Replace(s, t, r), t)
    decreases |s|
  {
    if IndexOf(s, t).Some? {
      var i := IndexOf(s, t).value;
      ReplaceStep(s, t, r);
      BeforeFirst(s, t);
      ReplaceLeavesNone(s[i + |t|..], t, r);
      InsertedAbsent(s[..i], r, Replace(s[i + |t|..], t, r), t);
    } else {
      IndexOfMeaning(s, t);
    }
  }

  /** Replacing t by r creates no u that was absent, when no u can be formed
      across an inserted r. */
  lemma {:induction false} ReplaceKeepsAbsent(s: string, t: string, r: string, u: string)
    requires |t| > 0 && |u| > 0 && Separable(u, r) && Absent(s, u)
    ensures Absent(Replace(s, t, r), u)
    decreases |s|
  {
    if IndexOf(s, t).Some? {
      var i := IndexOf(s, t).value;
      ReplaceStep(s, t, r);
      AbsentAround(s, u, i, i + |t|);
      ReplaceKeepsAbsent(s[i + |t|..], t, r, u);
      InsertedAbsent(s[..i], r, Replace(s[i + |t|..], t, r), u);
    }
  }

  /** Inserting r between two pieces without u creates no u. */
  lemma InsertedAbsent(p: string, r: string, tail: string, u: string)
    requires |u| > 0 && Separable(u, r) && Absent(p, u) && Absent(tail, u)
    ensures Absent(p + r + tail, u)
  {
    forall k ensures !OccursAt(p + r + tail, u, k) {
      InsertedAbsentAt(p, r, tail, u, k);
    }
  }

  /** A slice holds no u when no occurrence of u fits inside its bounds. */
  lemma AbsentInSlice(s: string, u: string, lo: int, hi: int)
    requires 0 <= lo <= hi <= |s|
    requires forall k :: lo <= k && k + |u| <= hi ==> !OccursAt(s, u, k)
    ensures Absent(s[lo..hi], u)
  {
    forall j ensures !OccursAt(s[lo..hi], u, j) {
      OccursInSlice(s, u, lo, hi, j);
    }
  }

  /** Inserting r between two pieces without u creates no u at k. */
  lemma InsertedAbsentAt(p: string, r: string, tail: string, u: string, k: int)
    requires |u| > 0 && Separable(u, r) && Absent(p, u) && Absent(tail, u)
    ensures !OccursAt(p + r + tail, u, k)
  {
    var out := p + r + tail;
    if 0 <= k && k + |u| <= |out| {
      if k + |u| <= |p| {
        assert out[k..k + |u|] == p[k..k + |u|];
        assert !OccursAt(p, u, k);
      } else if k < |p| {
        var j := |p| - k;
        assert !Compatible(u[j..], r);
        var i :| 0 <= i < |u[j..]| && i < |r| && u[j..][i] != r[i];
        assert out[k + j + i] == r[i];
        assert out[k..k + |u|][j + i] != u[j + i];
      } else if k == |p| {
        assert u[0..] == u;
        assert !Compatible(u[0..], r);
        var i :| 0 <= i < |u| && i < |r| && u[i] != r[i];
        assert out[k..k + |u|][i] != u[i];
      } else if k < |p| + |r| {
        var m := k - |p|;
        assert !Compatible(r[m..], u);
        var i :| 0 <= i < |r[m..]| && i < |u| && r[m..][i] != u[i];
        assert out[k..k + |u|][i] != u[i];
      } else {
        var q := k - |p| - |r|;
        assert out[k..k + |u|] == tail[q..q + |u|];
        assert !OccursAt(tail, u, q);
      }
    }
  }

  /** A u opening with " (" (its only '(') against an r opening with '(' (its
      only one) and not ending in a space: u can only line up with r from u's
      own '(' on, and then differs from r at d. */
  lemma SeparableByParenthesis(ut: string, rt: string, d: nat)
    requires '(' !in ut && '(' !in rt && |rt| > 0 && rt[|rt| - 1] != ' '
    requires d < |rt| + 1 && d < |ut| + 1 && (" (" + ut)[d + 1] != ("(" + rt)[d]
    ensures Separable(" (" + ut, "(" + rt)
  {
    var u, r := " (" + ut, "(" + rt;
    forall j | 0 <= j < |u| ensures !Compatible(u[j..], r) {
      if j == 0 {
        assert u[j..][0] != r[0];
      } else if j == 1 {
        assert u[j..][d] != r[d];
      } else {
        assert u[j] == ut[j - 2];
        assert u[j..][0] != r[0];
      }
    }
    forall k | 0 < k < |r| ensures !Compatible(r[k..], u) {
      if r[k] != ' ' {
        assert r[k..][0] != u[0];
      } else {
        assert r[k + 1] == rt[k];
        assert r[k..][1] != u[1];
      }
    }
  }

  // ---------------------------------------------------------------- the line repair

  /** Some raw rows carry an annotation with a stray comma, which splits one
      column in two; both spellings are rewritten to a comma-free form. */
  /** Each written as its opening and the rest, the form SeparableByParenthesis takes. */
  const CorruptAnnotation: string := " (" + " non-public,for GEO)"
  const CorruptAnnotationShort: string := " (" + "non-public,for GEO)"
  const RepairedAnnotation: string := "(" + "non-public for GEO)"

  lemma CorruptAnnotationSeparable()
    ensures Separable(CorruptAnnotation, RepairedAnnotation)
  {
    SeparableByParenthesis(" non-public,for GEO)", "non-public for GEO)", 1);
  }

  lemma CorruptAnnotationShortSeparable()
    ensures Separable(CorruptAnnotationShort, RepairedAnnotation)
  {
    SeparableByParenthesis("non-public,for GEO)", "non-public for GEO)", 11);
  }

  /** The two replace calls applied to each data line, in their order. */
  function RepairLine(line: string): string
  {
    Replace(Replace(line, CorruptAnnotation, RepairedAnnotation), CorruptAnnotationShort, RepairedAnnotation)
  }

  /** A repaired line contains neither corrupted annotation. */
  lemma RepairLineClean(line: string)
    ensures Absent(RepairLine(line), CorruptAnnotation)
    ensures Absent(RepairLine(line), CorruptAnnotationShort)
  {
    CorruptAnnotationSeparable();
    CorruptAnnotationShortSeparable();
    var once := Replace(line, CorruptAnnotation, RepairedAnnotation);
    ReplaceLeavesNone(line, CorruptAnnotation, RepairedAnnotation);
    ReplaceKeepsAbsent(once, CorruptAnnotationShort, RepairedAnnotation, CorruptAnnotation);
    ReplaceLeavesNone(once, CorruptAnnotationShort, RepairedAnnotation);
  }

  /** Repairing a repaired line changes nothing, and a line without either
      annotation is left as it is. */
  lemma RepairLineIdempotent(line: string)
    ensures RepairLine(RepairLine(line)) == RepairLine(line)
    ensures Absent(line, CorruptAnnotation) && Absent(line, CorruptAnnotationShort) ==> RepairLine(line) == line
  {
    var w := RepairLine(line);
    RepairLineClean(line);
    ReplaceAbsent(w, CorruptAnnotation, RepairedAnnotation);
    ReplaceAbsent(w, CorruptAnnotationShort, RepairedAnnotation);
    if Absent(line, CorruptAnnotation) && Absent(line, CorruptAnnotationShort) {
      ReplaceAbsent(line, CorruptAnnotation, RepairedAnnotation);
      ReplaceAbsent(line, CorruptAnnotationShort, RepairedAnnotation);
    }
  }

  /** The line pass copies the header and this many data lines. */
  const NumRows: nat := 100000

  function Min(a: int, b: int): int { if a <= b then a else b }

  /** What the line pass writes to the cleaned file: the header verbatim, then
      the following lines repaired, at most NumRows of them. When the raw file
      has fewer lines, readLine returns null at the first missing one and the
      pass stops there (an empty file stops before the header). */
  function RepairedLines(lines: seq<string>): (written: seq<string>)
  {
    if |lines| == 0 then []
    else
      var n := Min(|lines| - 1, NumRows);
      [lines[0]] + seq(n, i requires 0 <= i < n => RepairLine(lines[i + 1]))
  }

  /** The cleaned file after the line pass: the header unchanged, each later
      line its raw line repaired and free of both corrupted annotations, and
      nothing past line NumRows. */
  lemma RepairedLinesFacts(lines: seq<string>)
    ensures |RepairedLines(lines)| == Min(|lines|, NumRows + 1)
    ensures |lines| > 0 ==> RepairedLines(lines)[0] == lines[0]
    ensures forall i :: 1 <= i < |RepairedLines(lines)| ==>
      RepairedLines(lines)[i] == RepairLine(lines[i])
      && Absent(RepairedLines(lines)[i], CorruptAnnotation)
      && Absent(RepairedLines(lines)[i], CorruptAnnotationShort)
  {
    var w := RepairedLines(lines);
    if |lines| > 0 {
      var n := Min(|lines| - 1, NumRows);
      var rest := seq(n, i requires 0 <= i < n => RepairLine(lines[i + 1]));
      assert w == [lines[0]] + rest;
      forall i | 1 <= i < |w|
        ensures w[i] == RepairLine(lines[i]) && Absent(w[i], CorruptAnnotation) && Absent(w[i], CorruptAnnotationShort)
      {
        assert w[i] == rest[i - 1];
        RepairLineClean(lines[i]);
      }
    }
  }

  /** The first try block of cleanData: the header, then NumRows repaired
      lines; complete is false when the raw file ran out first. */
  method RepairLines(lines: seq<string>) returns (written: seq<string>, complete: bool)
    ensures written == RepairedLines(lines)
    ensures complete <==> |lines| > NumRows
  {
    if |lines| == 0 {
      return [], false;
    }
    written := [lines[0]];
    for i := 0 to NumRows
      invariant i < |lines|
      invariant written == [lines[0]] + seq(i, j requires 0 <= j < i => RepairLine(lines[j + 1]))
    {
      if i + 1 >= |lines| {
        assert Min(|lines| - 1, NumRows) == i;
        return written, false;
      }
      var rawRow := lines[i + 1];
      rawRow := Replace(rawRow, CorruptAnnotation, RepairedAnnotation);
      rawRow := Replace(rawRow, CorruptAnnotationShort, RepairedAnnotation);
      written := written + [rawRow];
    }
    assert |lines| > NumRows;
    complete := true;
  }

  // ---------------------------------------------------------------- phase two: the row pass

  const LatitudeColumn: nat := 10
  const LongitudeColumn: nat := 11
  const DistanceFromStopColumn: nat := 14
  const ExpectedArrivalTimeColumn: nat := 15

  /** A Java double, as Double.parseDouble can produce one. */
  datatype JDouble = Finite(value: real) | NaN | PositiveInfinity | NegativeInfinity

  /** d > x as Java evaluates it: false whenever d is NaN. */
  predicate Above(d: JDouble, x: real)
  {
    match d
    case Finite(v) => v > x
    case PositiveInfinity => true
    case _ => false
  }

  /** d < x as Java evaluates it: false whenever d is NaN. */
  predicate Below(d: JDouble, x: real)
  {
    match d
    case Finite(v) => v < x
    case NegativeInfinity => true
    case _ => false
  }

  /** The range test of cleanRow does not fire for d: neither d > bound nor d < -bound. */
  predicate WithinBound(d: JDouble, bound: real)
  {
    !(Above(d, bound) || Below(d, -bound))
  }

  /** The range test lets through exactly the closed interval and NaN. */
  lemma WithinBoundMeaning(d: JDouble, bound: real)
    ensures WithinBound(d, bound) <==> d.NaN? || (d.Finite? && -bound <= d.value <= bound)
  {
  }

  function BlankNA(cell: string): string
  {
    if cell == "NA" then "" else cell
  }

  /** The row as cleanRow leaves it: "NA" becomes "" in the DistanceFromStop
      and ExpectedArrivalTime columns, as far as the row reaches them. */
  function Cleaned(row: seq<string>): seq<string>
  {
    seq(|row|, i requires 0 <= i < |row| =>
      if i == DistanceFromStopColumn || i == ExpectedArrivalTimeColumn then BlankNA(row[i]) else row[i])
  }

  /** Cleaning touches only the two columns, leaves no "NA" in them, keeps
      every other value they hold, and a second cleaning changes nothing. */
  lemma CleanedFacts(row: seq<string>)
    ensures |Cleaned(row)| == |row|
    ensures forall i :: 0 <= i < |row| && i != DistanceFromStopColumn && i != ExpectedArrivalTimeColumn ==>
      Cleaned(row)[i] == row[i]
    ensures forall i :: 0 <= i < |row| && (i == DistanceFromStopColumn || i == ExpectedArrivalTimeColumn) ==>
      Cleaned(row)[i] != "NA" && (row[i] != "NA" ==> Cleaned(row)[i] == row[i])
    ensures Cleaned(Cleaned(row)) == Cleaned(row)
  {
  }

  datatype RowOutcome = Accepted | Rejected | Crashed

  /** Both coordinates parse and pass the range test. */
  predicate CoordinatesAccepted(row: seq<string>, parse: string -> Option<JDouble>)
    requires |row| > LongitudeColumn
  {
    && parse(row[LatitudeColumn]).Some?
    && parse(row[LongitudeColumn]).Some?
    && WithinBound(parse(row[LatitudeColumn]).value, 90.0)
    && WithinBound(parse(row[LongitudeColumn]).value, 180.0)
  }

  /** What cleanRow makes of a row. A row that ends before the
      ExpectedArrivalTime column throws ArrayIndexOutOfBoundsException, which
      no caller catches; unparsable or out-of-range coordinates throw an
      IllegalArgumentException (NumberFormatException is one), and the row
      pass skips that row. */
  function Outcome(row: seq<string>, parse: string -> Option<JDouble>): RowOutcome
  {
    if |row| <= ExpectedArrivalTimeColumn then Crashed
    else if CoordinatesAccepted(row, parse) then Accepted
    else Rejected
  }

  /** A row is kept exactly when it has all sixteen columns the check reads and
      both coordinates parse to NaN or to a value in range. */
  lemma AcceptedMeaning(row: seq<string>, parse: string -> Option<JDouble>)
    ensures Outcome(row, parse) == Accepted <==>
      && |row| > ExpectedArrivalTimeColumn
      && parse(row[LatitudeColumn]).Some? && parse(row[LongitudeColumn]).Some?
      && var lat, lon := parse(row[LatitudeColumn]).value, parse(row[LongitudeColumn]).value;
         && (lat.NaN? || (lat.Finite? && -90.0 <= lat.value <= 90.0))
         && (lon.NaN? || (lon.Finite? && -180.0 <= lon.value <= 180.0))
  {
    if |row| > ExpectedArrivalTimeColumn && parse(row[LatitudeColumn]).Some? && parse(row[LongitudeColumn]).Some? {
      WithinBoundMeaning(parse(row[LatitudeColumn]).value, 90.0);
      WithinBoundMeaning(parse(row[LongitudeColumn]).value, 180.0);
    }
  }

  /** Cleaning a row again gives the same verdict and the same cells. */
  lemma CleanRowIdempotent(row: seq<string>, parse: string -> Option<JDouble>)
    ensures Outcome(Cleaned(row), parse) == Outcome(row, parse)
    ensures Cleaned(Cleaned(row)) == Cleaned(row)
  {
    CleanedFacts(row);
  }

  /** cleanRow: overwrites the two columns in place, then parses and checks the coordinates. */
  method CleanRow(row: array<string>, parse: string -> Option<JDouble>) returns (outcome: RowOutcome)
    modifies row
    ensures row[..] == Cleaned(old(row[..]))
    ensures outcome == Outcome(old(row[..]), parse)
  {
    ghost var original := row[..];
    if row.Length <= DistanceFromStopColumn {
      return Crashed;
    }
    if row[DistanceFromStopColumn] == "NA" {
      row[DistanceFromStopColumn] := "";
    }
    if row.Length <= ExpectedArrivalTimeColumn {
      return Crashed;
    }
    if row[ExpectedArrivalTimeColumn] == "NA" {
      row[ExpectedArrivalTimeColumn] := "";
    }
    var latitude := parse(row[LatitudeColumn]);
    if latitude.None? {
      return Rejected;
    }
    var longitude := parse(row[LongitudeColumn]);
    if longitude.None? {
      return Rejected;
    }
    var lat, lon := latitude.value, longitude.value;
    if Above(lat, 90.0) || Below(lat, -90.0) || Above(lon, 180.0) || Below(lon, -180.0) {
      return Rejected;
    }
    return Accepted;
  }

  /** The rows the row pass writes after the header: each accepted row
      cleaned, rejected rows skipped, and nothing from the first crashing row on. */
  function Kept(rows: seq<seq<string>>, parse: string -> Option<JDouble>): seq<seq<string>>
  {
    if |rows| == 0 then []
    else
      match Outcome(rows[0], parse)
      case Crashed => []
      case Accepted => [Cleaned(rows[0])] + Kept(rows[1..], parse)
      case Rejected => Kept(rows[1..], parse)
  }

  /** The position of the first row too short for cleanRow, if any. */
  function FirstShort(rows: seq<seq<string>>): (r: Option<nat>)
    ensures r.Some? ==> r.value < |rows| && |rows[r.value]| <= ExpectedArrivalTimeColumn
    ensures r.Some? ==> forall j :: 0 <= j < r.value ==> |rows[j]| > ExpectedArrivalTimeColumn
    ensures r.None? ==> forall j :: 0 <= j < |rows| ==> |rows[j]| > ExpectedArrivalTimeColumn
  {
    if |rows| == 0 then None
    else if |rows[0]| <= ExpectedArrivalTimeColumn then Some(0)
    else
      var rest := FirstShort(rows[1..]);
      assert forall j :: 1 <= j < |rows| ==> rows[j] == rows[1..][j - 1];
      if rest.None? then None else Some(rest.value + 1)
  }

  /** The rows the row pass gets to see: all of them, or those before the first short one. */
  function Reached(rows: seq<seq<string>>): nat
  {
    match FirstShort(rows)
    case None => |rows|
    case Some(i) => i
  }

  function Accepts(parse: string -> Option<JDouble>): seq<string> -> bool
  {
    row => Outcome(row, parse) == Accepted
  }

  function CleanAll(rows: seq<seq<string>>): (r: seq<seq<string>>)
    ensures |r| == |rows|
  {
    if |rows| == 0 then [] else [Cleaned(rows[0])] + CleanAll(rows[1..])
  }

  /** Reference definition of the row pass: select the accepted rows among
      those reached, in their order, and clean each. */
  lemma {:induction false} KeptIsFilter(rows: seq<seq<string>>, parse: string -> Option<JDouble>)
    ensures Reached(rows) <= |rows|
    ensures Kept(rows, parse) == CleanAll(Filter(rows[..Reached(rows)], Accepts(parse)))
  {
    if |rows| > 0 && |rows[0]| > ExpectedArrivalTimeColumn {
      KeptIsFilter(rows[1..], parse);
      var n := Reached(rows[1..]);
      assert Reached(rows) == n + 1;
      assert rows[..n + 1] == [rows[0]] + rows[1..][..n];
      var f := Filter(rows[1..][..n], Accepts(parse));
      FilterConcat([rows[0]], rows[1..][..n], Accepts(parse));
      assert Filter([rows[0]], Accepts(parse)) == if Accepts(parse)(rows[0]) then [rows[0]] else [];
      if Accepts(parse)(rows[0]) {
        assert ([rows[0]] + f)[1..] == f;
      } else {
        assert [] + f == f;
      }
    }
  }

  /** Every row the pass writes after the header is accepted by cleanRow and
      has no "NA" left in the two cleaned columns. */
  lemma {:induction false} KeptSound(rows: seq<seq<string>>, parse: string -> Option<JDouble>)
    ensures forall k :: 0 <= k < |Kept(rows, parse)| ==>
      && Outcome(Kept(rows, parse)[k], parse) == Accepted
      && Kept(rows, parse)[k][DistanceFromStopColumn] != "NA"
      && Kept(rows, parse)[k][ExpectedArrivalTimeColumn] != "NA"
  {
    if |rows| > 0 && Outcome(rows[0], parse) != Crashed {
      KeptSound(rows[1..], parse);
      CleanRowIdempotent(rows[0], parse);
      CleanedFacts(rows[0]);
    }
  }

  /** The row loop of cleanData: each row is copied into a fresh array and
      cleaned in place; stop is the position of a row that made cleanRow crash. */
  method CleanRows(rows: seq<seq<string>>, parse: string -> Option<JDouble>) returns (kept: seq<seq<string>>, stop: Option<nat>)
    ensures kept == Kept(rows, parse)
    ensures stop == FirstShort(rows)
  {
    kept := [];
    var i := 0;
    while i < |rows|
      invariant 0 <= i <= |rows|
      invariant forall j :: 0 <= j < i ==> |rows[j]| > ExpectedArrivalTimeColumn
      invariant Kept(rows, parse) == kept + Kept(rows[i..], parse)
    {
      var row := rows[i];
      var nextLine := new string[|row|](j requires 0 <= j < |row| => row[j]);
      assert nextLine[..] == row;
      assert rows[i..][0] == row && rows[i..][1..] == rows[i + 1..];
      var outcome := CleanRow(nextLine, parse);
      if outcome == Crashed {
        return kept, Some(i);
      }
      if outcome == Accepted {
        ConcatAssoc(kept, [nextLine[..]], Kept(rows[i + 1..], parse));
        kept := kept + [nextLine[..]];
      }
      i := i + 1;
    }
    assert rows[i..] == [];
    stop := None;
  }

  // ---------------------------------------------------------------- paths

  /** A path as the parser uses it: the parent directory, when there is one, and the file name. */
  datatype Path = Path(parent: Option<string>, fileName: string)

  /** The position of the last c in s. */
  function LastIndexOf(s: string, c: char): (r: Option<nat>)
    ensures r.Some? ==> r.value < |s| && s[r.value] == c && c !in s[r.value + 1..]
    ensures r.None? ==> c !in s
    ensures forall k :: 0 <= k < |s| && s[k] == c ==> r.Some? && k <= r.value
  {
    if |s| == 0 then None
    else if s[|s| - 1] == c then Some(|s| - 1)
    else
      var r := LastIndexOf(s[..|s| - 1], c);
      assert s == s[..|s| - 1] + [s[|s| - 1]];
      if r.Some? then
        assert s[r.value + 1..] == s[..|s| - 1][r.value + 1..] + [s[|s| - 1]];
        r
      else r
  }

  /** Paths.get on a '/'-separated string: the file name follows the last
      '/', the parent precedes it ("/" for a file in the root), and a string
      without '/' names a file with no parent. */
  function PathOf(s: string): (p: Path)
    ensures '/' !in p.fileName
  {
    match LastIndexOf(s, '/')
    case None => Path(None, s)
    case Some(i) => Path(Some(if i == 0 then "/" else s[..i]), s[i + 1..])
  }

  /** replaceFirst("[.][^.]+$", ""): the last '.' and what follows it are
      dropped, provided at least one character follows it. */
  function StripExtension(name: string): string
  {
    match LastIndexOf(name, '.')
    case None => name
    case Some(i) => if i < |name| - 1 then name[..i] else name
  }

  /** The extension after the last '.' is what goes. */
  lemma StripExtensionOf(base: string, ext: string)
    requires |ext| > 0 && '.' !in ext
    ensures StripExtension(base + "." + ext) == base
  {
    var name := base + "." + ext;
    var i := LastIndexOf(name, '.');
    assert name[|base|] == '.';
    assert name[|base|] in name;
    assert name[|base| + 1..] == ext;
    assert name[..|base|] == base;
  }

  /** A name keeps its form exactly when it has no '.' or ends with one. */
  lemma StripExtensionKeeps(name: string)
    ensures StripExtension(name) == name <==> '.' !in name || name[|name| - 1] == '.'
  {
    var i := LastIndexOf(name, '.');
    if i.Some? && i.value < |name| - 1 {
      assert |StripExtension(name)| < |name|;
      assert name[|name| - 1] in name[i.value + 1..];
    }
  }

  /** The path string is null-free here; String.trim().isEmpty() holds when
      every character is at most ' '. */
  predicate Blank(s: string)
  {
    forall i :: 0 <= i < |s| ==> s[i] <= ' '
  }

  /** The file system as the parser sees it: each existing file and its lines. */
  type Files = map<Path, seq<string>>

  datatype CsvError =
    | BlankPath
    | RawFileMissing(path: Path)
    | MissingLine(line: nat)
    | ShortRow(row: nat)
    | MalformedCsv
    | CleanDataMissing(path: Path)
    | BindingFailed

  datatype CsvParser = CsvParser(rawDataPath: Path, dir: Option<string>, finalDataPath: Path, tempDataPath: Path)

  /** The constructor: rejects a blank path and a raw file that does not
      exist; the cleaned and temporary files sit next to the raw one, named
      after it without its extension. */
  function NewCsvParser(rawDataPathString: string, files: Files): (r: Result<CsvParser, CsvError>)
    ensures r.Err? <==> Blank(rawDataPathString) || PathOf(rawDataPathString) !in files
    ensures r.Ok? ==> r.value.rawDataPath == PathOf(rawDataPathString) && r.value.dir == r.value.rawDataPath.parent
    ensures r.Ok? ==> r.value.finalDataPath.parent == r.value.dir && r.value.tempDataPath.parent == r.value.dir
  {
    if Blank(rawDataPathString) then Err(BlankPath)
    else
      var rawDataPath := PathOf(rawDataPathString);
      var dir := rawDataPath.parent;
      if rawDataPath !in files then Err(RawFileMissing(rawDataPath))
      else
        var filename := StripExtension(rawDataPath.fileName);
        // dir.resolve(name) and Paths.get(name) when there is no parent
        Ok(CsvParser(rawDataPath, dir, Path(dir, filename + "_clean.csv"), Path(dir, filename + "_temp.csv")))
  }

  /** For a raw file named base.ext the cleaned data goes to base_clean.csv and
      the intermediate rows to base_temp.csv, in the same directory. */
  lemma DerivedPaths(rawDataPathString: string, files: Files, base: string, ext: string)
    requires NewCsvParser(rawDataPathString, files).Ok?
    requires PathOf(rawDataPathString).fileName == base + "." + ext && |ext| > 0 && '.' !in ext
    ensures NewCsvParser(rawDataPathString, files).value.finalDataPath == Path(PathOf(rawDataPathString).parent, base + "_clean.csv")
    ensures NewCsvParser(rawDataPathString, files).value.tempDataPath == Path(PathOf(rawDataPathString).parent, base + "_temp.csv")
  {
    StripExtensionOf(base, ext);
  }

  /** A derived name differs from the raw name it came from. */
  lemma DerivedNameDiffers(name: string, suffix: string)
    requires |suffix| > 0 && suffix[0] == '_'
    ensures StripExtension(name) + suffix != name
  {
    var i := LastIndexOf(name, '.');
    if i.Some? && i.value < |name| - 1 {
      assert (name[..i.value] + suffix)[i.value] == '_';
    }
  }

  /** The three files are different files, so cleaning never overwrites the raw data. */
  lemma DerivedPathsDistinct(rawDataPathString: string, files: Files)
    requires NewCsvParser(rawDataPathString, files).Ok?
    ensures var p := NewCsvParser(rawDataPathString, files).value;
      p.finalDataPath != p.rawDataPath && p.tempDataPath != p.rawDataPath && p.finalDataPath != p.tempDataPath
  {
    var name := PathOf(rawDataPathString).fileName;
    var base := StripExtension(name);
    DerivedNameDiffers(name, "_clean.csv");
    DerivedNameDiffers(name, "_temp.csv");
    assert (base + "_clean.csv")[|base| + 1] != (base + "_temp.csv")[|base| + 1];
  }

  // ---------------------------------------------------------------- cleanData and parse

  /** What the CSV reader makes of a file: the rows it read, and whether it
      reached the end without a CsvValidationException. */
  datatype CsvRead = CsvRead(rows: seq<seq<string>>, complete: bool)

  /** The CSV library and Double.parseDouble, which the model takes as given:
      reading rows from lines, writing rows as lines, binding lines to records,
      and parsing a number (None for a NumberFormatException). */
  datatype Library = Library(
    readRows: seq<string> -> CsvRead,
    writeRows: seq<seq<string>> -> seq<string>,
    bindRecords: seq<string> -> Option<seq<BusRecord>>,
    parseDouble: string -> Option<JDouble>)

  /** The header row, copied as read; writeNext(null) writes nothing. */
  function HeaderOf(rows: seq<seq<string>>): seq<seq<string>>
  {
    if |rows| == 0 then [] else [rows[0]]
  }

  function DataOf(rows: seq<seq<string>>): seq<seq<string>>
  {
    if |rows| == 0 then [] else rows[1..]
  }

  /** The files after cleanData, and the exception that ended it, if any. The
      line pass writes the cleaned file (a failing readLine leaves it half
      written); the row pass writes the temporary file and stops at a row too
      short for cleanRow or a malformed line; on success the temporary file
      replaces the cleaned one. */
  function Cleaning(p: CsvParser, files: Files, lib: Library): (Files, Option<CsvError>)
  {
    if p.rawDataPath !in files then (files, Some(RawFileMissing(p.rawDataPath)))
    else
      var raw := files[p.rawDataPath];
      var written := RepairedLines(raw);
      var afterLines := files[p.finalDataPath := written];
      if |raw| <= NumRows then (afterLines, Some(MissingLine(|raw|)))
      else
        var read := lib.readRows(written);
        var data := DataOf(read.rows);
        var out := lib.writeRows(HeaderOf(read.rows) + Kept(data, lib.parseDouble));
        var afterRows := afterLines[p.tempDataPath := out];
        match FirstShort(data)
        case Some(i) => (afterRows, Some(ShortRow(i + 1)))
        case None =>
          if !read.complete then (afterRows, Some(MalformedCsv))
          else ((afterRows - {p.tempDataPath})[p.finalDataPath := out], None)
  }

  /** cleanData. */
  method CleanData(p: CsvParser, files: Files, lib: Library) returns (after: Files, failure: Option<CsvError>)
    ensures (after, failure) == Cleaning(p, files, lib)
  {
    if p.rawDataPath !in files {
      return files, Some(RawFileMissing(p.rawDataPath));
    }
    var raw := files[p.rawDataPath];
    var written, complete := RepairLines(raw);
    after := files[p.finalDataPath := written];
    if !complete {
      return after, Some(MissingLine(|raw|));
    }
    var read := lib.readRows(written);
    var header := HeaderOf(read.rows);
    var kept, stop := CleanRows(DataOf(read.rows), lib.parseDouble);
    var out := lib.writeRows(header + kept);
    after := after[p.tempDataPath := out];
    if stop.Some? {
      return after, Some(ShortRow(stop.value + 1));
    }
    if !read.complete {
      return after, Some(MalformedCsv);
    }
    // Files.delete(finalDataPath), then Files.move(tempDataPath, finalDataPath)
    after := (after - {p.tempDataPath})[p.finalDataPath := out];
    failure := None;
  }

  /** Reading the cleaned file into records. */
  function Load(files: Files, path: Path, lib: Library): Result<seq<BusRecord>, CsvError>
  {
    if path !in files then Err(CleanDataMissing(path))
    else match lib.bindRecords(files[path])
      case None => Err(BindingFailed)
      case Some(records) => Ok(records)
  }

  /** parse: cleans only when no cleaned file exists yet, then reads the cleaned file. */
  method Parse(p: CsvParser, files: Files, lib: Library) returns (after: Files, r: Result<seq<BusRecord>, CsvError>)
    ensures p.finalDataPath in files ==> after == files && r == Load(files, p.finalDataPath, lib)
    ensures p.finalDataPath !in files ==>
      var (cleaned, failure) := Cleaning(p, files, lib);
      after == cleaned && r == if failure.Some? then Err(failure.value) else Load(cleaned, p.finalDataPath, lib)
  {
    after := files;
    if p.finalDataPath !in files {
      var failure;
      after, failure := CleanData(p, files, lib);
      if failure.Some? {
        return after, Err(failure.value);
      }
    }
    r := Load(after, p.finalDataPath, lib);
  }

  /** Once cleanData has run on an existing raw file, a cleaned file exists,
      even when cleanData failed, so later calls of parse read that file
      instead of cleaning again; the raw file is left as it was. */
  lemma CleaningLeavesCleanedFile(p: CsvParser, files: Files, lib: Library)
    requires p.rawDataPath in files
    requires p.rawDataPath != p.finalDataPath && p.rawDataPath != p.tempDataPath
    ensures p.finalDataPath in Cleaning(p, files, lib).0
    ensures p.rawDataPath in Cleaning(p, files, lib).0
    ensures Cleaning(p, files, lib).0[p.rawDataPath] == files[p.rawDataPath]
  {
  }

  /** A raw file too short for the line pass leaves every one of its lines,
      the header as it was and the rest repaired, as the cleaned file, with
      the row pass never run on them; the next parse reads them as they are. */
  lemma ShortRawFileLeavesRepairedLines(p: CsvParser, files: Files, lib: Library)
    requires p.rawDataPath in files && |files[p.rawDataPath]| <= NumRows
    ensures Cleaning(p, files, lib).1 == Some(MissingLine(|files[p.rawDataPath]|))
    ensures p.finalDataPath in Cleaning(p, files, lib).0
    ensures Cleaning(p, files, lib).0[p.finalDataPath] == RepairedLines(files[p.rawDataPath])
    ensures |RepairedLines(files[p.rawDataPath])| == |files[p.rawDataPath]|
  {
    RepairedLinesFacts(files[p.rawDataPath]);
  }

  /** After a successful cleaning the cleaned file holds the header and the
      rows cleanRow accepted, cleaned, in their order; the temporary file is gone. */
  lemma {:induction false} CleaningSucceeded(p: CsvParser, files: Files, lib: Library)
    requires p.tempDataPath != p.finalDataPath
    requires Cleaning(p, files, lib).1.None?
    ensures p.rawDataPath in files && |files[p.rawDataPath]| > NumRows
    ensures var read := lib.readRows(RepairedLines(files[p.rawDataPath]));
      var data := DataOf(read.rows);
      && read.complete && Reached(data) == |data|
      && Cleaning(p, files, lib).0[p.finalDataPath]
         == lib.writeRows(HeaderOf(read.rows) + CleanAll(Filter(data, Accepts(lib.parseDouble))))
      && p.tempDataPath !in Cleaning(p, files, lib).0
  {
    var read := lib.readRows(RepairedLines(files[p.rawDataPath]));
    var data := DataOf(read.rows);
    KeptIsFilter(data, lib.parseDouble);
    assert data[..|data|] == data;
  }
}
