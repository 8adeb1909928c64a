/**
 * Best-hit selection over a homology table and the two-hop mapping
 * source -> bridge (Arabidopsis) -> target (cotton_toolkit/core/homology_mapper.py).
 * A pandas table is a sequence of rows; which optional columns exist is
 * recorded separately, because the code tests column presence.
 */
module HomologyMapper {
  import opened Wrappers
  import opened PyText
  import opened Numeric
  import opened SeqUtil
  import StrOrder

  /** `_apply_id_slicer`: the text before the first occurrence of a non-empty slicer. */
  function ApplyIdSlicer(geneId: string, slicer: Option<string>): (r: string)
    ensures r <= geneId
    ensures slicer.Some? && slicer.value != [] && Contains(geneId, slicer.value) ==>
              r + slicer.value <= geneId && !Contains(r, slicer.value)
    ensures !(slicer.Some? && slicer.value != [] && Contains(geneId, slicer.value)) ==> r == geneId
  {
    if slicer.Some? && slicer.value != [] && Contains(geneId, slicer.value) then
      var r := BeforeFirst(geneId, slicer.value);
      PrefixOccurrence(geneId, r, slicer.value);
      assert r + slicer.value == geneId[..|r| + |slicer.value|];
      r
    else geneId
  }

  /** An occurrence inside a prefix is an occurrence in the whole string. */
  lemma PrefixOccurrences(s: string, r: string, pat: string)
    requires r <= s
    ensures forall i :: OccursAt(r, pat, i) ==> OccursAt(s, pat, i)
  {
    forall i | OccursAt(r, pat, i) ensures OccursAt(s, pat, i) {
      assert s[i..i + |pat|] == r[i..i + |pat|];
    }
  }

  lemma PrefixOccurrence(s: string, r: string, pat: string)
    requires |pat| > 0 && r <= s
    requires forall i :: 0 <= i < |r| ==> !OccursAt(s, pat, i)
    ensures !Contains(r, pat)
  {
    PrefixOccurrences(s, r, pat);
    NoOccurrence(r, pat);
  }

  /** The generic metric names of the selection criteria; other names match no column. */
  datatype Metric = Exp | Score | Pid | Other(name: string)

  /** One column of a multi-column sort and its direction. */
  datatype SortKey = SortKey(metric: Metric, ascending: bool)

  /** One homology hit: query ID, match ID, e-value, bit score, percent identity. */
  datatype Row = Row(query: string, hit: string, exp: Cell, score: Cell, pid: Cell)

  /** Which of the metric columns, and the query column, the table has. */
  datatype Columns = Columns(hasExp: bool, hasScore: bool, hasPid: bool, hasQuery: bool)

  datatype Table = Table(cols: Columns, rows: seq<Row>)

  /**
   * The criteria dictionary. A threshold is None when its key is absent;
   * `topN` is None when `top_n` is absent or None.
   */
  datatype Criteria = Criteria(sortBy: seq<Metric>, ascending: seq<bool>, topN: Option<int>,
                               evalue: Option<real>, pid: Option<real>, score: Option<real>)

  /** `ascending_flags_raw[i]` raised IndexError for a sort position `i`. */
  datatype SelectError = AscendingTooShort(index: nat)

  function MetricCell(r: Row, m: Metric): Cell {
    match m
    case Exp => r.exp
    case Score => r.score
    case Pid => r.pid
    case Other(_) => NaN
  }

  predicate HasColumn(cols: Columns, m: Metric) {
    match m
    case Exp => cols.hasExp
    case Score => cols.hasScore
    case Pid => cols.hasPid
    case Other(_) => false
  }

  /** Every threshold that is set and whose column exists holds; NaN never passes. */
  predicate PassesThresholds(r: Row, cols: Columns, c: Criteria) {
    (c.evalue.Some? && cols.hasExp ==> AtMost(r.exp, c.evalue.value))
    && (c.pid.Some? && cols.hasPid ==> AtLeast(r.pid, c.pid.value))
    && (c.score.Some? && cols.hasScore ==> AtLeast(r.score, c.score.value))
  }

  /** The row masks the mapper applies. */
  datatype RowTest =
    | ExpAtMost(limit: real)
    | PidAtLeast(limit: real)
    | ScoreAtLeast(limit: real)
    | NumericIn(metrics: seq<Metric>)
    | QueryIs(q: string)
    | QueryIn(qs: seq<string>)

  /** All the given metric cells of the row are numbers (`dropna(subset=...)`). */
  predicate AllNumeric(r: Row, ms: seq<Metric>) {
    forall k :: 0 <= k < |ms| ==> MetricCell(r, ms[k]).Num?
  }

  predicate Passes(r: Row, test: RowTest) {
    match test
    case ExpAtMost(v) => AtMost(r.exp, v)
    case PidAtLeast(v) => AtLeast(r.pid, v)
    case ScoreAtLeast(v) => AtLeast(r.score, v)
    case NumericIn(ms) => AllNumeric(r, ms)
    case QueryIs(q) => r.query == q
    case QueryIn(qs) => r.query in qs
  }

  /** `df[mask]`: the rows passing the test, in order. */
  function Keep(rows: seq<Row>, test: RowTest): (r: seq<Row>)
    ensures forall x :: x in r <==> x in rows && Passes(x, test)
  {
    if rows == [] then []
    else
      var rest := Keep(rows[1..], test);
      assert rows == [rows[0]] + rows[1..];
      if Passes(rows[0], test) then [rows[0]] + rest else rest
  }

  /** The mask keeps a sub-multiset of the rows: nothing is duplicated. */
  lemma {:induction false} KeepSub(rows: seq<Row>, test: RowTest)
    ensures multiset(Keep(rows, test)) <= multiset(rows)
  {
    if rows != [] {
      KeepSub(rows[1..], test);
      assert rows == [rows[0]] + rows[1..];
    }
  }

  lemma {:induction false} KeepAppend(a: seq<Row>, b: seq<Row>, test: RowTest)
    ensures Keep(a + b, test) == Keep(a, test) + Keep(b, test)
  {
    if a == [] {
      assert a + b == b;
    } else {
      assert (a + b)[1..] == a[1..] + b;
      KeepAppend(a[1..], b, test);
    }
  }

  lemma {:induction false} KeepAll(rows: seq<Row>, test: RowTest)
    requires forall x :: x in rows ==> Passes(x, test)
    ensures Keep(rows, test) == rows
  {
    if rows != [] {
      assert rows == [rows[0]] + rows[1..];
      KeepAll(rows[1..], test);
    }
  }

  lemma KeepNone(rows: seq<Row>, test: RowTest)
    requires forall x :: x in rows ==> !Passes(x, test)
    ensures Keep(rows, test) == []
  {
  }

  lemma KeptMember(rows: seq<Row>, test: RowTest, y: Row)
    ensures y in Keep(rows, test) <==> y in rows && Passes(y, test)
  {
  }

  /** The e-value, PID and score filters, applied one after the other. */
  function ApplyThresholds(t: Table, c: Criteria): (r: seq<Row>)
    ensures forall x :: x in r <==> x in t.rows && PassesThresholds(x, t.cols, c)
  {
    var a := if c.evalue.Some? && t.cols.hasExp then Keep(t.rows, ExpAtMost(c.evalue.value)) else t.rows;
    var b := if c.pid.Some? && t.cols.hasPid then Keep(a, PidAtLeast(c.pid.value)) else a;
    if c.score.Some? && t.cols.hasScore then Keep(b, ScoreAtLeast(c.score.value)) else b
  }

  lemma ApplyThresholdsSub(t: Table, c: Criteria)
    ensures multiset(ApplyThresholds(t, c)) <= multiset(t.rows)
  {
    var a := if c.evalue.Some? && t.cols.hasExp then Keep(t.rows, ExpAtMost(c.evalue.value)) else t.rows;
    var b := if c.pid.Some? && t.cols.hasPid then Keep(a, PidAtLeast(c.pid.value)) else a;
    if c.evalue.Some? { KeepSub(t.rows, ExpAtMost(c.evalue.value)); }
    if c.pid.Some? { KeepSub(a, PidAtLeast(c.pid.value)); }
    if c.score.Some? { KeepSub(b, ScoreAtLeast(c.score.value)); }
  }

  /** The sort metrics that map to an existing column, in criteria order. */
  function UsableMetrics(sortBy: seq<Metric>, cols: Columns): (ms: seq<Metric>)
    ensures forall m :: m in ms <==> m in sortBy && HasColumn(cols, m)
  {
    if sortBy == [] then []
    else
      assert sortBy == [sortBy[0]] + sortBy[1..];
      (if HasColumn(cols, sortBy[0]) then [sortBy[0]] else []) + UsableMetrics(sortBy[1..], cols)
  }

  function KeyMetrics(keys: seq<SortKey>): (ms: seq<Metric>)
    ensures |ms| == |keys| && forall k :: 0 <= k < |keys| ==> ms[k] == keys[k].metric
  {
    if keys == [] then [] else [keys[0].metric] + KeyMetrics(keys[1..])
  }

  /**
   * Pairs each usable sort metric at position `j >= from` with `ascending[j]`;
   * fails at the first usable position that has no flag.
   */
  function PairFlags(sortBy: seq<Metric>, ascending: seq<bool>, cols: Columns, from: nat): (r: Result<seq<SortKey>, SelectError>)
    requires from <= |sortBy|
    ensures r.Ok? <==> forall j :: from <= j < |sortBy| && HasColumn(cols, sortBy[j]) ==> j < |ascending|
    ensures r.Err? ==> from <= r.error.index < |sortBy| && r.error.index >= |ascending| && HasColumn(cols, sortBy[r.error.index])
    ensures r.Ok? ==> KeyMetrics(r.value) == UsableMetrics(sortBy[from..], cols)
    decreases |sortBy| - from
  {
    if from == |sortBy| then Ok([])
    else
      assert sortBy[from..] == [sortBy[from]] + sortBy[from + 1..];
      if !HasColumn(cols, sortBy[from]) then PairFlags(sortBy, ascending, cols, from + 1)
      else if from >= |ascending| then Err(AscendingTooShort(from))
      else
        match PairFlags(sortBy, ascending, cols, from + 1)
        case Err(e) => Err(e)
        case Ok(ks) => Ok([SortKey(sortBy[from], ascending[from])] + ks)
  }

  /** `key` is the usable metric at some position `j >= from` with the flag at that same position. */
  predicate KeyFrom(key: SortKey, sortBy: seq<Metric>, ascending: seq<bool>, cols: Columns, from: nat) {
    exists j :: from <= j < |sortBy| && j < |ascending| && HasColumn(cols, sortBy[j]) && key == SortKey(sortBy[j], ascending[j])
  }

  /** Each sort key pairs a usable metric with the flag at that metric's own position. */
  lemma {:induction false} PairFlagsPairs(sortBy: seq<Metric>, ascending: seq<bool>, cols: Columns, from: nat)
    requires from <= |sortBy| && PairFlags(sortBy, ascending, cols, from).Ok?
    ensures var ks := PairFlags(sortBy, ascending, cols, from).value;
      forall k :: 0 <= k < |ks| ==> KeyFrom(ks[k], sortBy, ascending, cols, from)
    decreases |sortBy| - from
  {
    if from < |sortBy| {
      PairFlagsPairs(sortBy, ascending, cols, from + 1);
      var ks := PairFlags(sortBy, ascending, cols, from).value;
      var rest := PairFlags(sortBy, ascending, cols, from + 1).value;
      if HasColumn(cols, sortBy[from]) {
        assert ks == [SortKey(sortBy[from], ascending[from])] + rest;
        forall k | 0 <= k < |ks| ensures KeyFrom(ks[k], sortBy, ascending, cols, from) {
          if k == 0 {
            assert ks[0] == SortKey(sortBy[from], ascending[from]);
          } else {
            assert ks[k] == rest[k - 1] && KeyFrom(rest[k - 1], sortBy, ascending, cols, from + 1);
          }
        }
      }
    }
  }

  function KeyValue(r: Row, m: Metric): real {
    match MetricCell(r, m)
    case Num(v) => v
    case NaN => 0.0
  }

  /** `a` sorts strictly before `b` under the keys (lexicographic, per-key direction). */
  predicate Before(a: Row, b: Row, keys: seq<SortKey>)
    decreases |keys|
  {
    if keys == [] then false
    else
      var va, vb := KeyValue(a, keys[0].metric), KeyValue(b, keys[0].metric);
      if va != vb then (if keys[0].ascending then va < vb else va > vb)
      else Before(a, b, keys[1..])
  }

  lemma {:induction false} BeforeIrreflexive(a: Row, keys: seq<SortKey>)
    ensures !Before(a, a, keys)
    decreases |keys|
  {
    if keys != [] { BeforeIrreflexive(a, keys[1..]); }
  }

  lemma {:induction false} BeforeTransitive(a: Row, b: Row, c: Row, keys: seq<SortKey>)
    requires Before(a, b, keys) && Before(b, c, keys)
    ensures Before(a, c, keys)
    decreases |keys|
  {
    if keys != [] {
      var m := keys[0].metric;
      if KeyValue(a, m) == KeyValue(b, m) && KeyValue(b, m) == KeyValue(c, m) {
        BeforeTransitive(a, b, c, keys[1..]);
      }
    }
  }

  predicate SortedBy(s: seq<Row>, keys: seq<SortKey>) {
    forall i, j :: 0 <= i < j < |s| ==> !Before(s[j], s[i], keys)
  }

  lemma BeforeChain(a: Row, b: Row, c: Row, keys: seq<SortKey>)
    ensures Before(a, b, keys) && Before(b, c, keys) ==> Before(a, c, keys)
  {
    if Before(a, b, keys) && Before(b, c, keys) { BeforeTransitive(a, b, c, keys); }
  }

  /** No element of a sorted list sorts before a row that sorts before its head. */
  lemma BelowHead(x: Row, s: seq<Row>, keys: seq<SortKey>)
    requires SortedBy(s, keys) && s != [] && Before(x, s[0], keys)
    ensures forall y :: y in s ==> !Before(y, x, keys)
  {
    BeforeIrreflexive(s[0], keys);
    forall y | y in s ensures !Before(y, x, keys) {
      BeforeChain(y, x, s[0], keys);
    }
  }

  lemma ConsSorted(h: Row, t: seq<Row>, keys: seq<SortKey>)
    requires SortedBy(t, keys)
    requires forall y :: y in t ==> !Before(y, h, keys)
    ensures SortedBy([h] + t, keys)
  {
    var r := [h] + t;
    forall i, j | 0 <= i < j < |r| ensures !Before(r[j], r[i], keys) {
      assert r[j] == t[j - 1];
      if i > 0 { assert r[i] == t[i - 1]; }
    }
  }

  /** Inserts `x` after every element it does not sort before (so equal keys keep their order). */
  function InsertRow(x: Row, s: seq<Row>, keys: seq<SortKey>): seq<Row> {
    if s == [] then [x]
    else if Before(x, s[0], keys) then [x] + s
    else [s[0]] + InsertRow(x, s[1..], keys)
  }

  lemma {:induction false} InsertRowPerm(x: Row, s: seq<Row>, keys: seq<SortKey>)
    ensures multiset(InsertRow(x, s, keys)) == multiset(s) + multiset{x}
  {
    if s != [] && !Before(x, s[0], keys) {
      InsertRowPerm(x, s[1..], keys);
      assert s == [s[0]] + s[1..];
    }
  }

  lemma {:induction false} InsertRowSorted(x: Row, s: seq<Row>, keys: seq<SortKey>)
    requires SortedBy(s, keys)
    ensures SortedBy(InsertRow(x, s, keys), keys)
  {
    if s == [] {
    } else if Before(x, s[0], keys) {
      BelowHead(x, s, keys);
      ConsSorted(x, s, keys);
    } else {
      var t := InsertRow(x, s[1..], keys);
      InsertRowSorted(x, s[1..], keys);
      InsertRowPerm(x, s[1..], keys);
      assert s == [s[0]] + s[1..];
      assert forall y :: y in t ==> y == x || y in s[1..] by {
        forall y | y in t ensures y == x || y in s[1..] { assert y in multiset(t); }
      }
      assert forall j :: 1 <= j < |s| ==> !Before(s[j], s[0], keys);
      ConsSorted(s[0], t, keys);
    }
  }

  /** `sort_values(by=..., ascending=...)`: a stable insertion sort (a permutation, see `SortRowsSorted`). */
  function SortRows(s: seq<Row>, keys: seq<SortKey>): seq<Row> {
    if s == [] then []
    else InsertRow(s[|s| - 1], SortRows(s[..|s| - 1], keys), keys)
  }

  /** Sorting permutes the rows. */
  lemma {:induction false} SortRowsPerm(s: seq<Row>, keys: seq<SortKey>)
    ensures multiset(SortRows(s, keys)) == multiset(s)
  {
    if s != [] {
      SortRowsPerm(s[..|s| - 1], keys);
      InsertRowPerm(s[|s| - 1], SortRows(s[..|s| - 1], keys), keys);
      assert s == s[..|s| - 1] + [s[|s| - 1]];
    }
  }

  /** The sorted rows are ordered by the keys. */
  lemma {:induction false} SortRowsSorted(s: seq<Row>, keys: seq<SortKey>)
    ensures SortedBy(SortRows(s, keys), keys)
  {
    if s != [] {
      SortRowsSorted(s[..|s| - 1], keys);
      InsertRowSorted(s[|s| - 1], SortRows(s[..|s| - 1], keys), keys);
    }
  }

  /** `head(n)`: the first n rows; a negative n drops the last |n| rows; None keeps all. */
  function Head(s: seq<Row>, n: Option<int>): (r: seq<Row>)
    ensures r <= s
    ensures n.None? ==> r == s
    ensures n.Some? && n.value >= 0 ==> |r| == if n.value < |s| then n.value else |s|
    ensures n.Some? && n.value < 0 ==> |r| == if |s| + n.value > 0 then |s| + n.value else 0
  {
    if n.None? then s
    else if n.value >= 0 then (if n.value < |s| then s[..n.value] else s)
    else if |s| + n.value > 0 then s[..|s| + n.value] else []
  }

  lemma HeadSubset(s: seq<Row>, n: Option<int>)
    ensures multiset(Head(s, n)) <= multiset(s)
  {
    var h := Head(s, n);
    assert s == h + s[|h|..];
  }

  function Queries(rows: seq<Row>): (qs: seq<string>)
    ensures |qs| == |rows| && forall k :: 0 <= k < |rows| ==> qs[k] == rows[k].query
  {
    if rows == [] then [] else [rows[0].query] + Queries(rows[1..])
  }

  function Hits(rows: seq<Row>): (ms: seq<string>)
    ensures |ms| == |rows| && forall k :: 0 <= k < |rows| ==> ms[k] == rows[k].hit
  {
    if rows == [] then [] else [rows[0].hit] + Hits(rows[1..])
  }

  /** One group of `groupby(query)`: sorted, then `head(top_n)`. */
  function PickGroup(rows: seq<Row>, q: string, keys: seq<SortKey>, topN: Option<int>): seq<Row> {
    Head(SortRows(Keep(rows, QueryIs(q)), keys), topN)
  }

  /** No query ID is listed twice. */
  predicate DistinctIds(qs: seq<string>) {
    forall i, j :: 0 <= i < j < |qs| ==> qs[i] != qs[j]
  }

  /** The rows of the groups, one group after the other. */
  function Concat(gs: seq<seq<Row>>): seq<Row> {
    if gs == [] then [] else Concat(gs[..|gs| - 1]) + gs[|gs| - 1]
  }

  /** The picked group of each query ID in `qs`, in that order. */
  function PickAll(rows: seq<Row>, qs: seq<string>, keys: seq<SortKey>, topN: Option<int>): (gs: seq<seq<Row>>)
    ensures |gs| == |qs|
    ensures forall k :: 0 <= k < |qs| ==> gs[k] == PickGroup(rows, qs[k], keys, topN)
  {
    seq(|qs|, k requires 0 <= k < |qs| => PickGroup(rows, qs[k], keys, topN))
  }

  /** The picked groups for the query IDs `qs`, concatenated in that order. */
  function SelectGroups(rows: seq<Row>, qs: seq<string>, keys: seq<SortKey>, topN: Option<int>): seq<Row> {
    Concat(PickAll(rows, qs, keys, topN))
  }

  /** The rows that reach the sort: past the thresholds and numeric in every usable sort metric. */
  function Candidates(t: Table, c: Criteria): seq<Row> {
    Keep(ApplyThresholds(t, c), NumericIn(UsableMetrics(c.sortBy, t.cols)))
  }

  /** Sorting and `head`, per query ID (in `groupby`'s ascending key order) when there is a query column. */
  function Rank(g: seq<Row>, hasQuery: bool, keys: seq<SortKey>, topN: Option<int>): seq<Row> {
    if hasQuery then SelectGroups(g, StrOrder.SortedSet(Queries(g)), keys, topN)
    else Head(SortRows(g, keys), topN)
  }

  /** `select_best_homologs` */
  function SelectBest(t: Table, c: Criteria): (r: Result<seq<Row>, SelectError>)
    ensures t.rows == [] ==> r == Ok([])
    ensures r.Err? ==> UsableMetrics(c.sortBy, t.cols) != [] && Candidates(t, c) != []
  {
    if t.rows == [] || ApplyThresholds(t, c) == [] then Ok([])
    else if UsableMetrics(c.sortBy, t.cols) == [] then Ok(ApplyThresholds(t, c))
    else if Candidates(t, c) == [] then Ok([])
    else
      match PairFlags(c.sortBy, c.ascending, t.cols, 0)
      case Err(e) => Err(e)
      case Ok(keys) => Ok(Rank(Candidates(t, c), t.cols.hasQuery, keys, c.topN))
  }

  /** `select_best_homologs`, step by step: the masks reassign the table, then a loop collects the groups. */
  method SelectBestHomologs(t: Table, c: Criteria) returns (r: Result<seq<Row>, SelectError>)
    ensures r == SelectBest(t, c)
  {
    if t.rows == [] {
      return Ok([]);
    }
    var filtered := t.rows;
    if c.evalue.Some? && t.cols.hasExp {
      filtered := Keep(filtered, ExpAtMost(c.evalue.value));
    }
    if c.pid.Some? && t.cols.hasPid {
      filtered := Keep(filtered, PidAtLeast(c.pid.value));
    }
    if c.score.Some? && t.cols.hasScore {
      filtered := Keep(filtered, ScoreAtLeast(c.score.value));
    }
    assert filtered == ApplyThresholds(t, c);
    if filtered == [] {
      return Ok([]);
    }
    var metrics := UsableMetrics(c.sortBy, t.cols);
    if metrics == [] {
      return Ok(filtered);
    }
    filtered := Keep(filtered, NumericIn(metrics));
    assert filtered == Candidates(t, c);
    if filtered == [] {
      return Ok([]);
    }
    var flags := PairFlags(c.sortBy, c.ascending, t.cols, 0);
    if flags.Err? {
      return Err(flags.error);
    }
    var keys := flags.value;
    if !t.cols.hasQuery {
      return Ok(Head(SortRows(filtered, keys), c.topN));
    }
    var selected := PickPerQuery(filtered, keys, c.topN);
    return Ok(selected);
  }

  lemma SelectGroupsSnoc(rows: seq<Row>, qs: seq<string>, i: int, keys: seq<SortKey>, topN: Option<int>)
    requires 0 <= i < |qs|
    ensures SelectGroups(rows, qs[..i + 1], keys, topN) == SelectGroups(rows, qs[..i], keys, topN) + PickGroup(rows, qs[i], keys, topN)
  {
    var gs := PickAll(rows, qs[..i + 1], keys, topN);
    assert gs[..i] == PickAll(rows, qs[..i], keys, topN);
  }

  /** `groupby(query).apply(sort then head)`: one pass over the query IDs in ascending order. */
  method PickPerQuery(g: seq<Row>, keys: seq<SortKey>, topN: Option<int>) returns (selected: seq<Row>)
    ensures selected == Rank(g, true, keys, topN)
  {
    var groups := StrOrder.SortedSet(Queries(g));
    selected := [];
    for i := 0 to |groups|
      invariant selected == SelectGroups(g, groups[..i], keys, topN)
    {
      var sortedGroup := SortRows(Keep(g, QueryIs(groups[i])), keys);
      selected := selected + Head(sortedGroup, topN);
      SelectGroupsSnoc(g, groups, i, keys, topN);
    }
    assert groups[..|groups|] == groups;
  }

  // ---------------------------------------------------------------------
  // Properties of the selection

  /** Empty input, or nothing left after the thresholds, gives an empty result. */
  lemma SelectBestEmpty(t: Table, c: Criteria)
    requires t.rows == [] || ApplyThresholds(t, c) == []
    ensures SelectBest(t, c) == Ok([])
  {
  }

  /** With no usable sort metric every row that passed the thresholds is returned and top_n is ignored. */
  lemma SelectBestWithoutSortColumns(t: Table, c: Criteria)
    requires UsableMetrics(c.sortBy, t.cols) == []
    ensures SelectBest(t, c) == Ok(ApplyThresholds(t, c))
  {
  }

  /** The selection fails exactly when some row reaches the sort and a usable sort position has no ascending flag. */
  lemma SelectBestFails(t: Table, c: Criteria)
    ensures SelectBest(t, c).Err? <==>
      Candidates(t, c) != [] && UsableMetrics(c.sortBy, t.cols) != []
      && exists j :: 0 <= j < |c.sortBy| && HasColumn(t.cols, c.sortBy[j]) && j >= |c.ascending|
  {
    var f := ApplyThresholds(t, c);
    var g := Candidates(t, c);
    if t.rows == [] || f == [] {
      KeepNone(f, NumericIn(UsableMetrics(c.sortBy, t.cols)));
    }
  }

  lemma KeepCons(rows: seq<Row>, test: RowTest)
    requires rows != []
    ensures Keep(rows, test) == (if Passes(rows[0], test) then [rows[0]] else []) + Keep(rows[1..], test)
  {
  }

  lemma {:induction false} QueryInSplit(rows: seq<Row>, qs: seq<string>, q: string)
    requires q !in qs
    ensures multiset(Keep(rows, QueryIn(qs + [q]))) == multiset(Keep(rows, QueryIn(qs))) + multiset(Keep(rows, QueryIs(q)))
  {
    if rows != [] {
      QueryInSplit(rows[1..], qs, q);
      KeepCons(rows, QueryIn(qs + [q]));
      KeepCons(rows, QueryIn(qs));
      KeepCons(rows, QueryIs(q));
    }
  }

  lemma PickGroupSubset(rows: seq<Row>, q: string, keys: seq<SortKey>, topN: Option<int>)
    ensures multiset(PickGroup(rows, q, keys, topN)) <= multiset(Keep(rows, QueryIs(q)))
  {
    HeadSubset(SortRows(Keep(rows, QueryIs(q)), keys), topN);
    SortRowsPerm(Keep(rows, QueryIs(q)), keys);
  }

  /** Concatenated groups, each drawn from its own query's rows, use each row at most once. */
  lemma {:induction false} ConcatSubset(gs: seq<seq<Row>>, labels: seq<string>, rows: seq<Row>)
    requires |gs| == |labels| && DistinctIds(labels)
    requires forall k :: 0 <= k < |gs| ==> multiset(gs[k]) <= multiset(Keep(rows, QueryIs(labels[k])))
    ensures multiset(Concat(gs)) <= multiset(Keep(rows, QueryIn(labels)))
    decreases |gs|
  {
    if gs != [] {
      var n := |gs| - 1;
      var init, q := labels[..n], labels[n];
      assert labels == init + [q];
      assert q !in init;
      ConcatSubset(gs[..n], init, rows);
      QueryInSplit(rows, init, q);
    }
  }

  /** The picked groups use each candidate row at most once. */
  lemma SelectGroupsSubset(rows: seq<Row>, qs: seq<string>, keys: seq<SortKey>, topN: Option<int>)
    requires DistinctIds(qs)
    ensures multiset(SelectGroups(rows, qs, keys, topN)) <= multiset(Keep(rows, QueryIn(qs)))
  {
    var gs := PickAll(rows, qs, keys, topN);
    forall k | 0 <= k < |gs| ensures multiset(gs[k]) <= multiset(Keep(rows, QueryIs(qs[k]))) {
      PickGroupSubset(rows, qs[k], keys, topN);
    }
    ConcatSubset(gs, qs, rows);
  }

  lemma RankSubset(g: seq<Row>, hasQuery: bool, keys: seq<SortKey>, topN: Option<int>)
    ensures multiset(Rank(g, hasQuery, keys, topN)) <= multiset(g)
  {
    if hasQuery {
      var qs := StrOrder.SortedSet(Queries(g));
      forall i, j | 0 <= i < j < |qs| ensures qs[i] != qs[j] { StrOrder.IncreasingDistinct(qs, i, j); }
      SelectGroupsSubset(g, qs, keys, topN);
      KeepSub(g, QueryIn(qs));
    } else {
      HeadSubset(SortRows(g, keys), topN);
      SortRowsPerm(g, keys);
    }
  }

  lemma MultisetMember(a: seq<Row>, b: seq<Row>)
    requires multiset(a) <= multiset(b)
    ensures forall x :: x in a ==> x in b
  {
    forall x | x in a ensures x in b { assert x in multiset(a); }
  }

  /** Every selected row is an input row (no row is duplicated) and passes every applicable threshold. */
  lemma SelectBestSubset(t: Table, c: Criteria)
    requires SelectBest(t, c).Ok?
    ensures multiset(SelectBest(t, c).value) <= multiset(t.rows)
    ensures forall x :: x in SelectBest(t, c).value ==> PassesThresholds(x, t.cols, c)
  {
    var f := ApplyThresholds(t, c);
    var g := Candidates(t, c);
    var r := SelectBest(t, c).value;
    ApplyThresholdsSub(t, c);
    if t.rows != [] && f != [] && UsableMetrics(c.sortBy, t.cols) != [] && g != [] {
      var keys := PairFlags(c.sortBy, c.ascending, t.cols, 0).value;
      RankSubset(g, t.cols.hasQuery, keys, c.topN);
      KeepSub(f, NumericIn(UsableMetrics(c.sortBy, t.cols)));
    }
    MultisetMember(r, f);
  }

  lemma PickGroupHomogeneous(rows: seq<Row>, q: string, keys: seq<SortKey>, topN: Option<int>)
    ensures forall x :: x in PickGroup(rows, q, keys, topN) ==> x.query == q
  {
    PickGroupSubset(rows, q, keys, topN);
    MultisetMember(PickGroup(rows, q, keys, topN), Keep(rows, QueryIs(q)));
  }

  /** Group `k` holds only rows whose query ID is `labels[k]`. */
  predicate Labelled(gs: seq<seq<Row>>, labels: seq<string>) {
    |gs| == |labels| && forall k, x :: 0 <= k < |gs| && x in gs[k] ==> x.query == labels[k]
  }

  /** Restricted to one query ID, concatenated labelled groups give that query's group. */
  lemma {:induction false} ConcatRestrict(gs: seq<seq<Row>>, labels: seq<string>, q: string)
    requires Labelled(gs, labels) && DistinctIds(labels)
    ensures forall k :: 0 <= k < |labels| && labels[k] == q ==> Keep(Concat(gs), QueryIs(q)) == gs[k]
    ensures q !in labels ==> Keep(Concat(gs), QueryIs(q)) == []
    decreases |gs|
  {
    if gs == [] {
    } else {
      var n := |gs| - 1;
      var init, last := gs[..n], gs[n];
      assert Labelled(init, labels[..n]);
      ConcatRestrict(init, labels[..n], q);
      KeepAppend(Concat(init), last, QueryIs(q));
      if labels[n] == q {
        KeepAll(last, QueryIs(q));
        assert q !in labels[..n];
      } else {
        KeepNone(last, QueryIs(q));
      }
      assert q in labels <==> q in labels[..n] || q == labels[n] by {
        assert labels == labels[..n] + [labels[n]];
      }
    }
  }

  /** Restricted to one query ID, the grouped result is that query's picked group. */
  lemma SelectGroupsRestrict(rows: seq<Row>, qs: seq<string>, keys: seq<SortKey>, topN: Option<int>, q: string)
    requires DistinctIds(qs)
    ensures Keep(SelectGroups(rows, qs, keys, topN), QueryIs(q)) == if q in qs then PickGroup(rows, q, keys, topN) else []
  {
    var gs := PickAll(rows, qs, keys, topN);
    forall k | 0 <= k < |gs| ensures forall x: Row :: x in gs[k] ==> x.query == qs[k] {
      PickGroupHomogeneous(rows, qs[k], keys, topN);
    }
    ConcatRestrict(gs, qs, q);
  }

  /** The grouped case of the selection, named for the lemmas below. */
  predicate Grouped(t: Table, c: Criteria) {
    SelectBest(t, c).Ok? && t.cols.hasQuery && UsableMetrics(c.sortBy, t.cols) != [] && Candidates(t, c) != []
  }

  lemma GroupedShape(t: Table, c: Criteria) returns (keys: seq<SortKey>, qs: seq<string>)
    requires Grouped(t, c)
    ensures PairFlags(c.sortBy, c.ascending, t.cols, 0) == Ok(keys)
    ensures qs == StrOrder.SortedSet(Queries(Candidates(t, c)))
    ensures DistinctIds(qs)
    ensures SelectBest(t, c).value == SelectGroups(Candidates(t, c), qs, keys, c.topN)
  {
    var f := ApplyThresholds(t, c);
    if t.rows == [] || f == [] {
      KeepNone(f, NumericIn(UsableMetrics(c.sortBy, t.cols)));
    }
    keys := PairFlags(c.sortBy, c.ascending, t.cols, 0).value;
    qs := StrOrder.SortedSet(Queries(Candidates(t, c)));
    forall i, j | 0 <= i < j < |qs| ensures qs[i] != qs[j] { StrOrder.IncreasingDistinct(qs, i, j); }
  }

  /** Each query ID contributes at most top_n rows. */
  lemma SelectBestTopN(t: Table, c: Criteria, q: string)
    requires Grouped(t, c) && c.topN.Some? && c.topN.value >= 0
    ensures |Keep(SelectBest(t, c).value, QueryIs(q))| <= c.topN.value
  {
    var keys, qs := GroupedShape(t, c);
    GroupsTopN(Candidates(t, c), qs, keys, c.topN.value, q);
  }

  lemma GroupsTopN(g: seq<Row>, qs: seq<string>, keys: seq<SortKey>, n: int, q: string)
    requires DistinctIds(qs) && n >= 0
    ensures |Keep(SelectGroups(g, qs, keys, Some(n)), QueryIs(q))| <= n
  {
    SelectGroupsRestrict(g, qs, keys, Some(n), q);
    if q in qs {
      var h := PickGroup(g, q, keys, Some(n));
      assert |h| <= n;
    }
  }

  lemma GroupsOrdered(g: seq<Row>, qs: seq<string>, keys: seq<SortKey>, topN: Option<int>, q: string)
    requires DistinctIds(qs)
    ensures SortedBy(Keep(SelectGroups(g, qs, keys, topN), QueryIs(q)), keys)
  {
    SelectGroupsRestrict(g, qs, keys, topN, q);
    if q in qs {
      var s := SortRows(Keep(g, QueryIs(q)), keys);
      var h := PickGroup(g, q, keys, topN);
      SortRowsSorted(Keep(g, QueryIs(q)), keys);
      assert forall i :: 0 <= i < |h| ==> h[i] == s[i];
    }
  }

  lemma PickGroupKeepsBest(g: seq<Row>, q: string, keys: seq<SortKey>, topN: Option<int>, x: Row, y: Row)
    requires x in PickGroup(g, q, keys, topN)
    requires y in g && y.query == q && Before(y, x, keys)
    ensures y in PickGroup(g, q, keys, topN)
  {
    KeptMember(g, QueryIs(q), y);
    var u := Keep(g, QueryIs(q));
    SortRowsPerm(u, keys);
    SortRowsSorted(u, keys);
    PrefixKeepsBest(u, SortRows(u, keys), PickGroup(g, q, keys, topN), keys, x, y);
  }

  /** A prefix of a sorted permutation of `u` holds every row of `u` that sorts before one of its own rows. */
  lemma PrefixKeepsBest(u: seq<Row>, s: seq<Row>, h: seq<Row>, keys: seq<SortKey>, x: Row, y: Row)
    requires multiset(s) == multiset(u) && SortedBy(s, keys) && h <= s
    requires x in h && y in u && Before(y, x, keys)
    ensures y in h
  {
    assert y in multiset(s);
    var j :| 0 <= j < |s| && s[j] == y;
    var i :| 0 <= i < |h| && h[i] == x;
    assert s[i] == x;
    SortedBefore(s, keys, i, j);
    assert y == h[j];
  }

  lemma PickGroupAll(g: seq<Row>, q: string, keys: seq<SortKey>, y: Row)
    requires y in g && y.query == q
    ensures y in PickGroup(g, q, keys, None)
  {
    KeptMember(g, QueryIs(q), y);
    var s := SortRows(Keep(g, QueryIs(q)), keys);
    SortRowsPerm(Keep(g, QueryIs(q)), keys);
    assert y in multiset(s);
  }

  lemma SortedBefore(s: seq<Row>, keys: seq<SortKey>, i: int, j: int)
    requires SortedBy(s, keys) && 0 <= i < |s| && 0 <= j < |s| && Before(s[j], s[i], keys)
    ensures j <= i
  {
  }

  /** Moves membership between a row list and its restriction to query `q`. */
  lemma RestrictIn(r: seq<Row>, qs: seq<string>, pg: seq<Row>, x: Row)
    requires Keep(r, QueryIs(x.query)) == if x.query in qs then pg else []
    requires x in r
    ensures x.query in qs && x in pg
  {
    KeptMember(r, QueryIs(x.query), x);
  }

  lemma RestrictOut(r: seq<Row>, qs: seq<string>, pg: seq<Row>, y: Row)
    requires Keep(r, QueryIs(y.query)) == if y.query in qs then pg else []
    requires y.query in qs && y in pg
    ensures y in r
  {
    KeptMember(r, QueryIs(y.query), y);
  }

  lemma GroupsKeepBest(g: seq<Row>, qs: seq<string>, keys: seq<SortKey>, topN: Option<int>, x: Row, y: Row)
    requires DistinctIds(qs)
    requires x in SelectGroups(g, qs, keys, topN)
    requires y in g && y.query == x.query && Before(y, x, keys)
    ensures y in SelectGroups(g, qs, keys, topN)
  {
    var q := x.query;
    var r := SelectGroups(g, qs, keys, topN);
    var pg := PickGroup(g, q, keys, topN);
    SelectGroupsRestrict(g, qs, keys, topN, q);
    RestrictIn(r, qs, pg, x);
    PickGroupKeepsBest(g, q, keys, topN, x, y);
    RestrictOut(r, qs, pg, y);
  }

  lemma GroupsComplete(g: seq<Row>, qs: seq<string>, keys: seq<SortKey>, y: Row)
    requires DistinctIds(qs)
    requires y in g && y.query in qs
    ensures y in SelectGroups(g, qs, keys, None)
  {
    var q := y.query;
    var r := SelectGroups(g, qs, keys, None);
    var pg := PickGroup(g, q, keys, None);
    SelectGroupsRestrict(g, qs, keys, None, q);
    PickGroupAll(g, q, keys, y);
    RestrictOut(r, qs, pg, y);
  }

  /** Within one query ID the selected rows are ordered by the sort keys with their paired flags. */
  lemma SelectBestOrdered(t: Table, c: Criteria, q: string) returns (keys: seq<SortKey>)
    requires Grouped(t, c)
    ensures PairFlags(c.sortBy, c.ascending, t.cols, 0) == Ok(keys)
    ensures SortedBy(Keep(SelectBest(t, c).value, QueryIs(q)), keys)
  {
    var qs;
    keys, qs := GroupedShape(t, c);
    GroupsOrdered(Candidates(t, c), qs, keys, c.topN, q);
  }

  /**
   * The kept rows are the best ones: a candidate of the same query that sorts
   * strictly before a kept row is kept too.
   */
  lemma SelectBestKeepsBest(t: Table, c: Criteria, x: Row, y: Row) returns (keys: seq<SortKey>)
    requires Grouped(t, c)
    requires x in SelectBest(t, c).value
    requires y in Candidates(t, c) && y.query == x.query
    ensures PairFlags(c.sortBy, c.ascending, t.cols, 0) == Ok(keys)
    ensures Before(y, x, keys) ==> y in SelectBest(t, c).value
  {
    var qs;
    keys, qs := GroupedShape(t, c);
    if Before(y, x, keys) {
      GroupsKeepBest(Candidates(t, c), qs, keys, c.topN, x, y);
    }
  }

  /** With top_n None every candidate row is returned. */
  lemma SelectBestAllWhenUnlimited(t: Table, c: Criteria, y: Row)
    requires Grouped(t, c) && c.topN.None?
    requires y in Candidates(t, c)
    ensures y in SelectBest(t, c).value
  {
    var keys, qs := GroupedShape(t, c);
    var g := Candidates(t, c);
    assert y.query in Queries(g) by { var k :| 0 <= k < |g| && g[k] == y; assert Queries(g)[k] == y.query; }
    GroupsComplete(g, qs, keys, y);
  }

  // ---------------------------------------------------------------------
  // The two-hop mapping source -> bridge -> target (`map_genes_via_bridge`)

  /** The source gene IDs: a single string or a list. */
  datatype GeneIds = OneId(id: string) | IdList(ids: seq<string>)

  function InputIds(input: GeneIds): seq<string> {
    match input
    case OneId(id) => [id]
    case IdList(ids) => ids
  }

  /** Every query ID of the rows cut by the slicer (`str.split(slicer).str[0]`). */
  function SliceQueries(rows: seq<Row>, slicer: Option<string>): (r: seq<Row>)
    ensures |r| == |rows|
    ensures forall k :: 0 <= k < |rows| ==> r[k] == rows[k].(query := ApplyIdSlicer(rows[k].query, slicer))
  {
    if rows == [] then [] else [rows[0].(query := ApplyIdSlicer(rows[0].query, slicer))] + SliceQueries(rows[1..], slicer)
  }

  /** Every match ID of the rows cut by the slicer. */
  function SliceHits(rows: seq<Row>, slicer: Option<string>): (r: seq<Row>)
    ensures |r| == |rows|
    ensures forall k :: 0 <= k < |rows| ==> r[k] == rows[k].(hit := ApplyIdSlicer(rows[k].hit, slicer))
  {
    if rows == [] then [] else [rows[0].(hit := ApplyIdSlicer(rows[0].hit, slicer))] + SliceHits(rows[1..], slicer)
  }

  /** Without a slicer the IDs are unchanged. */
  lemma SliceNone(rows: seq<Row>)
    ensures SliceQueries(rows, None) == rows && SliceHits(rows, None) == rows
  {
  }

  const DirectNote: string := "直接匹配"

  function FuzzyNote(input: string): string {
    "模糊匹配 on '" + input + "'"
  }

  /** The available IDs that start with `input`, in order. */
  function Prefixed(avail: seq<string>, input: string): (ms: seq<string>)
    ensures forall x :: x in ms <==> x in avail && input <= x
  {
    if avail == [] then []
    else
      assert avail == [avail[0]] + avail[1..];
      (if input <= avail[0] then [avail[0]] else []) + Prefixed(avail[1..], input)
  }

  /** The state of the resolution loop: the expanded source IDs, their notes and the fuzzy count. */
  datatype Resolution = Resolution(expanded: seq<string>, notes: map<string, string>, fuzzyCount: nat)

  /** The notes after giving every ID of `ids` the note `note`. */
  function NoteAll(notes: map<string, string>, ids: seq<string>, note: string): (m: map<string, string>)
    ensures forall x :: x in m <==> x in notes || x in ids
    ensures forall x :: x in m ==> m[x] == if x in ids then note else notes[x]
  {
    if ids == [] then notes
    else
      assert forall x :: x in ids <==> x in ids[..|ids| - 1] || x == ids[|ids| - 1];
      NoteAll(notes, ids[..|ids| - 1], note)[ids[|ids| - 1] := note]
  }

  /** One iteration: a verbatim hit, else every available ID it prefixes, else nothing. */
  function ResolveOne(res: Resolution, input: string, avail: seq<string>): Resolution {
    if input in avail then
      Resolution(res.expanded + [input], res.notes[input := DirectNote], res.fuzzyCount)
    else
      var ms := Prefixed(avail, input);
      if ms == [] then res
      else Resolution(res.expanded + ms, NoteAll(res.notes, ms, FuzzyNote(input)), res.fuzzyCount + 1)
  }

  /** The resolution loop over the inputs, in order. */
  function Resolve(inputs: seq<string>, avail: seq<string>): (r: Resolution)
    ensures r.fuzzyCount <= |inputs|
    ensures forall x :: x in r.notes <==> x in r.expanded
    ensures forall x :: x in r.expanded ==> x in avail
  {
    if inputs == [] then Resolution([], map[], 0)
    else ResolveOne(Resolve(inputs[..|inputs| - 1], avail), inputs[|inputs| - 1], avail)
  }

  lemma ResolveSnoc(inputs: seq<string>, u: string, avail: seq<string>)
    ensures Resolve(inputs + [u], avail) == ResolveOne(Resolve(inputs, avail), u, avail)
  {
    assert (inputs + [u])[..|inputs|] == inputs;
  }

  /** The resolution loop of `map_genes_via_bridge`, with its inner loop over the fuzzy matches. */
  method ResolveSourceIds(inputs: seq<string>, avail: seq<string>) returns (res: Resolution)
    ensures res == Resolve(inputs, avail)
  {
    var fuzzyCount := 0;
    var expanded := [];
    var notes := map[];
    for i := 0 to |inputs|
      invariant Resolution(expanded, notes, fuzzyCount) == Resolve(inputs[..i], avail)
    {
      var id := inputs[i];
      ghost var prev := Resolution(expanded, notes, fuzzyCount);
      assert inputs[..i + 1] == inputs[..i] + [id];
      ResolveSnoc(inputs[..i], id, avail);
      if id in avail {
        expanded := expanded + [id];
        notes := notes[id := DirectNote];
      } else {
        var fuzzy := Prefixed(avail, id);
        if fuzzy != [] {
          fuzzyCount := fuzzyCount + 1;
          expanded := expanded + fuzzy;
          notes := NoteMatches(notes, fuzzy, FuzzyNote(id));
        }
      }
      assert Resolution(expanded, notes, fuzzyCount) == ResolveOne(prev, id, avail);
    }
    assert inputs[..|inputs|] == inputs;
    res := Resolution(expanded, notes, fuzzyCount);
  }

  /** The inner loop over the fuzzy matches: each match is given the note. */
  method NoteMatches(notes: map<string, string>, matches: seq<string>, note: string) returns (r: map<string, string>)
    ensures r == NoteAll(notes, matches, note)
  {
    r := notes;
    for j := 0 to |matches|
      invariant r == NoteAll(notes, matches[..j], note)
    {
      assert matches[..j + 1][..j] == matches[..j];
      r := r[matches[j] := note];
    }
    assert matches[..|matches|] == matches;
  }

  /** Input `u` brings in ID `x`: verbatim, or by prefix when `u` itself is not available. */
  predicate Reaches(u: string, x: string, avail: seq<string>) {
    x in avail && (u == x || (u !in avail && u <= x))
  }

  /** The note input `u` gives the IDs it brings in. */
  function NoteFor(u: string, avail: seq<string>): string {
    if u in avail then DirectNote else FuzzyNote(u)
  }

  /** An input resolved only by prefix: not available itself, but a prefix of an available ID. */
  predicate FuzzyInput(u: string, avail: seq<string>) {
    u !in avail && exists a :: a in avail && u <= a
  }

  /** Input `k` is the last one that brings in `x`. */
  predicate LastReacher(inputs: seq<string>, avail: seq<string>, x: string, k: int) {
    0 <= k < |inputs| && Reaches(inputs[k], x, avail)
    && forall l :: k < l < |inputs| ==> !Reaches(inputs[l], x, avail)
  }

  lemma ResolveOneExpanded(res: Resolution, u: string, avail: seq<string>)
    ensures forall x :: x in ResolveOne(res, u, avail).expanded <==> x in res.expanded || Reaches(u, x, avail)
  {
  }

  /** The expanded IDs are exactly the available IDs some input brings in. */
  lemma {:induction false} ResolveExpanded(inputs: seq<string>, avail: seq<string>)
    ensures forall x :: x in Resolve(inputs, avail).expanded <==> exists u :: u in inputs && Reaches(u, x, avail)
  {
    if inputs != [] {
      var init := inputs[..|inputs| - 1];
      var u := inputs[|inputs| - 1];
      ResolveExpanded(init, avail);
      ResolveOneExpanded(Resolve(init, avail), u, avail);
      assert forall v :: v in inputs <==> v in init || v == u;
    }
  }

  lemma LastReacherHere(inputs: seq<string>, avail: seq<string>, x: string)
    requires inputs != [] && Reaches(inputs[|inputs| - 1], x, avail)
    ensures LastReacher(inputs, avail, x, |inputs| - 1)
  {
  }

  lemma LastReacherExtend(inputs: seq<string>, avail: seq<string>, x: string, k: int)
    requires inputs != [] && !Reaches(inputs[|inputs| - 1], x, avail)
    requires LastReacher(inputs[..|inputs| - 1], avail, x, k)
    ensures LastReacher(inputs, avail, x, k) && inputs[k] == inputs[..|inputs| - 1][k]
  {
  }

  lemma ResolveOneNotes(res: Resolution, u: string, avail: seq<string>)
    ensures forall x :: x in ResolveOne(res, u, avail).notes <==> x in res.notes || Reaches(u, x, avail)
    ensures forall x :: x in ResolveOne(res, u, avail).notes ==>
      ResolveOne(res, u, avail).notes[x] == if Reaches(u, x, avail) then NoteFor(u, avail) else res.notes[x]
  {
  }

  /**
   * Every expanded ID has a note, and nothing else has one; the note is the
   * one given by the last input that brings the ID in.
   */
  lemma {:induction false} ResolveNotes(inputs: seq<string>, avail: seq<string>)
    ensures forall x :: x in Resolve(inputs, avail).notes <==> x in Resolve(inputs, avail).expanded
    ensures forall x :: x in Resolve(inputs, avail).notes ==>
      exists k :: LastReacher(inputs, avail, x, k) && Resolve(inputs, avail).notes[x] == NoteFor(inputs[k], avail)
  {
    if inputs != [] {
      var n := |inputs| - 1;
      var init := inputs[..n];
      var u := inputs[n];
      var prev := Resolve(init, avail);
      var cur := Resolve(inputs, avail);
      ResolveNotes(init, avail);
      ResolveOneNotes(prev, u, avail);
      ResolveOneExpanded(prev, u, avail);
      forall x | x in cur.notes
        ensures exists k :: LastReacher(inputs, avail, x, k) && cur.notes[x] == NoteFor(inputs[k], avail)
      {
        if Reaches(u, x, avail) {
          LastReacherHere(inputs, avail, x);
        } else {
          var k :| LastReacher(init, avail, x, k) && prev.notes[x] == NoteFor(init[k], avail);
          LastReacherExtend(inputs, avail, x, k);
        }
      }
    }
  }

  lemma ResolveOneCount(res: Resolution, u: string, avail: seq<string>)
    ensures ResolveOne(res, u, avail).fuzzyCount == res.fuzzyCount + if FuzzyInput(u, avail) then 1 else 0
  {
    if FuzzyInput(u, avail) {
      var a :| a in avail && u <= a;
      assert a in Prefixed(avail, u);
    } else if u !in avail {
      PrefixedNone(avail, u);
    }
  }

  lemma PrefixedNone(avail: seq<string>, u: string)
    requires forall a :: a in avail ==> !(u <= a)
    ensures Prefixed(avail, u) == []
  {
    if Prefixed(avail, u) != [] {
      assert Prefixed(avail, u)[0] in Prefixed(avail, u);
    }
  }

  /** The inputs resolved only by prefix. */
  function FuzzyInputs(inputs: seq<string>, avail: seq<string>): set<string> {
    set u | u in inputs && FuzzyInput(u, avail)
  }

  lemma FuzzyInputsSnoc(init: seq<string>, u: string, avail: seq<string>)
    requires u !in init
    ensures |FuzzyInputs(init + [u], avail)| == |FuzzyInputs(init, avail)| + if FuzzyInput(u, avail) then 1 else 0
  {
    var before := FuzzyInputs(init, avail);
    if FuzzyInput(u, avail) {
      assert FuzzyInputs(init + [u], avail) == before + {u};
    } else {
      assert FuzzyInputs(init + [u], avail) == before;
    }
  }

  lemma DistinctInit(inputs: seq<string>, init: seq<string>, u: string)
    requires inputs == init + [u]
    requires forall i, j :: 0 <= i < j < |inputs| ==> inputs[i] != inputs[j]
    ensures forall i, j :: 0 <= i < j < |init| ==> init[i] != init[j]
    ensures u !in init
  {
    assert forall i :: 0 <= i < |init| ==> init[i] == inputs[i];
    assert inputs[|init|] == u;
  }

  /** Over distinct inputs the fuzzy count is the number of inputs resolved only by prefix. */
  lemma {:induction false} ResolveCount(inputs: seq<string>, avail: seq<string>)
    requires forall i, j :: 0 <= i < j < |inputs| ==> inputs[i] != inputs[j]
    ensures Resolve(inputs, avail).fuzzyCount == |set u | u in inputs && FuzzyInput(u, avail)|
  {
    if inputs != [] {
      var n := |inputs| - 1;
      var init, u := inputs[..n], inputs[n];
      assert inputs == init + [u];
      DistinctInit(inputs, init, u);
      ResolveCount(init, avail);
      ResolveOneCount(Resolve(init, avail), u, avail);
      FuzzyInputsSnoc(init, u, avail);
    }
  }

  /** One row of the merged table: the source->bridge hit, the bridge->target hit and the match note. */
  datatype Path = Path(first: Row, second: Row, note: string)

  /** `Series.map(notes)`; a missing key (which never happens, see MapPathsNoted) reads as "". */
  function NoteOf(notes: map<string, string>, id: string): string {
    if id in notes then notes[id] else ""
  }

  /** The merged rows of one hop-1 row: one per hop-2 row on the same bridge ID. */
  function JoinRow(a: Row, hop2: seq<Row>, note: string): seq<Path> {
    if hop2 == [] then []
    else (if hop2[0].query == a.hit then [Path(a, hop2[0], note)] else []) + JoinRow(a, hop2[1..], note)
  }

  /** `pd.merge(hop1, hop2, on=bridge, how="inner")` with the note column added. */
  function Join(hop1: seq<Row>, hop2: seq<Row>, notes: map<string, string>): seq<Path> {
    if hop1 == [] then []
    else JoinRow(hop1[0], hop2, NoteOf(notes, hop1[0].query)) + Join(hop1[1..], hop2, notes)
  }

  lemma {:induction false} JoinRowMembers(a: Row, hop2: seq<Row>, note: string)
    ensures forall p :: p in JoinRow(a, hop2, note) <==>
      p.first == a && p.second in hop2 && p.second.query == a.hit && p.note == note
  {
    if hop2 != [] {
      JoinRowMembers(a, hop2[1..], note);
      assert hop2 == [hop2[0]] + hop2[1..];
    }
  }

  /** The merge pairs every hop-1 row with every hop-2 row on the same bridge ID, and nothing else. */
  lemma {:induction false} JoinMembers(hop1: seq<Row>, hop2: seq<Row>, notes: map<string, string>)
    ensures forall p :: p in Join(hop1, hop2, notes) <==>
      p.first in hop1 && p.second in hop2 && p.second.query == p.first.hit && p.note == NoteOf(notes, p.first.query)
  {
    if hop1 != [] {
      JoinMembers(hop1[1..], hop2, notes);
      JoinRowMembers(hop1[0], hop2, NoteOf(notes, hop1[0].query));
      assert hop1 == [hop1[0]] + hop1[1..];
    }
  }

  /** The result: the distinct merged rows and the fuzzy count. */
  datatype Mapping = Mapping(paths: seq<Path>, fuzzyCount: nat)

  /** The source->bridge rows after both slicers. */
  function SourceRows(s2b: seq<Row>, sourceSlicer: Option<string>, bridgeSlicer: Option<string>): seq<Row> {
    SliceHits(SliceQueries(s2b, sourceSlicer), bridgeSlicer)
  }

  /** The distinct source query IDs (`set(... .unique())`, in first-occurrence order). */
  function Available(rows: seq<Row>): seq<string> {
    Unique(Queries(rows))
  }

  /** The rows whose query ID is listed; the query column is present, or the source raises KeyError first. */
  function HopTable(cols: Columns, rows: seq<Row>, ids: seq<string>): Table {
    Table(cols.(hasQuery := true), Keep(rows, QueryIn(ids)))
  }

  function ResolveInput(input: GeneIds, s2b: seq<Row>, sourceSlicer: Option<string>, bridgeSlicer: Option<string>): Resolution {
    Resolve(Unique(InputIds(input)), Available(SourceRows(s2b, sourceSlicer, bridgeSlicer)))
  }

  /** Step 1: the best bridge hits of the expanded source IDs. */
  function Hop1(input: GeneIds, s2b: Table, c1: Criteria, sourceSlicer: Option<string>, bridgeSlicer: Option<string>): Result<seq<Row>, SelectError> {
    SelectBest(HopTable(s2b.cols, SourceRows(s2b.rows, sourceSlicer, bridgeSlicer),
                        ResolveInput(input, s2b.rows, sourceSlicer, bridgeSlicer).expanded), c1)
  }

  /** Step 2: the best target hits of the bridge IDs step 1 found. */
  function Hop2(hop1: seq<Row>, b2t: Table, c2: Criteria, bridgeSlicer: Option<string>): Result<seq<Row>, SelectError> {
    SelectBest(HopTable(b2t.cols, SliceQueries(b2t.rows, bridgeSlicer), Unique(Hits(hop1))), c2)
  }

  /** `map_genes_via_bridge`; an IndexError of either selection propagates. */
  function MapViaBridge(input: GeneIds, s2b: Table, b2t: Table, c1: Criteria, c2: Criteria,
                        sourceSlicer: Option<string>, bridgeSlicer: Option<string>): (r: Result<Mapping, SelectError>)
    ensures InputIds(input) == [] ==> r == Ok(Mapping([], 0))
    ensures r.Ok? && r.value.paths != [] ==> ResolveInput(input, s2b.rows, sourceSlicer, bridgeSlicer).expanded != []
  {
    if InputIds(input) == [] then Ok(Mapping([], 0))
    else
      var res := ResolveInput(input, s2b.rows, sourceSlicer, bridgeSlicer);
      if res.expanded == [] then Ok(Mapping([], res.fuzzyCount))
      else
        match Hop1(input, s2b, c1, sourceSlicer, bridgeSlicer)
        case Err(e) => Err(e)
        case Ok(hop1) =>
          if hop1 == [] then Ok(Mapping([], res.fuzzyCount))
          else
            match Hop2(hop1, b2t, c2, bridgeSlicer)
            case Err(e) => Err(e)
            case Ok(hop2) =>
              if hop2 == [] then Ok(Mapping([], res.fuzzyCount))
              else Ok(Mapping(Unique(Join(hop1, hop2, res.notes)), res.fuzzyCount))
  }

  /** `map_genes_via_bridge`, step by step. */
  method MapGenesViaBridge(input: GeneIds, s2b: Table, b2t: Table, c1: Criteria, c2: Criteria,
                           sourceSlicer: Option<string>, bridgeSlicer: Option<string>) returns (r: Result<Mapping, SelectError>)
    ensures r == MapViaBridge(input, s2b, b2t, c1, c2, sourceSlicer, bridgeSlicer)
  {
    var ids := InputIds(input);
    if ids == [] {
      return Ok(Mapping([], 0));
    }
    var s2bRows := SliceQueries(s2b.rows, sourceSlicer);
    s2bRows := SliceHits(s2bRows, bridgeSlicer);
    var b2tRows := SliceQueries(b2t.rows, bridgeSlicer);
    var res := ResolveSourceIds(Unique(ids), Available(s2bRows));
    if res.expanded == [] {
      return Ok(Mapping([], res.fuzzyCount));
    }
    var best1 := SelectBestHomologs(HopTable(s2b.cols, s2bRows, res.expanded), c1);
    if best1.Err? {
      return Err(best1.error);
    }
    var hop1 := best1.value;
    if hop1 == [] {
      return Ok(Mapping([], res.fuzzyCount));
    }
    var best2 := SelectBestHomologs(HopTable(b2t.cols, b2tRows, Unique(Hits(hop1))), c2);
    if best2.Err? {
      return Err(best2.error);
    }
    var hop2 := best2.value;
    if hop2 == [] {
      return Ok(Mapping([], res.fuzzyCount));
    }
    var merged := Join(hop1, hop2, res.notes);
    return Ok(Mapping(Unique(merged), res.fuzzyCount));
  }

  // ---------------------------------------------------------------------
  // Properties of the mapping

  /** An empty input list maps to nothing, with count 0. */
  lemma MapViaBridgeEmptyInput(input: GeneIds, s2b: Table, b2t: Table, c1: Criteria, c2: Criteria,
                               sourceSlicer: Option<string>, bridgeSlicer: Option<string>)
    requires InputIds(input) == []
    ensures MapViaBridge(input, s2b, b2t, c1, c2, sourceSlicer, bridgeSlicer) == Ok(Mapping([], 0))
  {
  }

  /** The count is the number of distinct inputs resolved only by prefix, early returns included. */
  lemma MapViaBridgeCount(input: GeneIds, s2b: Table, b2t: Table, c1: Criteria, c2: Criteria,
                          sourceSlicer: Option<string>, bridgeSlicer: Option<string>)
    requires MapViaBridge(input, s2b, b2t, c1, c2, sourceSlicer, bridgeSlicer).Ok?
    ensures MapViaBridge(input, s2b, b2t, c1, c2, sourceSlicer, bridgeSlicer).value.fuzzyCount ==
      |set u | u in InputIds(input) && FuzzyInput(u, Available(SourceRows(s2b.rows, sourceSlicer, bridgeSlicer)))|
  {
    var ids := InputIds(input);
    var avail := Available(SourceRows(s2b.rows, sourceSlicer, bridgeSlicer));
    MapViaBridgeResolves(input, s2b, b2t, c1, c2, sourceSlicer, bridgeSlicer);
    ResolveCount(Unique(ids), avail);
    FuzzyInputsUnique(ids, avail);
  }

  /** The returned count is the resolution's, on every path through the mapping. */
  lemma MapViaBridgeResolves(input: GeneIds, s2b: Table, b2t: Table, c1: Criteria, c2: Criteria,
                             sourceSlicer: Option<string>, bridgeSlicer: Option<string>)
    requires MapViaBridge(input, s2b, b2t, c1, c2, sourceSlicer, bridgeSlicer).Ok?
    ensures MapViaBridge(input, s2b, b2t, c1, c2, sourceSlicer, bridgeSlicer).value.fuzzyCount ==
      ResolveInput(input, s2b.rows, sourceSlicer, bridgeSlicer).fuzzyCount
  {
  }

  lemma FuzzyInputsUnique(ids: seq<string>, avail: seq<string>)
    ensures (set u | u in Unique(ids) && FuzzyInput(u, avail)) == (set u | u in ids && FuzzyInput(u, avail))
  {
  }

  /** `p` is the merge of hop-1 row `p.first` and hop-2 row `p.second`, noted by its source ID. */
  predicate Linked(p: Path, hop1: seq<Row>, hop2: seq<Row>, notes: map<string, string>) {
    p.first in hop1 && p.second in hop2 && p.second.query == p.first.hit && p.note == NoteOf(notes, p.first.query)
  }

  lemma QueryInNone(rows: seq<Row>)
    ensures Keep(rows, QueryIn([])) == []
  {
    KeepNone(rows, QueryIn([]));
  }

  /** Whenever the mapping succeeds, the first selection succeeds, and selects nothing when no source ID was expanded. */
  lemma Hop1Steps(input: GeneIds, s2b: Table, b2t: Table, c1: Criteria, c2: Criteria,
                  sourceSlicer: Option<string>, bridgeSlicer: Option<string>)
    requires MapViaBridge(input, s2b, b2t, c1, c2, sourceSlicer, bridgeSlicer).Ok?
    ensures Hop1(input, s2b, c1, sourceSlicer, bridgeSlicer).Ok?
    ensures ResolveInput(input, s2b.rows, sourceSlicer, bridgeSlicer).expanded == [] ==>
      Hop1(input, s2b, c1, sourceSlicer, bridgeSlicer).value == []
  {
    if ResolveInput(input, s2b.rows, sourceSlicer, bridgeSlicer).expanded == [] {
      HopOfNothing(s2b.cols, SourceRows(s2b.rows, sourceSlicer, bridgeSlicer), c1);
    }
  }

  /** Whenever the mapping succeeds, the second selection succeeds, and selects nothing after an empty first one. */
  lemma Hop2Steps(input: GeneIds, s2b: Table, b2t: Table, c1: Criteria, c2: Criteria,
                  sourceSlicer: Option<string>, bridgeSlicer: Option<string>)
    requires MapViaBridge(input, s2b, b2t, c1, c2, sourceSlicer, bridgeSlicer).Ok?
    requires Hop1(input, s2b, c1, sourceSlicer, bridgeSlicer).Ok?
    requires ResolveInput(input, s2b.rows, sourceSlicer, bridgeSlicer).expanded == [] ==>
      Hop1(input, s2b, c1, sourceSlicer, bridgeSlicer).value == []
    ensures Hop2(Hop1(input, s2b, c1, sourceSlicer, bridgeSlicer).value, b2t, c2, bridgeSlicer).Ok?
    ensures Hop1(input, s2b, c1, sourceSlicer, bridgeSlicer).value == [] ==>
      Hop2(Hop1(input, s2b, c1, sourceSlicer, bridgeSlicer).value, b2t, c2, bridgeSlicer).value == []
  {
    var hop1 := Hop1(input, s2b, c1, sourceSlicer, bridgeSlicer).value;
    if hop1 == [] {
      assert Unique(Hits(hop1)) == [];
      HopOfNothing(b2t.cols, SliceQueries(b2t.rows, bridgeSlicer), c2);
    }
  }

  /** A hop with no query IDs selects nothing. */
  lemma HopOfNothing(cols: Columns, rows: seq<Row>, c: Criteria)
    ensures SelectBest(HopTable(cols, rows, []), c) == Ok([])
  {
    QueryInNone(rows);
    SelectBestEmpty(HopTable(cols, rows, []), c);
  }

  /**
   * Whenever the mapping succeeds, the paths are exactly the joins of a hop-1
   * row with a hop-2 row on the same bridge ID (the early returns are the
   * cases where no such pair exists).
   */
  lemma MapViaBridgePaths(input: GeneIds, s2b: Table, b2t: Table, c1: Criteria, c2: Criteria,
                          sourceSlicer: Option<string>, bridgeSlicer: Option<string>)
    requires MapViaBridge(input, s2b, b2t, c1, c2, sourceSlicer, bridgeSlicer).Ok?
    ensures Hop1(input, s2b, c1, sourceSlicer, bridgeSlicer).Ok?
    ensures Hop2(Hop1(input, s2b, c1, sourceSlicer, bridgeSlicer).value, b2t, c2, bridgeSlicer).Ok?
    ensures forall p :: p in MapViaBridge(input, s2b, b2t, c1, c2, sourceSlicer, bridgeSlicer).value.paths <==>
      Linked(p, Hop1(input, s2b, c1, sourceSlicer, bridgeSlicer).value,
             Hop2(Hop1(input, s2b, c1, sourceSlicer, bridgeSlicer).value, b2t, c2, bridgeSlicer).value,
             ResolveInput(input, s2b.rows, sourceSlicer, bridgeSlicer).notes)
  {
    Hop1Steps(input, s2b, b2t, c1, c2, sourceSlicer, bridgeSlicer);
    Hop2Steps(input, s2b, b2t, c1, c2, sourceSlicer, bridgeSlicer);
    var res := ResolveInput(input, s2b.rows, sourceSlicer, bridgeSlicer);
    var hop1 := Hop1(input, s2b, c1, sourceSlicer, bridgeSlicer).value;
    var hop2 := Hop2(hop1, b2t, c2, bridgeSlicer).value;
    var paths := MapViaBridge(input, s2b, b2t, c1, c2, sourceSlicer, bridgeSlicer).value.paths;
    if InputIds(input) != [] && res.expanded != [] && hop1 != [] && hop2 != [] {
      assert paths == Unique(Join(hop1, hop2, res.notes));
      JoinMembers(hop1, hop2, res.notes);
    } else {
      assert paths == [];
    }
  }

  /** No path is listed twice (`drop_duplicates`). */
  lemma MapViaBridgeDistinct(input: GeneIds, s2b: Table, b2t: Table, c1: Criteria, c2: Criteria,
                             sourceSlicer: Option<string>, bridgeSlicer: Option<string>)
    requires MapViaBridge(input, s2b, b2t, c1, c2, sourceSlicer, bridgeSlicer).Ok?
    ensures var paths := MapViaBridge(input, s2b, b2t, c1, c2, sourceSlicer, bridgeSlicer).value.paths;
      forall i, j :: 0 <= i < j < |paths| ==> paths[i] != paths[j]
  {
    var paths := MapViaBridge(input, s2b, b2t, c1, c2, sourceSlicer, bridgeSlicer).value.paths;
    var res := ResolveInput(input, s2b.rows, sourceSlicer, bridgeSlicer);
    if InputIds(input) != [] && res.expanded != [] {
      var hop1 := Hop1(input, s2b, c1, sourceSlicer, bridgeSlicer).value;
      if hop1 != [] {
        var hop2 := Hop2(hop1, b2t, c2, bridgeSlicer).value;
        if hop2 != [] {
          assert paths == Unique(Join(hop1, hop2, res.notes));
        }
      }
    }
  }

  /**
   * Every path starts from a (sliced) source row of an expanded ID and ends in a
   * (sliced) bridge row, each passing its step's thresholds; its note is the one
   * given by the last input that brought the source ID in.
   */
  lemma MapViaBridgeSources(input: GeneIds, s2b: Table, b2t: Table, c1: Criteria, c2: Criteria,
                            sourceSlicer: Option<string>, bridgeSlicer: Option<string>, p: Path)
    requires MapViaBridge(input, s2b, b2t, c1, c2, sourceSlicer, bridgeSlicer).Ok?
    requires p in MapViaBridge(input, s2b, b2t, c1, c2, sourceSlicer, bridgeSlicer).value.paths
    ensures p.first in SourceRows(s2b.rows, sourceSlicer, bridgeSlicer) && PassesThresholds(p.first, s2b.cols, c1)
    ensures p.second in SliceQueries(b2t.rows, bridgeSlicer) && PassesThresholds(p.second, b2t.cols, c2)
    ensures p.second.query == p.first.hit
    ensures var avail := Available(SourceRows(s2b.rows, sourceSlicer, bridgeSlicer));
      exists k :: LastReacher(Unique(InputIds(input)), avail, p.first.query, k)
                  && p.note == NoteFor(Unique(InputIds(input))[k], avail)
  {
    MapViaBridgePaths(input, s2b, b2t, c1, c2, sourceSlicer, bridgeSlicer);
    var res := ResolveInput(input, s2b.rows, sourceSlicer, bridgeSlicer);
    var srcRows := SourceRows(s2b.rows, sourceSlicer, bridgeSlicer);
    var hop1 := Hop1(input, s2b, c1, sourceSlicer, bridgeSlicer).value;
    HopRow(s2b.cols, srcRows, res.expanded, c1, p.first);
    HopRow(b2t.cols, SliceQueries(b2t.rows, bridgeSlicer), Unique(Hits(hop1)), c2, p.second);
    ResolveNotes(Unique(InputIds(input)), Available(srcRows));
  }

  /** A row one step selects is a row of that step, of a listed query ID, past the thresholds. */
  lemma HopRow(cols: Columns, rows: seq<Row>, ids: seq<string>, c: Criteria, x: Row)
    requires SelectBest(HopTable(cols, rows, ids), c).Ok?
    requires x in SelectBest(HopTable(cols, rows, ids), c).value
    ensures x in rows && x.query in ids && PassesThresholds(x, cols, c)
  {
    var t := HopTable(cols, rows, ids);
    SelectBestSubset(t, c);
    MultisetMember(SelectBest(t, c).value, t.rows);
  }
}
