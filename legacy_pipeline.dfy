/**
 * The self-contained parts of the older `cotton_toolkit/pipelines.py`:
 * header-row detection in a sheet, the direct source→bridge and
 * bridge→target lookup of `run_homology_mapping`, and the output-format
 * dispatch of `save_mapping_results`.
 */
module LegacyPipeline {
  import opened Wrappers
  import opened PyText
  import opened Numeric
  import opened SeqUtil
  import HM = HomologyMapper

  // ---------------------------------------------------------------------
  // _find_header_row
  // ---------------------------------------------------------------------

  /**
   * `[str(v).lower() for v in row]`; cells are already text. No result cell
   * holds an upper-case letter, and lower-casing it again changes nothing.
   */
  function LowerCells(cells: seq<string>): (r: seq<string>)
    ensures |r| == |cells| && forall k :: 0 <= k < |cells| ==> r[k] == Lower(cells[k])
    ensures forall k, i :: 0 <= k < |r| && 0 <= i < |r[k]| ==> !('A' <= r[k][i] <= 'Z')
    ensures forall k :: 0 <= k < |r| ==> Lower(r[k]) == r[k]
  {
    seq(|cells|, k requires 0 <= k < |cells| => LowerIdempotent(cells[k]); Lower(cells[k]))
  }

  /** The lower-cased cells of one row, joined by single spaces. */
  function RowText(cells: seq<string>): string {
    Join(LowerCells(cells), " ")
  }

  /** Some lower-cased keyword occurs in the row's text. */
  predicate MentionsKeyword(cells: seq<string>, keywords: seq<string>) {
    exists k :: 0 <= k < |keywords| && Contains(RowText(cells), Lower(keywords[k]))
  }

  /** `any(keyword.lower() in text for keyword in keywords)` */
  function AnyKeyword(text: string, keywords: seq<string>): (b: bool)
    ensures b <==> exists k :: 0 <= k < |keywords| && Contains(text, Lower(keywords[k]))
  {
    if keywords == [] then false
    else
      assert forall k :: 1 <= k < |keywords| ==> keywords[k] == keywords[1..][k - 1];
      Contains(text, Lower(keywords[0])) || AnyKeyword(text, keywords[1..])
  }

  /**
   * `_find_header_row`: the first of at most the first three rows that
   * mentions a keyword, or None.
   */
  method FindHeaderRow(sheet: seq<seq<string>>, keywords: seq<string>) returns (r: Option<nat>)
    ensures r.Some? ==> r.value < 3 && r.value < |sheet| && MentionsKeyword(sheet[r.value], keywords)
    ensures r.Some? ==> forall i :: 0 <= i < r.value ==> !MentionsKeyword(sheet[i], keywords)
    ensures r.None? ==> forall i :: 0 <= i < 3 && i < |sheet| ==> !MentionsKeyword(sheet[i], keywords)
  {
    var limit := if |sheet| < 3 then |sheet| else 3;
    for i := 0 to limit
      invariant forall j :: 0 <= j < i ==> !MentionsKeyword(sheet[j], keywords)
    {
      if AnyKeyword(RowText(sheet[i]), keywords) {
        return Some(i);
      }
    }
    return None;
  }

  /** The test ignores case on both sides: lower-casing the cells or the keywords first changes nothing. */
  lemma MentionsKeywordIgnoresCase(cells: seq<string>, keywords: seq<string>)
    ensures MentionsKeyword(LowerCells(cells), keywords) <==> MentionsKeyword(cells, keywords)
    ensures MentionsKeyword(cells, LowerCells(keywords)) <==> MentionsKeyword(cells, keywords)
  {
    forall k | 0 <= k < |cells| ensures LowerCells(LowerCells(cells))[k] == LowerCells(cells)[k] {
      LowerIdempotent(cells[k]);
    }
    assert LowerCells(LowerCells(cells)) == LowerCells(cells);
    forall k | 0 <= k < |keywords| ensures Lower(LowerCells(keywords)[k]) == Lower(keywords[k]) {
      LowerIdempotent(keywords[k]);
    }
  }

  /** Because the cells are joined with spaces, a keyword may span two cells. */
  lemma KeywordSpansCells()
    ensures MentionsKeyword(["a", "b"], ["a b"])
  {
    assert Lower("a") == "a" && Lower("b") == "b";
    assert LowerCells(["a", "b"]) == ["a", "b"];
    assert RowText(["a", "b"]) == "a b";
    assert Lower("a b") == "a b";
    var kws := ["a b"];
    assert kws[0] == "a b";
    assert Contains(RowText(["a", "b"]), Lower(kws[0]));
  }

  // ---------------------------------------------------------------------
  // Direct lookup against the bridge species (run_homology_mapping)
  // ---------------------------------------------------------------------

  /**
   * Source→bridge searches the query column and reports the query as
   * Source_Gene_ID; bridge→target searches the match column and reports
   * the match as Source_Gene_ID.
   */
  datatype Direction = ToBridge | FromBridge

  /** The searched column of a row. */
  function SearchId(d: Direction, r: HM.Row): string {
    if d.ToBridge? then r.query else r.hit
  }

  function WithSearchId(d: Direction, r: HM.Row, v: string): (r': HM.Row)
    ensures SearchId(d, r') == v
  {
    if d.ToBridge? then r.(query := v) else r.(hit := v)
  }

  /** The searched column after `_apply_regex_to_id`, which is the parameter `norm`. */
  function NormaliseSearch(d: Direction, rows: seq<HM.Row>, norm: string -> string): (r: seq<HM.Row>)
    ensures |r| == |rows|
    ensures forall k :: 0 <= k < |rows| ==> r[k] == WithSearchId(d, rows[k], norm(SearchId(d, rows[k])))
  {
    seq(|rows|, k requires 0 <= k < |rows| => WithSearchId(d, rows[k], norm(SearchId(d, rows[k]))))
  }

  /** The set of normalised input IDs, as a list. */
  function NormaliseIds(ids: seq<string>, norm: string -> string): (r: seq<string>)
    ensures forall v :: v in r <==> exists g :: g in ids && norm(g) == v
  {
    if ids == [] then []
    else
      assert forall g :: g in ids <==> g == ids[0] || g in ids[1..];
      [norm(ids[0])] + NormaliseIds(ids[1..], norm)
  }

  /** `df[df[search_col].isin(wanted)]` */
  function KeepSearchIn(d: Direction, rows: seq<HM.Row>, wanted: seq<string>): (r: seq<HM.Row>)
    ensures forall x :: x in r <==> x in rows && SearchId(d, x) in wanted
    ensures multiset(r) <= multiset(rows)
  {
    if rows == [] then []
    else
      var rest := KeepSearchIn(d, rows[1..], wanted);
      assert rows == [rows[0]] + rows[1..];
      if SearchId(d, rows[0]) in wanted then [rows[0]] + rest else rest
  }

  /** The thresholds of a `HomologySelectionCriteria` after overrides. */
  datatype DirectCriteria = DirectCriteria(evalue: Option<real>, pid: Option<real>, score: Option<real>,
                                           topN: Option<int>)

  /** Every threshold that is set and whose column exists holds. */
  predicate PassesDirect(r: HM.Row, cols: HM.Columns, c: DirectCriteria) {
    (c.evalue.Some? && cols.hasExp ==> AtMost(r.exp, c.evalue.value))
    && (c.pid.Some? && cols.hasPid ==> AtLeast(r.pid, c.pid.value))
    && (c.score.Some? && cols.hasScore ==> AtLeast(r.score, c.score.value))
  }

  /** The three masks, Exp ≤, PID ≥ and Score ≥, applied in that order. */
  function DirectThresholds(rows: seq<HM.Row>, cols: HM.Columns, c: DirectCriteria): (r: seq<HM.Row>)
    ensures forall x :: x in r <==> x in rows && PassesDirect(x, cols, c)
  {
    var a := if c.evalue.Some? && cols.hasExp then HM.Keep(rows, HM.ExpAtMost(c.evalue.value)) else rows;
    var b := if c.pid.Some? && cols.hasPid then HM.Keep(a, HM.PidAtLeast(c.pid.value)) else a;
    if c.score.Some? && cols.hasScore then HM.Keep(b, HM.ScoreAtLeast(c.score.value)) else b
  }

  lemma DirectThresholdsSub(rows: seq<HM.Row>, cols: HM.Columns, c: DirectCriteria)
    ensures multiset(DirectThresholds(rows, cols, c)) <= multiset(rows)
  {
    var a := if c.evalue.Some? && cols.hasExp then HM.Keep(rows, HM.ExpAtMost(c.evalue.value)) else rows;
    var b := if c.pid.Some? && cols.hasPid then HM.Keep(a, HM.PidAtLeast(c.pid.value)) else a;
    if c.evalue.Some? { HM.KeepSub(rows, HM.ExpAtMost(c.evalue.value)); }
    if c.pid.Some? { HM.KeepSub(a, HM.PidAtLeast(c.pid.value)); }
    if c.score.Some? { HM.KeepSub(b, HM.ScoreAtLeast(c.score.value)); }
  }

  predicate Scored(r: HM.Row) { r.score.Num? }

  predicate Unscored(r: HM.Row) { r.score.NaN? }

  /** The only sort key: Score, descending. */
  const ScoreDesc: seq<HM.SortKey> := [HM.SortKey(HM.Score, false)]

  /**
   * `sort_values(by='Score', ascending=False)`: numeric scores from high
   * to low, then the rows without a numeric score (`na_position='last'`).
   */
  function ByScore(rows: seq<HM.Row>): seq<HM.Row> {
    HM.SortRows(Filter(rows, Scored), ScoreDesc) + Filter(rows, Unscored)
  }

  /** `a` may come before `b` in a descending score order with missing scores last. */
  predicate AtLeastAsHigh(a: HM.Row, b: HM.Row) {
    b.score.NaN? || (a.score.Num? && a.score.value >= b.score.value)
  }

  predicate ScoreDescending(s: seq<HM.Row>) {
    forall i, j :: 0 <= i < j < |s| ==> AtLeastAsHigh(s[i], s[j])
  }

  /** The score sort permutes the rows. */
  lemma ByScorePerm(rows: seq<HM.Row>)
    ensures multiset(ByScore(rows)) == multiset(rows)
  {
    HM.SortRowsPerm(Filter(rows, Scored), ScoreDesc);
    FilterSplit(rows, Scored, Unscored);
  }

  /** The score sort orders the rows by score, descending, missing scores last. */
  lemma ByScoreOrdered(rows: seq<HM.Row>)
    ensures ScoreDescending(ByScore(rows))
  {
    var scored := Filter(rows, Scored);
    var a := HM.SortRows(scored, ScoreDesc);
    HM.SortRowsSorted(scored, ScoreDesc);
    HM.SortRowsPerm(scored, ScoreDesc);
    forall x | x in a ensures Scored(x) {
      assert x in multiset(a);
    }
    SortedScoredDescending(a);
    DescendingThenUnscored(a, Filter(rows, Unscored));
  }

  /** Two scored rows not out of order under the Score key are in descending score order. */
  lemma ScoreNotBefore(x: HM.Row, y: HM.Row)
    requires Scored(x) && Scored(y) && !HM.Before(y, x, ScoreDesc)
    ensures AtLeastAsHigh(x, y)
  {
    assert ScoreDesc[1..] == [];
  }

  lemma SortedScoredDescending(a: seq<HM.Row>)
    requires HM.SortedBy(a, ScoreDesc) && forall x :: x in a ==> Scored(x)
    ensures ScoreDescending(a)
  {
    forall i, j | 0 <= i < j < |a| ensures AtLeastAsHigh(a[i], a[j]) {
      ScoreNotBefore(a[i], a[j]);
    }
  }

  /** Rows without a score may follow a descending list. */
  lemma DescendingThenUnscored(a: seq<HM.Row>, b: seq<HM.Row>)
    requires ScoreDescending(a) && forall x :: x in b ==> Unscored(x)
    ensures ScoreDescending(a + b)
  {
    var s := a + b;
    forall i, j | 0 <= i < j < |s| ensures AtLeastAsHigh(s[i], s[j]) {
      if j >= |a| {
        assert s[j] == b[j - |a|] && s[j] in b;
      } else {
        assert s[i] == a[i] && s[j] == a[j];
      }
    }
  }

  /** Rows whose searched column equals `k`, in order. */
  function WithKey(d: Direction, rows: seq<HM.Row>, k: string): (r: seq<HM.Row>)
    ensures forall x :: x in r <==> x in rows && SearchId(d, x) == k
  {
    if rows == [] then []
    else
      var x := rows[|rows| - 1];
      assert forall y :: y in rows <==> y in rows[..|rows| - 1] || y == x;
      WithKey(d, rows[..|rows| - 1], k) + (if SearchId(d, x) == k then [x] else [])
  }

  /** `groupby(search_col).head(n)`: a row is kept while fewer than `n` earlier rows of its key were kept. */
  function TopPerKey(d: Direction, rows: seq<HM.Row>, n: nat): seq<HM.Row> {
    if rows == [] then []
    else
      var kept := TopPerKey(d, rows[..|rows| - 1], n);
      var x := rows[|rows| - 1];
      if |WithKey(d, kept, SearchId(d, x))| < n then kept + [x] else kept
  }

  /** The first `n` elements, or all of them. */
  function Take(s: seq<HM.Row>, n: nat): (r: seq<HM.Row>)
    ensures r <= s && |r| == if |s| < n then |s| else n
  {
    if |s| <= n then s else s[..n]
  }

  lemma WithKeySnoc(d: Direction, rows: seq<HM.Row>, x: HM.Row, k: string)
    ensures WithKey(d, rows + [x], k) == WithKey(d, rows, k) + (if SearchId(d, x) == k then [x] else [])
  {
    assert (rows + [x])[..|rows|] == rows;
  }

  lemma TakeSnoc(w: seq<HM.Row>, x: HM.Row, n: nat)
    ensures |w| < n ==> Take(w + [x], n) == w + [x]
    ensures |w| >= n ==> Take(w + [x], n) == Take(w, n)
  {
    if |w| >= n { assert (w + [x])[..n] == w[..n]; }
  }

  /** One more input row: the kept rows grow by it exactly when its key has room. */
  lemma TopPerKeySnoc(d: Direction, rows: seq<HM.Row>, n: nat)
    requires rows != []
    ensures var kept := TopPerKey(d, rows[..|rows| - 1], n);
      var x := rows[|rows| - 1];
      TopPerKey(d, rows, n) == if |WithKey(d, kept, SearchId(d, x))| < n then kept + [x] else kept
  {
  }

  /** Each key keeps exactly its first `n` rows, in order. */
  lemma {:induction false} TopPerKeyGroups(d: Direction, rows: seq<HM.Row>, n: nat, k: string)
    ensures WithKey(d, TopPerKey(d, rows, n), k) == Take(WithKey(d, rows, k), n)
  {
    if rows != [] {
      var init := rows[..|rows| - 1];
      var x := rows[|rows| - 1];
      var kept := TopPerKey(d, init, n);
      var key := SearchId(d, x);
      var w := WithKey(d, init, k);
      TopPerKeySnoc(d, rows, n);
      TopPerKeyGroups(d, init, n, k);
      assert WithKey(d, rows, k) == w + (if key == k then [x] else []);
      if |WithKey(d, kept, key)| < n {
        WithKeySnoc(d, kept, x, k);
        if key == k { TakeSnoc(w, x, n); }
      } else if key == k {
        TakeSnoc(w, x, n);
      }
    }
  }

  /** The kept rows are a sub-multiset of the input. */
  lemma {:induction false} TopPerKeySub(d: Direction, rows: seq<HM.Row>, n: nat)
    ensures multiset(TopPerKey(d, rows, n)) <= multiset(rows)
  {
    if rows != [] {
      var init := rows[..|rows| - 1];
      TopPerKeySnoc(d, rows, n);
      TopPerKeySub(d, init, n);
      SubSnoc(TopPerKey(d, init, n), rows);
    }
  }

  lemma DescendingPrefix(rows: seq<HM.Row>)
    requires rows != [] && ScoreDescending(rows)
    ensures ScoreDescending(rows[..|rows| - 1])
  {
  }

  lemma DescendingSnoc(s: seq<HM.Row>, x: HM.Row)
    requires ScoreDescending(s) && forall y :: y in s ==> AtLeastAsHigh(y, x)
    ensures ScoreDescending(s + [x])
  {
    var t := s + [x];
    forall i, j | 0 <= i < j < |t| ensures AtLeastAsHigh(t[i], t[j]) {
      assert t[i] == s[i] && t[i] in s;
      if j < |s| { assert t[j] == s[j]; }
    }
  }

  /** Keeping the first rows of each key preserves a descending score order. */
  lemma {:induction false} TopPerKeyOrdered(d: Direction, rows: seq<HM.Row>, n: nat)
    requires ScoreDescending(rows)
    ensures ScoreDescending(TopPerKey(d, rows, n))
  {
    if rows != [] {
      var init := rows[..|rows| - 1];
      var kept := TopPerKey(d, init, n);
      DescendingPrefix(rows);
      TopPerKeySnoc(d, rows, n);
      TopPerKeyOrdered(d, init, n);
      TopPerKeySub(d, init, n);
      var x := rows[|rows| - 1];
      if |WithKey(d, kept, SearchId(d, x))| < n {
        forall y | y in kept ensures AtLeastAsHigh(y, x) {
          assert y in multiset(init);
          var m :| 0 <= m < |init| && init[m] == y;
          assert rows[m] == y;
        }
        DescendingSnoc(kept, x);
      }
    }
  }

  /** `[gid for gid in ids if gid not in found]` */
  function Failed(ids: seq<string>, found: seq<string>): (r: seq<string>)
    ensures forall g :: g in r <==> g in ids && g !in found
  {
    if ids == [] then []
    else
      assert forall g :: g in ids <==> g == ids[0] || g in ids[1..];
      (if ids[0] in found then [] else [ids[0]]) + Failed(ids[1..], found)
  }

  /** Every unmatched input keeps all of its occurrences; matched inputs keep none. */
  lemma {:induction false} FailedCount(ids: seq<string>, found: seq<string>, g: string)
    ensures multiset(Failed(ids, found))[g] == if g in found then 0 else multiset(ids)[g]
  {
    if ids != [] {
      FailedCount(ids[1..], found, g);
      assert ids == [ids[0]] + ids[1..];
    }
  }

  /** The failures follow the input order. */
  lemma {:induction false} FailedAppend(a: seq<string>, b: seq<string>, found: seq<string>)
    ensures Failed(a + b, found) == Failed(a, found) + Failed(b, found)
  {
    if a == [] {
      assert a + b == b;
    } else {
      assert (a + b)[1..] == a[1..] + b;
      FailedAppend(a[1..], b, found);
    }
  }

  /** The Source_Gene_ID column of the mapped frame. */
  function SourceIds(d: Direction, rows: seq<HM.Row>): (r: seq<string>)
    ensures |r| == |rows| && forall k :: 0 <= k < |rows| ==> r[k] == SearchId(d, rows[k])
  {
    seq(|rows|, k requires 0 <= k < |rows| => SearchId(d, rows[k]))
  }

  /** `sort_values(by='Score')` raised KeyError. */
  datatype DirectError = NoScoreColumn

  datatype DirectResult = DirectResult(mapped: seq<HM.Row>, failed: seq<string>)

  /** The rows that reach the sort: normalised, searched for, and past the thresholds. */
  function DirectCandidates(d: Direction, t: HM.Table, ids: seq<string>, norm: string -> string,
                            c: DirectCriteria): seq<HM.Row>
  {
    DirectThresholds(KeepSearchIn(d, NormaliseSearch(d, t.rows, norm), NormaliseIds(ids, norm)), t.cols, c)
  }

  /** `criteria.top_n and criteria.top_n > 0` */
  function TopLimit(c: DirectCriteria): Option<nat> {
    if c.topN.Some? && c.topN.value > 0 then Some(c.topN.value as nat) else None
  }

  /** The direct lookup of `run_homology_mapping` (either direction). */
  function DirectSelect(d: Direction, t: HM.Table, ids: seq<string>, norm: string -> string,
                        c: DirectCriteria): (r: Result<DirectResult, DirectError>)
    ensures r.Err? <==> !t.cols.hasScore
    ensures r.Ok? ==> multiset(r.value.mapped) <= multiset(DirectCandidates(d, t, ids, norm, c))
    ensures r.Ok? ==> forall g :: g in r.value.failed ==> g in ids
  {
    if !t.cols.hasScore then Err(NoScoreColumn)
    else
      var cands := DirectCandidates(d, t, ids, norm, c);
      var sorted := ByScore(cands);
      ByScorePerm(cands);
      var top := if TopLimit(c).Some? then TopPerKey(d, sorted, TopLimit(c).value) else sorted;
      assert multiset(top) <= multiset(cands) by {
        if TopLimit(c).Some? { TopPerKeySub(d, sorted, TopLimit(c).value); }
      }
      Ok(DirectResult(top, Failed(ids, SourceIds(d, top))))
  }

  /** The lookup fails exactly when the table has no Score column. */
  lemma DirectSelectFails(d: Direction, t: HM.Table, ids: seq<string>, norm: string -> string, c: DirectCriteria)
    ensures DirectSelect(d, t, ids, norm, c).Err? <==> !t.cols.hasScore
  {
  }

  /** A row reaches the sort iff it is an input row, normalised, whose searched ID some input normalises to, and which passes every threshold. */
  lemma DirectCandidatesMembers(d: Direction, t: HM.Table, ids: seq<string>, norm: string -> string,
                                c: DirectCriteria, x: HM.Row)
    ensures x in DirectCandidates(d, t, ids, norm, c) <==>
      (exists y :: y in t.rows && x == WithSearchId(d, y, norm(SearchId(d, y))))
      && (exists g :: g in ids && norm(g) == SearchId(d, x))
      && PassesDirect(x, t.cols, c)
  {
    var rows := NormaliseSearch(d, t.rows, norm);
    if x in rows {
      var k :| 0 <= k < |rows| && rows[k] == x;
      assert t.rows[k] in t.rows;
    }
    if exists y :: y in t.rows && x == WithSearchId(d, y, norm(SearchId(d, y))) {
      var y :| y in t.rows && x == WithSearchId(d, y, norm(SearchId(d, y)));
      var k :| 0 <= k < |t.rows| && t.rows[k] == y;
      assert rows[k] == x;
    }
  }

  /** Every mapped row reaches the sort, and the mapped rows are ordered by score, descending. */
  lemma DirectSelectSound(d: Direction, t: HM.Table, ids: seq<string>, norm: string -> string, c: DirectCriteria)
    requires DirectSelect(d, t, ids, norm, c).Ok?
    ensures var m := DirectSelect(d, t, ids, norm, c).value.mapped;
      multiset(m) <= multiset(DirectCandidates(d, t, ids, norm, c)) && ScoreDescending(m)
  {
    var cands := DirectCandidates(d, t, ids, norm, c);
    ByScorePerm(cands);
    ByScoreOrdered(cands);
    if TopLimit(c).Some? {
      TopPerKeySub(d, ByScore(cands), TopLimit(c).value);
      TopPerKeyOrdered(d, ByScore(cands), TopLimit(c).value);
    }
  }

  /** Without a positive `top_n`, every row that reaches the sort is mapped. */
  lemma DirectSelectUnlimited(d: Direction, t: HM.Table, ids: seq<string>, norm: string -> string, c: DirectCriteria)
    requires t.cols.hasScore && TopLimit(c).None?
    ensures multiset(DirectSelect(d, t, ids, norm, c).value.mapped) == multiset(DirectCandidates(d, t, ids, norm, c))
  {
    ByScorePerm(DirectCandidates(d, t, ids, norm, c));
  }

  /** With a positive `top_n`, each searched ID keeps its `top_n` best-scored rows. */
  lemma DirectSelectTopN(d: Direction, t: HM.Table, ids: seq<string>, norm: string -> string,
                         c: DirectCriteria, k: string)
    requires t.cols.hasScore && TopLimit(c).Some?
    ensures var sorted := ByScore(DirectCandidates(d, t, ids, norm, c));
      WithKey(d, DirectSelect(d, t, ids, norm, c).value.mapped, k) == Take(WithKey(d, sorted, k), TopLimit(c).value)
  {
    TopPerKeyGroups(d, ByScore(DirectCandidates(d, t, ids, norm, c)), TopLimit(c).value, k);
  }

  /**
   * The failures are the raw inputs, in input order and with repeats,
   * that are not a Source_Gene_ID (a normalised ID) of a mapped row.
   */
  lemma DirectSelectFailed(d: Direction, t: HM.Table, ids: seq<string>, norm: string -> string,
                           c: DirectCriteria, g: string)
    requires DirectSelect(d, t, ids, norm, c).Ok?
    ensures var r := DirectSelect(d, t, ids, norm, c).value;
      multiset(r.failed)[g] == if exists x :: x in r.mapped && SearchId(d, x) == g then 0 else multiset(ids)[g]
  {
    var r := DirectSelect(d, t, ids, norm, c).value;
    var found := SourceIds(d, r.mapped);
    FailedCount(ids, found, g);
    if g in found {
      var k :| 0 <= k < |found| && found[k] == g;
      assert r.mapped[k] in r.mapped;
    }
  }

  /**
   * An input that is mapped only after normalisation is still reported as
   * failed: the failure test compares the raw ID with normalised IDs.
   */
  lemma DirectSelectReportsVariant()
    ensures var t := HM.Table(HM.Columns(false, true, false, true), [HM.Row("g.1", "AT1", NaN, Num(90.0), NaN)]);
      var norm := (x: string) => if x == "g.1" then "g" else x;
      DirectSelect(ToBridge, t, ["g.1"], norm, DirectCriteria(None, None, None, Some(1)))
        == Ok(DirectResult([HM.Row("g", "AT1", NaN, Num(90.0), NaN)], ["g.1"]))
  {
    var t := HM.Table(HM.Columns(false, true, false, true), [HM.Row("g.1", "AT1", NaN, Num(90.0), NaN)]);
    var norm := (x: string) => if x == "g.1" then "g" else x;
    var y := HM.Row("g", "AT1", NaN, Num(90.0), NaN);
    assert NormaliseSearch(ToBridge, t.rows, norm) == [y];
    assert NormaliseIds(["g.1"], norm) == ["g"];
    assert KeepSearchIn(ToBridge, [y], ["g"]) == [y];
    var c := DirectCriteria(None, None, None, Some(1));
    assert DirectCandidates(ToBridge, t, ["g.1"], norm, c) == [y];
    assert Filter([y], Scored) == [y];
    assert Filter([y], Unscored) == [];
    assert ByScore([y]) == [y];
    assert WithKey(ToBridge, [], "g") == [];
    assert TopPerKey(ToBridge, [], 1) == [];
    assert TopPerKey(ToBridge, [y], 1) == [y];
    assert SourceIds(ToBridge, [y]) == ["g"];
    assert Failed(["g.1"], ["g"]) == ["g.1"];
  }

  /**
   * The failure test as intended: an input fails when its normalised form,
   * the form that was searched for, is not among the found IDs.
   */
  function FailedNormalised(ids: seq<string>, found: seq<string>, norm: string -> string): (r: seq<string>)
    ensures forall g :: g in r <==> g in ids && norm(g) !in found
  {
    if ids == [] then []
    else
      assert forall g :: g in ids <==> g == ids[0] || g in ids[1..];
      (if norm(ids[0]) in found then [] else [ids[0]]) + FailedNormalised(ids[1..], found, norm)
  }

  /** The direct lookup with the intended failure test; the mapped rows are unchanged. */
  function DirectSelectIntended(d: Direction, t: HM.Table, ids: seq<string>, norm: string -> string,
                                c: DirectCriteria): (r: Result<DirectResult, DirectError>)
    ensures r.Err? <==> DirectSelect(d, t, ids, norm, c).Err?
    ensures r.Ok? ==> r.value.mapped == DirectSelect(d, t, ids, norm, c).value.mapped
  {
    match DirectSelect(d, t, ids, norm, c)
    case Err(e) => Err(e)
    case Ok(r) => Ok(DirectResult(r.mapped, FailedNormalised(ids, SourceIds(d, r.mapped), norm)))
  }

  /** As intended, an input is reported exactly when no mapped row carries its normalised ID. */
  lemma DirectSelectIntendedFailed(d: Direction, t: HM.Table, ids: seq<string>, norm: string -> string,
                                   c: DirectCriteria, g: string)
    requires DirectSelectIntended(d, t, ids, norm, c).Ok?
    ensures var r := DirectSelectIntended(d, t, ids, norm, c).value;
      g in r.failed <==> g in ids && !exists x :: x in r.mapped && SearchId(d, x) == norm(g)
  {
    var r := DirectSelectIntended(d, t, ids, norm, c).value;
    var found := SourceIds(d, r.mapped);
    if exists x :: x in r.mapped && SearchId(d, x) == norm(g) {
      var x :| x in r.mapped && SearchId(d, x) == norm(g);
      var k :| 0 <= k < |r.mapped| && r.mapped[k] == x;
      assert found[k] == norm(g);
    }
  }

  /** On the input that the program reports as failed, the intended test reports nothing. */
  lemma DirectSelectIntendedFindsVariant()
    ensures var t := HM.Table(HM.Columns(false, true, false, true), [HM.Row("g.1", "AT1", NaN, Num(90.0), NaN)]);
      var norm := (x: string) => if x == "g.1" then "g" else x;
      DirectSelectIntended(ToBridge, t, ["g.1"], norm, DirectCriteria(None, None, None, Some(1)))
        == Ok(DirectResult([HM.Row("g", "AT1", NaN, Num(90.0), NaN)], []))
  {
    DirectSelectReportsVariant();
    var norm := (x: string) => if x == "g.1" then "g" else x;
    assert SourceIds(ToBridge, [HM.Row("g", "AT1", NaN, Num(90.0), NaN)]) == ["g"];
    assert FailedNormalised(["g.1"], ["g"], norm) == [];
  }

  // ---------------------------------------------------------------------
  // save_mapping_results
  // ---------------------------------------------------------------------

  datatype OutputFormat = Csv | Xlsx | Unsupported

  /** The format chosen from the lower-cased path's suffix. */
  function OutputFormatOf(path: string): OutputFormat {
    var p := Lower(path);
    if EndsWith(p, ".csv") then Csv else if EndsWith(p, ".xlsx") then Xlsx else Unsupported
  }

  /**
   * `save_mapping_results`: `written` says whether writing the chosen
   * format went through without an exception.
   */
  function SaveMappingResults(path: string, written: bool): (ok: bool)
    ensures ok ==> OutputFormatOf(path) != Unsupported
    ensures OutputFormatOf(path) == Unsupported ==> !ok
    ensures OutputFormatOf(path) != Unsupported ==> (ok <==> written)
  {
    OutputFormatOf(path) != Unsupported && written
  }

  /** The dispatch ignores the case of the path. */
  lemma OutputFormatIgnoresCase(path: string)
    ensures OutputFormatOf(Lower(path)) == OutputFormatOf(path)
  {
    LowerIdempotent(path);
  }

  /** An upper-case `.CSV` is written as CSV. */
  lemma OutputFormatUpperCsv()
    ensures OutputFormatOf("a.CSV") == Csv
  {
    assert Lower("a.CSV") == "a.csv";
  }

  lemma OutputFormatXlsx()
    ensures OutputFormatOf("a.xlsx") == Xlsx
  {
    assert Lower("a.xlsx") == "a.xlsx";
  }

  /** `.xls` is not `.xlsx`. */
  lemma OutputFormatXls()
    ensures OutputFormatOf("a.xls") == Unsupported
  {
    assert Lower("a.xls") == "a.xls";
  }

  /** Only the final suffix counts. */
  lemma OutputFormatInnerCsv()
    ensures OutputFormatOf("a.csv.txt") == Unsupported
  {
    assert Lower("a.csv.txt") == "a.csv.txt";
  }
}
