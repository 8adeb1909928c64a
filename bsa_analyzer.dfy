/**
 * BSA (bulk segregant analysis) region analysis of
 * `cotton_toolkit/tools/bsa_analyzer.py`: strict overlaps between regions
 * on the same chromosome, the per-row overlap annotation, the
 * fine-mapping label rule, and the checks of the driver.
 */
module BsaAnalyzer {
  import opened Wrappers
  import opened PyText
  import opened Numeric
  import opened SeqUtil
  import StrOrder

  // ---------------------------------------------------------------------
  // Data model
  // ---------------------------------------------------------------------

  /** A `region.start` / `region.end` cell: a number, blank (NaN), or text that `to_numeric` rejects. */
  datatype Coord = At(pos: int) | Blank | Text

  /**
   * One sheet row: the chromosome (None when blank, which `groupby` drops),
   * the region bounds and the three assessment cells.
   */
  datatype BsaRow = BsaRow(chr: Option<string>, start: Coord, end: Coord,
                           effSnp: Cell, length: Cell, genes: Cell)

  /** The sheet: its column names and its rows, in order (the 0-based row number is the original index). */
  datatype BsaSheet = BsaSheet(cols: seq<string>, rows: seq<BsaRow>)

  /** One overlap record: both 0-based row numbers, the overlap extent and its length. */
  datatype Overlap = Overlap(chr: string, first: nat, second: nat, start: int, end: int, length: int)

  datatype BsaError = MissingColumn(name: string) | NotNumeric | AlreadyAnalysed(found: seq<string>)

  const RequiredColumns: seq<string> := ["chr", "region.start", "region.end"]

  function Max(a: int, b: int): int { if a >= b then a else b }

  function Min(a: int, b: int): int { if a <= b then a else b }

  // ---------------------------------------------------------------------
  // find_overlapping_regions
  // ---------------------------------------------------------------------

  /**
   * Two regions overlap strictly: same chromosome, numeric bounds,
   * `start1 < end2 and end1 > start2`, and a positive overlap length.
   */
  predicate PairOverlaps(a: BsaRow, b: BsaRow) {
    a.chr.Some? && a.chr == b.chr && a.start.At? && a.end.At? && b.start.At? && b.end.At?
    && a.start.pos < b.end.pos && a.end.pos > b.start.pos
    && Min(a.end.pos, b.end.pos) - Max(a.start.pos, b.start.pos) > 0
  }

  lemma PairOverlapsSymmetric(a: BsaRow, b: BsaRow)
    ensures PairOverlaps(a, b) <==> PairOverlaps(b, a)
  {
  }

  /** The condition alone does not make the length positive: a region with start > end can pass it. */
  lemma ConditionWithoutLength()
    ensures var a := BsaRow(Some("c"), At(5), At(3), NaN, NaN, NaN);
      var b := BsaRow(Some("c"), At(0), At(10), NaN, NaN, NaN);
      a.start.pos < b.end.pos && a.end.pos > b.start.pos && !PairOverlaps(a, b)
  {
  }

  /** The record for rows `i < j`, when they overlap. */
  function RecordFor(rows: seq<BsaRow>, i: nat, j: nat): (r: Option<Overlap>)
    requires i < j < |rows|
    ensures r.Some? <==> PairOverlaps(rows[i], rows[j])
    ensures r.Some? ==> r.value.first == i && r.value.second == j && r.value.length > 0
  {
    var a, b := rows[i], rows[j];
    if PairOverlaps(a, b) then
      var s := Max(a.start.pos, b.start.pos);
      var e := Min(a.end.pos, b.end.pos);
      Some(Overlap(a.chr.value, i, j, s, e, e - s))
    else None
  }

  function OptSeq(o: Option<Overlap>): seq<Overlap> {
    if o.Some? then [o.value] else []
  }

  /** Records for the pairs `(i, k)` with `i < k < j`, in order of `k`. */
  function PairRecords(rows: seq<BsaRow>, i: nat, j: nat): seq<Overlap>
    requires i < |rows| && j <= |rows|
    decreases j
  {
    if j <= i + 1 then [] else PairRecords(rows, i, j - 1) + OptSeq(RecordFor(rows, i, j - 1))
  }

  /** Records for every pair whose first row is below `i`. */
  function AllRecords(rows: seq<BsaRow>, i: nat): seq<Overlap>
    requires i <= |rows|
  {
    if i == 0 then [] else AllRecords(rows, i - 1) + PairRecords(rows, i - 1, |rows|)
  }

  function Overlaps(rows: seq<BsaRow>): seq<Overlap> {
    AllRecords(rows, |rows|)
  }

  /** `pd.to_numeric` succeeds on both bound columns. */
  predicate CoordsNumeric(rows: seq<BsaRow>) {
    forall k :: 0 <= k < |rows| ==> !rows[k].start.Text? && !rows[k].end.Text?
  }

  /** The first required column the sheet lacks, if any. */
  function FirstMissing(required: seq<string>, cols: seq<string>): (r: Option<string>)
    ensures r.None? <==> forall k :: 0 <= k < |required| ==> required[k] in cols
    ensures r.Some? ==> r.value in required && r.value !in cols
  {
    if required == [] then None
    else if required[0] !in cols then Some(required[0])
    else
      var r := FirstMissing(required[1..], cols);
      assert forall k :: 1 <= k < |required| ==> required[k] == required[1..][k - 1];
      r
  }

  /** `find_overlapping_regions` */
  function FindOverlaps(t: BsaSheet): (r: Result<seq<Overlap>, BsaError>)
    ensures r.Ok? <==> (forall k :: 0 <= k < |RequiredColumns| ==> RequiredColumns[k] in t.cols) && CoordsNumeric(t.rows)
    ensures r.Ok? ==> r.value == Overlaps(t.rows)
    ensures r.Err? && r.error.MissingColumn? ==> r.error.name in RequiredColumns && r.error.name !in t.cols
  {
    var m := FirstMissing(RequiredColumns, t.cols);
    if m.Some? then Err(MissingColumn(m.value))
    else if !CoordsNumeric(t.rows) then Err(NotNumeric)
    else Ok(Overlaps(t.rows))
  }

  method FindOverlappingRegions(t: BsaSheet) returns (r: Result<seq<Overlap>, BsaError>)
    ensures r == FindOverlaps(t)
  {
    for c := 0 to |RequiredColumns|
      invariant forall k :: 0 <= k < c ==> RequiredColumns[k] in t.cols
    {
      if RequiredColumns[c] !in t.cols {
        assert FirstMissing(RequiredColumns, t.cols) == Some(RequiredColumns[c]) by {
          FirstMissingAt(RequiredColumns, t.cols, c);
        }
        return Err(MissingColumn(RequiredColumns[c]));
      }
    }
    var rows := t.rows;
    for k := 0 to |rows|
      invariant forall m :: 0 <= m < k ==> !rows[m].start.Text? && !rows[m].end.Text?
    {
      if rows[k].start.Text? || rows[k].end.Text? {
        return Err(NotNumeric);
      }
    }
    var n := |rows|;
    var out: seq<Overlap> := [];
    var i := 0;
    while i < n
      invariant 0 <= i <= n
      invariant out == AllRecords(rows, i)
    {
      var j := i + 1;
      while j < n
        invariant i + 1 <= j <= n
        invariant out == AllRecords(rows, i) + PairRecords(rows, i, j)
      {
        var rec := RecordFor(rows, i, j);
        PairStep(AllRecords(rows, i), rows, i, j);
        if rec.Some? {
          out := out + [rec.value];
        }
        j := j + 1;
      }
      AllStep(rows, i);
      i := i + 1;
    }
    return Ok(out);
  }

  /** The inner loop's step: the pair `(i, j)` adds its record, if any. */
  lemma PairStep(prefix: seq<Overlap>, rows: seq<BsaRow>, i: nat, j: nat)
    requires i < j < |rows|
    ensures prefix + PairRecords(rows, i, j + 1) == prefix + PairRecords(rows, i, j) + OptSeq(RecordFor(rows, i, j))
  {
  }

  /** The outer loop's step: row `i` adds the records of its pairs. */
  lemma AllStep(rows: seq<BsaRow>, i: nat)
    requires i < |rows|
    ensures AllRecords(rows, i + 1) == AllRecords(rows, i) + PairRecords(rows, i, |rows|)
  {
  }

  lemma FirstMissingAt(required: seq<string>, cols: seq<string>, c: int)
    requires 0 <= c < |required| && required[c] !in cols
    requires forall k :: 0 <= k < c ==> required[k] in cols
    ensures FirstMissing(required, cols) == Some(required[c])
    decreases c
  {
    if c > 0 {
      FirstMissingAt(required[1..], cols, c - 1);
    }
  }

  /** The records of row `i` are the overlapping pairs `(i, k)`, `i < k < j`. */
  lemma {:induction false} PairRecordsMembers(rows: seq<BsaRow>, i: nat, j: nat, x: Overlap)
    requires i < |rows| && j <= |rows|
    ensures x in PairRecords(rows, i, j) <==> exists k :: i < k < j && RecordFor(rows, i, k) == Some(x)
    decreases j
  {
    if j > i + 1 {
      var m := j - 1;
      PairRecordsMembers(rows, i, m, x);
      assert PairRecords(rows, i, j) == PairRecords(rows, i, m) + OptSeq(RecordFor(rows, i, m));
      if x in PairRecords(rows, i, j) && x !in PairRecords(rows, i, m) {
        assert RecordFor(rows, i, m) == Some(x);
      }
      if exists k :: i < k < j && RecordFor(rows, i, k) == Some(x) {
        var k :| i < k < j && RecordFor(rows, i, k) == Some(x);
        if k == m {
          assert x in OptSeq(RecordFor(rows, i, m));
        }
      }
    }
  }

  /** Every pair `i' < k` with `i' < i` that overlaps gives a record, and nothing else does. */
  lemma {:induction false} AllRecordsMembers(rows: seq<BsaRow>, i: nat, x: Overlap)
    requires i <= |rows|
    ensures x in AllRecords(rows, i) <==>
      exists a, b :: 0 <= a < i && a < b < |rows| && RecordFor(rows, a, b) == Some(x)
  {
    if i > 0 {
      var p := i - 1;
      AllRecordsMembers(rows, p, x);
      PairRecordsMembers(rows, p, |rows|, x);
      assert x in AllRecords(rows, i) <==> x in AllRecords(rows, p) || x in PairRecords(rows, p, |rows|);
      if x in PairRecords(rows, p, |rows|) {
        var k :| p < k < |rows| && RecordFor(rows, p, k) == Some(x);
        assert 0 <= p < i && p < k < |rows|;
      }
      if exists a, b :: 0 <= a < i && a < b < |rows| && RecordFor(rows, a, b) == Some(x) {
        var a, b :| 0 <= a < i && a < b < |rows| && RecordFor(rows, a, b) == Some(x);
        assert a < p || p < b < |rows|;
      }
    }
  }

  /** Records ordered by (first, second), strictly. */
  predicate PairLess(a: Overlap, b: Overlap) {
    a.first < b.first || (a.first == b.first && a.second < b.second)
  }

  predicate PairIncreasing(s: seq<Overlap>) {
    forall p, q :: 0 <= p < q < |s| ==> PairLess(s[p], s[q])
  }

  lemma {:induction false} PairRecordsShape(rows: seq<BsaRow>, i: nat, j: nat)
    requires i < |rows| && j <= |rows|
    ensures PairIncreasing(PairRecords(rows, i, j))
    ensures forall x :: x in PairRecords(rows, i, j) ==> x.first == i && x.second < j
    decreases j
  {
    if j > i + 1 {
      PairRecordsShape(rows, i, j - 1);
    }
  }

  lemma {:induction false} AllRecordsShape(rows: seq<BsaRow>, i: nat)
    requires i <= |rows|
    ensures PairIncreasing(AllRecords(rows, i))
    ensures forall x :: x in AllRecords(rows, i) ==> x.first < i
  {
    if i > 0 {
      AllRecordsShape(rows, i - 1);
      PairRecordsShape(rows, i - 1, |rows|);
      var a, b := AllRecords(rows, i - 1), PairRecords(rows, i - 1, |rows|);
      var s := a + b;
      forall p, q | 0 <= p < q < |s| ensures PairLess(s[p], s[q]) {
        if q < |a| {
          assert s[p] == a[p] && s[q] == a[q];
        } else if p >= |a| {
          assert s[p] == b[p - |a|] && s[q] == b[q - |a|];
        } else {
          assert s[p] == a[p] && a[p] in a;
          assert s[q] == b[q - |a|] && b[q - |a|] in b;
        }
      }
    }
  }

  /**
   * A record exists exactly for each unordered pair of rows that overlaps,
   * listed once (as the pair `i < j`), with extent [max start, min end).
   */
  lemma OverlapsExactlyOnce(rows: seq<BsaRow>, i: nat, j: nat)
    requires i < j < |rows|
    ensures (exists x :: x in Overlaps(rows) && x.first == i && x.second == j) <==> PairOverlaps(rows[i], rows[j])
    ensures forall p, q :: 0 <= p < q < |Overlaps(rows)| ==>
      (Overlaps(rows)[p].first, Overlaps(rows)[p].second) != (Overlaps(rows)[q].first, Overlaps(rows)[q].second)
    ensures forall x :: x in Overlaps(rows) ==> x.first < x.second
  {
    AllRecordsShape(rows, |rows|);
    var recs := Overlaps(rows);
    if PairOverlaps(rows[i], rows[j]) {
      AllRecordsMembers(rows, |rows|, RecordFor(rows, i, j).value);
    }
    forall x | x in recs ensures x.first < x.second && (x.first == i && x.second == j ==> PairOverlaps(rows[i], rows[j])) {
      AllRecordsMembers(rows, |rows|, x);
    }
  }

  /** Each record describes its two rows: same chromosome, extent [max start, min end), positive length. */
  lemma OverlapsExtent(rows: seq<BsaRow>, x: Overlap)
    requires x in Overlaps(rows)
    ensures x.first < x.second < |rows|
    ensures var a, b := rows[x.first], rows[x.second];
      PairOverlaps(a, b) && a.chr == Some(x.chr)
      && x.start == Max(a.start.pos, b.start.pos) && x.end == Min(a.end.pos, b.end.pos)
      && x.length == x.end - x.start > 0
  {
    AllRecordsMembers(rows, |rows|, x);
  }

  // ---------------------------------------------------------------------
  // annotate_dataframe_with_overlap_details
  // ---------------------------------------------------------------------

  /** The annotation of one row, with the partner list as appended (duplicates kept). */
  datatype Annot = Annot(overlapping: bool, count: nat, partners: seq<string>, maxLen: int)

  const Fresh: Annot := Annot(false, 0, [], 0)

  /** One side of a record: flag, count + 1, the 1-based partner, and the running maximum. */
  function Touch(a: Annot, partner: nat, len: int): Annot {
    Annot(true, a.count + 1, a.partners + [NatToString(partner + 1)], Max(a.maxLen, len))
  }

  /** Both row numbers of the record are rows of the frame. */
  predicate Valid(n: nat, x: Overlap) { x.first < n && x.second < n }

  /** One record, applied to the first row and then to the second. */
  function Apply(anns: seq<Annot>, x: Overlap): (r: seq<Annot>)
    ensures |r| == |anns|
  {
    if Valid(|anns|, x) then
      var a := anns[x.first := Touch(anns[x.first], x.second, x.length)];
      a[x.second := Touch(a[x.second], x.first, x.length)]
    else anns
  }

  /** The annotations after applying the records in order to `n` fresh rows. */
  function Annotate(n: nat, recs: seq<Overlap>): (r: seq<Annot>)
    ensures |r| == n
  {
    if recs == [] then seq(n, _ => Fresh) else Apply(Annotate(n, recs[..|recs| - 1]), recs[|recs| - 1])
  }

  /** `','.join(sorted(list(set(lst))))` */
  function PartnerText(ps: seq<string>): string {
    Join(StrOrder.SortedSet(ps), ",")
  }

  /** `annotate_dataframe_with_overlap_details`: the annotations and the partner column. */
  method AnnotateOverlaps(n: nat, recs: seq<Overlap>) returns (anns: seq<Annot>, partnerCol: seq<string>)
    ensures anns == Annotate(n, recs)
    ensures |partnerCol| == n && forall k :: 0 <= k < n ==> partnerCol[k] == PartnerText(anns[k].partners)
  {
    anns := seq(n, _ => Fresh);
    for k := 0 to |recs|
      invariant anns == Annotate(n, recs[..k])
    {
      var x := recs[k];
      if x.first < n && x.second < n {
        anns := anns[x.first := Touch(anns[x.first], x.second, x.length)];
        anns := anns[x.second := Touch(anns[x.second], x.first, x.length)];
      }
      assert recs[..k + 1][..k] == recs[..k];
    }
    assert recs[..|recs|] == recs;
    partnerCol := [];
    for k := 0 to n
      invariant |partnerCol| == k
      invariant forall m :: 0 <= m < k ==> partnerCol[m] == PartnerText(anns[m].partners)
    {
      partnerCol := partnerCol + [PartnerText(anns[k].partners)];
    }
  }

  /** How often row `r` appears in the valid records (twice in a record that pairs it with itself). */
  function Involvements(n: nat, recs: seq<Overlap>, r: nat): nat {
    if recs == [] then 0
    else
      var x := recs[|recs| - 1];
      Involvements(n, recs[..|recs| - 1], r)
      + (if Valid(n, x) && x.first == r then 1 else 0) + (if Valid(n, x) && x.second == r then 1 else 0)
  }

  /** Row `r` is paired with row `p` by some valid record, in either position. */
  predicate IsPartner(n: nat, recs: seq<Overlap>, r: nat, p: nat) {
    exists k :: 0 <= k < |recs| && Valid(n, recs[k])
      && ((recs[k].first == r && recs[k].second == p) || (recs[k].second == r && recs[k].first == p))
  }

  /** Some valid record involving row `r` has length `len`. */
  predicate LengthOf(n: nat, recs: seq<Overlap>, r: nat, len: int) {
    exists k :: 0 <= k < |recs| && Valid(n, recs[k])
      && (recs[k].first == r || recs[k].second == r) && recs[k].length == len
  }

  /** The effect of one record on row `r`. */
  lemma ApplyAt(anns: seq<Annot>, x: Overlap, r: nat)
    requires r < |anns|
    ensures Apply(anns, x)[r] ==
      if !Valid(|anns|, x) then anns[r]
      else
        var a1 := if x.first == r then Touch(anns[r], x.second, x.length) else anns[r];
        if x.second == r then Touch(a1, x.first, x.length) else a1
  {
  }

  /** Splitting off the last record. */
  lemma AnnotateLast(n: nat, recs: seq<Overlap>)
    requires recs != []
    ensures Annotate(n, recs) == Apply(Annotate(n, recs[..|recs| - 1]), recs[|recs| - 1])
  {
  }

  /** `num_overlaps` counts the row's appearances in the records, and `is_overlapping` says it appears at all. */
  lemma {:induction false} AnnotateCount(n: nat, recs: seq<Overlap>, r: nat)
    requires r < n
    ensures Annotate(n, recs)[r].count == Involvements(n, recs, r)
    ensures Annotate(n, recs)[r].overlapping <==> Involvements(n, recs, r) > 0
  {
    if recs != [] {
      var init := recs[..|recs| - 1];
      AnnotateCount(n, init, r);
      AnnotateLast(n, recs);
      ApplyAt(Annotate(n, init), recs[|recs| - 1], r);
    }
  }

  /** A row no record mentions keeps False / 0 / no partners / 0. */
  lemma {:induction false} AnnotateUntouched(n: nat, recs: seq<Overlap>, r: nat)
    requires r < n && Involvements(n, recs, r) == 0
    ensures Annotate(n, recs)[r] == Fresh
  {
    if recs != [] {
      var init := recs[..|recs| - 1];
      AnnotateUntouched(n, init, r);
      AnnotateLast(n, recs);
      ApplyAt(Annotate(n, init), recs[|recs| - 1], r);
    }
  }

  lemma IsPartnerSnoc(n: nat, recs: seq<Overlap>, r: nat, p: nat)
    requires recs != []
    ensures var x := recs[|recs| - 1];
      IsPartner(n, recs, r, p) <==> (IsPartner(n, recs[..|recs| - 1], r, p)
        || (Valid(n, x) && ((x.first == r && x.second == p) || (x.second == r && x.first == p))))
  {
    var init := recs[..|recs| - 1];
    if IsPartner(n, recs, r, p) {
      var k :| 0 <= k < |recs| && Valid(n, recs[k])
        && ((recs[k].first == r && recs[k].second == p) || (recs[k].second == r && recs[k].first == p));
      if k < |init| { assert init[k] == recs[k]; }
    }
    if IsPartner(n, init, r, p) {
      var k :| 0 <= k < |init| && Valid(n, init[k])
        && ((init[k].first == r && init[k].second == p) || (init[k].second == r && init[k].first == p));
      assert recs[k] == init[k];
    }
  }

  /**
   * The partner list of row `r` holds `str(p + 1)` exactly for the rows `p`
   * some record pairs it with, and nothing else.
   */
  lemma {:induction false} AnnotatePartners(n: nat, recs: seq<Overlap>, r: nat)
    requires r < n
    ensures forall p: nat :: NatToString(p + 1) in Annotate(n, recs)[r].partners <==> IsPartner(n, recs, r, p)
    ensures PartnerNumbers(Annotate(n, recs)[r].partners)
  {
    if recs != [] {
      var init := recs[..|recs| - 1];
      var x := recs[|recs| - 1];
      AnnotatePartners(n, init, r);
      AnnotateLast(n, recs);
      ApplyAt(Annotate(n, init), x, r);
      forall p: nat ensures NatToString(p + 1) in Annotate(n, recs)[r].partners <==> IsPartner(n, recs, r, p) {
        IsPartnerSnoc(n, recs, r, p);
        if NatToString(p + 1) == NatToString(x.second + 1) { NatToStringInjective(p + 1, x.second + 1); }
        if NatToString(p + 1) == NatToString(x.first + 1) { NatToStringInjective(p + 1, x.first + 1); }
      }
      var a0 := Annotate(n, init)[r];
      if Valid(n, x) {
        var a1 := if x.first == r then Touch(a0, x.second, x.length) else a0;
        if x.first == r { TouchNumbers(a0, x.second, x.length); }
        if x.second == r { TouchNumbers(a1, x.first, x.length); }
      }
    }
  }

  /** Every entry of a partner list is a 1-based row number. */
  ghost predicate PartnerNumbers(ps: seq<string>) {
    forall s :: s in ps ==> exists q: nat :: q >= 1 && s == NatToString(q)
  }

  lemma TouchNumbers(a: Annot, p: nat, len: int)
    requires PartnerNumbers(a.partners)
    ensures PartnerNumbers(Touch(a, p, len).partners)
  {
    var q: nat := p + 1;
    assert q >= 1 && NatToString(p + 1) == NatToString(q);
  }

  /** Partnership is symmetric. */
  lemma IsPartnerSymmetric(n: nat, recs: seq<Overlap>, r: nat, p: nat)
    ensures IsPartner(n, recs, r, p) <==> IsPartner(n, recs, p, r)
  {
  }

  lemma LengthOfSnoc(n: nat, recs: seq<Overlap>, r: nat, len: int)
    requires recs != [] && LengthOf(n, recs[..|recs| - 1], r, len)
    ensures LengthOf(n, recs, r, len)
  {
    var init := recs[..|recs| - 1];
    var k :| 0 <= k < |init| && Valid(n, init[k]) && (init[k].first == r || init[k].second == r) && init[k].length == len;
    assert recs[k] == init[k];
  }

  /**
   * `max_overlap_length_with_partner` is at least 0 and at least every
   * length of a record of the row, and it is 0 or one of those lengths.
   */
  lemma {:induction false} AnnotateMaxLength(n: nat, recs: seq<Overlap>, r: nat)
    requires r < n
    ensures var m := Annotate(n, recs)[r].maxLen;
      m >= 0
      && (forall k :: 0 <= k < |recs| && Valid(n, recs[k]) && (recs[k].first == r || recs[k].second == r) ==> recs[k].length <= m)
      && (m == 0 || LengthOf(n, recs, r, m))
  {
    if recs != [] {
      var init := recs[..|recs| - 1];
      var x := recs[|recs| - 1];
      AnnotateMaxLength(n, init, r);
      AnnotateLast(n, recs);
      ApplyAt(Annotate(n, init), x, r);
      var m0 := Annotate(n, init)[r].maxLen;
      var m := Annotate(n, recs)[r].maxLen;
      forall k | 0 <= k < |recs| && Valid(n, recs[k]) && (recs[k].first == r || recs[k].second == r)
        ensures recs[k].length <= m
      {
        if k < |init| { assert recs[k] == init[k]; }
      }
      if m0 != 0 && LengthOf(n, init, r, m0) { LengthOfSnoc(n, recs, r, m0); }
      if m != m0 {
        assert m == x.length && Valid(n, x) && (x.first == r || x.second == r);
        assert recs[|recs| - 1] == x;
      }
    }
  }

  /** The partner column lists distinct entries in increasing order and splits back into them. */
  lemma PartnerTextSplits(ps: seq<string>)
    requires ps != []
    requires forall s :: s in ps ==> ',' !in s
    ensures Split(PartnerText(ps), ',') == StrOrder.SortedSet(ps)
    ensures StrOrder.Increasing(Split(PartnerText(ps), ','))
  {
    var parts := StrOrder.SortedSet(ps);
    assert ps[0] in parts;
    SplitJoin(parts, ',');
  }

  /** The digits of a row number contain no comma. */
  lemma NoCommaInNumbers(n: nat)
    ensures ',' !in NatToString(n)
  {
  }

  // ---------------------------------------------------------------------
  // assess_and_add_fine_mapping_potential_no_pval
  // ---------------------------------------------------------------------

  datatype Thresholds = Thresholds(snpHigh: int, snpMedium: int, lenMax: int, lenMin: int, genesMax: int)

  /** The defaults of the function and of the driver. */
  const DefaultThresholds: Thresholds := Thresholds(10, 3, 1000000, 10000, 15)

  const EffSnpColumn: string := "Effective SNP"
  const LengthColumn: string := "region.length"
  const GenesColumn: string := "Gene Number"

  const Incomplete: string := "信息不全"
  const HighIdeal: string := "优先关注 (高SNP, 合适大小)"
  const HighOther: string := "值得关注 (高SNP, 大小或基因数欠佳)"
  const MediumIdeal: string := "值得关注 (中等SNP, 合适大小)"
  const MediumOther: string := "一般关注 (中等SNP)"
  const Low: string := "一般关注 (SNP较少或大小欠佳)"
  const OverlapSuffix: string := " (重叠区域)"

  /** `int(x)`: truncation toward zero. */
  function Truncate(v: real): int {
    if v >= 0.0 then v.Floor else -((-v).Floor)
  }

  /** `to_numeric(errors='coerce').fillna(-1).astype(int)`, or -1 for the whole column when it is missing. */
  function AssessValue(present: bool, c: Cell): int {
    if !present then -1
    else match c
      case NaN => -1
      case Num(v) => Truncate(v)
  }

  /** The label of a complete row, branch by branch in the source's order. */
  function CompleteLabel(eff: int, len: int, genes: int, th: Thresholds): string {
    var high := eff >= th.snpHigh;
    var medium := eff >= th.snpMedium;
    var lenIdeal := len <= th.lenMax && len >= th.lenMin;
    var genesIdeal := genes <= th.genesMax && genes != -1;
    if high && lenIdeal && genesIdeal then HighIdeal
    else if high && (!lenIdeal || !genesIdeal) then HighOther
    else if medium && lenIdeal && genesIdeal then MediumIdeal
    else if medium then MediumOther
    else Low
  }

  /** The `fine_mapping_potential` of one row. */
  function Potential(eff: int, len: int, genes: int, overlapping: bool, th: Thresholds): string {
    if eff == -1 || len == -1 || genes == -1 then Incomplete
    else
      var b := CompleteLabel(eff, len, genes, th);
      if overlapping && b != Incomplete then b + OverlapSuffix else b
  }

  /** Any -1 gives "信息不全", and it is never suffixed. */
  lemma PotentialIncomplete(eff: int, len: int, genes: int, overlapping: bool, th: Thresholds)
    ensures Potential(eff, len, genes, overlapping, th) == Incomplete <==> eff == -1 || len == -1 || genes == -1
  {
  }

  /**
   * The priority rule on complete rows: the five labels are disjoint and
   * cover every case; "ideal" means an inclusive length window and at most
   * the maximal gene count.
   */
  lemma CompleteLabelRule(eff: int, len: int, genes: int, th: Thresholds)
    requires genes != -1
    ensures var b := CompleteLabel(eff, len, genes, th);
      var ideal := th.lenMin <= len <= th.lenMax && genes <= th.genesMax;
      (b == HighIdeal <==> eff >= th.snpHigh && ideal)
      && (b == HighOther <==> eff >= th.snpHigh && !ideal)
      && (b == MediumIdeal <==> eff < th.snpHigh && eff >= th.snpMedium && ideal)
      && (b == MediumOther <==> eff < th.snpHigh && eff >= th.snpMedium && !ideal)
      && (b == Low <==> eff < th.snpHigh && eff < th.snpMedium)
  {
  }

  /** The suffix is added exactly to complete rows that overlap another row. */
  lemma PotentialSuffix(eff: int, len: int, genes: int, overlapping: bool, th: Thresholds)
    requires eff != -1 && len != -1 && genes != -1
    ensures var p := Potential(eff, len, genes, overlapping, th);
      var b := CompleteLabel(eff, len, genes, th);
      p == (if overlapping then b + OverlapSuffix else b)
  {
  }

  /** The cells of one column across the rows. */
  function ColumnCells(rows: seq<BsaRow>, col: string): (r: seq<Cell>)
    ensures |r| == |rows|
  {
    seq(|rows|, k requires 0 <= k < |rows| =>
      if col == EffSnpColumn then rows[k].effSnp else if col == LengthColumn then rows[k].length else rows[k].genes)
  }

  /** The label of row `k`, after the three columns are converted and a missing flag column is False. */
  function RowPotential(t: BsaSheet, flags: Option<seq<bool>>, th: Thresholds, k: nat): string
    requires k < |t.rows|
    requires flags.Some? ==> |flags.value| == |t.rows|
  {
    var row := t.rows[k];
    Potential(AssessValue(EffSnpColumn in t.cols, row.effSnp), AssessValue(LengthColumn in t.cols, row.length),
              AssessValue(GenesColumn in t.cols, row.genes), flags.Some? && flags.value[k], th)
  }

  /** `assess_and_add_fine_mapping_potential_no_pval`: one label per row, in order. */
  method AssessFineMapping(t: BsaSheet, flags: Option<seq<bool>>, th: Thresholds) returns (potentials: seq<string>)
    requires flags.Some? ==> |flags.value| == |t.rows|
    ensures |potentials| == |t.rows|
    ensures forall k :: 0 <= k < |t.rows| ==> potentials[k] == RowPotential(t, flags, th, k)
  {
    var hasEff, hasLen, hasGenes := EffSnpColumn in t.cols, LengthColumn in t.cols, GenesColumn in t.cols;
    var overlapping: seq<bool> := if flags.Some? then flags.value else seq(|t.rows|, _ => false);
    potentials := [];
    for k := 0 to |t.rows|
      invariant |potentials| == k
      invariant forall m :: 0 <= m < k ==> potentials[m] == RowPotential(t, flags, th, m)
    {
      var row := t.rows[k];
      var p := Potential(AssessValue(hasEff, row.effSnp), AssessValue(hasLen, row.length),
                         AssessValue(hasGenes, row.genes), overlapping[k], th);
      potentials := potentials + [p];
    }
  }

  // ---------------------------------------------------------------------
  // analyze_bsa_data_and_update_excel
  // ---------------------------------------------------------------------

  const OutputColumns: seq<string> :=
    ["is_overlapping", "num_overlaps", "overlap_partner_indices", "max_overlap_length_with_partner",
     "fine_mapping_potential"]

  /** `[col for col in OUTPUT_COLUMN_NAMES if col in columns]` */
  function ExistingOutputColumns(cols: seq<string>): (r: seq<string>)
    ensures forall c :: c in r <==> c in OutputColumns && c in cols
  {
    Filter(OutputColumns, c => c in cols)
  }

  /**
   * One row of the saved sheet: the 1-based Index, the input's chromosome and
   * bounds as read, the three assessment columns as the assessment converted
   * them (added as -1 when missing), and the five new columns.
   */
  datatype ResultRow = ResultRow(index: nat, chr: Option<string>, start: Coord, end: Coord,
                                 effSnp: int, length: int, genes: int, overlapping: bool, count: nat,
                                 partners: string, maxLen: int, potential: string)

  /** The `is_overlapping` column that the assessment reads. */
  function Flags(anns: seq<Annot>): (r: seq<bool>)
    ensures |r| == |anns| && forall k :: 0 <= k < |anns| ==> r[k] == anns[k].overlapping
  {
    seq(|anns|, k requires 0 <= k < |anns| => anns[k].overlapping)
  }

  /** Row `k` of the saved sheet, given the annotations of all rows. */
  function ResultFor(t: BsaSheet, anns: seq<Annot>, th: Thresholds, k: nat): ResultRow
    requires k < |t.rows| && |anns| == |t.rows|
  {
    var a := anns[k];
    var row := t.rows[k];
    ResultRow(k + 1, row.chr, row.start, row.end, AssessValue(EffSnpColumn in t.cols, row.effSnp),
              AssessValue(LengthColumn in t.cols, row.length), AssessValue(GenesColumn in t.cols, row.genes),
              a.overlapping, a.count, PartnerText(a.partners), a.maxLen, RowPotential(t, Some(Flags(anns)), th, k))
  }

  /** The saved sheet after the overlap records are known. */
  function AnalysedRows(t: BsaSheet, recs: seq<Overlap>, th: Thresholds): (r: seq<ResultRow>)
    ensures |r| == |t.rows|
    ensures forall k :: 0 <= k < |t.rows| ==> r[k] == ResultFor(t, Annotate(|t.rows|, recs), th, k)
  {
    var anns := Annotate(|t.rows|, recs);
    seq(|t.rows|, k requires 0 <= k < |t.rows| => ResultFor(t, anns, th, k))
  }

  /** The sheet that the driver saves, or why it stopped. */
  function AnalyzeBsa(t: BsaSheet, th: Thresholds): (r: Result<seq<ResultRow>, BsaError>)
    ensures r.Ok? <==> ExistingOutputColumns(t.cols) == [] && FindOverlaps(t).Ok?
    ensures r.Ok? ==> |r.value| == |t.rows|
    ensures r.Err? && r.error.AlreadyAnalysed? ==> forall c :: c in r.error.found ==> c in OutputColumns && c in t.cols
  {
    var found := ExistingOutputColumns(t.cols);
    if found != [] then Err(AlreadyAnalysed(found))
    else
      match FindOverlaps(t)
      case Err(e) => Err(e)
      case Ok(recs) => Ok(AnalysedRows(t, recs, th))
  }

  /** The overlap search never reports an already analysed sheet. */
  lemma FindOverlapsErrors(t: BsaSheet)
    ensures FindOverlaps(t).Err? ==> !FindOverlaps(t).error.AlreadyAnalysed?
  {
  }

  lemma ExistingOutputColumnsFound(cols: seq<string>)
    ensures ExistingOutputColumns(cols) != [] <==> exists c :: c in OutputColumns && c in cols
  {
    var found := ExistingOutputColumns(cols);
    if exists c :: c in OutputColumns && c in cols {
      var c :| c in OutputColumns && c in cols;
      assert c in found;
    } else if found != [] {
      assert found[0] in found;
    }
  }

  /** The driver stops, before any analysis, exactly when an output column already exists. */
  lemma AnalyzeBsaGuard(t: BsaSheet, th: Thresholds)
    ensures AnalyzeBsa(t, th).Err? && AnalyzeBsa(t, th).error.AlreadyAnalysed? <==>
      exists c :: c in OutputColumns && c in t.cols
  {
    ExistingOutputColumnsFound(t.cols);
    if ExistingOutputColumns(t.cols) == [] {
      FindOverlapsErrors(t);
    }
  }

  /**
   * The saved sheet keeps every row, in order, behind an Index column 1..n,
   * with the chromosome and bounds as read and the assessment columns
   * converted: a number truncated toward zero, a blank or non-numeric cell
   * -1, and a missing column -1 throughout.
   */
  lemma AnalyzeBsaIndex(t: BsaSheet, th: Thresholds)
    requires AnalyzeBsa(t, th).Ok?
    ensures var out := AnalyzeBsa(t, th).value;
      |out| == |t.rows| && forall k :: 0 <= k < |out| ==>
        out[k].index == k + 1 && out[k].chr == t.rows[k].chr && out[k].start == t.rows[k].start
        && out[k].end == t.rows[k].end
        && out[k].effSnp == (if EffSnpColumn in t.cols && t.rows[k].effSnp.Num? then Truncate(t.rows[k].effSnp.value) else -1)
        && out[k].length == (if LengthColumn in t.cols && t.rows[k].length.Num? then Truncate(t.rows[k].length.value) else -1)
        && out[k].genes == (if GenesColumn in t.cols && t.rows[k].genes.Num? then Truncate(t.rows[k].genes.value) else -1)
  {
    var recs := FindOverlaps(t).value;
    assert AnalyzeBsa(t, th).value == AnalysedRows(t, recs, th);
  }

  /** A saved `Effective SNP` cell of 12.7 is 12, and a blank one or a missing column -1. */
  lemma SavedValueExamples()
    ensures AssessValue(true, Num(12.7)) == 12 && AssessValue(true, Num(-2.5)) == -2
    ensures AssessValue(true, NaN) == -1 && AssessValue(false, Num(3.0)) == -1
  {
  }

  /** Row `j` overlaps row `k`, in either order. */
  predicate OverlapsWith(rows: seq<BsaRow>, k: nat, j: nat)
    requires k < |rows| && j < |rows|
  {
    k != j && PairOverlaps(rows[k], rows[j])
  }

  lemma OverlapsPartner(rows: seq<BsaRow>, k: nat, p: nat)
    requires k < |rows| && p < |rows|
    ensures IsPartner(|rows|, Overlaps(rows), k, p) <==> OverlapsWith(rows, k, p)
  {
    var recs := Overlaps(rows);
    if IsPartner(|rows|, recs, k, p) {
      var m :| 0 <= m < |recs| && Valid(|rows|, recs[m])
        && ((recs[m].first == k && recs[m].second == p) || (recs[m].second == k && recs[m].first == p));
      OverlapsExtent(rows, recs[m]);
      PairOverlapsSymmetric(rows[k], rows[p]);
    }
    if OverlapsWith(rows, k, p) {
      PairOverlapsSymmetric(rows[k], rows[p]);
      var a, b := if k < p then k else p, if k < p then p else k;
      OverlapsExactlyOnce(rows, a, b);
      var x :| x in recs && x.first == a && x.second == b;
      var m :| 0 <= m < |recs| && recs[m] == x;
      assert Valid(|rows|, recs[m]);
    }
  }

  lemma InvolvedPartner(n: nat, recs: seq<Overlap>, r: nat)
    requires r < n
    ensures Involvements(n, recs, r) > 0 <==> exists p: nat :: IsPartner(n, recs, r, p)
    decreases |recs|
  {
    if recs != [] {
      var init := recs[..|recs| - 1];
      var x := recs[|recs| - 1];
      InvolvedPartner(n, init, r);
      forall p: nat ensures IsPartner(n, recs, r, p) <==> (IsPartner(n, init, r, p)
        || (Valid(n, x) && ((x.first == r && x.second == p) || (x.second == r && x.first == p))))
      {
        IsPartnerSnoc(n, recs, r, p);
      }
      if Valid(n, x) && x.first == r { assert IsPartner(n, recs, r, x.second); }
      if Valid(n, x) && x.second == r { assert IsPartner(n, recs, r, x.first); }
    }
  }

  /** The annotation of row `k` flags it exactly when it overlaps another row. */
  lemma AnnotatedFlag(rows: seq<BsaRow>, k: nat)
    requires k < |rows|
    ensures Annotate(|rows|, Overlaps(rows))[k].overlapping <==> exists j :: 0 <= j < |rows| && OverlapsWith(rows, k, j)
  {
    var n := |rows|;
    var recs := Overlaps(rows);
    AnnotateCount(n, recs, k);
    InvolvedPartner(n, recs, k);
    forall j | 0 <= j < n ensures IsPartner(n, recs, k, j) <==> OverlapsWith(rows, k, j) {
      OverlapsPartner(rows, k, j);
    }
    forall p: nat | IsPartner(n, recs, k, p) ensures p < n { }
  }

  /** The partner text of row `k` lists, 1-based, exactly the rows overlapping it. */
  lemma AnnotatedPartnerText(rows: seq<BsaRow>, k: nat)
    requires k < |rows|
    ensures var text := PartnerText(Annotate(|rows|, Overlaps(rows))[k].partners);
      forall j :: 0 <= j < |rows| ==> (NatToString(j + 1) in Split(text, ',') <==> OverlapsWith(rows, k, j))
  {
    var n := |rows|;
    var recs := Overlaps(rows);
    var a := Annotate(n, recs)[k];
    AnnotatePartners(n, recs, k);
    forall j | 0 <= j < n ensures IsPartner(n, recs, k, j) <==> OverlapsWith(rows, k, j) {
      OverlapsPartner(rows, k, j);
    }
    if a.partners != [] {
      forall s | s in a.partners ensures ',' !in s {
        var q: nat :| q >= 1 && s == NatToString(q);
        NoCommaInNumbers(q);
      }
      PartnerTextSplits(a.partners);
    } else {
      assert StrOrder.SortedSet(a.partners) == [];
      assert Split("", ',') == [""];
      forall j | 0 <= j < n
        ensures NatToString(j + 1) in Split(PartnerText(a.partners), ',') <==> OverlapsWith(rows, k, j)
      {
        assert NatToString(j + 1) != "";
      }
    }
  }

  /**
   * In the saved sheet, `is_overlapping` holds exactly for rows that
   * overlap another row, and the partner column names exactly those rows,
   * 1-based.
   */
  lemma AnalyzeBsaOverlaps(t: BsaSheet, th: Thresholds, k: nat)
    requires AnalyzeBsa(t, th).Ok? && k < |t.rows|
    ensures var out := AnalyzeBsa(t, th).value[k];
      (out.overlapping <==> exists j :: 0 <= j < |t.rows| && OverlapsWith(t.rows, k, j))
      && forall j :: 0 <= j < |t.rows| ==>
           (NatToString(j + 1) in Split(out.partners, ',') <==> OverlapsWith(t.rows, k, j))
  {
    var recs := Overlaps(t.rows);
    assert FindOverlaps(t) == Ok(recs);
    assert AnalyzeBsa(t, th).value == AnalysedRows(t, recs, th);
    AnnotatedFlag(t.rows, k);
    AnnotatedPartnerText(t.rows, k);
  }
}
