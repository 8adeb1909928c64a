/**
 * The record-level steps of the BLAST-based homology pipeline
 * (cotton_toolkit/pipelines/homology.py): normalising region gene IDs,
 * splitting the gene list into worker chunks, the identity/score filter,
 * the strict same-subgenome filter, the version-stripped lookup key and the
 * final column order of the locus conversion.
 */
module HomologyPipeline {
  import opened Wrappers
  import opened PyText
  import opened Numeric
  import opened GeneUtils
  import opened SeqUtil
  import PyDict
  import CM = ConfigModels
  import CO = ConfigOverrides

  /**
   * IDs extracted from a GFF region, normalised by the genome's ID regex
   * (`normalise`, the unseen `_apply_regex_to_id`); None and "" are dropped.
   */
  function NormaliseRegionIds(raw: seq<string>, normalise: string -> Option<string>): (ids: seq<string>)
    ensures |ids| <= |raw|
    ensures forall k :: 0 <= k < |ids| ==> ids[k] != ""
    ensures forall x :: x in ids <==> exists g :: g in raw && normalise(g) == Some(x) && x != ""
  {
    if raw == [] then []
    else
      var rest := NormaliseRegionIds(raw[1..], normalise);
      var n := normalise(raw[0]);
      assert forall g :: g in raw <==> g == raw[0] || g in raw[1..];
      if n.Some? && n.value != "" then [n.value] + rest else rest
  }

  /**
   * The comprehension keeps order and repeats: the IDs of `a + b` are those
   * of `a` followed by those of `b`.
   */
  lemma {:induction false} NormaliseAppend(a: seq<string>, b: seq<string>, normalise: string -> Option<string>)
    ensures NormaliseRegionIds(a + b, normalise) == NormaliseRegionIds(a, normalise) + NormaliseRegionIds(b, normalise)
  {
    if a != [] {
      var ab := a + b;
      assert ab[0] == a[0] && ab[1..] == a[1..] + b;
      NormaliseCons(a, normalise);
      NormaliseCons(ab, normalise);
      NormaliseAppend(a[1..], b, normalise);
      var h := NormaliseHead(a[0], normalise);
      var x := NormaliseRegionIds(a[1..], normalise);
      var y := NormaliseRegionIds(b, normalise);
      assert h + (x + y) == (h + x) + y;
    } else {
      assert a + b == b;
    }
  }

  /** What the first raw ID contributes. */
  function NormaliseHead(g: string, normalise: string -> Option<string>): seq<string> {
    if normalise(g).Some? && normalise(g).value != "" then [normalise(g).value] else []
  }

  lemma NormaliseCons(a: seq<string>, normalise: string -> Option<string>)
    requires a != []
    ensures NormaliseRegionIds(a, normalise) == NormaliseHead(a[0], normalise) + NormaliseRegionIds(a[1..], normalise)
  {
  }

  /** One raw ID gives its normalised form when that is a non-empty text, and nothing otherwise. */
  lemma NormaliseOne(g: string, normalise: string -> Option<string>)
    ensures NormaliseRegionIds([g], normalise) ==
      if normalise(g).Some? && normalise(g).value != "" then [normalise(g).value] else []
  {
  }

  /** Python's `a // b` (rounds toward negative infinity). */
  function FloorDiv(a: int, b: int): int
    requires b != 0
  {
    if b > 0 then a / b else (-a) / (-b)
  }

  /** `max(1, (n + max_workers - 1) // max_workers)` */
  function ChunkSize(n: nat, maxWorkers: int): (size: int)
    requires maxWorkers != 0
    ensures size >= 1
    ensures maxWorkers > 0 ==> size * maxWorkers >= n
    ensures maxWorkers > 0 && n > 0 ==> (size - 1) * maxWorkers < n
  {
    var q := FloorDiv(n + maxWorkers - 1, maxWorkers);
    CeilDivBounds(n, maxWorkers);
    if q < 1 then 1 else q
  }

  lemma CeilDivBounds(n: nat, w: int)
    requires w != 0
    ensures w > 0 ==> ((n + w - 1) / w) * w >= n
    ensures w > 0 && n > 0 ==> ((n + w - 1) / w - 1) * w < n
    ensures w > 0 && n > 0 ==> (n + w - 1) / w >= 1
  {
    if w > 0 {
      var q := (n + w - 1) / w;
      var r := (n + w - 1) % w;
      assert n + w - 1 == q * w + r && 0 <= r < w;
      assert q * w == n + w - 1 - r;
      assert (q - 1) * w == q * w - w;
    }
  }

  function Flatten<T>(cs: seq<seq<T>>): seq<T> {
    if cs == [] then [] else cs[0] + Flatten(cs[1..])
  }

  /** `[ids[i:i + size] for i in range(0, len(ids), size)]` */
  function Chunks(ids: seq<string>, size: int): (cs: seq<seq<string>>)
    requires size >= 1
    ensures forall k :: 0 <= k < |cs| ==> 1 <= |cs[k]| <= size
    ensures Flatten(cs) == ids
    decreases |ids|
  {
    if ids == [] then []
    else if |ids| <= size then [ids]
    else
      var rest := Chunks(ids[size..], size);
      assert ids == ids[..size] + ids[size..];
      [ids[..size]] + rest
  }

  /** There are ceil(n / size) chunks. */
  lemma {:induction false} ChunkCount(ids: seq<string>, size: int)
    requires size >= 1
    ensures |Chunks(ids, size)| * size >= |ids|
    ensures |ids| > 0 ==> (|Chunks(ids, size)| - 1) * size < |ids|
    decreases |ids|
  {
    if |ids| > size {
      var rest := Chunks(ids[size..], size);
      ChunkCount(ids[size..], size);
      assert |Chunks(ids, size)| == |rest| + 1;
      MulSucc(|rest|, size);
      MulSucc(|rest| - 1, size);
    }
  }

  lemma MulSucc(c: int, s: int)
    ensures (c + 1) * s == c * s + s
  {
  }

  lemma MulCancelLess(a: int, b: int, s: int)
    requires s > 0 && a * s < b * s
    ensures a < b
  {
  }

  /** With at least one worker there are never more chunks than workers. */
  lemma AtMostOneChunkPerWorker(ids: seq<string>, maxWorkers: int)
    requires maxWorkers != 0
    ensures maxWorkers >= 1 ==> |Chunks(ids, ChunkSize(|ids|, maxWorkers))| <= maxWorkers
  {
    if maxWorkers >= 1 && |ids| > 0 {
      var size := ChunkSize(|ids|, maxWorkers);
      var c := |Chunks(ids, size)|;
      ChunkCount(ids, size);
      assert (c - 1) * size < maxWorkers * size;
      MulCancelLess(c - 1, maxWorkers, size);
    }
  }

  datatype ChunkError = EmptyGeneList | ZeroWorkers

  /**
   * The gene list check and the work split: an empty list raises ValueError,
   * zero workers would divide by zero.
   */
  function PlanChunks(ids: seq<string>, maxWorkers: int): (r: Result<seq<seq<string>>, ChunkError>)
    ensures ids == [] <==> r == Err(EmptyGeneList)
    ensures ids != [] && maxWorkers == 0 <==> r == Err(ZeroWorkers)
    ensures r.Ok? ==> Flatten(r.value) == ids && |r.value| >= 1
    ensures r.Ok? && maxWorkers >= 1 ==> |r.value| <= maxWorkers
  {
    if ids == [] then Err(EmptyGeneList)
    else if maxWorkers == 0 then Err(ZeroWorkers)
    else
      var cs := Chunks(ids, ChunkSize(|ids|, maxWorkers));
      AtMostOneChunkPerWorker(ids, maxWorkers);
      Ok(cs)
  }

  /** One BLAST hit: `Query_ID`, `Hit_ID`, `Identity (%)`, `Bit_Score`. */
  datatype Hit = Hit(queryId: string, hitId: string, identity: Cell, bitScore: Cell)

  /** Which optional columns the merged result table has. */
  datatype HitColumns = HitColumns(hasIdentity: bool, hasBitScore: bool)

  /** Thresholds of the selection criteria (None = not set). */
  datatype HitThresholds = HitThresholds(pid: Option<real>, score: Option<real>)

  /** A hit survives the PID filter (when it applies) and the score filter (when it applies). */
  predicate PassesThresholds(h: Hit, cols: HitColumns, t: HitThresholds) {
    (t.pid.Some? && cols.hasIdentity ==> AtLeast(h.identity, t.pid.value))
    && (t.score.Some? && cols.hasBitScore ==> AtLeast(h.bitScore, t.score.value))
  }

  function FilterPid(hits: seq<Hit>, cols: HitColumns, t: HitThresholds): seq<Hit> {
    if t.pid.Some? && cols.hasIdentity then Filter(hits, (h: Hit) => AtLeast(h.identity, t.pid.value)) else hits
  }

  function FilterScore(hits: seq<Hit>, cols: HitColumns, t: HitThresholds): seq<Hit> {
    if t.score.Some? && cols.hasBitScore then Filter(hits, (h: Hit) => AtLeast(h.bitScore, t.score.value)) else hits
  }

  /** Strict mode keeps a hit iff both IDs parse and agree on subgenome and chromosome. */
  predicate SameSubgenomeAndChromosome(h: Hit) {
    var s := ParseGeneId(h.queryId);
    var t := ParseGeneId(h.hitId);
    s.Some? && t.Some? && s.value.subgenome == t.value.subgenome && s.value.chromosome == t.value.chromosome
  }

  /** Strict mode applies only when it is requested and both genomes are cotton. */
  function StrictFilter(hits: seq<Hit>, strict: bool, sourceIsCotton: bool, targetIsCotton: bool): seq<Hit> {
    if strict && sourceIsCotton && targetIsCotton then Filter(hits, SameSubgenomeAndChromosome) else hits
  }

  /** The PID, score and strict filters in the order the pipeline applies them. */
  function FilterHits(hits: seq<Hit>, cols: HitColumns, t: HitThresholds,
                      strict: bool, sourceIsCotton: bool, targetIsCotton: bool): (r: seq<Hit>)
    ensures multiset(r) <= multiset(hits)
    ensures forall h :: h in r ==> PassesThresholds(h, cols, t)
    ensures strict && sourceIsCotton && targetIsCotton ==> forall h :: h in r ==> SameSubgenomeAndChromosome(h)
  {
    var a := FilterPid(hits, cols, t);
    FilterPidSound(hits, cols, t);
    FilterScoreSound(a, cols, t);
    StrictFilterSound(FilterScore(a, cols, t), strict, sourceIsCotton, targetIsCotton);
    StrictFilter(FilterScore(FilterPid(hits, cols, t), cols, t), strict, sourceIsCotton, targetIsCotton)
  }

  /** The filtered table is a sub-multiset of the hits, and a hit is kept iff it passes every filter that applies. */
  lemma FilterHitsSound(hits: seq<Hit>, cols: HitColumns, t: HitThresholds,
                        strict: bool, sourceIsCotton: bool, targetIsCotton: bool)
    ensures var r := FilterHits(hits, cols, t, strict, sourceIsCotton, targetIsCotton);
      multiset(r) <= multiset(hits)
      && forall h :: h in r <==>
           h in hits && PassesThresholds(h, cols, t)
           && (strict && sourceIsCotton && targetIsCotton ==> SameSubgenomeAndChromosome(h))
  {
    var a := FilterPid(hits, cols, t);
    var b := FilterScore(a, cols, t);
    FilterPidSound(hits, cols, t);
    FilterScoreSound(a, cols, t);
    StrictFilterSound(b, strict, sourceIsCotton, targetIsCotton);
  }

  lemma FilterPidSound(hits: seq<Hit>, cols: HitColumns, t: HitThresholds)
    ensures var r := FilterPid(hits, cols, t);
      multiset(r) <= multiset(hits)
      && forall h :: h in r <==> h in hits && (t.pid.Some? && cols.hasIdentity ==> AtLeast(h.identity, t.pid.value))
  {
  }

  lemma FilterScoreSound(hits: seq<Hit>, cols: HitColumns, t: HitThresholds)
    ensures var r := FilterScore(hits, cols, t);
      multiset(r) <= multiset(hits)
      && forall h :: h in r <==> h in hits && (t.score.Some? && cols.hasBitScore ==> AtLeast(h.bitScore, t.score.value))
  {
  }

  lemma StrictFilterSound(hits: seq<Hit>, strict: bool, sourceIsCotton: bool, targetIsCotton: bool)
    ensures var r := StrictFilter(hits, strict, sourceIsCotton, targetIsCotton);
      multiset(r) <= multiset(hits)
      && forall h :: h in r <==> h in hits && (strict && sourceIsCotton && targetIsCotton ==> SameSubgenomeAndChromosome(h))
  {
  }

  /** Without strict mode, or for a non-cotton genome, the strict filter changes nothing. */
  lemma StrictFilterInactive(hits: seq<Hit>, strict: bool, sourceIsCotton: bool, targetIsCotton: bool)
    requires !(strict && sourceIsCotton && targetIsCotton)
    ensures StrictFilter(hits, strict, sourceIsCotton, targetIsCotton) == hits
  {
  }

  // ----- The filter stage and the strict-mode attribute -----

  /** The attribute that `if criteria.strict_subgenome_priority:` reads. */
  const StrictKey := "strict_subgenome_priority"

  /** Python truthiness of a configuration value; a dataclass instance is always true. */
  predicate Truthy(v: CM.Value) {
    match v
    case VNone => false
    case VBool(b) => b
    case VNum(n) => n != 0
    case VReal(x) => x != 0.0
    case VStr(s) => s != ""
    case VList(items) => items != []
    case VMap(entries) => entries != []
    case VObj(_) => true
  }

  /** The attributes of a dataclass instance, by name. */
  function AttrMap(d: PyDict.Dict<string, CM.Value>): (m: map<string, CM.Value>)
    ensures forall k :: k in m <==> PyDict.HasKey(d, k)
  {
    if d == [] then map[]
    else
      var m := AttrMap(d[..|d| - 1]);
      assert forall k :: PyDict.HasKey(d, k) <==> PyDict.HasKey(d[..|d| - 1], k) || d[|d| - 1].0 == k by {
        forall k | PyDict.HasKey(d, k) && d[|d| - 1].0 != k ensures PyDict.HasKey(d[..|d| - 1], k) {
          var i :| 0 <= i < |d| && d[i].0 == k;
          assert d[..|d| - 1][i].0 == k;
        }
        forall k | PyDict.HasKey(d[..|d| - 1], k) ensures PyDict.HasKey(d, k) {
          var i :| 0 <= i < |d| - 1 && d[..|d| - 1][i].0 == k;
          assert d[i].0 == k;
        }
      }
      m[d[|d| - 1].0 := d[|d| - 1].1]
  }

  /**
   * `criteria = HomologySelectionCriteria()` with `defaults` as its fields,
   * then `_update_config_from_overrides(criteria, criteria_overrides)`.
   */
  function CriteriaAfterOverrides(defaults: PyDict.Dict<string, CM.Value>,
                                  overrides: Option<PyDict.Dict<string, CM.Value>>): map<string, CM.Value>
  {
    CO.Applied(AttrMap(defaults), CO.Entries(overrides))
  }

  datatype StageError = MissingAttribute(name: string)

  /**
   * The stage after the BLAST workers: no hits give the empty table; otherwise
   * the PID and score filters run and `criteria.strict_subgenome_priority` is
   * read, which raises AttributeError when the criteria object lacks that
   * attribute, and otherwise switches the strict filter by its truth value.
   */
  function FilterStage(results: seq<seq<Hit>>, criteria: map<string, CM.Value>, cols: HitColumns,
                       t: HitThresholds, sourceIsCotton: bool, targetIsCotton: bool): (r: Result<seq<Hit>, StageError>)
    ensures Flatten(results) == [] ==> r == Ok([])
    ensures Flatten(results) != [] ==> (r.Err? <==> StrictKey !in criteria)
    ensures r.Err? ==> r.error == MissingAttribute(StrictKey)
    ensures r.Ok? ==> multiset(r.value) <= multiset(Flatten(results))
    ensures r.Ok? ==> forall h :: h in r.value ==> h in Flatten(results) && PassesThresholds(h, cols, t)
  {
    var hits := Flatten(results);
    if hits == [] then Ok([])
    else if StrictKey !in criteria then Err(MissingAttribute(StrictKey))
    else
      var strict := Truthy(criteria[StrictKey]);
      FilterHitsSound(hits, cols, t, strict, sourceIsCotton, targetIsCotton);
      Ok(FilterHits(hits, cols, t, strict, sourceIsCotton, targetIsCotton))
  }

  /** `HomologySelectionCriteria` declares no strict attribute. */
  lemma NoStrictField()
    ensures !PyDict.HasKey(CM.DefaultCriteria.attrs, StrictKey)
  {
    var d := CM.DefaultCriteria.attrs;
    forall i | 0 <= i < |d| ensures d[i].0 != StrictKey {
      assert |d[i].0| < |StrictKey|;
    }
  }

  /**
   * The overrides cannot add the attribute: the criteria object never has
   * it, and a non-`None` strict value from the form is only warned about.
   */
  lemma StrictNeverSet(overrides: Option<PyDict.Dict<string, CM.Value>>)
    ensures StrictKey !in CriteriaAfterOverrides(CM.DefaultCriteria.attrs, overrides)
    ensures (exists v :: v != CM.VNone && (StrictKey, v) in CO.Entries(overrides)) ==>
      StrictKey in CO.Unknown(AttrMap(CM.DefaultCriteria.attrs), CO.Entries(overrides))
  {
    NoStrictField();
    CO.UnknownExactly(AttrMap(CM.DefaultCriteria.attrs), CO.Entries(overrides), StrictKey);
  }

  /** As written, every run whose workers return a hit raises AttributeError in the filter stage. */
  lemma FilterStageRaises(results: seq<seq<Hit>>, overrides: Option<PyDict.Dict<string, CM.Value>>,
                          cols: HitColumns, t: HitThresholds, sourceIsCotton: bool, targetIsCotton: bool)
    requires Flatten(results) != []
    ensures FilterStage(results, CriteriaAfterOverrides(CM.DefaultCriteria.attrs, overrides), cols, t,
                        sourceIsCotton, targetIsCotton) == Err(MissingAttribute(StrictKey))
  {
    StrictNeverSet(overrides);
  }

  /** What the `pipeline_task` wrapper hands back: the table, or `None` once the body raised. */
  function TaskResult<T>(r: Result<T, StageError>): (m: Option<T>)
    ensures m.Some? <==> r.Ok?
  {
    if r.Ok? then Some(r.value) else None
  }

  /** The locus conversion passes its no-homologs return only with a non-empty mapping table. */
  predicate ConversionProceeds(m: Option<seq<Hit>>) {
    m.Some? && m.value != []
  }

  /**
   * As written, the locus conversion always takes its no-homologs return:
   * without hits the table is empty, and with hits the mapping is `None`.
   */
  lemma LocusConversionNeverProceeds(results: seq<seq<Hit>>, overrides: Option<PyDict.Dict<string, CM.Value>>,
                                     cols: HitColumns, t: HitThresholds, sourceIsCotton: bool, targetIsCotton: bool)
    ensures !ConversionProceeds(TaskResult(FilterStage(results, CriteriaAfterOverrides(CM.DefaultCriteria.attrs, overrides),
                                                       cols, t, sourceIsCotton, targetIsCotton)))
  {
    if Flatten(results) != [] {
      FilterStageRaises(results, overrides, cols, t, sourceIsCotton, targetIsCotton);
    }
  }

  /** The criteria fields with the strict field declared as `strict_subgenome_priority: bool = False`. */
  const IntendedCriteria: PyDict.Dict<string, CM.Value> := CM.DefaultCriteria.attrs + [(StrictKey, CM.VBool(false))]

  /** With the field declared, the attribute holds the last non-`None` value the overrides give, or False. */
  lemma IntendedStrict(overrides: Option<PyDict.Dict<string, CM.Value>>)
    ensures var c := CriteriaAfterOverrides(IntendedCriteria, overrides);
      var last := CO.LastSet(CO.Entries(overrides), StrictKey);
      StrictKey in c && c[StrictKey] == if last.Some? then last.value else CM.VBool(false)
  {
    var d := IntendedCriteria;
    assert d[|d| - 1] == (StrictKey, CM.VBool(false));
    assert PyDict.HasKey(d, StrictKey);
    var m := AttrMap(d);
    assert m == AttrMap(d[..|d| - 1])[StrictKey := CM.VBool(false)];
    CO.AppliedAt(m, CO.Entries(overrides), StrictKey);
  }

  /**
   * With the field declared, the stage never raises: it returns the hits
   * that pass the PID and score filters and, when the form asked for strict
   * mode between two cotton genomes, the same-subgenome test.
   */
  lemma FilterStageIntended(results: seq<seq<Hit>>, overrides: Option<PyDict.Dict<string, CM.Value>>,
                            cols: HitColumns, t: HitThresholds, sourceIsCotton: bool, targetIsCotton: bool)
    ensures var c := CriteriaAfterOverrides(IntendedCriteria, overrides);
      var last := CO.LastSet(CO.Entries(overrides), StrictKey);
      var strict := last.Some? && Truthy(last.value);
      FilterStage(results, c, cols, t, sourceIsCotton, targetIsCotton)
        == Ok(FilterHits(Flatten(results), cols, t, strict, sourceIsCotton, targetIsCotton))
  {
    IntendedStrict(overrides);
    if Flatten(results) == [] {
      var last := CO.LastSet(CO.Entries(overrides), StrictKey);
      var strict := last.Some? && Truthy(last.value);
      FilterHitsSound([], cols, t, strict, sourceIsCotton, targetIsCotton);
    }
  }

  /** `s` ends in `"." + digits` at position `i` (the `.` is at `i`). */
  predicate VersionSuffixAt(s: string, i: int) {
    0 <= i < |s| - 1 && s[i] == '.' && AllDigits(s[i + 1..])
  }

  /**
   * `re.sub(r'\.\d+$', '', s)`: removes one trailing "." + digits. `$` also
   * matches just before a final newline, which is kept.
   */
  function StripVersion(s: string): (r: string)
    ensures |r| <= |s|
  {
    if EndsWith(s, "\n") then
      var t := s[..|s| - 1];
      var i := LastDot(t);
      if i >= 0 && VersionSuffixAt(t, i) then t[..i] + "\n" else s
    else
      var i := LastDot(s);
      if i >= 0 && VersionSuffixAt(s, i) then s[..i] else s
  }

  /** The index of the last '.' in `s`, or -1. */
  function LastDot(s: string): (i: int)
    ensures -1 <= i < |s|
    ensures i >= 0 ==> s[i] == '.'
    ensures forall j :: i < j < |s| ==> s[j] != '.'
  {
    if s == [] then -1 else if s[|s| - 1] == '.' then |s| - 1 else LastDot(s[..|s| - 1])
  }

  /** Only the last '.' can start the suffix, since the digits after it contain no '.'. */
  lemma VersionSuffixIsLastDot(s: string, i: int)
    requires VersionSuffixAt(s, i)
    ensures LastDot(s) == i
  {
  }

  /** A string ending in `.<digits>` loses exactly that suffix. */
  lemma StripVersionRemovesSuffix(p: string, d: string)
    requires d != [] && AllDigits(d)
    ensures StripVersion(p + "." + d) == p
  {
    var s := p + "." + d;
    assert s[|p| + 1..] == d;
    assert VersionSuffixAt(s, |p|);
    VersionSuffixIsLastDot(s, |p|);
    assert s[..|p|] == p;
  }

  /** Before a final newline the suffix is removed and the newline kept. */
  lemma StripVersionBeforeNewline(p: string, d: string)
    requires d != [] && AllDigits(d)
    ensures StripVersion(p + "." + d + "\n") == p + "\n"
  {
    var s := p + "." + d + "\n";
    assert s[..|s| - 1] == p + "." + d;
    StripVersionRemovesSuffix(p, d);
    var t := p + "." + d;
    assert t[|p| + 1..] == d;
    VersionSuffixIsLastDot(t, |p|);
  }

  /** Without a trailing `.<digits>` the ID is its own key. */
  lemma StripVersionKeepsPlainId(s: string)
    requires forall i :: !VersionSuffixAt(s, i)
    requires !EndsWith(s, "\n")
    ensures StripVersion(s) == s
  {
  }

  /** The key is not idempotent: "X.1.2" becomes "X.1", which becomes "X". */
  lemma StripVersionNotIdempotent()
    ensures StripVersion("X.1.2") == "X.1"
    ensures StripVersion(StripVersion("X.1.2")) == "X"
  {
    StripVersionRemovesSuffix("X.1", "2");
    assert "X.1" + "." + "2" == "X.1.2";
    StripVersionRemovesSuffix("X", "1");
    assert "X" + "." + "1" == "X.1";
  }

  /** `cols.remove(x)`: drops the first occurrence and keeps the rest in order. */
  function RemoveFirst(cols: seq<string>, x: string): (r: seq<string>)
    requires x in cols
    ensures |r| == |cols| - 1
    ensures multiset(r) == multiset(cols) - multiset{x}
    ensures exists i :: 0 <= i < |cols| && cols[i] == x && x !in cols[..i] && r == cols[..i] + cols[i + 1..]
  {
    var i := IndexOfName(cols, x);
    assert cols == cols[..i] + [x] + cols[i + 1..];
    cols[..i] + cols[i + 1..]
  }

  /** `cols.index(x)` */
  function IndexOfName(cols: seq<string>, x: string): (i: nat)
    requires x in cols
    ensures i < |cols| && cols[i] == x && x !in cols[..i]
  {
    if cols[0] == x then 0 else 1 + IndexOfName(cols[1..], x)
  }

  /** Remove `loci`; then, if `id` is still present, insert `loci` right after it. */
  function PlaceAfter(cols: seq<string>, loci: string, id: string): seq<string> {
    if loci !in cols then cols
    else
      var c := RemoveFirst(cols, loci);
      if id in c then
        var k := IndexOfName(c, id);
        c[..k + 1] + [loci] + c[k + 1..]
      else c
  }

  /** The column order written by the locus conversion. */
  function ReorderColumns(cols: seq<string>): (r: seq<string>)
    ensures multiset(r) <= multiset(cols)
    ensures forall x :: x in cols && x != "Query_Loci" && x != "Hit_Loci" ==> x in r
  {
    PlaceAfterKeeps(cols, "Query_Loci", "Query_ID");
    PlaceAfterKeeps(PlaceAfter(cols, "Query_Loci", "Query_ID"), "Hit_Loci", "Hit_ID");
    PlaceAfter(PlaceAfter(cols, "Query_Loci", "Query_ID"), "Hit_Loci", "Hit_ID")
  }

  /** The move never adds a column, and only the moved column can be lost. */
  lemma PlaceAfterKeeps(cols: seq<string>, loci: string, id: string)
    ensures multiset(PlaceAfter(cols, loci, id)) <= multiset(cols)
    ensures forall x :: x in cols && x != loci ==> x in PlaceAfter(cols, loci, id)
  {
    if loci in cols {
      var c := RemoveFirst(cols, loci);
      var r := PlaceAfter(cols, loci, id);
      if id in c {
        var k := IndexOfName(c, id);
        InsertAfter(c, k, loci);
        assert r == c[..k + 1] + [loci] + c[k + 1..];
      }
      assert multiset(c) <= multiset(r);
      forall x | x in cols && x != loci ensures x in r {
        RemoveFirstKeeps(cols, loci, x);
        SubMultisetIn(c, r, x);
      }
    }
  }

  /** Removing the first `loci` keeps every other name. */
  lemma RemoveFirstKeeps(cols: seq<string>, loci: string, x: string)
    requires loci in cols && x in cols && x != loci
    ensures x in RemoveFirst(cols, loci)
  {
    var i := IndexOfName(cols, loci);
    var d := RemoveFirst(cols, loci);
    assert d == cols[..i] + cols[i + 1..];
    var j :| 0 <= j < |cols| && cols[j] == x;
    if j < i {
      assert d[j] == cols[..i][j];
    } else {
      assert d[j - 1] == cols[i + 1..][j - 1 - i];
    }
  }

  lemma SubMultisetIn(a: seq<string>, b: seq<string>, x: string)
    requires multiset(a) <= multiset(b) && x in a
    ensures x in b
  {
    assert x in multiset(a);
  }

  predicate Distinct(cols: seq<string>) {
    forall i, j :: 0 <= i < j < |cols| ==> cols[i] != cols[j]
  }

  /** With distinct names and the ID column present, the move is a permutation that puts `loci` right after `id`. */
  lemma PlaceAfterMoves(cols: seq<string>, loci: string, id: string)
    requires Distinct(cols) && loci != id && loci in cols && id in cols
    ensures var r := PlaceAfter(cols, loci, id);
      multiset(r) == multiset(cols) && Distinct(r)
      && exists k :: 0 <= k < |r| - 1 && r[k] == id && r[k + 1] == loci
  {
    var c := RemoveFirst(cols, loci);
    assert id in multiset(c);
    var k := IndexOfName(c, id);
    InsertAfter(c, k, loci);
    var r := c[..k + 1] + [loci] + c[k + 1..];
    assert PlaceAfter(cols, loci, id) == r;
    assert multiset(r) == multiset(cols) by {
      assert loci in multiset(cols);
      assert multiset(r) == multiset(cols) - multiset{loci} + multiset{loci};
    }
    DistinctByMultiset(r, multiset(cols), cols);
    assert 0 <= k < |r| - 1 && r[k] == id && r[k + 1] == loci;
  }

  /** Inserting `x` after position `k` adds `x` to the multiset and puts it right after `c[k]`. */
  lemma InsertAfter(c: seq<string>, k: nat, x: string)
    requires k < |c|
    ensures var r := c[..k + 1] + [x] + c[k + 1..];
      multiset(r) == multiset(c) + multiset{x} && r[k] == c[k] && r[k + 1] == x
  {
    assert c == c[..k + 1] + c[k + 1..];
  }

  lemma DistinctByMultiset(r: seq<string>, m: multiset<string>, cols: seq<string>)
    requires Distinct(cols) && multiset(cols) == m && multiset(r) == m
    ensures Distinct(r)
  {
    forall x | x in m ensures m[x] == 1 { DistinctCount(cols, x); }
    forall i, j | 0 <= i < j < |r| ensures r[i] != r[j] {
      RepeatCounted(r, i, j);
    }
  }

  lemma RepeatCounted(r: seq<string>, i: int, j: int)
    requires 0 <= i < j < |r|
    ensures r[i] == r[j] ==> multiset(r)[r[i]] >= 2
  {
    assert r == r[..i] + [r[i]] + r[i + 1..j] + [r[j]] + r[j + 1..];
  }

  lemma {:induction false} DistinctCount(cols: seq<string>, x: string)
    requires Distinct(cols) && x in cols
    ensures multiset(cols)[x] == 1
  {
    var i :| 0 <= i < |cols| && cols[i] == x;
    assert cols == cols[..i] + [x] + cols[i + 1..];
    assert x !in cols[..i] && x !in cols[i + 1..];
  }

  /** A loci column whose ID column is absent is dropped, so the result is then not a permutation. */
  lemma PlaceAfterDropsOrphan(cols: seq<string>, loci: string, id: string)
    requires loci in cols && id !in cols
    ensures multiset(PlaceAfter(cols, loci, id)) == multiset(cols) - multiset{loci}
  {
    var c := RemoveFirst(cols, loci);
    assert id !in multiset(c);
  }

  /**
   * The final column list is a permutation of the original one with
   * Query_Loci right after Query_ID and Hit_Loci right after Hit_ID, when
   * the names are distinct and both members of each pair are present.
   */
  lemma ReorderColumnsPermutes(cols: seq<string>)
    requires Distinct(cols)
    requires "Query_Loci" in cols && "Query_ID" in cols && "Hit_Loci" in cols && "Hit_ID" in cols
    ensures var r := ReorderColumns(cols);
      multiset(r) == multiset(cols)
      && (exists k :: 0 <= k < |r| - 1 && r[k] == "Query_ID" && r[k + 1] == "Query_Loci")
      && (exists k :: 0 <= k < |r| - 1 && r[k] == "Hit_ID" && r[k + 1] == "Hit_Loci")
  {
    var c := QueryMoved(cols);
    var r := PlaceAfter(c, "Hit_Loci", "Hit_ID");
    assert ReorderColumns(cols) == r;
    PlaceAfterMoves(c, "Hit_Loci", "Hit_ID");
    var k :| 0 <= k < |c| - 1 && c[k] == "Query_ID" && c[k + 1] == "Query_Loci";
    PairSurvivesMove(c, "Hit_Loci", "Hit_ID", k);
  }

  /** After the first move the Query columns are adjacent and the names are still distinct and all present. */
  lemma QueryMoved(cols: seq<string>) returns (c: seq<string>)
    requires Distinct(cols)
    requires "Query_Loci" in cols && "Query_ID" in cols && "Hit_Loci" in cols && "Hit_ID" in cols
    ensures c == PlaceAfter(cols, "Query_Loci", "Query_ID")
    ensures multiset(c) == multiset(cols) && Distinct(c) && "Hit_Loci" in c && "Hit_ID" in c
    ensures exists k :: 0 <= k < |c| - 1 && c[k] == "Query_ID" && c[k + 1] == "Query_Loci"
  {
    PlaceAfterMoves(cols, "Query_Loci", "Query_ID");
    c := PlaceAfter(cols, "Query_Loci", "Query_ID");
    assert "Hit_Loci" in multiset(c) && "Hit_ID" in multiset(c);
  }

  /** Moving the Hit columns keeps Query_Loci right after Query_ID. */
  lemma PairSurvivesMove(c: seq<string>, loci: string, id: string, k: int)
    requires Distinct(c) && loci != id && loci in c && id in c
    requires 0 <= k < |c| - 1 && c[k] != loci && c[k + 1] != loci && c[k] != id && c[k + 1] != id
    ensures var r := PlaceAfter(c, loci, id);
      exists m :: 0 <= m < |r| - 1 && r[m] == c[k] && r[m + 1] == c[k + 1]
  {
    var i := IndexOfName(c, loci);
    var d := RemoveFirst(c, loci);
    assert d == c[..i] + c[i + 1..];
    var k' := RemoveKeepsPair(c, i, k);
    assert id in multiset(d) by { assert id in multiset(c); }
    var j := IndexOfName(d, id);
    assert j != k' by { assert d[j] == id && d[k'] == c[k]; }
    var r := d[..j + 1] + [loci] + d[j + 1..];
    assert PlaceAfter(c, loci, id) == r;
    var m := InsertKeepsPair(d, j + 1, loci, k');
    assert r[m] == c[k] && r[m + 1] == c[k + 1];
  }

  lemma RemoveKeepsPair(c: seq<string>, i: int, k: int) returns (k': int)
    requires 0 <= i < |c| && 0 <= k < |c| - 1 && i != k && i != k + 1
    ensures var d := c[..i] + c[i + 1..];
      0 <= k' < |d| - 1 && d[k'] == c[k] && d[k' + 1] == c[k + 1]
  {
    k' := if k < i then k else k - 1;
  }

  lemma InsertKeepsPair(d: seq<string>, p: int, x: string, k: int) returns (m: int)
    requires 0 <= p <= |d| && 0 <= k < |d| - 1 && p != k + 1
    ensures var r := d[..p] + [x] + d[p..];
      0 <= m < |r| - 1 && r[m] == d[k] && r[m + 1] == d[k + 1]
  {
    m := if k < p then k else k + 1;
  }
}
