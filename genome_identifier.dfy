/**
 * `identify_genome_from_gene_ids` of ui/utils/gui_helpers.py: which genome
 * assembly a list of gene IDs most likely comes from, judged by the share
 * of IDs each assembly's gene-ID pattern matches. Regular expressions are
 * outside the model: whether a pattern compiles and whether it matches an ID
 * at its start are parameters.
 */
module GenomeIdentifier {
  import opened Wrappers
  import opened PyText
  import opened PyDict

  /** The assemblies in the order of the source map, with their `gene_id_regex`, `None` when absent or `None`. */
  type Sources = Dict<string, Option<string>>

  /**
   * The answer: the assembly, whether the JGI/UTX ambiguity warning is set,
   * and the score as `matched` of `total` IDs (the score is `100 * matched / total`).
   */
  datatype Identification = Identification(assembly: string, ambiguous: bool, matched: nat, total: nat)

  const Jgi := "JGI_v1.1"
  const Utx := "UTX_v2.1"

  /** IDs that take part: non-empty, and not starting with `scaffold`, `unknown` or `chr` in lower case. */
  predicate Checked(gid: string) {
    var low := Lower(gid);
    gid != "" && !StartsWith(low, "scaffold") && !StartsWith(low, "unknown") && !StartsWith(low, "chr")
  }

  function CheckedIds(ids: seq<string>): (r: seq<string>)
    ensures forall k :: 0 <= k < |r| ==> Checked(r[k])
    ensures forall g :: g in r <==> g in ids && Checked(g)
    decreases |ids|
  {
    if ids == [] then []
    else CheckedIds(ids[..|ids| - 1]) + (if Checked(ids[|ids| - 1]) then [ids[|ids| - 1]] else [])
  }

  /** How many of `ids` the pattern matches. */
  function MatchCount(pattern: string, ids: seq<string>, matches: (string, string) -> bool): (n: nat)
    ensures n <= |ids|
    ensures n == 0 <==> forall k :: 0 <= k < |ids| ==> !matches(pattern, ids[k])
    decreases |ids|
  {
    if ids == [] then 0
    else MatchCount(pattern, ids[..|ids| - 1], matches) + (if matches(pattern, ids[|ids| - 1]) then 1 else 0)
  }

  /** Whether a source's pattern is truthy and compiles. */
  predicate Usable(pattern: Option<string>, compiles: string -> bool) {
    pattern.Some? && pattern.value != "" && compiles(pattern.value)
  }

  /** The score table: assemblies with a usable pattern that matches at least one ID, with the match count. */
  function Scores(sources: Sources, ids: seq<string>, compiles: string -> bool, matches: (string, string) -> bool)
    : (s: Dict<string, nat>)
    ensures forall k :: 0 <= k < |s| ==> s[k].1 > 0
    decreases |sources|
  {
    if sources == [] then []
    else
      var init := Scores(sources[..|sources| - 1], ids, compiles, matches);
      var (id, pattern) := sources[|sources| - 1];
      if Usable(pattern, compiles) && MatchCount(pattern.value, ids, matches) > 0
      then init + [(id, MatchCount(pattern.value, ids, matches))]
      else init
  }

  /**
   * The first entry of `sorted(scores.items(), key=score, reverse=True)`:
   * the highest score, the earliest of equal ones since the sort is stable.
   */
  function Best(s: Dict<string, nat>): (b: nat)
    requires s != []
    ensures b < |s|
    ensures forall j :: 0 <= j < |s| ==> s[j].1 <= s[b].1
    ensures forall j :: 0 <= j < b ==> s[j].1 < s[b].1
    decreases |s|
  {
    if |s| == 1 then 0
    else
      var b := Best(s[..|s| - 1]);
      if s[|s| - 1].1 > s[b].1 then |s| - 1 else b
  }

  /** Whether a JGI answer switches to UTX: UTX's pattern is usable and matches one of the IDs. */
  predicate PreferUtx(sources: Sources, ids: seq<string>, compiles: string -> bool, matches: (string, string) -> bool) {
    var utx := Get(sources, Utx);
    utx.Some? && Usable(utx.value, compiles) && MatchCount(utx.value.value, ids, matches) > 0
  }

  function Identify(geneIds: seq<string>, sources: Sources, compiles: string -> bool, matches: (string, string) -> bool)
    : (r: Option<Identification>)
    ensures CheckedIds(geneIds) == [] || sources == [] ==> r.None?
    ensures r.Some? ==> r.value.total == |CheckedIds(geneIds)| && 2 * r.value.matched > r.value.total
    ensures r.Some? && r.value.ambiguous ==> r.value.assembly == Utx
  {
    if geneIds == [] || sources == [] then None
    else
      var ids := CheckedIds(geneIds);
      if ids == [] then None
      else
        var scores := Scores(sources, ids, compiles, matches);
        if scores == [] then None
        else
          var (best, count) := scores[Best(scores)];
          var utx := best == Jgi && PreferUtx(sources, ids, compiles, matches);
          if 2 * count > |ids| then Some(Identification(if utx then Utx else best, utx, count, |ids|))
          else None
  }

  /** The scoring loop over the source map. */
  method ScoreSources(sources: Sources, ids: seq<string>, compiles: string -> bool, matches: (string, string) -> bool)
      returns (scores: Dict<string, nat>)
    ensures scores == Scores(sources, ids, compiles, matches)
  {
    scores := [];
    for i := 0 to |sources|
      invariant scores == Scores(sources[..i], ids, compiles, matches)
    {
      assert sources[..i + 1][..i] == sources[..i];
      var (id, pattern) := sources[i];
      if !Usable(pattern, compiles) {
        continue;
      }
      var count := 0;
      for k := 0 to |ids|
        invariant count == MatchCount(pattern.value, ids[..k], matches)
      {
        assert ids[..k + 1][..k] == ids[..k];
        if matches(pattern.value, ids[k]) {
          count := count + 1;
        }
      }
      assert ids[..|ids|] == ids;
      if count > 0 {
        scores := scores + [(id, count)];
      }
    }
    assert sources[..|sources|] == sources;
  }

  method IdentifyGenome(geneIds: seq<string>, sources: Sources, compiles: string -> bool, matches: (string, string) -> bool)
      returns (r: Option<Identification>)
    ensures r == Identify(geneIds, sources, compiles, matches)
  {
    if geneIds == [] || sources == [] {
      return None;
    }
    var ids := CheckedIds(geneIds);
    if ids == [] {
      return None;
    }
    var scores := ScoreSources(sources, ids, compiles, matches);
    if scores == [] {
      return None;
    }
    var (best, count) := scores[Best(scores)];
    var ambiguous := false;
    if best == Jgi && PreferUtx(sources, ids, compiles, matches) {
      best, ambiguous := Utx, true;
    }
    if 2 * count > |ids| {
      return Some(Identification(best, ambiguous, count, |ids|));
    }
    return None;
  }

  // ----- Properties -----

  /** An entry of the score table comes from a source whose usable pattern matches that many IDs. */
  lemma {:induction false} ScoresFrom(sources: Sources, ids: seq<string>, compiles: string -> bool,
                                      matches: (string, string) -> bool, k: nat)
    requires k < |Scores(sources, ids, compiles, matches)|
    ensures var e := Scores(sources, ids, compiles, matches)[k];
      exists i :: 0 <= i < |sources| && sources[i].0 == e.0 && Usable(sources[i].1, compiles)
        && e.1 == MatchCount(sources[i].1.value, ids, matches)
    decreases |sources|
  {
    var init := sources[..|sources| - 1];
    var s := Scores(sources, ids, compiles, matches);
    if k < |Scores(init, ids, compiles, matches)| {
      ScoresFrom(init, ids, compiles, matches, k);
      var i :| 0 <= i < |init| && init[i].0 == s[k].0 && Usable(init[i].1, compiles)
        && s[k].1 == MatchCount(init[i].1.value, ids, matches);
      assert init[i] == sources[i];
    }
  }

  /** Every source with a usable pattern that matches some ID is in the score table. */
  lemma {:induction false} ScoresComplete(sources: Sources, ids: seq<string>, compiles: string -> bool,
                                          matches: (string, string) -> bool, i: nat)
    requires i < |sources| && Usable(sources[i].1, compiles)
    requires MatchCount(sources[i].1.value, ids, matches) > 0
    ensures (sources[i].0, MatchCount(sources[i].1.value, ids, matches)) in Scores(sources, ids, compiles, matches)
    decreases |sources|
  {
    var init := sources[..|sources| - 1];
    if i < |init| {
      assert init[i] == sources[i];
      ScoresComplete(init, ids, compiles, matches, i);
    }
  }

  /** With no IDs or no sources, or with every ID filtered out, there is no answer. */
  lemma NothingToCheck(geneIds: seq<string>, sources: Sources, compiles: string -> bool, matches: (string, string) -> bool)
    requires geneIds == [] || sources == [] || forall k :: 0 <= k < |geneIds| ==> !Checked(geneIds[k])
    ensures Identify(geneIds, sources, compiles, matches) == None
  {
    if geneIds != [] && sources != [] {
      NoneChecked(geneIds);
    }
  }

  lemma {:induction false} NoneChecked(ids: seq<string>)
    requires forall k :: 0 <= k < |ids| ==> !Checked(ids[k])
    ensures CheckedIds(ids) == []
    decreases |ids|
  {
    if ids != [] {
      var init := ids[..|ids| - 1];
      assert forall k :: 0 <= k < |init| ==> init[k] == ids[k];
      NoneChecked(init);
    }
  }

  /**
   * An answer: more than half of the checked IDs match the pattern of the
   * best-scoring assembly, no assembly's pattern matches more, and the
   * answer is that assembly unless it is JGI and UTX's pattern also matches,
   * in which case it is UTX with the warning and JGI's score.
   */
  lemma Answer(geneIds: seq<string>, sources: Sources, compiles: string -> bool, matches: (string, string) -> bool)
    requires Identify(geneIds, sources, compiles, matches).Some?
    ensures var r := Identify(geneIds, sources, compiles, matches).value;
      var ids := CheckedIds(geneIds);
      r.total == |ids| && 2 * r.matched > r.total
      && (exists i :: 0 <= i < |sources| && Usable(sources[i].1, compiles)
            && r.matched == MatchCount(sources[i].1.value, ids, matches)
            && (r.ambiguous <==> sources[i].0 == Jgi && PreferUtx(sources, ids, compiles, matches))
            && r.assembly == (if r.ambiguous then Utx else sources[i].0))
      && (forall i :: 0 <= i < |sources| && Usable(sources[i].1, compiles) ==>
            MatchCount(sources[i].1.value, ids, matches) <= r.matched)
  {
    var r := Identify(geneIds, sources, compiles, matches).value;
    var ids := CheckedIds(geneIds);
    var scores := Scores(sources, ids, compiles, matches);
    var b := Best(scores);
    ScoresFrom(sources, ids, compiles, matches, b);
    forall i | 0 <= i < |sources| && Usable(sources[i].1, compiles)
      ensures MatchCount(sources[i].1.value, ids, matches) <= r.matched
    {
      if MatchCount(sources[i].1.value, ids, matches) > 0 {
        ScoresComplete(sources, ids, compiles, matches, i);
      }
    }
  }
}
