/**
 * The ID resolution and FASTA assembly of `get_sequences_for_gene_ids`
 * (cotton_toolkit/core/data_access.py). The sequence table of the
 * preprocessed database is a map from each stored gene or transcript ID to
 * its sequence; `_to_transcript_id` and `_to_gene_id` are parameters.
 */
module DataAccess {
  import opened Wrappers
  import opened PyText
  import opened SeqUtil

  /** `_to_transcript_id` and `_to_gene_id`, which are not part of this model. */
  datatype Normalisers = Normalisers(toTranscript: string -> string, toGene: string -> string)

  /** The sequence table: `Gene` to `Seq`. */
  type Table = map<string, string>

  /** The candidate DB IDs of one user ID, in order of preference, without repeats. */
  function Variants(n: Normalisers, u: string): seq<string> {
    Unique([n.toTranscript(u), n.toGene(u), u])
  }

  /** The variants are the transcript form, then the gene form, then the raw ID, each kept once. */
  lemma VariantsOrder(n: Normalisers, u: string)
    ensures var t, g := n.toTranscript(u), n.toGene(u);
      Variants(n, u) == [t] + (if g == t then [] else [g]) + (if u == t || u == g then [] else [u])
  {
    Unique3(n.toTranscript(u), n.toGene(u), u);
  }

  /** Every variant of every unique user ID, in order, with repeats (an enumeration of `all_potential_ids`). */
  function Potential(n: Normalisers, users: seq<string>): seq<string>
    decreases |users|
  {
    if users == [] then [] else Potential(n, users[..|users| - 1]) + Variants(n, users[|users| - 1])
  }

  lemma {:induction false} PotentialMembers(n: Normalisers, users: seq<string>, v: string)
    ensures v in Potential(n, users) <==> exists u :: u in users && v in Variants(n, u)
    decreases |users|
  {
    if users != [] {
      var init := users[..|users| - 1];
      PotentialMembers(n, init, v);
      assert users == init + [users[|users| - 1]];
    }
  }

  /** The answer of `SELECT Gene ... WHERE Gene IN (...)` for a list of IDs. */
  function Present(ids: seq<string>, table: Table): set<string> {
    set g | g in ids && g in table
  }

  /** The batched existence query: 500 IDs per `IN` list, results collected in one set. */
  method ExistingIds(potential: seq<string>, table: Table) returns (existing: set<string>)
    ensures existing == Present(potential, table)
  {
    existing := {};
    var i := 0;
    while i < |potential|
      invariant 0 <= i && (i < |potential| ==> i % 500 == 0)
      invariant existing == Present(potential[..if i < |potential| then i else |potential|], table)
      decreases |potential| - i
    {
      var end := if i + 500 <= |potential| then i + 500 else |potential|;
      var batch := potential[i..end];
      assert potential[..end] == potential[..i] + batch;
      existing := existing + Present(batch, table);
      i := i + 500;
      assert (if i < |potential| then i else |potential|) == end;
    }
    assert potential[..|potential|] == potential;
  }

  /** The first of `vs` that the query found. */
  function FirstIn(vs: seq<string>, existing: set<string>): (r: Option<string>)
    ensures r.Some? ==> r.value in vs && r.value in existing
    ensures r.None? <==> forall v :: v in vs ==> v !in existing
  {
    if vs == [] then None else if vs[0] in existing then Some(vs[0]) else FirstIn(vs[1..], existing)
  }

  /** `FirstIn` takes the earliest element found: nothing before it was found. */
  lemma {:induction false} FirstInEarliest(vs: seq<string>, existing: set<string>, k: nat)
    requires FirstIn(vs, existing).Some? && k < |vs| && vs[k] == FirstIn(vs, existing).value
    requires forall i, j :: 0 <= i < j < |vs| ==> vs[i] != vs[j]
    ensures forall i :: 0 <= i < k ==> vs[i] !in existing
  {
    if vs[0] !in existing {
      assert k > 0;
      FirstInEarliest(vs[1..], existing, k - 1);
      forall i | 1 <= i < k ensures vs[i] !in existing { assert vs[i] == vs[1..][i - 1]; }
    }
  }

  /** `resolved_map`: each user ID with a variant in the database, mapped to its first such variant. */
  function ResolvedMap(n: Normalisers, users: seq<string>, existing: set<string>): (m: map<string, string>)
    ensures forall u :: u in m <==> u in users && FirstIn(Variants(n, u), existing).Some?
    ensures forall u :: u in m ==> m[u] == FirstIn(Variants(n, u), existing).value
    decreases |users|
  {
    if users == [] then map[]
    else
      var init := users[..|users| - 1];
      var u := users[|users| - 1];
      assert users == init + [u];
      var m := ResolvedMap(n, init, existing);
      match FirstIn(Variants(n, u), existing)
      case Some(v) => m[u := v]
      case None => m
  }

  /** `not_found_genes`: the user IDs with no variant in the database, in order. */
  function NotFound(n: Normalisers, users: seq<string>, existing: set<string>): (r: seq<string>)
    ensures forall u :: u in r <==> u in users && FirstIn(Variants(n, u), existing).None?
    decreases |users|
  {
    if users == [] then []
    else
      var init := users[..|users| - 1];
      var u := users[|users| - 1];
      assert users == init + [u];
      NotFound(n, init, existing) + (if FirstIn(Variants(n, u), existing).None? then [u] else [])
  }

  /** The inner loop: the first variant the query found, leaving the loop with `break`. */
  method FirstVariant(variants: seq<string>, existing: set<string>) returns (r: Option<string>)
    ensures r == FirstIn(variants, existing)
  {
    r := None;
    for k := 0 to |variants|
      invariant FirstIn(variants[k..], existing) == FirstIn(variants, existing)
    {
      if variants[k] in existing {
        r := Some(variants[k]);
        break;
      }
      assert variants[k..][1..] == variants[k + 1..];
    }
  }

  /** The resolution loop over the unique user IDs. */
  method ResolveIds(n: Normalisers, users: seq<string>, existing: set<string>)
      returns (resolved: map<string, string>, notFound: seq<string>)
    ensures resolved == ResolvedMap(n, users, existing)
    ensures notFound == NotFound(n, users, existing)
  {
    resolved := map[];
    notFound := [];
    for i := 0 to |users|
      invariant resolved == ResolvedMap(n, users[..i], existing)
      invariant notFound == NotFound(n, users[..i], existing)
    {
      var u := users[i];
      assert users[..i + 1][..i] == users[..i];
      var found := FirstVariant(Variants(n, u), existing);
      if found.Some? {
        resolved := resolved[u := found.value];
      } else {
        notFound := notFound + [u];
      }
    }
    assert users[..|users|] == users;
  }

  /** `fasta_sequences.get(db_id)`, with a missing entry read as the falsy `""`. */
  function Lookup(fetched: Table, d: string): string {
    if d in fetched then fetched[d] else ""
  }

  /** `db_id` values the emission loop would write for each input, in input order, with repeats. */
  function Candidates(ids: seq<string>, resolved: map<string, string>, fetched: Table): seq<string>
    decreases |ids|
  {
    if ids == [] then []
    else
      var init := ids[..|ids| - 1];
      var u := ids[|ids| - 1];
      Candidates(init, resolved, fetched) + Written(u, resolved, fetched)
  }

  /** The DB ID written for input `u`, if its resolution is truthy and has a truthy sequence. */
  function Written(u: string, resolved: map<string, string>, fetched: Table): seq<string> {
    if u in resolved && resolved[u] != "" && Lookup(fetched, resolved[u]) != "" then [resolved[u]] else []
  }

  /** One FASTA record per DB ID. */
  function Records(dbs: seq<string>, fetched: Table): seq<string> {
    seq(|dbs|, i requires 0 <= i < |dbs| => ">" + dbs[i] + "\n" + Lookup(fetched, dbs[i]))
  }

  /** The result of `get_sequences_for_gene_ids`: the FASTA text and the IDs not found. */
  function Sequences(n: Normalisers, geneIds: seq<string>, table: Table): (r: (string, seq<string>))
  {
    if geneIds == [] then ("", [])
    else
      var users := Unique(geneIds);
      var existing := Present(Potential(n, users), table);
      var resolved := ResolvedMap(n, users, existing);
      var notFound := NotFound(n, users, existing);
      var toFetch := resolved.Values;
      if toFetch == {} then ("", notFound)
      else
        var fetched := map g | g in toFetch && g in table :: table[g];
        var dbs := Unique(Candidates(geneIds, resolved, fetched));
        (Join(Records(dbs, fetched), "\n"), notFound)
  }

  /** The emission loop: records in input order, each DB ID at most once, empty sequences skipped. */
  method EmitRecords(ids: seq<string>, resolved: map<string, string>, fetched: Table) returns (parts: seq<string>)
    ensures parts == Records(Unique(Candidates(ids, resolved, fetched)), fetched)
  {
    parts := [];
    var emitted: set<string> := {};
    for i := 0 to |ids|
      invariant parts == Records(Unique(Candidates(ids[..i], resolved, fetched)), fetched)
      invariant forall d :: d in emitted <==> d in Unique(Candidates(ids[..i], resolved, fetched))
    {
      var u := ids[i];
      ghost var before := Candidates(ids[..i], resolved, fetched);
      assert ids[..i + 1][..i] == ids[..i];
      assert Candidates(ids[..i + 1], resolved, fetched) == before + Written(u, resolved, fetched);
      var db := if u in resolved then resolved[u] else "";
      if db != "" && db !in emitted {
        var sequence := Lookup(fetched, db);
        if sequence != "" {
          EmitStep(before, db, fetched);
          parts := parts + [">" + db + "\n" + sequence];
          emitted := emitted + {db};
        } else {
          assert before + Written(u, resolved, fetched) == before;
        }
      } else if Written(u, resolved, fetched) != [] {
        UniqueSnoc(before, db);
      } else {
        assert before + Written(u, resolved, fetched) == before;
      }
    }
    assert ids[..|ids|] == ids;
  }

  lemma EmitStep(before: seq<string>, db: string, fetched: Table)
    requires db !in Unique(before)
    ensures Unique(before + [db]) == Unique(before) + [db]
    ensures Records(Unique(before + [db]), fetched) == Records(Unique(before), fetched) + [">" + db + "\n" + Lookup(fetched, db)]
  {
    UniqueSnoc(before, db);
    RecordsSnoc(Unique(before), db, fetched);
  }

  lemma RecordsSnoc(dbs: seq<string>, db: string, fetched: Table)
    ensures Records(dbs + [db], fetched) == Records(dbs, fetched) + [">" + db + "\n" + Lookup(fetched, db)]
  {
    var l, r := Records(dbs + [db], fetched), Records(dbs, fetched) + [">" + db + "\n" + Lookup(fetched, db)];
    assert |l| == |r|;
    forall i | 0 <= i < |l| ensures l[i] == r[i] {
      if i < |dbs| { assert (dbs + [db])[i] == dbs[i]; }
    }
  }

  /** The whole lookup, loop by loop, with `potential` the order in which the set of candidates is listed. */
  method GetSequences(n: Normalisers, geneIds: seq<string>, table: Table) returns (fasta: string, notFound: seq<string>)
    ensures (fasta, notFound) == Sequences(n, geneIds, table)
  {
    if geneIds == [] {
      return "", [];
    }
    var users := Unique(geneIds);
    var existing := ExistingIds(Potential(n, users), table);
    var resolved;
    resolved, notFound := ResolveIds(n, users, existing);
    var toFetch := resolved.Values;
    if toFetch == {} {
      return "", notFound;
    }
    var fetched := map g | g in toFetch && g in table :: table[g];
    var parts := EmitRecords(geneIds, resolved, fetched);
    fasta := Join(parts, "\n");
  }

  // ----- Properties -----

  /** An empty ID list returns an empty text and no missing IDs. */
  lemma EmptyInput(n: Normalisers, table: Table)
    ensures Sequences(n, [], table) == ("", [])
  {
  }

  /** The first variant of `u` that the table holds, if any. */
  function Preferred(n: Normalisers, u: string, table: Table): Option<string> {
    var t, g := n.toTranscript(u), n.toGene(u);
    if t in table then Some(t) else if g in table then Some(g) else if u in table then Some(u) else None
  }

  lemma PreferredIsFirst(n: Normalisers, users: seq<string>, u: string, table: Table)
    requires u in users
    ensures FirstIn(Variants(n, u), Present(Potential(n, users), table)) == Preferred(n, u, table)
  {
    var existing := Present(Potential(n, users), table);
    var t, g := n.toTranscript(u), n.toGene(u);
    VariantsOrder(n, u);
    assert t in Variants(n, u) && g in Variants(n, u) && u in Variants(n, u);
    PotentialMembers(n, users, t);
    PotentialMembers(n, users, g);
    PotentialMembers(n, users, u);
    FirstOfVariants(t, g, u, existing, table);
  }

  /** The first found of the three variants, when the query found exactly the stored ones among them. */
  lemma FirstOfVariants(t: string, g: string, u: string, existing: set<string>, table: Table)
    requires (t in existing <==> t in table) && (g in existing <==> g in table) && (u in existing <==> u in table)
    ensures FirstIn([t] + (if g == t then [] else [g]) + (if u == t || u == g then [] else [u]), existing)
      == if t in table then Some(t) else if g in table then Some(g) else if u in table then Some(u) else None
  {
    var vs := [t] + (if g == t then [] else [g]) + (if u == t || u == g then [] else [u]);
    assert vs[0] == t;
    assert forall v :: v in vs ==> v == t || v == g || v == u;
    if t !in table && g in table {
      assert g != t && vs[1..][0] == g;
    } else if t !in table && g !in table && u in table {
      assert u in vs;
    }
  }

  /**
   * Every unique input ID is either resolved, to its transcript form, else
   * its gene form, else itself, whichever the table holds first, or listed
   * as not found; never both.
   */
  lemma Resolution(n: Normalisers, geneIds: seq<string>, table: Table, u: string)
    requires u in geneIds
    ensures var users := Unique(geneIds);
      var existing := Present(Potential(n, users), table);
      var resolved := ResolvedMap(n, users, existing);
      var notFound := NotFound(n, users, existing);
      (u in resolved <==> Preferred(n, u, table).Some?)
      && (u in resolved ==> resolved[u] == Preferred(n, u, table).value)
      && (u in notFound <==> u !in resolved)
  {
    PreferredIsFirst(n, Unique(geneIds), u, table);
  }

  /** The missing IDs are distinct and are exactly the inputs with no variant in the table. */
  lemma NotFoundDistinct(n: Normalisers, geneIds: seq<string>, table: Table)
    ensures var nf := Sequences(n, geneIds, table).1;
      Distinct(nf) && forall u :: u in nf <==> u in geneIds && Preferred(n, u, table).None?
  {
    if geneIds != [] {
      var users := Unique(geneIds);
      var existing := Present(Potential(n, users), table);
      assert Sequences(n, geneIds, table).1 == NotFound(n, users, existing);
      forall u | u in geneIds ensures FirstIn(Variants(n, u), existing) == Preferred(n, u, table) {
        PreferredIsFirst(n, users, u, table);
      }
      NotFoundSub(n, users, existing);
    }
  }

  lemma {:induction false} NotFoundSub(n: Normalisers, users: seq<string>, existing: set<string>)
    requires Distinct(users)
    ensures Distinct(NotFound(n, users, existing))
    decreases |users|
  {
    if users != [] {
      var init := users[..|users| - 1];
      var u := users[|users| - 1];
      assert users == init + [u];
      assert Distinct(init) by {
        assert forall i :: 0 <= i < |init| ==> init[i] == users[i];
      }
      NotFoundSub(n, init, existing);
      var nf := NotFound(n, init, existing);
      assert u !in nf;
      if FirstIn(Variants(n, u), existing).None? {
        DistinctSnoc(nf, u);
      }
    }
  }

  /**
   * The written DB IDs are distinct, truthy, stored with a non-empty
   * sequence, and each is the resolution of some input ID; every input
   * whose resolution has a non-empty sequence is written.
   */
  lemma {:induction false} CandidatesMembers(ids: seq<string>, resolved: map<string, string>, fetched: Table, d: string)
    ensures d in Candidates(ids, resolved, fetched) <==>
      exists u :: u in ids && u in resolved && resolved[u] == d && d != "" && Lookup(fetched, d) != ""
    decreases |ids|
  {
    if ids != [] {
      var init := ids[..|ids| - 1];
      CandidatesMembers(init, resolved, fetched, d);
      assert ids == init + [ids[|ids| - 1]];
    }
  }

  /** The fetched sequences are the table's. */
  lemma FetchedIsTable(n: Normalisers, users: seq<string>, table: Table)
    ensures var resolved := ResolvedMap(n, users, Present(Potential(n, users), table));
      forall u :: u in resolved ==> resolved[u] in table
  {
  }

  /** The FASTA text: one `>db_id\nsequence` record per distinct written DB ID, in input order, joined by newlines. */
  lemma Emission(n: Normalisers, geneIds: seq<string>, table: Table)
    requires geneIds != []
    ensures var users := Unique(geneIds);
      var resolved := ResolvedMap(n, users, Present(Potential(n, users), table));
      var fetched := map g | g in resolved.Values && g in table :: table[g];
      var dbs := Unique(Candidates(geneIds, resolved, fetched));
      (forall i, j :: 0 <= i < j < |dbs| ==> dbs[i] != dbs[j])
      && (forall d :: d in dbs <==>
            exists u :: u in geneIds && u in resolved && resolved[u] == d && d != "" && d in table && table[d] != "")
      && (resolved.Values != {} ==>
            Sequences(n, geneIds, table).0 == Join(Records(dbs, fetched), "\n"))
  {
    var users := Unique(geneIds);
    var resolved := ResolvedMap(n, users, Present(Potential(n, users), table));
    var fetched := map g | g in resolved.Values && g in table :: table[g];
    forall d ensures d in Unique(Candidates(geneIds, resolved, fetched)) <==>
      exists u :: u in geneIds && u in resolved && resolved[u] == d && d != "" && d in table && table[d] != ""
    {
      CandidatesMembers(geneIds, resolved, fetched, d);
    }
  }

  /** Nothing resolved gives an empty text. */
  lemma NothingResolved(n: Normalisers, geneIds: seq<string>, table: Table)
    requires forall u :: u in geneIds ==> Preferred(n, u, table).None?
    ensures Sequences(n, geneIds, table) == ("", Unique(geneIds))
  {
    if geneIds != [] {
      var users := Unique(geneIds);
      var existing := Present(Potential(n, users), table);
      forall u | u in users ensures FirstIn(Variants(n, u), existing).None? {
        PreferredIsFirst(n, users, u, table);
      }
      NotFoundAll(n, users, existing);
    }
  }

  lemma {:induction false} NotFoundAll(n: Normalisers, users: seq<string>, existing: set<string>)
    requires forall u :: u in users ==> FirstIn(Variants(n, u), existing).None?
    ensures NotFound(n, users, existing) == users
    decreases |users|
  {
    if users != [] {
      var init, u := users[..|users| - 1], users[|users| - 1];
      assert users == init + [u];
      NotFoundAll(n, init, existing);
      assert FirstIn(Variants(n, u), existing).None?;
    }
  }
}
