/**
 * The self-test at the bottom of cotton_toolkit/core/homology_mapper.py:
 * three CottonA genes (and one unknown ID) mapped to CottonB through
 * Arabidopsis, keeping the best hit per query at each step. The data and
 * criteria are the test's; each lemma computes one stage of the mapping.
 */
module HomologySelfTest {
  import opened Wrappers
  import opened Numeric
  import opened SeqUtil
  import StrOrder
  import opened HomologyMapper

  const AllColumns := Columns(true, true, true, true)

  const G1 := "CottonA_G001"
  const G2 := "CottonA_G002"
  const G3 := "CottonA_G003"
  const NoHit := "CottonA_G004_NoHit"
  const At100 := "At_G100"
  const At102 := "At_G102"

  const S1 := Row(G1, At100, Num(1.0e-50), Num(500.0), Num(80.0))
  const S2 := Row(G1, "At_G101", Num(1.0e-45), Num(450.0), Num(75.0))
  const S3 := Row(G2, At100, Num(1.0e-60), Num(600.0), Num(85.0))
  const S4 := Row(G3, At102, Num(1.0e-30), Num(300.0), Num(70.0))
  const S5 := Row(G1, "At_G103_low_score", Num(1.0e-15), Num(80.0), Num(55.0))

  const B1 := Row(At100, "CottonB_g201", Num(1.0e-70), Num(700.0), Num(90.0))
  const B2 := Row(At100, "CottonB_g202", Num(1.0e-65), Num(650.0), Num(88.0))
  const B3 := Row("At_G101", "CottonB_g203", Num(1.0e-50), Num(500.0), Num(80.0))
  const B4 := Row(At102, "CottonB_g204", Num(1.0e-40), Num(400.0), Num(75.0))
  const B5 := Row("At_G103_low_score", "CottonB_g205_low_pid", Num(1.0e-25), Num(200.0), Num(30.0))

  const SourceToBridge := Table(AllColumns, [S1, S2, S3, S4, S5])
  const BridgeToTarget := Table(AllColumns, [B1, B2, B3, B4, B5])

  const CriteriaStoB := Criteria([Score, Exp], [false, true], Some(1), Some(1.0e-10), Some(60.0), Some(100.0))
  const CriteriaBtoT := Criteria([Score, Pid], [false, false], Some(1), Some(1.0e-20), Some(70.0), Some(150.0))

  const Inputs := IdList([G1, G2, G3, NoHit])

  const Keys1 := [SortKey(Score, false), SortKey(Exp, true)]
  const Keys2 := [SortKey(Score, false), SortKey(Pid, false)]

  const Avail: seq<string> := [G1, G2, G3]
  const DirectNotes := map[G1 := DirectNote, G2 := DirectNote, G3 := DirectNote]

  /** The expected result: three paths, to CottonB_g201 (twice) and CottonB_g204. */
  const Expected := [Path(S1, B1, DirectNote), Path(S3, B1, DirectNote), Path(S4, B4, DirectNote)]

  // ---------------------------------------------------------------------
  // Resolution: the three listed genes are found verbatim, the fourth not at all.

  lemma SourceQueries()
    ensures SourceRows(SourceToBridge.rows, None, None) == SourceToBridge.rows
    ensures Queries(SourceToBridge.rows) == [G1] + [G1] + [G2] + [G3] + [G1]
  {
    SliceNone(SourceToBridge.rows);
    var qs := [G1] + [G1] + [G2] + [G3] + [G1];
    assert qs == [G1, G1, G2, G3, G1];
    QueriesOf(SourceToBridge.rows, [G1, G1, G2, G3, G1]);
  }

  lemma QueriesOf(rows: seq<Row>, qs: seq<string>)
    requires |rows| == |qs| && forall k :: 0 <= k < |rows| ==> rows[k].query == qs[k]
    ensures Queries(rows) == qs
  {
  }

  lemma UniqueThree()
    ensures Unique([G1] + [G1] + [G2] + [G3]) == Avail
  {
    UniqueSnoc([G1], G1);
    UniqueSnoc([G1] + [G1], G2);
    UniqueSnoc([G1] + [G1] + [G2], G3);
  }

  lemma AvailableIds()
    ensures Available(SourceRows(SourceToBridge.rows, None, None)) == Avail
  {
    SourceQueries();
    UniqueThree();
    UniqueSnoc([G1] + [G1] + [G2] + [G3], G1);
  }

  lemma ResolveTwo()
    ensures Resolve([G1] + [G2], Avail) == Resolution([G1, G2], map[G1 := DirectNote, G2 := DirectNote], 0)
  {
    ResolveSnoc([], G1, Avail);
    ResolveSnoc([G1], G2, Avail);
  }

  lemma ResolveThree()
    ensures Resolve([G1] + [G2] + [G3], Avail) == Resolution(Avail, DirectNotes, 0)
  {
    ResolveTwo();
    ResolveSnoc([G1] + [G2], G3, Avail);
  }

  lemma ResolveFour()
    ensures Resolve([G1] + [G2] + [G3] + [NoHit], Avail) == Resolution(Avail, DirectNotes, 0)
  {
    ResolveThree();
    NoHitUnmatched();
    PrefixedNone(Avail, NoHit);
    ResolveSnoc([G1] + [G2] + [G3], NoHit, Avail);
    var r3 := Resolve([G1] + [G2] + [G3], Avail);
    assert ResolveOne(r3, NoHit, Avail) == r3;
  }

  /** The extra input is longer than every available ID, so it is neither one of them nor a prefix of one. */
  lemma NoHitUnmatched()
    ensures NoHit !in Avail
    ensures forall a :: a in Avail ==> !(NoHit <= a)
  {
    assert forall a :: a in Avail ==> |a| < |NoHit|;
  }

  lemma InputsDistinct()
    ensures Unique(InputIds(Inputs)) == [G1] + [G2] + [G3] + [NoHit]
  {
    UniqueDistinct(InputIds(Inputs));
  }

  /** No input is resolved by prefix, so the fuzzy count is 0. */
  lemma SelfTestResolve()
    ensures ResolveInput(Inputs, SourceToBridge.rows, None, None) == Resolution(Avail, DirectNotes, 0)
  {
    AvailableIds();
    ResolveFour();
    InputsDistinct();
  }

  // ---------------------------------------------------------------------
  // Step 1: the best Arabidopsis hit of each source gene.

  const Passed1 := [S1, S2, S3, S4]
  const Hop1Rows := [S1, S3, S4]

  lemma Hop1Table()
    ensures HopTable(AllColumns, SourceToBridge.rows, Avail) == SourceToBridge
  {
    KeepAll(SourceToBridge.rows, QueryIn(Avail));
  }

  lemma PidSplit1()
    ensures Keep(SourceToBridge.rows, PidAtLeast(60.0)) == Keep(Passed1, PidAtLeast(60.0)) + Keep([S5], PidAtLeast(60.0))
  {
    assert SourceToBridge.rows == Passed1 + [S5];
    KeepAppend(Passed1, [S5], PidAtLeast(60.0));
  }

  /** The PID threshold 60 drops the hit At_G103_low_score (PID 55). */
  lemma PidDrop1()
    ensures Keep(SourceToBridge.rows, PidAtLeast(60.0)) == Passed1
  {
    PidSplit1();
    KeepAll(Passed1, PidAtLeast(60.0));
  }

  lemma Hop1ExpScore()
    ensures Keep(SourceToBridge.rows, ExpAtMost(1.0e-10)) == SourceToBridge.rows
    ensures Keep(Passed1, ScoreAtLeast(100.0)) == Passed1
  {
    KeepAll(SourceToBridge.rows, ExpAtMost(1.0e-10));
    KeepAll(Passed1, ScoreAtLeast(100.0));
  }

  lemma Hop1Thresholds()
    ensures ApplyThresholds(SourceToBridge, CriteriaStoB) == Passed1
  {
    Hop1ExpScore();
    PidDrop1();
  }

  lemma Hop1Metrics()
    ensures UsableMetrics(CriteriaStoB.sortBy, AllColumns) == [Score, Exp]
  {
    assert CriteriaStoB.sortBy == [Score, Exp];
  }

  lemma Hop1Numeric()
    ensures Keep(Passed1, NumericIn([Score, Exp])) == Passed1
  {
    KeepAll(Passed1, NumericIn([Score, Exp]));
  }

  lemma Hop1Candidates()
    ensures Candidates(SourceToBridge, CriteriaStoB) == Passed1
  {
    Hop1Metrics();
    Hop1Thresholds();
    Hop1Numeric();
  }

  lemma Hop1Keys()
    ensures PairFlags(CriteriaStoB.sortBy, CriteriaStoB.ascending, AllColumns, 0) == Ok(Keys1)
  {
    var sortBy, ascending := [Score, Exp], [false, true];
    assert CriteriaStoB.sortBy == sortBy && CriteriaStoB.ascending == ascending;
    assert PairFlags(sortBy, ascending, AllColumns, 2) == Ok([]);
    assert [SortKey(Exp, true)] + [] == [SortKey(Exp, true)];
    assert PairFlags(sortBy, ascending, AllColumns, 1) == Ok([SortKey(Exp, true)]);
    assert [SortKey(Score, false)] + [SortKey(Exp, true)] == Keys1;
  }

  lemma LessG12()
    ensures StrOrder.Less(G1, G2)
  {
    StrOrder.LessAfterPrefix("CottonA_G00", "1", "2");
    assert G1 == "CottonA_G00" + "1" && G2 == "CottonA_G00" + "2";
  }

  lemma LessG23()
    ensures StrOrder.Less(G2, G3)
  {
    StrOrder.LessAfterPrefix("CottonA_G00", "2", "3");
    assert G2 == "CottonA_G00" + "2" && G3 == "CottonA_G00" + "3";
  }

  lemma LessG13()
    ensures StrOrder.Less(G1, G3)
  {
    LessG12();
    LessG23();
    StrOrder.Transitive(G1, G2, G3);
  }

  lemma AvailIncreasing()
    ensures StrOrder.Increasing(Avail)
  {
    LessG12();
    LessG23();
    LessG13();
    StrOrder.IncreasingThree(G1, G2, G3);
  }

  lemma Hop1Groups()
    ensures StrOrder.SortedSet(Queries(Passed1)) == Avail
  {
    AvailIncreasing();
    assert Queries(Passed1) == [G1, G1, G2, G3];
    StrOrder.IncreasingUnique(StrOrder.SortedSet(Queries(Passed1)), Avail);
  }

  lemma Group1Members()
    ensures Keep(Passed1, QueryIs(G1)) == [S1, S2]
  {
    assert Passed1 == [S1, S2] + [S3, S4];
    KeepAppend([S1, S2], [S3, S4], QueryIs(G1));
    KeepAll([S1, S2], QueryIs(G1));
    KeepNone([S3, S4], QueryIs(G1));
  }

  /** Of CottonA_G001's hits At_G100 (score 500) is kept and At_G101 (score 450) is not. */
  lemma Group1()
    ensures PickGroup(Passed1, G1, Keys1, Some(1)) == [S1]
  {
    Group1Members();
    assert SortRows([S1], Keys1) == [S1];
    assert [S1, S2][..1] == [S1];
    assert !Before(S2, S1, Keys1);
    assert InsertRow(S2, [S1], Keys1) == [S1, S2];
  }

  lemma Group2Members()
    ensures Keep(Passed1, QueryIs(G2)) == [S3]
  {
    assert Passed1 == [S1, S2] + [S3, S4];
    KeepAppend([S1, S2], [S3, S4], QueryIs(G2));
    KeepNone([S1, S2], QueryIs(G2));
    assert [S3, S4] == [S3] + [S4];
    KeepAppend([S3], [S4], QueryIs(G2));
    KeepAll([S3], QueryIs(G2));
    KeepNone([S4], QueryIs(G2));
  }

  lemma Group2()
    ensures PickGroup(Passed1, G2, Keys1, Some(1)) == [S3]
  {
    Group2Members();
    assert SortRows([S3], Keys1) == [S3];
  }

  lemma Group3Members()
    ensures Keep(Passed1, QueryIs(G3)) == [S4]
  {
    assert Passed1 == [S1, S2, S3] + [S4];
    KeepAppend([S1, S2, S3], [S4], QueryIs(G3));
    KeepNone([S1, S2, S3], QueryIs(G3));
  }

  lemma Group3()
    ensures PickGroup(Passed1, G3, Keys1, Some(1)) == [S4]
  {
    Group3Members();
    assert SortRows([S4], Keys1) == [S4];
  }

  lemma Hop1Select()
    ensures SelectGroups(Passed1, Avail, Keys1, Some(1)) == Hop1Rows
  {
    SelectThree(Passed1, Avail, Keys1, Some(1));
    Group1();
    Group2();
    Group3();
  }

  /** Grouping over two query IDs is the first ID's group, then the second's. */
  lemma SelectTwo(rows: seq<Row>, qs: seq<string>, keys: seq<SortKey>, topN: Option<int>)
    requires |qs| == 2
    ensures SelectGroups(rows, qs, keys, topN) == PickGroup(rows, qs[0], keys, topN) + PickGroup(rows, qs[1], keys, topN)
  {
    SelectGroupsSnoc(rows, qs, 0, keys, topN);
    SelectGroupsSnoc(rows, qs, 1, keys, topN);
    assert qs[..0] == [] && qs[..2] == qs;
  }

  /** Grouping over three query IDs is their groups in order. */
  lemma SelectThree(rows: seq<Row>, qs: seq<string>, keys: seq<SortKey>, topN: Option<int>)
    requires |qs| == 3
    ensures SelectGroups(rows, qs, keys, topN)
      == PickGroup(rows, qs[0], keys, topN) + PickGroup(rows, qs[1], keys, topN) + PickGroup(rows, qs[2], keys, topN)
  {
    SelectTwo(rows, qs[..2], keys, topN);
    SelectGroupsSnoc(rows, qs, 2, keys, topN);
    assert qs[..2][0] == qs[0] && qs[..2][1] == qs[1] && qs[..3] == qs;
  }

  /** Step 1 keeps At_G100 for CottonA_G001 and CottonA_G002, At_G102 for CottonA_G003. */
  lemma SelfTestHop1()
    ensures Hop1(Inputs, SourceToBridge, CriteriaStoB, None, None) == Ok(Hop1Rows)
  {
    SelfTestResolve();
    SourceQueries();
    Hop1Table();
    Hop1Metrics();
    Hop1Thresholds();
    Hop1Candidates();
    Hop1Keys();
    Hop1Rank();
  }

  lemma Hop1Rank()
    ensures Rank(Passed1, true, Keys1, Some(1)) == Hop1Rows
  {
    Hop1Groups();
    Hop1Select();
  }

  // ---------------------------------------------------------------------
  // Step 2: the best CottonB hit of each bridge gene step 1 kept.

  const Bridges: seq<string> := [At100, At102]
  const Passed2 := [B1, B2, B4]
  const Hop2Rows := [B1, B4]

  lemma BridgeIds()
    ensures Unique(Hits(Hop1Rows)) == Bridges
  {
    assert Hits(Hop1Rows) == [At100] + [At100] + [At102];
    UniqueSnoc([At100], At100);
    UniqueSnoc([At100] + [At100], At102);
  }

  lemma Hop2Split()
    ensures BridgeToTarget.rows == [B1, B2] + [B3, B4] + [B5]
  {
  }

  lemma Hop2Parts()
    ensures Keep([B1, B2], QueryIn(Bridges)) == [B1, B2]
    ensures Keep([B3, B4], QueryIn(Bridges)) == [B4]
    ensures Keep([B5], QueryIn(Bridges)) == []
  {
    KeepAll([B1, B2], QueryIn(Bridges));
    KeepAll([B4], QueryIn(Bridges));
    KeepCons([B3, B4], QueryIn(Bridges));
    assert [B3, B4][1..] == [B4];
  }

  lemma Hop2Members()
    ensures Keep(BridgeToTarget.rows, QueryIn(Bridges)) == Passed2
  {
    Hop2Split();
    KeepAppend([B1, B2] + [B3, B4], [B5], QueryIn(Bridges));
    KeepAppend([B1, B2], [B3, B4], QueryIn(Bridges));
    Hop2Parts();
  }

  lemma Hop2Table()
    ensures HopTable(AllColumns, SliceQueries(BridgeToTarget.rows, None), Unique(Hits(Hop1Rows))) == Table(AllColumns, Passed2)
  {
    SliceNone(BridgeToTarget.rows);
    BridgeIds();
    Hop2Members();
  }

  lemma Hop2Thresholds()
    ensures ApplyThresholds(Table(AllColumns, Passed2), CriteriaBtoT) == Passed2
  {
    KeepAll(Passed2, ExpAtMost(1.0e-20));
    KeepAll(Passed2, PidAtLeast(70.0));
    KeepAll(Passed2, ScoreAtLeast(150.0));
  }

  lemma Hop2Metrics()
    ensures UsableMetrics(CriteriaBtoT.sortBy, AllColumns) == [Score, Pid]
  {
    assert CriteriaBtoT.sortBy == [Score, Pid];
  }

  lemma Hop2Numeric()
    ensures Keep(Passed2, NumericIn([Score, Pid])) == Passed2
  {
    KeepAll(Passed2, NumericIn([Score, Pid]));
  }

  lemma Hop2Candidates()
    ensures Candidates(Table(AllColumns, Passed2), CriteriaBtoT) == Passed2
  {
    Hop2Metrics();
    Hop2Thresholds();
    Hop2Numeric();
  }

  lemma Hop2Keys()
    ensures PairFlags(CriteriaBtoT.sortBy, CriteriaBtoT.ascending, AllColumns, 0) == Ok(Keys2)
  {
    var sortBy, ascending := [Score, Pid], [false, false];
    assert CriteriaBtoT.sortBy == sortBy && CriteriaBtoT.ascending == ascending;
    assert PairFlags(sortBy, ascending, AllColumns, 2) == Ok([]);
    assert [SortKey(Pid, false)] + [] == [SortKey(Pid, false)];
    assert PairFlags(sortBy, ascending, AllColumns, 1) == Ok([SortKey(Pid, false)]);
    assert [SortKey(Score, false)] + [SortKey(Pid, false)] == Keys2;
  }

  lemma BridgesIncreasing()
    ensures StrOrder.Increasing(Bridges)
  {
    StrOrder.LessAfterPrefix("At_G10", "0", "2");
    assert At100 == "At_G10" + "0" && At102 == "At_G10" + "2";
  }

  lemma Hop2Groups()
    ensures StrOrder.SortedSet(Queries(Passed2)) == Bridges
  {
    BridgesIncreasing();
    assert Queries(Passed2) == [At100, At100, At102];
    StrOrder.IncreasingUnique(StrOrder.SortedSet(Queries(Passed2)), Bridges);
  }

  lemma Bridge1Members()
    ensures Keep(Passed2, QueryIs(At100)) == [B1, B2]
  {
    assert Passed2 == [B1, B2] + [B4];
    KeepAppend([B1, B2], [B4], QueryIs(At100));
    KeepAll([B1, B2], QueryIs(At100));
  }

  /** Of At_G100's hits CottonB_g201 (score 700) is kept and CottonB_g202 (score 650) is not. */
  lemma Bridge1()
    ensures PickGroup(Passed2, At100, Keys2, Some(1)) == [B1]
  {
    Bridge1Members();
    assert SortRows([B1], Keys2) == [B1];
    assert [B1, B2][..1] == [B1];
    assert !Before(B2, B1, Keys2);
    assert InsertRow(B2, [B1], Keys2) == [B1, B2];
  }

  lemma Bridge2Members()
    ensures Keep(Passed2, QueryIs(At102)) == [B4]
  {
    assert Passed2 == [B1, B2] + [B4];
    KeepAppend([B1, B2], [B4], QueryIs(At102));
    KeepNone([B1, B2], QueryIs(At102));
  }

  lemma Bridge2()
    ensures PickGroup(Passed2, At102, Keys2, Some(1)) == [B4]
  {
    Bridge2Members();
    assert SortRows([B4], Keys2) == [B4];
  }

  lemma Hop2Select()
    ensures SelectGroups(Passed2, Bridges, Keys2, Some(1)) == Hop2Rows
  {
    SelectTwo(Passed2, Bridges, Keys2, Some(1));
    Bridge1();
    Bridge2();
  }

  /** Step 2 keeps CottonB_g201 for At_G100 and CottonB_g204 for At_G102. */
  lemma SelfTestHop2()
    ensures Hop2(Hop1Rows, BridgeToTarget, CriteriaBtoT, None) == Ok(Hop2Rows)
  {
    Hop2Table();
    Hop2Best();
  }

  lemma Hop2Rank()
    ensures Rank(Passed2, true, Keys2, Some(1)) == Hop2Rows
  {
    Hop2Groups();
    Hop2Select();
  }

  lemma Hop2Best()
    ensures SelectBest(Table(AllColumns, Passed2), CriteriaBtoT) == Ok(Hop2Rows)
  {
    Hop2Metrics();
    Hop2Thresholds();
    Hop2Candidates();
    Hop2Keys();
    Hop2Rank();
  }

  // ---------------------------------------------------------------------
  // The merge.

  lemma JoinLast()
    ensures JoinRow(S4, Hop2Rows, DirectNote) == [Path(S4, B4, DirectNote)]
  {
    assert Hop2Rows[1..] == [B4] && [B4][1..] == [];
    assert JoinRow(S4, [], DirectNote) == [];
    assert JoinRow(S4, [B4], DirectNote) == [Path(S4, B4, DirectNote)];
  }

  lemma JoinFirst(a: Row)
    requires a.hit == At100
    ensures JoinRow(a, Hop2Rows, DirectNote) == [Path(a, B1, DirectNote)]
  {
    assert Hop2Rows[1..] == [B4] && [B4][1..] == [];
    assert JoinRow(a, [], DirectNote) == [];
    assert JoinRow(a, [B4], DirectNote) == [];
  }

  lemma SelfTestJoin()
    ensures Join(Hop1Rows, Hop2Rows, DirectNotes) == Expected
  {
    JoinLast();
    JoinFirst(S1);
    JoinFirst(S3);
    assert NoteOf(DirectNotes, G1) == DirectNote && NoteOf(DirectNotes, G2) == DirectNote && NoteOf(DirectNotes, G3) == DirectNote;
    JoinThree(S1, S3, S4, Hop2Rows, DirectNotes);
  }

  /** Joining three hop-1 rows is the join of each in turn. */
  lemma JoinThree(a: Row, b: Row, c: Row, hop2: seq<Row>, notes: map<string, string>)
    ensures Join([a, b, c], hop2, notes) == JoinRow(a, hop2, NoteOf(notes, a.query))
      + JoinRow(b, hop2, NoteOf(notes, b.query)) + JoinRow(c, hop2, NoteOf(notes, c.query))
  {
    assert [a, b, c][1..] == [b, c] && [b, c][1..] == [c] && [c][1..] == [];
    var x, y, z := JoinRow(a, hop2, NoteOf(notes, a.query)), JoinRow(b, hop2, NoteOf(notes, b.query)), JoinRow(c, hop2, NoteOf(notes, c.query));
    assert Join([c], hop2, notes) == z;
    assert x + (y + z) == x + y + z;
  }

  lemma ExpectedDistinct()
    ensures Unique(Expected) == Expected
  {
    UniqueDistinct(Expected);
  }

  /**
   * The self-test's expectation: exactly three paths, CottonA_G001 and
   * CottonA_G002 through At_G100 to CottonB_g201, CottonA_G003 through
   * At_G102 to CottonB_g204, all found verbatim, with no fuzzy match.
   */
  lemma SelfTest()
    ensures MapViaBridge(Inputs, SourceToBridge, BridgeToTarget, CriteriaStoB, CriteriaBtoT, None, None)
            == Ok(Mapping(Expected, 0))
  {
    SelfTestResolve();
    SelfTestHop1();
    SelfTestHop2();
    SelfTestJoin();
    ExpectedDistinct();
  }

  // ---------------------------------------------------------------------
  // The self-test's own check of the result.

  datatype SelfTestOutcome = Confirmed | ExpectationFailed | NothingFound | NoEmptyAttribute

  /**
   * The check as the self-test writes it. It binds the whole returned
   * `(frame, count)` pair to `mapped_results_df` and asks for `.empty`,
   * which a tuple does not have, so the check raises before any expectation.
   */
  function CheckAsWritten(result: Mapping): (o: SelfTestOutcome)
    ensures o != Confirmed && o != NothingFound
  {
    NoEmptyAttribute
  }

  /** As written, the self-test never confirms its expectation, whatever the mapping returns. */
  lemma SelfTestNeverConfirms()
    ensures MapViaBridge(Inputs, SourceToBridge, BridgeToTarget, CriteriaStoB, CriteriaBtoT, None, None).Ok?
    ensures CheckAsWritten(MapViaBridge(Inputs, SourceToBridge, BridgeToTarget, CriteriaStoB, CriteriaBtoT, None, None).value)
            == NoEmptyAttribute
  {
    SelfTest();
  }

  /** Some path ends at target gene `t`. */
  predicate HasTarget(ps: seq<Path>, t: string) {
    exists k :: 0 <= k < |ps| && ps[k].second.hit == t
  }

  /**
   * The check as intended, on the unpacked frame: nothing found, or three
   * rows whose targets include CottonB_g201 and CottonB_g204.
   */
  function CheckIntended(m: Mapping): (o: SelfTestOutcome)
    ensures o == Confirmed <==> |m.paths| == 3 && HasTarget(m.paths, "CottonB_g201") && HasTarget(m.paths, "CottonB_g204")
    ensures o == NothingFound <==> m.paths == []
  {
    if m.paths == [] then NothingFound
    else if |m.paths| == 3 && HasTarget(m.paths, "CottonB_g201") && HasTarget(m.paths, "CottonB_g204") then Confirmed
    else ExpectationFailed
  }

  /** With the frame unpacked, the self-test data confirm the expectation. */
  lemma SelfTestConfirms()
    ensures MapViaBridge(Inputs, SourceToBridge, BridgeToTarget, CriteriaStoB, CriteriaBtoT, None, None).Ok?
    ensures CheckIntended(MapViaBridge(Inputs, SourceToBridge, BridgeToTarget, CriteriaStoB, CriteriaBtoT, None, None).value)
            == Confirmed
  {
    SelfTest();
    assert Expected[0].second.hit == "CottonB_g201";
    assert Expected[2].second.hit == "CottonB_g204";
  }
}
