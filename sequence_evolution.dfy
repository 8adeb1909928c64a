/**
 * The record handling around the external aligners in
 * cotton_toolkit/external_functions/sequence_evolution.py: the alignment
 * length check, short unique IDs with their map back to the original IDs,
 * the PHYLIP text and the ID map file. Reading and writing files is left
 * to the callers; records are values.
 */
module SequenceEvolution {
  import opened Wrappers
  import opened PyText
  import opened PyDict

  /** A FASTA record: its ID, its sequence and its description. */
  datatype SeqRecord = SeqRecord(id: string, sequence: string, description: string)

  /** The `ValueError` of the length check: the offending record, its length and the expected one. */
  datatype Mismatch = Mismatch(id: string, length: nat, expected: nat)

  /** Whether every record has the length of the first. */
  predicate SameLengths(records: seq<SeqRecord>) {
    forall i :: 0 <= i < |records| ==> |records[i].sequence| == |records[0].sequence|
  }

  /** The first record after the first whose length differs from it. */
  function FirstMismatch(records: seq<SeqRecord>, from: nat): (r: Option<nat>)
    requires records != [] && 1 <= from <= |records|
    ensures r.Some? ==>
      (from <= r.value < |records|
       && |records[r.value].sequence| != |records[0].sequence|
       && forall i :: from <= i < r.value ==> |records[i].sequence| == |records[0].sequence|)
    ensures r.None? ==> forall i :: from <= i < |records| ==> |records[i].sequence| == |records[0].sequence|
    decreases |records| - from
  {
    if from == |records| then None
    else if |records[from].sequence| != |records[0].sequence| then Some(from)
    else FirstMismatch(records, from + 1)
  }

  /** `_validate_alignment_consistency`, returning the error it would raise. */
  method ValidateAlignment(records: seq<SeqRecord>) returns (r: Result<(), Mismatch>)
    ensures r.Ok? <==> SameLengths(records)
    ensures r.Err? ==> records != [] && FirstMismatch(records, 1).Some?
    ensures r.Err? && records != [] && FirstMismatch(records, 1).Some? ==>
      var i := FirstMismatch(records, 1).value;
      r.error == Mismatch(records[i].id, |records[i].sequence|, |records[0].sequence|)
  {
    if records == [] {
      return Ok(());
    }
    var firstLen := |records[0].sequence|;
    for i := 1 to |records|
      invariant FirstMismatch(records, i) == FirstMismatch(records, 1)
    {
      if |records[i].sequence| != firstLen {
        return Err(Mismatch(records[i].id, |records[i].sequence|, firstLen));
      }
    }
    return Ok(());
  }

  // ----- Short IDs -----

  /** `f"{original_id[:6]}_{i + 1:03}"` */
  function ShortId(original: string, i: nat): string {
    var prefix := if |original| <= 6 then original else original[..6];
    prefix + "_" + ZeroPad(i + 1, 3)
  }

  /** Up to 999 records, a short ID has at most 10 characters. */
  lemma ShortIdLength(original: string, i: nat)
    requires i < 999
    ensures |ShortId(original, i)| <= 10
  {
    NatToStringShort(i + 1);
  }

  /** A short ID keeps the first six characters of the original. */
  lemma ShortIdPrefix(original: string, i: nat)
    ensures var s := ShortId(original, i);
      if |original| <= 6 then original <= s else original[..6] <= s
  {
  }

  /** Two records at different positions never share a short ID, whatever their original IDs. */
  lemma ShortIdDistinct(a: string, i: nat, b: string, j: nat)
    requires i != j
    ensures ShortId(a, i) != ShortId(b, j)
  {
    var za, zb := ZeroPad(i + 1, 3), ZeroPad(j + 1, 3);
    var pa := if |a| <= 6 then a else a[..6];
    var pb := if |b| <= 6 then b else b[..6];
    var s, t := pa + "_" + za, pb + "_" + zb;
    if |za| < |zb| {
      var k := |s| - |za| - 1;
      assert s[k] == '_';
      assert t[|t| - |za| - 1] == zb[|zb| - |za| - 1];
      assert IsDigit(t[|t| - |za| - 1]);
      assert s[k] != t[|t| - |za| - 1];
    } else if |zb| < |za| {
      var k := |t| - |zb| - 1;
      assert t[k] == '_';
      assert s[|s| - |zb| - 1] == za[|za| - |zb| - 1];
      assert IsDigit(s[|s| - |zb| - 1]);
      assert t[k] != s[|s| - |zb| - 1];
    } else if s == t {
      assert za == s[|s| - |za|..];
      assert zb == t[|t| - |zb|..];
      ZeroPadInjective(i + 1, j + 1, 3);
    }
  }

  /** The `id_map` as built in record order: each short ID with the original ID. */
  function IdPairs(records: seq<SeqRecord>): (d: Dict<string, string>)
    ensures |d| == |records|
    ensures forall i :: 0 <= i < |records| ==> d[i] == (ShortId(records[i].id, i), records[i].id)
  {
    seq(|records|, i requires 0 <= i < |records| => (ShortId(records[i].id, i), records[i].id))
  }

  /** The re-labelled records: same order and sequences, short IDs, empty descriptions. */
  function ShortRecords(records: seq<SeqRecord>): (r: seq<SeqRecord>)
    ensures |r| == |records|
    ensures forall i :: 0 <= i < |records| ==> r[i] == SeqRecord(ShortId(records[i].id, i), records[i].sequence, "")
  {
    seq(|records|, i requires 0 <= i < |records| => SeqRecord(ShortId(records[i].id, i), records[i].sequence, ""))
  }

  /** The map has one entry per record, and its keys are distinct. */
  lemma IdPairsUnique(records: seq<SeqRecord>)
    ensures UniqueKeys(IdPairs(records))
  {
    var d := IdPairs(records);
    forall i, j | 0 <= i < j < |d| ensures d[i].0 != d[j].0 {
      ShortIdDistinct(records[i].id, i, records[j].id, j);
    }
  }

  /** `create_short_id_fasta_and_map` after reading: validation first, then the loop over the records. */
  method CreateShortIds(records: seq<SeqRecord>) returns (r: Result<(seq<SeqRecord>, Dict<string, string>), Mismatch>)
    ensures r.Err? <==> !SameLengths(records)
    ensures r.Ok? ==> r.value == (ShortRecords(records), IdPairs(records))
  {
    var check := ValidateAlignment(records);
    if check.Err? {
      return Err(check.error);
    }
    var idMap: Dict<string, string> := [];
    var newRecords: seq<SeqRecord> := [];
    for i := 0 to |records|
      invariant idMap == IdPairs(records[..i])
      invariant newRecords == ShortRecords(records[..i])
    {
      var original := records[i].id;
      var newId := ShortId(original, i);
      newRecords := newRecords + [SeqRecord(newId, records[i].sequence, "")];
      FreshShortId(records, i);
      idMap := Put(idMap, newId, original);
      ShortStep(records, i);
    }
    assert records[..|records|] == records;
    return Ok((newRecords, idMap));
  }

  /** One more record extends both the map and the re-labelled records by its own entry. */
  lemma ShortStep(records: seq<SeqRecord>, i: nat)
    requires i < |records|
    ensures IdPairs(records[..i + 1]) == IdPairs(records[..i]) + [(ShortId(records[i].id, i), records[i].id)]
    ensures ShortRecords(records[..i + 1]) == ShortRecords(records[..i]) + [SeqRecord(ShortId(records[i].id, i), records[i].sequence, "")]
  {
    var a, b := records[..i + 1], records[..i];
    assert forall k :: 0 <= k < i ==> a[k] == b[k];
    assert a[i] == records[i];
  }

  lemma FreshShortId(records: seq<SeqRecord>, i: nat)
    requires i < |records|
    ensures !HasKey(IdPairs(records[..i]), ShortId(records[i].id, i))
  {
    var d := IdPairs(records[..i]);
    forall k | 0 <= k < |d| ensures d[k].0 != ShortId(records[i].id, i) {
      ShortIdDistinct(records[k].id, k, records[i].id, i);
    }
  }

  /** Every short ID maps back to the original ID of its record. */
  lemma IdMapBack(records: seq<SeqRecord>, i: nat)
    requires i < |records|
    ensures Get(IdPairs(records), ShortId(records[i].id, i)) == Some(records[i].id)
  {
    IdPairsUnique(records);
    GetAt(IdPairs(records), i);
  }

  // ----- PHYLIP and the map file -----

  /** `f"{s:<width}"`: left-justified, padded with spaces, never cut. */
  function LJust(s: string, width: nat): (r: string)
    ensures |r| == if |s| < width then width else |s|
    ensures r[..|s|] == s
    ensures forall k :: |s| <= k < |r| ==> r[k] == ' '
  {
    if |s| < width then s + seq(width - |s|, _ => ' ') else s
  }

  /** One PHYLIP record line. */
  function PhylipLine(r: SeqRecord): string {
    LJust(r.id, 10) + "  " + r.sequence + "\n"
  }

  function PhylipLines(records: seq<SeqRecord>): string
    decreases |records|
  {
    if records == [] then "" else PhylipLines(records[..|records| - 1]) + PhylipLine(records[|records| - 1])
  }

  /** `get_alignment_length` of an alignment whose records all have one length. */
  function AlignmentLength(records: seq<SeqRecord>): nat {
    if records == [] then 0 else |records[0].sequence|
  }

  /** The count line ` n length`. */
  function PhylipHead(records: seq<SeqRecord>): string {
    " " + NatToString(|records|) + " " + NatToString(AlignmentLength(records)) + "\n"
  }

  /** The PHYLIP text: the count line, then one line per record. */
  function PhylipText(records: seq<SeqRecord>): (t: string)
    ensures |t| > 0 && t[0] == ' ' && t[|t| - 1] == '\n'
  {
    var head := PhylipHead(records);
    assert head[0] == ' ' && head[|head| - 1] == '\n';
    if records == [] then
      assert head + PhylipLines(records) == head;
      head
    else
      var t := head + PhylipLines(records);
      assert t[|t| - 1] == PhylipLine(records[|records| - 1])[|PhylipLine(records[|records| - 1])| - 1];
      t
  }

  /**
   * The PHYLIP writer of `convert_fasta_to_phylip`. The records must have
   * one length; building the alignment from records of different lengths
   * raises, which is the `Err` case.
   */
  method WritePhylip(records: seq<SeqRecord>) returns (r: Result<string, ()>)
    ensures r.Ok? <==> SameLengths(records)
    ensures r.Ok? ==> r.value == PhylipText(records)
  {
    if !(forall i :: 0 <= i < |records| ==> |records[i].sequence| == |records[0].sequence|) {
      return Err(());
    }
    var head := PhylipHead(records);
    var text := head;
    for k := 0 to |records|
      invariant text == head + PhylipLines(records[..k])
    {
      assert records[..k + 1][..k] == records[..k];
      text := text + PhylipLine(records[k]);
    }
    assert records[..|records|] == records;
    assert text == head + PhylipLines(records);
    if records == [] {
      assert text == head;
    }
    return Ok(text);
  }

  /**
   * A PHYLIP line of an ID of at most ten characters: the ID and its
   * padding fill columns 0-9, two spaces follow, and the sequence starts at
   * column 12 and runs to the newline.
   */
  lemma PhylipLineLayout(r: SeqRecord)
    requires |r.id| <= 10
    ensures var line := PhylipLine(r);
      |line| == 13 + |r.sequence|
      && line[..|r.id|] == r.id
      && (forall k :: |r.id| <= k < 12 ==> line[k] == ' ')
      && line[12..|line| - 1] == r.sequence
      && line[|line| - 1] == '\n'
  {
    var line := PhylipLine(r);
    var pad := LJust(r.id, 10);
    assert line == pad + "  " + r.sequence + "\n";
    assert line[..10] == pad;
  }

  /** The header line of the map file. */
  const MapHeader := "New_ID\tOriginal_ID"

  function MapLines(m: Dict<string, string>): seq<string> {
    seq(|m|, i requires 0 <= i < |m| => m[i].0 + "\t" + m[i].1)
  }

  /** The ID map file: the header, then one tab-separated line per entry, each line ending in a newline. */
  function MapFileText(m: Dict<string, string>): (t: string)
    ensures |t| > |MapHeader| && t[..|MapHeader|] == MapHeader && t[|t| - 1] == '\n'
  {
    var ls := [MapHeader] + MapLines(m);
    assert Join(ls, "\n")[..|MapHeader|] == MapHeader by {
      if |ls| > 1 { assert Join(ls, "\n") == MapHeader + ("\n" + Join(ls[1..], "\n")); }
    }
    Join(ls, "\n") + "\n"
  }

  method WriteMapFile(m: Dict<string, string>) returns (text: string)
    ensures text == MapFileText(m)
  {
    text := MapHeader + "\n";
    for k := 0 to |m|
      invariant text == Join([MapHeader] + MapLines(m[..k]), "\n") + "\n"
    {
      JoinSnoc([MapHeader] + MapLines(m[..k]), m[k].0 + "\t" + m[k].1, "\n");
      assert [MapHeader] + MapLines(m[..k + 1]) == [MapHeader] + MapLines(m[..k]) + [m[k].0 + "\t" + m[k].1];
      text := text + (m[k].0 + "\t" + m[k].1 + "\n");
    }
    assert m[..|m|] == m;
  }

  lemma {:induction false} JoinSnoc(parts: seq<string>, x: string, sep: string)
    requires parts != []
    ensures Join(parts + [x], sep) == Join(parts, sep) + sep + x
  {
    if |parts| > 1 {
      assert (parts + [x])[1..] == parts[1..] + [x];
      JoinSnoc(parts[1..], x, sep);
    }
  }

  /**
   * Reading the map file back: its lines are the header and one line per
   * entry, and each entry line splits on the tab into the short and the
   * original ID, when neither holds a tab or a newline.
   */
  lemma MapFileReadBack(m: Dict<string, string>)
    requires forall i :: 0 <= i < |m| ==> '\t' !in m[i].0 && '\t' !in m[i].1 && '\n' !in m[i].0 && '\n' !in m[i].1
    ensures var lines := Split(MapFileText(m), '\n');
      lines == [MapHeader] + MapLines(m) + [""]
      && forall i :: 0 <= i < |m| ==> Split(lines[i + 1], '\t') == [m[i].0, m[i].1]
  {
    var ls := [MapHeader] + MapLines(m);
    LinesOfText(ls);
    forall i | 0 <= i < |m| ensures Split(MapLines(m)[i], '\t') == [m[i].0, m[i].1] {
      SplitPair(m[i].0, m[i].1);
    }
  }

  /** Text written as newline-terminated lines splits back into those lines and a last empty piece. */
  lemma LinesOfText(ls: seq<string>)
    requires ls != [] && forall k :: 0 <= k < |ls| ==> '\n' !in ls[k]
    ensures Split(Join(ls, "\n") + "\n", '\n') == ls + [""]
  {
    JoinSnoc(ls, "", "\n");
    assert Join(ls, "\n") + "\n" == Join(ls, "\n") + "\n" + "";
    SplitJoin(ls + [""], '\n');
  }

  /** A tab-separated pair splits back into its two parts. */
  lemma SplitPair(a: string, b: string)
    requires '\t' !in a && '\t' !in b
    ensures Split(a + "\t" + b, '\t') == [a, b]
  {
    SplitJoin([a, b], '\t');
    assert Join([a, b], "\t") == a + "\t" + b;
  }

  /** `convert_fasta_to_phylip`: the PHYLIP text and the text of the map file. */
  method ConvertToPhylip(records: seq<SeqRecord>, idMap: Dict<string, string>)
      returns (r: Result<(string, string), ()>)
    ensures r.Ok? <==> SameLengths(records)
    ensures r.Ok? ==> r.value == (PhylipText(records), MapFileText(idMap))
  {
    var phylip := WritePhylip(records);
    if phylip.Err? {
      return Err(());
    }
    var mapText := WriteMapFile(idMap);
    return Ok((phylip.value, mapText));
  }
}
