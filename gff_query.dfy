/**
 * Input handling of `start_gff_query_task` in ui/tabs/gff_query_tab.py:
 * whether the form asks for a gene list or a chromosome region, how each is
 * parsed, and which mistakes stop the query before it starts. The widgets'
 * contents and the translated placeholder and label texts are parameters;
 * the query itself is not part of this model.
 */
module GffQuery {
  import opened Wrappers
  import opened PyText

  /** What the form holds when the start button is pressed. */
  datatype Form = Form(
    configLoaded: bool,
    assembly: string,
    genesText: string,
    regionText: string,
    outputText: string,
    genesPlaceholder: string,
    regionPlaceholder: string,
    loadingLabel: string,
    noGenomeLabel: string)

  datatype Region = Region(chrom: string, start: int, end: int)

  /** The arguments the query task is started with. */
  datatype Query = Query(assembly: string, geneIds: Option<seq<string>>, region: Option<Region>, outputCsv: Option<string>)

  /** Why no task starts; each is shown as an error dialog. */
  datatype Refusal = NoConfig | MissingInput | BadRegion | NoAssembly

  /** The handler's result, and whether it showed the warning that the region is ignored. */
  datatype Handling = Handling(conflictWarned: bool, result: Result<Query, Refusal>)

  // ----- `int()` -----

  predicate DigitOrUnderscore(c: char) { IsDigit(c) || c == '_' }

  /** Decimal digits, possibly grouped by single underscores between digits, as `int()` accepts them. */
  predicate DigitGroups(b: string) {
    b != [] && b[0] != '_' && b[|b| - 1] != '_'
    && (forall i :: 0 <= i < |b| ==> DigitOrUnderscore(b[i]))
    && (forall i :: 0 <= i < |b| - 1 ==> !(b[i] == '_' && b[i + 1] == '_'))
  }

  lemma {:induction false} UnderscoresRemoved(b: string)
    requires forall i :: 0 <= i < |b| ==> DigitOrUnderscore(b[i])
    ensures AllDigits(RemoveChar(b, '_'))
  {
    if b != [] {
      UnderscoresRemoved(b[1..]);
    }
  }

  /** A leading sign, and the text after it. */
  function Unsigned(t: string): (string, bool) {
    if t != [] && (t[0] == '-' || t[0] == '+') then (t[1..], t[0] == '-') else (t, false)
  }

  /** The value of digits grouped by underscores. */
  function GroupsValue(body: string): nat
    requires DigitGroups(body)
  {
    UnderscoresRemoved(body);
    DigitsValue(RemoveChar(body, '_'))
  }

  /** `int(s)` in base 10 for ASCII digits; `None` is the `ValueError`. */
  function ParseInt(s: string): (r: Option<int>)
    ensures r.Some? ==> Strip(s) != ""
    ensures r.Some? && r.value < 0 ==> Strip(s)[0] == '-'
  {
    var (body, negative) := Unsigned(Strip(s));
    if DigitGroups(body) then
      var n: int := GroupsValue(body);
      var v: int := if negative then -n else n;
      Some(v)
    else None
  }

  lemma {:induction false} RemoveAbsent(s: string, c: char)
    requires c !in s
    ensures RemoveChar(s, c) == s
  {
    if s != [] {
      RemoveAbsent(s[1..], c);
    }
  }

  /** `int(str(n)) == n` */
  lemma ParseIntOfNat(n: nat)
    ensures ParseInt(NatToString(n)) == Some(n)
  {
    var d := NatToString(n);
    assert Strip(d) == d by {
      assert IsDigit(d[0]) && IsDigit(d[|d| - 1]);
      StripTrimmed(d);
    }
    assert d[0] != '-' && d[0] != '+' by { assert IsDigit(d[0]); }
    assert Unsigned(d) == (d, false);
    assert '_' !in d by {
      forall i | 0 <= i < |d| ensures d[i] != '_' { assert IsDigit(d[i]); }
    }
    assert DigitGroups(d) by {
      forall i | 0 <= i < |d| ensures DigitOrUnderscore(d[i]) { assert IsDigit(d[i]); }
    }
    assert GroupsValue(d) == n by {
      RemoveAbsent(d, '_');
      DigitsValueOfNatToString(n);
    }
  }

  // ----- The region -----

  /**
   * `chrom, pos_range = region.split(':')` and
   * `start, end = map(int, pos_range.split('-'))`: exactly one `:` and one
   * `-`, and two integers; any other text is a `ValueError`.
   */
  function ParseRegion(region: string): (r: Option<Region>)
    ensures r.Some? ==> r.value.start >= 0 && r.value.end >= 0
  {
    var parts := Split(region, ':');
    if |parts| != 2 then None
    else
      var bounds := Split(parts[1], '-');
      if |bounds| != 2 then None
      else
        var start, end := ParseInt(bounds[0]), ParseInt(bounds[1]);
        if start.None? || end.None? then None
        else
          NoSign(bounds[0]);
          NoSign(bounds[1]);
          Some(Region(Strip(parts[0]), start.value, end.value))
  }

  /** A number that comes out of a `-`-free piece is not negative: the split has already taken every minus sign. */
  lemma NoSign(s: string)
    requires '-' !in s && ParseInt(s).Some?
    ensures ParseInt(s).value >= 0
  {
    var t := Strip(s);
    StripWithout(s, '-');
    if t != [] {
      assert t[0] in t;
    }
    assert !Unsigned(t).1;
  }

  // ----- The gene list -----

  /** The stripped, non-empty lines of a text, in order. */
  function NonBlank(lines: seq<string>): (r: seq<string>)
    ensures forall k :: 0 <= k < |r| ==> r[k] != "" && Strip(r[k]) == r[k]
    decreases |lines|
  {
    if lines == [] then []
    else
      var g := Strip(lines[0]);
      StripIdempotent(lines[0]);
      (if g != "" then [g] else []) + NonBlank(lines[1..])
  }

  /** `[g.strip() for g in text.replace(",", "\n").splitlines() if g.strip()]` */
  function GeneIds(text: string): (ids: seq<string>)
    ensures forall k :: 0 <= k < |ids| ==> ids[k] != "" && Strip(ids[k]) == ids[k]
  {
    NonBlank(SplitLines(ReplaceChar(text, ',', '\n')))
  }

  // ----- The handler -----

  /** `start_gff_query_task` up to starting the query. */
  function StartGffQuery(f: Form): (h: Handling)
    ensures h.result == Err(NoConfig) <==> !f.configLoaded
    ensures h.conflictWarned <==> f.configLoaded && HasGenes(f) && HasRegion(f)
    ensures h.result.Ok? ==> (h.result.value.geneIds.Some? <==> HasGenes(f)) && h.result.value.assembly == f.assembly
  {
    if !f.configLoaded then Handling(false, Err(NoConfig))
    else
      var genes := Strip(f.genesText);
      var region := Strip(f.regionText);
      var hasGenes := genes != "" && genes != f.genesPlaceholder;
      var hasRegion := region != "" && region != f.regionPlaceholder;
      if !hasGenes && !hasRegion then Handling(false, Err(MissingInput))
      else
        var warned := hasGenes && hasRegion;
        var parsed := if hasGenes then None else ParseRegion(region);
        if !hasGenes && parsed.None? then Handling(false, Err(BadRegion))
        else if f.assembly == "" || f.assembly == f.loadingLabel || f.assembly == f.noGenomeLabel then
          Handling(warned, Err(NoAssembly))
        else
          var output := Strip(f.outputText);
          Handling(warned, Ok(Query(
            f.assembly,
            if hasGenes then Some(GeneIds(genes)) else None,
            parsed,
            if output != "" then Some(output) else None)))
  }

  // ----- Properties -----

  /** Real input, a gene list or a region that is not the placeholder. */
  predicate HasGenes(f: Form) { Strip(f.genesText) != "" && Strip(f.genesText) != f.genesPlaceholder }

  predicate HasRegion(f: Form) { Strip(f.regionText) != "" && Strip(f.regionText) != f.regionPlaceholder }

  /** With a configuration but neither input, the handler refuses for missing input. */
  lemma NeitherInput(f: Form)
    requires f.configLoaded
    ensures StartGffQuery(f).result == Err(MissingInput) <==> !HasGenes(f) && !HasRegion(f)
  {
  }

  /** With both inputs the warning is shown, and a started query uses the genes and no region. */
  lemma BothInputs(f: Form)
    requires f.configLoaded && HasGenes(f) && HasRegion(f)
    ensures StartGffQuery(f).conflictWarned
    ensures StartGffQuery(f).result.Ok? ==> StartGffQuery(f).result.value.geneIds.Some? && StartGffQuery(f).result.value.region.None?
  {
  }

  /** A started query has exactly one of a gene list and a region, and a valid assembly. */
  lemma StartedQuery(f: Form)
    requires StartGffQuery(f).result.Ok?
    ensures var q := StartGffQuery(f).result.value;
      (q.geneIds.Some? <==> q.region.None?) && q.assembly == f.assembly
      && q.assembly != "" && q.assembly != f.loadingLabel && q.assembly != f.noGenomeLabel
      && (q.geneIds.Some? ==> q.geneIds.value == GeneIds(Strip(f.genesText)))
      && (q.region.Some? ==> q.region == ParseRegion(Strip(f.regionText)))
  {
  }

  /** A region that does not parse stops the handler when it is the only input. */
  lemma BadRegionRefused(f: Form)
    requires f.configLoaded && !HasGenes(f) && HasRegion(f) && ParseRegion(Strip(f.regionText)).None?
    ensures StartGffQuery(f).result == Err(BadRegion)
  {
  }

  /** Text of digits holds no other character. */
  lemma DigitsWithout(s: string, c: char)
    requires AllDigits(s) && !IsDigit(c)
    ensures c !in s
  {
  }

  /** Two pieces without `c`, written with `c` between them, split back into those pieces. */
  lemma SplitPair(x: string, y: string, c: char)
    requires c !in x && c !in y
    ensures Split(x + [c] + y, c) == [x, y]
  {
    SplitJoin([x, y], c);
    assert Join([x, y], [c]) == x + [c] + y;
  }

  /** `chrom:a-b` with digit bounds splits on `:` into the chromosome and `a-b`, and that on `-` into the bounds. */
  lemma RegionPieces(chrom: string, a: string, b: string)
    requires ':' !in chrom && AllDigits(a) && AllDigits(b)
    ensures Split(chrom + ":" + a + "-" + b, ':') == [chrom, a + "-" + b]
    ensures Split(a + "-" + b, '-') == [a, b]
  {
    RangePieces(a, b);
    RangeWithoutColon(a, b);
    RegionText(chrom, a, b);
    SplitPair(chrom, a + "-" + b, ':');
  }

  /** The range `a-b` of two digit texts splits on `-` into the bounds. */
  lemma RangePieces(a: string, b: string)
    requires AllDigits(a) && AllDigits(b)
    ensures Split(a + "-" + b, '-') == [a, b]
  {
    DigitsWithout(a, '-');
    DigitsWithout(b, '-');
    SplitPair(a, b, '-');
  }

  /** The range `a-b` of two digit texts holds no `:`. */
  lemma RangeWithoutColon(a: string, b: string)
    requires AllDigits(a) && AllDigits(b)
    ensures ':' !in a + "-" + b
  {
    DigitsWithout(a, ':');
    DigitsWithout(b, ':');
  }

  /** `chrom + ":" + a + "-" + b` is the chromosome, the colon and the range. */
  lemma RegionText(chrom: string, a: string, b: string)
    ensures chrom + ":" + a + "-" + b == chrom + [':'] + (a + "-" + b)
  {
  }

  /** A region written `chrom:start-end` parses back, whichever bound is larger. */
  lemma RegionRoundTrip(chrom: string, start: nat, end: nat)
    requires ':' !in chrom
    ensures ParseRegion(chrom + ":" + NatToString(start) + "-" + NatToString(end)) == Some(Region(Strip(chrom), start, end))
  {
    RegionPieces(chrom, NatToString(start), NatToString(end));
    ParseIntOfNat(start);
    ParseIntOfNat(end);
  }

  /** A gene list is a comma- or line-separated list, each ID stripped and blanks dropped and no ID holds a comma or a line break. */
  lemma GeneIdShape(text: string)
    ensures forall k :: 0 <= k < |GeneIds(text)| ==> (',' !in GeneIds(text)[k]
      && forall j :: 0 <= j < |GeneIds(text)[k]| ==> !IsLineBreak(GeneIds(text)[k][j]))
  {
    var lines := SplitLines(ReplaceChar(text, ',', '\n'));
    var r := ReplaceChar(text, ',', '\n');
    assert ',' !in r;
    LinesWithout(r, ',');
    NonBlankWithout(lines);
  }

  lemma {:induction false} LinesWithout(s: string, c: char)
    requires c !in s
    ensures forall k :: 0 <= k < |SplitLines(s)| ==> c !in SplitLines(s)[k]
    decreases |s|
  {
    if s != [] {
      var i := LineBreakAt(s);
      if i < |s| {
        var skip := if s[i] == '\r' && i + 1 < |s| && s[i + 1] == '\n' then 2 else 1;
        assert c !in s[i + skip..];
        LinesWithout(s[i + skip..], c);
        assert c !in s[..i];
      }
    }
  }

  lemma {:induction false} NonBlankWithout(lines: seq<string>)
    requires forall k :: 0 <= k < |lines| ==> ',' !in lines[k] && forall j :: 0 <= j < |lines[k]| ==> !IsLineBreak(lines[k][j])
    ensures forall k :: 0 <= k < |NonBlank(lines)| ==> (',' !in NonBlank(lines)[k]
      && forall j :: 0 <= j < |NonBlank(lines)[k]| ==> !IsLineBreak(NonBlank(lines)[k][j]))
    decreases |lines|
  {
    if lines != [] {
      NonBlankWithout(lines[1..]);
      StripClean(lines[0]);
    }
  }

  lemma StripClean(line: string)
    requires ',' !in line && forall j :: 0 <= j < |line| ==> !IsLineBreak(line[j])
    ensures ',' !in Strip(line) && forall j :: 0 <= j < |Strip(line)| ==> !IsLineBreak(Strip(line)[j])
  {
    StripWithout(line, ',');
    StripKeeps(line);
  }

  /** Every character of `strip(s)` is a character of `s`. */
  lemma StripKeeps(s: string)
    ensures forall j :: 0 <= j < |Strip(s)| ==> Strip(s)[j] in s
  {
    forall j | 0 <= j < |Strip(s)| ensures Strip(s)[j] in s {
      StripWithoutAny(s, Strip(s)[j]);
    }
  }

  lemma StripWithoutAny(s: string, c: char)
    ensures c in Strip(s) ==> c in s
  {
    if c !in s { StripWithout(s, c); }
  }
}
