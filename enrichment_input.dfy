/**
 * Input handling of `start_enrichment_task` in ui/tabs/enrichment_tab.py:
 * the gene list, optionally with a Log2FC value per gene, read line by line
 * from a text box, and the checks that stop the analysis before it starts.
 * `float()` is a parameter; the widgets' contents are fields of the form.
 */
module EnrichmentInput {
  import opened Wrappers
  import opened PyText
  import opened StrOrder

  /** The separators of `re.split(r'[\s,;]+', ...)`. */
  predicate IsSep(c: char) { IsSpace(c) || c == ',' || c == ';' }

  /** `re.split(r'[\s,;]+', line.strip())` */
  function Tokens(line: string): seq<string> {
    SplitRuns(Strip(line), IsSep, -1)
  }

  /** A line as the loop sees it: whether it is blank after `strip()`, its text, and its tokens. */
  datatype Row = Row(blank: bool, text: string, parts: seq<string>)

  function RowOf(line: string): (w: Row)
    ensures w.blank <==> Strip(line) == ""
    ensures w.text == line && w.parts == Tokens(line)
  {
    Row(Strip(line) == "", line, Tokens(line))
  }

  function Rows(lines: seq<string>): (rows: seq<Row>)
    ensures |rows| == |lines|
  {
    if lines == [] then [] else [RowOf(lines[0])] + Rows(lines[1..])
  }

  /** Each row is the view of its line. */
  lemma {:induction false} RowAt(lines: seq<string>, k: nat)
    requires k < |lines|
    ensures Rows(lines)[k] == RowOf(lines[k])
  {
    if k > 0 {
      RowAt(lines[1..], k - 1);
    }
  }

  /** Why a line is refused; `lineNo` counts from 1 after the header is dropped. */
  datatype BadLine = BadValue(lineNo: nat, value: string) | TooFewColumns(lineNo: nat, line: string)

  /** The genes in reading order, and the Log2FC of each gene. */
  datatype Parsed = Parsed(ids: seq<string>, log2fc: map<string, real>)

  /** The gene IDs a line contributes without Log2FC: its non-empty tokens. */
  function NonEmpty(parts: seq<string>): (r: seq<string>)
    ensures forall k :: 0 <= k < |r| ==> r[k] != "" && r[k] in parts
    ensures forall g :: g in parts && g != "" ==> g in r
  {
    if parts == [] then []
    else (if parts[0] != "" then [parts[0]] else []) + NonEmpty(parts[1..])
  }

  /** What one non-blank row does to the parse so far; `n` is its line number. */
  function Next(p: Parsed, row: Row, n: nat, hasLog2fc: bool, toFloat: string -> Option<real>): Result<Parsed, BadLine> {
    if !hasLog2fc then Ok(p.(ids := p.ids + NonEmpty(row.parts)))
    else if |row.parts| < 2 then Err(TooFewColumns(n, row.text))
    else if toFloat(row.parts[1]).None? then Err(BadValue(n, row.parts[1]))
    else Ok(Parsed(p.ids + [row.parts[0]], p.log2fc[row.parts[0] := toFloat(row.parts[1]).value]))
  }

  /** One more row: a blank row, or any row after a refusal, changes nothing; any other goes through `Next`. */
  function Step(before: Result<Parsed, BadLine>, row: Row, n: nat, hasLog2fc: bool, toFloat: string -> Option<real>): Result<Parsed, BadLine> {
    if before.Err? || row.blank then before else Next(before.value, row, n, hasLog2fc, toFloat)
  }

  /** The loop over the first `n` rows: the parse so far, or the first refused line. */
  function ParseGenes(rows: seq<Row>, n: nat, hasLog2fc: bool, toFloat: string -> Option<real>): Result<Parsed, BadLine>
    requires n <= |rows|
  {
    if n == 0 then Ok(Parsed([], map[]))
    else Step(ParseGenes(rows, n - 1, hasLog2fc, toFloat), rows[n - 1], n, hasLog2fc, toFloat)
  }

  /** A refused line ends the parse: later lines change nothing. */
  lemma {:induction false} RefusalStays(rows: seq<Row>, n: nat, m: nat, hasLog2fc: bool, toFloat: string -> Option<real>)
    requires n <= m <= |rows| && ParseGenes(rows, n, hasLog2fc, toFloat).Err?
    ensures ParseGenes(rows, m, hasLog2fc, toFloat) == ParseGenes(rows, n, hasLog2fc, toFloat)
    decreases m
  {
    if m > n {
      RefusalStays(rows, n, m - 1, hasLog2fc, toFloat);
    }
  }

  /** The body of the loop: a blank line is skipped, any other gives a gene and its value, or the IDs on it. */
  method ReadLine(ids: seq<string>, log2fc: map<string, real>, line: string, lineNo: nat, hasLog2fc: bool, toFloat: string -> Option<real>)
    returns (r: Result<Parsed, BadLine>)
    ensures r == Step(Ok(Parsed(ids, log2fc)), RowOf(line), lineNo, hasLog2fc, toFloat)
  {
    if Strip(line) == "" {
      return Ok(Parsed(ids, log2fc));
    }
    var parts := Tokens(line);
    if hasLog2fc {
      if |parts| >= 2 {
        var geneId, value := parts[0], parts[1];
        var v := toFloat(value);
        if v.None? {
          return Err(BadValue(lineNo, value));
        }
        return Ok(Parsed(ids + [geneId], log2fc[geneId := v.value]));
      } else {
        return Err(TooFewColumns(lineNo, line));
      }
    } else {
      return Ok(Parsed(ids + NonEmpty(parts), log2fc));
    }
  }

  /** What the loop needs about one line: the parse of one more line, or the refusal that stands to the end. */
  lemma ReadStep(lines: seq<string>, i: nat, p: Parsed, next: Result<Parsed, BadLine>, hasLog2fc: bool, toFloat: string -> Option<real>)
    requires i < |lines| && ParseGenes(Rows(lines), i, hasLog2fc, toFloat) == Ok(p)
    requires next == Step(Ok(p), RowOf(lines[i]), i + 1, hasLog2fc, toFloat)
    ensures ParseGenes(Rows(lines), i + 1, hasLog2fc, toFloat) == next
    ensures next.Err? ==> ParseGenes(Rows(lines), |lines|, hasLog2fc, toFloat) == next
  {
    RowAt(lines, i);
    StepAt(Rows(lines), i, p, next, hasLog2fc, toFloat);
  }

  lemma StepAt(rows: seq<Row>, i: nat, p: Parsed, next: Result<Parsed, BadLine>, hasLog2fc: bool, toFloat: string -> Option<real>)
    requires i < |rows| && ParseGenes(rows, i, hasLog2fc, toFloat) == Ok(p)
    requires next == Step(Ok(p), rows[i], i + 1, hasLog2fc, toFloat)
    ensures ParseGenes(rows, i + 1, hasLog2fc, toFloat) == next
    ensures next.Err? ==> ParseGenes(rows, |rows|, hasLog2fc, toFloat) == next
  {
    if next.Err? {
      RefusalStays(rows, i + 1, |rows|, hasLog2fc, toFloat);
    }
  }

  /** The loop of the handler, building the list and the map line by line; the first refused line ends it. */
  method ReadLines(lines: seq<string>, hasLog2fc: bool, toFloat: string -> Option<real>) returns (r: Result<Parsed, BadLine>)
    ensures r == ParseGenes(Rows(lines), |lines|, hasLog2fc, toFloat)
  {
    var ids: seq<string> := [];
    var log2fc: map<string, real> := map[];
    for i := 0 to |lines|
      invariant ParseGenes(Rows(lines), i, hasLog2fc, toFloat) == Ok(Parsed(ids, log2fc))
    {
      var next := ReadLine(ids, log2fc, lines[i], i + 1, hasLog2fc, toFloat);
      ReadStep(lines, i, Parsed(ids, log2fc), next, hasLog2fc, toFloat);
      if next.Err? {
        return next;
      }
      assert next == Ok(Parsed(next.value.ids, next.value.log2fc));
      ids, log2fc := next.value.ids, next.value.log2fc;
    }
    return Ok(Parsed(ids, log2fc));
  }

  // ----- The handler -----

  datatype Form = Form(
    configLoaded: bool,
    genesText: string,
    genesPlaceholder: string,
    assembly: string,
    outputDir: string,
    analysisType: string,
    hasHeader: bool,
    hasLog2fc: bool,
    bubble: bool, bar: bool, upset: bool, cnet: bool,
    loadingLabel: string,
    noGenomeLabel: string)

  /** The arguments the enrichment task is started with. */
  datatype Task = Task(
    assembly: string,
    studyGeneIds: seq<string>,
    analysisType: string,
    plotTypes: seq<string>,
    outputDir: string,
    log2fc: Option<map<string, real>>)

  /** Why no task starts; each is shown as an error dialog. */
  datatype Refusal = NoConfig | BadInput(line: BadLine) | NoGenes | NoAssembly | NoPlotType | NoOutputDir

  /** The text box's lines, without the header line when there is one. */
  function InputLines(f: Form): seq<string> {
    var lines := SplitLines(Strip(f.genesText));
    if f.hasHeader && |lines| > 0 then lines[1..] else lines
  }

  /** The ticked plot types, in the order of the check boxes. */
  function PlotTypes(f: Form): seq<string> {
    (if f.bubble then ["bubble"] else []) + (if f.bar then ["bar"] else [])
    + (if f.upset then ["upset"] else []) + (if f.cnet then ["cnet"] else [])
  }

  /** Whether the assembly selector shows no usable genome. */
  predicate NoGenome(f: Form) {
    f.assembly == "" || f.assembly == f.loadingLabel || f.assembly == f.noGenomeLabel
  }

  /** The checks after the lines are read, in their order, then the enrichment task they start. */
  function Checks(f: Form, p: Parsed): (r: Result<Task, Refusal>)
    ensures r.Err? ==> !r.error.NoConfig? && !r.error.BadInput?
  {
    var study := SortedSet(p.ids);
    if study == [] then Err(NoGenes)
    else if NoGenome(f) then Err(NoAssembly)
    else if PlotTypes(f) == [] then Err(NoPlotType)
    else if Strip(f.outputDir) == "" then Err(NoOutputDir)
    else Ok(Task(f.assembly, study, Lower(f.analysisType), PlotTypes(f), Strip(f.outputDir),
                 if f.hasLog2fc then Some(p.log2fc) else None))
  }

  /** The parse of the form's lines. */
  function Parse(f: Form, toFloat: string -> Option<real>): Result<Parsed, BadLine> {
    var lines := InputLines(f);
    ParseGenes(Rows(lines), |lines|, f.hasLog2fc, toFloat)
  }

  /** `start_enrichment_task` up to starting the enrichment task. */
  function StartEnrichment(f: Form, toFloat: string -> Option<real>): (r: Result<Task, Refusal>)
    ensures r.Err? && r.error.BadInput? ==> f.hasLog2fc
    ensures r.Ok? ==> r.value.studyGeneIds != [] && r.value.assembly == f.assembly
    ensures r.Ok? ==> (r.value.log2fc.Some? <==> f.hasLog2fc)
  {
    if !f.configLoaded then Err(NoConfig)
    else
      var parsed := Parse(f, toFloat);
      PlainAccepted(Rows(InputLines(f)), |InputLines(f)|, toFloat);
      if parsed.Err? then Err(BadInput(parsed.error)) else Checks(f, parsed.value)
  }

  // ----- Properties -----

  /** Without Log2FC nothing is refused. */
  lemma {:induction false} PlainAccepted(rows: seq<Row>, n: nat, toFloat: string -> Option<real>)
    requires n <= |rows|
    ensures ParseGenes(rows, n, false, toFloat).Ok?
  {
    if n > 0 {
      PlainAccepted(rows, n - 1, toFloat);
    }
  }

  /** Whether gene `g` is a token of a non-blank row among the first `n`. */
  predicate TokenAmong(rows: seq<Row>, n: nat, g: string)
    requires n <= |rows|
  {
    exists k :: 0 <= k < n && !rows[k].blank && g in rows[k].parts
  }

  /** Without Log2FC the genes are exactly the non-empty tokens of the non-blank lines. */
  lemma {:induction false} PlainList(rows: seq<Row>, n: nat, toFloat: string -> Option<real>, g: string)
    requires n <= |rows|
    ensures ParseGenes(rows, n, false, toFloat).Ok?
      && (g in ParseGenes(rows, n, false, toFloat).value.ids <==> g != "" && TokenAmong(rows, n, g))
  {
    PlainAccepted(rows, n, toFloat);
    if n > 0 {
      PlainAccepted(rows, n - 1, toFloat);
      PlainList(rows, n - 1, toFloat, g);
      var before := ParseGenes(rows, n - 1, false, toFloat).value;
      var row := rows[n - 1];
      var now := ParseGenes(rows, n, false, toFloat).value;
      if row.blank {
        assert now == before;
        assert TokenAmong(rows, n, g) ==> TokenAmong(rows, n - 1, g);
      } else {
        assert now.ids == before.ids + NonEmpty(row.parts);
        if g in now.ids && g !in before.ids {
          assert g in NonEmpty(row.parts);
          assert TokenAmong(rows, n, g);
        }
        if g != "" && TokenAmong(rows, n, g) && !TokenAmong(rows, n - 1, g) {
          assert g in row.parts;
          assert g in NonEmpty(row.parts);
        }
        if TokenAmong(rows, n - 1, g) {
          var k :| 0 <= k < n - 1 && !rows[k].blank && g in rows[k].parts;
          assert TokenAmong(rows, n, g);
        }
      }
    }
  }

  /** Whether row `k` is non-blank and has fewer than two tokens or a value `float()` refuses. */
  predicate BadRow(rows: seq<Row>, k: nat, toFloat: string -> Option<real>)
    requires k < |rows|
  {
    !rows[k].blank && (|rows[k].parts| < 2 || toFloat(rows[k].parts[1]).None?)
  }

  predicate SomeBadRow(rows: seq<Row>, n: nat, toFloat: string -> Option<real>)
    requires n <= |rows|
  {
    exists k :: 0 <= k < n && BadRow(rows, k, toFloat)
  }

  /** With Log2FC the parse is refused exactly when some non-blank line is bad. */
  lemma {:induction false} Log2fcRefused(rows: seq<Row>, n: nat, toFloat: string -> Option<real>)
    requires n <= |rows|
    ensures ParseGenes(rows, n, true, toFloat).Err? <==> SomeBadRow(rows, n, toFloat)
  {
    if n > 0 {
      Log2fcRefused(rows, n - 1, toFloat);
      if SomeBadRow(rows, n - 1, toFloat) {
        var k :| 0 <= k < n - 1 && BadRow(rows, k, toFloat);
        assert 0 <= k < n;
      } else if BadRow(rows, n - 1, toFloat) {
        assert SomeBadRow(rows, n, toFloat);
      } else {
        forall k | 0 <= k < n ensures !BadRow(rows, k, toFloat) {
          if k < n - 1 {
            assert !SomeBadRow(rows, n - 1, toFloat);
          }
        }
      }
    }
  }

  /** The refusal names the first bad line, counted from 1, and says why it is bad. */
  lemma {:induction false} Log2fcFirstBad(rows: seq<Row>, n: nat, toFloat: string -> Option<real>)
    requires n <= |rows| && ParseGenes(rows, n, true, toFloat).Err?
    ensures var e := ParseGenes(rows, n, true, toFloat).error;
      1 <= e.lineNo <= n && BadRow(rows, e.lineNo - 1, toFloat) && !SomeBadRow(rows, e.lineNo - 1, toFloat)
      && (if |rows[e.lineNo - 1].parts| < 2 then e == TooFewColumns(e.lineNo, rows[e.lineNo - 1].text)
          else e == BadValue(e.lineNo, rows[e.lineNo - 1].parts[1]))
  {
    var before := ParseGenes(rows, n - 1, true, toFloat);
    if before.Err? {
      Log2fcFirstBad(rows, n - 1, toFloat);
    } else {
      Log2fcRefused(rows, n - 1, toFloat);
    }
  }

  /** Whether row `k` is non-blank and gives gene `g` a value. */
  predicate GivesValue(rows: seq<Row>, k: nat, g: string)
    requires k < |rows|
  {
    !rows[k].blank && |rows[k].parts| >= 2 && rows[k].parts[0] == g
  }

  /** Whether row `k` is the last of the first `n` that gives `g` a value, and that value is `v`. */
  predicate LastValueAt(rows: seq<Row>, n: nat, k: nat, g: string, v: real, toFloat: string -> Option<real>)
    requires k < n <= |rows|
  {
    GivesValue(rows, k, g) && toFloat(rows[k].parts[1]) == Some(v)
    && forall j :: k < j < n ==> !GivesValue(rows, j, g)
  }

  /** With Log2FC, a gene is listed exactly when it has a value. */
  lemma {:induction false} ListedIffValued(rows: seq<Row>, n: nat, toFloat: string -> Option<real>, g: string)
    requires n <= |rows| && ParseGenes(rows, n, true, toFloat).Ok?
    ensures var p := ParseGenes(rows, n, true, toFloat).value;
      g in p.ids <==> g in p.log2fc
  {
    if n > 0 {
      ListedIffValued(rows, n - 1, toFloat, g);
    }
  }

  /** With Log2FC, a gene's value is the one on the last line that names it; a gene no line names has none. */
  lemma {:induction false} LastValueWins(rows: seq<Row>, n: nat, toFloat: string -> Option<real>, g: string)
    requires n <= |rows| && ParseGenes(rows, n, true, toFloat).Ok?
    ensures var p := ParseGenes(rows, n, true, toFloat).value;
      (g in p.log2fc ==> exists k :: 0 <= k < n && LastValueAt(rows, n, k, g, p.log2fc[g], toFloat))
      && (g !in p.log2fc ==> forall k :: 0 <= k < n ==> !GivesValue(rows, k, g))
  {
    if n > 0 {
      var before := ParseGenes(rows, n - 1, true, toFloat);
      assert before.Ok?;
      LastValueWins(rows, n - 1, toFloat, g);
      var p := ParseGenes(rows, n, true, toFloat).value;
      if GivesValue(rows, n - 1, g) {
        assert LastValueAt(rows, n, n - 1, g, p.log2fc[g], toFloat);
      } else if g in p.log2fc {
        assert g in before.value.log2fc && p.log2fc[g] == before.value.log2fc[g];
        var k :| 0 <= k < n - 1 && LastValueAt(rows, n - 1, k, g, before.value.log2fc[g], toFloat);
        assert LastValueAt(rows, n, k, g, p.log2fc[g], toFloat);
      } else {
        assert g !in before.value.log2fc;
      }
    }
  }

  /**
   * A started task's gene list is sorted and free of duplicates and holds
   * every gene read and nothing else; the Log2FC map is passed exactly when
   * asked for, and every gene in it is in the list.
   */
  lemma StartedTask(f: Form, toFloat: string -> Option<real>)
    requires StartEnrichment(f, toFloat).Ok?
    ensures var t := StartEnrichment(f, toFloat).value;
      var p := Parse(f, toFloat).value;
      Increasing(t.studyGeneIds) && t.studyGeneIds != []
      && (forall g :: g in t.studyGeneIds <==> g in p.ids)
      && (t.log2fc.Some? <==> f.hasLog2fc)
      && (t.log2fc.Some? ==> forall g :: g in t.log2fc.value ==> g in t.studyGeneIds)
      && t.assembly == f.assembly && !NoGenome(f)
      && t.plotTypes == PlotTypes(f) && t.plotTypes != []
      && t.outputDir == Strip(f.outputDir) && t.outputDir != ""
  {
    var t := StartEnrichment(f, toFloat).value;
    var p := Parse(f, toFloat).value;
    assert t == Checks(f, p).value;
    if f.hasLog2fc {
      var lines := InputLines(f);
      forall g | g in t.log2fc.value ensures g in t.studyGeneIds {
        ListedIffValued(Rows(lines), |lines|, toFloat, g);
      }
    }
  }

  /** The checks after the parse come in their order: no genes, then no assembly, then no plot type, then no output directory. */
  lemma Refusals(f: Form, p: Parsed)
    ensures Checks(f, p) == Err(NoGenes) <==> p.ids == []
    ensures Checks(f, p) == Err(NoAssembly) <==> p.ids != [] && NoGenome(f)
    ensures Checks(f, p) == Err(NoPlotType) <==> p.ids != [] && !NoGenome(f) && PlotTypes(f) == []
    ensures Checks(f, p) == Err(NoOutputDir) <==> p.ids != [] && !NoGenome(f) && PlotTypes(f) != [] && Strip(f.outputDir) == ""
  {
    if p.ids != [] {
      assert p.ids[0] in SortedSet(p.ids);
    }
  }

  /** Nothing is checked before the configuration: without it every form is refused the same way. */
  lemma ConfigFirst(f: Form, toFloat: string -> Option<real>)
    ensures StartEnrichment(f, toFloat) == Err(NoConfig) <==> !f.configLoaded
  {
    var p := Parse(f, toFloat);
    if f.configLoaded && p.Ok? {
      assert StartEnrichment(f, toFloat) == Checks(f, p.value);
    }
  }

  /** The placeholder text is not treated specially: the handler does the same whatever the placeholder is. */
  lemma PlaceholderIgnored(f: Form, placeholder: string, toFloat: string -> Option<real>)
    ensures StartEnrichment(f.(genesPlaceholder := placeholder), toFloat) == StartEnrichment(f, toFloat)
  {
    var g := f.(genesPlaceholder := placeholder);
    assert InputLines(g) == InputLines(f);
    var p := Parse(f, toFloat);
    assert Parse(g, toFloat) == p;
    if p.Ok? {
      ChecksIgnorePlaceholder(f, placeholder, p.value);
    }
  }

  lemma ChecksIgnorePlaceholder(f: Form, placeholder: string, p: Parsed)
    ensures Checks(f.(genesPlaceholder := placeholder), p) == Checks(f, p)
  {
    assert PlotTypes(f.(genesPlaceholder := placeholder)) == PlotTypes(f);
  }

  /** With a header, the first line of the trimmed text is not read. */
  lemma HeaderDropped(f: Form)
    requires f.hasHeader
    ensures var all := SplitLines(Strip(f.genesText));
      all != [] ==> InputLines(f) == all[1..]
    ensures Strip(f.genesText) == "" ==> InputLines(f) == []
  {
  }

  // ----- The message of a refused line -----

  /** The text after the line number in each message, with the value or line quoted after it. */
  function MessageTail(e: BadLine): string {
    if e.BadValue? then " 行Log2FC值无效: '" + e.value + "'"
    else " 行格式错误，需要两列 (基因, Log2FC): '" + e.line + "'"
  }

  /**
   * The message as the handler builds it. The template is a plain literal
   * inside the f-string's replacement field, so `{i + 1}` stays in the text
   * as written and no line number is shown.
   */
  function MessageAsWritten(e: BadLine): (m: string)
    ensures m == "第 {i + 1}" + MessageTail(e)
    ensures |m| > 9 && m[..9] == "第 {i + 1}"
  {
    "第 {i + 1}" + MessageTail(e)
  }

  /** As written, the message is the same whatever line the refusal names. */
  lemma LineNumberIgnored(e: BadLine, n: nat)
    ensures MessageAsWritten(e.(lineNo := n)) == MessageAsWritten(e)
  {
  }

  /** Two refusals of the same value on different lines read the same. */
  lemma LineNumberLost(value: string)
    ensures MessageAsWritten(BadValue(1, value)) == MessageAsWritten(BadValue(2, value))
    ensures Message(BadValue(1, value)) != Message(BadValue(2, value))
  {
    assert Message(BadValue(1, value))[2] == '1';
    assert Message(BadValue(2, value))[2] == '2';
  }

  /** The message with the line number filled in, as the template intends. */
  function Message(e: BadLine): (m: string)
    ensures |m| > 2 && m[..2] == "第 "
  {
    "第 " + NatToString(e.lineNo) + MessageTail(e)
  }

  /** The number of digits a text starts with. */
  function LeadingDigits(s: string): (n: nat)
    ensures n <= |s| && AllDigits(s[..n])
  {
    if s != [] && IsDigit(s[0]) then
      var n := 1 + LeadingDigits(s[1..]);
      assert s[..n] == [s[0]] + s[1..][..n - 1];
      n
    else 0
  }

  /** Digits followed by a space: the digits are exactly the leading ones. */
  lemma {:induction false} DigitsBeforeSpace(a: string, x: string)
    requires AllDigits(a) && x != [] && x[0] == ' '
    ensures LeadingDigits(a + x) == |a|
    decreases |a|
  {
    if a != [] {
      assert (a + x)[1..] == a[1..] + x;
      DigitsBeforeSpace(a[1..], x);
    }
  }

  /** A digit text followed by a text that starts with a space splits only one way. */
  lemma DigitsThenSpace(a: string, x: string, b: string, y: string)
    requires AllDigits(a) && AllDigits(b) && x != [] && x[0] == ' ' && y != [] && y[0] == ' '
    requires a + x == b + y
    ensures a == b && x == y
  {
    DigitsBeforeSpace(a, x);
    DigitsBeforeSpace(b, y);
    assert a == (a + x)[..|a|] && b == (b + y)[..|b|];
    assert x == (a + x)[|a|..] && y == (b + y)[|b|..];
  }

  /** The tail tells the kind of refusal and the quoted text. */
  lemma TailInjective(e1: BadLine, e2: BadLine)
    requires MessageTail(e1) == MessageTail(e2)
    ensures e1.BadValue? == e2.BadValue?
    ensures e1.BadValue? ==> e1.value == e2.value
    ensures e1.TooFewColumns? ==> e1.line == e2.line
  {
    var t1, t2 := MessageTail(e1), MessageTail(e2);
    if e1.BadValue? == e2.BadValue? {
      if e1.BadValue? {
        QuotedAfter(" 行Log2FC值无效: '", e1.value, e2.value);
      } else {
        QuotedAfter(" 行格式错误，需要两列 (基因, Log2FC): '", e1.line, e2.line);
      }
    } else {
      KindShows(e1);
      KindShows(e2);
    }
  }

  /** The third character of the tail tells the two messages apart. */
  lemma KindShows(e: BadLine)
    ensures |MessageTail(e)| > 2 && MessageTail(e)[2] == if e.BadValue? then 'L' else '格'
  {
  }

  lemma QuotedAfter(p: string, v1: string, v2: string)
    requires p + v1 + "'" == p + v2 + "'"
    ensures v1 == v2
  {
    var s1, s2 := p + v1 + "'", p + v2 + "'";
    assert v1 == s1[|p|..|s1| - 1] && v2 == s2[|p|..|s2| - 1];
  }

  /** A fixed prefix, then digits, then a text starting with a space, splits only one way. */
  lemma PrefixDigits(p: string, d1: string, t1: string, d2: string, t2: string)
    requires AllDigits(d1) && AllDigits(d2) && t1 != [] && t1[0] == ' ' && t2 != [] && t2[0] == ' '
    requires p + d1 + t1 == p + d2 + t2
    ensures d1 == d2 && t1 == t2
  {
    var s1, s2 := p + d1 + t1, p + d2 + t2;
    assert s1[|p|..] == d1 + t1 && s2[|p|..] == d2 + t2;
    DigitsThenSpace(d1, t1, d2, t2);
  }

  /** Different refusals give different messages: the text names the line, the kind and what was refused. */
  lemma MessageInjective(e1: BadLine, e2: BadLine)
    requires Message(e1) == Message(e2)
    ensures e1 == e2
  {
    var d1, d2 := NatToString(e1.lineNo), NatToString(e2.lineNo);
    var t1, t2 := MessageTail(e1), MessageTail(e2);
    assert t1[0] == ' ' && t2[0] == ' ';
    PrefixDigits("第 ", d1, t1, d2, t2);
    NatToStringInjective(e1.lineNo, e2.lineNo);
    TailInjective(e1, e2);
  }
}
