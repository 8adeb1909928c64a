/**
 * The record-level parsing of cotton_toolkit/core/convertFiles2sqlite.py:
 * the three-column annotation parser with its `|` row expansion, the search
 * for a header row in a spreadsheet and the header given to a parsed text
 * table. Files arrive as their lines; spreadsheets as rows of cell texts.
 */
module ConvertFiles {
  import opened Wrappers
  import opened PyText

  /** One data line split into at most three fields, missing ones `None`. */
  datatype RawRow = RawRow(query: string, matched: Option<string>, description: Option<string>)

  /** One row of the parsed annotation table. */
  datatype Annotation = Annotation(query: string, matched: string, description: Option<string>)

  /** Lines skipped by the parser: blank or comment lines, once stripped. */
  predicate Skipped(line: string) {
    var s := Strip(line);
    s == "" || s[0] == '#'
  }

  /** `re.split(r'\s+', line.strip(), maxsplit=2)`, padded to three fields with `None`. */
  function Fields(line: string): RawRow {
    var parts := SplitRuns(Strip(line), IsSpace, 2);
    RawRow(parts[0], if |parts| > 1 then Some(parts[1]) else None, if |parts| > 2 then Some(parts[2]) else None)
  }

  /** The rows the line loop collects. */
  function RawRows(lines: seq<string>): seq<RawRow>
    decreases |lines|
  {
    if lines == [] then []
    else
      var last := lines[|lines| - 1];
      RawRows(lines[..|lines| - 1]) + (if Skipped(last) then [] else [Fields(last)])
  }

  /** The line loop of `_read_annotation_text_file`. */
  method CollectRows(lines: seq<string>) returns (rows: seq<RawRow>)
    ensures rows == RawRows(lines)
  {
    rows := [];
    for i := 0 to |lines|
      invariant rows == RawRows(lines[..i])
    {
      assert lines[..i + 1][..i] == lines[..i];
      var line := Strip(lines[i]);
      if line == "" || line[0] == '#' {
        continue;
      }
      rows := rows + [Fields(lines[i])];
    }
    assert lines[..|lines|] == lines;
  }

  /** `astype(str)` of the Match column: a missing Match becomes the text `"None"`. */
  function MatchText(m: Option<string>): string {
    match m
    case None => "None"
    case Some(s) => s
  }

  /** `.str.strip()` of a column that may hold missing values; those stay missing. */
  function StripOpt(s: Option<string>): Option<string> {
    match s
    case None => None
    case Some(t) => Some(Strip(t))
  }

  /** A row left whole, its columns stripped. */
  function Plain(r: RawRow): Annotation {
    Annotation(Strip(r.query), Strip(MatchText(r.matched)), StripOpt(r.description))
  }

  /** A row exploded on the `|` of its Match: one row per segment, the other columns copied; all stripped. */
  function Segments(r: RawRow): seq<Annotation> {
    SegmentRows(r, Split(MatchText(r.matched), '|'))
  }

  function SegmentRows(r: RawRow, pieces: seq<string>): (out: seq<Annotation>)
    ensures |out| == |pieces|
    ensures forall i :: 0 <= i < |out| ==> out[i] == Annotation(Strip(r.query), Strip(pieces[i]), StripOpt(r.description))
  {
    seq(|pieces|, i requires 0 <= i < |pieces| => Annotation(Strip(r.query), Strip(pieces[i]), StripOpt(r.description)))
  }

  function Explode(rows: seq<RawRow>): (out: seq<Annotation>)
    ensures |out| >= |rows|
    decreases |rows|
  {
    if rows == [] then [] else Segments(rows[0]) + Explode(rows[1..])
  }

  function PlainAll(rows: seq<RawRow>): (out: seq<Annotation>)
    ensures |out| == |rows| && forall i :: 0 <= i < |rows| ==> out[i] == Plain(rows[i])
  {
    seq(|rows|, i requires 0 <= i < |rows| => Plain(rows[i]))
  }

  predicate AnyPipe(rows: seq<RawRow>) {
    exists i :: 0 <= i < |rows| && '|' in MatchText(rows[i].matched)
  }

  /** `_read_annotation_text_file` on the lines of a readable file. */
  function ReadAnnotation(lines: seq<string>): (r: seq<Annotation>)
    ensures |r| >= |RawRows(lines)|
    ensures !AnyPipe(RawRows(lines)) ==> |r| == |RawRows(lines)|
  {
    var rows := RawRows(lines);
    if rows == [] then []
    else if AnyPipe(rows) then Explode(rows)
    else PlainAll(rows)
  }

  // ----- Properties of the annotation parser -----

  /** Skipped lines contribute nothing: the rows are those of the other lines, in order. */
  lemma {:induction false} RawRowsAppend(a: seq<string>, b: seq<string>)
    ensures RawRows(a + b) == RawRows(a) + RawRows(b)
    decreases |b|
  {
    if b == [] {
      assert a + b == a;
    } else {
      assert (a + b)[..|a + b| - 1] == a + b[..|b| - 1];
      RawRowsAppend(a, b[..|b| - 1]);
    }
  }

  lemma RawRowsSkipped(a: seq<string>, line: string, b: seq<string>)
    requires Skipped(line)
    ensures RawRows(a + [line] + b) == RawRows(a + b)
  {
    RawRowsAppend(a + [line], b);
    assert RawRows(a + [line]) == RawRows(a) by {
      assert (a + [line])[..|a|] == a;
    }
    RawRowsAppend(a, b);
  }

  /** A file with no data line gives the empty table. */
  lemma {:induction false} NoDataLines(lines: seq<string>)
    requires forall k :: 0 <= k < |lines| ==> Skipped(lines[k])
    ensures RawRows(lines) == [] && ReadAnnotation(lines) == []
    decreases |lines|
  {
    if lines != [] {
      var init := lines[..|lines| - 1];
      assert forall k :: 0 <= k < |init| ==> init[k] == lines[k];
      NoDataLines(init);
    }
  }

  /**
   * Splitting a line `query ws match ws description`: the query and the
   * match are the first two whitespace-free words and the description is
   * the rest, its inner whitespace kept.
   */
  lemma FieldsThree(q: string, w1: string, m: string, w2: string, d: string)
    requires q != [] && NoSpace(q) && q[0] != '#' && m != [] && NoSpace(m)
    requires w1 != [] && w2 != [] && forall j :: 0 <= j < |w1| ==> IsSpace(w1[j])
    requires forall j :: 0 <= j < |w2| ==> IsSpace(w2[j])
    requires d != [] && !IsSpace(d[0]) && !IsSpace(d[|d| - 1])
    ensures !Skipped(q + w1 + m + w2 + d)
    ensures Fields(q + w1 + m + w2 + d) == RawRow(q, Some(m), Some(d))
  {
    var line := q + w1 + m + w2 + d;
    assert line[0] == q[0] && line[|line| - 1] == d[|d| - 1];
    StripTrimmed(line);
    WordsThree(q, w1, m, w2, d);
  }

  lemma WordsThree(q: string, w1: string, m: string, w2: string, d: string)
    requires NoSpace(q) && m != [] && NoSpace(m)
    requires w1 != [] && w2 != [] && forall j :: 0 <= j < |w1| ==> IsSpace(w1[j])
    requires forall j :: 0 <= j < |w2| ==> IsSpace(w2[j])
    requires d != [] && !IsSpace(d[0])
    ensures SplitRuns(q + w1 + m + w2 + d, IsSpace, 2) == [q, m, d]
  {
    assert q + w1 + m + w2 + d == q + w1 + (m + w2 + d);
    SplitRunsStep(q, w1, m + w2 + d, IsSpace, 2);
    SplitRunsStep(m, w2, d, IsSpace, 1);
  }

  /** A line of one word has no Match and no Description. */
  lemma FieldsOne(q: string)
    requires q != [] && NoSpace(q) && q[0] != '#'
    ensures !Skipped(q) && Fields(q) == RawRow(q, None, None)
  {
    StripTrimmed(q);
    SplitRunsNone(q, IsSpace, 2);
  }

  /** Without a `|` in any Match, exploding changes nothing, so the `any()` test could be dropped. */
  lemma {:induction false} ExplodeNoPipe(rows: seq<RawRow>)
    requires !AnyPipe(rows)
    ensures Explode(rows) == PlainAll(rows)
    decreases |rows|
  {
    if rows != [] {
      assert Segments(rows[0]) == [Plain(rows[0])] by {
        var m := MatchText(rows[0].matched);
        assert '|' !in m;
        SplitJoin([m], '|');
        assert Split(m, '|') == [m];
      }
      assert !AnyPipe(rows[1..]) by {
        forall i | 0 <= i < |rows[1..]| ensures '|' !in MatchText(rows[1..][i].matched) {
          assert rows[1..][i] == rows[i + 1];
        }
      }
      ExplodeNoPipe(rows[1..]);
      assert Explode(rows) == [Plain(rows[0])] + PlainAll(rows[1..]);
      PlainAllCons(rows);
    }
  }

  lemma PlainAllCons(rows: seq<RawRow>)
    requires rows != []
    ensures PlainAll(rows) == [Plain(rows[0])] + PlainAll(rows[1..])
  {
    var a, t := PlainAll(rows), PlainAll(rows[1..]);
    forall i | 1 <= i < |a| ensures a[i] == t[i - 1] {
      assert rows[1..][i - 1] == rows[i];
    }
    assert a == [a[0]] + t;
  }

  /** What the table holds without the `any()` test: every row exploded. */
  lemma ReadIsExplode(lines: seq<string>)
    ensures ReadAnnotation(lines) == Explode(RawRows(lines))
  {
    if !AnyPipe(RawRows(lines)) {
      ExplodeNoPipe(RawRows(lines));
    }
  }

  /** The number of rows a raw row explodes into. */
  function Pieces(rows: seq<RawRow>): nat
    decreases |rows|
  {
    if rows == [] then 0 else CountChar(MatchText(rows[0].matched), '|') + 1 + Pieces(rows[1..])
  }

  /** Exploding gives one row per `|`-segment of every Match. */
  lemma {:induction false} ExplodeCount(rows: seq<RawRow>)
    ensures |Explode(rows)| == Pieces(rows)
    decreases |rows|
  {
    if rows != [] {
      var m := MatchText(rows[0].matched);
      var n := |Split(m, '|')|;
      assert n == CountChar(m, '|') + 1 by {
        SplitCount(m, '|');
      }
      assert |Segments(rows[0])| == n;
      ExplodeCount(rows[1..]);
      assert |Explode(rows)| == n + |Explode(rows[1..])|;
    }
  }

  /** No Match of the result holds a `|`. */
  lemma {:induction false} ExplodeNoPipeLeft(rows: seq<RawRow>)
    ensures forall k :: 0 <= k < |Explode(rows)| ==> '|' !in Explode(rows)[k].matched
    decreases |rows|
  {
    if rows != [] {
      var head := Segments(rows[0]);
      var pieces := Split(MatchText(rows[0].matched), '|');
      ExplodeNoPipeLeft(rows[1..]);
      var out := Explode(rows);
      assert out == head + Explode(rows[1..]);
      forall k | 0 <= k < |out| ensures '|' !in out[k].matched {
        if k < |head| {
          StripWithout(pieces[k], '|');
          assert out[k] == head[k];
        } else {
          assert out[k] == Explode(rows[1..])[k - |head|];
        }
      }
    }
  }

  /** Each result row copies the Query and the Description of a raw row, stripped. */
  lemma {:induction false} ExplodeOrigin(rows: seq<RawRow>)
    ensures forall k :: 0 <= k < |Explode(rows)| ==> CopiedFrom(Explode(rows)[k], rows)
    decreases |rows|
  {
    if rows != [] {
      var head := Segments(rows[0]);
      var tail := Explode(rows[1..]);
      ExplodeOrigin(rows[1..]);
      assert Explode(rows) == head + tail;
      forall k | 0 <= k < |head| ensures CopiedFrom(head[k], rows) {
        assert head[k].query == Strip(rows[0].query) && head[k].description == StripOpt(rows[0].description);
      }
      forall k | 0 <= k < |tail| ensures CopiedFrom(tail[k], rows) {
        CopiedFromTail(tail[k], rows);
      }
    }
  }

  /** `row` has the stripped Query and Description of some raw row. */
  predicate CopiedFrom(row: Annotation, rows: seq<RawRow>) {
    exists i :: 0 <= i < |rows| && row.query == Strip(rows[i].query) && row.description == StripOpt(rows[i].description)
  }

  lemma CopiedFromTail(row: Annotation, rows: seq<RawRow>)
    requires rows != [] && CopiedFrom(row, rows[1..])
    ensures CopiedFrom(row, rows)
  {
    var i :| 0 <= i < |rows[1..]| && row.query == Strip(rows[1..][i].query) && row.description == StripOpt(rows[1..][i].description);
    assert rows[1..][i] == rows[i + 1];
  }

  // ----- The header row of a spreadsheet -----

  /** Whether row `row` holds a cell equal, in lower case, to some keyword in lower case. */
  predicate HeaderRow(row: seq<string>, keywords: seq<string>) {
    exists k, v :: 0 <= k < |keywords| && 0 <= v < |row| && Lower(keywords[k]) == Lower(row[v])
  }

  /**
   * `_find_header_row_excel`: the first of the first five rows that is a
   * header row, if any. The test is equality with a cell, not containment.
   */
  method FindHeaderRowExcel(sheet: seq<seq<string>>, keywords: seq<string>) returns (r: Option<nat>)
    ensures r.Some? ==> r.value < 5 && r.value < |sheet| && HeaderRow(sheet[r.value], keywords)
    ensures r.Some? ==> forall i :: 0 <= i < r.value ==> !HeaderRow(sheet[i], keywords)
    ensures r.None? ==> forall i :: 0 <= i < 5 && i < |sheet| ==> !HeaderRow(sheet[i], keywords)
  {
    var n := if |sheet| < 5 then |sheet| else 5;
    for i := 0 to n
      invariant forall j :: 0 <= j < i ==> !HeaderRow(sheet[j], keywords)
    {
      var found := RowMatches(sheet[i], keywords);
      if found {
        return Some(i);
      }
    }
    return None;
  }

  /** `any(keyword.lower() in row_values for keyword in keywords)` */
  method RowMatches(row: seq<string>, keywords: seq<string>) returns (found: bool)
    ensures found <==> HeaderRow(row, keywords)
  {
    for k := 0 to |keywords|
      invariant forall k', v :: 0 <= k' < k && 0 <= v < |row| ==> Lower(keywords[k']) != Lower(row[v])
    {
      for v := 0 to |row|
        invariant forall v' :: 0 <= v' < v ==> Lower(keywords[k]) != Lower(row[v'])
      {
        if Lower(keywords[k]) == Lower(row[v]) {
          return true;
        }
      }
    }
    return false;
  }

  /** A keyword that is only part of a cell does not make a header row. */
  lemma NotSubstring()
    ensures !HeaderRow(["Query ID"], ["query"])
  {
    assert Lower("Query ID") != Lower("query") by {
      assert |Lower("Query ID")| == 8;
    }
  }

  // ----- The header of a parsed text table -----

  /** A column label: one of the three names, or the position of a further column. */
  datatype Column = Named(name: string) | Position(index: nat)

  /**
   * `_read_text_to_dataframe`, step 2, on the column count of a parsed
   * table: the labels and how many empty columns are added.
   */
  function HeaderFor(numCols: nat): (labels: seq<Column>)
    requires numCols >= 1
    ensures |labels| == if numCols < 3 then 3 else numCols
    ensures labels[..3] == [Named("Query"), Named("Match"), Named("Description")]
    ensures forall i :: 3 <= i < |labels| ==> labels[i] == Position(i)
  {
    [Named("Query"), Named("Match"), Named("Description")]
      + seq(if numCols < 3 then 0 else numCols - 3, (i: nat) => Position(i + 3))
  }

  /** A row of the table under those labels: the parsed cells, then `None` for the added columns. */
  function PadRow(row: seq<Option<string>>): (r: seq<Option<string>>)
    ensures |r| == if |row| < 3 then 3 else |row|
    ensures r[..|row|] == row
    ensures forall i :: |row| <= i < |r| ==> r[i] == None
  {
    if |row| < 3 then row + seq(3 - |row|, _ => None) else row
  }

  /** Every cell keeps its column, and the first three columns are always Query, Match and Description. */
  lemma HeaderAligned(row: seq<Option<string>>)
    requires |row| >= 1
    ensures |PadRow(row)| == |HeaderFor(|row|)|
    ensures forall i :: 0 <= i < |row| ==> PadRow(row)[i] == row[i]
  {
    assert forall i :: 0 <= i < |row| ==> PadRow(row)[..|row|][i] == PadRow(row)[i];
  }
}
