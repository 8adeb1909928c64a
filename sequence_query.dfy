/**
 * The FASTA handling inside `run_sequence_extraction`
 * (cotton_toolkit/pipelines/sequence_query.py): the FASTA text returned
 * by the database layer is parsed into a dictionary from ID to sequence,
 * which is either returned or written back as FASTA with 80 characters
 * per line.
 */
module SequenceQuery {
  import opened Wrappers
  import opened PyText
  import opened PyDict

  /**
   * The parse loop state: the per-ID line lists and the current ID (`""`
   * when there is none, which behaves like the source's initial `None`).
   */
  datatype State = State(parts: Dict<string, seq<string>>, current: string)

  const Start := State([], "")

  /** The lines collected so far for `k` (empty when `k` is not a key). */
  function PartsOf(d: Dict<string, seq<string>>, k: string): seq<string> {
    match Get(d, k)
    case Some(v) => v
    case None => []
  }

  /** One iteration of the parse loop. */
  function Step(st: State, raw: string): State {
    var line := Strip(raw);
    if line == "" then st
    else if line[0] == '>' then State(Put(st.parts, line[1..], []), line[1..])
    else if st.current != "" then st.(parts := Put(st.parts, st.current, PartsOf(st.parts, st.current) + [line]))
    else st
  }

  function Fold(st: State, ls: seq<string>): State
    decreases |ls|
  {
    if ls == [] then st else Step(Fold(st, ls[..|ls| - 1]), ls[|ls| - 1])
  }

  /** Replaces every line list by its concatenation, keeping the keys and their order. */
  function JoinParts(d: Dict<string, seq<string>>): (r: Dict<string, string>)
    ensures |r| == |d|
    ensures forall i :: 0 <= i < |d| ==> r[i] == (d[i].0, Join(d[i].1, ""))
    ensures Keys(r) == Keys(d)
  {
    seq(|d|, i requires 0 <= i < |d| => (d[i].0, Join(d[i].1, "")))
  }

  /** The dictionary the source builds from `fasta_str`. */
  function ParseText(fasta: string): (d: Dict<string, string>)
    ensures fasta == "" ==> d == []
    ensures UniqueKeys(d)
  {
    if fasta == "" then []
    else
      var parts := Fold(Start, Split(Strip(fasta), '\n')).parts;
      FoldUnique(Start, Split(Strip(fasta), '\n'));
      JoinParts(parts)
  }

  /** A header re-uses its ID's place, so the IDs stay distinct. */
  lemma {:induction false} FoldUnique(st: State, ls: seq<string>)
    requires UniqueKeys(st.parts)
    ensures UniqueKeys(Fold(st, ls).parts)
    decreases |ls|
  {
    if ls != [] {
      FoldUnique(st, ls[..|ls| - 1]);
    }
  }

  method ParseSequences(fasta: string) returns (d: Dict<string, string>)
    ensures d == ParseText(fasta)
  {
    if fasta == "" {
      return [];
    }
    var parts := CollectParts(Split(Strip(fasta), '\n'));
    d := JoinAll(parts);
  }

  /** The line loop: a list of lines per ID. */
  method CollectParts(ls: seq<string>) returns (parts: Dict<string, seq<string>>)
    ensures parts == Fold(Start, ls).parts
  {
    parts := [];
    var current := "";
    for i := 0 to |ls|
      invariant Fold(Start, ls[..i]) == State(parts, current)
    {
      assert ls[..i + 1][..i] == ls[..i];
      assert Fold(Start, ls[..i + 1]) == Step(Fold(Start, ls[..i]), ls[i]);
      var line := Strip(ls[i]);
      if line == "" {
      } else if line[0] == '>' {
        current := line[1..];
        parts := Put(parts, current, []);
      } else if current != "" {
        parts := Put(parts, current, PartsOf(parts, current) + [line]);
      }
    }
    assert ls[..|ls|] == ls;
  }

  /** The second loop: every line list becomes its concatenation. */
  method JoinAll(parts: Dict<string, seq<string>>) returns (d: Dict<string, string>)
    ensures d == JoinParts(parts)
  {
    d := [];
    for j := 0 to |parts|
      invariant d == JoinParts(parts[..j])
    {
      d := d + [(parts[j].0, Join(parts[j].1, ""))];
    }
    assert parts[..|parts|] == parts;
  }

  // ----- The writer -----

  /** The line width of the written FASTA. */
  const Width := 80

  /** `[s[i:i+80] for i in range(start, len(s), 80)]` */
  function ChunksFrom(s: string, start: nat): (cs: seq<string>)
    decreases |s| - start
  {
    if start >= |s| then [] else
      var end := if start + Width <= |s| then start + Width else |s|;
      [s[start..end]] + ChunksFrom(s, start + Width)
  }

  function Chunks(s: string): seq<string> { ChunksFrom(s, 0) }

  /** Each line followed by a newline. */
  function Lines(ls: seq<string>): string {
    if ls == [] then "" else ls[0] + "\n" + Lines(ls[1..])
  }

  /** The lines written for one record. */
  function RecordLines(id: string, sequence: string): seq<string> {
    [">" + id] + Chunks(sequence)
  }

  /** All lines written for a dictionary, in its key order. */
  function AllLines(d: Dict<string, string>): seq<string>
    decreases |d|
  {
    if d == [] then [] else AllLines(d[..|d| - 1]) + RecordLines(d[|d| - 1].0, d[|d| - 1].1)
  }

  /** The text of the written file. */
  function FastaText(d: Dict<string, string>): (t: string)
    ensures d == [] ==> t == ""
    ensures d != [] ==> |t| > 0 && t[0] == '>' && t[|t| - 1] == '\n'
  {
    if d == [] then Lines(AllLines(d))
    else
      AllLinesFirst(d);
      LinesLast(AllLines(d));
      Lines(AllLines(d))
  }

  /** The written lines start with the first record's header. */
  lemma {:induction false} AllLinesFirst(d: Dict<string, string>)
    requires d != []
    ensures |AllLines(d)| > 0 && AllLines(d)[0] == ">" + d[0].0
    decreases |d|
  {
    var init := d[..|d| - 1];
    if init != [] {
      AllLinesFirst(init);
      assert init[0] == d[0];
    }
  }

  /** Lines written with their newlines end in a newline. */
  lemma {:induction false} LinesLast(ls: seq<string>)
    requires ls != []
    ensures |Lines(ls)| > 0 && Lines(ls)[0] == (if ls[0] == "" then '\n' else ls[0][0])
    ensures |Lines(ls)| > 0 && Lines(ls)[|Lines(ls)| - 1] == '\n'
    decreases |ls|
  {
    if |ls| > 1 {
      LinesLast(ls[1..]);
    }
  }

  lemma {:induction false} LinesAppend(a: seq<string>, b: seq<string>)
    ensures Lines(a + b) == Lines(a) + Lines(b)
  {
    if a != [] {
      assert (a + b)[1..] == a[1..] + b;
      LinesAppend(a[1..], b);
    } else {
      assert a + b == b;
    }
  }

  /** Writes one record, chunk by chunk, after `out`. */
  method WriteRecord(out: string, id: string, sequence: string) returns (r: string)
    ensures r == out + Lines(RecordLines(id, sequence))
  {
    r := out + (">" + id + "\n");
    var i := 0;
    while i < |sequence|
      invariant r + Lines(ChunksFrom(sequence, i)) == out + Lines(RecordLines(id, sequence))
      decreases |sequence| - i
    {
      var end := if i + Width <= |sequence| then i + Width else |sequence|;
      r := r + (sequence[i..end] + "\n");
      i := i + Width;
    }
  }

  /** The writing loop of the file-output mode. */
  method WriteFasta(d: Dict<string, string>) returns (out: string)
    ensures out == FastaText(d)
  {
    out := "";
    for k := 0 to |d|
      invariant out == FastaText(d[..k])
    {
      assert d[..k + 1][..k] == d[..k];
      LinesAppend(AllLines(d[..k]), RecordLines(d[k].0, d[k].1));
      out := WriteRecord(out, d[k].0, d[k].1);
    }
    assert d[..|d|] == d;
  }

  // ----- Properties of the writer -----

  /** Where the chunk starting at `i` ends. */
  function ChunkEnd(s: string, i: nat): nat {
    if i + Width <= |s| then i + Width else |s|
  }

  /** Chunk `k` is the slice of the sequence at `start + 80 k`. */
  lemma {:induction false} ChunkAt(s: string, start: nat, k: nat)
    requires k < |ChunksFrom(s, start)|
    ensures start + k * Width < |s|
    ensures ChunksFrom(s, start)[k] == s[start + k * Width..ChunkEnd(s, start + k * Width)]
    decreases k
  {
    if k > 0 {
      ChunkAt(s, start + Width, k - 1);
      assert start + Width + (k - 1) * Width == start + k * Width;
    }
  }

  /** The last chunk reaches the end of the sequence. */
  lemma {:induction false} ChunksLast(s: string, start: nat)
    requires ChunksFrom(s, start) != []
    ensures ChunkEnd(s, start + (|ChunksFrom(s, start)| - 1) * Width) == |s|
    decreases |s| - start
  {
    var rest := ChunksFrom(s, start + Width);
    if rest != [] {
      ChunksLast(s, start + Width);
      assert start + Width + (|rest| - 1) * Width == start + (|ChunksFrom(s, start)| - 1) * Width;
    }
  }

  /** Chunk `k` is the slice of the sequence at `start + 80 k`; the last one reaches the end. */
  lemma ChunksAt(s: string, start: nat)
    ensures var cs := ChunksFrom(s, start);
      (cs == [] <==> start >= |s|)
      && (forall k :: 0 <= k < |cs| ==>
           start + k * Width < |s| && cs[k] == s[start + k * Width..ChunkEnd(s, start + k * Width)])
      && (cs != [] ==> ChunkEnd(s, start + (|cs| - 1) * Width) == |s|)
  {
    var cs := ChunksFrom(s, start);
    forall k | 0 <= k < |cs|
      ensures start + k * Width < |s| && cs[k] == s[start + k * Width..ChunkEnd(s, start + k * Width)]
    {
      ChunkAt(s, start, k);
    }
    if cs != [] {
      ChunksLast(s, start);
    }
  }

  /** Every chunk is non-empty and at most 80 characters; all but the last are exactly 80. */
  lemma ChunksShape(s: string)
    ensures var cs := Chunks(s);
      forall k :: 0 <= k < |cs| ==> 0 < |cs[k]| <= Width && (k < |cs| - 1 ==> |cs[k]| == Width)
  {
    ChunksAt(s, 0);
    var cs := Chunks(s);
    forall k | 0 <= k < |cs| - 1 ensures |cs[k]| == Width {
      assert (k + 1) * Width < |s|;
    }
  }

  /** The chunks concatenate to the sequence; an empty sequence has none. */
  lemma {:induction false} ChunksJoin(s: string, start: nat)
    requires start <= |s|
    ensures Join(ChunksFrom(s, start), "") == s[start..]
    ensures ChunksFrom(s, start) == [] <==> start == |s|
    decreases |s| - start
  {
    if start < |s| {
      var end := ChunkEnd(s, start);
      var rest := ChunksFrom(s, start + Width);
      assert ChunksFrom(s, start) == [s[start..end]] + rest;
      if end < |s| {
        ChunksJoin(s, end);
        JoinCons(s[start..end], rest);
        assert s[start..] == s[start..end] + s[end..];
      } else {
        assert rest == [];
      }
    }
  }

  /** Joining with no separator puts the first piece before the join of the rest. */
  lemma JoinCons(a: string, rest: seq<string>)
    requires rest != []
    ensures Join([a] + rest, "") == a + Join(rest, "")
  {
    assert ([a] + rest)[1..] == rest;
  }

  // ----- Round trip -----

  /**
   * What the round trip needs: distinct IDs that are non-empty, hold no
   * newline and do not end in whitespace, and sequences with no whitespace
   * and no `>`.
   */
  predicate Writable(d: Dict<string, string>) {
    UniqueKeys(d)
    && forall i :: 0 <= i < |d| ==>
      d[i].0 != "" && '\n' !in d[i].0 && !IsSpace(d[i].0[|d[i].0| - 1])
      && NoSpace(d[i].1) && '>' !in d[i].1
  }

  /** A sequence line the parser appends unchanged. */
  predicate Clean(c: string) {
    c != "" && NoSpace(c) && c[0] != '>'
  }

  /** The chunks of a writable sequence are clean lines. */
  lemma ChunksClean(s: string)
    requires NoSpace(s) && '>' !in s
    ensures forall k :: 0 <= k < |Chunks(s)| ==> Clean(Chunks(s)[k])
  {
    ChunksAt(s, 0);
    var cs := Chunks(s);
    forall k | 0 <= k < |cs| ensures Clean(cs[k]) {
      var c := cs[k];
      assert forall j :: 0 <= j < |c| ==> c[j] == s[k * Width + j];
      assert c[0] in s;
    }
  }

  /** The line lists the parser builds from the lines of `d`. */
  function Chunked(d: Dict<string, string>): (r: Dict<string, seq<string>>)
    ensures |r| == |d|
    ensures forall i :: 0 <= i < |d| ==> r[i] == (d[i].0, Chunks(d[i].1))
  {
    seq(|d|, i requires 0 <= i < |d| => (d[i].0, Chunks(d[i].1)))
  }

  /** A key that is not empty and not yet in the parts. */
  predicate FreshKey(p: Dict<string, seq<string>>, id: string) {
    UniqueKeys(p) && !HasKey(p, id) && id != ""
  }

  predicate AllClean(cs: seq<string>) {
    forall k :: 0 <= k < |cs| ==> Clean(cs[k])
  }

  /** A clean line under a fresh last key is appended to that key's list. */
  lemma AppendStep(p: Dict<string, seq<string>>, id: string, xs: seq<string>, c: string)
    requires FreshKey(p, id) && Clean(c)
    ensures Step(State(p + [(id, xs)], id), c) == State(p + [(id, xs + [c])], id)
  {
    var q := p + [(id, xs)];
    StripTrimmed(c);
    assert UniqueKeys(q);
    GetAt(q, |p|);
    assert HasKey(q, id) by { assert q[|p|].0 == id; }
    var r := Put(q, id, xs + [c]);
    assert forall i :: 0 <= i < |p| ==> r[i] == p[i];
    assert r[|p|] == (id, xs + [c]);
    assert r == p + [(id, xs + [c])];
  }

  lemma FoldLast(st: State, init: seq<string>, c: string)
    ensures Fold(st, init + [c]) == Step(Fold(st, init), c)
  {
    assert (init + [c])[..|init|] == init;
  }

  /** Clean lines after a fresh key accumulate under it. */
  lemma {:induction false} FoldClean(p: Dict<string, seq<string>>, id: string, cs: seq<string>)
    requires FreshKey(p, id) && AllClean(cs)
    ensures Fold(State(p + [(id, [])], id), cs) == State(p + [(id, cs)], id)
    decreases |cs|
  {
    if cs != [] {
      var init, c := cs[..|cs| - 1], cs[|cs| - 1];
      assert cs == init + [c];
      assert AllClean(init) && Clean(c) by {
        assert forall k :: 0 <= k < |init| ==> init[k] == cs[k];
      }
      FoldClean(p, id, init);
      FoldLast(State(p + [(id, [])], id), init, c);
      AppendStep(p, id, init, c);
    }
  }

  /** The lines of one record, parsed after records with other keys, add that record. */
  lemma FoldRecord(p: Dict<string, seq<string>>, current: string, id: string, s: string)
    requires UniqueKeys(p) && !HasKey(p, id)
    requires id != "" && !IsSpace(id[|id| - 1])
    requires NoSpace(s) && '>' !in s
    ensures Fold(State(p, current), RecordLines(id, s)) == State(p + [(id, Chunks(s))], id)
  {
    var hl := ">" + id;
    StripTrimmed(hl);
    assert hl[1..] == id;
    assert Fold(State(p, current), [hl]) == State(p + [(id, [])], id);
    FoldAppend(State(p, current), [hl], Chunks(s));
    ChunksClean(s);
    FoldClean(p, id, Chunks(s));
  }

  lemma ChunkedSnoc(init: Dict<string, string>, id: string, sq: string)
    ensures Chunked(init + [(id, sq)]) == Chunked(init) + [(id, Chunks(sq))]
  {
  }

  lemma ChunkedKeys(d: Dict<string, string>, n: nat)
    requires UniqueKeys(d) && n < |d|
    ensures UniqueKeys(Chunked(d[..n])) && !HasKey(Chunked(d[..n]), d[n].0)
  {
    forall i | 0 <= i < n ensures Chunked(d[..n])[i].0 != d[n].0 {
      assert Chunked(d[..n])[i].0 == d[i].0;
    }
  }

  /** Parsing the lines of a writable dictionary rebuilds its line lists, key by key. */
  lemma {:induction false} FoldAllLines(d: Dict<string, string>)
    requires Writable(d)
    ensures Fold(Start, AllLines(d)).parts == Chunked(d)
    decreases |d|
  {
    if d != [] {
      var n := |d| - 1;
      var init, id, sq := d[..n], d[n].0, d[n].1;
      assert d == init + [(id, sq)];
      assert Writable(init) by {
        assert forall i :: 0 <= i < |init| ==> init[i] == d[i];
      }
      FoldAllLines(init);
      FoldOneMore(init, id, sq);
    }
  }

  /** What `FoldRecord` needs of the last entry of a writable dictionary. */
  lemma WritableLast(init: Dict<string, string>, id: string, sq: string)
    requires Writable(init + [(id, sq)])
    ensures UniqueKeys(Chunked(init)) && !HasKey(Chunked(init), id)
    ensures id != "" && !IsSpace(id[|id| - 1]) && NoSpace(sq) && '>' !in sq
  {
    var d := init + [(id, sq)];
    assert d[..|init|] == init;
    assert d[|init|] == (id, sq);
    ChunkedKeys(d, |init|);
  }

  lemma AllLinesSnoc(init: Dict<string, string>, id: string, sq: string)
    ensures AllLines(init + [(id, sq)]) == AllLines(init) + RecordLines(id, sq)
  {
    assert (init + [(id, sq)])[..|init|] == init;
  }

  /** The induction step of `FoldAllLines`. */
  lemma FoldOneMore(init: Dict<string, string>, id: string, sq: string)
    requires Writable(init + [(id, sq)])
    requires Fold(Start, AllLines(init)).parts == Chunked(init)
    ensures Fold(Start, AllLines(init + [(id, sq)])).parts == Chunked(init + [(id, sq)])
  {
    var st := Fold(Start, AllLines(init));
    WritableLast(init, id, sq);
    AllLinesSnoc(init, id, sq);
    FoldAppend(Start, AllLines(init), RecordLines(id, sq));
    assert st == State(Chunked(init), st.current);
    FoldRecord(Chunked(init), st.current, id, sq);
    ChunkedSnoc(init, id, sq);
  }

  lemma FoldAppend(st: State, a: seq<string>, b: seq<string>)
    ensures Fold(st, a + b) == Fold(Fold(st, a), b)
    decreases |b|
  {
    if b == [] {
      assert a + b == a;
    } else {
      assert (a + b)[..|a + b| - 1] == a + b[..|b| - 1];
      FoldAppend(st, a, b[..|b| - 1]);
    }
  }

  /** `Lines` is `Join` on newlines plus a final newline. */
  lemma {:induction false} LinesJoin(ls: seq<string>)
    requires ls != []
    ensures Lines(ls) == Join(ls, "\n") + "\n"
  {
    if |ls| > 1 {
      LinesJoin(ls[1..]);
    }
  }

  /** A written line: non-empty, no newline, no whitespace at either end. */
  predicate Trimmed(line: string) {
    line != "" && '\n' !in line && !IsSpace(line[0]) && !IsSpace(line[|line| - 1])
  }

  lemma RecordTrimmed(id: string, s: string)
    requires id != "" && '\n' !in id && !IsSpace(id[|id| - 1])
    requires NoSpace(s) && '>' !in s
    ensures forall k :: 0 <= k < |RecordLines(id, s)| ==> Trimmed(RecordLines(id, s)[k])
  {
    ChunksClean(s);
    var rl := RecordLines(id, s);
    forall k | 0 <= k < |rl| ensures Trimmed(rl[k]) {
      if k > 0 {
        assert rl[k] == Chunks(s)[k - 1];
      }
    }
  }

  lemma {:induction false} AllLinesTrimmed(d: Dict<string, string>)
    requires Writable(d)
    ensures forall k :: 0 <= k < |AllLines(d)| ==> Trimmed(AllLines(d)[k])
    ensures d != [] ==> AllLines(d) != []
    decreases |d|
  {
    if d != [] {
      var n := |d| - 1;
      var init := d[..n];
      assert Writable(init) by {
        assert forall i :: 0 <= i < |init| ==> init[i] == d[i];
      }
      AllLinesTrimmed(init);
      RecordTrimmed(d[n].0, d[n].1);
    }
  }

  /** Stripping a text with non-space ends plus a newline drops only the newline. */
  lemma StripFinalNewline(x: string)
    requires x != [] && !IsSpace(x[0]) && !IsSpace(x[|x| - 1])
    ensures Strip(x + "\n") == x
  {
    var t := x + "\n";
    assert LStrip(t) == t;
    assert RStrip(t) == RStrip(x) by {
      assert t[..|t| - 1] == x;
    }
    StripTrimmed(x);
  }

  lemma JoinFirst(ls: seq<string>, sep: string)
    requires ls != [] && ls[0] != ""
    ensures Join(ls, sep) != [] && Join(ls, sep)[0] == ls[0][0]
  {
  }

  lemma {:induction false} JoinLast(ls: seq<string>, sep: string)
    requires ls != [] && ls[|ls| - 1] != ""
    ensures var x := Join(ls, sep); x != [] && x[|x| - 1] == ls[|ls| - 1][|ls[|ls| - 1]| - 1]
  {
    if |ls| > 1 {
      JoinLast(ls[1..], sep);
    }
  }

  /**
   * Parsing the written text gives back the dictionary, whenever its IDs
   * and sequences are writable.
   */
  lemma RoundTrip(d: Dict<string, string>)
    requires Writable(d)
    ensures ParseText(FastaText(d)) == d
  {
    if d != [] {
      var ls := AllLines(d);
      AllLinesTrimmed(d);
      LinesJoin(ls);
      JoinFirst(ls, "\n");
      JoinLast(ls, "\n");
      StripFinalNewline(Join(ls, "\n"));
      SplitJoin(ls, '\n');
      FoldAllLines(d);
      JoinUndoesChunking(d);
    }
  }

  /** Joining the lines back undoes the writer's 80-column chunking. */
  lemma JoinUndoesChunking(d: Dict<string, string>)
    ensures JoinParts(Chunked(d)) == d
  {
    forall i | 0 <= i < |d| ensures Join(Chunks(d[i].1), "") == d[i].1 {
      ChunksJoin(d[i].1, 0);
    }
  }

  // ----- The extraction pipeline -----

  /** What the FASTA handling yields: the dictionary itself, or the text written to the output file. */
  datatype Output = Returned(sequences: Dict<string, string>) | Written(text: string)

  /**
   * `run_sequence_extraction` after ID resolution (`resolved`) and the
   * database query (`fasta`), both of which are inputs here. An empty
   * resolution or an empty FASTA text raises inside the pipeline, and the `pipeline_task`
   * wrapper turns the exception into `None`.
   */
  function Extraction(resolved: seq<string>, fasta: string, outputPath: Option<string>): (r: Option<Output>)
    ensures r.None? <==> resolved == [] || fasta == ""
    ensures r.Some? ==> (r.value.Returned? <==> outputPath.None? || outputPath.value == "")
    ensures r.Some? && r.value.Returned? ==> r.value.sequences == ParseText(fasta)
    ensures r.Some? && r.value.Written? ==> r.value.text == FastaText(ParseText(fasta))
  {
    if resolved == [] || fasta == "" then None
    else
      var d := ParseText(fasta);
      match outputPath
      case None => Some(Returned(d))
      case Some(p) => if p == "" then Some(Returned(d)) else Some(Written(FastaText(d)))
  }

  /** A written output file parses back to the dictionary the pipeline parsed, whenever that is writable. */
  lemma ExtractionWrittenReadsBack(resolved: seq<string>, fasta: string, outputPath: Option<string>)
    requires Extraction(resolved, fasta, outputPath).Some? && Extraction(resolved, fasta, outputPath).value.Written?
    requires Writable(ParseText(fasta))
    ensures ParseText(Extraction(resolved, fasta, outputPath).value.text) == ParseText(fasta)
  {
    RoundTrip(ParseText(fasta));
  }
}
