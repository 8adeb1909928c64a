/**
 * `parse_fasta_text` of cotton_toolkit/tools/fa_loader.py: FASTA text to a
 * dictionary from header to sequence. The text is stripped and split on
 * `'\n'`; every line is stripped; a `>` line opens a record keyed by the
 * rest of the line, stripped; the following lines are concatenated.
 */
module FaLoader {
  import opened PyText
  import opened PyDict

  /**
   * The loop state: the records stored so far, the open header and the
   * lines collected for it. The source starts with `None` for the header;
   * `None` and `""` are both falsy and behave alike in every branch, so the
   * model uses `""` for both.
   */
  datatype State = State(seqs: Dict<string, string>, header: string, lines: seq<string>)

  const Start := State([], "", [])

  /** Stores the open record, when its header is truthy. */
  function Flush(st: State): Dict<string, string> {
    if st.header != "" then Put(st.seqs, st.header, Join(st.lines, "")) else st.seqs
  }

  /** One iteration of the line loop. */
  function Step(st: State, raw: string): State {
    var line := Strip(raw);
    if line == "" then st
    else if line[0] == '>' then State(Flush(st), Strip(line[1..]), [])
    else if st.header != "" then st.(lines := st.lines + [line])
    else st
  }

  /** The loop over `ls`, started in `st`. */
  function Fold(st: State, ls: seq<string>): State
    decreases |ls|
  {
    if ls == [] then st else Step(Fold(st, ls[..|ls| - 1]), ls[|ls| - 1])
  }

  /** The dictionary built from a list of raw lines. */
  function ParseLines(ls: seq<string>): Dict<string, string> {
    Flush(Fold(Start, ls))
  }

  /** `fasta_text.strip().split('\n')` */
  function FastaLines(text: string): seq<string> {
    Split(Strip(text), '\n')
  }

  function ParseFasta(text: string): (d: Dict<string, string>)
    ensures UniqueKeys(d)
  {
    FoldGood(FastaLines(text));
    FlushGood(Fold(Start, FastaLines(text)));
    ParseLines(FastaLines(text))
  }

  method ParseFastaText(text: string) returns (sequences: Dict<string, string>)
    ensures sequences == ParseFasta(text)
  {
    var ls := Split(Strip(text), '\n');
    var header := "";
    var current: seq<string> := [];
    sequences := [];
    for i := 0 to |ls|
      invariant Fold(Start, ls[..i]) == State(sequences, header, current)
    {
      assert ls[..i + 1][..i] == ls[..i];
      assert Fold(Start, ls[..i + 1]) == Step(Fold(Start, ls[..i]), ls[i]);
      var line := Strip(ls[i]);
      if line == "" {
      } else if line[0] == '>' {
        if header != "" {
          sequences := Put(sequences, header, Join(current, ""));
        }
        header := Strip(line[1..]);
        current := [];
      } else if header != "" {
        current := current + [line];
      }
    }
    assert ls[..|ls|] == ls;
    if header != "" {
      sequences := Put(sequences, header, Join(current, ""));
    }
  }

  // ----- Properties -----

  lemma {:induction false} FoldAppend(st: State, a: seq<string>, b: seq<string>)
    ensures Fold(st, a + b) == Fold(Fold(st, a), b)
    decreases |b|
  {
    if b == [] {
      assert a + b == a;
    } else {
      assert (a + b)[..|a + b| - 1] == a + b[..|b| - 1];
      FoldAppend(st, a, b[..|b| - 1]);
    }
  }

  /** A line that is blank once stripped. */
  predicate Blank(line: string) { Strip(line) == "" }

  /** A line that is a header once stripped. */
  predicate IsHeader(line: string) { var s := Strip(line); s != "" && s[0] == '>' }

  /** The stripped, non-blank lines among `ls`, the ones a record collects. */
  function Body(ls: seq<string>): seq<string>
    decreases |ls|
  {
    if ls == [] then []
    else Body(ls[..|ls| - 1]) + (if Blank(ls[|ls| - 1]) then [] else [Strip(ls[|ls| - 1])])
  }

  /** The key a header line opens. */
  function HeaderKey(line: string): string
    requires IsHeader(line)
  {
    Strip(Strip(line)[1..])
  }

  /** The lines a record collects from one more line. */
  function Kept(line: string): seq<string> {
    if Blank(line) then [] else [Strip(line)]
  }

  lemma BodySnoc(init: seq<string>, c: string)
    ensures Body(init + [c]) == Body(init) + Kept(c)
  {
    assert (init + [c])[..|init|] == init;
  }

  lemma FoldSnoc(st: State, init: seq<string>, c: string)
    ensures Fold(st, init + [c]) == Step(Fold(st, init), c)
  {
    assert (init + [c])[..|init|] == init;
  }

  /** One non-header line is collected under an open header, and ignored otherwise. */
  lemma StepBody(st: State, c: string)
    requires !IsHeader(c)
    ensures st.header != "" ==> Step(st, c) == st.(lines := st.lines + Kept(c))
    ensures st.header == "" ==> Step(st, c) == st
  {
    if !Blank(c) {
      assert Strip(c)[0] != '>';
    } else {
      assert st.lines + Kept(c) == st.lines;
    }
  }

  /** After an open header, non-header lines are collected in order, blank ones skipped. */
  lemma {:induction false} FoldBody(st: State, bs: seq<string>)
    requires forall k :: 0 <= k < |bs| ==> !IsHeader(bs[k])
    ensures st.header != "" ==> Fold(st, bs) == st.(lines := st.lines + Body(bs))
    ensures st.header == "" ==> Fold(st, bs) == st
    decreases |bs|
  {
    if bs == [] {
      assert st.lines + Body(bs) == st.lines;
    } else {
      var init, c := bs[..|bs| - 1], bs[|bs| - 1];
      assert bs == init + [c];
      assert forall k :: 0 <= k < |init| ==> init[k] == bs[k];
      FoldBody(st, init);
      FoldSnoc(st, init, c);
      BodySnoc(init, c);
      StepBody(Fold(st, init), c);
      assert st.lines + Body(init) + Kept(c) == st.lines + Body(bs);
    }
  }

  /**
   * A record appended to any list of lines: a truthy key is stored with the
   * concatenation of its body lines, replacing an earlier record with the
   * same key; so a header without sequence lines maps to `""` and the last
   * of several records with one key wins.
   */
  lemma ParseRecord(ls: seq<string>, header: string, bs: seq<string>)
    requires IsHeader(header) && HeaderKey(header) != ""
    requires forall k :: 0 <= k < |bs| ==> !IsHeader(bs[k])
    ensures ParseLines(ls + [header] + bs) == Put(ParseLines(ls), HeaderKey(header), Join(Body(bs), ""))
  {
    var open := OpenRecord(ls, header, bs);
    FoldBody(open, bs);
    var k := HeaderKey(header);
    assert open.header == k;
    assert Fold(open, bs) == State(ParseLines(ls), k, Body(bs));
    assert ParseLines(ls + [header] + bs) == Flush(State(ParseLines(ls), k, Body(bs)));
  }

  /** The state right after a header line. */
  lemma OpenRecord(ls: seq<string>, header: string, bs: seq<string>) returns (open: State)
    requires IsHeader(header)
    ensures open == State(ParseLines(ls), HeaderKey(header), [])
    ensures Fold(Start, ls + [header] + bs) == Fold(open, bs)
  {
    FoldAppend(Start, ls + [header], bs);
    assert (ls + [header])[..|ls|] == ls;
    open := Step(Fold(Start, ls), header);
  }

  /** A bare `>` record is dropped together with its sequence lines. */
  lemma ParseBareHeader(ls: seq<string>, header: string, bs: seq<string>)
    requires IsHeader(header) && HeaderKey(header) == ""
    requires forall k :: 0 <= k < |bs| ==> !IsHeader(bs[k])
    ensures ParseLines(ls + [header] + bs) == ParseLines(ls)
  {
    var open := OpenRecord(ls, header, bs);
    FoldBody(open, bs);
  }

  /** Lines before the first header are ignored. */
  lemma ParsePreamble(pre: seq<string>, ls: seq<string>)
    requires forall k :: 0 <= k < |pre| ==> !IsHeader(pre[k])
    ensures ParseLines(pre + ls) == ParseLines(ls)
  {
    FoldAppend(Start, pre, ls);
    FoldBody(Start, pre);
  }

  /** A blank line anywhere changes nothing. */
  lemma ParseBlank(a: seq<string>, blank: string, b: seq<string>)
    requires Blank(blank)
    ensures ParseLines(a + [blank] + b) == ParseLines(a + b)
  {
    FoldAppend(Start, a + [blank], b);
    FoldAppend(Start, a, b);
    assert (a + [blank])[..|a|] == a;
  }

  /** The invariant of the line loop: keys are distinct, truthy and stripped; nothing holds a newline. */
  predicate Good(st: State) {
    UniqueKeys(st.seqs)
    && (forall i :: 0 <= i < |st.seqs| ==>
          st.seqs[i].0 != "" && Strip(st.seqs[i].0) == st.seqs[i].0 && '\n' !in st.seqs[i].1)
    && Strip(st.header) == st.header
    && forall k :: 0 <= k < |st.lines| ==> '\n' !in st.lines[k]
  }

  lemma {:induction false} JoinWithout(parts: seq<string>, c: char)
    requires forall k :: 0 <= k < |parts| ==> c !in parts[k]
    ensures c !in Join(parts, "")
  {
    if |parts| > 1 {
      JoinWithout(parts[1..], c);
    }
  }

  lemma FlushGood(st: State)
    requires Good(st)
    ensures var d := Flush(st);
      UniqueKeys(d) && forall i :: 0 <= i < |d| ==> d[i].0 != "" && Strip(d[i].0) == d[i].0 && '\n' !in d[i].1
  {
    if st.header != "" {
      JoinWithout(st.lines, '\n');
    }
  }

  lemma StepGood(st: State, raw: string)
    requires Good(st) && '\n' !in raw
    ensures Good(Step(st, raw))
  {
    var line := Strip(raw);
    StripWithout(raw, '\n');
    if line != "" && line[0] == '>' {
      FlushGood(st);
      StripIdempotent(line[1..]);
    }
  }

  lemma {:induction false} FoldGood(ls: seq<string>)
    requires forall k :: 0 <= k < |ls| ==> '\n' !in ls[k]
    ensures Good(Fold(Start, ls))
    decreases |ls|
  {
    if ls != [] {
      var init := ls[..|ls| - 1];
      assert forall k :: 0 <= k < |init| ==> init[k] == ls[k];
      FoldGood(init);
      StepGood(Fold(Start, init), ls[|ls| - 1]);
      assert Fold(Start, ls) == Step(Fold(Start, init), ls[|ls| - 1]);
    }
  }

  /** Keys are distinct, non-empty and stripped, and no sequence contains a newline. */
  lemma ParseFastaShape(text: string)
    ensures var d := ParseFasta(text);
      UniqueKeys(d) && forall i :: 0 <= i < |d| ==> d[i].0 != "" && Strip(d[i].0) == d[i].0 && '\n' !in d[i].1
  {
    FoldGood(FastaLines(text));
    FlushGood(Fold(Start, FastaLines(text)));
  }
}
