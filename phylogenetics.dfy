/**
 * `get_alignment_statistics` of cotton_toolkit/pipelines/phylogenetics.py:
 * the size and gap content of an aligned FASTA text and the advice on
 * trimming it. The file's content is a parameter; the gap percentage is kept
 * as the exact ratio of gaps to characters.
 */
module Phylogenetics {
  import opened PyText

  /** The recommendation text, by band; `NoAdvice` is the empty text. */
  datatype Advice = NoAdvice | TrimAdvised | TrimOptional | TrimUnneeded

  datatype Stats = Stats(sequences: nat, length: nat, totalChars: nat, totalGaps: nat, advice: Advice)

  const Empty := Stats(0, 0, 0, 0, NoAdvice)

  /** `content.strip().split('>')[1:]` */
  function Entries(content: string): seq<string> {
    Split(Strip(content), '>')[1..]
  }

  /** `len(entry.split('\n', 1)[1].replace('\n', ''))`, or 0 when the entry has no newline. */
  function SequenceLength(entry: string): nat {
    var i := IndexOf(entry, '\n');
    if i == |entry| then 0 else |RemoveChar(entry[i + 1..], '\n')|
  }

  /** Whether the gap percentage `100 * gaps / chars` exceeds `p`; it is 0 when `chars` is 0. */
  predicate PercentAbove(gaps: nat, chars: nat, p: nat) {
    chars > 0 && 100 * gaps > p * chars
  }

  /** The band of the gap percentage. */
  function Band(gaps: nat, chars: nat): (a: Advice)
    ensures a == TrimAdvised <==> PercentAbove(gaps, chars, 20)
    ensures a == TrimOptional <==> PercentAbove(gaps, chars, 5) && !PercentAbove(gaps, chars, 20)
    ensures a == TrimUnneeded <==> !PercentAbove(gaps, chars, 5)
  {
    if PercentAbove(gaps, chars, 20) then TrimAdvised
    else if PercentAbove(gaps, chars, 5) then TrimOptional
    else TrimUnneeded
  }

  /** `sequences * length` */
  function Chars(sequences: nat, length: nat): nat {
    sequences * length
  }

  /** The statistics of an aligned FASTA text. */
  function AlignmentStats(content: string): (st: Stats)
    ensures st.totalChars == st.sequences * st.length
    ensures st.advice == NoAdvice <==> st.sequences == 0
    ensures st.sequences == 0 ==> st == Empty
  {
    var entries := Entries(content);
    if entries == [] then Empty
    else
      var n := |entries|;
      var len := SequenceLength(entries[0]);
      var gaps := CountChar(content, '-');
      var chars := Chars(n, len);
      Stats(n, len, chars, gaps, Band(gaps, chars))
  }

  // ----- Properties -----

  /** Without a `>` in the stripped text, the statistics are all zero with no advice; otherwise there is advice. */
  lemma NoEntries(content: string)
    ensures ('>' !in Strip(content)) <==> AlignmentStats(content) == Empty
    ensures AlignmentStats(content) != Empty ==> AlignmentStats(content).advice != NoAdvice
  {
    SplitCount(Strip(content), '>');
  }

  /** The number of sequences is the number of `>` in the stripped text. */
  lemma SequenceCount(content: string)
    ensures AlignmentStats(content).sequences == CountChar(Strip(content), '>')
  {
    SplitCount(Strip(content), '>');
  }

  /**
   * With at least one entry: the gaps are every `-` of the text, headers
   * included; the characters are sequences times length; and the length is
   * that of the first entry.
   */
  lemma StatsFields(content: string)
    requires '>' in Strip(content)
    ensures var st := AlignmentStats(content);
      st.totalGaps == CountChar(content, '-')
      && st.totalChars == Chars(st.sequences, st.length)
      && st.length == SequenceLength(Entries(content)[0])
      && st.advice == Band(st.totalGaps, st.totalChars)
  {
    SplitCount(Strip(content), '>');
  }

  /** The length of an entry `id\nline\nline...`: the lines without their separators. */
  lemma EntryLength(id: string, lines: seq<string>)
    requires '\n' !in id && lines != []
    requires forall k :: 0 <= k < |lines| ==> '\n' !in lines[k]
    ensures SequenceLength(id + "\n" + Join(lines, "\n")) == |ConcatAll(lines)|
  {
    var e := id + "\n" + Join(lines, "\n");
    IndexOfPrefix(id, '\n', "\n" + Join(lines, "\n"));
    assert e == id + ("\n" + Join(lines, "\n"));
    assert e[|id| + 1..] == Join(lines, "\n");
    RemoveJoin(lines);
  }

  function ConcatAll(lines: seq<string>): string {
    if lines == [] then "" else lines[0] + ConcatAll(lines[1..])
  }

  lemma {:induction false} RemoveJoin(lines: seq<string>)
    requires lines != []
    requires forall k :: 0 <= k < |lines| ==> '\n' !in lines[k]
    ensures RemoveChar(Join(lines, "\n"), '\n') == ConcatAll(lines)
  {
    RemoveNone(lines[0]);
    if |lines| > 1 {
      var rest := Join(lines[1..], "\n");
      assert Join(lines, "\n") == lines[0] + ("\n" + rest);
      assert RemoveChar(rest, '\n') == ConcatAll(lines[1..]) by {
        assert forall k :: 0 <= k < |lines[1..]| ==> lines[1..][k] == lines[k + 1];
        RemoveJoin(lines[1..]);
      }
      assert RemoveChar("\n" + rest, '\n') == RemoveChar(rest, '\n') by {
        RemoveAppend("\n", rest, '\n');
        assert RemoveChar("\n", '\n') == "";
      }
      RemoveAppend(lines[0], "\n" + rest, '\n');
    } else {
      assert ConcatAll(lines) == lines[0] + ConcatAll([]);
    }
  }

  lemma {:induction false} RemoveNone(s: string)
    requires '\n' !in s
    ensures RemoveChar(s, '\n') == s
  {
    if s != [] {
      RemoveNone(s[1..]);
    }
  }

  lemma {:induction false} RemoveAppend(a: string, b: string, c: char)
    ensures RemoveChar(a + b, c) == RemoveChar(a, c) + RemoveChar(b, c)
  {
    if a == [] {
      assert a + b == b;
    } else {
      assert (a + b)[1..] == a[1..] + b;
      RemoveAppend(a[1..], b, c);
    }
  }

  /** The rank of a band, from no trimming to trimming. */
  function Rank(a: Advice): nat {
    match a
    case NoAdvice => 0
    case TrimUnneeded => 1
    case TrimOptional => 2
    case TrimAdvised => 3
  }

  /** More gaps among as many characters never weaken the advice. */
  lemma BandMonotone(g1: nat, g2: nat, chars: nat)
    requires g1 <= g2
    ensures Rank(Band(g1, chars)) <= Rank(Band(g2, chars))
  {
  }
}
