/**
 * The deterministic parts of cotton_toolkit/locales/translator.py, a tool
 * that fills a gettext catalogue by asking a chat model: the choice of the
 * interface language, the clean-up of a reply, which entries are sent, the
 * update of a copy of the catalogue with the answers, and the name of the
 * file each language is saved to. The system locale and the model's replies
 * are parameters.
 */
module Translator {
  import opened Wrappers
  import opened PyText

  // ----- Interface language -----

  /** The languages the interface has string tables for, which are also the `--ui-lang` choices. */
  predicate HasTable(code: string) {
    code == "en" || code == "ja" || code == "zh-CN" || code == "zh-TW"
  }

  /** `getlocale(LC_MESSAGES)[0] or getdefaultlocale()[0]` */
  function LocaleCode(primary: Option<string>, fallback: Option<string>): Option<string> {
    if primary.Some? && primary.value != "" then primary else fallback
  }

  predicate ZhSimplified(low: string) { Contains(low, "cn") || Contains(low, "sg") }

  predicate ZhTraditional(low: string) { Contains(low, "tw") || Contains(low, "hk") || Contains(low, "mo") }

  /**
   * `detect_best_ui_language`: `raised` says the locale query raised. A
   * Chinese locale naming China or Singapore is Simplified even when it also
   * names Taiwan, Hong Kong or Macau; other Chinese locales with one of those
   * are Traditional, the rest Simplified.
   */
  function DetectUiLanguage(raised: bool, primary: Option<string>, fallback: Option<string>): (r: string)
    ensures HasTable(r)
    ensures var c := LocaleCode(primary, fallback);
      var low := if c.Some? then Lower(c.value) else "";
      var known := !raised && c.Some? && c.value != "";
      (r == "zh-TW" <==> known && StartsWith(low, "zh") && !ZhSimplified(low) && ZhTraditional(low))
      && (r == "zh-CN" <==> known && StartsWith(low, "zh") && (ZhSimplified(low) || !ZhTraditional(low)))
      && (r == "ja" <==> known && !StartsWith(low, "zh") && StartsWith(low, "ja"))
      && (r == "en" <==> !known || (!StartsWith(low, "zh") && !StartsWith(low, "ja")))
  {
    if raised then "en"
    else
      var c := LocaleCode(primary, fallback);
      if c.None? || c.value == "" then "en"
      else
        var low := Lower(c.value);
        if StartsWith(low, "zh") then
          if ZhSimplified(low) then "zh-CN"
          else if ZhTraditional(low) then "zh-TW"
          else "zh-CN"
        else if StartsWith(low, "ja") then "ja"
        else "en"
  }

  /**
   * The interface language of `main`: the word after the first `--ui-lang`
   * on the command line, read before the arguments are validated, else the
   * detected one; a trailing `--ui-lang` is an `IndexError`.
   */
  function UiLanguage(argv: seq<string>, detected: string): (r: Result<string, string>)
    ensures "--ui-lang" !in argv ==> r == Ok(detected)
    ensures forall i :: 0 <= i < |argv| - 1 && argv[i] == "--ui-lang" && "--ui-lang" !in argv[..i] ==> r == Ok(argv[i + 1])
    ensures r.Err? <==> |argv| > 0 && argv[|argv| - 1] == "--ui-lang" && "--ui-lang" !in argv[..|argv| - 1]
  {
    var i := IndexOfWord(argv, "--ui-lang");
    if i == |argv| then Ok(detected)
    else if i + 1 == |argv| then Err("IndexError")
    else Ok(argv[i + 1])
  }

  function IndexOfWord(argv: seq<string>, w: string): (i: nat)
    ensures i <= |argv| && (i < |argv| ==> argv[i] == w)
    ensures forall j :: 0 <= j < i ==> argv[j] != w
  {
    if argv == [] then 0 else if argv[0] == w then 0 else 1 + IndexOfWord(argv[1..], w)
  }

  /** `i18n.get(code, i18n['en'])`: the key of the string table used. */
  function StringTable(code: string): (t: string)
    ensures HasTable(t)
    ensures t == code <==> HasTable(code)
  {
    if HasTable(code) then code else "en"
  }

  // ----- Replies -----

  predicate IsQuote(c: char) { c == '"' || c == '\'' }

  /** A reply that starts and ends with a quote, not necessarily the same one, loses its first and last character. */
  function StripQuotes(t: string): (r: string)
    ensures |t| >= 2 && IsQuote(t[0]) && IsQuote(t[|t| - 1]) ==> r == t[1..|t| - 1]
    ensures |t| == 1 && IsQuote(t[0]) ==> r == ""
    ensures !(|t| >= 1 && IsQuote(t[0]) && IsQuote(t[|t| - 1])) ==> r == t
  {
    if |t| >= 1 && IsQuote(t[0]) && IsQuote(t[|t| - 1]) then
      if |t| == 1 then "" else t[1..|t| - 1]
    else t
  }

  /** The outcome of `translate_text`: whether a request was made, and the text returned. */
  datatype Translation = Translation(requested: bool, text: string)

  /** `translate_text`, given the reply the model would send for `text`. */
  function TranslateText(text: string, reply: string -> string): (r: Translation)
    ensures !r.requested <==> Strip(text) == ""
    ensures !r.requested ==> r.text == ""
    ensures r.requested ==> r.text == StripQuotes(Strip(reply(text)))
  {
    if Strip(text) == "" then Translation(false, "")
    else Translation(true, StripQuotes(Strip(reply(text))))
  }

  // ----- Catalogue entries -----

  /** A catalogue entry as the tool reads and writes it. */
  datatype PoEntry = PoEntry(msgid: string, msgstr: string, msgstrPlural: seq<string>, flags: seq<string>, obsolete: bool)

  /**
   * The catalogue library's `translated()`: not obsolete, not fuzzy, and
   * either a non-empty `msgstr` or plural forms that are all non-empty.
   */
  predicate Translated(e: PoEntry)
    ensures Translated(e) ==> !e.obsolete && (e.msgstr != "" || e.msgstrPlural != [])
  {
    !e.obsolete && "fuzzy" !in e.flags
    && (e.msgstr != "" || (e.msgstrPlural != [] && forall k :: 0 <= k < |e.msgstrPlural| ==> e.msgstrPlural[k] != ""))
  }

  /** `[e for e in po if not e.translated() and not e.obsolete]` */
  function ToTranslate(po: seq<PoEntry>): (r: seq<PoEntry>)
    ensures |r| <= |po|
    decreases |po|
  {
    if po == [] then []
    else
      var e := po[|po| - 1];
      ToTranslate(po[..|po| - 1]) + (if !Translated(e) && !e.obsolete then [e] else [])
  }

  /**
   * What the workers collect: the cleaned reply for each entry with a
   * non-empty `msgid`, when that reply is not empty.
   */
  function Results(entries: seq<PoEntry>, reply: string -> string): (m: map<string, string>)
    ensures forall id :: id in m ==> id != "" && m[id] != ""
    decreases |entries|
  {
    if entries == [] then map[]
    else
      var m := Results(entries[..|entries| - 1], reply);
      var id := entries[|entries| - 1].msgid;
      if id != "" && TranslateText(id, reply).text != "" then m[id := TranslateText(id, reply).text] else m
  }

  /** `list.remove(x)`: drops the first occurrence of `x` and keeps the rest in order. */
  function RemoveFirst(xs: seq<string>, x: string): (r: seq<string>)
    requires x in xs
    ensures |r| == |xs| - 1
    ensures multiset(r) == multiset(xs) - multiset{x}
    ensures var i := IndexOfWord(xs, x); i < |xs| && r == xs[..i] + xs[i + 1..]
  {
    var i := IndexOfWord(xs, x);
    assert xs == xs[..i] + [x] + xs[i + 1..];
    xs[..i] + xs[i + 1..]
  }

  /** The occurrence that `RemoveFirst` drops is the first one. */
  lemma RemoveFirstOrder(xs: seq<string>, x: string)
    requires x in xs
    ensures exists i :: 0 <= i < |xs| && xs[i] == x && x !in xs[..i] && RemoveFirst(xs, x) == xs[..i] + xs[i + 1..]
  {
    var i := IndexOfWord(xs, x);
    assert x !in xs[..i];
  }

  /** One entry after the update loop. */
  function Updated(e: PoEntry, results: map<string, string>): (u: PoEntry)
    ensures u.msgid == e.msgid && u.msgstrPlural == e.msgstrPlural && u.obsolete == e.obsolete
    ensures e.msgid in results ==> u.msgstr == results[e.msgid]
    ensures e.msgid in results ==> |u.flags| == if "fuzzy" in e.flags then |e.flags| - 1 else |e.flags|
    ensures e.msgid !in results ==> u == e
  {
    if e.msgid in results then
      e.(msgstr := results[e.msgid], flags := if "fuzzy" in e.flags then RemoveFirst(e.flags, "fuzzy") else e.flags)
    else e
  }

  /** The number of entries whose `msgid` has a result. */
  function CountUpdated(po: seq<PoEntry>, results: map<string, string>): (n: nat)
    ensures n <= |po|
    decreases |po|
  {
    if po == [] then 0
    else CountUpdated(po[..|po| - 1], results) + (if po[|po| - 1].msgid in results then 1 else 0)
  }

  /** The update loop over the copied catalogue. */
  method UpdateEntries(po: array<PoEntry>, results: map<string, string>) returns (updatedCount: nat)
    modifies po
    ensures forall i :: 0 <= i < po.Length ==> po[i] == Updated(old(po[i]), results)
    ensures updatedCount == CountUpdated(old(po[..]), results)
  {
    ghost var original := po[..];
    updatedCount := 0;
    for i := 0 to po.Length
      invariant forall j :: 0 <= j < i ==> po[j] == Updated(original[j], results)
      invariant forall j :: i <= j < po.Length ==> po[j] == original[j]
      invariant updatedCount == CountUpdated(original[..i], results)
    {
      CountStep(original, i, results);
      var entry := po[i];
      if entry.msgid in results {
        entry := entry.(msgstr := results[entry.msgid]);
        if "fuzzy" in entry.flags {
          entry := entry.(flags := RemoveFirst(entry.flags, "fuzzy"));
        }
        assert entry == Updated(original[i], results);
        po[i] := entry;
        updatedCount := updatedCount + 1;
      } else {
        assert entry == Updated(original[i], results);
      }
    }
    assert original[..po.Length] == original;
  }

  lemma CountStep(po: seq<PoEntry>, i: nat, results: map<string, string>)
    requires i < |po|
    ensures CountUpdated(po[..i + 1], results) == CountUpdated(po[..i], results) + (if po[i].msgid in results then 1 else 0)
  {
    assert po[..i + 1][..i] == po[..i];
  }

  // ----- Output file -----

  /** The index of the last `c` in `s`, or -1. */
  function LastIndexOf(s: string, c: char): (i: int)
    ensures -1 <= i < |s|
    ensures i >= 0 ==> s[i] == c
    ensures forall j :: i < j < |s| ==> s[j] != c
  {
    if s == [] then -1
    else if s[|s| - 1] == c then |s| - 1
    else LastIndexOf(s[..|s| - 1], c)
  }

  /** Whether some character of `p` strictly between `lo` and `hi` is not a dot. */
  predicate NonDotBetween(p: string, lo: int, hi: int)
    requires -1 <= lo && hi <= |p|
  {
    exists k :: lo < k < hi && p[k] != '.'
  }

  /**
   * POSIX `os.path.splitext`: the extension starts at the last `.` of the
   * last path component, unless only dots precede it there.
   */
  function SplitExt(p: string): (r: (string, string))
    ensures r.0 + r.1 == p
    ensures r.1 == "" || r.1[0] == '.'
  {
    var slash := LastIndexOf(p, '/');
    var dot := LastIndexOf(p, '.');
    if dot > slash && NonDotBetween(p, slash, dot) then (p[..dot], p[dot..]) else (p, "")
  }

  /** The two parts make up the path, and an extension is a dot followed by neither a dot nor a slash. */
  lemma SplitExtParts(p: string)
    ensures var (base, ext) := SplitExt(p);
      base + ext == p && (ext == "" || (ext[0] == '.' && '/' !in ext && '.' !in ext[1..]))
  {
    var slash := LastIndexOf(p, '/');
    var dot := LastIndexOf(p, '.');
    if dot > slash && NonDotBetween(p, slash, dot) {
      var ext := p[dot..];
      assert p[..dot] + ext == p;
      forall j | 0 <= j < |ext| ensures ext[j] != '/' && (j > 0 ==> ext[j] != '.') {
        assert ext[j] == p[dot + j];
      }
      assert '.' !in ext[1..] by {
        forall j | 0 <= j < |ext[1..]| ensures ext[1..][j] != '.' { assert ext[1..][j] == ext[j + 1]; }
      }
    }
  }

  /** `lang.split()[0].lower()`: the first whitespace-separated word, lower-cased; a blank `lang` is an `IndexError`. */
  function LanguageCode(lang: string): (r: Result<string, string>)
    ensures r.Ok? ==> r.value != "" && NoSpace(r.value) && Lower(r.value) == r.value
    ensures r.Err? <==> Strip(lang) == ""
  {
    var t := LStrip(lang);
    var n := IndexWhere(t, IsSpace);
    if n == 0 then
      StripBlank(lang);
      Err("IndexError")
    else
      CodeWord(t, n);
      StripNotBlank(lang, t);
      Ok(Lower(t[..n]))
  }

  /** The lower-cased first word is not empty, has no whitespace and is already lower case. */
  lemma CodeWord(t: string, n: nat)
    requires n == IndexWhere(t, IsSpace) && n > 0
    ensures var w := Lower(t[..n]); w != "" && NoSpace(w) && Lower(w) == w
  {
    var w := t[..n];
    LowerIdempotent(w);
    forall i | 0 <= i < n ensures !IsSpace(Lower(w)[i]) {
      assert Lower(w)[i] == LowerChar(w[i]);
    }
  }

  lemma StripBlank(lang: string)
    requires var t := LStrip(lang); IndexWhere(t, IsSpace) == 0
    ensures Strip(lang) == ""
  {
    var t := LStrip(lang);
    if t != [] {
      assert false;
    }
  }

  lemma StripNotBlank(lang: string, t: string)
    requires t == LStrip(lang) && IndexWhere(t, IsSpace) > 0
    ensures Strip(lang) != ""
  {
    assert !IsSpace(t[0]);
  }

  /** `f"{base}.{code}{ext}"` for the catalogue's path. */
  function OutputFile(file: string, lang: string): Result<string, string> {
    var code := LanguageCode(lang);
    if code.Err? then Err(code.error)
    else
      var (base, ext) := SplitExt(file);
      Ok(base + "." + code.value + ext)
  }

  /** Every entry of a catalogue after the update loop. */
  function UpdatedAll(po: seq<PoEntry>, results: map<string, string>): (r: seq<PoEntry>)
    ensures |r| == |po| && forall i :: 0 <= i < |po| ==> r[i] == Updated(po[i], results)
  {
    if po == [] then [] else [Updated(po[0], results)] + UpdatedAll(po[1..], results)
  }

  /** What one target language comes to. */
  datatype Outcome =
    | NoResults
    | Saved(entries: seq<PoEntry>, updated: nat, language: string, file: string)
    | Crashed

  /**
   * One pass of `main`'s loop over the target languages: no results skip the
   * language; otherwise a copy of the catalogue is updated, tagged with the
   * language code and saved beside the original.
   */
  method ProcessLanguage(original: seq<PoEntry>, results: map<string, string>, lang: string, file: string)
      returns (o: Outcome)
    ensures o == NoResults <==> results == map[]
    ensures o == Crashed <==> results != map[] && Strip(lang) == ""
    ensures o.Saved? ==> (o.entries == UpdatedAll(original, results) && o.updated == CountUpdated(original, results)
      && LanguageCode(lang) == Ok(o.language) && OutputFile(file, lang) == Ok(o.file))
  {
    if results == map[] {
      return NoResults;
    }
    var copy := new PoEntry[|original|](i requires 0 <= i < |original| => original[i]);
    assert copy[..] == original;
    var updated := UpdateEntries(copy, results);
    assert copy[..] == UpdatedAll(original, results);
    var code := LanguageCode(lang);
    if code.Err? {
      return Crashed;
    }
    var (base, ext) := SplitExt(file);
    o := Saved(copy[..], updated, code.value, base + "." + code.value + ext);
  }

  // ----- Properties -----

  /** The detected language always has a string table, so the English fallback is never needed for it. */
  lemma DetectedHasTable(raised: bool, primary: Option<string>, fallback: Option<string>)
    ensures StringTable(DetectUiLanguage(raised, primary, fallback)) == DetectUiLanguage(raised, primary, fallback)
  {
  }

  /** A reply wrapped in quotes comes back without exactly those two characters. */
  lemma QuotedReply(q1: char, s: string, q2: char)
    requires IsQuote(q1) && IsQuote(q2)
    ensures StripQuotes([q1] + s + [q2]) == s
  {
    var t := [q1] + s + [q2];
    assert t[1..|t| - 1] == s;
  }

  /** An entry is sent exactly when it is in the catalogue, not translated and not obsolete. */
  lemma {:induction false} SelectedExactly(po: seq<PoEntry>, e: PoEntry)
    ensures e in ToTranslate(po) <==> e in po && !Translated(e) && !e.obsolete
    decreases |po|
  {
    if po != [] {
      SelectedExactly(po[..|po| - 1], e);
      assert po == po[..|po| - 1] + [po[|po| - 1]];
    }
  }

  /** Whether some entry has `msgid` `id`. */
  predicate HasId(entries: seq<PoEntry>, id: string) {
    exists k :: 0 <= k < |entries| && entries[k].msgid == id
  }

  lemma HasIdSnoc(entries: seq<PoEntry>, id: string)
    requires entries != []
    ensures HasId(entries, id) <==> HasId(entries[..|entries| - 1], id) || entries[|entries| - 1].msgid == id
  {
    var init := entries[..|entries| - 1];
    if HasId(entries, id) {
      var k :| 0 <= k < |entries| && entries[k].msgid == id;
      if k < |init| { assert init[k] == entries[k]; }
    }
    if HasId(init, id) {
      var k :| 0 <= k < |init| && init[k].msgid == id;
      assert entries[k] == init[k];
    }
  }

  /** A result is kept for every entry with a `msgid` whose cleaned reply is not empty, and for no other text. */
  lemma {:induction false} ResultsExactly(entries: seq<PoEntry>, reply: string -> string, id: string)
    ensures id in Results(entries, reply) <==> id != "" && TranslateText(id, reply).text != "" && HasId(entries, id)
    decreases |entries|
  {
    if entries != [] {
      ResultsExactly(entries[..|entries| - 1], reply, id);
      HasIdSnoc(entries, id);
    }
  }

  /** Each kept result is the cleaned reply for its `msgid`. */
  lemma {:induction false} ResultsValue(entries: seq<PoEntry>, reply: string -> string, id: string)
    requires id in Results(entries, reply)
    ensures Results(entries, reply)[id] == TranslateText(id, reply).text
    decreases |entries|
  {
    var init := entries[..|entries| - 1];
    if id in Results(init, reply) {
      ResultsValue(init, reply, id);
    }
  }

  /**
   * An updated entry carries its result and one `fuzzy` flag fewer; when the
   * result is not empty, the entry is live and had at most one `fuzzy` flag,
   * it now counts as translated.
   */
  lemma UpdatedEntry(e: PoEntry, results: map<string, string>)
    requires e.msgid in results
    ensures var u := Updated(e, results);
      u.msgid == e.msgid && u.msgstr == results[e.msgid] && u.obsolete == e.obsolete
      && multiset(u.flags) == multiset(e.flags) - multiset{"fuzzy"}
      && (results[e.msgid] != "" && !e.obsolete && multiset(e.flags)["fuzzy"] <= 1 ==> Translated(u))
  {
    var u := Updated(e, results);
    if "fuzzy" !in e.flags {
      assert multiset(e.flags)["fuzzy"] == 0;
    }
    if results[e.msgid] != "" && !e.obsolete && multiset(e.flags)["fuzzy"] <= 1 {
      assert multiset(u.flags)["fuzzy"] == 0;
    }
  }

  /** Entries without a result are left as they were. */
  lemma NotUpdated(e: PoEntry, results: map<string, string>)
    requires e.msgid !in results
    ensures Updated(e, results) == e
  {
  }

  /**
   * The output sits beside the catalogue: its name is the catalogue's with
   * `.` and the language code inserted before the extension, so it is never
   * the catalogue itself.
   */
  lemma OutputBeside(file: string, lang: string)
    requires OutputFile(file, lang).Ok?
    ensures var out := OutputFile(file, lang).value;
      var (base, ext) := SplitExt(file);
      var code := LanguageCode(lang).value;
      out == base + "." + code + ext && base + ext == file && out != file && |out| == |file| + 1 + |code|
  {
    SplitExtParts(file);
  }
}
