/**
 * `check_config_compatibility` of cotton_toolkit/config/compatibility_check.py:
 * the level and the message for a configuration file's `config_version`
 * against the version the application expects (2), in English or
 * Simplified Chinese. The logging call is modelled by the text it logs.
 */
module Compatibility {
  import opened Wrappers
  import opened PyText
  import opened PyDict

  datatype Level = Info | Warning | Error

  datatype MessageKey = Compatible | IncompatibleOld | IncompatibleNew

  /** What the check returns, and the single line it logs at `level`. */
  datatype Report = Report(level: Level, text: string, logged: string)

  const LatestVersion := 2

  /** `str(i)` for an integer. */
  function IntToString(i: int): (s: string)
    ensures |s| >= 1
  {
    if i < 0 then "-" + NatToString(-i) else NatToString(i)
  }

  // ----- `str.format` with named fields -----

  /** A template as `str.format` reads it: literal text and `{name}` fields. */
  datatype Piece = Text(text: string) | Field(name: string)

  /**
   * `template.format(**args)`: literal text is copied and each field becomes
   * its argument; a field without an argument is a `KeyError`, returned as
   * `Err` with the field's name.
   */
  function Format(t: seq<Piece>, args: Dict<string, string>): (r: Result<string, string>)
    ensures r.Err? ==> exists k :: 0 <= k < |t| && t[k] == Field(r.error) && !HasKey(args, r.error)
    decreases |t|
  {
    if t == [] then Ok("")
    else
      var head := if t[0].Text? then Ok(t[0].text) else
        var v := Get(args, t[0].name);
        if v.Some? then Ok(v.value) else Err(t[0].name);
      var rest := Format(t[1..], args);
      if head.Err? then Err(head.error)
      else if rest.Err? then
        var k :| 0 <= k < |t[1..]| && t[1..][k] == Field(rest.error) && !HasKey(args, rest.error);
        assert t[k + 1] == t[1..][k];
        Err(rest.error)
      else Ok(head.value + rest.value)
  }

  /** A template of literal text, then a field, then more. */
  lemma FormatField(a: string, name: string, rest: seq<Piece>, args: Dict<string, string>)
    requires Get(args, name).Some? && Format(rest, args).Ok?
    ensures Format([Text(a), Field(name)] + rest, args) == Ok(a + Get(args, name).value + Format(rest, args).value)
  {
    var t := [Text(a), Field(name)] + rest;
    assert t[1..] == [Field(name)] + rest;
    assert t[1..][1..] == rest;
    var v := Get(args, name).value;
    assert Format(t[1..], args) == Ok(v + Format(rest, args).value);
    assert Format(t, args) == Ok(a + (v + Format(rest, args).value));
    assert a + (v + Format(rest, args).value) == a + v + Format(rest, args).value;
  }

  /** Literal text alone formats to itself. */
  lemma FormatText(c: string, args: Dict<string, string>)
    ensures Format([Text(c)], args) == Ok(c)
  {
    assert [Text(c)][1..] == [];
    assert c + "" == c;
  }

  // ----- The messages -----

  const EnCompatibleA := "Configuration file version ("
  const EnCompatibleB := ") is compatible."
  const EnOldA := "Configuration File Incompatible!\n\nYou are using an outdated version ("
  const EnOldB := "),\nwhile the application requires version ("
  const EnOldC := ").\n\nPlease update or regenerate your configuration file."
  const EnNewA := "Configuration file version is newer than expected.\n\nFile Version: "
  const EnNewB := "\nApplication Version: "
  const EnNewC := "\n\nWhile this may be backward-compatible, for best stability,\nusing the matching configuration version is recommended."
  const ZhCompatibleA := "配置文件版本 ("
  const ZhCompatibleB := ") 兼容，检查通过。"
  const ZhOldA := "配置文件不兼容！\n\n您使用的是过时的版本 ("
  const ZhOldB := ")，\n而应用程序需要版本 ("
  const ZhOldC := ")。\n\n请更新或重新生成您的配置文件。"
  const ZhNewA := "配置文件版本高于预期。\n\n文件版本: "
  const ZhNewB := "\n应用版本: "
  const ZhNewC := "\n\n这通常可以向后兼容，但为确保最佳稳定性，\n建议使用与应用程序匹配的配置文件。"

  /** The languages of the message table. */
  predicate Supported(language: string) {
    language == "en" || language == "zh-hans"
  }

  /** The language used: the requested one when the table has it, else English. */
  function Language(language: string): (l: string)
    ensures Supported(l)
    ensures Supported(language) ==> l == language
  {
    if Supported(language) then language else "en"
  }

  /** The template for a message in a supported language. */
  function Template(language: string, key: MessageKey): seq<Piece>
    requires Supported(language)
  {
    if language == "en" then
      match key
      case Compatible => [Text(EnCompatibleA), Field("version"), Text(EnCompatibleB)]
      case IncompatibleOld => [Text(EnOldA), Field("file_version"), Text(EnOldB), Field("latest_version"), Text(EnOldC)]
      case IncompatibleNew => [Text(EnNewA), Field("file_version"), Text(EnNewB), Field("latest_version"), Text(EnNewC)]
    else
      match key
      case Compatible => [Text(ZhCompatibleA), Field("version"), Text(ZhCompatibleB)]
      case IncompatibleOld => [Text(ZhOldA), Field("file_version"), Text(ZhOldB), Field("latest_version"), Text(ZhOldC)]
      case IncompatibleNew => [Text(ZhNewA), Field("file_version"), Text(ZhNewB), Field("latest_version"), Text(ZhNewC)]
  }

  /** The level: an older file is an error, a newer one a warning, the expected one information. */
  function LevelOf(version: int): (l: Level)
    ensures l == Error <==> version < LatestVersion
    ensures l == Warning <==> version > LatestVersion
    ensures l == Info <==> version == LatestVersion
  {
    if version < LatestVersion then Error
    else if version > LatestVersion then Warning
    else Info
  }

  /** The message key that goes with a level. */
  function KeyOf(l: Level): MessageKey {
    match l
    case Info => Compatible
    case Error => IncompatibleOld
    case Warning => IncompatibleNew
  }

  /** The format arguments: the version for a compatible file, both versions otherwise. */
  function ArgsOf(version: int): Dict<string, string> {
    if LevelOf(version) == Info then [("version", IntToString(version))]
    else [("file_version", IntToString(version)), ("latest_version", IntToString(LatestVersion))]
  }

  /** The whole check; `Err` would be the exception `format` raises. */
  function CheckCompatibility(version: int, language: string): (r: Result<Report, string>)
    ensures r.Ok? ==> (r.value.level == Error <==> version < LatestVersion)
    ensures r.Ok? ==> (r.value.level == Warning <==> version > LatestVersion)
    ensures r.Ok? ==> '\n' !in r.value.logged && |r.value.logged| == |r.value.text|
  {
    var level := LevelOf(version);
    var text := Format(Template(Language(language), KeyOf(level)), ArgsOf(version));
    if text.Err? then Err(text.error)
    else Ok(Report(level, text.value, ReplaceChar(text.value, '\n', ' ')))
  }

  // ----- Properties -----

  /** The key follows the level, and each level has its own key. */
  lemma KeyFollowsLevel(version: int)
    ensures KeyOf(LevelOf(version)) == Compatible <==> version == LatestVersion
    ensures KeyOf(LevelOf(version)) == IncompatibleOld <==> version < LatestVersion
    ensures KeyOf(LevelOf(version)) == IncompatibleNew <==> version > LatestVersion
  {
  }

  /** A language the table lacks gives exactly the English report. */
  lemma Fallback(version: int, language: string)
    requires !Supported(language)
    ensures CheckCompatibility(version, language) == CheckCompatibility(version, "en")
  {
  }

  /** The message with the file's version `v` written in, as it reads in the table. */
  function MessageText(language: string, key: MessageKey, v: string): string
    requires Supported(language)
  {
    if language == "en" then
      match key
      case Compatible => EnCompatibleA + v + EnCompatibleB
      case IncompatibleOld => EnOldA + v + EnOldB + "2" + EnOldC
      case IncompatibleNew => EnNewA + v + EnNewB + "2" + EnNewC
    else
      match key
      case Compatible => ZhCompatibleA + v + ZhCompatibleB
      case IncompatibleOld => ZhOldA + v + ZhOldB + "2" + ZhOldC
      case IncompatibleNew => ZhNewA + v + ZhNewB + "2" + ZhNewC
  }

  lemma FormatOne(a: string, f: string, c: string, args: Dict<string, string>)
    requires Get(args, f).Some?
    ensures Format([Text(a), Field(f), Text(c)], args) == Ok(a + Get(args, f).value + c)
  {
    FormatText(c, args);
    FormatField(a, f, [Text(c)], args);
  }

  lemma FormatTwo(a: string, f: string, b: string, g: string, c: string, args: Dict<string, string>)
    requires Get(args, f).Some? && Get(args, g).Some?
    ensures Format([Text(a), Field(f), Text(b), Field(g), Text(c)], args)
      == Ok(a + Get(args, f).value + b + Get(args, g).value + c)
  {
    FormatOne(b, g, c, args);
    FormatField(a, f, [Text(b), Field(g), Text(c)], args);
    assert [Text(a), Field(f)] + [Text(b), Field(g), Text(c)] == [Text(a), Field(f), Text(b), Field(g), Text(c)];
    var x, y := Get(args, f).value, Get(args, g).value;
    assert a + x + (b + y + c) == a + x + b + y + c;
  }

  /** Every message formats without an exception, to its text with the versions written in. */
  lemma Texts(version: int, language: string)
    ensures var r := CheckCompatibility(version, language);
      r.Ok? && r.value.level == LevelOf(version)
      && r.value.text == MessageText(Language(language), KeyOf(LevelOf(version)), IntToString(version))
  {
    var v := IntToString(version);
    var args := ArgsOf(version);
    var lang := Language(language);
    var t := Template(lang, KeyOf(LevelOf(version)));
    assert IntToString(LatestVersion) == "2";
    if version == LatestVersion {
      assert Get(args, "version") == Some(v);
      FormatOne(t[0].text, "version", t[2].text, args);
    } else {
      assert Get(args, "file_version") == Some(v);
      assert Get(args, "latest_version") == Some("2");
      FormatTwo(t[0].text, "file_version", t[2].text, "latest_version", t[4].text, args);
    }
  }

  /** The logged line is the returned text on one line: newlines become spaces, nothing else changes. */
  lemma LoggedLine(version: int, language: string)
    requires CheckCompatibility(version, language).Ok?
    ensures var r := CheckCompatibility(version, language).value;
      |r.logged| == |r.text| && '\n' !in r.logged
      && forall i :: 0 <= i < |r.text| && r.text[i] != '\n' ==> r.logged[i] == r.text[i]
  {
  }
}
