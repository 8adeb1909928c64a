/**
 * The configuration data models of cotton_toolkit/config/models.py: building
 * a model from a plain dictionary (`from_dict`), the dictionary-style
 * accessors, `to_dict` and the cleaning `MainConfig.to_dict` applies before a
 * configuration is saved, and the default homology selection criteria.
 *
 * Configuration values are the YAML-like `Value`s below. A dataclass is
 * described by its `Schema`: the fields in declaration order, each with its
 * default and with how a nested value is converted.
 */
module ConfigModels {
  import opened Wrappers
  import opened PyDict

  datatype Value =
    | VNone
    | VBool(b: bool)
    | VNum(n: int)
    | VReal(r: real)
    | VStr(s: string)
    | VList(items: seq<Value>)
    | VMap(entries: Dict<string, Value>)
    /** A dataclass instance, with its fields in declaration order. */
    | VObj(attrs: Dict<string, Value>)

  /** A field's default: a constant, the value its factory builds, or none. */
  datatype FieldDefault = Given(value: Value) | Factory(built: Value) | NoDefault

  /** How `from_dict` converts a field's value. */
  datatype Kind =
    | Plain                    // any other type: kept verbatim
    | Nested(schema: Schema)   // a dataclass
    | DictOf(schema: Schema)   // Dict[str, dataclass]
    | ListOf(schema: Schema)   // List[dataclass]

  datatype Field = Field(name: string, default: FieldDefault, kind: Kind)

  datatype Schema = Schema(fields: seq<Field>)

  function Names(s: Schema): (ns: seq<string>)
    ensures |ns| == |s.fields| && forall i :: 0 <= i < |ns| ==> ns[i] == s.fields[i].name
  {
    seq(|s.fields|, i requires 0 <= i < |s.fields| => s.fields[i].name)
  }

  // ----- from_dict -----

  /** The value a field takes when the input has no value for it, or `None`. */
  function DefaultOf(f: Field): Value {
    match f.default
    case Given(v) => v
    case Factory(v) => v
    case NoDefault => VNone
  }

  /** Fields `0 .. n-1` of the instance built from `data`. */
  function InstanceData(s: Schema, data: Dict<string, Value>, n: nat): (d: Dict<string, Value>)
    requires n <= |s.fields|
    ensures |d| == n && forall i :: 0 <= i < n ==> d[i].0 == s.fields[i].name
    decreases s, n, 0
  {
    if n == 0 then []
    else
      var f := s.fields[n - 1];
      InstanceData(s, data, n - 1) + [(f.name, FieldValue(s, n - 1, Get(data, f.name)))]
  }

  /** The value of field `i` of `s` given the input's value for it. */
  function FieldValue(s: Schema, i: nat, given: Option<Value>): Value
    requires i < |s.fields|
    decreases s, i, 1
  {
    var f := s.fields[i];
    if given.None? || given.value.VNone? then DefaultOf(f)
    else
      var v := given.value;
      match f.kind
      case Plain => v
      case Nested(t) => if v.VMap? then VObj(InstanceData(t, v.entries, |t.fields|)) else v
      case DictOf(t) => if v.VMap? then VMap(ConvertEntries(t, v.entries, |v.entries|)) else VMap([])
      case ListOf(t) => if v.VList? then VList(ConvertItems(t, v.items, |v.items|)) else VList([])
  }

  /** The values of a `Dict[str, dataclass]` field: dictionaries become instances, anything else is kept. */
  function ConvertEntries(t: Schema, es: Dict<string, Value>, m: nat): (r: Dict<string, Value>)
    requires m <= |es|
    ensures |r| == m && forall i :: 0 <= i < m ==> r[i].0 == es[i].0
    decreases t, |t.fields| + 1, m
  {
    if m == 0 then []
    else
      var (k, v) := es[m - 1];
      ConvertEntries(t, es, m - 1) + [(k, if v.VMap? then VObj(InstanceData(t, v.entries, |t.fields|)) else v)]
  }

  /** The items of a `List[dataclass]` field: dictionaries become instances, anything else is kept. */
  function ConvertItems(t: Schema, items: seq<Value>, m: nat): (r: seq<Value>)
    requires m <= |items|
    ensures |r| == m
    decreases t, |t.fields| + 1, m
  {
    if m == 0 then []
    else
      var v := items[m - 1];
      ConvertItems(t, items, m - 1) + [if v.VMap? then VObj(InstanceData(t, v.entries, |t.fields|)) else v]
  }

  /** `cls.from_dict(data)` */
  function FromDict(s: Schema, data: Dict<string, Value>): (r: Value)
    ensures r.VObj? && |r.attrs| == |s.fields|
    ensures forall i :: 0 <= i < |s.fields| ==> r.attrs[i].0 == s.fields[i].name
  {
    VObj(InstanceData(s, data, |s.fields|))
  }

  /** The field loop of `from_dict`, filling `instance_data`. */
  method FromDictLoop(s: Schema, data: Dict<string, Value>) returns (obj: Value)
    ensures obj == FromDict(s, data)
  {
    var instance: Dict<string, Value> := [];
    for i := 0 to |s.fields|
      invariant instance == InstanceData(s, data, i)
    {
      var f := s.fields[i];
      var given := Get(data, f.name);
      instance := instance + [(f.name, FieldValue(s, i, given))];
    }
    obj := VObj(instance);
  }

  /** The instance has exactly the schema's fields, in order, with no value from any other key. */
  lemma FromDictFields(s: Schema, data: Dict<string, Value>)
    ensures FromDict(s, data).VObj?
    ensures Keys(FromDict(s, data).attrs) == Names(s)
    ensures forall i :: 0 <= i < |s.fields| ==>
      FromDict(s, data).attrs[i].1 == FieldValue(s, i, Get(data, s.fields[i].name))
  {
    FieldsUpTo(s, data, |s.fields|);
  }

  lemma {:induction false} FieldsUpTo(s: Schema, data: Dict<string, Value>, n: nat)
    requires n <= |s.fields|
    ensures forall i :: 0 <= i < n ==> InstanceData(s, data, n)[i].1 == FieldValue(s, i, Get(data, s.fields[i].name))
  {
    if n > 0 {
      FieldsUpTo(s, data, n - 1);
      var d := InstanceData(s, data, n);
      assert d == InstanceData(s, data, n - 1) + [(s.fields[n - 1].name, FieldValue(s, n - 1, Get(data, s.fields[n - 1].name)))];
    }
  }

  /** A field absent from the input or given as `None` takes its default, else its factory's value, else `None`. */
  lemma MissingTakesDefault(s: Schema, data: Dict<string, Value>, i: nat)
    requires i < |s.fields|
    requires var g := Get(data, s.fields[i].name); g.None? || g.value.VNone?
    ensures FromDict(s, data).attrs[i].1 == DefaultOf(s.fields[i])
  {
    FromDictFields(s, data);
  }

  /** A plain field keeps the input's value verbatim. */
  lemma PlainVerbatim(s: Schema, data: Dict<string, Value>, i: nat, v: Value)
    requires i < |s.fields| && s.fields[i].kind.Plain?
    requires Get(data, s.fields[i].name) == Some(v) && !v.VNone?
    ensures FromDict(s, data).attrs[i].1 == v
  {
    FromDictFields(s, data);
  }

  /** Keys that are not fields are ignored: inputs that agree on the field names give the same instance. */
  lemma ExtraKeysIgnored(s: Schema, d1: Dict<string, Value>, d2: Dict<string, Value>)
    requires forall i :: 0 <= i < |s.fields| ==> Get(d1, s.fields[i].name) == Get(d2, s.fields[i].name)
    ensures FromDict(s, d1) == FromDict(s, d2)
  {
    AgreeUpTo(s, d1, d2, |s.fields|);
  }

  lemma {:induction false} AgreeUpTo(s: Schema, d1: Dict<string, Value>, d2: Dict<string, Value>, n: nat)
    requires n <= |s.fields|
    requires forall i :: 0 <= i < |s.fields| ==> Get(d1, s.fields[i].name) == Get(d2, s.fields[i].name)
    ensures InstanceData(s, d1, n) == InstanceData(s, d2, n)
  {
    if n > 0 {
      AgreeUpTo(s, d1, d2, n - 1);
    }
  }

  /** Building from an empty dictionary gives every field its default. */
  lemma EmptyInput(s: Schema)
    ensures forall i :: 0 <= i < |s.fields| ==> FromDict(s, []).attrs[i].1 == DefaultOf(s.fields[i])
  {
    FromDictFields(s, []);
  }

  /**
   * A nested dataclass field given as a dictionary is built from that
   * dictionary with the nested class's own defaults, so a partial dictionary
   * does not keep the rest of the field's factory value.
   */
  lemma NestedFromDict(s: Schema, data: Dict<string, Value>, i: nat, t: Schema, sub: Dict<string, Value>)
    requires i < |s.fields| && s.fields[i].kind == Nested(t)
    requires Get(data, s.fields[i].name) == Some(VMap(sub))
    ensures FromDict(s, data).attrs[i].1 == FromDict(t, sub)
  {
    FromDictFields(s, data);
  }

  // ----- Accessors of ConfigDataModel, on the instance's attributes -----

  /** `obj[key]`: the attribute, or `KeyError(key)`. */
  function GetItem(attrs: Dict<string, Value>, key: string): (r: Result<Value, string>)
    ensures r.Err? <==> !HasKey(attrs, key)
    ensures r.Err? ==> r.error == key
    ensures r.Ok? ==> Get(attrs, key) == Some(r.value)
  {
    match Get(attrs, key)
    case None => Err(key)
    case Some(v) => Ok(v)
  }

  /** `obj.get(key, default)` */
  function GetOr(attrs: Dict<string, Value>, key: string, default: Value): (r: Value)
    ensures HasKey(attrs, key) ==> GetItem(attrs, key) == Ok(r)
    ensures !HasKey(attrs, key) ==> r == default
  {
    match Get(attrs, key)
    case None => default
    case Some(v) => v
  }

  /** `obj.setdefault(key, default)`: the new attributes and the value returned. */
  function SetDefault(attrs: Dict<string, Value>, key: string, default: Value): (r: (Dict<string, Value>, Value))
    ensures HasKey(attrs, key) ==> r.0 == attrs && Get(attrs, key) == Some(r.1)
    ensures !HasKey(attrs, key) ==> r.0 == attrs + [(key, default)] && r.1 == default
  {
    match Get(attrs, key)
    case None => (attrs + [(key, default)], default)
    case Some(v) => (attrs, v)
  }

  /** After `setdefault` the key is present with the returned value, and a second call changes nothing. */
  lemma SetDefaultThenGet(attrs: Dict<string, Value>, key: string, default: Value, other: Value)
    requires UniqueKeys(attrs)
    ensures var (a, v) := SetDefault(attrs, key, default);
      GetItem(a, key) == Ok(v) && SetDefault(a, key, other) == (a, v)
  {
    var (a, v) := SetDefault(attrs, key, default);
    if !HasKey(attrs, key) {
      assert UniqueKeys(a);
      assert a[|attrs|] == (key, default);
      GetAt(a, |attrs|);
    }
    assert HasKey(a, key) by {
      if !HasKey(attrs, key) { assert a[|attrs|].0 == key; }
    }
  }

  /** `obj.items()`: the attributes that are fields of the class. */
  function Items(s: Schema, attrs: Dict<string, Value>): (r: Dict<string, Value>)
    ensures forall i :: 0 <= i < |r| ==> r[i] in attrs && r[i].0 in Names(s)
    ensures forall i :: 0 <= i < |attrs| && attrs[i].0 in Names(s) ==> attrs[i] in r
    decreases |attrs|
  {
    if attrs == [] then []
    else
      var last := attrs[|attrs| - 1];
      Items(s, attrs[..|attrs| - 1]) + (if last.0 in Names(s) then [last] else [])
  }

  // ----- to_dict -----

  /** `dataclasses.asdict`: instances become dictionaries, recursively through lists and dictionaries. */
  function AsDict(v: Value): (r: Value)
    ensures v.VObj? || v.VMap? ==> r.VMap? && Keys(r.entries) == Keys(if v.VObj? then v.attrs else v.entries)
    decreases v, 1
  {
    match v
    case VObj(attrs) => VMap(AsDictEntries(v, |attrs|))
    case VMap(es) => VMap(AsDictEntries(v, |es|))
    case VList(items) => VList(AsDictItems(v, |items|))
    case _ => v
  }

  function AsDictEntries(v: Value, m: nat): (r: Dict<string, Value>)
    requires v.VObj? || v.VMap?
    requires m <= |if v.VObj? then v.attrs else v.entries|
    ensures Keys(r) == Keys((if v.VObj? then v.attrs else v.entries)[..m])
    decreases v, 0, m
  {
    var es := if v.VObj? then v.attrs else v.entries;
    if m == 0 then []
    else
      var r := AsDictEntries(v, m - 1) + [(es[m - 1].0, AsDict(es[m - 1].1))];
      assert Keys(es[..m]) == Keys(es[..m - 1]) + [es[m - 1].0];
      r
  }

  function AsDictItems(v: Value, m: nat): (r: seq<Value>)
    requires v.VList? && m <= |v.items|
    ensures |r| == m
    decreases v, 0, m
  {
    if m == 0 then [] else AsDictItems(v, m - 1) + [AsDict(v.items[m - 1])]
  }

  const InternalPath := "_config_file_abs_path_"

  /** `data.pop(key, None)` */
  function Pop(d: Dict<string, Value>, key: string): (r: Dict<string, Value>)
    ensures !HasKey(r, key)
    ensures forall i :: 0 <= i < |r| ==> r[i] in d
    ensures forall i :: 0 <= i < |d| && d[i].0 != key ==> d[i] in r
    decreases |d|
  {
    if d == [] then []
    else
      var init := Pop(d[..|d| - 1], key);
      var last := d[|d| - 1];
      if last.0 == key then init else init + [last]
  }

  /** `ConfigDataModel.to_dict` of an instance: its `asdict` without the internal path entry. */
  function ToDict(obj: Value): (r: Dict<string, Value>)
    requires obj.VObj?
    ensures !HasKey(r, InternalPath)
  {
    Pop(AsDict(obj).entries, InternalPath)
  }

  // ----- MainConfig cleaning -----

  /** The API-key placeholders removed before saving. */
  const Placeholders: seq<string> := ["YOUR_API_KEY_HERE", "YOUR_GOOGLE_API_KEY", "YOUR_OPENAI_API_KEY",
    "YOUR_DEEPSEEK_API_KEY", "YOUR_QWEN_API_KEY", "YOUR_SILICONFLOW_API_KEY", "YOUR_GROK_API_KEY",
    "YOUR_CUSTOM_API_KEY"]

  /** A scalar kept by the cleaning: not `None`, not `""` and not a placeholder; so `False` and `0` stay. */
  predicate KeptScalar(v: Value) {
    !v.VNone? && v != VStr("") && !(v.VStr? && v.s in Placeholders)
  }

  /** `_clean_dict_recursively` of a dictionary value. */
  function Clean(v: Value): (r: Dict<string, Value>)
    requires v.VMap?
    ensures |r| <= |v.entries|
    ensures v.entries == [] ==> r == []
    decreases v, 1, 0
  {
    CleanPrefix(v, |v.entries|)
  }

  /** The cleaned entries among the first `n`. */
  function CleanPrefix(v: Value, n: nat): (r: Dict<string, Value>)
    requires v.VMap? && n <= |v.entries|
    ensures |r| <= n
    decreases v, 0, n
  {
    if n == 0 then []
    else CleanPrefix(v, n - 1) + CleanEntry(v, n - 1)
  }

  /** Entry `i` after cleaning: nothing, or the entry with its cleaned value. */
  function CleanEntry(v: Value, i: nat): (r: Dict<string, Value>)
    requires v.VMap? && i < |v.entries|
    ensures |r| <= 1 && forall j :: 0 <= j < |r| ==> r[j].0 == v.entries[i].0
    decreases v, 0, i, 0
  {
    var (k, w) := v.entries[i];
    assert w < v by { assert v.entries[i] in v.entries; }
    if w.VMap? then
      var c := Clean(w);
      if c != [] then [(k, VMap(c))] else []
    else if w.VList? then
      if w.items != [] then [(k, VList(CleanItems(w, |w.items|)))] else []
    else if KeptScalar(w) then [(k, w)]
    else []
  }

  /** A list's items: dictionaries cleaned (and kept even when empty), anything else as it is. */
  function CleanItems(w: Value, m: nat): (r: seq<Value>)
    requires w.VList? && m <= |w.items|
    ensures |r| == m
    decreases w, 0, m
  {
    if m == 0 then []
    else
      var x := w.items[m - 1];
      CleanItems(w, m - 1) + [if x.VMap? then VMap(Clean(x)) else x]
  }

  /** The cleaning loop over one dictionary, recursing into nested dictionaries and list items. */
  method CleanDict(v: Value) returns (cleaned: Dict<string, Value>)
    requires v.VMap?
    ensures cleaned == Clean(v)
    decreases v
  {
    cleaned := [];
    for i := 0 to |v.entries|
      invariant cleaned == CleanPrefix(v, i)
    {
      var (k, w) := v.entries[i];
      assert w < v by { assert v.entries[i] in v.entries; }
      if w.VMap? {
        var c := CleanDict(w);
        if c != [] {
          cleaned := cleaned + [(k, VMap(c))];
        }
      } else if w.VList? {
        var items: seq<Value> := [];
        for m := 0 to |w.items|
          invariant items == CleanItems(w, m)
        {
          var x := w.items[m];
          assert x < w by { assert x in w.items; }
          if x.VMap? {
            var c := CleanDict(x);
            items := items + [VMap(c)];
          } else {
            items := items + [x];
          }
        }
        if items != [] {
          cleaned := cleaned + [(k, VList(items))];
        }
      } else if KeptScalar(w) {
        cleaned := cleaned + [(k, w)];
      }
    }
  }

  /** What the cleaning leaves: no `None`, `""` or placeholder, no empty dictionary or list. */
  predicate CleanValue(w: Value) {
    KeptScalar(w) && (w.VMap? ==> w.entries != []) && (w.VList? ==> w.items != [])
  }

  /** Whether `k` is the key of one of the first `n` entries of `v`. */
  predicate KeyAmong(k: string, v: Value, n: nat)
    requires v.VMap? && n <= |v.entries|
  {
    exists i :: 0 <= i < n && k == v.entries[i].0
  }

  lemma {:induction false} CleanPrefixShape(v: Value, n: nat)
    requires v.VMap? && n <= |v.entries|
    ensures forall j :: 0 <= j < |CleanPrefix(v, n)| ==> CleanValue(CleanPrefix(v, n)[j].1)
    ensures forall j :: 0 <= j < |CleanPrefix(v, n)| ==> KeyAmong(CleanPrefix(v, n)[j].0, v, n)
  {
    if n > 0 {
      CleanPrefixShape(v, n - 1);
      var a: Dict<string, Value>, b: Dict<string, Value> := CleanPrefix(v, n - 1), CleanEntry(v, n - 1);
      assert CleanPrefix(v, n) == a + b;
      forall j | 0 <= j < |a + b|
        ensures CleanValue((a + b)[j].1)
        ensures KeyAmong((a + b)[j].0, v, n)
      {
        if j < |a| {
          assert (a + b)[j] == a[j];
          var i :| 0 <= i < n - 1 && a[j].0 == v.entries[i].0;
          assert KeyAmong(a[j].0, v, n);
        } else {
          assert (a + b)[j] == b[j - |a|];
          assert (a + b)[j].0 == v.entries[n - 1].0;
          assert KeyAmong((a + b)[j].0, v, n);
        }
      }
    }
  }

  /**
   * The cleaned dictionary holds only values the cleaning keeps, under keys
   * of the original; every scalar that is kept is kept unchanged, `False` and
   * `0` included.
   */
  lemma CleanShape(v: Value)
    requires v.VMap?
    ensures forall j :: 0 <= j < |Clean(v)| ==> CleanValue(Clean(v)[j].1)
    ensures forall j :: 0 <= j < |Clean(v)| ==> exists i :: 0 <= i < |v.entries| && Clean(v)[j].0 == v.entries[i].0
  {
    CleanPrefixShape(v, |v.entries|);
    assert Clean(v) == CleanPrefix(v, |v.entries|);
    forall j | 0 <= j < |Clean(v)| ensures exists i :: 0 <= i < |v.entries| && Clean(v)[j].0 == v.entries[i].0 {
      assert KeyAmong(Clean(v)[j].0, v, |v.entries|);
    }
  }

  /** Every scalar entry that is kept appears with its key, and dropped ones do not appear. */
  lemma {:induction false} CleanScalar(v: Value, i: nat)
    requires v.VMap? && i < |v.entries|
    requires var w := v.entries[i].1; !w.VMap? && !w.VList?
    ensures KeptScalar(v.entries[i].1) <==> v.entries[i] in CleanEntry(v, i)
  {
  }

  /** The entry at position `i` contributes its cleaned form, in order. */
  lemma {:induction false} CleanPrefixSplit(v: Value, i: nat, n: nat)
    requires v.VMap? && i < n <= |v.entries|
    ensures forall x :: x in CleanEntry(v, i) ==> x in CleanPrefix(v, n)
    decreases n
  {
    if n - 1 > i {
      CleanPrefixSplit(v, i, n - 1);
    }
  }

  /** A kept scalar survives the cleaning unchanged. */
  lemma CleanKeepsScalar(v: Value, i: nat)
    requires v.VMap? && i < |v.entries|
    requires var w := v.entries[i].1; !w.VMap? && !w.VList? && KeptScalar(w)
    ensures v.entries[i] in Clean(v)
  {
    CleanScalar(v, i);
    CleanPrefixSplit(v, i, |v.entries|);
  }

  /** `MainConfig.to_dict`: the cleaned `to_dict`, with an `ai_services` section always holding `providers`. */
  function MainToDict(obj: Value): (r: Dict<string, Value>)
    requires obj.VObj?
    ensures var c := Clean(VMap(ToDict(obj)));
      |r| == |c| && forall i :: 0 <= i < |c| ==> r[i].0 == c[i].0
    ensures var c := Clean(VMap(ToDict(obj)));
      forall i :: 0 <= i < |c| && c[i].0 != "ai_services" ==> r[i] == c[i]
  {
    var cleaned := Clean(VMap(ToDict(obj)));
    var section := Get(cleaned, "ai_services");
    if section.Some? && section.value.VMap? && !HasKey(section.value.entries, "providers")
    then Put(cleaned, "ai_services", VMap(section.value.entries + [("providers", VMap([]))]))
    else cleaned
  }

  /** An `ai_services` section in the saved dictionary has `providers`, and the internal path is never saved. */
  lemma MainToDictShape(obj: Value)
    requires obj.VObj?
    ensures var d := MainToDict(obj);
      var section := Get(d, "ai_services");
      !HasKey(d, InternalPath) && (section.Some? && section.value.VMap? ==> HasKey(section.value.entries, "providers"))
  {
    var t := ToDict(obj);
    var cleaned := Clean(VMap(t));
    CleanShape(VMap(t));
    assert !HasKey(cleaned, InternalPath) by {
      forall j | 0 <= j < |cleaned| ensures cleaned[j].0 != InternalPath {
        var i :| 0 <= i < |t| && cleaned[j].0 == t[i].0;
      }
    }
    var section := Get(cleaned, "ai_services");
    if section.Some? && section.value.VMap? && !HasKey(section.value.entries, "providers") {
      PutProviders(cleaned, section.value.entries);
    }
  }

  /** Adding an empty `providers` to the stored `ai_services` section keeps the keys and makes the section hold `providers`. */
  lemma PutProviders(cleaned: Dict<string, Value>, entries: Dict<string, Value>)
    requires HasKey(cleaned, "ai_services") && !HasKey(cleaned, InternalPath)
    ensures var newSection := entries + [("providers", VMap([]))];
      var d := Put(cleaned, "ai_services", VMap(newSection));
      !HasKey(d, InternalPath) && Get(d, "ai_services") == Some(VMap(newSection)) && HasKey(newSection, "providers")
  {
    var newSection := entries + [("providers", VMap([]))];
    assert newSection[|entries|].0 == "providers";
    var d := Put(cleaned, "ai_services", VMap(newSection));
    var r := Get(d, "ai_services");
    var k :| 0 <= k < |d| && d[k] == ("ai_services", r.value);
  }

  /** The cleaned dictionary of a dictionary with distinct keys has distinct keys. */
  lemma CleanUnique(v: Value)
    requires v.VMap? && UniqueKeys(v.entries)
    ensures UniqueKeys(Clean(v))
  {
    CleanUniqueUpTo(v, |v.entries|);
  }

  lemma {:induction false} CleanUniqueUpTo(v: Value, n: nat)
    requires v.VMap? && UniqueKeys(v.entries) && n <= |v.entries|
    ensures UniqueKeys(CleanPrefix(v, n))
  {
    if n > 0 {
      CleanUniqueUpTo(v, n - 1);
      CleanPrefixShape(v, n - 1);
      var a: Dict<string, Value>, b: Dict<string, Value> := CleanPrefix(v, n - 1), CleanEntry(v, n - 1);
      forall x, y | 0 <= x < y < |a + b| ensures (a + b)[x].0 != (a + b)[y].0 {
        if y >= |a| && x < |a| {
          var i :| 0 <= i < n - 1 && a[x].0 == v.entries[i].0;
          assert (a + b)[y].0 == v.entries[n - 1].0;
        }
      }
    }
  }

  // ----- Default selection criteria -----

  const SortBy := Field("sort_by", Factory(VList([VStr("Score"), VStr("Exp")])), Plain)
  const Ascending := Field("ascending", Factory(VList([VBool(false), VBool(true)])), Plain)

  /** `HomologySelectionCriteria` */
  const CriteriaSchema := Schema([
    SortBy, Ascending,
    Field("top_n", Given(VNum(1)), Plain),
    Field("evalue_threshold", Given(VReal(0.0000000001)), Plain),
    Field("pid_threshold", Given(VReal(30.0)), Plain),
    Field("score_threshold", Given(VReal(50.0)), Plain)])

  /** `HomologySelectionCriteria()` with its defaults. */
  const DefaultCriteria := VObj([
    ("sort_by", VList([VStr("Score"), VStr("Exp")])), ("ascending", VList([VBool(false), VBool(true)])),
    ("top_n", VNum(1)), ("evalue_threshold", VReal(0.0000000001)),
    ("pid_threshold", VReal(30.0)), ("score_threshold", VReal(50.0))])

  /** The stricter criteria the bridge-to-target factory builds. */
  const BridgeCriteria := VObj([
    ("sort_by", VList([VStr("Score"), VStr("Exp")])), ("ascending", VList([VBool(false), VBool(true)])),
    ("top_n", VNum(1)), ("evalue_threshold", VReal(0.000000000000001)),
    ("pid_threshold", VReal(40.0)), ("score_threshold", VReal(80.0))])

  /** The two criteria fields of `IntegrationPipelineConfig`. */
  const PipelineCriteria := Schema([
    Field("selection_criteria_source_to_bridge", Factory(DefaultCriteria), Nested(CriteriaSchema)),
    Field("selection_criteria_bridge_to_target", Factory(BridgeCriteria), Nested(CriteriaSchema))])

  /** The class defaults are what `from_dict` gives for an empty dictionary. */
  lemma CriteriaDefaults()
    ensures FromDict(CriteriaSchema, []) == DefaultCriteria
  {
    EmptyInput(CriteriaSchema);
    FromDictFields(CriteriaSchema, []);
    assert Keys(FromDict(CriteriaSchema, []).attrs) == Names(CriteriaSchema);
  }

  /**
   * Without input, source to bridge uses the class defaults and bridge to
   * target the stricter ones; a partial dictionary for bridge to target
   * falls back to the class defaults for the fields it leaves out.
   */
  lemma PipelineCriteriaDefaults(topN: int)
    ensures FromDict(PipelineCriteria, []) ==
      VObj([("selection_criteria_source_to_bridge", DefaultCriteria), ("selection_criteria_bridge_to_target", BridgeCriteria)])
    ensures var partial := [("selection_criteria_bridge_to_target", VMap([("top_n", VNum(topN))]))];
      FromDict(PipelineCriteria, partial).attrs[1].1 == FromDict(CriteriaSchema, [("top_n", VNum(topN))])
      && FromDict(CriteriaSchema, [("top_n", VNum(topN))]).attrs[3].1 == VReal(0.0000000001)
  {
    EmptyInput(PipelineCriteria);
    FromDictFields(PipelineCriteria, []);
    var partial := [("selection_criteria_bridge_to_target", VMap([("top_n", VNum(topN))]))];
    assert Get(partial, "selection_criteria_bridge_to_target") == Some(VMap([("top_n", VNum(topN))]));
    NestedFromDict(PipelineCriteria, partial, 1, CriteriaSchema, [("top_n", VNum(topN))]);
    var sub: Dict<string, Value> := [("top_n", VNum(topN))];
    assert Get(sub, "evalue_threshold") == None;
    MissingTakesDefault(CriteriaSchema, sub, 3);
  }
}
