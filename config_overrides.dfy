/**
 * `_update_config_from_overrides` of cotton_toolkit/utils/config_overrides_utils.py:
 * copying the non-`None` values of an override dictionary onto the
 * attributes a configuration object already has, warning about the rest.
 * `hasattr` is membership in the object's attribute map; the warning is
 * recorded as the key it names.
 */
module ConfigOverrides {
  import opened Wrappers
  import opened PyDict
  import opened ConfigModels

  /** The overrides' entries in iteration order; `None` has none. */
  function Entries(overrides: Option<Dict<string, Value>>): Dict<string, Value> {
    if overrides.Some? then overrides.value else []
  }

  /** The attributes after the loop over `d`: each non-`None` value of a known key is set, in order. */
  function Applied(attrs: map<string, Value>, d: Dict<string, Value>): (r: map<string, Value>)
    ensures r.Keys == attrs.Keys
    decreases |d|
  {
    if d == [] then attrs
    else
      var r := Applied(attrs, d[..|d| - 1]);
      var (k, v) := d[|d| - 1];
      if v != VNone && k in r then r[k := v] else r
  }

  /** The keys the loop warns about, in order: non-`None` values for keys the object lacks. */
  function Unknown(attrs: map<string, Value>, d: Dict<string, Value>): (u: seq<string>)
    ensures forall x :: x in u ==> x !in attrs
    decreases |d|
  {
    if d == [] then []
    else
      var (k, v) := d[|d| - 1];
      Unknown(attrs, d[..|d| - 1]) + (if v != VNone && k !in attrs then [k] else [])
  }

  /** The last non-`None` value `d` gives for `k`, or `None`. */
  function LastSet(d: Dict<string, Value>, k: string): (r: Option<Value>)
    ensures r.Some? ==> r.value != VNone && (k, r.value) in d
    decreases |d|
  {
    if d == [] then None
    else if d[|d| - 1].0 == k && d[|d| - 1].1 != VNone then Some(d[|d| - 1].1)
    else LastSet(d[..|d| - 1], k)
  }

  /** A configuration object whose attributes are set in place. */
  class ConfigObject {
    var attrs: map<string, Value>
    /** The keys of the warnings logged so far. */
    var warned: seq<string>

    constructor(attrs0: map<string, Value>)
      ensures attrs == attrs0 && warned == []
    {
      attrs := attrs0;
      warned := [];
    }

    /** Applies `overrides`; `None` or an empty dictionary leaves the object alone. */
    method UpdateFromOverrides(overrides: Option<Dict<string, Value>>)
      modifies this
      ensures attrs == Applied(old(attrs), Entries(overrides))
      ensures warned == old(warned) + Unknown(old(attrs), Entries(overrides))
    {
      if overrides.None? || overrides.value == [] {
        assert Entries(overrides) == [];
        return;
      }
      var d := overrides.value;
      ghost var a0 := attrs;
      ghost var w0 := warned;
      for i := 0 to |d|
        invariant attrs == Applied(a0, d[..i])
        invariant warned == w0 + Unknown(a0, d[..i])
      {
        assert d[..i + 1][..i] == d[..i];
        var (key, value) := d[i];
        if value != VNone {
          if key in attrs {
            attrs := attrs[key := value];
          } else {
            warned := warned + [key];
          }
        }
      }
      assert d[..|d|] == d;
    }
  }

  // ----- Properties -----

  /** `None` and empty overrides change nothing and warn about nothing. */
  lemma NoOverrides(attrs: map<string, Value>, overrides: Option<Dict<string, Value>>)
    requires overrides.None? || overrides.value == []
    ensures Applied(attrs, Entries(overrides)) == attrs
    ensures Unknown(attrs, Entries(overrides)) == []
  {
  }

  /**
   * After the loop, a known attribute holds the last non-`None` value the
   * overrides give it and keeps its old value when they give none; `None`
   * values and unknown keys leave no trace.
   */
  lemma {:induction false} AppliedAt(attrs: map<string, Value>, d: Dict<string, Value>, k: string)
    requires k in attrs
    ensures Applied(attrs, d)[k] == if LastSet(d, k).Some? then LastSet(d, k).value else attrs[k]
    decreases |d|
  {
    if d != [] {
      AppliedAt(attrs, d[..|d| - 1], k);
    }
  }

  /** With a real dictionary's distinct keys, the value set is the one stored under the key, unless it is `None`. */
  lemma {:induction false} LastSetUnique(d: Dict<string, Value>, k: string)
    requires UniqueKeys(d)
    ensures LastSet(d, k) == if Get(d, k).Some? && Get(d, k).value != VNone then Get(d, k) else None
    decreases |d|
  {
    if d != [] {
      var init := d[..|d| - 1];
      assert UniqueKeys(init) by {
        forall i, j | 0 <= i < j < |init| ensures init[i].0 != init[j].0 {
          assert init[i] == d[i] && init[j] == d[j];
        }
      }
      LastSetUnique(init, k);
      if d[|d| - 1].0 == k {
        GetAt(d, |d| - 1);
        assert !HasKey(init, k) by {
          forall i | 0 <= i < |init| ensures init[i].0 != k {
            assert init[i] == d[i];
          }
        }
      } else {
        assert Get(d, k) == Get(init, k);
      }
    }
  }

  /** Applying the same overrides twice is applying them once. */
  lemma Idempotent(attrs: map<string, Value>, d: Dict<string, Value>)
    ensures Applied(Applied(attrs, d), d) == Applied(attrs, d)
  {
    var once := Applied(attrs, d);
    forall k | k in attrs
      ensures Applied(once, d)[k] == once[k]
    {
      AppliedAt(attrs, d, k);
      AppliedAt(once, d, k);
    }
  }

  /** A key is warned about exactly when it has a non-`None` value and the object lacks it. */
  lemma {:induction false} UnknownExactly(attrs: map<string, Value>, d: Dict<string, Value>, x: string)
    ensures x in Unknown(attrs, d) <==> x !in attrs && exists v :: v != VNone && (x, v) in d
    decreases |d|
  {
    if d != [] {
      var init := d[..|d| - 1];
      UnknownExactly(attrs, init, x);
      assert d == init + [d[|d| - 1]];
      var (k, w) := d[|d| - 1];
      if x in Unknown(attrs, init) {
        var v :| v != VNone && (x, v) in init;
        assert (x, v) in d;
      } else if x in Unknown(attrs, d) {
        assert x == k && w != VNone && (k, w) in d;
      }
      if x !in attrs && (exists v :: v != VNone && (x, v) in d) {
        var v :| v != VNone && (x, v) in d;
        if (x, v) !in init {
          assert d[|d| - 1] == (x, v);
        }
      }
    }
  }
}
