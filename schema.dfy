/**
 * The autocompletion schema (`tags`) that `render` derives from the component
 * registry (src/Playroom/Playroom.js).  A JavaScript object is modelled by its
 * own entries in key order; `parsePropTypes` is a library, so its result for
 * each component is part of the input.
 */
module Schema {
  import opened Wrappers
  import opened Ordering

  /** A JavaScript value that can appear in the list of a `oneOf` prop type. */
  datatype JsValue = JsString(s: string) | JsNumber(n: int) | JsBoolean(b: bool) | JsOther

  /** The `type` of one parsed prop: the prop-types name and its argument list. */
  datatype PropType = PropType(name: string, value: seq<JsValue>)

  /** `parsePropTypes(component)`: prop name to its parsed type, in key order. */
  type PropTypes = seq<(string, PropType)>

  /** The `components` object: component name to the parsed prop types of that component. */
  type Registry = seq<(string, PropTypes)>

  /** Completion values of one prop: the allowed strings, or `null` (None) for free-form props. */
  type Attrs = seq<(string, Option<seq<string>>)>

  /** The `tags` schema: component name to `{attrs}`. */
  type Tags = seq<(string, Attrs)>

  /** `Object.keys` of an object given by its entries. */
  function Keys<V>(entries: seq<(string, V)>): (keys: seq<string>)
    ensures |keys| == |entries|
    ensures forall i :: 0 <= i < |entries| ==> keys[i] == entries[i].0
  {
    seq(|entries|, i requires 0 <= i < |entries| => entries[i].0)
  }

  /** The entries of a real object: no key twice. */
  ghost predicate IsObject<V>(entries: seq<(string, V)>)
  {
    Distinct(Keys(entries))
  }

  /** `object[key]` for a key the object has. */
  function Get<V>(entries: seq<(string, V)>, key: string): (v: V)
    requires key in Keys(entries)
    ensures (key, v) in entries
    ensures IsObject(entries) ==>
              forall i :: 0 <= i < |entries| && entries[i].0 == key ==> entries[i].1 == v
  {
    if entries[0].0 == key then entries[0].1
    else
      assert Keys(entries[1..]) == Keys(entries)[1..];
      Get(entries[1..], key)
  }

  /** `value.filter(x => typeof x === 'string')`. */
  function Strings(values: seq<JsValue>): (r: seq<string>)
    ensures |r| <= |values|
    ensures forall x :: x in r <==> JsString(x) in values
  {
    if |values| == 0 then []
    else (if values[0].JsString? then [values[0].s] else []) + Strings(values[1..])
  }

  /** The string filter keeps the order of the list: it distributes over concatenation. */
  lemma {:induction false} StringsAppend(a: seq<JsValue>, b: seq<JsValue>)
    ensures Strings(a + b) == Strings(a) + Strings(b)
  {
    if |a| == 0 {
      assert a + b == b;
    } else {
      assert (a + b)[0] == a[0] && (a + b)[1..] == a[1..] + b;
      StringsAppend(a[1..], b);
    }
  }

  /** The completion list of one prop. */
  function Completion(t: PropType): (r: Option<seq<string>>)
    ensures r.Some? <==> t.name == "oneOf"
    ensures r.Some? ==> r.value == Strings(t.value)
  {
    if t.name == "oneOf" then Some(Strings(t.value)) else None
  }

  /** The props that are structure rather than attributes. */
  predicate Structural(name: string)
  {
    name == "children" || name == "className"
  }

  /** `omit(parsedPropTypes, 'children', 'className')`. */
  function Omit(props: PropTypes): (r: PropTypes)
    ensures |r| <= |props|
  {
    if |props| == 0 then []
    else (if Structural(props[0].0) then [] else [props[0]]) + Omit(props[1..])
  }

  /** `omit` keeps exactly the entries whose key is not structural. */
  lemma {:induction false} OmitMembers(props: PropTypes)
    ensures forall e :: e in Omit(props) <==> e in props && !Structural(e.0)
  {
    if |props| > 0 {
      OmitMembers(props[1..]);
      assert props == [props[0]] + props[1..];
    }
  }

  /** `omit` keeps the order of the remaining entries. */
  lemma {:induction false} OmitAppend(a: PropTypes, b: PropTypes)
    ensures Omit(a + b) == Omit(a) + Omit(b)
  {
    if |a| == 0 {
      assert a + b == b;
    } else {
      assert (a + b)[0] == a[0] && (a + b)[1..] == a[1..] + b;
      OmitAppend(a[1..], b);
    }
  }

  /** The `attrs` object of one component. */
  function AttrsOf(props: PropTypes): Attrs
  {
    var kept := Omit(props);
    seq(|kept|, i requires 0 <= i < |kept| => (kept[i].0, Completion(kept[i].1)))
  }

  lemma DistinctCons<T>(x: T, s: seq<T>)
    requires Distinct(s) && x !in s
    ensures Distinct([x] + s)
  {
    forall i, j | 0 <= i < j < |[x] + s| ensures ([x] + s)[i] != ([x] + s)[j] {
      if i > 0 {
        assert ([x] + s)[i] == s[i - 1];
      }
      assert ([x] + s)[j] == s[j - 1];
    }
  }

  /** `omit` brings in no key of its own. */
  lemma {:induction false} OmitKeys(props: PropTypes)
    ensures forall k :: k in Keys(Omit(props)) ==> k in Keys(props)
  {
    if |props| > 0 {
      var key, tail := props[0].0, props[1..];
      OmitKeys(tail);
      assert Keys(props) == [key] + Keys(tail);
      if Structural(key) {
        assert Keys(Omit(props)) == Keys(Omit(tail));
      } else {
        assert Keys(Omit(props)) == [key] + Keys(Omit(tail));
      }
    }
  }

  lemma {:induction false} OmitKeepsObject(props: PropTypes)
    requires IsObject(props)
    ensures IsObject(Omit(props))
  {
    if |props| > 0 {
      var key, tail := props[0].0, props[1..];
      assert Keys(tail) == Keys(props)[1..];
      OmitKeepsObject(tail);
      var rest := Omit(tail);
      if !Structural(key) {
        assert key !in Keys(tail);
        OmitKeys(tail);
        assert Keys(Omit(props)) == [key] + Keys(rest);
        DistinctCons(key, Keys(rest));
      } else {
        assert Omit(props) == rest;
      }
    }
  }

  /**
   * `attrs` never has `children` or `className`; every other parsed prop
   * appears in it, with its completion list; and no prop appears twice.
   */
  lemma AttrsSpec(props: PropTypes)
    requires IsObject(props)
    ensures var attrs := AttrsOf(props);
            && (forall i :: 0 <= i < |attrs| ==> !Structural(attrs[i].0))
            && (forall name :: name in Keys(props) && !Structural(name) ==> name in Keys(attrs))
            && (forall i :: 0 <= i < |attrs| ==>
                  attrs[i].0 in Keys(props) && attrs[i].1 == Completion(Get(props, attrs[i].0)))
            && IsObject(attrs)
  {
    var kept, attrs := Omit(props), AttrsOf(props);
    OmitMembers(props);
    OmitKeepsObject(props);
    forall i | 0 <= i < |attrs|
      ensures !Structural(attrs[i].0)
      ensures attrs[i].0 in Keys(props) && attrs[i].1 == Completion(Get(props, attrs[i].0))
    {
      assert kept[i] in kept;
      var m :| 0 <= m < |props| && props[m] == kept[i];
      assert Keys(props)[m] == kept[i].0;
    }
    forall name | name in Keys(props) && !Structural(name) ensures name in Keys(attrs) {
      var m :| 0 <= m < |props| && Keys(props)[m] == name;
      assert props[m] in kept;
      var k :| 0 <= k < |kept| && kept[k] == props[m];
      assert Keys(attrs)[k] == name;
    }
    assert Keys(attrs) == Keys(kept);
  }

  /** The `tags` computation: components in sorted name order, each with its `attrs`. */
  function TagsOf(registry: Registry): Tags
  {
    var names := Sort(Keys(registry));
    assert forall i :: 0 <= i < |names| ==> names[i] in multiset(Keys(registry));
    seq(|names|, i requires 0 <= i < |names| => (names[i], AttrsOf(Get(registry, names[i]))))
  }

  /**
   * The schema has exactly the registry's component names as keys, each once,
   * in strictly increasing lexicographic order, and gives each component the
   * `attrs` of its own parsed prop types.
   */
  lemma TagsSpec(registry: Registry)
    requires IsObject(registry)
    ensures var tags := TagsOf(registry);
            && |tags| == |registry|
            && (forall name :: name in Keys(tags) <==> name in Keys(registry))
            && StrictlySorted(Keys(tags))
            && (forall i :: 0 <= i < |tags| ==>
                  tags[i].0 in Keys(registry) && tags[i].1 == AttrsOf(Get(registry, tags[i].0)))
  {
    var tags := TagsOf(registry);
    var names := Sort(Keys(registry));
    SortDistinct(Keys(registry));
    assert Keys(tags) == names;
  }

  /** The example of a `oneOf` with a number in it: only the strings remain, in order. */
  lemma OneOfExample()
    ensures var props := [("children", PropType("node", [])),
                          ("variant", PropType("oneOf", [JsString("a"), JsString("b"), JsNumber(2)]))];
            AttrsOf(props) == [("variant", Some(["a", "b"]))]
  {
    var variant := PropType("oneOf", [JsString("a"), JsString("b"), JsNumber(2)]);
    var props := [("children", PropType("node", [])), ("variant", variant)];
    assert props[1..] == [("variant", variant)] && props[1..][1..] == [];
    assert Omit(props[1..]) == [("variant", variant)];
    assert Omit(props) == [("variant", variant)];
    var values := variant.value;
    assert values[1..] == [JsString("b"), JsNumber(2)];
    assert values[1..][1..] == [JsNumber(2)];
    assert values[1..][1..][1..] == [];
    assert Strings(values[1..][1..]) == [];
    assert Strings(values[1..]) == ["b"];
    assert Strings(values) == ["a", "b"];
  }
}
