/**
 * Typed lookup of MLT `<property name="...">value</property>` children
 * (`get_property_value` in src/mlt.rs), including the removal of a keyframe
 * time stamp written before the first `=` of the value.
 */
module MltProperty {
  import opened Wrappers
  import opened Strings
  import opened Xml

  /** An element `<property name="name">`. */
  predicate IsPropertyNamed(n: Node, name: string)
  {
    HasTagName(n, "property") && Attribute(n, "name") == Some(name)
  }

  /** The first node of `ns` that is a property called `name`. */
  function FirstPropertyIn(ns: seq<Node>, name: string): (r: Option<nat>)
    ensures r.Some? ==> r.value < |ns| && IsPropertyNamed(ns[r.value], name)
    ensures r.Some? ==> forall j :: 0 <= j < r.value ==> !IsPropertyNamed(ns[j], name)
    ensures r.None? ==> forall j :: 0 <= j < |ns| ==> !IsPropertyNamed(ns[j], name)
  {
    if |ns| == 0 then None
    else if IsPropertyNamed(ns[0], name) then Some(0)
    else match FirstPropertyIn(ns[1..], name)
      case None => None
      case Some(i) => Some(i + 1)
  }

  /** The first property called `name` among `n` and its descendants, in document order. */
  function PropertyNode(n: Node, name: string): Option<Node>
  {
    var ds := Descendants(n);
    match FirstPropertyIn(ds, name)
    case None => None
    case Some(i) => Some(ds[i])
  }

  /** The value after the first `=` when there is one (a time stamp precedes it), else the whole value. */
  function StripTimestamp(v: string): (r: string)
    ensures '=' !in v ==> r == v
    ensures '=' in v ==> |r| < |v| && v == v[..|v| - |r| - 1] + "=" + r && '=' !in v[..|v| - |r| - 1]
  {
    match IndexOfChar(v, '=')
    case None => v
    case Some(i) =>
      assert v == v[..i] + "=" + v[i + 1..];
      v[i + 1..]
  }

  /** Only the text after the first `=` is kept: `a=b=c` reads as `b=c`. */
  lemma StripAtFirstEquals(stamp: string, rest: string)
    requires '=' !in stamp
    ensures StripTimestamp(stamp + "=" + rest) == rest
  {
    var v := stamp + "=" + rest;
    IndexOfCharAt(v, stamp, '=');
    assert v[|stamp| + 1..] == rest;
  }

  /**
   * `get_property_value::<T>`: the first property called `name`, its text with
   * any time stamp removed, parsed by `T`'s `FromStr` (here `parse`). Absent
   * when there is no such property, when it has no text, or when parsing fails.
   */
  function GetPropertyValue<T>(n: Node, name: string, parse: string -> Option<T>): Option<T>
  {
    match PropertyNode(n, name)
    case None => None
    case Some(p) =>
      match TextOf(p)
      case None => None
      case Some(v) => parse(StripTimestamp(v))
  }

  /** `String`'s `FromStr`, which never fails. */
  function ParseString(s: string): Option<string>
  {
    Some(s)
  }

  /** `get_property_value::<String>`. */
  function PropertyText(n: Node, name: string): Option<string>
  {
    GetPropertyValue(n, name, ParseString)
  }

  /** The lookup is the first matching property in document order; a later one never overrides it. */
  lemma GetPropertyValueSpec<T>(n: Node, name: string, parse: string -> Option<T>)
    ensures GetPropertyValue(n, name, parse).Some? ==>
      exists i :: 0 <= i < |Descendants(n)| && IsPropertyNamed(Descendants(n)[i], name)
        && (forall j :: 0 <= j < i ==> !IsPropertyNamed(Descendants(n)[j], name))
        && TextOf(Descendants(n)[i]).Some?
        && GetPropertyValue(n, name, parse) == parse(StripTimestamp(TextOf(Descendants(n)[i]).value))
    ensures (forall j :: 0 <= j < |Descendants(n)| ==> !IsPropertyNamed(Descendants(n)[j], name)) ==>
      GetPropertyValue(n, name, parse).None?
  {
    var ds := Descendants(n);
    match FirstPropertyIn(ds, name)
    case None =>
    case Some(i) =>
      assert PropertyNode(n, name) == Some(ds[i]);
  }

  /**
   * The converse: once the first property called `name` is known, the lookup
   * is its text, time stamp removed, then parsed, and None when it has no text.
   */
  lemma GetPropertyValueAt<T>(n: Node, name: string, parse: string -> Option<T>, i: nat)
    requires i < |Descendants(n)| && IsPropertyNamed(Descendants(n)[i], name)
    requires forall j :: 0 <= j < i ==> !IsPropertyNamed(Descendants(n)[j], name)
    ensures TextOf(Descendants(n)[i]).None? ==> GetPropertyValue(n, name, parse).None?
    ensures TextOf(Descendants(n)[i]).Some? ==>
      GetPropertyValue(n, name, parse) == parse(StripTimestamp(TextOf(Descendants(n)[i]).value))
  {
    var ds := Descendants(n);
    var r := FirstPropertyIn(ds, name);
    assert r.Some?;
    assert r.value == i;
    assert PropertyNode(n, name) == Some(ds[i]);
  }

  /** A value with a time stamp reads as the bare value after it (`00:00:00.000=0` reads as `0`). */
  lemma TimestampedReadsAsBare<T>(n: Node, name: string, parse: string -> Option<T>, stamp: string, bare: string)
    requires '=' !in stamp
    requires PropertyNode(n, name).Some? && TextOf(PropertyNode(n, name).value) == Some(stamp + "=" + bare)
    ensures GetPropertyValue(n, name, parse) == parse(bare)
  {
    StripAtFirstEquals(stamp, bare);
  }

  // ---------------------------------------------------------------------
  // Flat elements: a filter whose children are all leaf properties
  // ---------------------------------------------------------------------

  /** `<property name="name">value</property>`; empty content has no text child. */
  function PropertyLeaf(name: string, value: string): Node
  {
    Element("property", [("name", name)], if value == "" then [] else [Text(value)])
  }

  /** The leaves `(name, value)` as property children. */
  function PropertyLeaves(props: seq<(string, string)>): (r: seq<Node>)
    ensures |r| == |props|
  {
    if |props| == 0 then [] else [PropertyLeaf(props[0].0, props[0].1)] + PropertyLeaves(props[1..])
  }

  /** The value of the first pair called `name`. */
  function LookupPair(props: seq<(string, string)>, name: string): Option<string>
  {
    if |props| == 0 then None
    else if props[0].0 == name then Some(props[0].1)
    else LookupPair(props[1..], name)
  }

  lemma {:induction false} FirstPropertyInConcat(a: seq<Node>, b: seq<Node>, name: string)
    ensures FirstPropertyIn(a + b, name) ==
      match FirstPropertyIn(a, name)
      case Some(i) => Some(i)
      case None => match FirstPropertyIn(b, name) case None => None case Some(j) => Some(|a| + j)
  {
    if |a| > 0 {
      assert (a + b)[1..] == a[1..] + b;
      FirstPropertyInConcat(a[1..], b, name);
    } else {
      assert a + b == b;
    }
  }

  /** In the descendants of a list of leaves, the first property called `name` is the first such leaf. */
  lemma {:induction false} PropertyAmongLeaves(props: seq<(string, string)>, name: string)
    ensures var ds := DescendantsOfAll(PropertyLeaves(props));
      match FirstPropertyIn(ds, name)
      case None => LookupPair(props, name).None?
      case Some(i) => LookupPair(props, name).Some? && ds[i] == PropertyLeaf(name, LookupPair(props, name).value)
  {
    if |props| > 0 {
      var leaves := PropertyLeaves(props);
      var leaf := leaves[0];
      assert leaves[1..] == PropertyLeaves(props[1..]);
      var own := Descendants(leaf);
      var rest := DescendantsOfAll(leaves[1..]);
      assert DescendantsOfAll(leaves) == own + rest;
      assert forall j :: 1 <= j < |own| ==> own[j].Text? by {
        if props[0].1 != "" {
          var t := Text(props[0].1);
          assert leaf.children == [t];
          assert [t][1..] == [];
          assert DescendantsOfAll([t]) == Descendants(t) == [t];
          assert own == [leaf, t];
        } else {
          assert leaf.children == [];
          assert DescendantsOfAll(leaf.children) == [];
          assert |own| == 1;
        }
      }
      FirstPropertyInConcat(own, rest, name);
      PropertyAmongLeaves(props[1..], name);
    }
  }

  /** The lookup in a flat element built from `(name, value)` pairs finds the first pair called `name`. */
  lemma FlatElementProperty<T>(tag: string, attrs: seq<(string, string)>, props: seq<(string, string)>, name: string, parse: string -> Option<T>)
    requires tag != "property"
    ensures GetPropertyValue(Element(tag, attrs, PropertyLeaves(props)), name, parse) ==
      match LookupPair(props, name)
      case None => None
      case Some(v) => if v == "" then None else parse(StripTimestamp(v))
  {
    var e := Element(tag, attrs, PropertyLeaves(props));
    var ds := Descendants(e);
    assert ds == [e] + DescendantsOfAll(PropertyLeaves(props));
    assert FirstPropertyIn([e], name).None?;
    FirstPropertyInConcat([e], DescendantsOfAll(PropertyLeaves(props)), name);
    PropertyAmongLeaves(props, name);
    match LookupPair(props, name)
    case None =>
      assert PropertyNode(e, name).None?;
    case Some(v) =>
      assert PropertyNode(e, name) == Some(PropertyLeaf(name, v));
  }

  /** A non-property element with a single child answers every lookup as that child does. */
  lemma WrappedProperty<T>(tag: string, attrs: seq<(string, string)>, child: Node, name: string, parse: string -> Option<T>)
    requires tag != "property"
    ensures GetPropertyValue(Element(tag, attrs, [child]), name, parse) == GetPropertyValue(child, name, parse)
  {
    var e := Element(tag, attrs, [child]);
    assert [child][1..] == [];
    assert DescendantsOfAll([child]) == Descendants(child);
    assert Descendants(e) == [e] + Descendants(child);
    FirstPropertyInConcat([e], Descendants(child), name);
  }
}
