/**
 * `XmlEntityExtensions` as the source runs it: an `XDocument` whose root the
 * extension methods edit in place, and an entity whose mapped properties are
 * written to and filled from such a document. Each method is proved against the
 * function of module XmlEntityCodec that describes its effect.
 *
 * An `XElement` reference returned by `AddOrGetPropertyElement` is modelled by
 * the position of that element among the root's children.
 */
module XmlEntityExtensions {
  import opened Common
  import opened IntText
  import opened XLinq
  import opened XmlEntityCodec
  import opened XmlEntityCodecProperties

  /** The `XDocument`: its root element, `Values` for a fresh document. */
  class Document {
    var root: XElement

    /** `new XDocument(new XElement(RootNodename))`. */
    constructor ()
      ensures root == EmptyRoot
    {
      root := EmptyRoot;
    }

    /** `XDocument.Parse(xmlValues)`, given the parsed root. */
    constructor Parsed(parsedRoot: XElement)
      ensures root == parsedRoot
    {
      root := parsedRoot;
    }

    /** Returns the position of the first element called `property`, appending an empty one when there is none. */
    method AddOrGetPropertyElement(property: string) returns (index: nat)
      modifies this
      ensures (root, index) == AfterAddOrGet(old(root), property)
      ensures index < |root.nodes| && FirstIndex(root.nodes, property) == Some(index)
    {
      match FirstIndex(root.nodes, property)
      case Some(i) =>
        index := i;
      case None =>
        index := |root.nodes|;
        root := root.(nodes := root.nodes + [XChild(XElement(property, [], []))]);
    }

    /** Removes the first element called `property`, if any. */
    method RemoveElement(property: string)
      modifies this
      ensures root == AfterRemoveElement(old(root), property)
    {
      match FirstIndex(root.nodes, property)
      case None =>
      case Some(i) =>
        root := root.(nodes := root.nodes[..i] + root.nodes[i + 1..]);
    }

    method SetString(value: Option<string>, propertyName: string)
      modifies this
      ensures root == AfterSetString(old(root), value, propertyName)
    {
      if IsNullOrWhiteSpace(value) {
        RemoveElement(propertyName);
      } else {
        var i := AddOrGetPropertyElement(propertyName);
        root := ReplaceChild(root, i, SetValue(root.nodes[i].element, value.value));
      }
    }

    /**
     * Removes the element, then adds one `Value` child per item, creating the
     * element before the first item.
     */
    method SetStrings(values: Option<seq<Option<string>>>, propertyName: string)
      modifies this
      ensures root == AfterSetStrings(old(root), values, propertyName)
    {
      RemoveElement(propertyName);
      if values.None? {
        return;
      }
      var vs := values.value;
      ghost var r0 := root;
      ghost var (r1, i1) := AfterAddOrGet(r0, propertyName);
      var element: Option<nat> := None;
      var k := 0;
      while k < |vs|
        invariant 0 <= k <= |vs|
        invariant k == 0 ==> element.None? && root == r0
        invariant k > 0 ==> element == Some(i1) && root == AppendToChild(r1, i1, ValueNodes(vs[..k]))
      {
        if element.None? {
          var i := AddOrGetPropertyElement(propertyName);
          element := Some(i);
          assert root.nodes[i].element.nodes + [] == root.nodes[i].element.nodes;
        }
        AppendValueNode(element.value, XChild(ValueElement(None, vs[k])));
        AppendToChildTwice(r1, i1, ValueNodes(vs[..k]), [XChild(ValueElement(None, vs[k]))]);
        ValueNodesStep(vs, k);
        k := k + 1;
      }
      assert vs[..k] == vs;
    }

    /** `element.Add(node)` on the child element at `i`. */
    method AppendValueNode(i: nat, node: XNode)
      requires i < |root.nodes| && root.nodes[i].XChild?
      modifies this
      ensures root == AppendToChild(old(root), i, [node])
      ensures |root.nodes| == |old(root).nodes| && root.nodes[i].XChild?
      ensures forall j | 0 <= j < |root.nodes| && j != i :: root.nodes[j] == old(root).nodes[j]
      ensures root.nodes[i].element.name == old(root).nodes[i].element.name
    {
      var c := root.nodes[i].element;
      root := ReplaceChild(root, i, c.(nodes := c.nodes + [node]));
    }

    method SetBool(value: Option<bool>, propertyName: string)
      modifies this
      ensures root == AfterSetBool(old(root), value, propertyName)
    {
      if value.Some? {
        SetString(Some(if value.value then "1" else "0"), propertyName);
      } else {
        RemoveElement(propertyName);
      }
    }

    method SetInt(value: Option<Int32>, propertyName: string)
      modifies this
      ensures root == AfterSetInt(old(root), value, propertyName)
    {
      if value.Some? && value.value != 0 {
        SetString(Some(Format(value.value)), propertyName);
      } else {
        RemoveElement(propertyName);
      }
    }

    method SetInts(values: Option<seq<Int32>>, propertyName: string)
      modifies this
      ensures root == AfterSetInts(old(root), values, propertyName)
    {
      SetStrings(if values.None? then None else Some(FormatAll(values.value)), propertyName);
    }

    /** Removes the element, then, for a non-empty map, adds one keyed `Value` child per entry. */
    method SetDictionaryStringString(values: Option<seq<(string, Option<string>)>>, propertyName: string)
      modifies this
      ensures root == AfterSetDictionaryStringString(old(root), values, propertyName)
    {
      RemoveElement(propertyName);
      if values.None? || values.value == [] {
        return;
      }
      var es := values.value;
      ghost var r0 := root;
      var i := AddOrGetPropertyElement(propertyName);
      ghost var r1 := root;
      assert root.nodes[i].element.nodes + [] == root.nodes[i].element.nodes;
      var k := 0;
      while k < |es|
        invariant 0 <= k <= |es|
        invariant i < |root.nodes|
        invariant root == AppendToChild(r1, i, EntryNodes(es[..k]))
      {
        AppendValueNode(i, XChild(ValueElement(Some(es[k].0), es[k].1)));
        AppendToChildTwice(r1, i, EntryNodes(es[..k]), [XChild(ValueElement(Some(es[k].0), es[k].1))]);
        EntryNodesStep(es, k);
        k := k + 1;
      }
      assert es[..k] == es;
    }

    /** `Set`: writes the property by its declared type; an unsupported type writes nothing. */
    method Set(p: Property)
      modifies this
      ensures root == AfterSet(old(root), p)
    {
      if IsScalar(p.value) {
        SetScalar(p);
      } else {
        SetCollection(p);
      }
    }

    /** The branches of `Set` for `string`, `int`, `int?`, `bool` and `bool?`. */
    method SetScalar(p: Property)
      requires IsScalar(p.value)
      modifies this
      ensures root == AfterSet(old(root), p)
    {
      ghost var r0 := root;
      match p.value
      case StringValue(s) =>
        assert AfterSet(r0, p) == AfterSetString(r0, s, p.name);
        SetString(s, p.name);
      case IntValue(x) =>
        assert AfterSet(r0, p) == AfterSetInt(r0, Some(x), p.name);
        SetInt(Some(x), p.name);
      case NullableIntValue(x) =>
        assert AfterSet(r0, p) == AfterSetInt(r0, x, p.name);
        SetInt(x, p.name);
      case BoolValue(b) =>
        assert AfterSet(r0, p) == AfterSetBool(r0, Some(b), p.name);
        SetBool(Some(b), p.name);
      case NullableBoolValue(b) =>
        assert AfterSet(r0, p) == AfterSetBool(r0, b, p.name);
        SetBool(b, p.name);
    }

    /** The branches of `Set` for the list and dictionary types, and for an unsupported type. */
    method SetCollection(p: Property)
      requires !IsScalar(p.value)
      modifies this
      ensures root == AfterSet(old(root), p)
    {
      ghost var r0 := root;
      match p.value
      case StringListValue(vs) =>
        assert AfterSet(r0, p) == AfterSetStrings(r0, vs, p.name);
        SetStrings(vs, p.name);
      case IntListValue(vs) =>
        assert AfterSet(r0, p) == AfterSetInts(r0, vs, p.name);
        SetInts(vs, p.name);
      case StringDictionaryValue(es) =>
        assert AfterSet(r0, p) == AfterSetDictionaryStringString(r0, es, p.name);
        SetDictionaryStringString(es, p.name);
      case OtherValue(_) =>
    }

    /** Collects the text of every `Value` child; null without an element or without children. */
    method GetStrings(propertyName: string) returns (r: Option<seq<string>>)
      ensures r == StringsOf(root, propertyName)
    {
      var elements := GetValueElements(root, propertyName);
      if elements.None? || elements.value == [] {
        return None;
      }
      var es := elements.value;
      var ret: seq<string> := [];
      var k := 0;
      while k < |es|
        invariant 0 <= k <= |es|
        invariant ret == ElementValues(es)[..k]
      {
        ret := ret + [Value(es[k])];
        k := k + 1;
      }
      assert ElementValues(es)[..k] == ElementValues(es);
      return Some(ret);
    }

    /** Parses every `Value` child as an `int`, skipping those that do not parse; null without an element or without children. */
    method GetInts(propertyName: string) returns (r: Option<seq<Int32>>)
      ensures r == IntsOf(root, propertyName)
    {
      var elements := GetValueElements(root, propertyName);
      if elements.None? || elements.value == [] {
        return None;
      }
      var es := elements.value;
      var ret: seq<Int32> := [];
      var k := 0;
      while k < |es|
        invariant 0 <= k <= |es|
        invariant ret == Somes(ParseAll(es)[..k])
      {
        SomesStep(ParseAll(es), k);
        var parsed := TryParse(Value(es[k]), Number);
        k := k + 1;
        if parsed.None? {
          continue;
        }
        ret := ret + [parsed.value];
      }
      assert ParseAll(es)[..k] == ParseAll(es);
      return Some(ret);
    }

    /** Builds the dictionary from the keyed `Value` children, the first of each key winning; null without an element or without children. */
    method GetDictionaryStringString(propertyName: string) returns (r: Option<seq<(string, string)>>)
      ensures r == DictionaryOf(root, propertyName)
    {
      var elements := GetValueElements(root, propertyName);
      if elements.None? || elements.value == [] {
        return None;
      }
      var es := elements.value;
      var ret: seq<(string, string)> := [];
      var k := 0;
      while k < |es|
        invariant 0 <= k <= |es|
        invariant ret == FirstKeyWins(KeyedTexts(es)[..k])
      {
        FirstKeyWinsStep(KeyedTexts(es), k);
        var keyAttr := Attribute(es[k], KeyAttributename);
        if keyAttr.Some? && !HasKey(ret, keyAttr.value) {
          ret := ret + [(keyAttr.value, Value(es[k]))];
        }
        k := k + 1;
      }
      assert KeyedTexts(es)[..k] == KeyedTexts(es);
      return Some(ret);
    }

    /** `Get(PropertyInfo)`: reads the property by its declared type; an unsupported type fails with `NotSupported`. */
    method Get(info: PropertyInfo) returns (r: Result<PropertyValue, Error>)
      ensures r == XmlEntityCodec.Get(root, info)
    {
      var name := info.name;
      match info.propertyType
      case StringType =>
        r := Success(StringValue(GetString(root, name)));
      case StringListType =>
        var ss := GetStrings(name);
        r := Success(StringListValue(if ss.None? then None else Some(AsNullable(ss.value))));
      case IntType =>
        r := Success(IntValue(GetInt(root, name).GetOr(0)));
      case NullableIntType =>
        r := Success(NullableIntValue(GetInt(root, name)));
      case BoolType =>
        r := Success(BoolValue(GetBool(root, name).GetOr(false)));
      case NullableBoolType =>
        r := Success(NullableBoolValue(GetBool(root, name)));
      case IntListType =>
        var vs := GetInts(name);
        r := Success(IntListValue(vs));
      case StringDictionaryType =>
        var es := GetDictionaryStringString(name);
        r := Success(StringDictionaryValue(if es.None? then None else Some(AsNullableValues(es.value))));
      case OtherType(n) =>
        r := Failure(NotSupported(n));
    }
  }

  /** An `IXmlEntity`: its mapped properties, in the order reflection lists them. */
  class XmlEntity {
    var properties: seq<Property>

    constructor (properties: seq<Property>)
      ensures this.properties == properties
    {
      this.properties := properties;
    }

    /** Sets every mapped property on a fresh document; null when the root ends up without child elements. */
    method GetXmlValuesFromProperties() returns (xmlValues: Option<XElement>)
      ensures xmlValues == EncodedXmlValues(properties)
    {
      var document := new Document();
      var k := 0;
      while k < |properties|
        invariant 0 <= k <= |properties|
        invariant document.root == EncodeRoot(properties[..k])
      {
        assert properties[..k + 1][..k] == properties[..k];
        document.Set(properties[k]);
        k := k + 1;
      }
      assert properties[..k] == properties;
      if HasElements(document.root) {
        xmlValues := Some(document.root);
      } else {
        xmlValues := None;
      }
    }

    /**
     * Reads every mapped property from the document (an empty `Values`
     * document for a null blob). The first unsupported type stops the loop and
     * is returned as the error; the properties before it are already set.
     */
    method FillPropertiesFromXmlValues(xmlValues: Option<XElement>) returns (error: Option<Error>)
      modifies this
      ensures (properties, error) == Fill(RootOf(xmlValues), old(properties))
    {
      var document: Document;
      if xmlValues.None? {
        document := new Document();
      } else {
        document := new Document.Parsed(xmlValues.value);
      }
      ghost var root := document.root;
      ghost var props := properties;
      ghost var outcomes := Reads(root, props);
      var k := 0;
      while k < |properties|
        invariant 0 <= k <= |properties| == |props|
        invariant document.root == root && root == RootOf(xmlValues)
        invariant properties[k..] == props[k..]
        invariant FillWith(outcomes[..k], props[..k]) == (properties[..k], None)
      {
        var value := document.Get(properties[k].Info());
        assert outcomes[k] == value by {
          assert properties[k] == props[k];
        }
        match value
        case Failure(e) =>
          FillFailsAt(outcomes, props, properties, k, e);
          assert Fill(root, props) == FillWith(outcomes, props);
          return Some(e);
        case Success(v) =>
          FillSucceedsAt(outcomes, props, properties, k, v);
          properties := properties[k := properties[k].(value := v)];
          k := k + 1;
      }
      assert outcomes[..k] == outcomes && props[..k] == props;
      assert properties[..k] == properties;
      assert Fill(root, props) == FillWith(outcomes, props);
      return None;
    }
  }

  /** A fold whose prefix succeeded, followed by a failed outcome, ends with that failure. */
  lemma FillFailsAt(outcomes: seq<Result<PropertyValue, Error>>, props: seq<Property>, current: seq<Property>, k: nat, e: Error)
    requires k < |props| == |current| == |outcomes|
    requires current[k..] == props[k..]
    requires FillWith(outcomes[..k], props[..k]) == (current[..k], None)
    requires outcomes[k] == Failure(e)
    ensures FillWith(outcomes, props) == (current, Some(e))
  {
    var head := current[..k] + [props[k]];
    assert outcomes[..k + 1][..k] == outcomes[..k] && props[..k + 1][..k] == props[..k];
    assert outcomes[..k + 1][k] == Failure(e) && props[..k + 1][k] == props[k];
    assert FillWith(outcomes[..k + 1], props[..k + 1]) == (head, Some(e));
    FillWithKeepsError(outcomes, props, k + 1);
    Splice(current, props, k);
  }

  /** A fold whose prefix succeeded, followed by a successful outcome, succeeds one further. */
  lemma FillSucceedsAt(outcomes: seq<Result<PropertyValue, Error>>, props: seq<Property>, current: seq<Property>, k: nat, v: PropertyValue)
    requires k < |props| == |current| == |outcomes|
    requires current[k..] == props[k..]
    requires FillWith(outcomes[..k], props[..k]) == (current[..k], None)
    requires outcomes[k] == Success(v)
    ensures var next := current[k := current[k].(value := v)];
            FillWith(outcomes[..k + 1], props[..k + 1]) == (next[..k + 1], None) && next[k + 1..] == props[k + 1..]
  {
    var next := current[k := current[k].(value := v)];
    assert current[k] == props[k];
    assert outcomes[..k + 1][..k] == outcomes[..k] && props[..k + 1][..k] == props[..k];
    assert next[..k + 1] == current[..k] + [props[k].(value := v)];
    assert next[k + 1..] == current[k + 1..];
  }

  /** A sequence that agrees with `b` from `k` on is its prefix, `b[k]` and the rest of `b`. */
  lemma Splice<T>(a: seq<T>, b: seq<T>, k: nat)
    requires k < |a| == |b| && a[k..] == b[k..]
    ensures a[..k] + [b[k]] + b[k + 1..] == a
  {
    assert a[k] == a[k..][0];
    assert a[k + 1..] == a[k..][1..];
  }

  lemma ValueNodesStep(vs: seq<Option<string>>, k: nat)
    requires k < |vs|
    ensures ValueNodes(vs[..k + 1]) == ValueNodes(vs[..k]) + [XChild(ValueElement(None, vs[k]))]
  {
    assert vs[..k + 1][..k] == vs[..k];
  }

  lemma EntryNodesStep(es: seq<(string, Option<string>)>, k: nat)
    requires k < |es|
    ensures EntryNodes(es[..k + 1]) == EntryNodes(es[..k]) + [XChild(ValueElement(Some(es[k].0), es[k].1))]
  {
    assert es[..k + 1][..k] == es[..k];
  }

  lemma AppendToChildTwice(r: XElement, i: nat, a: seq<XNode>, b: seq<XNode>)
    requires i < |r.nodes| && r.nodes[i].XChild?
    ensures AppendToChild(AppendToChild(r, i, a), i, b) == AppendToChild(r, i, a + b)
  {
    var c := r.nodes[i].element;
    assert c.nodes + a + b == c.nodes + (a + b);
  }

  lemma SomesStep(xs: seq<Option<Int32>>, k: nat)
    requires k < |xs|
    ensures Somes(xs[..k + 1]) == Somes(xs[..k]) + (match xs[k] case None => [] case Some(v) => [v])
  {
    assert xs[..k + 1][..k] == xs[..k];
  }

  lemma FirstKeyWinsStep(pairs: seq<(Option<string>, string)>, k: nat)
    requires k < |pairs|
    ensures var init := FirstKeyWins(pairs[..k]);
            var (key, text) := pairs[k];
            FirstKeyWins(pairs[..k + 1]) == if key.None? || HasKey(init, key.value) then init else init + [(key.value, text)]
  {
    assert pairs[..k + 1][..k] == pairs[..k];
  }
}
