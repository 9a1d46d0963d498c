/**
 * The encoding of `XmlEntityExtensions`, stated on values: a mapped property is
 * stored under a root element `Values` as a child element named after the
 * property, holding either text or `Value` children (with a `Key` attribute for
 * dictionary entries). Every function `AfterX` gives the root element after the
 * source's in-place setter `X`; the getters read the root element. The class
 * `Document` (module XmlEntityExtensions) performs the same edits in place.
 */
module XmlEntityCodec {
  import opened Common
  import opened IntText
  import opened XLinq

  const RootNodename: string := "Values"
  const ValueNodename: string := "Value"
  const KeyAttributename: string := "Key"

  /** The root of a fresh document, `new XDocument(new XElement("Values"))`. */
  const EmptyRoot: XElement := XElement(RootNodename, [], [])

  // ---------------------------------------------------------------- property types and values

  /**
   * The declared type of a mapped property. `IEnumerable<T>` and `IList<T>`
   * are handled alike; `Other` is any type outside the supported set.
   */
  datatype PropertyType =
    | StringType
    | StringListType
    | IntType
    | NullableIntType
    | BoolType
    | NullableBoolType
    | IntListType
    | StringDictionaryType
    | OtherType(fullName: string)

  /**
   * The value a mapped property holds. `None` is C#'s `null`. The items of a
   * string list and the values of a dictionary may be null too; a dictionary is
   * the sequence of its entries in enumeration order.
   */
  datatype PropertyValue =
    | StringValue(s: Option<string>)
    | StringListValue(strings: Option<seq<Option<string>>>)
    | IntValue(i: Int32)
    | NullableIntValue(ni: Option<Int32>)
    | BoolValue(b: bool)
    | NullableBoolValue(nb: Option<bool>)
    | IntListValue(ints: Option<seq<Int32>>)
    | StringDictionaryValue(entries: Option<seq<(string, Option<string>)>>)
    | OtherValue(typeName: string)

  function TypeOf(v: PropertyValue): PropertyType
  {
    match v
    case StringValue(_) => StringType
    case StringListValue(_) => StringListType
    case IntValue(_) => IntType
    case NullableIntValue(_) => NullableIntType
    case BoolValue(_) => BoolType
    case NullableBoolValue(_) => NullableBoolType
    case IntListValue(_) => IntListType
    case StringDictionaryValue(_) => StringDictionaryType
    case OtherValue(t) => OtherType(t)
  }

  /** What reflection tells about a mapped property: its name and declared type. */
  datatype PropertyInfo = PropertyInfo(name: string, propertyType: PropertyType)

  /** A mapped property of an entity together with its current value. */
  datatype Property = Property(name: string, value: PropertyValue)
  {
    function Info(): PropertyInfo { PropertyInfo(name, TypeOf(value)) }
  }

  datatype Error =
    | NotSupported(typeFullName: string)
    | UnsupportedMemberExpression
    | UnsupportedUnaryExpression
    | UnsupportedExpression

  /** The value `Get` yields for a property whose element is absent (C#'s `default`, or null). */
  function DefaultValue(t: PropertyType): PropertyValue
  {
    match t
    case StringType => StringValue(None)
    case StringListType => StringListValue(None)
    case IntType => IntValue(0)
    case NullableIntType => NullableIntValue(None)
    case BoolType => BoolValue(false)
    case NullableBoolType => NullableBoolValue(None)
    case IntListType => IntListValue(None)
    case StringDictionaryType => StringDictionaryValue(None)
    case OtherType(n) => OtherValue(n)
  }

  // ---------------------------------------------------------------- strings

  /** `char.IsWhiteSpace`: the Unicode space, line and paragraph separators, and U+0009..U+000D, U+0085. */
  predicate IsWhiteSpace(c: char)
  {
    var n := c as int;
    || n == 0x20 || (0x09 <= n <= 0x0D) || n == 0x85 || n == 0xA0 || n == 0x1680
    || (0x2000 <= n <= 0x200A) || n == 0x2028 || n == 0x2029 || n == 0x202F || n == 0x205F || n == 0x3000
  }

  /** `string.TrimStart()`: the text without its leading white space. */
  function TrimStart(t: string): (r: string)
    ensures |r| <= |t|
    ensures r == [] || !IsWhiteSpace(r[0])
  {
    if t != [] && IsWhiteSpace(t[0]) then TrimStart(t[1..]) else t
  }

  lemma {:induction false} TrimStartEmpty(t: string)
    ensures TrimStart(t) == [] <==> forall i | 0 <= i < |t| :: IsWhiteSpace(t[i])
  {
    if t != [] && IsWhiteSpace(t[0]) {
      TrimStartEmpty(t[1..]);
      assert forall i | 1 <= i < |t| :: t[i] == t[1..][i - 1];
    }
  }

  /**
   * `string.IsNullOrWhiteSpace`: every character is white space. It holds
   * exactly when the value is null or trimming its leading white space leaves
   * nothing.
   */
  predicate IsNullOrWhiteSpace(s: Option<string>)
    ensures IsNullOrWhiteSpace(s) <==> s.None? || TrimStart(s.value) == []
  {
    match s
    case None => true
    case Some(t) =>
      TrimStartEmpty(t);
      forall i | 0 <= i < |t| :: IsWhiteSpace(t[i])
  }

  // ---------------------------------------------------------------- document helpers

  /** `GetElement`: the first child of the root named after the property. */
  function GetElement(root: XElement, propertyName: string): (r: Option<XElement>)
    ensures r.Some? ==> r.value.name == propertyName
    ensures r.None? <==> forall k | 0 <= k < |root.nodes| :: !IsElementNamed(root.nodes[k], propertyName)
  {
    Element(root, propertyName)
  }

  /** `GetValueElements`: the `Value` children of the property element, or null without one. */
  function GetValueElements(root: XElement, propertyName: string): (r: Option<seq<XElement>>)
    ensures r.None? <==> GetElement(root, propertyName).None?
    ensures r.Some? ==> forall k | 0 <= k < |r.value| :: r.value[k].name == ValueNodename
    ensures r.Some? ==> r.value == Elements(GetElement(root, propertyName).value.nodes, ValueNodename)
  {
    match GetElement(root, propertyName)
    case None => None
    case Some(e) => Some(Elements(e.nodes, ValueNodename))
  }

  /**
   * `AddOrGetPropertyElement`: the root after the call, and the position of the
   * element returned (the existing first one, or a new empty one appended).
   */
  function AfterAddOrGet(root: XElement, propertyName: string): (r: (XElement, nat))
    ensures r.1 < |r.0.nodes| && FirstIndex(r.0.nodes, propertyName) == Some(r.1)
    ensures r.0.name == root.name && r.0.attributes == root.attributes
  {
    match FirstIndex(root.nodes, propertyName)
    case Some(i) => (root, i)
    case None =>
      var r := root.(nodes := root.nodes + [XChild(XElement(propertyName, [], []))]);
      FirstIndexIs(r.nodes, propertyName, |root.nodes|);
      (r, |root.nodes|)
  }

  /** `RemoveElement`: the root without its first child element named after the property. */
  function AfterRemoveElement(root: XElement, propertyName: string): (r: XElement)
    ensures r.name == root.name && r.attributes == root.attributes
    ensures |r.nodes| == |root.nodes| - (if FirstIndex(root.nodes, propertyName).Some? then 1 else 0)
  {
    match FirstIndex(root.nodes, propertyName)
    case None => root
    case Some(i) => root.(nodes := root.nodes[..i] + root.nodes[i + 1..])
  }

  /** The root with the child element at `i` replaced (an in-place edit of that element). */
  function ReplaceChild(root: XElement, i: nat, e: XElement): XElement
    requires i < |root.nodes|
  {
    root.(nodes := root.nodes[i := XChild(e)])
  }

  /** `element.Add(...)` on the child element at `i`: its nodes grow by `extra`. */
  function AppendToChild(root: XElement, i: nat, extra: seq<XNode>): XElement
    requires i < |root.nodes| && root.nodes[i].XChild?
  {
    var c := root.nodes[i].element;
    ReplaceChild(root, i, c.(nodes := c.nodes + extra))
  }

  /** `new XElement("Value", value)`, with `Key` set when `key` is given. A null value gives an empty element. */
  function ValueElement(key: Option<string>, value: Option<string>): XElement
  {
    XElement(ValueNodename,
             if key.Some? then [XAttribute(KeyAttributename, key.value)] else [],
             if value.Some? then [XText(value.value)] else [])
  }

  /** The `Value` children written for a list, one per item, in order. */
  function ValueNodes(values: seq<Option<string>>): (r: seq<XNode>)
    ensures |r| == |values|
  {
    seq(|values|, i requires 0 <= i < |values| => XChild(ValueElement(None, values[i])))
  }

  /** The `Value` children written for a dictionary, one per entry, keyed. */
  function EntryNodes(entries: seq<(string, Option<string>)>): (r: seq<XNode>)
    ensures |r| == |entries|
  {
    seq(|entries|, i requires 0 <= i < |entries| => XChild(ValueElement(Some(entries[i].0), entries[i].1)))
  }

  // ---------------------------------------------------------------- setters

  /** `SetString`: a null or white-space value removes the element; any other becomes its text. */
  function AfterSetString(root: XElement, value: Option<string>, propertyName: string): (r: XElement)
    ensures r.name == root.name && r.attributes == root.attributes
    ensures !IsNullOrWhiteSpace(value) ==> GetString(r, propertyName) == value
  {
    if IsNullOrWhiteSpace(value) then AfterRemoveElement(root, propertyName)
    else
      var (r1, i) := AfterAddOrGet(root, propertyName);
      var r2 := ReplaceChild(r1, i, SetValue(r1.nodes[i].element, value.value));
      FirstIndexIs(r2.nodes, propertyName, i);
      r2
  }

  /** `SetStrings`: removes the element, then writes one `Value` child per item when there is one. */
  function AfterSetStrings(root: XElement, values: Option<seq<Option<string>>>, propertyName: string): (r: XElement)
    ensures r.name == root.name && r.attributes == root.attributes
    ensures values.Some? && values.value != [] ==> GetElement(r, propertyName).Some?
  {
    var r0 := AfterRemoveElement(root, propertyName);
    if values.None? || values.value == [] then r0
    else
      var (r1, i) := AfterAddOrGet(r0, propertyName);
      var r2 := AppendToChild(r1, i, ValueNodes(values.value));
      FirstIndexIs(r2.nodes, propertyName, i);
      r2
  }

  /** `SetBool`: true as "1", false as "0"; null removes the element. */
  function AfterSetBool(root: XElement, value: Option<bool>, propertyName: string): (r: XElement)
    ensures r.name == root.name && r.attributes == root.attributes
    ensures value.Some? ==> GetString(r, propertyName) == Some(if value.value then "1" else "0")
  {
    if value.Some? then
      var text := if value.value then "1" else "0";
      assert !IsWhiteSpace(text[0]);
      AfterSetString(root, Some(text), propertyName)
    else AfterRemoveElement(root, propertyName)
  }

  /** `SetInt`: a non-zero value as invariant decimal text; null and 0 remove the element. */
  function AfterSetInt(root: XElement, value: Option<Int32>, propertyName: string): (r: XElement)
    ensures r.name == root.name && r.attributes == root.attributes
    ensures value.Some? && value.value != 0 ==> GetString(r, propertyName) == Some(Format(value.value))
  {
    if value.Some? && value.value != 0 then
      assert !IsWhiteSpace(Format(value.value)[0]);
      AfterSetString(root, Some(Format(value.value)), propertyName)
    else AfterRemoveElement(root, propertyName)
  }

  /** `values.Select(v => v.ToString(CultureInfo.InvariantCulture))`. */
  function FormatAll(values: seq<Int32>): (r: seq<Option<string>>)
    ensures |r| == |values|
  {
    seq(|values|, i requires 0 <= i < |values| => Some(Format(values[i])))
  }

  /** `SetInts`: `SetStrings` of the invariant decimal texts. */
  function AfterSetInts(root: XElement, values: Option<seq<Int32>>, propertyName: string): (r: XElement)
    ensures r.name == root.name && r.attributes == root.attributes
    ensures values.Some? && values.value != [] ==> GetElement(r, propertyName).Some?
  {
    AfterSetStrings(root, if values.None? then None else Some(FormatAll(values.value)), propertyName)
  }

  /** `SetDictionaryStringString`: removes the element, then writes one keyed `Value` child per entry when there is one. */
  function AfterSetDictionaryStringString(root: XElement, values: Option<seq<(string, Option<string>)>>, propertyName: string): (r: XElement)
    ensures r.name == root.name && r.attributes == root.attributes
    ensures values.Some? && values.value != [] ==> GetElement(r, propertyName).Some?
  {
    var r0 := AfterRemoveElement(root, propertyName);
    if values.None? || values.value == [] then r0
    else
      var (r1, i) := AfterAddOrGet(r0, propertyName);
      var r2 := AppendToChild(r1, i, EntryNodes(values.value));
      FirstIndexIs(r2.nodes, propertyName, i);
      r2
  }

  /** `Set`: dispatch on the declared type; an unsupported type writes nothing. */
  function AfterSet(root: XElement, p: Property): (r: XElement)
    ensures r.name == root.name && r.attributes == root.attributes
    ensures p.value.OtherValue? ==> r == root
  {
    match p.value
    case StringValue(s) => AfterSetString(root, s, p.name)
    case IntValue(x) => AfterSetInt(root, Some(x), p.name)
    case NullableIntValue(x) => AfterSetInt(root, x, p.name)
    case BoolValue(b) => AfterSetBool(root, Some(b), p.name)
    case NullableBoolValue(b) => AfterSetBool(root, b, p.name)
    case StringListValue(vs) => AfterSetStrings(root, vs, p.name)
    case IntListValue(vs) => AfterSetInts(root, vs, p.name)
    case StringDictionaryValue(es) => AfterSetDictionaryStringString(root, es, p.name)
    case OtherValue(_) => root
  }

  // ---------------------------------------------------------------- getters

  /** `GetString`: the element's text, or null without an element. */
  function GetString(root: XElement, propertyName: string): (r: Option<string>)
    ensures r.None? <==> GetElement(root, propertyName).None?
  {
    match GetElement(root, propertyName)
    case None => None
    case Some(e) => Some(Value(e))
  }

  /** `GetInt`: the element's text read with `NumberStyles.Number`; null when absent or unparseable. */
  function GetInt(root: XElement, propertyName: string): (r: Option<Int32>)
    ensures GetElement(root, propertyName).None? ==> r.None?
  {
    match GetElement(root, propertyName)
    case None => None
    case Some(e) => TryParse(Value(e), Number)
  }

  /** `GetBool`: any integer text (`NumberStyles.Integer`) is `val != 0`; null when absent or not an integer. */
  function GetBool(root: XElement, propertyName: string): (r: Option<bool>)
    ensures GetElement(root, propertyName).None? ==> r.None?
  {
    match GetElement(root, propertyName)
    case None => None
    case Some(e) =>
      match TryParse(Value(e), Integer)
      case None => None
      case Some(v) => Some(v != 0)
  }

  /** The texts of the `Value` children, in order. */
  function ElementValues(es: seq<XElement>): (r: seq<string>)
    ensures |r| == |es|
  {
    seq(|es|, i requires 0 <= i < |es| => Value(es[i]))
  }

  /** Each `Value` child's text read as an `int` with `NumberStyles.Number`, null where it does not parse. */
  function ParseAll(es: seq<XElement>): (r: seq<Option<Int32>>)
    ensures |r| == |es|
  {
    seq(|es|, i requires 0 <= i < |es| => TryParse(Value(es[i]), Number))
  }

  /** The values that are present, in order; the missing ones are skipped (`continue` in `GetInts`). */
  function Somes(xs: seq<Option<Int32>>): (r: seq<Int32>)
    ensures |r| <= |xs|
    ensures forall v: Int32 :: v in r <==> Some(v) in xs
  {
    if xs == [] then []
    else
      var init := Somes(xs[..|xs| - 1]);
      match xs[|xs| - 1]
      case None => init
      case Some(v) => init + [v]
  }

  predicate HasKey(entries: seq<(string, string)>, key: string)
  {
    exists i | 0 <= i < |entries| :: entries[i].0 == key
  }

  predicate DistinctKeys<V>(entries: seq<(string, V)>)
  {
    forall i, j | 0 <= i < j < |entries| :: entries[i].0 != entries[j].0
  }

  /** Each `Value` child's `Key` attribute (if any) and text. */
  function KeyedTexts(es: seq<XElement>): (r: seq<(Option<string>, string)>)
    ensures |r| == |es|
  {
    seq(|es|, i requires 0 <= i < |es| => (Attribute(es[i], KeyAttributename), Value(es[i])))
  }

  /**
   * The dictionary `GetDictionaryStringString` builds, as its entries in
   * insertion order: a child without a key is ignored, and of several children
   * with the same key only the first is kept.
   */
  function FirstKeyWins(pairs: seq<(Option<string>, string)>): (r: seq<(string, string)>)
    ensures |r| <= |pairs|
    ensures DistinctKeys(r)
  {
    if pairs == [] then []
    else
      var init := FirstKeyWins(pairs[..|pairs| - 1]);
      var (key, text) := pairs[|pairs| - 1];
      if key.None? || HasKey(init, key.value) then init else init + [(key.value, text)]
  }

  /** What `GetStrings` returns: null without an element or without `Value` children. */
  function StringsOf(root: XElement, propertyName: string): (r: Option<seq<string>>)
    ensures r.Some? ==> r.value != []
    ensures GetValueElements(root, propertyName) == Some([]) ==> r.None?
    ensures GetElement(root, propertyName).None? ==> r.None?
    ensures GetValueElements(root, propertyName).Some? && GetValueElements(root, propertyName).value != [] ==> r.Some?
  {
    match GetValueElements(root, propertyName)
    case None => None
    case Some(es) => if es == [] then None else Some(ElementValues(es))
  }

  /** What `GetInts` returns: null without an element or without `Value` children. */
  function IntsOf(root: XElement, propertyName: string): (r: Option<seq<Int32>>)
    ensures GetElement(root, propertyName).None? ==> r.None?
    ensures GetValueElements(root, propertyName) == Some([]) ==> r.None?
    ensures GetValueElements(root, propertyName).Some? && GetValueElements(root, propertyName).value != [] ==> r.Some?
  {
    match GetValueElements(root, propertyName)
    case None => None
    case Some(es) => if es == [] then None else Some(Somes(ParseAll(es)))
  }

  /** What `GetDictionaryStringString` returns: null without an element or without `Value` children. */
  function DictionaryOf(root: XElement, propertyName: string): (r: Option<seq<(string, string)>>)
    ensures GetElement(root, propertyName).None? ==> r.None?
    ensures GetValueElements(root, propertyName) == Some([]) ==> r.None?
    ensures GetValueElements(root, propertyName).Some? && GetValueElements(root, propertyName).value != [] ==> r.Some?
    ensures r.Some? ==> DistinctKeys(r.value)
  {
    match GetValueElements(root, propertyName)
    case None => None
    case Some(es) => if es == [] then None else Some(FirstKeyWins(KeyedTexts(es)))
  }

  function AsNullable(ss: seq<string>): (r: seq<Option<string>>)
    ensures |r| == |ss|
  {
    seq(|ss|, i requires 0 <= i < |ss| => Some(ss[i]))
  }

  function AsNullableValues(entries: seq<(string, string)>): (r: seq<(string, Option<string>)>)
    ensures |r| == |entries|
  {
    seq(|entries|, i requires 0 <= i < |entries| => (entries[i].0, Some(entries[i].1)))
  }

  /**
   * `Get(PropertyInfo)`: dispatch on the declared type. An unsupported type
   * throws `NotSupportedException`; a supported one yields a value of that type,
   * its default when the element is absent.
   */
  function Get(root: XElement, info: PropertyInfo): (r: Result<PropertyValue, Error>)
    ensures r.Failure? <==> info.propertyType.OtherType?
    ensures r.Failure? ==> r.error == NotSupported(info.propertyType.fullName)
    ensures r.Success? ==> TypeOf(r.value) == info.propertyType
  {
    var name := info.name;
    match info.propertyType
    case StringType => Success(StringValue(GetString(root, name)))
    case StringListType =>
      Success(StringListValue(match StringsOf(root, name) case None => None case Some(ss) => Some(AsNullable(ss))))
    case IntType => Success(IntValue(GetInt(root, name).GetOr(0)))
    case NullableIntType => Success(NullableIntValue(GetInt(root, name)))
    case BoolType => Success(BoolValue(GetBool(root, name).GetOr(false)))
    case NullableBoolType => Success(NullableBoolValue(GetBool(root, name)))
    case IntListType => Success(IntListValue(IntsOf(root, name)))
    case StringDictionaryType =>
      Success(StringDictionaryValue(match DictionaryOf(root, name) case None => None case Some(es) => Some(AsNullableValues(es))))
    case OtherType(n) => Failure(NotSupported(n))
  }

  // ---------------------------------------------------------------- property selectors

  datatype MemberInfo = PropertyMember(property: PropertyInfo) | OtherMember(memberType: string)

  datatype UnaryNodeType = Convert | OtherUnaryNode(nodeType: string)

  /** The shapes of `System.Linq.Expressions.Expression` that `Get(Expression)` tells apart. */
  datatype Expression =
    | MemberExpression(member: MemberInfo)
    | UnaryExpression(unaryType: UnaryNodeType, operand: Expression)
    | OtherExpression(nodeType: string)

  /** A property access wrapped in `depth` `Convert` nodes. */
  function Converted(p: PropertyInfo, depth: nat): (e: Expression)
  {
    if depth == 0 then MemberExpression(PropertyMember(p)) else UnaryExpression(Convert, Converted(p, depth - 1))
  }

  /** The number of `Convert` nodes on top of an expression. */
  function ConvertDepth(e: Expression): nat
  {
    match e
    case UnaryExpression(Convert, operand) => ConvertDepth(operand) + 1
    case _ => 0
  }

  /**
   * The recursion of `Get(Expression)`: unwraps `Convert` nodes down to a
   * property access; any other member, unary node or expression throws.
   */
  function PropertyOf(e: Expression): (r: Result<PropertyInfo, Error>)
    ensures r.Success? ==> e == Converted(r.value, ConvertDepth(e))
  {
    match e
    case MemberExpression(PropertyMember(p)) => Success(p)
    case MemberExpression(OtherMember(_)) => Failure(UnsupportedMemberExpression)
    case UnaryExpression(Convert, operand) => PropertyOf(operand)
    case UnaryExpression(OtherUnaryNode(_), _) => Failure(UnsupportedUnaryExpression)
    case OtherExpression(_) => Failure(UnsupportedExpression)
  }

  /**
   * `Get(Expression)` (and `Get<T, TValue>(selector)`, which passes the
   * selector's body): a selector that does not resolve to a property fails with
   * its own error; one that does reads that property.
   */
  function GetByExpression(root: XElement, e: Expression): (r: Result<PropertyValue, Error>)
    ensures PropertyOf(e).Failure? ==> r == Failure(PropertyOf(e).error)
    ensures r.Failure? <==> PropertyOf(e).Failure? || PropertyOf(e).value.propertyType.OtherType?
    ensures r.Success? ==> TypeOf(r.value) == PropertyOf(e).value.propertyType
  {
    match PropertyOf(e)
    case Failure(err) => Failure(err)
    case Success(p) => Get(root, p)
  }

  // ---------------------------------------------------------------- whole entity

  /** The root after `Set` of each mapped property in turn, starting from an empty `Values` root. */
  function EncodeRoot(props: seq<Property>): (r: XElement)
    ensures r.name == RootNodename && r.attributes == []
  {
    if props == [] then EmptyRoot
    else AfterSet(EncodeRoot(props[..|props| - 1]), props[|props| - 1])
  }

  /** `GetXmlValuesFromProperties`: the document, or null when the root has no child element. */
  function EncodedXmlValues(props: seq<Property>): (r: Option<XElement>)
    ensures r.Some? ==> HasElements(r.value) && r.value.name == RootNodename
  {
    var root := EncodeRoot(props);
    if HasElements(root) then Some(root) else None
  }

  /** The root `FillPropertiesFromXmlValues` reads: an empty `Values` root for a null blob. */
  function RootOf(xmlValues: Option<XElement>): XElement
  {
    xmlValues.GetOr(EmptyRoot)
  }

  /** What `Get` returns for each property, in order. */
  function Reads(root: XElement, props: seq<Property>): (r: seq<Result<PropertyValue, Error>>)
    ensures |r| == |props|
  {
    seq(|props|, k requires 0 <= k < |props| => Get(root, props[k].Info()))
  }

  /**
   * The loop of `FillPropertiesFromXmlValues` over the values `Get` returns:
   * each property in turn takes its value; the first failure stops the loop
   * with its error, leaving the properties from there on unchanged.
   */
  function FillWith(outcomes: seq<Result<PropertyValue, Error>>, props: seq<Property>): (r: (seq<Property>, Option<Error>))
    requires |outcomes| == |props|
    ensures |r.0| == |props|
    ensures forall k | 0 <= k < |props| :: r.0[k].name == props[k].name
  {
    if props == [] then ([], None)
    else
      var n := |props| - 1;
      var (init, err) := FillWith(outcomes[..n], props[..n]);
      if err.Some? then (init + [props[n]], err)
      else match outcomes[n]
        case Failure(e) => (init + [props[n]], Some(e))
        case Success(v) => (init + [props[n].(value := v)], None)
  }

  /**
   * `FillPropertiesFromXmlValues` on a parsed root. `Get` only reads the
   * document, so reading every property up front and folding is the same as
   * reading them one at a time until the first failure.
   */
  function Fill(root: XElement, props: seq<Property>): (r: (seq<Property>, Option<Error>))
    ensures |r.0| == |props|
    ensures forall k | 0 <= k < |props| :: r.0[k].name == props[k].name
    ensures r.1.None? <==> forall k | 0 <= k < |props| :: !props[k].value.OtherValue?
    ensures r.1.Some? ==> exists k | 0 <= k < |props| ::
      props[k].value.OtherValue? && r.1.value == NotSupported(props[k].value.typeName)
  {
    var outcomes := Reads(root, props);
    assert forall k | 0 <= k < |props| :: outcomes[k].Success? <==> !props[k].value.OtherValue?;
    assert forall k | 0 <= k < |props| && outcomes[k].Failure? ::
      outcomes[k].error == NotSupported(props[k].value.typeName);
    FillWithError(outcomes, props);
    FillWith(outcomes, props)
  }

  /** The fold reports an error exactly when some read failed, and the error it reports is one of theirs. */
  lemma {:induction false} FillWithError(outcomes: seq<Result<PropertyValue, Error>>, props: seq<Property>)
    requires |outcomes| == |props|
    ensures FillWith(outcomes, props).1.None? <==> forall k | 0 <= k < |props| :: outcomes[k].Success?
    ensures FillWith(outcomes, props).1.Some? ==>
      exists k | 0 <= k < |props| :: outcomes[k] == Failure(FillWith(outcomes, props).1.value)
  {
    if props != [] {
      var n := |props| - 1;
      assert forall j | 0 <= j < n :: outcomes[..n][j] == outcomes[j];
      FillWithError(outcomes[..n], props[..n]);
    }
  }
}
