/**
 * The part of LINQ to XML the codec uses, on immutable values: an element has a
 * name, attributes and an ordered list of child nodes (text or elements).
 */
module XLinq {
  import opened Common

  datatype XAttribute = XAttribute(name: string, value: string)

  datatype XElement = XElement(name: string, attributes: seq<XAttribute>, nodes: seq<XNode>)

  datatype XNode = XText(text: string) | XChild(element: XElement)

  /**
   * `XElement.Value`: the text of all descendant text nodes, in document order.
   * An element without nodes has the empty text, and one holding a single text
   * node has that text.
   */
  function Value(e: XElement): (r: string)
    ensures e.nodes == [] ==> r == ""
    ensures |e.nodes| == 1 && e.nodes[0].XText? ==> r == e.nodes[0].text
    decreases e, |e.nodes| + 1
  {
    if |e.nodes| == 1 && e.nodes[0].XText? then
      assert TextFrom(e, 1) == "";
      TextFrom(e, 0)
    else TextFrom(e, 0)
  }

  function TextFrom(e: XElement, i: nat): string
    requires i <= |e.nodes|
    decreases e, |e.nodes| - i
  {
    if i == |e.nodes| then ""
    else
      var head := match e.nodes[i]
        case XText(t) => t
        case XChild(c) => Value(c);
      head + TextFrom(e, i + 1)
  }

  lemma ValueOfText(name: string, attributes: seq<XAttribute>, t: string)
    ensures Value(XElement(name, attributes, [XText(t)])) == t
  {
  }

  lemma ValueOfEmpty(name: string, attributes: seq<XAttribute>)
    ensures Value(XElement(name, attributes, [])) == ""
  {
  }

  predicate IsElementNamed(n: XNode, name: string)
  {
    n.XChild? && n.element.name == name
  }

  /** The position of the first child element called `name`, if any. */
  function FirstIndex(nodes: seq<XNode>, name: string): (r: Option<nat>)
    ensures r.Some? ==> r.value < |nodes| && IsElementNamed(nodes[r.value], name)
    ensures r.Some? ==> forall k | 0 <= k < r.value :: !IsElementNamed(nodes[k], name)
    ensures r.None? ==> forall k | 0 <= k < |nodes| :: !IsElementNamed(nodes[k], name)
  {
    if nodes == [] then None
    else if IsElementNamed(nodes[0], name) then Some(0)
    else match FirstIndex(nodes[1..], name)
      case None => None
      case Some(k) => Some(k + 1)
  }

  /** A position holding an element called `name` with none before it is the first index. */
  lemma FirstIndexIs(nodes: seq<XNode>, name: string, i: nat)
    requires i < |nodes| && IsElementNamed(nodes[i], name)
    requires forall k | 0 <= k < i :: !IsElementNamed(nodes[k], name)
    ensures FirstIndex(nodes, name) == Some(i)
  {
  }

  lemma FirstIndexNone(nodes: seq<XNode>, name: string)
    requires forall k | 0 <= k < |nodes| :: !IsElementNamed(nodes[k], name)
    ensures FirstIndex(nodes, name) == None
  {
  }

  /** `XContainer.Element(name)`: the first child element called `name`, or null. */
  function Element(e: XElement, name: string): (r: Option<XElement>)
    ensures r.Some? ==> r.value.name == name
    ensures r.None? <==> forall k | 0 <= k < |e.nodes| :: !IsElementNamed(e.nodes[k], name)
    ensures r.Some? ==> exists k | 0 <= k < |e.nodes| ::
      e.nodes[k] == XChild(r.value) && forall j | 0 <= j < k :: !IsElementNamed(e.nodes[j], name)
  {
    match FirstIndex(e.nodes, name)
    case None => None
    case Some(i) => Some(e.nodes[i].element)
  }

  /** `XContainer.Elements(name)`: the child elements called `name`, in order. */
  function Elements(nodes: seq<XNode>, name: string): (r: seq<XElement>)
    ensures |r| <= |nodes|
    ensures forall e :: e in r <==> e.name == name && XChild(e) in nodes
  {
    if nodes == [] then []
    else
      var last := nodes[|nodes| - 1];
      Elements(nodes[..|nodes| - 1], name) + (if IsElementNamed(last, name) then [last.element] else [])
  }

  /** When every node is an element called `name`, `Elements(name)` returns all of them. */
  lemma {:induction false} ElementsOfAll(nodes: seq<XNode>, name: string)
    requires forall k | 0 <= k < |nodes| :: IsElementNamed(nodes[k], name)
    ensures |Elements(nodes, name)| == |nodes|
    ensures forall k | 0 <= k < |nodes| :: XChild(Elements(nodes, name)[k]) == nodes[k]
  {
    if nodes != [] {
      var n := |nodes| - 1;
      ElementsOfAll(nodes[..n], name);
      assert Elements(nodes, name) == Elements(nodes[..n], name) + [nodes[n].element];
    }
  }

  /** A node on its own contributes itself when it is an element called `name`, and nothing otherwise. */
  lemma ElementsOne(node: XNode, name: string)
    ensures Elements([node], name) == if IsElementNamed(node, name) then [node.element] else []
  {
    assert [node][..0] == [];
  }

  /**
   * `Elements(name)` distributes over concatenation; with `ElementsOne` this
   * fixes the result as the matching elements in document order, repeats kept.
   */
  lemma {:induction false} ElementsAppend(a: seq<XNode>, b: seq<XNode>, name: string)
    ensures Elements(a + b, name) == Elements(a, name) + Elements(b, name)
    decreases |b|
  {
    if b == [] {
      assert a + b == a;
    } else {
      var n := |b| - 1;
      assert (a + b)[..|a + b| - 1] == a + b[..n];
      assert (a + b)[|a + b| - 1] == b[n];
      ElementsAppend(a, b[..n], name);
    }
  }

  /** `XContainer.Elements().Any()`: whether there is at least one child element. */
  predicate HasElements(e: XElement)
  {
    exists i | 0 <= i < |e.nodes| :: e.nodes[i].XChild?
  }

  /** `XElement.Attribute(name)?.Value`: the value of the first attribute called `name`. */
  function Attribute(e: XElement, name: string): (r: Option<string>)
    ensures r.Some? <==> exists k | 0 <= k < |e.attributes| :: e.attributes[k].name == name
    ensures r.Some? ==> exists k | 0 <= k < |e.attributes| ::
      e.attributes[k] == XAttribute(name, r.value) && forall j | 0 <= j < k :: e.attributes[j].name != name
  {
    AttributeFrom(e.attributes, name)
  }

  /** The value of the first attribute called `name` in `attributes`. */
  function AttributeFrom(attributes: seq<XAttribute>, name: string): (r: Option<string>)
    ensures r.Some? <==> exists k | 0 <= k < |attributes| :: attributes[k].name == name
    ensures r.Some? ==> exists k | 0 <= k < |attributes| ::
      attributes[k] == XAttribute(name, r.value) && forall j | 0 <= j < k :: attributes[j].name != name
  {
    if attributes == [] then None
    else if attributes[0].name == name then Some(attributes[0].value)
    else
      var rest := AttributeFrom(attributes[1..], name);
      assert forall k | 1 <= k < |attributes| :: attributes[k] == attributes[1..][k - 1];
      rest
  }

  /** `XElement.SetValue(s)`: the element's nodes become one text node. */
  function SetValue(e: XElement, s: string): (r: XElement)
    ensures r.name == e.name && r.attributes == e.attributes
    ensures Value(r) == s
  {
    ValueOfText(e.name, e.attributes, s);
    e.(nodes := [XText(s)])
  }
}
