/**
 * What the encoding of `XmlEntityExtensions` guarantees: each setter leaves the
 * other properties' elements alone and keeps at most one element per name;
 * reading a property back after writing it yields the value written (up to the
 * normalisation the setters apply); and a whole entity survives
 * `GetXmlValuesFromProperties` followed by `FillPropertiesFromXmlValues`.
 */
module XmlEntityCodecProperties {
  import opened Common
  import opened IntText
  import opened XLinq
  import opened XmlEntityCodec

  /** No two child elements of the root share a name (every document the encoder builds). */
  predicate UniqueNames(root: XElement)
  {
    forall i, j | 0 <= i < j < |root.nodes| ::
      !(root.nodes[i].XChild? && root.nodes[j].XChild? && root.nodes[i].element.name == root.nodes[j].element.name)
  }

  // ---------------------------------------------------------------- primitive edits

  /** On a root without such an element, `AddOrGetPropertyElement` appends an empty one. */
  lemma AddOrGetFresh(root: XElement, name: string)
    requires FirstIndex(root.nodes, name).None?
    ensures var (r, i) := AfterAddOrGet(root, name);
            i == |root.nodes| && r.nodes == root.nodes + [XChild(XElement(name, [], []))]
  {
  }

  lemma AddOrGetFrame(root: XElement, name: string, other: string)
    requires other != name
    ensures Element(AfterAddOrGet(root, name).0, other) == Element(root, other)
  {
    var r := AfterAddOrGet(root, name).0;
    if FirstIndex(root.nodes, name).None? {
      match FirstIndex(root.nodes, other)
      case None => FirstIndexNone(r.nodes, other);
      case Some(j) => FirstIndexIs(r.nodes, other, j);
    }
  }

  lemma AddOrGetUnique(root: XElement, name: string)
    requires UniqueNames(root)
    ensures UniqueNames(AfterAddOrGet(root, name).0)
  {
  }

  /** `RemoveElement` leaves every other name's element alone. */
  lemma RemoveFrame(root: XElement, name: string, other: string)
    requires other != name
    ensures Element(AfterRemoveElement(root, name), other) == Element(root, other)
  {
    match FirstIndex(root.nodes, name)
    case None =>
    case Some(i) =>
      var x := root.nodes;
      var y := AfterRemoveElement(root, name).nodes;
      assert y == x[..i] + x[i + 1..];
      assert forall k | 0 <= k < i :: y[k] == x[k];
      assert forall k | i <= k < |y| :: y[k] == x[k + 1];
      match FirstIndex(x, other)
      case None => FirstIndexNone(y, other);
      case Some(j) =>
        if j < i {
          FirstIndexIs(y, other, j);
        } else {
          assert j != i;
          FirstIndexIs(y, other, j - 1);
        }
  }

  /** After `RemoveElement` on a root with unique names, the name has no element at all. */
  lemma RemoveGone(root: XElement, name: string)
    requires UniqueNames(root)
    ensures FirstIndex(AfterRemoveElement(root, name).nodes, name).None?
  {
    match FirstIndex(root.nodes, name)
    case None =>
    case Some(i) =>
      var x := root.nodes;
      var y := AfterRemoveElement(root, name).nodes;
      assert y == x[..i] + x[i + 1..];
      forall k | 0 <= k < |y|
        ensures !IsElementNamed(y[k], name)
      {
        if k >= i {
          assert y[k] == x[k + 1];
        }
      }
      FirstIndexNone(y, name);
  }

  lemma RemoveUnique(root: XElement, name: string)
    requires UniqueNames(root)
    ensures UniqueNames(AfterRemoveElement(root, name))
  {
    match FirstIndex(root.nodes, name)
    case None =>
    case Some(i) =>
      var x := root.nodes;
      var y := AfterRemoveElement(root, name).nodes;
      assert y == x[..i] + x[i + 1..];
      forall a, b | 0 <= a < b < |y|
        ensures !(y[a].XChild? && y[b].XChild? && y[a].element.name == y[b].element.name)
      {
        var a' := if a < i then a else a + 1;
        var b' := if b < i then b else b + 1;
        assert y[a] == x[a'] && y[b] == x[b'] && a' < b';
      }
  }

  /** Replacing the element at `i` by one of the same name leaves other names' elements alone. */
  lemma ReplaceFrame(root: XElement, i: nat, e: XElement, other: string)
    requires i < |root.nodes| && IsElementNamed(root.nodes[i], e.name)
    requires other != e.name
    ensures Element(ReplaceChild(root, i, e), other) == Element(root, other)
  {
    var y := ReplaceChild(root, i, e).nodes;
    match FirstIndex(root.nodes, other)
    case None => FirstIndexNone(y, other);
    case Some(j) => FirstIndexIs(y, other, j);
  }

  /** Replacing the first element called `e.name` makes `e` the element `GetElement` finds. */
  lemma ReplaceFound(root: XElement, i: nat, e: XElement)
    requires FirstIndex(root.nodes, e.name) == Some(i)
    ensures Element(ReplaceChild(root, i, e), e.name) == Some(e)
  {
    FirstIndexIs(ReplaceChild(root, i, e).nodes, e.name, i);
  }

  lemma ReplaceUnique(root: XElement, i: nat, e: XElement)
    requires UniqueNames(root)
    requires i < |root.nodes| && IsElementNamed(root.nodes[i], e.name)
    ensures UniqueNames(ReplaceChild(root, i, e))
  {
  }

  // ---------------------------------------------------------------- the rewrite shape of lists and dictionaries

  /** `RemoveElement`, then `AddOrGetPropertyElement`, then `Add` of the children: a fresh element holding exactly them. */
  function Rewritten(root: XElement, name: string, children: seq<XNode>): XElement
  {
    var r0 := AfterRemoveElement(root, name);
    var (r1, i) := AfterAddOrGet(r0, name);
    AppendToChild(r1, i, children)
  }

  lemma RewrittenElement(root: XElement, name: string, children: seq<XNode>)
    requires UniqueNames(root)
    ensures Element(Rewritten(root, name, children), name) == Some(XElement(name, [], children))
    ensures UniqueNames(Rewritten(root, name, children))
  {
    var r0 := AfterRemoveElement(root, name);
    RemoveGone(root, name);
    RemoveUnique(root, name);
    AddOrGetFresh(r0, name);
    var (r1, i) := AfterAddOrGet(r0, name);
    assert r1.nodes[i].element.nodes + children == children;
    ReplaceFound(r1, i, XElement(name, [], children));
    AddOrGetUnique(r0, name);
    ReplaceUnique(r1, i, XElement(name, [], children));
  }

  lemma RewrittenFrame(root: XElement, name: string, children: seq<XNode>, other: string)
    requires other != name
    ensures Element(Rewritten(root, name, children), other) == Element(root, other)
  {
    var r0 := AfterRemoveElement(root, name);
    var (r1, i) := AfterAddOrGet(r0, name);
    var c := r1.nodes[i].element;
    RemoveFrame(root, name, other);
    AddOrGetFrame(r0, name, other);
    ReplaceFrame(r1, i, c.(nodes := c.nodes + children), other);
  }

  // ---------------------------------------------------------------- strings

  /** The string `SetString` writes with a white-space check, as `GetString` reads it back. */
  lemma SetStringGetString(root: XElement, value: Option<string>, name: string)
    requires UniqueNames(root)
    ensures GetString(AfterSetString(root, value, name), name) == (if IsNullOrWhiteSpace(value) then None else value)
  {
    if IsNullOrWhiteSpace(value) {
      RemoveGone(root, name);
    } else {
      var (r, i) := AfterAddOrGet(root, name);
      ReplaceFound(r, i, SetValue(r.nodes[i].element, value.value));
    }
  }

  lemma SetStringFrame(root: XElement, value: Option<string>, name: string, other: string)
    requires other != name
    ensures GetElement(AfterSetString(root, value, name), other) == GetElement(root, other)
  {
    if IsNullOrWhiteSpace(value) {
      RemoveFrame(root, name, other);
    } else {
      var (r, i) := AfterAddOrGet(root, name);
      AddOrGetFrame(root, name, other);
      ReplaceFrame(r, i, SetValue(r.nodes[i].element, value.value), other);
    }
  }

  lemma SetStringUnique(root: XElement, value: Option<string>, name: string)
    requires UniqueNames(root)
    ensures UniqueNames(AfterSetString(root, value, name))
  {
    if IsNullOrWhiteSpace(value) {
      RemoveUnique(root, name);
    } else {
      var (r, i) := AfterAddOrGet(root, name);
      AddOrGetUnique(root, name);
      ReplaceUnique(r, i, SetValue(r.nodes[i].element, value.value));
    }
  }

  /** The text of an integer is never blank, so `SetString` stores it. */
  lemma FormatNotBlank(x: int)
    ensures !IsNullOrWhiteSpace(Some(Format(x)))
  {
    var s := Format(x);
    var d := Digits(if x < 0 then -x else x);
    assert s[|s| - 1] == d[|d| - 1];
    assert IsDigit(s[|s| - 1]);
  }

  // ---------------------------------------------------------------- booleans and integers

  /** `SetBool` then `GetBool` gives the value back; `false` is written as "0", not removed. */
  lemma SetBoolGetBool(root: XElement, value: Option<bool>, name: string)
    requires UniqueNames(root)
    ensures GetBool(AfterSetBool(root, value, name), name) == value
    ensures GetElement(AfterSetBool(root, value, name), name).Some? <==> value.Some?
  {
    if value.Some? {
      var text := if value.value then "1" else "0";
      assert text == Format(if value.value then 1 else 0);
      FormatNotBlank(if value.value then 1 else 0);
      SetStringGetString(root, Some(text), name);
      ParseFormat(if value.value then 1 else 0, Integer);
    } else {
      RemoveGone(root, name);
    }
  }

  /** `SetInt` then `GetInt` gives the value back, except that 0 is not stored and reads back as null. */
  lemma SetIntGetInt(root: XElement, value: Option<Int32>, name: string)
    requires UniqueNames(root)
    ensures GetInt(AfterSetInt(root, value, name), name) == (if value == Some(0) then None else value)
    ensures GetElement(AfterSetInt(root, value, name), name).Some? <==> (value.Some? && value.value != 0)
  {
    if value.Some? && value.value != 0 {
      FormatNotBlank(value.value);
      SetStringGetString(root, Some(Format(value.value)), name);
      ParseFormat(value.value, Number);
    } else {
      RemoveGone(root, name);
    }
  }

  lemma SetBoolFrame(root: XElement, value: Option<bool>, name: string, other: string)
    requires other != name
    ensures GetElement(AfterSetBool(root, value, name), other) == GetElement(root, other)
  {
    if value.Some? {
      SetStringFrame(root, Some(if value.value then "1" else "0"), name, other);
    } else {
      RemoveFrame(root, name, other);
    }
  }

  lemma SetIntFrame(root: XElement, value: Option<Int32>, name: string, other: string)
    requires other != name
    ensures GetElement(AfterSetInt(root, value, name), other) == GetElement(root, other)
  {
    if value.Some? && value.value != 0 {
      SetStringFrame(root, Some(Format(value.value)), name, other);
    } else {
      RemoveFrame(root, name, other);
    }
  }

  lemma SetBoolUnique(root: XElement, value: Option<bool>, name: string)
    requires UniqueNames(root)
    ensures UniqueNames(AfterSetBool(root, value, name))
  {
    if value.Some? {
      SetStringUnique(root, Some(if value.value then "1" else "0"), name);
    } else {
      RemoveUnique(root, name);
    }
  }

  lemma SetIntUnique(root: XElement, value: Option<Int32>, name: string)
    requires UniqueNames(root)
    ensures UniqueNames(AfterSetInt(root, value, name))
  {
    if value.Some? && value.value != 0 {
      SetStringUnique(root, Some(Format(value.value)), name);
    } else {
      RemoveUnique(root, name);
    }
  }

  // ---------------------------------------------------------------- lists

  function NullsAsEmpty(values: seq<Option<string>>): (r: seq<string>)
    ensures |r| == |values|
  {
    seq(|values|, k requires 0 <= k < |values| => values[k].GetOr(""))
  }

  lemma ValueOfValueElement(key: Option<string>, value: Option<string>)
    ensures Value(ValueElement(key, value)) == value.GetOr("")
  {
    var e := ValueElement(key, value);
    if value.Some? {
      ValueOfText(e.name, e.attributes, value.value);
    } else {
      ValueOfEmpty(e.name, e.attributes);
    }
  }

  /** The `Value` children `SetStrings` writes are read back in order, a null item as "". */
  lemma ValueElementsOfValueNodes(values: seq<Option<string>>)
    ensures ElementValues(Elements(ValueNodes(values), ValueNodename)) == NullsAsEmpty(values)
  {
    var nodes := ValueNodes(values);
    ElementsOfAll(nodes, ValueNodename);
    var es := Elements(nodes, ValueNodename);
    forall k | 0 <= k < |values|
      ensures ElementValues(es)[k] == NullsAsEmpty(values)[k]
    {
      assert XChild(es[k]) == nodes[k];
      ValueOfValueElement(None, values[k]);
    }
  }

  /** `SetStrings` then `GetStrings`: null for a null or empty list, otherwise the items in order, null items as "". */
  lemma SetStringsGetStrings(root: XElement, values: Option<seq<Option<string>>>, name: string)
    requires UniqueNames(root)
    ensures StringsOf(AfterSetStrings(root, values, name), name)
         == (if values.None? || values.value == [] then None else Some(NullsAsEmpty(values.value)))
    ensures GetElement(AfterSetStrings(root, values, name), name).Some? <==> (values.Some? && values.value != [])
  {
    if values.None? || values.value == [] {
      RemoveGone(root, name);
    } else {
      RewrittenElement(root, name, ValueNodes(values.value));
      ValueElementsOfValueNodes(values.value);
    }
  }

  lemma SetStringsFrame(root: XElement, values: Option<seq<Option<string>>>, name: string, other: string)
    requires other != name
    ensures GetElement(AfterSetStrings(root, values, name), other) == GetElement(root, other)
  {
    if values.None? || values.value == [] {
      RemoveFrame(root, name, other);
    } else {
      RewrittenFrame(root, name, ValueNodes(values.value), other);
    }
  }

  lemma SetStringsUnique(root: XElement, values: Option<seq<Option<string>>>, name: string)
    requires UniqueNames(root)
    ensures UniqueNames(AfterSetStrings(root, values, name))
  {
    if values.None? || values.value == [] {
      RemoveUnique(root, name);
    } else {
      RewrittenElement(root, name, ValueNodes(values.value));
    }
  }

  /** One item contributes its value when present, and nothing when missing. */
  lemma SomesOne(x: Option<Int32>)
    ensures Somes([x]) == if x.Some? then [x.value] else []
  {
    assert [x][..0] == [];
  }

  /**
   * `Somes` distributes over concatenation; with `SomesOne` this fixes the
   * result as the present values in their original order, repeats kept.
   */
  lemma {:induction false} SomesAppend(a: seq<Option<Int32>>, b: seq<Option<Int32>>)
    ensures Somes(a + b) == Somes(a) + Somes(b)
    decreases |b|
  {
    if b == [] {
      assert a + b == a;
    } else {
      var n := |b| - 1;
      assert (a + b)[..|a + b| - 1] == a + b[..n];
      assert (a + b)[|a + b| - 1] == b[n];
      SomesAppend(a, b[..n]);
    }
  }

  /** When every value is present, `Somes` keeps them all, in order. */
  lemma {:induction false} SomesAll(xs: seq<Option<Int32>>)
    requires forall k | 0 <= k < |xs| :: xs[k].Some?
    ensures |Somes(xs)| == |xs|
    ensures forall k | 0 <= k < |xs| :: Some(Somes(xs)[k]) == xs[k]
  {
    if xs != [] {
      var n := |xs| - 1;
      SomesAll(xs[..n]);
    }
  }

  /** When no value is present, `Somes` is empty: `GetInts` of children none of which parses is an empty list, not null. */
  lemma {:induction false} SomesNone(xs: seq<Option<Int32>>)
    requires forall k | 0 <= k < |xs| :: xs[k].None?
    ensures Somes(xs) == []
  {
    if xs != [] {
      SomesNone(xs[..|xs| - 1]);
    }
  }

  /** The text of each integer `SetInts` writes parses back to that integer. */
  lemma ParsedIntsOfFormatted(values: seq<Int32>)
    ensures Somes(ParseAll(Elements(ValueNodes(FormatAll(values)), ValueNodename))) == values
  {
    var texts := FormatAll(values);
    var es := Elements(ValueNodes(texts), ValueNodename);
    var parsed := ParseAll(es);
    ValueElementsOfValueNodes(texts);
    forall k | 0 <= k < |es|
      ensures parsed[k] == Some(values[k])
    {
      assert Value(es[k]) == ElementValues(es)[k];
      ParseAllFormatted(es, k, values[k]);
    }
    SomesAll(parsed);
  }

  /** A `Value` child holding the invariant-culture text of an `int` is read as that `int`. */
  lemma ParseAllFormatted(es: seq<XElement>, i: nat, x: Int32)
    requires i < |es| && Value(es[i]) == Format(x)
    ensures ParseAll(es)[i] == Some(x)
  {
    ParseFormat(x, Number);
  }

  /** `SetInts` then `GetInts`: null for a null or empty list, otherwise the same integers in order. */
  lemma SetIntsGetInts(root: XElement, values: Option<seq<Int32>>, name: string)
    requires UniqueNames(root)
    ensures IntsOf(AfterSetInts(root, values, name), name) == (if values.None? || values.value == [] then None else values)
    ensures GetElement(AfterSetInts(root, values, name), name).Some? <==> (values.Some? && values.value != [])
  {
    if values.None? || values.value == [] {
      RemoveGone(root, name);
    } else {
      var texts := FormatAll(values.value);
      assert AfterSetInts(root, values, name) == Rewritten(root, name, ValueNodes(texts));
      RewrittenElement(root, name, ValueNodes(texts));
      ParsedIntsOfFormatted(values.value);
    }
  }

  // ---------------------------------------------------------------- dictionaries

  function NullValuesAsEmpty(entries: seq<(string, Option<string>)>): (r: seq<(string, string)>)
    ensures |r| == |entries|
  {
    seq(|entries|, k requires 0 <= k < |entries| => (entries[k].0, entries[k].1.GetOr("")))
  }

  /** Pairs that all carry a key, the keys pairwise distinct, are all kept, in order. */
  lemma {:induction false} FirstKeyWinsAllKeyed(pairs: seq<(Option<string>, string)>)
    requires forall k | 0 <= k < |pairs| :: pairs[k].0.Some?
    requires forall i, j | 0 <= i < j < |pairs| :: pairs[i].0 != pairs[j].0
    ensures |FirstKeyWins(pairs)| == |pairs|
    ensures forall k | 0 <= k < |pairs| :: FirstKeyWins(pairs)[k] == (pairs[k].0.value, pairs[k].1)
  {
    if pairs != [] {
      var n := |pairs| - 1;
      FirstKeyWinsAllKeyed(pairs[..n]);
      var init := FirstKeyWins(pairs[..n]);
      assert forall k | 0 <= k < n :: init[k].0 == pairs[k].0.value;
      assert !HasKey(init, pairs[n].0.value);
    }
  }

  /** The keyed `Value` children `SetDictionaryStringString` writes are read back as the same entries. */
  lemma DictionaryEntriesOfEntryNodes(entries: seq<(string, Option<string>)>)
    requires DistinctKeys(entries)
    ensures FirstKeyWins(KeyedTexts(Elements(EntryNodes(entries), ValueNodename))) == NullValuesAsEmpty(entries)
  {
    var pairs := KeyedTexts(Elements(EntryNodes(entries), ValueNodename));
    KeyedTextsOfEntryNodes(entries);
    FirstKeyWinsAllKeyed(pairs);
    assert FirstKeyWins(pairs) == NullValuesAsEmpty(entries);
  }

  /** The keyed children written for a dictionary read back as its keys and texts, in order. */
  lemma KeyedTextsOfEntryNodes(entries: seq<(string, Option<string>)>)
    ensures |KeyedTexts(Elements(EntryNodes(entries), ValueNodename))| == |entries|
    ensures forall k | 0 <= k < |entries| ::
      KeyedTexts(Elements(EntryNodes(entries), ValueNodename))[k] == (Some(entries[k].0), entries[k].1.GetOr(""))
  {
    var nodes := EntryNodes(entries);
    ElementsOfAll(nodes, ValueNodename);
    var es := Elements(nodes, ValueNodename);
    forall k | 0 <= k < |es|
      ensures KeyedTexts(es)[k] == (Some(entries[k].0), entries[k].1.GetOr(""))
    {
      assert XChild(es[k]) == nodes[k];
      ValueOfValueElement(Some(entries[k].0), entries[k].1);
    }
  }

  /** `SetDictionaryStringString` then `GetDictionaryStringString`: null for a null or empty map, otherwise the same entries, null values as "". */
  lemma SetDictionaryGetDictionary(root: XElement, entries: Option<seq<(string, Option<string>)>>, name: string)
    requires UniqueNames(root)
    requires entries.Some? ==> DistinctKeys(entries.value)
    ensures DictionaryOf(AfterSetDictionaryStringString(root, entries, name), name)
         == (if entries.None? || entries.value == [] then None else Some(NullValuesAsEmpty(entries.value)))
    ensures GetElement(AfterSetDictionaryStringString(root, entries, name), name).Some? <==> (entries.Some? && entries.value != [])
  {
    if entries.None? || entries.value == [] {
      RemoveGone(root, name);
    } else {
      var nodes := EntryNodes(entries.value);
      assert AfterSetDictionaryStringString(root, entries, name) == Rewritten(root, name, nodes);
      RewrittenElement(root, name, nodes);
      DictionaryEntriesOfEntryNodes(entries.value);
    }
  }

  lemma SetDictionaryFrame(root: XElement, entries: Option<seq<(string, Option<string>)>>, name: string, other: string)
    requires other != name
    ensures GetElement(AfterSetDictionaryStringString(root, entries, name), other) == GetElement(root, other)
  {
    if entries.None? || entries.value == [] {
      RemoveFrame(root, name, other);
    } else {
      RewrittenFrame(root, name, EntryNodes(entries.value), other);
    }
  }

  lemma SetDictionaryUnique(root: XElement, entries: Option<seq<(string, Option<string>)>>, name: string)
    requires UniqueNames(root)
    ensures UniqueNames(AfterSetDictionaryStringString(root, entries, name))
  {
    if entries.None? || entries.value == [] {
      RemoveUnique(root, name);
    } else {
      RewrittenElement(root, name, EntryNodes(entries.value));
    }
  }

  // ---------------------------------------------------------------- one property

  /** The value a property reads back as after being written: what the setters drop or rewrite. */
  function Normalize(v: PropertyValue): PropertyValue
  {
    match v
    case StringValue(s) => StringValue(if IsNullOrWhiteSpace(s) then None else s)
    case StringListValue(vs) =>
      StringListValue(if vs.None? || vs.value == [] then None else Some(AsNullable(NullsAsEmpty(vs.value))))
    case NullableIntValue(x) => NullableIntValue(if x == Some(0) then None else x)
    case IntListValue(vs) => IntListValue(if vs.None? || vs.value == [] then None else vs)
    case StringDictionaryValue(es) =>
      StringDictionaryValue(if es.None? || es.value == [] then None else Some(AsNullableValues(NullValuesAsEmpty(es.value))))
    case _ => v
  }

  /** The values for which `Set` leaves no element behind. */
  predicate Elided(v: PropertyValue)
  {
    match v
    case StringValue(s) => IsNullOrWhiteSpace(s)
    case StringListValue(vs) => vs.None? || vs.value == []
    case IntValue(x) => x == 0
    case NullableIntValue(x) => x.None? || x.value == 0
    case BoolValue(_) => false
    case NullableBoolValue(b) => b.None?
    case IntListValue(vs) => vs.None? || vs.value == []
    case StringDictionaryValue(es) => es.None? || es.value == []
    case OtherValue(_) => true
  }

  /** A dictionary's keys are distinct (an `IDictionary` cannot hold a key twice). */
  predicate WellFormed(v: PropertyValue)
  {
    v.StringDictionaryValue? && v.entries.Some? ==> DistinctKeys(v.entries.value)
  }

  predicate Supported(v: PropertyValue)
  {
    !v.OtherValue?
  }

  lemma SetFrameScalar(root: XElement, p: Property, other: string)
    requires other != p.name
    requires IsScalar(p.value)
    ensures GetElement(AfterSet(root, p), other) == GetElement(root, other)
  {
    match p.value
    case StringValue(s) => SetStringFrame(root, s, p.name, other);
    case IntValue(x) => SetIntFrame(root, Some(x), p.name, other);
    case NullableIntValue(x) => SetIntFrame(root, x, p.name, other);
    case BoolValue(b) => SetBoolFrame(root, Some(b), p.name, other);
    case NullableBoolValue(b) => SetBoolFrame(root, b, p.name, other);
  }

  lemma SetFrameCollection(root: XElement, p: Property, other: string)
    requires other != p.name
    requires !IsScalar(p.value)
    ensures GetElement(AfterSet(root, p), other) == GetElement(root, other)
  {
    match p.value
    case StringListValue(vs) => SetStringsFrame(root, vs, p.name, other);
    case IntListValue(vs) => SetStringsFrame(root, if vs.None? then None else Some(FormatAll(vs.value)), p.name, other);
    case StringDictionaryValue(es) => SetDictionaryFrame(root, es, p.name, other);
    case OtherValue(_) =>
  }

  /** `Set` of one property leaves the elements of every other name as they were. */
  lemma SetFrame(root: XElement, p: Property, other: string)
    requires other != p.name
    ensures GetElement(AfterSet(root, p), other) == GetElement(root, other)
  {
    if IsScalar(p.value) {
      SetFrameScalar(root, p, other);
    } else {
      SetFrameCollection(root, p, other);
    }
  }


  lemma SetUniqueScalar(root: XElement, p: Property)
    requires UniqueNames(root)
    requires IsScalar(p.value)
    ensures UniqueNames(AfterSet(root, p))
  {
    match p.value
    case StringValue(s) => SetStringUnique(root, s, p.name);
    case IntValue(x) => SetIntUnique(root, Some(x), p.name);
    case NullableIntValue(x) => SetIntUnique(root, x, p.name);
    case BoolValue(b) => SetBoolUnique(root, Some(b), p.name);
    case NullableBoolValue(b) => SetBoolUnique(root, b, p.name);
  }

  lemma SetUniqueCollection(root: XElement, p: Property)
    requires UniqueNames(root)
    requires !IsScalar(p.value)
    ensures UniqueNames(AfterSet(root, p))
  {
    match p.value
    case StringListValue(vs) => SetStringsUnique(root, vs, p.name);
    case IntListValue(vs) => SetStringsUnique(root, if vs.None? then None else Some(FormatAll(vs.value)), p.name);
    case StringDictionaryValue(es) => SetDictionaryUnique(root, es, p.name);
    case OtherValue(_) =>
  }

  /** `Set` keeps at most one element per name. */
  lemma SetUnique(root: XElement, p: Property)
    requires UniqueNames(root)
    ensures UniqueNames(AfterSet(root, p))
  {
    if IsScalar(p.value) {
      SetUniqueScalar(root, p);
    } else {
      SetUniqueCollection(root, p);
    }
  }


  predicate IsScalar(v: PropertyValue)
  {
    v.StringValue? || v.IntValue? || v.NullableIntValue? || v.BoolValue? || v.NullableBoolValue?
  }

  lemma SetGetScalar(root: XElement, p: Property)
    requires UniqueNames(root) && IsScalar(p.value)
    ensures Get(AfterSet(root, p), p.Info()) == Success(Normalize(p.value))
  {
    match p.value
    case StringValue(_) => SetGetStringValue(root, p);
    case IntValue(_) => SetGetIntValue(root, p);
    case NullableIntValue(_) => SetGetIntValue(root, p);
    case BoolValue(_) => SetGetBoolValue(root, p);
    case NullableBoolValue(_) => SetGetBoolValue(root, p);
  }

  lemma SetGetStringValue(root: XElement, p: Property)
    requires UniqueNames(root) && p.value.StringValue?
    ensures Get(AfterSet(root, p), p.Info()) == Success(Normalize(p.value))
  {
    var r := AfterSet(root, p);
    assert r == AfterSetString(root, p.value.s, p.name);
    assert Get(r, p.Info()) == Success(StringValue(GetString(r, p.name)));
    SetStringGetString(root, p.value.s, p.name);
  }

  lemma SetGetIntValue(root: XElement, p: Property)
    requires UniqueNames(root) && (p.value.IntValue? || p.value.NullableIntValue?)
    ensures Get(AfterSet(root, p), p.Info()) == Success(Normalize(p.value))
  {
    var r := AfterSet(root, p);
    match p.value
    case IntValue(x) =>
      assert r == AfterSetInt(root, Some(x), p.name);
      assert Get(r, p.Info()) == Success(IntValue(GetInt(r, p.name).GetOr(0)));
      SetIntGetInt(root, Some(x), p.name);
    case NullableIntValue(x) =>
      assert r == AfterSetInt(root, x, p.name);
      assert Get(r, p.Info()) == Success(NullableIntValue(GetInt(r, p.name)));
      SetIntGetInt(root, x, p.name);
  }

  lemma SetGetBoolValue(root: XElement, p: Property)
    requires UniqueNames(root) && (p.value.BoolValue? || p.value.NullableBoolValue?)
    ensures Get(AfterSet(root, p), p.Info()) == Success(Normalize(p.value))
  {
    if p.value.BoolValue? {
      SetGetPlainBool(root, p);
    } else {
      SetGetNullableBool(root, p);
    }
  }

  lemma SetGetPlainBool(root: XElement, p: Property)
    requires UniqueNames(root) && p.value.BoolValue?
    ensures Get(AfterSet(root, p), p.Info()) == Success(Normalize(p.value))
  {
    var q := Property(p.name, NullableBoolValue(Some(p.value.b)));
    SetGetNullableBool(root, q);
    var r := AfterSet(root, q);
    assert AfterSet(root, p) == r;
    assert Get(r, q.Info()) == Success(NullableBoolValue(GetBool(r, p.name)));
    assert Get(r, p.Info()) == Success(BoolValue(GetBool(r, p.name).GetOr(false)));
  }

  lemma SetGetNullableBool(root: XElement, p: Property)
    requires UniqueNames(root) && p.value.NullableBoolValue?
    ensures Get(AfterSet(root, p), p.Info()) == Success(Normalize(p.value))
  {
    var b := p.value.nb;
    SetBoolGetBool(root, b, p.name);
    var r := AfterSet(root, p);
    assert r == AfterSetBool(root, b, p.name);
    assert GetBool(r, p.name) == b;
    assert Get(r, p.Info()) == Success(NullableBoolValue(GetBool(r, p.name)));
  }

  lemma SetGetStringList(root: XElement, p: Property)
    requires UniqueNames(root) && p.value.StringListValue?
    ensures Get(AfterSet(root, p), p.Info()) == Success(Normalize(p.value))
  {
    SetStringsGetStrings(root, p.value.strings, p.name);
  }

  lemma SetGetIntList(root: XElement, p: Property)
    requires UniqueNames(root) && p.value.IntListValue?
    ensures Get(AfterSet(root, p), p.Info()) == Success(Normalize(p.value))
  {
    var r := AfterSet(root, p);
    assert r == AfterSetInts(root, p.value.ints, p.name);
    assert Get(r, p.Info()) == Success(IntListValue(IntsOf(r, p.name)));
    SetIntsGetInts(root, p.value.ints, p.name);
  }

  lemma SetGetDictionary(root: XElement, p: Property)
    requires UniqueNames(root) && p.value.StringDictionaryValue? && WellFormed(p.value)
    ensures Get(AfterSet(root, p), p.Info()) == Success(Normalize(p.value))
  {
    SetDictionaryGetDictionary(root, p.value.entries, p.name);
  }

  /**
   * `Get` after `Set` of a supported property yields the value written, up to
   * `Normalize`.
   */
  lemma SetGet(root: XElement, p: Property)
    requires UniqueNames(root)
    requires Supported(p.value) && WellFormed(p.value)
    ensures Get(AfterSet(root, p), p.Info()) == Success(Normalize(p.value))
  {
    match p.value
    case StringListValue(_) => SetGetStringList(root, p);
    case IntListValue(_) => SetGetIntList(root, p);
    case StringDictionaryValue(_) => SetGetDictionary(root, p);
    case _ => SetGetScalar(root, p);
  }

  lemma SetDictionaryWrites(root: XElement, entries: Option<seq<(string, Option<string>)>>, name: string)
    requires UniqueNames(root)
    ensures GetElement(AfterSetDictionaryStringString(root, entries, name), name).Some? <==> (entries.Some? && entries.value != [])
  {
    if entries.None? || entries.value == [] {
      RemoveGone(root, name);
    } else {
      RewrittenElement(root, name, EntryNodes(entries.value));
    }
  }

  lemma SetWritesScalar(root: XElement, p: Property)
    requires UniqueNames(root)
    requires p.value.OtherValue? ==> GetElement(root, p.name).None?
    requires IsScalar(p.value)
    ensures GetElement(AfterSet(root, p), p.name).Some? <==> !Elided(p.value)
  {
    match p.value
    case StringValue(s) => SetStringGetString(root, s, p.name);
    case IntValue(x) => SetIntGetInt(root, Some(x), p.name);
    case NullableIntValue(x) => SetIntGetInt(root, x, p.name);
    case BoolValue(b) => SetBoolGetBool(root, Some(b), p.name);
    case NullableBoolValue(b) => SetBoolGetBool(root, b, p.name);
  }

  lemma SetWritesCollection(root: XElement, p: Property)
    requires UniqueNames(root)
    requires p.value.OtherValue? ==> GetElement(root, p.name).None?
    requires !IsScalar(p.value)
    ensures GetElement(AfterSet(root, p), p.name).Some? <==> !Elided(p.value)
  {
    match p.value
    case StringListValue(vs) => SetStringsGetStrings(root, vs, p.name);
    case IntListValue(vs) => SetIntsGetInts(root, vs, p.name);
    case StringDictionaryValue(es) => SetDictionaryWrites(root, es, p.name);
    case OtherValue(_) =>
  }

  /** After `Set`, the property has an element exactly when its value is not one the setters drop. */
  lemma SetWrites(root: XElement, p: Property)
    requires UniqueNames(root)
    requires p.value.OtherValue? ==> GetElement(root, p.name).None?
    ensures GetElement(AfterSet(root, p), p.name).Some? <==> !Elided(p.value)
  {
    if IsScalar(p.value) {
      SetWritesScalar(root, p);
    } else {
      SetWritesCollection(root, p);
    }
  }


  /** A property without an element reads as its type's default (null for the nullable and list types). */
  lemma GetAbsent(root: XElement, info: PropertyInfo)
    requires GetElement(root, info.name).None?
    requires !info.propertyType.OtherType?
    ensures Get(root, info) == Success(DefaultValue(info.propertyType))
  {
  }

  /** `Get` reads nothing but the element `GetElement` finds for the property's name. */
  lemma GetReadsElement(r1: XElement, r2: XElement, info: PropertyInfo)
    requires GetElement(r1, info.name) == GetElement(r2, info.name)
    ensures Get(r1, info) == Get(r2, info)
  {
  }

  // ---------------------------------------------------------------- reading dictionaries

  /** The pair at `j` is the first one carrying `key`. */
  predicate KeyedFirst(pairs: seq<(Option<string>, string)>, j: nat, key: string)
    requires j < |pairs|
  {
    pairs[j].0 == Some(key) && forall l | 0 <= l < j :: pairs[l].0 != Some(key)
  }

  /** Every key carried by some pair ends up in the dictionary. */
  lemma {:induction false} FirstKeyWinsComplete(pairs: seq<(Option<string>, string)>, j: nat)
    requires j < |pairs| && pairs[j].0.Some?
    ensures HasKey(FirstKeyWins(pairs), pairs[j].0.value)
  {
    var n := |pairs| - 1;
    var init := FirstKeyWins(pairs[..n]);
    var r := FirstKeyWins(pairs);
    var key := pairs[j].0.value;
    assert forall i | 0 <= i < |init| :: r[i] == init[i];
    if j < n {
      assert pairs[..n][j] == pairs[j];
      FirstKeyWinsComplete(pairs[..n], j);
      var i :| 0 <= i < |init| && init[i].0 == key;
      assert r[i].0 == key;
    } else if HasKey(init, key) {
      var i :| 0 <= i < |init| && init[i].0 == key;
      assert r[i].0 == key;
    } else {
      assert r[|init|].0 == key;
    }
  }

  /** Every dictionary entry is the key and text of the first pair carrying that key. */
  lemma {:induction false} FirstKeyWinsSound(pairs: seq<(Option<string>, string)>, i: nat)
    requires i < |FirstKeyWins(pairs)|
    ensures exists j | 0 <= j < |pairs| ::
      KeyedFirst(pairs, j, FirstKeyWins(pairs)[i].0) && pairs[j].1 == FirstKeyWins(pairs)[i].1
  {
    var n := |pairs| - 1;
    var init := FirstKeyWins(pairs[..n]);
    var r := FirstKeyWins(pairs);
    if i < |init| {
      assert r[i] == init[i];
      FirstKeyWinsSound(pairs[..n], i);
      var j :| 0 <= j < n && KeyedFirst(pairs[..n], j, init[i].0) && pairs[..n][j].1 == init[i].1;
      assert forall l | 0 <= l <= j :: pairs[..n][l] == pairs[l];
      assert KeyedFirst(pairs, j, r[i].0);
    } else {
      var key := r[i].0;
      assert pairs[n].0 == Some(key) && !HasKey(init, key);
      forall l | 0 <= l < n
        ensures pairs[l].0 != Some(key)
      {
        if pairs[l].0 == Some(key) {
          assert pairs[..n][l] == pairs[l];
          FirstKeyWinsComplete(pairs[..n], l);
        }
      }
      assert KeyedFirst(pairs, n, key);
    }
  }

  /**
   * Of several `Value` children with the same key the first wins: the
   * dictionary maps each key to the text of the first child carrying it.
   */
  lemma DictionaryFirstWins(pairs: seq<(Option<string>, string)>, j: nat, key: string)
    requires j < |pairs| && KeyedFirst(pairs, j, key)
    ensures exists i | 0 <= i < |FirstKeyWins(pairs)| :: FirstKeyWins(pairs)[i] == (key, pairs[j].1)
  {
    var r := FirstKeyWins(pairs);
    FirstKeyWinsComplete(pairs, j);
    var i :| 0 <= i < |r| && r[i].0 == key;
    FirstKeyWinsSound(pairs, i);
    var j' :| 0 <= j' < |pairs| && KeyedFirst(pairs, j', key) && pairs[j'].1 == r[i].1;
    assert j' == j;
  }

  /** Children without a `Key` attribute are ignored: with none keyed, the dictionary is empty (not null). */
  lemma {:induction false} FirstKeyWinsNoKeys(pairs: seq<(Option<string>, string)>)
    requires forall k | 0 <= k < |pairs| :: pairs[k].0.None?
    ensures FirstKeyWins(pairs) == []
  {
    if pairs != [] {
      FirstKeyWinsNoKeys(pairs[..|pairs| - 1]);
    }
  }

  // ---------------------------------------------------------------- property selectors

  /** `Get(Expression)` sees through any number of `Convert` nodes above a property access. */
  lemma {:induction false} PropertyOfConverted(p: PropertyInfo, depth: nat)
    ensures PropertyOf(Converted(p, depth)) == Success(p)
  {
    if depth > 0 {
      PropertyOfConverted(p, depth - 1);
    }
  }

  /** Reading through a property selector, under any number of `Convert` nodes, is reading that property. */
  lemma GetByExpressionConverted(root: XElement, p: PropertyInfo, depth: nat)
    ensures GetByExpression(root, Converted(p, depth)) == Get(root, p)
  {
    PropertyOfConverted(p, depth);
  }

  // ---------------------------------------------------------------- whole entity

  predicate DistinctNames(props: seq<Property>)
  {
    forall i, j | 0 <= i < j < |props| :: props[i].name != props[j].name
  }

  lemma {:induction false} EncodeUnique(props: seq<Property>)
    ensures UniqueNames(EncodeRoot(props))
  {
    if props != [] {
      EncodeUnique(props[..|props| - 1]);
      SetUnique(EncodeRoot(props[..|props| - 1]), props[|props| - 1]);
    }
  }

  /** The encoder writes no element for a name no property has. */
  lemma {:induction false} EncodeAbsent(props: seq<Property>, name: string)
    requires forall k | 0 <= k < |props| :: props[k].name != name
    ensures GetElement(EncodeRoot(props), name).None?
  {
    if props != [] {
      var n := |props| - 1;
      EncodeAbsent(props[..n], name);
      SetFrame(EncodeRoot(props[..n]), props[n], name);
    }
  }

  /** A property's element in the whole encoding is the one its own `Set` wrote; the later ones leave it alone. */
  lemma {:induction false} EncodeElement(props: seq<Property>, k: nat)
    requires DistinctNames(props) && k < |props|
    ensures GetElement(EncodeRoot(props), props[k].name)
         == GetElement(AfterSet(EncodeRoot(props[..k]), props[k]), props[k].name)
  {
    var n := |props| - 1;
    if k == n {
      assert props[..n] == props[..k];
    } else {
      assert props[n].name != props[k].name;
      EncodeLastFrame(props, props[k].name);
      assert props[..n][..k] == props[..k] && props[..n][k] == props[k];
      EncodeElement(props[..n], k);
    }
  }

  /** Storing the last property leaves the elements of every other name as the earlier ones left them. */
  lemma EncodeLastFrame(props: seq<Property>, name: string)
    requires props != [] && name != props[|props| - 1].name
    ensures GetElement(EncodeRoot(props), name) == GetElement(EncodeRoot(props[..|props| - 1]), name)
  {
    SetFrame(EncodeRoot(props[..|props| - 1]), props[|props| - 1], name);
  }

  /** In the encoding of properties with distinct names, a property has an element exactly when its value is not dropped. */
  lemma EncodeWrites(props: seq<Property>, k: nat)
    requires DistinctNames(props) && k < |props|
    ensures GetElement(EncodeRoot(props), props[k].name).Some? <==> !Elided(props[k].value)
  {
    EncodeElement(props, k);
    EncodeFresh(props, k);
    SetWrites(EncodeRoot(props[..k]), props[k]);
  }

  /** Before a property's own `Set`, the encoding has no element of its name and one element per name. */
  lemma EncodeFresh(props: seq<Property>, k: nat)
    requires DistinctNames(props) && k < |props|
    ensures GetElement(EncodeRoot(props[..k]), props[k].name).None?
    ensures UniqueNames(EncodeRoot(props[..k]))
  {
    var before := props[..k];
    assert forall j | 0 <= j < k :: before[j].name != props[k].name;
    EncodeAbsent(before, props[k].name);
    EncodeUnique(before);
  }

  /** `GetXmlValuesFromProperties` returns null exactly when every property holds a value the setters drop. */
  lemma EncodedNullIffAllElided(props: seq<Property>)
    requires DistinctNames(props)
    ensures EncodedXmlValues(props).None? <==> forall k | 0 <= k < |props| :: Elided(props[k].value)
  {
    var root := EncodeRoot(props);
    if forall k | 0 <= k < |props| :: Elided(props[k].value) {
      if HasElements(root) {
        var i :| 0 <= i < |root.nodes| && root.nodes[i].XChild?;
        var name := root.nodes[i].element.name;
        assert GetElement(root, name).Some?;
        if exists k | 0 <= k < |props| :: props[k].name == name {
          var k :| 0 <= k < |props| && props[k].name == name;
          EncodeWrites(props, k);
        } else {
          EncodeAbsent(props, name);
        }
      }
    } else {
      var k :| 0 <= k < |props| && !Elided(props[k].value);
      EncodeWrites(props, k);
      var i := FirstIndex(root.nodes, props[k].name).value;
      assert root.nodes[i].XChild?;
    }
  }

  /** The root `FillPropertiesFromXmlValues` reads has the same property elements as the encoder's root. */
  lemma RootOfEncoded(props: seq<Property>, name: string)
    ensures GetElement(RootOf(EncodedXmlValues(props)), name) == GetElement(EncodeRoot(props), name)
  {
    var root := EncodeRoot(props);
    if !HasElements(root) {
      FirstIndexNone(root.nodes, name);
    }
  }

  /** The properties with their values replaced, in order. */
  function WithValues(props: seq<Property>, values: seq<PropertyValue>): (r: seq<Property>)
    requires |values| == |props|
    ensures |r| == |props|
    ensures forall k | 0 <= k < |props| :: r[k] == props[k].(value := values[k])
  {
    seq(|props|, k requires 0 <= k < |props| => props[k].(value := values[k]))
  }

  /** When every outcome is a success, the fold sets each property to its value and reports no error. */
  lemma {:induction false} FillWithSucceeds(outcomes: seq<Result<PropertyValue, Error>>, props: seq<Property>, values: seq<PropertyValue>)
    requires |outcomes| == |props| == |values|
    requires forall k | 0 <= k < |props| :: outcomes[k] == Success(values[k])
    ensures FillWith(outcomes, props) == (WithValues(props, values), None)
  {
    if props != [] {
      var n := |props| - 1;
      assert forall k | 0 <= k < n :: outcomes[..n][k] == outcomes[k];
      FillWithSucceeds(outcomes[..n], props[..n], values[..n]);
      assert WithValues(props, values) == WithValues(props[..n], values[..n]) + [props[n].(value := values[n])];
    }
  }

  function NormalizedValues(props: seq<Property>): (r: seq<PropertyValue>)
    ensures |r| == |props|
    ensures forall k | 0 <= k < |props| :: r[k] == Normalize(props[k].value)
  {
    seq(|props|, k requires 0 <= k < |props| => Normalize(props[k].value))
  }

  function Normalized(props: seq<Property>): (r: seq<Property>)
    ensures |r| == |props|
  {
    WithValues(props, NormalizedValues(props))
  }

  /** Reading a property back from the encoder's root gives its normalised value. */
  lemma EncodeGet(props: seq<Property>, k: nat)
    requires DistinctNames(props) && k < |props|
    requires Supported(props[k].value) && WellFormed(props[k].value)
    ensures Get(RootOf(EncodedXmlValues(props)), props[k].Info()) == Success(Normalize(props[k].value))
  {
    var p := props[k];
    RootOfEncoded(props, p.name);
    EncodeElement(props, k);
    EncodeUnique(props[..k]);
    SetGet(EncodeRoot(props[..k]), p);
    GetReadsElement(RootOf(EncodedXmlValues(props)), AfterSet(EncodeRoot(props[..k]), p), p.Info());
  }

  /**
   * The entity round trip: encoding the properties (distinct names, supported
   * types, well-formed dictionaries) and filling them back from the result sets
   * each property to its normalised value, without error.
   */
  lemma EntityRoundTrip(props: seq<Property>)
    requires DistinctNames(props)
    requires forall k | 0 <= k < |props| :: Supported(props[k].value) && WellFormed(props[k].value)
    ensures Fill(RootOf(EncodedXmlValues(props)), props) == (Normalized(props), None)
  {
    var root := RootOf(EncodedXmlValues(props));
    var values := NormalizedValues(props);
    forall k | 0 <= k < |props|
      ensures Get(root, props[k].Info()) == Success(values[k])
    {
      EncodeGet(props, k);
    }
    FillWithSucceeds(Reads(root, props), props, values);
  }

  function Defaults(props: seq<Property>): (r: seq<Property>)
    ensures |r| == |props|
  {
    WithValues(props, seq(|props|, k requires 0 <= k < |props| => DefaultValue(TypeOf(props[k].value))))
  }

  /** Filling from a null blob sets every supported property to its type's default. */
  lemma FillFromNull(props: seq<Property>)
    requires forall k | 0 <= k < |props| :: Supported(props[k].value)
    ensures Fill(RootOf(None), props) == (Defaults(props), None)
  {
    var values := seq(|props|, k requires 0 <= k < |props| => DefaultValue(TypeOf(props[k].value)));
    forall k | 0 <= k < |props|
      ensures Get(EmptyRoot, props[k].Info()) == Success(values[k])
    {
      GetAbsent(EmptyRoot, props[k].Info());
    }
    FillWithSucceeds(Reads(EmptyRoot, props), props, values);
  }

  /** `Fill` keeps every property's name and declared type. */
  lemma FillKeepsTypes(root: XElement, props: seq<Property>)
    ensures forall k | 0 <= k < |props| :: Fill(root, props).0[k].Info() == props[k].Info()
  {
    FillWithKeepsTypes(Reads(root, props), props);
  }

  /** A fold over outcomes of the declared types keeps every property's name and type. */
  lemma {:induction false} FillWithKeepsTypes(outcomes: seq<Result<PropertyValue, Error>>, props: seq<Property>)
    requires |outcomes| == |props|
    requires forall k | 0 <= k < |props| :: outcomes[k].Success? ==> TypeOf(outcomes[k].value) == TypeOf(props[k].value)
    ensures forall k | 0 <= k < |props| :: FillWith(outcomes, props).0[k].Info() == props[k].Info()
  {
    if props != [] {
      var n := |props| - 1;
      assert forall k | 0 <= k < n :: outcomes[..n][k] == outcomes[k] && props[..n][k] == props[k];
      FillWithKeepsTypes(outcomes[..n], props[..n]);
    }
  }

  /**
   * The first property of an unsupported type stops `Fill` with
   * `NotSupported`: the properties before it are already set from the
   * document, it and the ones after it keep their values.
   */
  lemma FillStops(root: XElement, props: seq<Property>, k: nat)
    requires k < |props| && !Supported(props[k].value)
    requires forall j | 0 <= j < k :: Supported(props[j].value)
    ensures Fill(root, props).1 == Some(NotSupported(props[k].value.typeName))
    ensures forall j | k <= j < |props| :: Fill(root, props).0[j] == props[j]
    ensures forall j | 0 <= j < k :: Get(root, props[j].Info()) == Success(Fill(root, props).0[j].value)
  {
    FillWithStops(Reads(root, props), props, k);
  }

  /** The fold stops at the first failed outcome, after taking the values of the outcomes before it. */
  lemma {:induction false} FillWithStops(outcomes: seq<Result<PropertyValue, Error>>, props: seq<Property>, k: nat)
    requires |outcomes| == |props| && k < |props| && outcomes[k].Failure?
    requires forall j | 0 <= j < k :: outcomes[j].Success?
    ensures FillWith(outcomes, props).1 == Some(outcomes[k].error)
    ensures forall j | k <= j < |props| :: FillWith(outcomes, props).0[j] == props[j]
    ensures forall j | 0 <= j < k :: outcomes[j] == Success(FillWith(outcomes, props).0[j].value)
  {
    var n := |props| - 1;
    assert forall j | 0 <= j < n :: outcomes[..n][j] == outcomes[j] && props[..n][j] == props[j];
    if k < n {
      FillWithStops(outcomes[..n], props[..n], k);
    } else {
      FillWithError(outcomes[..n], props[..n]);
      FillWithTakesOutcomes(outcomes[..n], props[..n]);
    }
  }

  /** A fold that reports no error took every property's value from its outcome. */
  lemma {:induction false} FillWithTakesOutcomes(outcomes: seq<Result<PropertyValue, Error>>, props: seq<Property>)
    requires |outcomes| == |props| && FillWith(outcomes, props).1.None?
    ensures forall k | 0 <= k < |props| :: outcomes[k] == Success(FillWith(outcomes, props).0[k].value)
  {
    if props != [] {
      var n := |props| - 1;
      FillWithTakesOutcomes(outcomes[..n], props[..n]);
      assert forall k | 0 <= k < n :: outcomes[..n][k] == outcomes[k];
    }
  }

  /** Once a prefix of the fold has failed, the rest of the properties pass through unchanged. */
  lemma {:induction false} FillWithKeepsError(outcomes: seq<Result<PropertyValue, Error>>, props: seq<Property>, k: nat)
    requires |outcomes| == |props| && k <= |props|
    requires FillWith(outcomes[..k], props[..k]).1.Some?
    ensures FillWith(outcomes, props) == (FillWith(outcomes[..k], props[..k]).0 + props[k..], FillWith(outcomes[..k], props[..k]).1)
    decreases |props|
  {
    var head := FillWith(outcomes[..k], props[..k]).0;
    if |props| == k {
      assert outcomes[..k] == outcomes && props[..k] == props;
      assert head + props[k..] == head;
    } else {
      var n := |props| - 1;
      assert outcomes[..n][..k] == outcomes[..k] && props[..n][..k] == props[..k];
      FillWithKeepsError(outcomes[..n], props[..n], k);
      assert head + props[..n][k..] + [props[n]] == head + props[k..];
    }
  }
}
