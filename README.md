# Toolroom.DataHelper: XML-mapped properties, token filters and the modified-after filter

This project is a Dafny model of three parts of `Toolroom.DataHelper`. Each part comes with proofs.

- **`XmlEntityExtensions`** stores the properties of an `IXmlEntity` that carry the
  mapping attribute in one XML string. The string is a root element `Values` with one
  child element per property, named after the property.
  - A string, int or bool is stored as the element's text.
  - A list is stored as `Value` children.
  - A dictionary is stored as `Value` children, each with a `Key` attribute.
  - Null, blank or default values are not written at all.

  `GetXmlValuesFromProperties` encodes an entity. It returns null when no element was
  written. `FillPropertiesFromXmlValues` decodes a string back into the properties.
  Each property's declared type picks its getter and setter. A type outside the
  supported set raises `NotSupportedException`.
- **`TokenExtensions.FilterToken`** has three overloads. Each narrows a query of tokens by:
  - deleted state;
  - validity (`ValidUntil` against the current instant);
  - token id or token key;
  - user id (third overload only).

  An undefined `TokenValidity` raises `ArgumentOutOfRangeException`.
- **`SysValidityExtensions.OfModifiedAfter`** keeps the entities whose `SysStartTime` is
  strictly after the given instant. It leaves the query unchanged when that instant is
  null or `DateTime.MinValue`.

Modules:

- `Common`: `Option` and `Result`.
- `XLinq`: the part of LINQ to XML that the codec uses, over immutable element values.
  - `Element` finds the first child element with a name.
  - `Elements` lists the child elements with a name.
  - `Value` gives the text content.
  - `Attribute` finds an attribute.
  - `SetValue` replaces an element's content.
- `IntText`: invariant-culture `int.ToString` and `int.TryParse` under `NumberStyles.Integer`
  and `NumberStyles.Number`.
- `XmlEntityCodec`: the encoding, stated as functions.
  - Each in-place setter of the source becomes `AfterX(root, ...)`, which gives the
    root element after the edit.
  - Each getter becomes a function of the root.
  - `Get` and `AfterSet` dispatch on the property type.
  - `EncodedXmlValues` gives the encoded document and `Fill` the decoded properties.
- `XmlEntityCodecProperties`: the lemmas. Any setter followed by its getter gives back the
  value, normalised as the encoding requires. A setter changes no other property's
  element. Encoding then decoding an entity restores every property. Decoding stops at
  the first unsupported type.
- `XmlEntityExtensions`: the imperative side.
  - `Document` holds the root element and edits it in place. It has the same helpers,
    setters and getters as the source, with the source's loops. Each method is proved
    to equal the corresponding function.
  - `XmlEntity` holds the mapped properties and runs the encode and fill loops.
- `Queries`: `Where` over sequences and its laws.
- `TokenExtensions` and `SysValidityExtensions`: the filters, stated on sequences.

A property is represented by its name and a tagged value (`PropertyValue`). The tag is
the declared type. Null is `None`. A dictionary is the sequence of its entries in
enumeration order.

## Model

Source cells are paths relative to the repository root.

| member | source | states |
|---|---|---|
| XLinq.FirstIndex | src/Toolroom.DataHelper/XmlEntity/XmlEntityExtensions.cs:404-407 | The position found holds an element with the requested name and no earlier child has that name; `None` exactly when no child has it (`XContainer.Element` returns the first match or null) |
| XLinq.Element | src/Toolroom.DataHelper/XmlEntity/XmlEntityExtensions.cs:406 | `Element(name)` returns an element with that name that is the first such child; it is null exactly when no child element has the name |
| XLinq.Elements | src/Toolroom.DataHelper/XmlEntity/XmlEntityExtensions.cs:412 | The elements returned are exactly the child elements with that name: an element is in the result if and only if it has the name and is a child |
| XLinq.ElementsOne | src/Toolroom.DataHelper/XmlEntity/XmlEntityExtensions.cs:412 | A single node contributes its element when it is an element with the name, and nothing otherwise |
| XLinq.ElementsAppend | src/Toolroom.DataHelper/XmlEntity/XmlEntityExtensions.cs:412 | `Elements(name)` of two node lists joined is the two results joined, so the result keeps document order and repeats |
| XLinq.Value | src/Toolroom.DataHelper/XmlEntity/XmlEntityExtensions.cs:170 | The value of an element without children is "", and of an element holding one text node is that text |
| XLinq.SetValue | src/Toolroom.DataHelper/XmlEntity/XmlEntityExtensions.cs:163-164 | Setting an element's value keeps its name and attributes, and its `Value` afterwards is exactly the text set |
| XLinq.ElementsOfAll | src/Toolroom.DataHelper/XmlEntity/XmlEntityExtensions.cs:409-413 | When every child is an element with the name asked for, `Elements(name)` returns all of them in order |
| XLinq.AttributeFrom | src/Toolroom.DataHelper/XmlEntity/XmlEntityExtensions.cs:370 | `Attribute(name)` is non-null exactly when some attribute has that name, and then its value is that of the first attribute with the name |
| IntText.Format | src/Toolroom.DataHelper/XmlEntity/XmlEntityExtensions.cs:272 | The invariant-culture text of an int is non-empty, contains no white space and starts with '-' exactly when the value is negative |
| IntText.TryParse | src/Toolroom.DataHelper/XmlEntity/XmlEntityExtensions.cs:281 | A successful parse yields a 32-bit value and implies the text contains a digit |
| IntText.ParseFormat | src/Toolroom.DataHelper/XmlEntity/XmlEntityExtensions.cs:272-283 | Parsing the invariant-culture text of any int, under either number style, gives back that int |
| IntText.DigitsValueOfDigits | src/Toolroom.DataHelper/XmlEntity/XmlEntityExtensions.cs:272 | The decimal digits printed for a natural number denote that number |
| IntText.GroupSeparatorExample | src/Toolroom.DataHelper/XmlEntity/XmlEntityExtensions.cs:281 | "1,234" parses to 1234 under `NumberStyles.Number` (used by `GetInt`) and is rejected under `NumberStyles.Integer` (used by `GetBool`) |
| IntText.TrailingSignExample | src/Toolroom.DataHelper/XmlEntity/XmlEntityExtensions.cs:281 | `NumberStyles.Number` accepts a trailing sign surrounded by white space: " 5- " parses to -5 |
| IntText.FractionExample | src/Toolroom.DataHelper/XmlEntity/XmlEntityExtensions.cs:281 | A decimal point is accepted only with all-zero fractional digits: "5.0" parses to 5, "5.5" does not parse |
| XmlEntityCodec.TrimStartEmpty | src/Toolroom.DataHelper/XmlEntity/XmlEntityExtensions.cs:159 | Trimming leading white space leaves nothing exactly when every character is white space |
| XmlEntityCodec.IsNullOrWhiteSpace | src/Toolroom.DataHelper/XmlEntity/XmlEntityExtensions.cs:159 | `string.IsNullOrWhiteSpace` holds exactly for null and for strings with nothing left after trimming leading white space, that is, strings made only of white space |
| XmlEntityCodec.GetElement | src/Toolroom.DataHelper/XmlEntity/XmlEntityExtensions.cs:404-407 | The element found carries the property's name; it is null exactly when the root has no child element with that name |
| XmlEntityCodec.GetValueElements | src/Toolroom.DataHelper/XmlEntity/XmlEntityExtensions.cs:409-413 | The `Value` children are null exactly when the property's element is absent; otherwise they are `Elements("Value")` of that element's children, each named `Value` |
| XmlEntityCodec.AfterAddOrGet | src/Toolroom.DataHelper/XmlEntity/XmlEntityExtensions.cs:415-424 | The returned position is the first child element with the property's name, so it is the one `Element` finds afterwards; the root keeps its name and attributes |
| XmlEntityCodec.AfterRemoveElement | src/Toolroom.DataHelper/XmlEntity/XmlEntityExtensions.cs:426-430 | Removing drops exactly one child when an element with that name exists and none otherwise; the root keeps its name and attributes |
| XmlEntityCodec.AfterSetString | src/Toolroom.DataHelper/XmlEntity/XmlEntityExtensions.cs:157-166 | Storing a string keeps the root's name and attributes; a string that is not null or white space reads back unchanged through `GetString` |
| XmlEntityCodec.AfterSetStrings | src/Toolroom.DataHelper/XmlEntity/XmlEntityExtensions.cs:172-187 | Storing a string list keeps the root's name and attributes; a non-null, non-empty list leaves an element for the property |
| XmlEntityCodec.AfterSetBool | src/Toolroom.DataHelper/XmlEntity/XmlEntityExtensions.cs:204-210 | Storing a bool keeps the root's name and attributes; a non-null value leaves the text "1" for true and "0" for false |
| XmlEntityCodec.AfterSetInt | src/Toolroom.DataHelper/XmlEntity/XmlEntityExtensions.cs:269-275 | Storing an int keeps the root's name and attributes; a non-null, non-zero value leaves its invariant-culture text |
| XmlEntityCodec.AfterSetInts | src/Toolroom.DataHelper/XmlEntity/XmlEntityExtensions.cs:286-289 | Storing an int list keeps the root's name and attributes; a non-null, non-empty list leaves an element for the property |
| XmlEntityCodec.AfterSetDictionaryStringString | src/Toolroom.DataHelper/XmlEntity/XmlEntityExtensions.cs:348-361 | Storing a dictionary keeps the root's name and attributes; a non-null, non-empty dictionary leaves an element for the property |
| XmlEntityCodec.GetString | src/Toolroom.DataHelper/XmlEntity/XmlEntityExtensions.cs:167-171 | The string read is null exactly when the property's element is absent |
| XmlEntityCodec.GetInt | src/Toolroom.DataHelper/XmlEntity/XmlEntityExtensions.cs:276-284 | An absent element reads as null |
| XmlEntityCodec.GetBool | src/Toolroom.DataHelper/XmlEntity/XmlEntityExtensions.cs:211-219 | An absent element reads as null |
| XmlEntityCodec.StringsOf | src/Toolroom.DataHelper/XmlEntity/XmlEntityExtensions.cs:189-200 | A string list read back is never empty. It is null exactly when the element is absent or has no `Value` children, and non-null when it has some |
| XmlEntityCodec.IntsOf | src/Toolroom.DataHelper/XmlEntity/XmlEntityExtensions.cs:291-304 | An int list read back is null when the element is absent or has no `Value` children, and non-null (possibly empty) when it has some |
| XmlEntityCodec.ParseAll | src/Toolroom.DataHelper/XmlEntity/XmlEntityExtensions.cs:297-299 | Each `Value` child is parsed under `NumberStyles.Number`, one result per child |
| XmlEntityCodec.Somes | src/Toolroom.DataHelper/XmlEntity/XmlEntityExtensions.cs:297-302 | An int is among those kept if and only if it is among the successful parses; no more ints are kept than there are children |
| XmlEntityCodec.FirstKeyWins | src/Toolroom.DataHelper/XmlEntity/XmlEntityExtensions.cs:367-373 | The dictionary built from keyed `Value` children has pairwise distinct keys and no more entries than children |
| XmlEntityCodec.DictionaryOf | src/Toolroom.DataHelper/XmlEntity/XmlEntityExtensions.cs:362-375 | A dictionary read back has distinct keys. It is null when the element is absent or has no `Value` children, and non-null when it has some |
| XmlEntityCodec.AfterSet | src/Toolroom.DataHelper/XmlEntity/XmlEntityExtensions.cs:117-153 | Storing a property keeps the root's name and attributes; a property of an unsupported type leaves the document unchanged (the source returns without a matching branch) |
| XmlEntityCodec.Get | src/Toolroom.DataHelper/XmlEntity/XmlEntityExtensions.cs:71-115 | Reading fails exactly for an unsupported declared type, with `NotSupported` carrying the type's full name; otherwise the value has the declared type |
| XmlEntityCodec.PropertyOf | src/Toolroom.DataHelper/XmlEntity/XmlEntityExtensions.cs:54-69 | A property selector resolves only when it is a property access under zero or more `Convert` nodes |
| XmlEntityCodec.GetByExpression | src/Toolroom.DataHelper/XmlEntity/XmlEntityExtensions.cs:54-69 | Reading through a selector fails with the selector's error when it does not resolve, and fails exactly when it does not resolve or names a property of an unsupported type; otherwise the value has the property's declared type |
| XmlEntityCodec.EncodeRoot | src/Toolroom.DataHelper/XmlEntity/XmlEntityExtensions.cs:20-24 | The encoded document's root is `Values` with no attributes |
| XmlEntityCodec.EncodedXmlValues | src/Toolroom.DataHelper/XmlEntity/XmlEntityExtensions.cs:17-31 | When a document is returned, its root is `Values` and has at least one child element |
| XmlEntityCodec.FillWith | src/Toolroom.DataHelper/XmlEntity/XmlEntityExtensions.cs:38-41 | The fill loop keeps the number of properties and every property's name |
| XmlEntityCodec.FillWithError | src/Toolroom.DataHelper/XmlEntity/XmlEntityExtensions.cs:38-41 | The fill loop reports no error exactly when every read succeeded; a reported error is the error of one of the reads |
| XmlEntityCodec.Fill | src/Toolroom.DataHelper/XmlEntity/XmlEntityExtensions.cs:33-42 | Filling keeps every property's name; it reports an error exactly when some property has an unsupported type, and the error is `NotSupported` with that type's name |
| XmlEntityCodecProperties.AddOrGetFresh | src/Toolroom.DataHelper/XmlEntity/XmlEntityExtensions.cs:418-422 | When no element has the name, a new empty element is appended after the existing children |
| XmlEntityCodecProperties.AddOrGetFrame | src/Toolroom.DataHelper/XmlEntity/XmlEntityExtensions.cs:415-424 | Adding or getting one property's element leaves every other property's element unchanged |
| XmlEntityCodecProperties.AddOrGetUnique | src/Toolroom.DataHelper/XmlEntity/XmlEntityExtensions.cs:415-424 | Adding or getting preserves the invariant that no two child elements share a name |
| XmlEntityCodecProperties.RemoveFrame | src/Toolroom.DataHelper/XmlEntity/XmlEntityExtensions.cs:426-430 | Removing one property's element leaves every other property's element unchanged |
| XmlEntityCodecProperties.RemoveGone | src/Toolroom.DataHelper/XmlEntity/XmlEntityExtensions.cs:426-430 | With unique names, no element with the name is left after removal |
| XmlEntityCodecProperties.RemoveUnique | src/Toolroom.DataHelper/XmlEntity/XmlEntityExtensions.cs:426-430 | Removal preserves the unique-names invariant |
| XmlEntityCodecProperties.SetStringGetString | src/Toolroom.DataHelper/XmlEntity/XmlEntityExtensions.cs:157-171 | Reading a string after storing it gives it back; a null or white-space-only string reads back as null |
| XmlEntityCodecProperties.SetStringFrame | src/Toolroom.DataHelper/XmlEntity/XmlEntityExtensions.cs:157-166 | Storing a string leaves every other property's element unchanged |
| XmlEntityCodecProperties.SetStringUnique | src/Toolroom.DataHelper/XmlEntity/XmlEntityExtensions.cs:157-166 | Storing a string preserves the unique-names invariant |
| XmlEntityCodecProperties.FormatNotBlank | src/Toolroom.DataHelper/XmlEntity/XmlEntityExtensions.cs:271-272 | The text written for an int is never white space, so `SetString` always writes it |
| XmlEntityCodecProperties.SetBoolGetBool | src/Toolroom.DataHelper/XmlEntity/XmlEntityExtensions.cs:204-219 | A nullable bool read back after storing is the value stored; the element exists exactly when the value is non-null |
| XmlEntityCodecProperties.SetIntGetInt | src/Toolroom.DataHelper/XmlEntity/XmlEntityExtensions.cs:269-284 | A nullable int read back is the value stored, except that 0 reads back as null; the element exists exactly for non-null, non-zero values |
| XmlEntityCodecProperties.SetBoolFrame | src/Toolroom.DataHelper/XmlEntity/XmlEntityExtensions.cs:204-210 | Storing a bool leaves every other property's element unchanged |
| XmlEntityCodecProperties.SetIntFrame | src/Toolroom.DataHelper/XmlEntity/XmlEntityExtensions.cs:269-275 | Storing an int leaves every other property's element unchanged |
| XmlEntityCodecProperties.SetBoolUnique | src/Toolroom.DataHelper/XmlEntity/XmlEntityExtensions.cs:204-210 | Storing a bool preserves the unique-names invariant |
| XmlEntityCodecProperties.SetIntUnique | src/Toolroom.DataHelper/XmlEntity/XmlEntityExtensions.cs:269-275 | Storing an int preserves the unique-names invariant |
| XmlEntityCodecProperties.ValueOfValueElement | src/Toolroom.DataHelper/XmlEntity/XmlEntityExtensions.cs:185 | A `Value` element built from a string has that string as its value; from null, the empty string |
| XmlEntityCodecProperties.ValueElementsOfValueNodes | src/Toolroom.DataHelper/XmlEntity/XmlEntityExtensions.cs:179-199 | The `Value` children written for a list read back as the list's items in order, with null items as empty strings |
| XmlEntityCodecProperties.SetStringsGetStrings | src/Toolroom.DataHelper/XmlEntity/XmlEntityExtensions.cs:172-200 | A string list read back is the list stored (null items as ""); a null or empty list reads back as null and leaves no element |
| XmlEntityCodecProperties.SetStringsFrame | src/Toolroom.DataHelper/XmlEntity/XmlEntityExtensions.cs:172-187 | Storing a string list leaves every other property's element unchanged |
| XmlEntityCodecProperties.SetStringsUnique | src/Toolroom.DataHelper/XmlEntity/XmlEntityExtensions.cs:172-187 | Storing a string list preserves the unique-names invariant |
| XmlEntityCodecProperties.SomesAll | src/Toolroom.DataHelper/XmlEntity/XmlEntityExtensions.cs:297-302 | When every item parses, the int list read keeps all of them in order |
| XmlEntityCodecProperties.SomesNone | src/Toolroom.DataHelper/XmlEntity/XmlEntityExtensions.cs:299-300 | When no item parses, the int list read is empty, not null |
| XmlEntityCodecProperties.SomesOne | src/Toolroom.DataHelper/XmlEntity/XmlEntityExtensions.cs:299-301 | One parse result contributes its int when it succeeded, and nothing when it failed (`continue`) |
| XmlEntityCodecProperties.SomesAppend | src/Toolroom.DataHelper/XmlEntity/XmlEntityExtensions.cs:297-302 | The ints kept from two runs of children joined are the two results joined, so `GetInts` keeps the order of the parsed children, repeats included |
| XmlEntityCodecProperties.ParsedIntsOfFormatted | src/Toolroom.DataHelper/XmlEntity/XmlEntityExtensions.cs:286-304 | The `Value` children written for an int list parse back to exactly that list |
| XmlEntityCodecProperties.ParseAllFormatted | src/Toolroom.DataHelper/XmlEntity/XmlEntityExtensions.cs:297-299 | A `Value` child holding the invariant-culture text of an int parses to that int |
| XmlEntityCodecProperties.SetIntsGetInts | src/Toolroom.DataHelper/XmlEntity/XmlEntityExtensions.cs:286-304 | An int list read back is the list stored; a null or empty list reads back as null and leaves no element |
| XmlEntityCodecProperties.FirstKeyWinsAllKeyed | src/Toolroom.DataHelper/XmlEntity/XmlEntityExtensions.cs:368-373 | When every child has a distinct key, the dictionary read has one entry per child, in order |
| XmlEntityCodecProperties.DictionaryEntriesOfEntryNodes | src/Toolroom.DataHelper/XmlEntity/XmlEntityExtensions.cs:355-373 | The keyed children written for a dictionary read back as its entries in order, null values as "" |
| XmlEntityCodecProperties.KeyedTextsOfEntryNodes | src/Toolroom.DataHelper/XmlEntity/XmlEntityExtensions.cs:355-372 | The keyed children written for a dictionary read back, in order, as each entry's key and its value or "" |
| XmlEntityCodecProperties.SetDictionaryGetDictionary | src/Toolroom.DataHelper/XmlEntity/XmlEntityExtensions.cs:348-375 | A string dictionary read back is the dictionary stored (null values as ""); a null or empty dictionary reads back as null and leaves no element |
| XmlEntityCodecProperties.SetDictionaryFrame | src/Toolroom.DataHelper/XmlEntity/XmlEntityExtensions.cs:348-361 | Storing a dictionary leaves every other property's element unchanged |
| XmlEntityCodecProperties.SetDictionaryUnique | src/Toolroom.DataHelper/XmlEntity/XmlEntityExtensions.cs:348-361 | Storing a dictionary preserves the unique-names invariant |
| XmlEntityCodecProperties.SetDictionaryWrites | src/Toolroom.DataHelper/XmlEntity/XmlEntityExtensions.cs:350-354 | Storing a dictionary leaves an element exactly when it is non-null and non-empty |
| XmlEntityCodecProperties.SetFrame | src/Toolroom.DataHelper/XmlEntity/XmlEntityExtensions.cs:117-153 | Storing any property leaves every other property's element unchanged |
| XmlEntityCodecProperties.SetUnique | src/Toolroom.DataHelper/XmlEntity/XmlEntityExtensions.cs:117-153 | Storing any property preserves the unique-names invariant |
| XmlEntityCodecProperties.SetGetScalar | src/Toolroom.DataHelper/XmlEntity/XmlEntityExtensions.cs:71-153 | For string, int, int?, bool and bool? properties, `Get` after `Set` returns the normalised stored value |
| XmlEntityCodecProperties.SetGetStringValue | src/Toolroom.DataHelper/XmlEntity/XmlEntityExtensions.cs:77-78 | For a string property, `Get` after `Set` returns the stored string, with a null or white-space string read back as null |
| XmlEntityCodecProperties.SetGetIntValue | src/Toolroom.DataHelper/XmlEntity/XmlEntityExtensions.cs:81-84 | For an int or int? property, `Get` after `Set` returns the stored value; a zero int? reads back as null |
| XmlEntityCodecProperties.SetGetBoolValue | src/Toolroom.DataHelper/XmlEntity/XmlEntityExtensions.cs:85-88 | For a bool or bool? property, `Get` after `Set` returns the stored value |
| XmlEntityCodecProperties.SetGetPlainBool | src/Toolroom.DataHelper/XmlEntity/XmlEntityExtensions.cs:85-86 | For a bool property, `Get` after `Set` returns the stored bool |
| XmlEntityCodecProperties.SetGetNullableBool | src/Toolroom.DataHelper/XmlEntity/XmlEntityExtensions.cs:87-88 | For a bool? property, `Get` after `Set` returns the stored value, null included |
| XmlEntityCodecProperties.SetGetStringList | src/Toolroom.DataHelper/XmlEntity/XmlEntityExtensions.cs:79-80 | For a string-list property, `Get` after `Set` returns the normalised stored list |
| XmlEntityCodecProperties.SetGetIntList | src/Toolroom.DataHelper/XmlEntity/XmlEntityExtensions.cs:97-98 | For an int-list property, `Get` after `Set` returns the normalised stored list |
| XmlEntityCodecProperties.SetGetDictionary | src/Toolroom.DataHelper/XmlEntity/XmlEntityExtensions.cs:107-108 | For a string-dictionary property, `Get` after `Set` returns the normalised stored dictionary |
| XmlEntityCodecProperties.SetGet | src/Toolroom.DataHelper/XmlEntity/XmlEntityExtensions.cs:71-153 | For every supported type, `Get` after `Set` returns the stored value, normalised: a blank string becomes null, a nullable 0 becomes null, an empty list or dictionary becomes null, null items become "" |
| XmlEntityCodecProperties.SetWrites | src/Toolroom.DataHelper/XmlEntity/XmlEntityExtensions.cs:117-153 | `Set` leaves an element for the property exactly when its value is not elided (null, blank, zero int or empty collection) |
| XmlEntityCodecProperties.GetAbsent | src/Toolroom.DataHelper/XmlEntity/XmlEntityExtensions.cs:71-109 | A supported property without an element reads as its type's default (`default(int)`, `default(bool)` or null) |
| XmlEntityCodecProperties.GetReadsElement | src/Toolroom.DataHelper/XmlEntity/XmlEntityExtensions.cs:71-115 | `Get` depends only on the property's own element |
| XmlEntityCodecProperties.FirstKeyWinsComplete | src/Toolroom.DataHelper/XmlEntity/XmlEntityExtensions.cs:368-373 | Every key that occurs on some child is a key of the dictionary read |
| XmlEntityCodecProperties.FirstKeyWinsSound | src/Toolroom.DataHelper/XmlEntity/XmlEntityExtensions.cs:368-373 | Every entry of the dictionary read comes from the first child carrying its key |
| XmlEntityCodecProperties.DictionaryFirstWins | src/Toolroom.DataHelper/XmlEntity/XmlEntityExtensions.cs:371-372 | For a duplicated key, the value of its first child is the one kept |
| XmlEntityCodecProperties.FirstKeyWinsNoKeys | src/Toolroom.DataHelper/XmlEntity/XmlEntityExtensions.cs:370-373 | Children without a `Key` attribute give an empty dictionary |
| XmlEntityCodecProperties.PropertyOfConverted | src/Toolroom.DataHelper/XmlEntity/XmlEntityExtensions.cs:54-69 | A property access wrapped in any number of `Convert` nodes resolves to that property |
| XmlEntityCodecProperties.GetByExpressionConverted | src/Toolroom.DataHelper/XmlEntity/XmlEntityExtensions.cs:54-69 | Reading through a property access wrapped in any number of `Convert` nodes is reading that property |
| XmlEntityCodecProperties.EncodeUnique | src/Toolroom.DataHelper/XmlEntity/XmlEntityExtensions.cs:17-24 | The encoded document never has two elements with the same name |
| XmlEntityCodecProperties.EncodeAbsent | src/Toolroom.DataHelper/XmlEntity/XmlEntityExtensions.cs:17-24 | A name that no property has gets no element in the encoded document |
| XmlEntityCodecProperties.EncodeElement | src/Toolroom.DataHelper/XmlEntity/XmlEntityExtensions.cs:21-24 | A property's element in the encoded document is the one its own `Set` wrote; later properties do not touch it |
| XmlEntityCodecProperties.EncodeLastFrame | src/Toolroom.DataHelper/XmlEntity/XmlEntityExtensions.cs:21-24 | Storing the last property leaves the element of every other name as the earlier properties left it |
| XmlEntityCodecProperties.EncodeWrites | src/Toolroom.DataHelper/XmlEntity/XmlEntityExtensions.cs:17-24 | The encoded document has an element for a property exactly when its value is not elided |
| XmlEntityCodecProperties.EncodeFresh | src/Toolroom.DataHelper/XmlEntity/XmlEntityExtensions.cs:21-24 | Before a property is stored, its name has no element yet and names are unique |
| XmlEntityCodecProperties.EncodedNullIffAllElided | src/Toolroom.DataHelper/XmlEntity/XmlEntityExtensions.cs:25-30 | `GetXmlValuesFromProperties` returns null exactly when every property's value is elided |
| XmlEntityCodecProperties.RootOfEncoded | src/Toolroom.DataHelper/XmlEntity/XmlEntityExtensions.cs:25-35 | Decoding the null that encoding returns reads every property as the encoded document would |
| XmlEntityCodecProperties.FillWithSucceeds | src/Toolroom.DataHelper/XmlEntity/XmlEntityExtensions.cs:38-41 | When every read succeeds, filling assigns each property the value read and reports no error |
| XmlEntityCodecProperties.EncodeGet | src/Toolroom.DataHelper/XmlEntity/XmlEntityExtensions.cs:17-115 | Each supported property reads back from the encoded entity as its normalised value |
| XmlEntityCodecProperties.EntityRoundTrip | src/Toolroom.DataHelper/XmlEntity/XmlEntityExtensions.cs:17-42 | Filling an entity from its own encoding restores every property to its normalised value, without error |
| XmlEntityCodecProperties.FillFromNull | src/Toolroom.DataHelper/XmlEntity/XmlEntityExtensions.cs:35-41 | Filling from null sets every supported property to its type's default |
| XmlEntityCodecProperties.FillKeepsTypes | src/Toolroom.DataHelper/XmlEntity/XmlEntityExtensions.cs:38-41 | Filling never changes a property's name or declared type |
| XmlEntityCodecProperties.FillWithKeepsTypes | src/Toolroom.DataHelper/XmlEntity/XmlEntityExtensions.cs:38-41 | Assigning read values of the declared types keeps every property's name and type |
| XmlEntityCodecProperties.FillStops | src/Toolroom.DataHelper/XmlEntity/XmlEntityExtensions.cs:38-41 | Filling throws `NotSupported` at the first unsupported property; the earlier ones are already assigned from the document, and it and the later ones are untouched |
| XmlEntityCodecProperties.FillWithStops | src/Toolroom.DataHelper/XmlEntity/XmlEntityExtensions.cs:38-41 | The fill loop stops at the first failed read, reports its error, and leaves the rest unassigned |
| XmlEntityCodecProperties.FillWithTakesOutcomes | src/Toolroom.DataHelper/XmlEntity/XmlEntityExtensions.cs:38-41 | A fill without error assigned each property exactly what was read for it |
| XmlEntityCodecProperties.FillWithKeepsError | src/Toolroom.DataHelper/XmlEntity/XmlEntityExtensions.cs:38-41 | After a failed read, no later property is assigned |
| XmlEntityExtensions.Document.constructor | src/Toolroom.DataHelper/XmlEntity/XmlEntityExtensions.cs:20 | A new document holds the empty root `Values` |
| XmlEntityExtensions.Document.Parsed | src/Toolroom.DataHelper/XmlEntity/XmlEntityExtensions.cs:35 | A parsed document holds the given root element |
| XmlEntityExtensions.Document.AddOrGetPropertyElement | src/Toolroom.DataHelper/XmlEntity/XmlEntityExtensions.cs:415-424 | Performs `AfterAddOrGet` in place; the position returned is the first element with the name |
| XmlEntityExtensions.Document.RemoveElement | src/Toolroom.DataHelper/XmlEntity/XmlEntityExtensions.cs:426-430 | Performs `AfterRemoveElement` in place |
| XmlEntityExtensions.Document.SetString | src/Toolroom.DataHelper/XmlEntity/XmlEntityExtensions.cs:157-166 | Performs `AfterSetString` in place |
| XmlEntityExtensions.Document.SetStrings | src/Toolroom.DataHelper/XmlEntity/XmlEntityExtensions.cs:172-187 | The loop that adds the element lazily on the first item and appends one `Value` child per item yields `AfterSetStrings` |
| XmlEntityExtensions.Document.AppendValueNode | src/Toolroom.DataHelper/XmlEntity/XmlEntityExtensions.cs:185 | Appends one node to one child element and leaves every other child unchanged |
| XmlEntityExtensions.Document.SetBool | src/Toolroom.DataHelper/XmlEntity/XmlEntityExtensions.cs:204-210 | Performs `AfterSetBool` in place |
| XmlEntityExtensions.Document.SetInt | src/Toolroom.DataHelper/XmlEntity/XmlEntityExtensions.cs:269-275 | Performs `AfterSetInt` in place |
| XmlEntityExtensions.Document.SetInts | src/Toolroom.DataHelper/XmlEntity/XmlEntityExtensions.cs:286-289 | Performs `AfterSetInts` in place by way of `SetStrings` |
| XmlEntityExtensions.Document.SetDictionaryStringString | src/Toolroom.DataHelper/XmlEntity/XmlEntityExtensions.cs:348-361 | The loop that appends one keyed `Value` child per entry yields `AfterSetDictionaryStringString` |
| XmlEntityExtensions.Document.Set | src/Toolroom.DataHelper/XmlEntity/XmlEntityExtensions.cs:117-153 | Dispatches on the property type and yields `AfterSet` |
| XmlEntityExtensions.Document.SetScalar | src/Toolroom.DataHelper/XmlEntity/XmlEntityExtensions.cs:123-130 | The string, int and bool branches of `Set` yield `AfterSet` |
| XmlEntityExtensions.Document.SetCollection | src/Toolroom.DataHelper/XmlEntity/XmlEntityExtensions.cs:135-146 | The list and dictionary branches of `Set`, and the fall-through for other types, yield `AfterSet` |
| XmlEntityExtensions.Document.GetStrings | src/Toolroom.DataHelper/XmlEntity/XmlEntityExtensions.cs:189-200 | The collecting loop returns `StringsOf` |
| XmlEntityExtensions.Document.GetInts | src/Toolroom.DataHelper/XmlEntity/XmlEntityExtensions.cs:291-304 | The loop that skips unparseable items returns `IntsOf` |
| XmlEntityExtensions.Document.GetDictionaryStringString | src/Toolroom.DataHelper/XmlEntity/XmlEntityExtensions.cs:362-375 | The loop that keeps the first child per key returns `DictionaryOf` |
| XmlEntityExtensions.Document.Get | src/Toolroom.DataHelper/XmlEntity/XmlEntityExtensions.cs:71-115 | Returns what `XmlEntityCodec.Get` specifies for the current document |
| XmlEntityExtensions.XmlEntity.constructor | src/Toolroom.DataHelper/XmlEntity/XmlEntityExtensions.cs:44-48 | The entity holds the given mapped properties |
| XmlEntityExtensions.XmlEntity.GetXmlValuesFromProperties | src/Toolroom.DataHelper/XmlEntity/XmlEntityExtensions.cs:17-31 | The loop that stores each property into a fresh document returns `EncodedXmlValues` |
| XmlEntityExtensions.XmlEntity.FillPropertiesFromXmlValues | src/Toolroom.DataHelper/XmlEntity/XmlEntityExtensions.cs:33-42 | The loop that assigns each property from the document, stopping at the first failure, leaves the properties and error `Fill` specifies |
| Queries.Where | src/Toolroom.DataHelper/Token/TokenExtensions.cs:31 | `Where` keeps only elements satisfying the predicate, keeps every element that does, and is no longer than its input |
| Queries.WhereIsSubsequence | src/Toolroom.DataHelper/Token/TokenExtensions.cs:31 | `Where` keeps its input's order: the result is a subsequence of the input |
| Queries.WhereWhere | src/Toolroom.DataHelper/Token/TokenExtensions.cs:42-46 | Two `Where`s in a row equal one `Where` with the conjunction |
| Queries.WhereAll | src/Toolroom.DataHelper/Token/TokenExtensions.cs:36-37 | A `Where` whose predicate holds everywhere returns its input |
| Queries.WherePartition | src/Toolroom.DataHelper/Token/TokenExtensions.cs:30-35 | A predicate and its negation split every element's occurrences between them |
| TokenExtensions.Filter | src/Toolroom.DataHelper/Token/TokenExtensions.cs:24-49 | Filtering fails exactly for an undefined `TokenValidity`, with `ArgumentOutOfRange("tokenValidity")` |
| TokenExtensions.FilterIsOneWhere | src/Toolroom.DataHelper/Token/TokenExtensions.cs:24-49 | For a defined validity, the chain of `Where`s equals one `Where` with the deleted-state filter, the validity condition, and the id and key conditions where given |
| TokenExtensions.FilterTokenById | src/Toolroom.DataHelper/Token/TokenExtensions.cs:9-12 | Fails exactly for an undefined validity; otherwise returns, in query order, exactly the tokens in the deleted state that are in the validity window and have the id |
| TokenExtensions.FilterTokenByKey | src/Toolroom.DataHelper/Token/TokenExtensions.cs:14-17 | Same, with the key condition when a key is given and no key condition for null |
| TokenExtensions.FilterUserToken | src/Toolroom.DataHelper/Token/TokenExtensions.cs:19-22 | Same as the key overload, also restricted to the user id |
| TokenExtensions.ValidNotValidPartitionAny | src/Toolroom.DataHelper/Token/TokenExtensions.cs:28-40 | `Valid` and `NotValid` split the result of `Any`: each token occurs in the two together exactly as often as in `Any` |
| SysValidityExtensions.OfModifiedAfter | src/Toolroom.DataHelper/SysValidity/SysValidityExtensions.cs:8-15 | Null or `MinValue` returns the query unchanged; otherwise returns, in order, exactly the entities started strictly after the instant |
| SysValidityExtensions.OfModifiedAfterIdempotent | src/Toolroom.DataHelper/SysValidity/SysValidityExtensions.cs:8-15 | Applying the filter twice gives the same result as once |

## Left out

- The `DateTime`, `DateTimeOffset`, `double`, `IEnumerable<double>` and `IDictionary<string, double>` getters and setters (`XmlEntityExtensions.cs` lines 222-266, 307-345 and 378-400). They depend on round-trip date and floating-point formatting. Properties of these types fall in the unsupported `OtherType` case, so the model stores nothing for them and `Get` reports `NotSupported`. In the source they are handled.
- Parsing and serialising XML text (`XDocument.Parse`, `ToString(SaveOptions.DisableFormatting)`). The document is an element tree, so escaping, whitespace-only text nodes, line-break normalisation and malformed input are not modelled. A text that parses is assumed to give the tree that was serialised.
- Reflection. The mapped properties (`GetXmlMappedProperties`, the attribute filter) and `PropertyInfo.GetValue`/`SetValue` are replaced by an explicit sequence of properties, each a name and a typed value. The properties are assumed to have distinct names, as C# properties do.
- `XmlEntityCodecProperties.EntityRoundTrip` requires distinct dictionary keys (`WellFormed`), as an `IDictionary` guarantees.
- `ContextExtensions` and `ComputationEntityExtensions` are not part of this model.
- The `OfDeletedState` filter and the `DeletedState` enum are not part of this model. The token filters take the chosen predicate as a parameter.
- `DateTime.UtcNow` is the parameter `now`. Instants are tick counts; `DateTime.MinValue` is tick 0.
- `IQueryable` translation is not modelled. A query is a finite sequence, evaluated in memory.
- The `InvalidCastException` catch blocks in `Get` and `Set`. A value always has its declared type in the model, so the cast cannot fail.
- `Get(Expression)` throws `Exception` for unsupported selectors. These become the error values `UnsupportedMemberExpression`, `UnsupportedUnaryExpression` and `UnsupportedExpression`.
- A `Document`'s `XElement` references are positions in the root's children. Aliasing between a returned element and the tree is therefore represented by those positions only.
- `XmlEntityCodec.GetBool` parses with `int.TryParse(s)`. This uses the current culture; the model takes the invariant culture's signs and `NumberStyles.Integer`.
- `XmlEntityCodec.Reads` evaluates `Get` for every property up front, as values. The fill loop itself stops at the first failure, as the source does.
- `TokenExtensions.ValidNotValidPartitionAny` states the partition per token as occurrence counts. It does not state how the two results interleave within the `Any` result; each result keeps query order by `Queries.WhereIsSubsequence`.
- `Queries.Where` states membership of the kept elements in its input through `Queries.WhereIsSubsequence`, not in its own contract.
- `IntText.TryParse` models only the invariant culture. Leading and trailing white space, signs, ',' groups and an all-zero fraction are covered; currency symbols, exponents and parentheses are not accepted by either style and are not modelled.
- `XLinq.Value` states only the two shapes the codec writes and reads (no children, one text node). Its definition concatenates the text of all descendants, as `XElement.Value` does.
- `XmlEntityCodec.AfterSetStrings`, `XmlEntityCodec.AfterSetInts` and `XmlEntityCodec.AfterSetDictionaryStringString` state only that the root keeps its name and attributes and that a non-empty collection leaves an element. What is read back is stated by `SetStringsGetStrings`, `SetIntsGetInts` and `SetDictionaryGetDictionary`. That other elements are unchanged is stated by the `...Frame` lemmas.
- `XmlEntityCodec.AfterSetString`, `XmlEntityCodec.AfterSetBool` and `XmlEntityCodec.AfterSetInt` state the read-back of a written value only. The removal case and the frame are stated by `SetStringGetString`, `SetBoolGetBool`, `SetIntGetInt` and the `...Frame` lemmas.
- `XmlEntityCodec.ParseAll` states only that there is one result per child. `ParseAllFormatted` states the parse of a text that `Format` produces. Other texts are given by `IntText.TryParse`.
- `XmlEntityCodec.FillWith` states only the names it keeps. Its error and the values it assigns are stated by `FillWithError`, `FillWithStops`, `FillWithTakesOutcomes` and `FillWithKeepsError`.
- `XLinq.Elements` states in its own contract which elements are returned. Their document order and repeats are stated by `XLinq.ElementsAppend` together with `XLinq.ElementsOne`.
- `XmlEntityCodec.Somes` states in its own contract which ints are kept. Their order and repeats are stated by `XmlEntityCodecProperties.SomesAppend` together with `XmlEntityCodecProperties.SomesOne`.
