/**
 * SelectedHeadersTemplate: a named list of column indices tied to a CSV format identifier, with
 * its JSON object form (keys "headerId", "templateName", "indices") and its identifier generation.
 */
module SelectedHeadersTemplates {
  import opened Wrappers
  import opened CsvHandling

  /** The C++ `int` an index is stored in. */
  type Int32 = x: int | -0x8000_0000 <= x < 0x8000_0000

  /**
   * A JSON value. Numbers are integers here; fractional JSON numbers are not modelled.
   * A QJsonObject is the map of an object value.
   */
  datatype Json =
    | JNull
    | JBool(b: bool)
    | JNumber(n: int)
    | JString(s: string)
    | JArray(items: seq<Json>)
    | JObject(fields: map<string, Json>)

  datatype FromJsonError = ParseError

  datatype UniqueIdentifierError = ListEmpty | StringsEmpty

  const HeaderIdJsonName: string := "headerId"
  const TemplateNameJsonName: string := "templateName"
  const IndicesJsonName: string := "indices"

  datatype SelectedHeadersTemplate =
    SelectedHeadersTemplate(headerIdentifier: string, templateName: string, headerIndices: seq<Int32>)

  /** The default constructor: every field empty. */
  function Default(): (t: SelectedHeadersTemplate)
    ensures t.headerIdentifier == "" && t.templateName == "" && t.headerIndices == []
  {
    SelectedHeadersTemplate("", "", [])
  }

  /**
   * generateUniqueIdentifierFromHeaderList: ListEmpty for no names; StringsEmpty when every name is
   * empty; otherwise the digest of the concatenated names, which is computeFormatIdentifier's value.
   */
  function GenerateUniqueIdentifierFromHeaderList(hash: string -> string, headerNames: seq<string>)
    : (r: Result<string, UniqueIdentifierError>)
    ensures headerNames == [] ==> r == Failure(ListEmpty)
    ensures headerNames != [] && (forall k :: 0 <= k < |headerNames| ==> headerNames[k] == "") ==>
      r == Failure(StringsEmpty)
    ensures r.Success? <==> exists k :: 0 <= k < |headerNames| && headerNames[k] != ""
    ensures r.Success? ==> r.value == ComputeFormatIdentifier(hash, headerNames)
  {
    if headerNames == [] then Failure(ListEmpty)
    else
      var joined := Concat(headerNames);
      ConcatEmpty(headerNames);
      if joined == "" then Failure(StringsEmpty) else Success(hash(joined))
  }

  /**
   * The constructor from header names: the name and indices are stored as given; the identifier is
   * the generated one, or "" when generation fails.
   */
  function FromHeaderNames(hash: string -> string, templateName: string, headerNames: seq<string>, indices: seq<Int32>)
    : (t: SelectedHeadersTemplate)
    ensures t.templateName == templateName && t.headerIndices == indices
    ensures (exists k :: 0 <= k < |headerNames| && headerNames[k] != "") ==>
      t.headerIdentifier == ComputeFormatIdentifier(hash, headerNames)
    ensures (forall k :: 0 <= k < |headerNames| ==> headerNames[k] == "") ==> t.headerIdentifier == ""
  {
    var id := match GenerateUniqueIdentifierFromHeaderList(hash, headerNames)
      case Success(h) => h
      case Failure(_) => "";
    SelectedHeadersTemplate(id, templateName, indices)
  }

  /**
   * The two identifier functions part ways on non-empty lists of empty names: the format identifier
   * is the digest of "", while a template built from those names gets the empty identifier.
   */
  lemma EmptyNamesIdentifiersDiffer(hash: string -> string, templateName: string, indices: seq<Int32>)
    ensures ComputeFormatIdentifier(hash, ["", ""]) == hash("")
    ensures FromHeaderNames(hash, templateName, ["", ""], indices).headerIdentifier == ""
  {
    assert Concat(["", ""]) == "" + Concat([""]);
  }

  /** operator==: all three fields equal, which is equality of the values. */
  function Equals(a: SelectedHeadersTemplate, b: SelectedHeadersTemplate): (eq: bool)
    ensures eq <==> a == b
  {
    a.headerIdentifier == b.headerIdentifier && a.templateName == b.templateName && a.headerIndices == b.headerIndices
  }

  /** operator!=: the negation of operator==. */
  function NotEquals(a: SelectedHeadersTemplate, b: SelectedHeadersTemplate): (ne: bool)
    ensures ne <==> !Equals(a, b)
    ensures ne <==> a != b
  {
    !Equals(a, b)
  }

  /** QJsonValue::toInt with default 0: a number that fits in an int, else 0. */
  function ToInt(v: Json): (i: Int32)
    ensures v.JNumber? && -0x8000_0000 <= v.n < 0x8000_0000 ==> i == v.n
    ensures !(v.JNumber? && -0x8000_0000 <= v.n < 0x8000_0000) ==> i == 0
  {
    if v.JNumber? && -0x8000_0000 <= v.n < 0x8000_0000 then v.n else 0
  }

  /** QJsonValue::toDouble with default 0, on integer numbers. */
  function ToDouble(v: Json): int {
    if v.JNumber? then v.n else 0
  }

  /**
   * The element check of fromJson: a value that is not a number and whose toDouble and toInt differ.
   * A non-number gives 0 for both, so the check never rejects.
   */
  function ElementRejected(v: Json): (rejected: bool)
    ensures !rejected
  {
    !v.JNumber? && ToDouble(v) != ToInt(v)
  }

  /** The indices fromJson reads from an array: one per element, in order. */
  function DecodeIndices(items: seq<Json>): (indices: seq<Int32>)
    ensures |indices| == |items|
    ensures forall k :: 0 <= k < |items| ==> indices[k] == ToInt(items[k])
  {
    if items == [] then [] else DecodeIndices(items[..|items| - 1]) + [ToInt(items[|items| - 1])]
  }

  predicate HasString(obj: map<string, Json>, key: string) {
    key in obj && obj[key].JString?
  }

  predicate HasArray(obj: map<string, Json>, key: string) {
    key in obj && obj[key].JArray?
  }

  /**
   * What fromJson computes: ParseError unless "headerId" and "templateName" are strings and
   * "indices" is an array; otherwise the template holding those strings and the decoded indices.
   */
  function DecodeTemplate(obj: map<string, Json>): (r: Result<SelectedHeadersTemplate, FromJsonError>)
    ensures r.Failure? <==>
      !HasString(obj, HeaderIdJsonName) || !HasString(obj, TemplateNameJsonName) || !HasArray(obj, IndicesJsonName)
    ensures r.Success? ==>
      && r.value.headerIdentifier == obj[HeaderIdJsonName].s
      && r.value.templateName == obj[TemplateNameJsonName].s
      && r.value.headerIndices == DecodeIndices(obj[IndicesJsonName].items)
      && |r.value.headerIndices| == |obj[IndicesJsonName].items|
      && (forall k :: 0 <= k < |r.value.headerIndices| ==> r.value.headerIndices[k] == ToInt(obj[IndicesJsonName].items[k]))
  {
    if !HasString(obj, HeaderIdJsonName) then Failure(ParseError)
    else if !HasString(obj, TemplateNameJsonName) then Failure(ParseError)
    else if !HasArray(obj, IndicesJsonName) then Failure(ParseError)
    else
      Success(SelectedHeadersTemplate(obj[HeaderIdJsonName].s, obj[TemplateNameJsonName].s,
                                      DecodeIndices(obj[IndicesJsonName].items)))
  }

  /** fromJson: the field checks in order, then the loop over the index array. */
  method FromJson(obj: map<string, Json>) returns (r: Result<SelectedHeadersTemplate, FromJsonError>)
    ensures r == DecodeTemplate(obj)
  {
    if !HasString(obj, HeaderIdJsonName) {
      return Failure(ParseError);
    }
    var headerIdentifier := obj[HeaderIdJsonName].s;
    if !HasString(obj, TemplateNameJsonName) {
      return Failure(ParseError);
    }
    var templateName := obj[TemplateNameJsonName].s;
    if !HasArray(obj, IndicesJsonName) {
      return Failure(ParseError);
    }
    var items := obj[IndicesJsonName].items;
    var indices: seq<Int32> := [];
    var i := 0;
    while i < |items|
      invariant 0 <= i <= |items|
      invariant indices == DecodeIndices(items[..i])
    {
      if ElementRejected(items[i]) {
        assert false;
      }
      indices := indices + [ToInt(items[i])];
      assert items[..i + 1][..i] == items[..i];
      i := i + 1;
    }
    assert items[..i] == items;
    r := Success(SelectedHeadersTemplate(headerIdentifier, templateName, indices));
  }

  /** The array toJson writes for the indices: one number per index, in order. */
  function EncodeIndices(indices: seq<Int32>): (items: seq<Json>)
    ensures |items| == |indices|
    ensures forall k :: 0 <= k < |indices| ==> items[k] == JNumber(indices[k])
  {
    if indices == [] then [] else EncodeIndices(indices[..|indices| - 1]) + [JNumber(indices[|indices| - 1])]
  }

  /** What toJson computes: exactly the three keys, holding the fields. */
  function EncodeTemplate(t: SelectedHeadersTemplate): (obj: map<string, Json>)
    ensures HeaderIdJsonName in obj && TemplateNameJsonName in obj && IndicesJsonName in obj
    ensures obj[HeaderIdJsonName] == JString(t.headerIdentifier)
    ensures obj[TemplateNameJsonName] == JString(t.templateName)
    ensures obj[IndicesJsonName] == JArray(EncodeIndices(t.headerIndices))
  {
    map[HeaderIdJsonName := JString(t.headerIdentifier),
        TemplateNameJsonName := JString(t.templateName),
        IndicesJsonName := JArray(EncodeIndices(t.headerIndices))]
  }

  /** toJson writes exactly three distinct keys. */
  lemma EncodedKeys(t: SelectedHeadersTemplate)
    ensures EncodeTemplate(t).Keys == {HeaderIdJsonName, TemplateNameJsonName, IndicesJsonName}
    ensures |EncodeTemplate(t).Keys| == 3
  {
  }

  /** toJson: the two strings, then the loop building the index array. */
  method ToJson(t: SelectedHeadersTemplate) returns (obj: map<string, Json>)
    ensures obj == EncodeTemplate(t)
  {
    obj := map[];
    obj := obj[HeaderIdJsonName := JString(t.headerIdentifier)];
    obj := obj[TemplateNameJsonName := JString(t.templateName)];
    var indicesArray: seq<Json> := [];
    var i := 0;
    while i < |t.headerIndices|
      invariant 0 <= i <= |t.headerIndices|
      invariant indicesArray == EncodeIndices(t.headerIndices[..i])
    {
      indicesArray := indicesArray + [JNumber(t.headerIndices[i])];
      assert t.headerIndices[..i + 1][..i] == t.headerIndices[..i];
      i := i + 1;
    }
    assert t.headerIndices[..i] == t.headerIndices;
    obj := obj[IndicesJsonName := JArray(indicesArray)];
  }

  lemma {:induction false} DecodeEncodeIndices(indices: seq<Int32>)
    ensures DecodeIndices(EncodeIndices(indices)) == indices
  {
    if indices != [] {
      var items := EncodeIndices(indices);
      assert items[..|items| - 1] == EncodeIndices(indices[..|indices| - 1]);
      DecodeEncodeIndices(indices[..|indices| - 1]);
    }
  }

  /** Round trip: reading back what toJson wrote gives the same template. */
  lemma RoundTrip(t: SelectedHeadersTemplate)
    ensures DecodeTemplate(EncodeTemplate(t)) == Success(t)
  {
    DecodeEncodeIndices(t.headerIndices);
  }

  /** Missing or mistyped fields each give ParseError. */
  lemma DecodeErrors(t: SelectedHeadersTemplate)
    ensures DecodeTemplate(map[]) == Failure(ParseError)
    ensures DecodeTemplate(EncodeTemplate(t) - {HeaderIdJsonName}) == Failure(ParseError)
    ensures DecodeTemplate(EncodeTemplate(t)[TemplateNameJsonName := JNumber(1)]) == Failure(ParseError)
    ensures DecodeTemplate(EncodeTemplate(t)[IndicesJsonName := JString("1")]) == Failure(ParseError)
  {
  }

  /** Non-number elements are read as 0 and numbers outside the int range as 0; nothing is skipped. */
  lemma DecodeIndicesExample()
    ensures DecodeIndices([JNumber(3), JString("x"), JNull, JNumber(0x1_0000_0000), JNumber(-2)]) == [3, 0, 0, 0, -2]
  {
    var items := [JNumber(3), JString("x"), JNull, JNumber(0x1_0000_0000), JNumber(-2)];
    assert |DecodeIndices(items)| == 5;
  }
}
