/**
 * SelectedHeadersTemplateList: the in-place list of saved templates, with its JSON array form.
 */
module SelectedHeadersTemplateLists {
  import opened Wrappers
  import opened Sequences
  import opened SelectedHeadersTemplates

  /**
   * How far loadFromJson gets with its file: an empty name, a file that does not exist, one that
   * cannot be opened, text that does not parse (a null document), or a parsed document.
   */
  datatype LoadOutcome =
    | EmptyFileName
    | FileMissing
    | OpenFailed
    | NullDocument
    | Parsed(document: Json)

  /** QJsonDocument::array: the elements of an array document; an object document gives none. */
  function DocumentArray(document: Json): (items: seq<Json>)
    ensures document.JArray? ==> items == document.items
    ensures !document.JArray? ==> items == []
  {
    if document.JArray? then document.items else []
  }

  /**
   * The templates loadFromJson keeps from the array elements, in order: non-objects and objects
   * fromJson rejects are skipped.
   */
  function ParseTemplates(items: seq<Json>): (templates: seq<SelectedHeadersTemplate>)
    ensures |templates| <= |items|
  {
    if items == [] then []
    else
      var last := items[|items| - 1];
      ParseTemplates(items[..|items| - 1])
        + (if last.JObject? && DecodeTemplate(last.fields).Success? then [DecodeTemplate(last.fields).value] else [])
  }

  /** The array saveToJson writes: one object per template, in order. */
  function EncodeTemplates(templates: seq<SelectedHeadersTemplate>): (items: seq<Json>)
    ensures |items| == |templates|
    ensures forall k :: 0 <= k < |templates| ==> items[k] == JObject(EncodeTemplate(templates[k]))
  {
    if templates == [] then []
    else EncodeTemplates(templates[..|templates| - 1]) + [JObject(EncodeTemplate(templates[|templates| - 1]))]
  }

  lemma ParseOneMore(items: seq<Json>, t: SelectedHeadersTemplate)
    ensures ParseTemplates(items + [JObject(EncodeTemplate(t))]) == ParseTemplates(items) + [t]
  {
    RoundTrip(t);
    assert (items + [JObject(EncodeTemplate(t))])[..|items|] == items;
  }

  /** Reading back the array saveToJson writes gives the same templates. */
  lemma {:induction false} ParseEncodeTemplates(templates: seq<SelectedHeadersTemplate>)
    ensures ParseTemplates(EncodeTemplates(templates)) == templates
  {
    if templates != [] {
      var n := |templates| - 1;
      var front := EncodeTemplates(templates[..n]);
      var last := JObject(EncodeTemplate(templates[n]));
      assert EncodeTemplates(templates) == front + [last];
      ParseEncodeTemplates(templates[..n]);
      ParseOneMore(front, templates[n]);
      assert templates == templates[..n] + [templates[n]];
    }
  }

  /** Elements that are not objects, or objects missing a field, leave nothing behind. */
  lemma ParseTemplatesSkips(t: SelectedHeadersTemplate)
    ensures ParseTemplates([JNumber(1), JObject(EncodeTemplate(t)), JObject(map[])]) == [t]
  {
    var one := [JNumber(1)];
    var two := one + [JObject(EncodeTemplate(t))];
    var items := two + [JObject(map[])];
    assert one[..0] == [];
    assert ParseTemplates(one) == [];
    assert two[..1] == one;
    RoundTrip(t);
    assert ParseTemplates(two) == [t];
    assert items[..2] == two;
    DecodeErrors(t);
    assert !DecodeTemplate(map[]).Success?;
    assert ParseTemplates(items) == [t];
    assert items == [JNumber(1), JObject(EncodeTemplate(t)), JObject(map[])];
  }

  class SelectedHeadersTemplateList {
    var templates: seq<SelectedHeadersTemplate>

    constructor ()
      ensures templates == []
    {
      templates := [];
    }

    function TemplatesCount(): nat
      reads this
    {
      |templates|
    }

    /** getTemplateIndices: the indices of entry `index`, which must exist. */
    function GetTemplateIndices(index: int): (indices: seq<Int32>)
      reads this
      requires 0 <= index < TemplatesCount()
      ensures indices == templates[index].headerIndices
    {
      templates[index].headerIndices
    }

    /** appendItem: the template goes at the end; earlier entries stay as they were. */
    method AppendItem(itemTemplate: SelectedHeadersTemplate)
      modifies this
      ensures templates == old(templates) + [itemTemplate]
      ensures TemplatesCount() == old(TemplatesCount()) + 1
    {
      templates := templates + [itemTemplate];
    }

    /** addNewTemplate: appends the template holding exactly the given identifier, name and indices. */
    method AddNewTemplate(formatIdentifier: string, templateName: string, indices: seq<Int32>)
      modifies this
      ensures templates == old(templates) + [SelectedHeadersTemplate(formatIdentifier, templateName, indices)]
    {
      var newTemplate := SelectedHeadersTemplate(formatIdentifier, templateName, indices);
      AppendItem(newTemplate);
    }

    /** removeItemAt: an index out of range changes nothing; otherwise exactly that entry goes. */
    method RemoveItemAt(index: int)
      modifies this
      ensures !(0 <= index < |old(templates)|) ==> templates == old(templates)
      ensures 0 <= index < |old(templates)| ==> templates == RemoveAt(old(templates), index)
    {
      if index < 0 || index >= |templates| {
        return;
      }
      templates := RemoveAt(templates, index);
    }

    /**
     * removeItem: nothing happens when no entry equals the template; otherwise the first equal
     * entry, found by a linear search, is removed and the others keep their order.
     */
    method RemoveItem(templateItem: SelectedHeadersTemplate)
      modifies this
      ensures templates == RemoveFirst(old(templates), templateItem)
      ensures templateItem !in old(templates) ==> templates == old(templates)
      ensures templateItem in old(templates) ==> |templates| == |old(templates)| - 1
    {
      if templateItem !in templates {
        return;
      }
      var index := 0;
      while templates[index] != templateItem
        invariant 0 <= index < |templates|
        invariant forall k :: 0 <= k < index ==> templates[k] != templateItem
        invariant templateItem in templates[index..]
        decreases |templates| - index
      {
        index := index + 1;
      }
      assert index == FirstIndexOf(templates, templateItem);
      templates := RemoveAt(templates, index);
    }

    /** clearList: no entries remain. */
    method ClearList()
      modifies this
      ensures templates == []
    {
      templates := [];
    }

    /**
     * The array saveToJson writes for the current entries (the file write itself is not part of
     * this model): one object per template, in list order.
     */
    method SaveToJson() returns (document: Json)
      ensures document == JArray(EncodeTemplates(templates))
    {
      var jsonArray: seq<Json> := [];
      var i := 0;
      while i < |templates|
        invariant 0 <= i <= |templates|
        invariant jsonArray == EncodeTemplates(templates[..i])
      {
        var item := ToJson(templates[i]);
        jsonArray := jsonArray + [JObject(item)];
        assert templates[..i + 1][..i] == templates[..i];
        i := i + 1;
      }
      assert templates[..i] == templates;
      document := JArray(jsonArray);
    }

    /**
     * loadFromJson: every outcome short of a parsed document leaves the list as it was. A parsed
     * document replaces the list with the templates read from its array, skipping elements that
     * are not objects or that fromJson rejects; a document that is an object empties the list.
     */
    method LoadFromJson(outcome: LoadOutcome)
      modifies this
      ensures !outcome.Parsed? ==> templates == old(templates)
      ensures outcome.Parsed? ==> templates == ParseTemplates(DocumentArray(outcome.document))
    {
      if !outcome.Parsed? {
        return;
      }
      templates := [];
      var jsonArray := DocumentArray(outcome.document);
      var i := 0;
      while i < |jsonArray|
        invariant 0 <= i <= |jsonArray|
        invariant templates == ParseTemplates(jsonArray[..i])
      {
        var value := jsonArray[i];
        assert jsonArray[..i + 1][..i] == jsonArray[..i];
        if value.JObject? {
          var result := FromJson(value.fields);
          if result.Success? {
            templates := templates + [result.value];
          }
        }
        i := i + 1;
      }
      assert jsonArray[..i] == jsonArray;
    }
  }

  /** Loading the document that saving wrote restores the list exactly. */
  method SaveThenLoad(list: SelectedHeadersTemplateList)
    modifies list
    ensures list.templates == old(list.templates)
  {
    var document := list.SaveToJson();
    ParseEncodeTemplates(list.templates);
    list.LoadFromJson(Parsed(document));
  }
}
