/**
 * One documented method, followed through extraction and the signature and
 * return-type rendering: `ContactService.add`, named by its Definition, with
 * one argument row labelled `Contact Data:` and an example response whose
 * `<value>` holds an `<int>`.
 */
module Scenario {
  import opened Wrappers
  import opened Text
  import opened TypeMap
  import opened Extract
  import opened Emit

  const ContactAdd: Section := Section(
    Some("add"),
    false,
    [ArgumentRow(Some("Contact Data:"), "array of data")],
    Some(ResponseExample(Some(ValueElement(Some("int"))))),
    Some(Heading(Some("Create a Contact"))),
    Some(["Creates a new contact."]),
    Some("ContactService.add"),
    None)

  /** The section yields one method under a dotted name that spells `ContactService.add`, returning `int`. */
  lemma ContactAddItem(camel: string -> string)
    ensures ExtractSection(camel, ContactAdd).Ok? && ExtractSection(camel, ContactAdd).value.Some?
    ensures var item := ExtractSection(camel, ContactAdd).value.value;
      && item.service + "." + item.name == "ContactService.add" && '.' !in item.service
      && item.entry.title == "Create a Contact"
      && item.entry.params == [ParamOf(camel, ArgumentRow(Some("Contact Data:"), "array of data"))]
      && item.entry.returnType == "int"
  {
    var s := ContactAdd;
    assert IsMethodSection(s);
    assert IsStripped("Create a Contact");
    assert Title(s.heading) == Ok("Create a Contact");
    assert Description(s.paragraphs).Ok?;
    assert IsStripped("ContactService.add");
    assert QualifiedName(s.definition, s.request) == Ok("ContactService.add");
    assert "ContactService.add"[14] == '.';
    assert SplitName("ContactService.add").Ok?;
    assert ParamsOf(camel, s.arguments) == [ParamOf(camel, s.arguments[0])];
  }

  /**
   * Its only parameter is the first one, so the rendered signature is empty:
   * the generator drops the first parameter as the API key, whatever its name.
   */
  lemma ContactAddSignature(camel: string -> string)
    ensures ExtractSection(camel, ContactAdd).Ok? && ExtractSection(camel, ContactAdd).value.Some?
    ensures var e := ExtractSection(camel, ContactAdd).value.value.entry;
      Signature(e.params) == []
  {
    ContactAddItem(camel);
    var e := ExtractSection(camel, ContactAdd).value.value.entry;
    SignatureText(e.params);
  }

  /**
   * A row labelled `Data:` whose conversion gives `data` is a `struct`,
   * annotated `Dict[str, any]`, even where its description says `array`.
   */
  lemma DataRowIsStruct(camel: string -> string)
    requires camel("Data") == "data"
    ensures ParamOf(camel, ArgumentRow(Some("Data:"), "array of data")).typeToken == "struct"
    ensures Annotation(ParamOf(camel, ArgumentRow(Some("Data:"), "array of data")).typeToken) == "Dict[str, any]"
  {
    assert RStripChar("Data:", ':') == "Data";
    assert RemoveChar("Data", ' ') == "Data";
    KnownTokens();
  }
}
