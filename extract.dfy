/**
 * The extraction phase of `generate_stubs`: each `.method` section of the
 * XML-RPC documentation page, reduced to the answers of the queries the
 * generator puts to it, becomes at most one catalog entry keyed by service
 * and method name.
 */
module Extract {
  import opened Wrappers
  import opened Text

  /** One `.argument` row: the bold label in `.col-sm-4`, if that column exists, and the text of `.col-sm-8`. */
  datatype ArgumentRow = ArgumentRow(labelText: Option<string>, description: string)

  /** The first `<value>` of the example response, with the name of its first child element, if any. */
  datatype ValueElement = ValueElement(firstChildTag: Option<string>)

  /** The `.method-response.lang-xml` node, with the first `<value>` found in its text, if any. */
  datatype ResponseExample = ResponseExample(value: Option<ValueElement>)

  /** The first `<h3>`, with its first text node, if any. */
  datatype Heading = Heading(firstText: Option<string>)

  /** The `.method-request.lang-xml` node, with the text of its `<methodname>`, if any. */
  datatype RequestExample = RequestExample(methodName: Option<string>)

  /**
   * One element of class `method`, in document order.
   * `otherLangXml` says whether some `.lang-xml` node other than the three
   * examples modelled here is inside; `paragraphs` is the list of direct `<p>`
   * children of `.method-description` when that node exists.
   */
  datatype Section = Section(
    id: Option<string>,
    otherLangXml: bool,
    arguments: seq<ArgumentRow>,
    response: Option<ResponseExample>,
    heading: Option<Heading>,
    paragraphs: Option<seq<string>>,
    definition: Option<string>,
    request: Option<RequestExample>)

  datatype Param = Param(name: string, typeToken: string)

  datatype Entry = Entry(params: seq<Param>, returnType: string, title: string, description: string)

  datatype Item = Item(service: string, name: string, entry: Entry)

  /** service name -> method name -> entry */
  type Catalog = map<string, map<string, Entry>>

  /** Where the source raises: an attribute read on `None`, or an unpacking of one piece into two. */
  datatype SectionError =
    | NoHeading
    | NoHeadingText
    | NoMethodDescription
    | NoRequestExample
    | NoMethodNameElement
    | UndottedName(name: string)

  /** The failure of the whole run: the position of the failing section among the `.method` elements. */
  datatype ExtractError = ExtractError(position: nat, reason: SectionError)

  // ---------------------------------------------------------------- section filter

  /** The id filter `^(?!introduction|authentication)`: an id that starts with neither word. */
  predicate IdAdmitted(id: Option<string>) {
    id.Some? && !("introduction" <= id.value) && !("authentication" <= id.value)
  }

  /** `el_call.find(class_='lang-xml')`: every one of the three examples carries that class. */
  predicate HasLangXml(s: Section) {
    s.otherLangXml || s.response.Some? || s.definition.Some? || s.request.Some?
  }

  predicate IsMethodSection(s: Section) {
    IdAdmitted(s.id) && HasLangXml(s)
  }

  // ---------------------------------------------------------------- parameters

  /**
   * The label with its trailing colons cut and every space removed, put
   * through the camel-case conversion.
   */
  function ArgumentName(camel: string -> string, labelText: string): (r: string)
    ensures exists key :: r == camel(key) && ' ' !in key && (forall x :: x in key ==> x in labelText)
    ensures r == camel(RemoveChar(RStripChar(labelText, ':'), ' '))
  {
    var key := RemoveChar(RStripChar(labelText, ':'), ' ');
    assert forall x :: x in key ==> x in labelText by {
      forall x | x in key ensures x in labelText {
        var stripped := RStripChar(labelText, ':');
        assert x in stripped;
        var i :| 0 <= i < |stripped| && stripped[i] == x;
        assert labelText[i] == x;
      }
    }
    camel(key)
  }

  /** The first word of the first line of the stripped description. */
  function TypeToken(description: string): (r: string)
    ensures NoSpace(r)
    ensures r <= Strip(description)
    ensures r == [] <==> AllSpace(description)
    ensures |r| < |Strip(description)| ==> IsSpace(Strip(description)[|r|])
  {
    var text := Strip(description);
    var line := FirstLine(text);
    var word := FirstWord(line);
    assert text != [] ==> line != [] && line[0] == text[0];
    assert |word| < |line| ==> text[|word|] == line[|word|];
    assert |word| == |line| < |text| ==> text[|word|] == '\n';
    word
  }

  /** One parameter from a labelled row; a parameter named `data` is always a `struct`. */
  function ParamOf(camel: string -> string, row: ArgumentRow): (r: Param)
    requires row.labelText.Some?
    ensures r.name == ArgumentName(camel, row.labelText.value)
    ensures r.typeToken == if r.name == "data" then "struct" else TypeToken(row.description)
    ensures NoSpace(r.typeToken)
  {
    var name := ArgumentName(camel, row.labelText.value);
    Param(name, if name == "data" then "struct" else TypeToken(row.description))
  }

  /** The parameters of a section, row by row in document order; unlabelled rows give none. */
  function ParamsOf(camel: string -> string, rows: seq<ArgumentRow>): (r: seq<Param>)
    ensures |r| <= |rows|
    ensures forall i :: 0 <= i < |r| ==> NoSpace(r[i].typeToken)
  {
    if rows == [] then []
    else
      var last := rows[|rows| - 1];
      ParamsOf(camel, rows[..|rows| - 1]) + (if last.labelText.Some? then [ParamOf(camel, last)] else [])
  }

  /** The rows that have a label column, in document order. */
  function Labelled(rows: seq<ArgumentRow>): (r: seq<ArgumentRow>)
    ensures forall i :: 0 <= i < |r| ==> r[i].labelText.Some?
    ensures forall x :: x in r <==> x in rows && x.labelText.Some?
  {
    if rows == [] then []
    else
      assert rows == [rows[0]] + rows[1..];
      (if rows[0].labelText.Some? then [rows[0]] else []) + Labelled(rows[1..])
  }

  /** Parsing rows one after the other is parsing them all at once. */
  lemma {:induction false} ParamsOfAppend(camel: string -> string, a: seq<ArgumentRow>, b: seq<ArgumentRow>)
    ensures ParamsOf(camel, a + b) == ParamsOf(camel, a) + ParamsOf(camel, b)
    decreases |b|
  {
    if b != [] {
      var n := |b| - 1;
      assert (a + b)[..|a + b| - 1] == a + b[..n];
      assert (a + b)[|a + b| - 1] == b[n];
      ParamsOfAppend(camel, a, b[..n]);
    } else {
      assert a + b == a;
    }
  }

  /**
   * The parameter list holds one parameter per labelled row, in document
   * order and without deduplication, and nothing else.
   */
  lemma {:induction false} ParamsOfLabelled(camel: string -> string, rows: seq<ArgumentRow>)
    ensures |ParamsOf(camel, rows)| == |Labelled(rows)|
    ensures forall i :: 0 <= i < |Labelled(rows)| ==> ParamsOf(camel, rows)[i] == ParamOf(camel, Labelled(rows)[i])
  {
    if rows != [] {
      var head := rows[0];
      ParamsOfLabelled(camel, rows[1..]);
      ParamsOfAppend(camel, [head], rows[1..]);
      assert [head] + rows[1..] == rows;
      assert [head][..0] == [];
    }
  }

  /** The `for el_arg in ...` loop that appends to `params`. */
  method ParseArguments(camel: string -> string, rows: seq<ArgumentRow>) returns (params: seq<Param>)
    ensures params == ParamsOf(camel, rows)
  {
    params := [];
    for i := 0 to |rows|
      invariant params == ParamsOf(camel, rows[..i])
    {
      assert rows[..i + 1][..i] == rows[..i];
      var row := rows[i];
      if row.labelText.None? {
        continue;
      }
      var name := ArgumentName(camel, row.labelText.value);
      var token := TypeToken(row.description);
      if name == "data" {
        token := "struct";
      }
      params := params + [Param(name, token)];
    }
    assert rows[..|rows|] == rows;
  }

  // ---------------------------------------------------------------- return type, title, description

  /**
   * The return type read off the example response: `None` without a response
   * or without a `<value>`, the first child's tag name when `<value>` has
   * child elements, `string` when it holds only text.
   */
  function ReturnType(response: Option<ResponseExample>): (r: string)
    ensures response.None? || response.value.value.None? ==> r == "None"
    ensures response.Some? && response.value.value.Some? ==>
      r == match response.value.value.value.firstChildTag
           case Some(tag) => tag
           case None => "string"
  {
    match response
    case None => "None"
    case Some(example) =>
      match example.value
      case None => "None"
      case Some(value) =>
        match value.firstChildTag
        case Some(tag) => tag
        case None => "string"
  }

  /** The stripped first text of the first `<h3>`; a missing heading or text is an error. */
  function Title(heading: Option<Heading>): (r: Result<string, SectionError>)
    ensures heading.None? ==> r == Err(NoHeading)
    ensures heading.Some? && heading.value.firstText.None? ==> r == Err(NoHeadingText)
    ensures r.Ok? ==> IsStripped(r.value) && heading.value.firstText.Some?
    ensures r.Ok? ==> (r.value == [] <==> AllSpace(heading.value.firstText.value))
    ensures heading.Some? && heading.value.firstText.Some? ==> r == Ok(Strip(heading.value.firstText.value))
  {
    match heading
    case None => Err(NoHeading)
    case Some(h) =>
      match h.firstText
      case None => Err(NoHeadingText)
      case Some(text) => Ok(Strip(text))
  }

  /** The stripped paragraphs joined by a blank line; a missing `.method-description` is an error. */
  function Description(paragraphs: Option<seq<string>>): (r: Result<string, SectionError>)
    ensures r.Err? <==> paragraphs.None?
    ensures r.Err? ==> r.error == NoMethodDescription
    ensures r.Ok? && paragraphs.value == [] ==> r.value == []
    ensures r.Ok? && |paragraphs.value| == 1 ==> r.value == Strip(paragraphs.value[0])
    ensures r.Ok? && |paragraphs.value| > 1 ==> Strip(paragraphs.value[0]) + "\n\n" <= r.value
  {
    match paragraphs
    case None => Err(NoMethodDescription)
    case Some(ps) => Ok(Join(seq(|ps|, i requires 0 <= i < |ps| => Strip(ps[i])), "\n\n"))
  }

  /** One more paragraph adds a blank line and that paragraph, stripped, at the end. */
  lemma DescriptionAppend(ps: seq<string>, p: string)
    requires ps != []
    ensures Description(Some(ps + [p])) == Ok(Description(Some(ps)).value + "\n\n" + Strip(p))
  {
    var qs := ps + [p];
    var stripped := seq(|ps|, i requires 0 <= i < |ps| => Strip(ps[i]));
    assert seq(|qs|, i requires 0 <= i < |qs| => Strip(qs[i])) == stripped + [Strip(p)];
    JoinAppend(stripped, Strip(p), "\n\n");
  }

  // ---------------------------------------------------------------- method name

  /**
   * The qualified name: the stripped Definition text when there is one,
   * otherwise the `<methodname>` text of the example request.
   */
  function QualifiedName(definition: Option<string>, request: Option<RequestExample>): (r: Result<string, SectionError>)
    ensures definition.Some? ==> r == Ok(Strip(definition.value))
    ensures definition.None? && request.None? ==> r == Err(NoRequestExample)
    ensures definition.None? && request.Some? ==>
      r == match request.value.methodName
           case Some(name) => Ok(name)
           case None => Err(NoMethodNameElement)
  {
    match definition
    case Some(text) => Ok(Strip(text))
    case None =>
      match request
      case None => Err(NoRequestExample)
      case Some(example) =>
        match example.methodName
        case None => Err(NoMethodNameElement)
        case Some(name) => Ok(name)
  }

  /**
   * `service, method = name.split('.', 1)`: the service is the text before
   * the first dot, the method keeps every later dot, and a name without a
   * dot is an error.
   */
  function SplitName(name: string): (r: Result<(string, string), SectionError>)
    ensures r.Err? <==> '.' !in name
    ensures r.Err? ==> r.error == UndottedName(name)
    ensures r.Ok? ==> '.' !in r.value.0 && r.value.0 + "." + r.value.1 == name
  {
    match SplitAtFirst(name, '.')
    case None => Err(UndottedName(name))
    case Some(parts) => Ok(parts)
  }

  // ---------------------------------------------------------------- one section

  predicate WellFormedEntry(e: Entry) {
    && IsStripped(e.title)
    && forall i :: 0 <= i < |e.params| ==> NoSpace(e.params[i].typeToken)
  }

  /**
   * One pass of the extraction loop: a section that is not a method section
   * gives nothing; a method section gives exactly one item, or the first
   * error met in the order title, description, name, split.
   */
  function ExtractSection(camel: string -> string, s: Section): (r: Result<Option<Item>, SectionError>)
    ensures !IsMethodSection(s) ==> r == Ok(None)
    ensures IsMethodSection(s) ==> (r.Ok? ==> r.value.Some?)
    ensures IsMethodSection(s) ==>
      (r.Err? <==> || Title(s.heading).Err?
                   || Description(s.paragraphs).Err?
                   || QualifiedName(s.definition, s.request).Err?
                   || SplitName(QualifiedName(s.definition, s.request).value).Err?)
    ensures r.Ok? && r.value.Some? ==>
      var item := r.value.value;
      && '.' !in item.service
      && QualifiedName(s.definition, s.request) == Ok(item.service + "." + item.name)
      && item.entry.params == ParamsOf(camel, s.arguments)
      && item.entry.returnType == ReturnType(s.response)
      && item.entry.title == Title(s.heading).value
      && item.entry.description == Description(s.paragraphs).value
      && WellFormedEntry(item.entry)
  {
    if !IsMethodSection(s) then Ok(None)
    else
      var params := ParamsOf(camel, s.arguments);
      var returnType := ReturnType(s.response);
      var title :- Title(s.heading);
      var description :- Description(s.paragraphs);
      var name :- QualifiedName(s.definition, s.request);
      var parts :- SplitName(name);
      Ok(Some(Item(parts.0, parts.1, Entry(params, returnType, title, description))))
  }

  /** A method section reports the first step that fails, in the order title, description, name, split. */
  lemma ExtractSectionError(camel: string -> string, s: Section)
    requires IsMethodSection(s) && ExtractSection(camel, s).Err?
    ensures ExtractSection(camel, s).error ==
      if Title(s.heading).Err? then Title(s.heading).error
      else if Description(s.paragraphs).Err? then Description(s.paragraphs).error
      else if QualifiedName(s.definition, s.request).Err? then QualifiedName(s.definition, s.request).error
      else SplitName(QualifiedName(s.definition, s.request).value).error
  {
  }

  // ---------------------------------------------------------------- the catalog

  function Lookup(c: Catalog, service: string, name: string): Option<Entry> {
    if service in c && name in c[service] then Some(c[service][name]) else None
  }

  /** Every service holds at least one method; no service name has a dot; every entry is well formed. */
  predicate WellFormed(c: Catalog) {
    forall service :: service in c ==>
      && c[service] != map[]
      && '.' !in service
      && forall name :: name in c[service] ==> WellFormedEntry(c[service][name])
  }

  /**
   * `services[service][method] = entry` on a `defaultdict(dict)`: the key
   * now holds the entry, whatever it held before, and every other key holds
   * what it held.
   */
  function Insert(c: Catalog, service: string, name: string, e: Entry): (r: Catalog)
    ensures forall s, m :: Lookup(r, s, m) == if s == service && m == name then Some(e) else Lookup(c, s, m)
    ensures r.Keys == c.Keys + {service}
  {
    var methods := if service in c then c[service] else map[];
    c[service := methods[name := e]]
  }

  /** Inserting a well-formed entry under a dot-free service keeps the catalog well formed. */
  lemma InsertWellFormed(c: Catalog, service: string, name: string, e: Entry)
    requires WellFormed(c) && '.' !in service && WellFormedEntry(e)
    ensures WellFormed(Insert(c, service, name, e))
  {
    var r := Insert(c, service, name, e);
    forall s | s in r
      ensures r[s] != map[] && '.' !in s
      ensures forall m :: m in r[s] ==> WellFormedEntry(r[s][m])
    {
      if s == service { assert name in r[s]; }
    }
  }

  /** The whole extraction loop over the `.method` elements, stopping at the first error. */
  function CatalogOf(camel: string -> string, sections: seq<Section>): (r: Result<Catalog, ExtractError>)
    ensures r.Err? ==> r.error.position < |sections|
  {
    if sections == [] then Ok(map[])
    else
      var n := |sections| - 1;
      var c :- CatalogOf(camel, sections[..n]);
      match ExtractSection(camel, sections[n])
      case Err(reason) => Err(ExtractError(n, reason))
      case Ok(None) => Ok(c)
      case Ok(Some(item)) => Ok(Insert(c, item.service, item.name, item.entry))
  }

  /** Every catalog the run produces is well formed. */
  lemma {:induction false} CatalogOfWellFormed(camel: string -> string, sections: seq<Section>)
    requires CatalogOf(camel, sections).Ok?
    ensures WellFormed(CatalogOf(camel, sections).value)
  {
    if sections != [] {
      var n := |sections| - 1;
      CatalogOfWellFormed(camel, sections[..n]);
      var c := CatalogOf(camel, sections[..n]).value;
      match ExtractSection(camel, sections[n])
      case Ok(Some(item)) => InsertWellFormed(c, item.service, item.name, item.entry);
      case _ =>
    }
  }

  /** The entry of the last section that yields an item under this key. */
  function LastEntry(camel: string -> string, sections: seq<Section>, service: string, name: string): Option<Entry> {
    if sections == [] then None
    else
      var n := |sections| - 1;
      match ExtractSection(camel, sections[n])
      case Ok(Some(item)) =>
        if item.service == service && item.name == name then Some(item.entry)
        else LastEntry(camel, sections[..n], service, name)
      case _ => LastEntry(camel, sections[..n], service, name)
  }

  /** Last write wins: each key of the catalog holds the entry of the last section that produced it. */
  lemma CatalogOfLastWriteWins(camel: string -> string, sections: seq<Section>)
    requires CatalogOf(camel, sections).Ok?
    ensures forall s, m :: Lookup(CatalogOf(camel, sections).value, s, m) == LastEntry(camel, sections, s, m)
  {
    forall s, m ensures Lookup(CatalogOf(camel, sections).value, s, m) == LastEntry(camel, sections, s, m) {
      CatalogOfLastWriteWinsAt(camel, sections, s, m);
    }
  }

  lemma {:induction false} CatalogOfLastWriteWinsAt(camel: string -> string, sections: seq<Section>, s: string, m: string)
    requires CatalogOf(camel, sections).Ok?
    ensures Lookup(CatalogOf(camel, sections).value, s, m) == LastEntry(camel, sections, s, m)
  {
    if sections != [] {
      var n := |sections| - 1;
      CatalogOfLastWriteWinsAt(camel, sections[..n], s, m);
    }
  }

  /**
   * The run fails exactly when some section fails, and the error reported is
   * that of the first failing section: nothing before it failed.
   */
  lemma {:induction false} CatalogOfFirstError(camel: string -> string, sections: seq<Section>)
    ensures CatalogOf(camel, sections).Err? <==>
      exists i :: 0 <= i < |sections| && ExtractSection(camel, sections[i]).Err?
    ensures CatalogOf(camel, sections).Err? ==>
      var e := CatalogOf(camel, sections).error;
      && ExtractSection(camel, sections[e.position]) == Err(e.reason)
      && forall j :: 0 <= j < e.position ==> ExtractSection(camel, sections[j]).Ok?
  {
    if sections != [] {
      var n := |sections| - 1;
      var prefix := sections[..n];
      CatalogOfFirstError(camel, prefix);
      assert forall i :: 0 <= i < n ==> prefix[i] == sections[i];
      if CatalogOf(camel, prefix).Err? {
        var i :| 0 <= i < n && ExtractSection(camel, prefix[i]).Err?;
        assert ExtractSection(camel, sections[i]).Err?;
      }
    }
  }

  /** Once a prefix of the sections fails, the run fails with that error. */
  lemma {:induction false} CatalogOfErrorPersists(camel: string -> string, sections: seq<Section>, k: nat)
    requires k <= |sections|
    requires CatalogOf(camel, sections[..k]).Err?
    ensures CatalogOf(camel, sections) == CatalogOf(camel, sections[..k])
    decreases |sections| - k
  {
    if k < |sections| {
      assert sections[..k + 1][..k] == sections[..k];
      CatalogOfErrorPersists(camel, sections, k + 1);
    } else {
      assert sections[..k] == sections;
    }
  }

  /** One more section: the catalog so far, with that section's item inserted. */
  lemma CatalogOfStep(camel: string -> string, sections: seq<Section>, k: nat, item: Option<Item>)
    requires k < |sections| && CatalogOf(camel, sections[..k]).Ok?
    requires ExtractSection(camel, sections[k]) == Ok(item)
    ensures CatalogOf(camel, sections[..k + 1]) ==
      var c := CatalogOf(camel, sections[..k]).value;
      if item.None? then Ok(c) else Ok(Insert(c, item.value.service, item.value.name, item.value.entry))
  {
    assert sections[..k + 1][..k] == sections[..k];
  }

  /** The first section that fails decides the outcome of the whole run. */
  lemma CatalogOfStop(camel: string -> string, sections: seq<Section>, k: nat)
    requires k < |sections| && CatalogOf(camel, sections[..k]).Ok?
    requires ExtractSection(camel, sections[k]).Err?
    ensures CatalogOf(camel, sections) == Err(ExtractError(k, ExtractSection(camel, sections[k]).error))
  {
    assert sections[..k + 1][..k] == sections[..k];
    CatalogOfErrorPersists(camel, sections, k + 1);
  }

  /** The extraction loop, updating the `services` dictionary in place. */
  method BuildCatalog(camel: string -> string, sections: seq<Section>) returns (r: Result<Catalog, ExtractError>)
    ensures r == CatalogOf(camel, sections)
  {
    var services: Catalog := map[];
    for k := 0 to |sections|
      invariant CatalogOf(camel, sections[..k]) == Ok(services)
    {
      var s := sections[k];
      if !IsMethodSection(s) {
        CatalogOfStep(camel, sections, k, None);
        continue;
      }
      var params := ParseArguments(camel, s.arguments);
      var returnType := ReturnType(s.response);
      var title := Title(s.heading);
      if title.Err? {
        CatalogOfStop(camel, sections, k);
        return Err(ExtractError(k, title.error));
      }
      var description := Description(s.paragraphs);
      if description.Err? {
        CatalogOfStop(camel, sections, k);
        return Err(ExtractError(k, description.error));
      }
      var name := QualifiedName(s.definition, s.request);
      if name.Err? {
        CatalogOfStop(camel, sections, k);
        return Err(ExtractError(k, name.error));
      }
      var parts := SplitName(name.value);
      if parts.Err? {
        CatalogOfStop(camel, sections, k);
        return Err(ExtractError(k, parts.error));
      }
      var (service, methodName) := parts.value;
      var entry := Entry(params, returnType, title.value, description.value);
      CatalogOfStep(camel, sections, k, Some(Item(service, methodName, entry)));
      var methods := if service in services then services[service] else map[];
      services := services[service := methods[methodName := entry]];
    }
    assert sections[..|sections|] == sections;
    return Ok(services);
  }
}
