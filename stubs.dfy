/**
 * `generate_stubs` end to end, up to the text handed to the formatter:
 * extraction builds the catalog, emission turns it into lines, and the lines
 * are joined by line breaks. The camel-case conversion is a parameter.
 */
module Stubs {
  import opened Wrappers
  import opened Text
  import opened Extract
  import opened Emit
  import opened Ordering

  /** Where the run stops: a section the extraction cannot read, or an empty title met while emitting. */
  datatype StubError =
    | Extraction(extraction: ExtractError)
    | Emission(emission: EmitError)

  /** The stub source for the `.method` sections of the page, in document order. */
  function StubText(camel: string -> string, sections: seq<Section>): (r: Result<string, StubError>)
    ensures r.Err? && r.error.Extraction? <==> CatalogOf(camel, sections).Err?
    ensures r.Ok? ==> Join(Header, "\n") <= r.value
    ensures CatalogOf(camel, sections).Ok? ==> (r.Err? <==> StubSource(CatalogOf(camel, sections).value).Err?)
  {
    match CatalogOf(camel, sections)
    case Err(e) => Err(Extraction(e))
    case Ok(c) =>
      match StubSource(c)
      case Err(e) => Err(Emission(e))
      case Ok(text) => Ok(text)
  }

  /** The whole run: the extraction loop, the emission loops, and `'\n'.join(lines)`. */
  method GenerateStubs(camel: string -> string, sections: seq<Section>) returns (r: Result<string, StubError>)
    ensures r == StubText(camel, sections)
  {
    var catalog := BuildCatalog(camel, sections);
    if catalog.Err? {
      return Err(Extraction(catalog.error));
    }
    var lines := EmitLines(catalog.value);
    if lines.Err? {
      return Err(Emission(lines.error));
    }
    return Ok(Join(lines.value, "\n"));
  }

  /**
   * Once every section has been read, emission fails exactly when some key's
   * surviving entry, the one written last, has an empty title; an earlier
   * entry with an empty title that a later section overwrote does no harm.
   */
  lemma EmissionFailsOnEmptyTitle(camel: string -> string, sections: seq<Section>)
    requires CatalogOf(camel, sections).Ok?
    ensures StubText(camel, sections).Err? <==>
      exists s, m :: LastEntry(camel, sections, s, m).Some? && LastEntry(camel, sections, s, m).value.title == []
  {
    var c := CatalogOf(camel, sections).value;
    StubSourceFailsOnEmptyTitle(c);
    if StubSource(c).Err? {
      var s, m :| Lookup(c, s, m).Some? && Lookup(c, s, m).value.title == [];
      CatalogOfLastWriteWinsAt(camel, sections, s, m);
    } else {
      forall s, m ensures !(LastEntry(camel, sections, s, m).Some? && LastEntry(camel, sections, s, m).value.title == []) {
        CatalogOfLastWriteWinsAt(camel, sections, s, m);
      }
    }
  }

  /**
   * Every docstring the run writes opens with the method's title as it
   * stands in the catalog: titles come out of `strip()`, so the final
   * `strip()` of the docstring leaves them alone.
   */
  lemma DocstringOpensWithTitle(camel: string -> string, sections: seq<Section>, s: string, m: string)
    requires CatalogOf(camel, sections).Ok?
    requires Lookup(CatalogOf(camel, sections).value, s, m).Some?
    requires Lookup(CatalogOf(camel, sections).value, s, m).value.title != []
    ensures var e := Lookup(CatalogOf(camel, sections).value, s, m).value;
      e.title <= Docstring(e.title, e.description).value
  {
    var c := CatalogOf(camel, sections).value;
    CatalogOfWellFormed(camel, sections);
    var e := c[s][m];
    assert WellFormedEntry(e);
    DocstringStartsWithTitle(e.title, e.description);
  }

  /**
   * Every method that ends up in the catalog has, among the emitted lines,
   * the opening line of its docstring, and that line starts with the method's
   * title.
   */
  lemma {:induction false} EmittedDocstringOpensWithTitle(camel: string -> string, sections: seq<Section>, s: string, m: string)
    requires StubText(camel, sections).Ok?
    requires Lookup(CatalogOf(camel, sections).value, s, m).Some?
    ensures StubLines(CatalogOf(camel, sections).value).Ok?
    ensures var c := CatalogOf(camel, sections).value;
      exists p ::
        && 0 <= p < |StubLines(c).value|
        && DocIndent + "\"\"\"" + c[s][m].title <= StubLines(c).value[p]
  {
    var c := CatalogOf(camel, sections).value;
    assert StubSource(c).Ok?;
    var e := c[s][m];
    DocstringEmitted(c, s, m);
    DocstringOpensWithTitle(camel, sections, s, m);
    var doc := Docstring(e.title, e.description).value;
    var p :| 0 <= p < |StubLines(c).value| && StubLines(c).value[p] == DocIndent + "\"\"\"" + doc;
    PrefixAfter(DocIndent + "\"\"\"", e.title, doc);
  }

  /** A page without sections gives the import header alone: it is not an error. */
  lemma NoSectionsGiveHeader(camel: string -> string)
    ensures StubText(camel, []) == Ok(Join(Header, "\n"))
  {
    var empty: Catalog := map[];
    assert CatalogOf(camel, []) == Ok(empty);
    assert SortedKeys(empty.Keys) == [];
    assert ServiceBlocks(empty, []) == Ok([]);
    assert Header + [] == Header;
    assert StubLines(empty) == Ok(Header);
  }

  lemma PrefixAfter<T>(h: seq<T>, a: seq<T>, b: seq<T>)
    requires a <= b
    ensures h + a <= h + b
  {
    assert (h + b)[..|h + a|] == h + a;
  }
}
