/**
 * The emission phase of `generate_stubs`: the catalog becomes Python source
 * lines, one class per service and six lines per method, services and
 * methods in ascending name order.
 */
module Emit {
  import opened Wrappers
  import opened Text
  import opened Ordering
  import opened TypeMap
  import opened Extract

  /** `'\n'.join(docstring_parts)` raises when the title is empty: the part is `None`. */
  datatype EmitError = EmptyTitle(service: string, name: string)

  const Header: seq<string> := [
    "from typing import List, Dict",
    "from datetime import datetime, date",
    "",
    ""
  ]

  const Indent: string := "    "

  const DocIndent: string := "        "

  // ---------------------------------------------------------------- signature

  /** `'{arg}: {type}'` with the type put through the table. */
  function ParamText(p: Param): string {
    p.name + ": " + Annotation(p.typeToken)
  }

  /** `[f'{arg}: {type}' for ...]`, one piece per parameter, in order. */
  function ParamTexts(ps: seq<Param>): (r: seq<string>)
    ensures |r| == |ps| && forall i {:trigger r[i]} :: 0 <= i < |ps| ==> r[i] == ParamText(ps[i])
  {
    if ps == [] then [] else [ParamText(ps[0])] + ParamTexts(ps[1..])
  }

  /** `params[1:]`: the API key that every call takes first is supplied elsewhere. */
  function DropFirst(ps: seq<Param>): seq<Param> {
    if ps == [] then [] else ps[1..]
  }

  /**
   * The text between the parentheses of `def`: every parameter but the
   * first, rendered and joined by `, `. Rendering and then dropping the
   * first piece gives the same text.
   */
  function Signature(params: seq<Param>): string {
    Join(ParamTexts(DropFirst(params)), ", ")
  }

  lemma SignatureText(params: seq<Param>)
    ensures |params| <= 1 ==> Signature(params) == []
    ensures |params| >= 1 ==> Signature(params) == Join(ParamTexts(params)[1..], ", ")
  {
    if |params| >= 1 {
      assert ParamTexts(DropFirst(params)) == ParamTexts(params)[1..];
    }
  }

  /** Whatever the first parameter is, it leaves no trace in the signature. */
  lemma SignatureIgnoresFirst(p: Param, q: Param, ps: seq<Param>)
    ensures Signature([p] + ps) == Signature([q] + ps)
  {
    assert ([p] + ps)[1..] == ps == ([q] + ps)[1..];
  }

  /** With two or more parameters the signature starts with the second one, in full. */
  lemma SignatureStartsWithSecond(params: seq<Param>)
    requires |params| >= 2
    ensures ParamText(params[1]) <= Signature(params)
  {
    var texts := ParamTexts(params)[1..];
    assert texts[0] == ParamText(params[1]);
  }

  // ---------------------------------------------------------------- docstring

  /**
   * `(indent + line).rstrip()`: a line of blanks becomes empty, any other
   * line keeps its text behind the 8-space indent and loses its trailing
   * whitespace.
   */
  function DocLine(line: string): string {
    RStrip(DocIndent + line)
  }

  lemma DocLineShape(line: string)
    ensures DocLine(line) == [] <==> AllSpace(line)
    ensures DocLine(line) != [] ==> DocIndent <= DocLine(line) && DocLine(line) <= DocIndent + line && !IsSpace(DocLine(line)[|DocLine(line)| - 1])
  {
    var whole := DocIndent + line;
    var r := RStrip(whole);
    RStripEmpty(whole);
    assert AllSpace(whole) <==> AllSpace(line) by {
      assert AllSpace(DocIndent);
      assert forall j :: 0 <= j < |line| ==> whole[|DocIndent| + j] == line[j];
    }
    assert r != [] ==> DocIndent <= r by {
      if r != [] {
        var j :| 0 <= j < |line| && !IsSpace(line[j]);
        assert !IsSpace(whole[|DocIndent| + j]);
        assert r[..|DocIndent|] == whole[..|DocIndent|];
      }
    }
  }

  /** `[(indent + line).rstrip() for line in desc.split('\n')]` */
  function DocLines(description: string): seq<string> {
    DocLinesOf(SplitOn(description, '\n'))
  }

  function DocLinesOf(lines: seq<string>): (r: seq<string>)
    ensures |r| == |lines| && forall i {:trigger r[i]} :: 0 <= i < |lines| ==> r[i] == DocLine(lines[i])
  {
    if lines == [] then [] else [DocLine(lines[0])] + DocLinesOf(lines[1..])
  }

  /**
   * The docstring: the title and a blank line, then the description lines,
   * the whole stripped; `None` where the source raises on an empty title.
   */
  function Docstring(title: string, description: string): (r: Option<string>)
    ensures r.None? <==> title == []
  {
    if title == [] then None
    else Some(Strip(Join([title + "\n"] + DocLines(description), "\n")))
  }

  /** A title that is stripped and non-empty opens the docstring, as written. */
  lemma DocstringStartsWithTitle(title: string, description: string)
    requires title != [] && IsStripped(title)
    ensures title <= Docstring(title, description).value
  {
    var lines := DocLines(description);
    var parts := [title + "\n"] + lines;
    assert parts[1..] == lines;
    var tail := Join(lines, "\n");
    assert Join(parts, "\n") == title + ("\n" + "\n" + tail);
    StripKeepsStrippedPrefix(title, "\n" + "\n" + tail);
  }

  /**
   * The whole docstring for a stripped non-empty title: the title, a blank
   * line, the description lines joined by line breaks, with trailing
   * whitespace cut.
   */
  lemma DocstringText(title: string, description: string)
    requires title != [] && IsStripped(title)
    ensures Docstring(title, description).value == RStrip(title + "\n\n" + Join(DocLines(description), "\n"))
  {
    var lines := DocLines(description);
    var parts := [title + "\n"] + lines;
    assert parts[1..] == lines;
    var tail := Join(lines, "\n");
    var whole := title + "\n\n" + tail;
    assert Join(parts, "\n") == whole;
    assert whole[0] == title[0];
    StripIsRStrip(whole);
  }

  // ---------------------------------------------------------------- one method, one class

  /** The six lines of one method, each behind the 4-space class indent. */
  function MethodBlock(name: string, e: Entry): (r: Option<seq<string>>)
    ensures r.None? <==> e.title == []
    ensures r.Some? ==> |r.value| == 6
  {
    var doc :- Docstring(e.title, e.description);
    Some(MethodLines(name, e, doc))
  }

  /** The method's lines around a given docstring. */
  function MethodLines(name: string, e: Entry, doc: string): seq<string> {
    [
      Indent + "@staticmethod",
      Indent + ("def " + name + "(" + Signature(e.params) + ") -> " + Annotation(e.returnType) + ":"),
      Indent + (Indent + "\"\"\"" + doc),
      Indent + (Indent + "\"\"\""),
      Indent + (Indent + "pass"),
      Indent + ""
    ]
  }

  /** Six lines, each behind the class indent; the docstring opens on the third. */
  lemma MethodLinesShape(name: string, e: Entry, doc: string)
    ensures |MethodLines(name, e, doc)| == 6
    ensures forall i :: 0 <= i < 6 ==> Indent <= MethodLines(name, e, doc)[i]
    ensures MethodLines(name, e, doc)[2] == DocIndent + "\"\"\"" + doc
  {
    var lines := MethodLines(name, e, doc);
    forall i | 0 <= i < 6 ensures Indent <= lines[i] {
      assert lines[i][..|Indent|] == Indent;
    }
    assert Indent + Indent == DocIndent;
  }

  predicate HasEmptyTitle(methods: map<string, Entry>, names: seq<string>)
    requires forall i :: 0 <= i < |names| ==> names[i] in methods
  {
    exists i :: 0 <= i < |names| && methods[names[i]].title == []
  }

  lemma HasEmptyTitleLast(methods: map<string, Entry>, names: seq<string>)
    requires names != [] && forall i :: 0 <= i < |names| ==> names[i] in methods
    ensures HasEmptyTitle(methods, names) <==>
      HasEmptyTitle(methods, names[..|names| - 1]) || methods[names[|names| - 1]].title == []
  {
    var n := |names| - 1;
    assert forall i :: 0 <= i < n ==> names[..n][i] == names[i];
  }

  /** The method blocks of `names`, in that order; the first empty title stops the run. */
  function MethodBlocks(service: string, methods: map<string, Entry>, names: seq<string>): (r: Result<seq<string>, EmitError>)
    requires forall i :: 0 <= i < |names| ==> names[i] in methods
    ensures r.Ok? ==> |r.value| == 6 * |names|
    ensures r.Err? ==> r.error.service == service && r.error.name in names && methods[r.error.name].title == []
    decreases |names|, 1
  {
    if names == [] then Ok([]) else MethodBlocksLast(service, methods, names)
  }

  /** The blocks of all names but the last, then the last name's block. */
  function MethodBlocksLast(service: string, methods: map<string, Entry>, names: seq<string>): (r: Result<seq<string>, EmitError>)
    requires names != [] && forall i :: 0 <= i < |names| ==> names[i] in methods
    ensures r.Ok? ==> |r.value| == 6 * |names|
    ensures r.Err? ==> r.error.service == service && r.error.name in names && methods[r.error.name].title == []
    decreases |names|, 0
  {
    var n := |names| - 1;
    var done :- MethodBlocks(service, methods, names[..n]);
    match MethodBlock(names[n], methods[names[n]])
    case None => Err(EmptyTitle(service, names[n]))
    case Some(block) => Ok(done + block)
  }

  /** The run fails exactly when some name's entry has an empty title. */
  lemma {:induction false} MethodBlocksFails(service: string, methods: map<string, Entry>, names: seq<string>)
    requires forall i :: 0 <= i < |names| ==> names[i] in methods
    ensures MethodBlocks(service, methods, names).Err? <==> HasEmptyTitle(methods, names)
  {
    if names != [] {
      var n := |names| - 1;
      MethodBlocksFails(service, methods, names[..n]);
      HasEmptyTitleLast(methods, names);
      assert MethodBlocks(service, methods, names) == MethodBlocksLast(service, methods, names);
    }
  }

  predicate ClassHasEmptyTitle(methods: map<string, Entry>) {
    exists m :: m in methods && methods[m].title == []
  }

  /** `class {service}:`, the method blocks in ascending name order, and a blank line. */
  function ClassBlock(service: string, methods: map<string, Entry>): (r: Result<seq<string>, EmitError>)
    ensures r.Ok? ==> |r.value| == 2 + 6 * |methods|
    ensures r.Ok? ==> r.value[0] == "class " + service + ":" && r.value[|r.value| - 1] == []
  {
    var names := SortedKeys(methods.Keys);
    var body :- MethodBlocks(service, methods, names);
    Ok(["class " + service + ":"] + body + [[]])
  }

  /** A class fails exactly when one of its methods has an empty title. */
  lemma ClassBlockFails(service: string, methods: map<string, Entry>)
    ensures ClassBlock(service, methods).Err? <==> ClassHasEmptyTitle(methods)
  {
    var names := SortedKeys(methods.Keys);
    MethodBlocksFails(service, methods, names);
    assert forall m :: m in methods && methods[m].title == [] ==>
      exists i :: 0 <= i < |names| && names[i] == m;
  }

  /** Line `k` of method `i`'s block is line `6 * i + k` of the run: the blocks follow the order of `names`. */
  lemma {:induction false} MethodBlocksAt(service: string, methods: map<string, Entry>, names: seq<string>, i: nat, k: nat)
    requires forall j :: 0 <= j < |names| ==> names[j] in methods
    requires MethodBlocks(service, methods, names).Ok? && i < |names| && k < 6
    ensures MethodBlock(names[i], methods[names[i]]).Some?
    ensures MethodBlocks(service, methods, names).value[6 * i + k] == MethodBlock(names[i], methods[names[i]]).value[k]
  {
    var n := |names| - 1;
    assert names[..n + 1] == names;
    MethodBlocksFails(service, methods, names);
    assert methods[names[n]].title != [];
    MethodBlocksStep(service, methods, names, n);
    var done := MethodBlocks(service, methods, names[..n]).value;
    var block := MethodBlock(names[n], methods[names[n]]).value;
    BlockIndex(done, block, n, i, k);
    if i < n {
      MethodBlocksAt(service, methods, names[..n], i, k);
      assert names[..n][i] == names[i];
    }
  }

  /** Indexing into a run of six-line blocks followed by one more block. */
  lemma BlockIndex<T>(done: seq<T>, block: seq<T>, n: nat, i: nat, k: nat)
    requires |done| == 6 * n && |block| == 6 && i <= n && k < 6
    ensures i < n ==> 6 * i + k < |done| && (done + block)[6 * i + k] == done[6 * i + k]
    ensures i == n ==> (done + block)[6 * i + k] == block[k]
  {
  }

  /**
   * The class holds its methods in ascending name order (SortedKeysAscending):
   * line `k` of the `i`-th name's block is line `1 + 6 * i + k` of the class,
   * right after the `class` line and the blocks before it.
   */
  lemma ClassBlockAt(service: string, methods: map<string, Entry>, i: nat, k: nat)
    requires ClassBlock(service, methods).Ok? && i < |methods| && k < 6
    ensures var names := SortedKeys(methods.Keys);
      && MethodBlock(names[i], methods[names[i]]).Some?
      && ClassBlock(service, methods).value[1 + 6 * i + k] == MethodBlock(names[i], methods[names[i]]).value[k]
  {
    var names := SortedKeys(methods.Keys);
    var body := MethodBlocks(service, methods, names).value;
    MethodBlocksAt(service, methods, names, i, k);
    assert ClassBlock(service, methods).value == ["class " + service + ":"] + body + [[]];
    BetweenIndex("class " + service + ":", body, [], 6 * i + k);
  }

  /** Indexing past the first line of a run framed by one line on each side. */
  lemma BetweenIndex<T>(first: T, body: seq<T>, last: T, j: nat)
    requires j < |body|
    ensures ([first] + body + [last])[1 + j] == body[j]
  {
  }

  // ---------------------------------------------------------------- the whole catalog

  predicate ServiceHasEmptyTitle(c: Catalog, services: seq<string>)
    requires forall i :: 0 <= i < |services| ==> services[i] in c
  {
    exists i :: 0 <= i < |services| && ClassHasEmptyTitle(c[services[i]])
  }

  lemma ServiceHasEmptyTitleLast(c: Catalog, services: seq<string>)
    requires services != [] && forall i :: 0 <= i < |services| ==> services[i] in c
    ensures ServiceHasEmptyTitle(c, services) <==>
      || ServiceHasEmptyTitle(c, services[..|services| - 1])
      || ClassHasEmptyTitle(c[services[|services| - 1]])
  {
    var n := |services| - 1;
    assert forall i :: 0 <= i < n ==> services[..n][i] == services[i];
  }

  /** The class blocks of `services`, in that order. */
  function ServiceBlocks(c: Catalog, services: seq<string>): (r: Result<seq<string>, EmitError>)
    requires forall i :: 0 <= i < |services| ==> services[i] in c
    decreases |services|, 1
  {
    if services == [] then Ok([]) else ServiceBlocksLast(c, services)
  }

  /** The class blocks of all services but the last, then the last one's class. */
  function ServiceBlocksLast(c: Catalog, services: seq<string>): (r: Result<seq<string>, EmitError>)
    requires services != [] && forall i :: 0 <= i < |services| ==> services[i] in c
    decreases |services|, 0
  {
    var n := |services| - 1;
    var done :- ServiceBlocks(c, services[..n]);
    var block :- ClassBlock(services[n], c[services[n]]);
    Ok(done + block)
  }

  /** The run fails exactly when some service's class does. */
  lemma {:induction false} ServiceBlocksFails(c: Catalog, services: seq<string>)
    requires forall i :: 0 <= i < |services| ==> services[i] in c
    ensures ServiceBlocks(c, services).Err? <==> ServiceHasEmptyTitle(c, services)
  {
    if services != [] {
      var n := |services| - 1;
      ServiceBlocksFails(c, services[..n]);
      ServiceHasEmptyTitleLast(c, services);
      ClassBlockFails(services[n], c[services[n]]);
      assert ServiceBlocks(c, services) == ServiceBlocksLast(c, services);
    }
  }

  /** The `lines` list: the import header, then one class per service in ascending name order. */
  function StubLines(c: Catalog): (r: Result<seq<string>, EmitError>)
    ensures r.Ok? ==> Header <= r.value
  {
    var services := SortedKeys(c.Keys);
    var body :- ServiceBlocks(c, services);
    Ok(Header + body)
  }

  /** Emission fails exactly when some class has a method with an empty title. */
  lemma StubLinesFails(c: Catalog)
    ensures StubLines(c).Err? <==> exists s :: s in c && ClassHasEmptyTitle(c[s])
  {
    var services := SortedKeys(c.Keys);
    ServiceBlocksFails(c, services);
    assert ServiceHasEmptyTitle(c, services) <==> exists s :: s in c && ClassHasEmptyTitle(c[s]) by {
      assert forall s :: s in c ==> exists i :: 0 <= i < |services| && services[i] == s;
    }
  }

  /** The class blocks of a prefix of the services open the class blocks of all of them. */
  lemma {:induction false} ServiceBlocksPrefix(c: Catalog, services: seq<string>, k: nat)
    requires forall i :: 0 <= i < |services| ==> services[i] in c
    requires k <= |services| && ServiceBlocks(c, services).Ok?
    ensures ServiceBlocks(c, services[..k]).Ok?
    ensures ServiceBlocks(c, services[..k]).value <= ServiceBlocks(c, services).value
    decreases |services|
  {
    if k == |services| {
      assert services[..k] == services;
    } else {
      var n := |services| - 1;
      assert ServiceBlocks(c, services) == ServiceBlocksLast(c, services);
      ServiceBlocksPrefix(c, services[..n], k);
      assert services[..n][..k] == services[..k];
    }
  }

  /** The class of the i-th service comes right after the classes of the services before it. */
  lemma {:induction false} ServiceBlocksAt(c: Catalog, services: seq<string>, i: nat)
    requires forall j :: 0 <= j < |services| ==> services[j] in c
    requires i < |services| && ServiceBlocks(c, services).Ok?
    ensures ServiceBlocks(c, services[..i]).Ok? && ClassBlock(services[i], c[services[i]]).Ok?
    ensures ServiceBlocks(c, services[..i]).value + ClassBlock(services[i], c[services[i]]).value <= ServiceBlocks(c, services).value
  {
    ServiceBlocksPrefix(c, services, i + 1);
    var front := services[..i + 1];
    assert front[..i] == services[..i] && front[i] == services[i];
    assert ServiceBlocks(c, front) == ServiceBlocksLast(c, front);
  }

  /** The emitted lines are the header, then the classes of all services in ascending name order. */
  lemma {:induction false} StubLinesAreHeaderThenClasses(c: Catalog)
    requires StubLines(c).Ok?
    ensures var ks := SortedKeys(c.Keys);
      && (forall j :: 0 <= j < |ks| ==> ks[j] in c)
      && ServiceBlocks(c, ks).Ok?
      && StubLines(c).value == Header + ServiceBlocks(c, ks).value
  {
  }

  /**
   * In the emitted lines, the class of the i-th service in ascending name
   * order follows the header and the classes of all smaller service names.
   */
  lemma {:induction false} StubLinesAt(c: Catalog, i: nat)
    requires StubLines(c).Ok? && i < |SortedKeys(c.Keys)|
    ensures var ks := SortedKeys(c.Keys);
      && ServiceBlocks(c, ks[..i]).Ok?
      && ClassBlock(ks[i], c[ks[i]]).Ok?
      && Header + ServiceBlocks(c, ks[..i]).value + ClassBlock(ks[i], c[ks[i]]).value <= StubLines(c).value
  {
    var ks := SortedKeys(c.Keys);
    StubLinesAreHeaderThenClasses(c);
    ServiceBlocksAt(c, ks, i);
    PrefixBehind(Header, ServiceBlocks(c, ks[..i]).value, ClassBlock(ks[i], c[ks[i]]).value, ServiceBlocks(c, ks).value);
  }

  lemma PrefixBehind<T>(h: seq<T>, a: seq<T>, b: seq<T>, w: seq<T>)
    requires a + b <= w
    ensures h + a + b <= h + w
  {
    assert h + a + b == h + (a + b);
    assert (h + w)[..|h + a + b|] == h + a + b;
  }

  lemma PrefixIndex<T>(a: seq<T>, b: seq<T>, whole: seq<T>, k: nat)
    requires a + b <= whole && k < |b|
    ensures |a| + k < |whole| && whole[|a| + k] == b[k]
  {
    assert (a + b)[|a| + k] == b[k];
  }

  /** The docstring line of the j-th method, in ascending name order, within its class block. */
  lemma {:induction false} ClassDocstringAt(service: string, methods: map<string, Entry>, j: nat)
    requires ClassBlock(service, methods).Ok? && j < |SortedKeys(methods.Keys)|
    ensures var m := SortedKeys(methods.Keys)[j];
      && m in methods
      && Docstring(methods[m].title, methods[m].description).Some?
      && 3 + 6 * j < |ClassBlock(service, methods).value|
      && ClassBlock(service, methods).value[3 + 6 * j] == DocIndent + "\"\"\"" + Docstring(methods[m].title, methods[m].description).value
  {
    var m := SortedKeys(methods.Keys)[j];
    assert m in methods.Keys;
    ClassBlockAt(service, methods, j, 2);
    MethodBlockDocLine(m, methods[m]);
  }

  /** The third line of a method block is the docstring's opening line. */
  lemma {:induction false} MethodBlockDocLine(name: string, e: Entry)
    requires e.title != []
    ensures MethodBlock(name, e).Some?
    ensures MethodBlock(name, e).value[2] == DocIndent + "\"\"\"" + Docstring(e.title, e.description).value
  {
    MethodLinesShape(name, e, Docstring(e.title, e.description).value);
  }

  /** Every line of the class of a service is among the emitted lines. */
  lemma {:induction false} ClassLineEmitted(c: Catalog, s: string, q: nat)
    requires StubLines(c).Ok? && s in c
    ensures ClassBlock(s, c[s]).Ok?
    ensures q < |ClassBlock(s, c[s]).value| ==>
      exists p :: 0 <= p < |StubLines(c).value| && StubLines(c).value[p] == ClassBlock(s, c[s]).value[q]
  {
    var ks := SortedKeys(c.Keys);
    var i := PositionOf(c.Keys, s);
    StubLinesAt(c, i);
    var block := ClassBlock(s, c[s]).value;
    if q < |block| {
      PrefixIndex(Header + ServiceBlocks(c, ks[..i]).value, block, StubLines(c).value, q);
    }
  }

  /** Every method of every service has its docstring line among the emitted lines. */
  lemma {:induction false} DocstringEmitted(c: Catalog, s: string, m: string)
    requires StubLines(c).Ok? && s in c && m in c[s]
    ensures Docstring(c[s][m].title, c[s][m].description).Some?
    ensures exists p ::
      && 0 <= p < |StubLines(c).value|
      && StubLines(c).value[p] == DocIndent + "\"\"\"" + Docstring(c[s][m].title, c[s][m].description).value
  {
    var j := PositionOf(c[s].Keys, m);
    ClassLineEmitted(c, s, 3 + 6 * j);
    ClassDocstringAt(s, c[s], j);
  }

  /** Once a prefix of the names fails, the whole list fails with that error. */
  lemma {:induction false} MethodBlocksErrorPersists(service: string, methods: map<string, Entry>, names: seq<string>, k: nat)
    requires forall i :: 0 <= i < |names| ==> names[i] in methods
    requires k <= |names|
    requires MethodBlocks(service, methods, names[..k]).Err?
    ensures MethodBlocks(service, methods, names) == MethodBlocks(service, methods, names[..k])
    decreases |names| - k
  {
    if k < |names| {
      assert names[..k + 1][..k] == names[..k];
      assert MethodBlocks(service, methods, names[..k + 1]) == MethodBlocksLast(service, methods, names[..k + 1]);
      MethodBlocksErrorPersists(service, methods, names, k + 1);
    } else {
      assert names[..k] == names;
    }
  }

  lemma {:induction false} ServiceBlocksErrorPersists(c: Catalog, services: seq<string>, k: nat)
    requires forall i :: 0 <= i < |services| ==> services[i] in c
    requires k <= |services|
    requires ServiceBlocks(c, services[..k]).Err?
    ensures ServiceBlocks(c, services) == ServiceBlocks(c, services[..k])
    decreases |services| - k
  {
    if k < |services| {
      ServiceBlocksErrorStep(c, services, k);
      ServiceBlocksErrorPersists(c, services, k + 1);
    } else {
      assert services[..k] == services;
    }
  }

  lemma ServiceBlocksErrorStep(c: Catalog, services: seq<string>, k: nat)
    requires forall i :: 0 <= i < |services| ==> services[i] in c
    requires k < |services| && ServiceBlocks(c, services[..k]).Err?
    ensures ServiceBlocks(c, services[..k + 1]) == ServiceBlocks(c, services[..k])
  {
    assert services[..k + 1][..k] == services[..k];
    assert ServiceBlocks(c, services[..k + 1]) == ServiceBlocksLast(c, services[..k + 1]);
  }

  /** Appending one more method block to the run of the names before it. */
  lemma MethodBlocksStep(service: string, methods: map<string, Entry>, names: seq<string>, j: nat)
    requires forall i :: 0 <= i < |names| ==> names[i] in methods
    requires j < |names| && MethodBlocks(service, methods, names[..j]).Ok?
    requires MethodBlock(names[j], methods[names[j]]).Some?
    ensures MethodBlocks(service, methods, names[..j + 1]) ==
      Ok(MethodBlocks(service, methods, names[..j]).value + MethodBlock(names[j], methods[names[j]]).value)
  {
    assert names[..j + 1][..j] == names[..j];
    assert MethodBlocks(service, methods, names[..j + 1]) == MethodBlocksLast(service, methods, names[..j + 1]);
  }

  /** Appending one more class block to the run of the services before it. */
  lemma ServiceBlocksStep(c: Catalog, services: seq<string>, k: nat)
    requires forall i :: 0 <= i < |services| ==> services[i] in c
    requires k < |services| && ServiceBlocks(c, services[..k]).Ok?
    requires ClassBlock(services[k], c[services[k]]).Ok?
    ensures ServiceBlocks(c, services[..k + 1]) ==
      Ok(ServiceBlocks(c, services[..k]).value + ClassBlock(services[k], c[services[k]]).value)
  {
    assert services[..k + 1][..k] == services[..k];
    assert ServiceBlocks(c, services[..k + 1]) == ServiceBlocksLast(c, services[..k + 1]);
  }

  /** The first empty title in `names` is the error of the whole run. */
  lemma MethodBlocksStop(service: string, methods: map<string, Entry>, names: seq<string>, j: nat)
    requires forall i :: 0 <= i < |names| ==> names[i] in methods
    requires j < |names| && MethodBlocks(service, methods, names[..j]).Ok?
    requires MethodBlock(names[j], methods[names[j]]).None?
    ensures MethodBlocks(service, methods, names) == Err(EmptyTitle(service, names[j]))
  {
    assert names[..j + 1][..j] == names[..j];
    assert MethodBlocks(service, methods, names[..j + 1]) == MethodBlocksLast(service, methods, names[..j + 1]);
    MethodBlocksErrorPersists(service, methods, names, j + 1);
  }

  /** Regrouping a concatenation; proved apart so the loops below stay cheap. */
  lemma Associative<T>(a: seq<T>, b: seq<T>, c: seq<T>)
    ensures a + b + c == a + (b + c)
  {
  }

  /** The inner loop: one class appended to `lines`, or the error that stops it. */
  method EmitClass(lines: seq<string>, service: string, methods: map<string, Entry>)
    returns (r: Result<seq<string>, EmitError>)
    ensures ClassBlock(service, methods).Ok? ==> r == Ok(lines + ClassBlock(service, methods).value)
    ensures ClassBlock(service, methods).Err? ==> r == Err(ClassBlock(service, methods).error)
  {
    var names := SortedKeys(methods.Keys);
    var classLine := "class " + service + ":";
    var out := lines + [classLine];
    for j := 0 to |names|
      invariant MethodBlocks(service, methods, names[..j]).Ok?
      invariant out == lines + [classLine] + MethodBlocks(service, methods, names[..j]).value
    {
      var name := names[j];
      var block := MethodBlock(name, methods[name]);
      if block.None? {
        MethodBlocksStop(service, methods, names, j);
        return Err(EmptyTitle(service, name));
      }
      MethodBlocksStep(service, methods, names, j);
      Associative(lines + [classLine], MethodBlocks(service, methods, names[..j]).value, block.value);
      out := out + block.value;
    }
    assert names[..|names|] == names;
    ghost var body := MethodBlocks(service, methods, names).value;
    Associative(lines + [classLine], body, [[]]);
    Associative(lines, [classLine], body + [[]]);
    Associative([classLine], body, [[]]);
    return Ok(out + [[]]);
  }

  /** The first class with an empty title is the error of the whole run. */
  lemma ServiceBlocksStop(c: Catalog, services: seq<string>, k: nat)
    requires forall i :: 0 <= i < |services| ==> services[i] in c
    requires k < |services| && ServiceBlocks(c, services[..k]).Ok?
    requires ClassBlock(services[k], c[services[k]]).Err?
    ensures ServiceBlocks(c, services) == Err(ClassBlock(services[k], c[services[k]]).error)
  {
    assert services[..k + 1][..k] == services[..k];
    assert ServiceBlocks(c, services[..k + 1]) == ServiceBlocksLast(c, services[..k + 1]);
    ServiceBlocksErrorPersists(c, services, k + 1);
  }

  /** The emission loops, growing `lines` class by class. */
  method EmitLines(c: Catalog) returns (r: Result<seq<string>, EmitError>)
    ensures r == StubLines(c)
  {
    var lines := Header;
    var services := SortedKeys(c.Keys);
    for k := 0 to |services|
      invariant ServiceBlocks(c, services[..k]).Ok?
      invariant lines == Header + ServiceBlocks(c, services[..k]).value
    {
      var service := services[k];
      var next := EmitClass(lines, service, c[service]);
      if next.Err? {
        ServiceBlocksStop(c, services, k);
        return Err(next.error);
      }
      ServiceBlocksStep(c, services, k);
      Associative(Header, ServiceBlocks(c, services[..k]).value, ClassBlock(service, c[service]).value);
      lines := next.value;
    }
    assert services[..|services|] == services;
    return Ok(lines);
  }

  /** `'\n'.join(lines)`: the source text before it is handed to the formatter. */
  function StubSource(c: Catalog): (r: Result<string, EmitError>)
    ensures r.Ok? ==> Join(Header, "\n") <= r.value
    ensures r.Err? <==> StubLines(c).Err?
  {
    var lines :- StubLines(c);
    JoinPrefix(Header, lines[|Header|..], "\n");
    assert Header + lines[|Header|..] == lines;
    Ok(Join(lines, "\n"))
  }

  /** Emission fails exactly when some method of some service has an empty title. */
  lemma StubSourceFailsOnEmptyTitle(c: Catalog)
    ensures StubSource(c).Err? <==> exists s, m :: Lookup(c, s, m).Some? && Lookup(c, s, m).value.title == []
  {
    StubLinesFails(c);
    if StubSource(c).Err? {
      var s :| s in c && ClassHasEmptyTitle(c[s]);
      var m :| m in c[s] && c[s][m].title == [];
      assert Lookup(c, s, m) == Some(c[s][m]);
    }
    if exists s, m :: Lookup(c, s, m).Some? && Lookup(c, s, m).value.title == [] {
      var s, m :| Lookup(c, s, m).Some? && Lookup(c, s, m).value.title == [];
      assert ClassHasEmptyTitle(c[s]);
    }
  }
}
