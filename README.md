# Infusionsoft XML-RPC stub generator — Dafny model

`generate_stubs` (in `infusionsoft/gen_stubs.py`) reads the Infusionsoft
XML-RPC documentation page and writes Python source code. Each service gets a
class. Each documented method of that service gets a `@staticmethod` stub with
these parts:
- a signature typed from the argument table;
- a return annotation read off the example response;
- a docstring made from the method's heading and description paragraphs.

The model covers the string-level core of that function, in two phases.

- **Extraction** (`Extract`). The page is taken as a sequence of `Section`
  records, one per element of class `method` in document order. Each record
  holds the answers to the queries the generator makes on the HTML:
  - the `id`;
  - whether a `lang-xml` node is present;
  - the argument rows;
  - the example response;
  - the `<h3>` heading;
  - the description paragraphs;
  - the Definition;
  - the example request.

  A section passes the filter only if its id starts with neither
  `introduction` nor `authentication` and it holds a `lang-xml` node. Each
  section that passes becomes one catalog entry, keyed by service and method
  name. The catalog is a `map<string, map<string, Entry>>`, and a later entry
  under the same key replaces the earlier one. Every place in extraction where
  the Python raises and the model keeps is a `SectionError`:
  - an attribute read on `None` (no heading, no heading text, no description
    block, no request example, no `<methodname>`);
  - a name with no dot, where the split cannot give two parts.

  The run stops at the first failing section. `Extract.BuildCatalog` is the
  loop over the sections. `Extract.ParseArguments` is the loop over the
  argument rows.
- **Emission** (`Emit`). The catalog becomes source lines:
  - the four header lines;
  - for each service in ascending code-point order:
    - a `class` line;
    - six lines per method, in ascending method order;
    - one blank line.

  The lines are joined with newlines. Other parts of emission:
  - **Signature.** The first parameter (the API key) is dropped.
  - **Annotations.** Every type token and the return type go through the fixed
    type table, and tokens the table does not list pass through unchanged
    (`TypeMap`).
  - **Empty title.** The Python raises a `TypeError` when it joins the
    docstring parts, because the title part is `None`. The model returns
    `EmitError.EmptyTitle`. `Emit.EmitLines` and `Emit.EmitClass` are the
    loops that append the lines.

`Stubs.StubText` / `Stubs.GenerateStubs` run both phases. The string
primitives the Python relies on are in `Text`:
- `strip`/`rstrip` over the `str.isspace` set;
- `rstrip(':')` and `replace(' ', '')`;
- `split('\n', 1)[0]` and `re.split(r'\s+', s, 1)[0]`;
- `split('.', 1)`;
- `str.split` and `str.join`.

`Ordering` holds the code-point order that `sorted` uses, and a proof that the
key order it produces is strictly ascending. The camel-case conversion from
the `stringcase` package is a parameter `camel: string -> string` of every
operation that needs it.

## Model

| member | source | states |
|---|---|---|
| Text.IsSpace | infusionsoft/gen_stubs.py:44-46 | definition: the 29 code points of `Py_UNICODE_ISSPACE`, which `str.isspace`, `strip()`, `rstrip()` and the `\s` class all use |
| Text.RStrip | infusionsoft/gen_stubs.py:131 | the result is a prefix of the input; everything it cut off is whitespace; it does not end in whitespace |
| Text.Strip | infusionsoft/gen_stubs.py:44 | the result has no whitespace at either end; an already stripped string is unchanged; the result is empty exactly when the input is all whitespace |
| Text.StripIsTrimmedSlice | infusionsoft/gen_stubs.py:44 | the result is a slice `s[i..j]` of the input where everything before `i` and from `j` on is whitespace; with the contract of `Strip` this pins the result down |
| Text.StripIsRStrip | infusionsoft/gen_stubs.py:133 | on a text that does not open with whitespace, `strip()` equals `rstrip()` |
| Text.RStripChar | infusionsoft/gen_stubs.py:40 | `rstrip(':')`: the result is a prefix of the input; only colons were cut; it does not end in a colon |
| Text.RemoveChar | infusionsoft/gen_stubs.py:42 | `replace(' ', '')`: a character occurs in the result exactly when it occurs in the input and is not the space; an input without a space is unchanged |
| Text.RemoveCharAppend | infusionsoft/gen_stubs.py:42 | removing from a concatenation removes from each piece |
| Text.RemoveCharJoinsPieces | infusionsoft/gen_stubs.py:42 | `s.replace(c, '')` equals `''.join(s.split(c))`: the pieces between the `c`s, in order, run together |
| Text.FirstLine | infusionsoft/gen_stubs.py:45 | `split('\n', 1)[0]`: a newline-free prefix, and the input continues with a newline if the prefix is shorter than the input |
| Text.FirstWord | infusionsoft/gen_stubs.py:46 | `re.split(r'\s+', s, 1)[0]`: a whitespace-free prefix, and the input continues with whitespace if the prefix is shorter than the input |
| Text.SplitAtFirst | infusionsoft/gen_stubs.py:93 | `split('.', 1)`: there is no split exactly when the separator is absent; otherwise a separator-free head, then the separator, then the tail give back the input |
| Text.Join | infusionsoft/gen_stubs.py:155 | definition of `sep.join(parts)`: nothing for no parts, the part itself for one, parts separated by `sep` otherwise |
| Text.JoinAppend | infusionsoft/gen_stubs.py:80 | one more part adds the separator and that part at the end |
| Text.SplitOn | infusionsoft/gen_stubs.py:132 | `split('\n')`: at least one piece; no piece contains the separator; joining the pieces with the separator gives back the input |
| Text.SplitOnJoin | infusionsoft/gen_stubs.py:132 | the other round trip: splitting a join of separator-free pieces gives back the pieces |
| Text.StripKeepsStrippedPrefix | infusionsoft/gen_stubs.py:133 | stripping a text that begins with a non-empty stripped string keeps that string at the front |
| Ordering.LexLe | infusionsoft/gen_stubs.py:114-117 | definition: Python's `<=` on `str`, code point by code point with a proper prefix first, the order `sorted` uses |
| Ordering.SortedKeys | infusionsoft/gen_stubs.py:114 | the sorted key list has exactly the elements of the key set, each once |
| Ordering.SortedKeysAscending | infusionsoft/gen_stubs.py:114-117 | the sorted key list is strictly ascending in code-point order |
| Ordering.LexLeTotal | infusionsoft/gen_stubs.py:114 | any two strings are comparable in the order `sorted` uses |
| Ordering.LexLeTransitive | infusionsoft/gen_stubs.py:114 | that order is transitive |
| Ordering.LexLeAntisymmetric | infusionsoft/gen_stubs.py:114 | that order is antisymmetric, so the sorted order of distinct keys is unique |
| TypeMap.Annotation | infusionsoft/gen_stubs.py:103-113 | `TYPE_MAP.get(t, t)`: a listed token maps to its table entry; any other token is returned unchanged |
| TypeMap.KnownTokens | infusionsoft/gen_stubs.py:103-113 | the nine table entries, one by one |
| TypeMap.AnnotationUnlisted | infusionsoft/gen_stubs.py:103-113 | no annotation is itself a listed token |
| TypeMap.AnnotationIdempotent | infusionsoft/gen_stubs.py:122 | mapping twice gives the same as mapping once |
| Extract.IdAdmitted | infusionsoft/gen_stubs.py:22-23 | definition of the id filter `^(?!introduction\|authentication)`: an id exists and starts with neither word |
| Extract.HasLangXml | infusionsoft/gen_stubs.py:26-28 | definition: some `lang-xml` node is in the section; each of the three examples is one |
| Extract.IsMethodSection | infusionsoft/gen_stubs.py:22-28 | definition: the sections the loop does not skip, those passing both tests above |
| Extract.ArgumentName | infusionsoft/gen_stubs.py:40-42 | the name is the camel-case conversion of the label with its trailing colons cut and every space removed, so of a space-free key made only of the label's characters |
| Extract.TypeToken | infusionsoft/gen_stubs.py:44-46 | the token is the longest whitespace-free prefix of the stripped description: it has no whitespace, is a prefix, and is followed by a whitespace character (any `str.isspace` character) when shorter; it is empty exactly when the description is all whitespace |
| Extract.ParamOf | infusionsoft/gen_stubs.py:40-55 | one parameter: its name comes from the label; its type is `struct` when the name is exactly `data`, and the description's first word otherwise |
| Extract.ParamsOf | infusionsoft/gen_stubs.py:32-55 | at most one parameter per row; no parameter type contains whitespace |
| Extract.Labelled | infusionsoft/gen_stubs.py:33-38 | the rows kept are exactly those that have a label column |
| Extract.ParamsOfLabelled | infusionsoft/gen_stubs.py:32-55 | the parameters are the kept rows, in order, one parameter per row |
| Extract.ParamsOfAppend | infusionsoft/gen_stubs.py:32-55 | parameters of consecutive runs of rows concatenate |
| Extract.ParseArguments | infusionsoft/gen_stubs.py:31-55 | the row loop computes the parameter list of the rows |
| Extract.ReturnType | infusionsoft/gen_stubs.py:58-72 | `None` without a response or a `<value>`, the first child's tag when there is one, `string` when `<value>` holds only text |
| Extract.Title | infusionsoft/gen_stubs.py:75-76 | fails without a heading or without heading text; otherwise it is the stripped heading text, empty exactly when that text is all whitespace |
| Extract.Description | infusionsoft/gen_stubs.py:78-80 | fails exactly when the description block is missing; no paragraphs give the empty string; one paragraph gives that paragraph stripped; with more, the first stripped paragraph and a blank line open the text |
| Extract.DescriptionAppend | infusionsoft/gen_stubs.py:80 | one more paragraph adds a blank line and that paragraph, stripped, at the end; with the one-paragraph case this fixes the whole text |
| Extract.QualifiedName | infusionsoft/gen_stubs.py:83-91 | the stripped Definition when there is one; otherwise the request's `<methodname>`, failing when either is missing |
| Extract.SplitName | infusionsoft/gen_stubs.py:93 | fails exactly when the name has no dot; otherwise a dot-free service, the dot and the method give back the name |
| Extract.ExtractSection | infusionsoft/gen_stubs.py:22-94 | a filtered-out section gives nothing; a method section fails exactly when title, description, name or split fails, and otherwise gives one item whose name, parameters, return type, title and description are the ones above |
| Extract.ExtractSectionError | infusionsoft/gen_stubs.py:75-93 | a failing method section reports the first failing step, in the order title, description, name, split |
| Extract.Insert | infusionsoft/gen_stubs.py:94 | after `services[service][method] = …`, that key holds the new entry and every other key is unchanged |
| Extract.InsertWellFormed | infusionsoft/gen_stubs.py:94 | inserting a well-formed entry under a dot-free service keeps every service dot-free and holding at least one method, and every entry well formed (an empty service name, as `'.add'` gives, is allowed) |
| Extract.CatalogOf | infusionsoft/gen_stubs.py:24-94 | a failure names the position of a section that exists |
| Extract.CatalogOfWellFormed | infusionsoft/gen_stubs.py:24-94 | a catalog that was built is well formed: dot-free services, stripped titles, whitespace-free types |
| Extract.LastEntry | infusionsoft/gen_stubs.py:94 | reference definition: the entry of the last section that yields an item under the key |
| Extract.CatalogOfLastWriteWins | infusionsoft/gen_stubs.py:94 | every key holds the entry of the last section that produced it |
| Extract.CatalogOfLastWriteWinsAt | infusionsoft/gen_stubs.py:94 | the same, for one key |
| Extract.CatalogOfFirstError | infusionsoft/gen_stubs.py:25-94 | the run fails exactly when some section fails, and it reports the first failing section |
| Extract.CatalogOfErrorPersists | infusionsoft/gen_stubs.py:25-94 | once a prefix of the sections fails, the whole run fails with that error |
| Extract.BuildCatalog | infusionsoft/gen_stubs.py:24-94 | the section loop computes the catalog, or the failure |
| Emit.ParamText | infusionsoft/gen_stubs.py:122 | definition: `'{arg}: {type}'` with the type put through the table |
| Emit.DropFirst | infusionsoft/gen_stubs.py:121 | definition: `params[1:]`, empty for an empty list |
| Emit.ParamTexts | infusionsoft/gen_stubs.py:122-123 | one `name: annotation` text per parameter, in order |
| Emit.Signature | infusionsoft/gen_stubs.py:121-124 | definition: the texts of `params[1:]` joined by `, ` |
| Emit.SignatureText | infusionsoft/gen_stubs.py:121-124 | with at most one parameter the signature is empty; otherwise it is the texts of all but the first, joined by `, ` |
| Emit.SignatureIgnoresFirst | infusionsoft/gen_stubs.py:121 | the first parameter has no influence on the signature |
| Emit.SignatureStartsWithSecond | infusionsoft/gen_stubs.py:121-124 | with two or more parameters the signature opens with the second one |
| Emit.DocLine | infusionsoft/gen_stubs.py:131 | definition: `(indent + line).rstrip()` |
| Emit.DocLines | infusionsoft/gen_stubs.py:131-132 | definition: one docstring line per piece of `desc.split('\n')` |
| Emit.DocLinesOf | infusionsoft/gen_stubs.py:131-132 | one docstring line per description line, in order |
| Emit.DocLineShape | infusionsoft/gen_stubs.py:131 | a docstring line is empty exactly when the description line is blank; otherwise it starts with the 8-space indent, lies within the indented line, and has no trailing whitespace |
| Emit.Docstring | infusionsoft/gen_stubs.py:129-133 | the docstring exists exactly when the title is non-empty |
| Emit.DocstringStartsWithTitle | infusionsoft/gen_stubs.py:130-133 | a non-empty stripped title opens the docstring |
| Emit.DocstringText | infusionsoft/gen_stubs.py:129-133 | for a non-empty stripped title the docstring is the title, a blank line, then the description lines joined by line breaks, with trailing whitespace cut |
| Emit.MethodBlock | infusionsoft/gen_stubs.py:129-151 | the six lines exist exactly when the title is non-empty |
| Emit.MethodLines | infusionsoft/gen_stubs.py:143-151 | definition: the six lines around a docstring |
| Emit.MethodBlockDocLine | infusionsoft/gen_stubs.py:146 | the third line of a method block opens the docstring |
| Emit.MethodLinesShape | infusionsoft/gen_stubs.py:143-151 | six lines, each behind the 4-space indent, and the third opens the docstring |
| Emit.MethodBlocks | infusionsoft/gen_stubs.py:118-151 | six lines per method; a failure names this service and a method of it whose title is empty |
| Emit.MethodBlocksFails | infusionsoft/gen_stubs.py:118-151 | a service's methods fail to render exactly when one of them has an empty title |
| Emit.MethodBlocksAt | infusionsoft/gen_stubs.py:118-151 | line `6i+k` of the method lines is line `k` of the block of the i-th method |
| Emit.MethodBlocksErrorPersists | infusionsoft/gen_stubs.py:118-151 | once rendering a prefix of the methods fails, rendering all of them fails the same way |
| Emit.ClassBlock | infusionsoft/gen_stubs.py:116-152 | `2 + 6·(number of methods)` lines, starting with `class <service>:` and ending with a blank line |
| Emit.ClassBlockFails | infusionsoft/gen_stubs.py:116-152 | a class fails to render exactly when one of its methods has an empty title |
| Emit.ClassBlockAt | infusionsoft/gen_stubs.py:116-152 | after the class line, the blocks follow each other in ascending method-name order |
| Emit.ClassDocstringAt | infusionsoft/gen_stubs.py:117-151 | the j-th method in ascending name order has its docstring line at position `3 + 6j` of the class block |
| Emit.ServiceBlocks | infusionsoft/gen_stubs.py:115-152 | definition: the class blocks of the services in the given order, stopping at the first failure |
| Emit.ServiceBlocksPrefix | infusionsoft/gen_stubs.py:115-152 | the classes of a prefix of the services open the classes of all of them |
| Emit.ServiceBlocksAt | infusionsoft/gen_stubs.py:115-152 | the class of the i-th service comes right after the classes of the services before it |
| Emit.ServiceBlocksFails | infusionsoft/gen_stubs.py:114-152 | the services fail to render exactly when one of them fails |
| Emit.ServiceBlocksErrorPersists | infusionsoft/gen_stubs.py:115-152 | once rendering a prefix of the services fails, rendering all of them fails the same way |
| Emit.Header | infusionsoft/gen_stubs.py:96-101 | definition: the two import lines and two blank lines that open every stub file |
| Emit.StubLines | infusionsoft/gen_stubs.py:96-152 | the header lines open the output |
| Emit.StubLinesAreHeaderThenClasses | infusionsoft/gen_stubs.py:96-152 | the output is the header, then the classes of all services in ascending name order; an unfolding step used by `Emit.StubLinesAt` |
| Emit.StubLinesAt | infusionsoft/gen_stubs.py:114-152 | the class of the i-th service in ascending name order follows the header and the classes of all smaller service names |
| Emit.ClassLineEmitted | infusionsoft/gen_stubs.py:114-152 | every line of every service's class is among the emitted lines |
| Emit.DocstringEmitted | infusionsoft/gen_stubs.py:114-152 | every method of every service has its docstring line among the emitted lines |
| Emit.StubLinesFails | infusionsoft/gen_stubs.py:96-152 | emission fails exactly when some service has a method with an empty title |
| Emit.EmitClass | infusionsoft/gen_stubs.py:116-152 | appending one class's lines gives the lines so far plus the class block, or that block's failure |
| Emit.EmitLines | infusionsoft/gen_stubs.py:96-152 | the loops over services and methods compute the specified lines |
| Emit.StubSource | infusionsoft/gen_stubs.py:155 | the joined header opens the source; it fails exactly when the lines fail |
| Emit.StubSourceFailsOnEmptyTitle | infusionsoft/gen_stubs.py:118-155 | the source fails exactly when some catalog entry has an empty title |
| Stubs.StubText | infusionsoft/gen_stubs.py:22-155 | fails during extraction exactly when building the catalog fails; a built catalog fails exactly when its source fails; a success opens with the header |
| Stubs.GenerateStubs | infusionsoft/gen_stubs.py:22-155 | the whole run computes the stub text |
| Stubs.EmissionFailsOnEmptyTitle | infusionsoft/gen_stubs.py:94-133 | once extraction succeeds, the run fails exactly when the last-written entry under some key has an empty title; an overwritten empty title does no harm |
| Stubs.NoSectionsGiveHeader | infusionsoft/gen_stubs.py:24-155 | a page without sections is not an error: the text is the joined import header alone |
| Stubs.DocstringOpensWithTitle | infusionsoft/gen_stubs.py:76-133 | the docstring of every catalog entry with a non-empty title opens with that title |
| Stubs.EmittedDocstringOpensWithTitle | infusionsoft/gen_stubs.py:76-152 | when the run succeeds, every catalog method has an emitted line that opens the docstring with the method's title |
| Scenario.ContactAddItem | infusionsoft/gen_stubs.py:22-94 | the `ContactService.add` section yields one item: service `ContactService`, title `Create a Contact`, one parameter, return type `int` |
| Scenario.ContactAddSignature | infusionsoft/gen_stubs.py:121-124 | its only parameter is dropped as the API key, so the signature is empty |
| Scenario.DataRowIsStruct | infusionsoft/gen_stubs.py:48-53 | a row labelled `Data:` described as an array is typed `struct`, annotated `Dict[str, any]` |

## Behaviour worth knowing

The model follows the code in each of these cases, where a reader might
expect something else.

- **First parameter.** One might expect `contactData: Dict` in the signature
  of `ContactService.add`. The code drops the first parameter of every
  method, and `ContactService.add` has only one row, so the signature is
  empty (`Scenario.ContactAddSignature`).
- **The `data` override.** It applies only to a converted name exactly equal
  to `data`. `contactData` keeps its own token.
- **Empty type tokens.** A type token might be expected to be non-empty. The
  code gives an empty token when the description column is all whitespace
  (`Extract.TypeToken`).
- **Missing heading or description block.** These might be expected to give
  an empty title or description. The code reads an attribute of `None` and
  crashes (`Extract.Title`, `Extract.Description`).
- **No method sections.** A page without method sections might be expected
  to be an error. The code emits the header alone
  (`Stubs.NoSectionsGiveHeader`).
- **`dateTime.iso8601`.** `html.parser` lowercases tag names, so a return type
  read from an example response arrives lowercased. The table's
  `dateTime`/`dateTime.iso8601` entries never match it, and it passes through
  unchanged. The model takes tag names as given.

## Left out

- Fetching the page over HTTP, and the assertion on the status code (lines 17-19): I/O. The page arrives already reduced to `Section` records.
- BeautifulSoup's parsing and queries (lines 20-23, 32-33, 59-65, 75, 78-79, 83-91): each query's answer is a field of `Section`. The model assumes the `<b>` inside `.col-sm-4` and the `.col-sm-8` cell are present; a missing one would raise `AttributeError` in the Python.
- Extract.ArgumentName: `stringcase.camelcase` is foreign code, so it is the parameter `camel`, and its contract says nothing about the conversion itself.
- `autopep8.fix_code` (line 156): foreign code. The model's result is the text before reformatting.
- The import guard and its `RuntimeError` (lines 8-15), and the `__main__` entry point (lines 161-162): process-level behaviour.
- Extract.CatalogOf: the Python stops with an exception; the model returns the position and reason of the first failure instead, and it does not model exception types.
