# Models and proofs for the Xevolver tool chain

The `tools/` directory of Xevolver is a small compiler of its own: it reads and prints XML element
trees, turns directive text into trees and back, restructures those trees, splits and joins continued
Fortran lines, and generates XSLT templates from tree patterns. This project models these parts in
Dafny and proves what they keep, undo and mean. Two string algorithms of `src/` are included.

Code that works step by step is a method with loops, or a class whose fields the methods change; each
is proved equal to a specification function, and the theorems are lemmas about these functions.

- **Pattern compiler** (`XPath`, `Patterns`, `PatternWriter`, `PatternProofs`, `PatternMeaning`,
  `PatternIntent`): the emitted predicates are a small syntax with an evaluator after XPath 1.0 (sections
  2.1 to 2.5, 4.2 and 4.3), compared with a direct recursive matcher.
- **Element heap** (`Xml`, `XmlHeap`): cells with first-child and next-sibling links. A ghost `Forest`
  names the cells a link leads to, `Rep` says that the heap holds it, `Trees` is the value it stands for.
- **Blocks, lines, contains statements** (`Blocks`, `BlockProofs`, `BlockFlat`, `BlockMeaning`,
  `BlockContent`, `ConstrBlock`, `DestrBlock`, `BlockRun`, `Lines`, `LineHeap`, `Contains`,
  `ContainsForms`, `ContainsExact`, `ContainsHeap`, `ContainsWalk`): restructuring by relinking cells in
  place, against a one-pass stack parser and other functions on values.
- **XML text** (`XmlText`, `XmlLayout`, `XmlFile`), **quoted strings** (`LangStr`), **directive language**
  (`Directive`, `DirectiveProofs`, `DirectiveLayout`, `DirectiveCount`, `LayoutCount`, `DirectivePrinter`,
  `DirectiveReader`), **expression queue** (`CellQueue`, `PragmaTree`, `PragmaForms`, `PragmaTrip`,
  `PragmaWalk`, `ExtractHeap`, `PragmaHeap`, `PragmaRun`), **line continuation** (`Continuation`,
  `ContinuationProofs`, `ContinuationLayout`, `ContinuationFile`, `ContinuationRun`; sections 3.3.1 and
  3.3.2 of ISO/IEC 1539-1:2004), **cell allocator** (`CellPool`), **string table** (`StrObj`), **entity
  references** (`Entities`), **type names** (`Mangle`), **template contexts** (`Context`).

A round trip does not say what is read or written in between. For what users write by hand, layouts
(`DirectiveLayout`, `XmlLayout`, `ContinuationLayout`) are syntax trees of texts with all their blanks,
quotes, markers and comments, and the readers are proved against them; the other forms (`BlockMeaning`,
`ContainsForms`, `PragmaForms`, `PatternMeaning` and lemmas beside the functions) are stated with the very
names and characters of the source.

An `exit(1)` or a failing `assert` of the C code is a failure result, or a precondition where the
caller has to see to it. Characters stand for bytes; those from 128 on are negative as signed `char`,
which matters wherever the code compares with a blank.

Where the code does less than its purpose suggests, the exact extent is proved:

- Ignored element kinds are left out when children are counted but not when they are numbered
  (`PatternIntent.IgnoredKindsExact`; an input in `IgnoredAheadRejected`).
- `strX2G` sizes its buffer one too short for every bare ampersand (`LangStr.CountX`; `BareAmpersand`).
- Text of bytes from 128 on before the closing tag of a childless element passes for blank and is not
  printed (`XmlText.CanonExact`; `HighByteLost`).
- A split directive line whose last piece has no code, or whose code ends in an ampersand, is taken to be
  continued (`ContinuationProofs.LineJoined`; `BlankTail`).
- `XmlEntity2Str` decodes `&amp;` first, so text that spells out another reference is changed
  (`Entities.RoundTripExact`; `AmpFirstLosesText`).
- A mangling ends a function's arguments nowhere. It stands for one type just if, in a function below the
  modifiers, pointers and arrays, every component (the result, then the arguments) before the last is
  function-free, and no function inside the last component has arguments (`Mangle.FaithfulExact`;
  `NestedFunctionsCollide`, `FunctionResultsCollide`). It starts no other mangling just if the type is
  function-free (`Mangle.PrefixFreeExact`).
- A context update with several positions is right only for adjacent ones (`Context.UpdateExact`;
  `CancelExamples`).
- A text is parsed as a directive just if it is the text of a legal layout (`DirectiveLayout.ParseExact`).
  A call whose last argument is the first half of a pair is legal too, and loses that half
  (`PragmaForms.HalfLost`).
- Text with entity references is decoded just if every ampersand starts one of the five references
  (`XmlLayout.DecodeExact`).
- A program with contains statements comes back from splitting and joining just if every unit is tidy
  (`ContainsExact.ProgramExact`).

## Model

| member | source | states |
|---|---|---|
| `PatternWriter.CountSibling` | tools/xevtgen_write_template.c:1022-1037 | the number of sibling patterns of kinds that are not ignored, or minus one minus that number when the last one is a list variable |
| `PatternWriter.Writer.WriteHead` | tools/xevtgen_write_template.c:1190-1303 | the loops over attributes and ignored names emit the name test, one test per attribute that counts, the attribute count and the child count, in that order |
| `PatternWriter.Writer.WriteMatchPattern` | tools/xevtgen_write_template.c:1045-1316 | fails exactly when a list variable is not last; otherwise the emitted predicates and registered paths are those of the compilation functions |
| `PatternWriter.Writer.WriteTest` | tools/xevtgen_write_template.c:1045-1316 | in every document and at every node, all emitted predicates hold exactly when the structural matcher accepts the node `cnt - 1` places further on |
| `PatternProofs.CompileCorrect` | tools/xevtgen_write_template.c:966-1316 | the same at any depth of the pattern, for any stack of positions that leads from the context node to the siblings at hand |
| `PatternProofs.MatchPatternCorrect` | tools/xevtgen_write_template.c:1045-1316 | all predicates of a pattern hold at a node if and only if names, attribute sets, child counts and all descendants match recursively |
| `PatternProofs.CountingArgument` | tools/xevtgen_write_template.c:1203-1262 | once every wanted attribute is there, equal counts of non-ignored attributes mean that there is no other one, and conversely |
| `PatternProofs.StackPathTarget` | tools/xevtgen_write_template.c:966-1019 | the path printed for a stack of positions selects just the sibling that the positions describe, or nothing if it does not exist |
| `PatternProofs.RegistersBindings` | tools/xevtgen_write_template.c:485-507 | entry by entry, each registered path selects what the structural matcher binds: one subtree, one attribute, or all siblings from a position on |
| `PatternProofs.VariablesCorrect` | tools/xevtgen_write_template.c:485-507 | whenever the test holds, the path kept for a variable selects what its first occurrence binds, and exactly the variables of the pattern have a path |
| `PatternMeaning.VariableValueOpen` | tools/xevtgen_write_template.c:1204-1226 | where the pattern has a declared variable for an attribute of a variable kind, the verdict of the test does not depend on the element's value there |
| `PatternMeaning.IntegerTextOpen` | tools/xevtgen_write_template.c:1209-1210 | nor does it depend on the `string` of an `SgIntVal` whose `value` is a declared variable |
| `PatternMeaning.OtherValuesOwn` | tools/xevtgen_write_template.c:1227-1239 | any other attribute of the pattern that is not ignored is in every accepted element with the pattern's own value |
| `PatternMeaning.SameAttributes` | tools/xevtgen_write_template.c:1244-1263 | an accepted element has attributes of just the pattern's names, up to ignored ones |
| `PatternMeaning.IgnoredInElement` | tools/xevtgen_write_template.c:1250-1261 | an ignored attribute of the element does not change the verdict |
| `PatternMeaning.IgnoredInPattern` | tools/xevtgen_write_template.c:1207-1221 | an ignored attribute of the pattern does not either, other than the value of an integer |
| `PatternMeaning.RestTaken` | tools/xevtgen_write_template.c:1265-1303 | one more child of a kind that is not ignored is accepted if and only if the last child of the pattern is a list variable |
| `PatternMeaning.InFullAccepted` | tools/xevtgen_write_template.c:1022-1037 | every element is accepted by the pattern that spells it out in full, ignored children and attributes included |
| `PatternMeaning.PathsExact` | tools/xevtgen_write_template.c:1070-1131 | a variable has a path if and only if an attribute of the variable's own kind, or a node, stands for it somewhere in the pattern |
| `PatternMeaning.AttrVariableBound` | tools/xevtgen_write_template.c:1120-1131 | in every accepted element the path of a variable selects the attribute that first stands for it |
| `PatternMeaning.NodeVariableBound` | tools/xevtgen_write_template.c:1105-1131 | the path of a node variable selects its node, that of a list variable this node and all behind it |
| `PatternIntent.IgnoredKindsExact` | tools/xevtgen_write_template.c:859-869 | positional tests agree with the reading that leaves ignored children out, for all patterns, if and only if in the element ignored children come last throughout |
| `PatternIntent.IgnoredAheadRejected` | tools/xevtgen_write_template.c:859-869 | with an ignored child ahead, the pattern that spells the element out describes it and is rejected by the test |
| `XmlHeap.Relink` | tools/xevutil_xml.c:910-978 | setting one next link replaces exactly what followed that sibling and leaves the rest of the structure as it was |
| `XmlHeap.XmlAppend` | tools/xevutil_xml.c:452-463 | the structure becomes the concatenation of the two sibling lists |
| `XmlHeap.XmlAppendChild` | tools/xevutil_xml.c:465-474 | the children become the old children followed by the new ones; the siblings stay |
| `XmlHeap.XmlInsertChild` | tools/xevutil_xml.c:489-502 | the new siblings come ahead of the old children |
| `XmlHeap.XmlInsertNext` | tools/xevutil_xml.c:504-515 | the new siblings come between the cell and what followed it |
| `ConstrBlock.DetachClause` | tools/xev_constr_block.c:34-58 | takes just the first clause of the name out of the clause list |
| `ConstrBlock.FindEnd` | tools/xev_constr_block.c:82-101 | splits the siblings at the end directive that closes the innermost open block, having built every block met on the way; fails only where some begin directive is not closed |
| `ConstrBlock.MakePair` | tools/xev_constr_block.c:131-174 | grows the block at the cell group by group, in place, to what the stack parser builds from the same siblings, and terminates although the list it searches shrinks under it |
| `ConstrBlock.XevConstrBlock` | tools/xev_constr_block.c:176-185 | every block below and behind the cell is built as the stack parser builds it |
| `ConstrBlock.ConstrBlocks` | tools/xev_constr_block.c:131-185 | the re-entrant construction succeeds exactly when the one-pass stack parser does and leaves the very trees that the parser computes |
| `BlockContent.NormCloses` | tools/xev_constr_block.c:82-101 | construction fails exactly when, reading the siblings once with a depth counter, some begin directive is left without an end, here or among any children |
| `BlockContent.NormText` | tools/xev_constr_block.c:131-174 | all statements and all clauses other than begin and end stay, in document order |
| `BlockFlat.NormFlat` | tools/xev_destr_block.c:51-90 | constructing what destruction wrote gives every structured forest back whose clause lists hold no begin or end |
| `BlockFlat.FlatNorm` | tools/xev_constr_block.c:131-185 | destroying what construction built gives every balanced flat forest back whose begin clauses come last and whose end clauses come second (or last, for line directives) |
| `BlockMeaning.FlatMatched` | tools/xev_destr_block.c:25-90 | all that destruction writes is balanced: the end clause is at index 1 of a pragma's list and last in a line directive's, the begin clause is last of all, and no other clause has these names |
| `BlockMeaning.BlockWritten` | tools/xev_destr_block.c:51-90 | a block of one group is written as its directive with a begin clause added at the end, its statements, and a bare directive over the second list with an end clause in its place |
| `BlockMeaning.BlockBuilt` | tools/xev_constr_block.c:131-174 | two directives of either kind, with a begin and an end clause anywhere in their lists, become one block over what is between them, without these clauses |
| `BlockMeaning.StrayEnd` | tools/xev_constr_block.c:176-185 | an end directive without a begin stays as it is |
| `BlockMeaning.StrayBegin` | tools/xev_constr_block.c:82-86 | a begin directive without an end cannot be built from |
| `BlockMeaning.BuiltBlock` | tools/xev_constr_block.c:10-31 | a block with its target is not opened again |
| `DestrBlock.InsertBegin` | tools/xev_destr_block.c:25-34 | the clause list gets a begin clause, written out, at its end and nothing else changes |
| `DestrBlock.InsertEnd` | tools/xev_destr_block.c:36-48 | the clause list gets an end clause, written out: behind the first clause in a pragma, at the end in a line directive |
| `DestrBlock.MoveGroups` | tools/xev_destr_block.c:67-83 | the loop over targets puts the statements of each group and its end directive behind the block, in order |
| `DestrBlock.XevDestrBlock` | tools/xev_destr_block.c:51-90 | the relinked cells hold the flattening of the structured trees, and the first cell stays the first |
| `BlockRun.DestrConstr` | tools/xev_destr_block.c:51-90 | destroying and then constructing, in place, succeeds and leaves the very trees, for every structured forest without begin or end clauses |
| `BlockRun.ConstrDestr` | tools/xev_constr_block.c:131-185 | constructing and then destroying, in place, succeeds and leaves the very trees, for every balanced flat forest |
| `LineHeap.XevConstrLine` | tools/xev_constr_line.c:27-49 | in place, everything behind a line directive becomes its target, and so on inside |
| `LineHeap.XevDestrLine` | tools/xev_destr_line.c:30-53 | in place, the statements of a target go back behind their directive |
| `Lines.DestrConstr` | tools/xev_constr_line.c:27-49 | scattering undoes gathering wherever no line directive has a target yet, and after gathering every line directive is the last of its siblings |
| `Lines.ConstrDestr` | tools/xev_destr_line.c:30-53 | gathering undoes scattering wherever every line directive holds all that follows it |
| `Lines.GatheredForm` | tools/xev_constr_line.c:8-41 | whatever follows a pragma without begin and end becomes its target |
| `Lines.ScatteredForm` | tools/xev_destr_line.c:8-46 | the children of such a pragma's target follow it, and it keeps its clause list only |
| `Lines.OtherForm` | tools/xev_constr_line.c:8-25 | line directives of other kinds and pragmas with a begin or an end stay with what follows them |
| `ContainsHeap.Contplus` | tools/xevparse_contplus.c:8-46 | in place, the children are split at the first contains statement; fails exactly when they start with it |
| `ContainsHeap.Contminus` | tools/xevparse_contminus.c:8-36 | in place, head and tail are joined, with a contains statement between them unless the tail is empty; fails when the head is empty |
| `ContainsWalk.Walk` | tools/xevparse_contplus.c:48-74 | in place, all units are split or joined from the outside in; fails where the element that should hold a unit's statements is missing or cannot be split or joined |
| `Contains.UnitExact` | tools/xevparse_contplus.c:8-46 | joining undoes splitting for a unit if and only if its head is not empty and a contains statement, if any, is bare and has a tail |
| `ContainsForms.SplitForm` | tools/xevparse_contplus.c:8-46 | what is ahead of the first contains statement goes into `contains_head`, what is behind it into `contains_tail`, both below one `contains_body` |
| `ContainsForms.JoinForm` | tools/xevparse_contminus.c:8-36 | the children of the first two grandchildren are joined, whatever these are named, with a bare contains statement between them unless there are no second ones |
| `ContainsForms.ProgramForm` | tools/xevparse_contplus.c:51-55 | a program holds its statements in the basic block first below its second child |
| `ContainsForms.ProcedureForm` | tools/xevparse_contplus.c:57-61 | a procedure holds them in the basic block first below its third child |
| `ContainsForms.ModuleForm` | tools/xevparse_contplus.c:63-67 | a module holds them in the class definition that is its first child |
| `Contains.RejoinedAt` | tools/xevparse_contminus.c:38-64 | along the way from a unit to its statements, joining after the inner work gives what the inner work gives on the unsplit unit |
| `Contains.ProgramRejoined` | tools/xevparse_contminus.c:38-64 | splitting all units of a program from the outside in and joining them the same way gives the program back |
| `ContainsExact.ProgramExact` | tools/xevparse_contplus.c:48-74 | where no unit lies on another one's way to its statements, a program comes back from splitting and joining if and only if every unit has its statements where they belong and is tidy |
| `XmlFile.Reader.LoadUntil` | tools/xevutil_xml.c:1034-1058 | reads up to the first stop character, adding what it passes to the buffer |
| `XmlFile.Reader.CopyBufXml` | tools/xevutil_xml.c:1001-1032 | the buffer's text with its entity references decoded; nothing when a bare ampersand overruns the decoder's buffer |
| `XmlFile.Reader.LoadXmlString` | tools/xevutil_xml.c:1060-1094 | an attribute value between two equal quotes, decoded |
| `XmlFile.Reader.GetXml` | tools/xevutil_xml.c:1098-1311 | one element with all its content, the position and the buffer left behind being those of the grammar function |
| `XmlFile.Reader.ReadXml` | tools/xevutil_xml.c:1313-1334 | the whole input as the grammar function reads it |
| `XmlFile.Printer.FprintXml` | tools/xevutil_xml.c:1350-1421 | appends exactly the text of the trees to the output |
| `XmlText.CopyEscaped` | tools/xevutil_xml.c:1001-1032 | text escaped by the printer is decoded to itself by the reader's buffer |
| `XmlText.ReadPrinted` | tools/xevutil_xml.c:1313-1421 | reading what was printed gives the canonical form of any forest with legal names, and the very forest if and only if it is in normal form |
| `XmlText.CanonExact` | tools/xevutil_xml.c:1387-1405 | canonical form changes nothing exactly when text before elements is present and text before a closing tag is absent just where an element is childless and that text blank |
| `XmlText.HighByteLost` | tools/xevutil_xml.c:1387-1405 | an element with a byte of 128 before its closing tag comes back without that text |
| `XmlLayout.DecodeExact` | tools/xevutil_xml.c:1001-1032 | the buffer's text is decoded reference by reference and keeps everything else, raw quotes of both kinds included, if every ampersand starts a reference; otherwise there is no result |
| `XmlLayout.PlainKept` | tools/xevutil_xml.c:1001-1032 | text without ampersands is what it is |
| `XmlLayout.ValueLoaded` | tools/xevutil_xml.c:1060-1094 | a value between two quotes of either kind, spaces ahead, is read up to its closing quote and decoded |
| `XmlLayout.ValueMissing` | tools/xevutil_xml.c:1060-1094 | without an opening quote, or a closing one of the same kind, reading a value fails |
| `XmlLayout.ReadLayout` | tools/xevutil_xml.c:1098-1334 | every text of elements, with any spaces between attributes, either quotes, and closing tags of any name, is read as the elements, attributes and texts that it spells out |
| `XmlLayout.UnclosedRead` | tools/xevutil_xml.c:1255-1300 | an element whose closing tag is missing ends with the input, with the children read so far and no text before a closing tag |
| `XmlLayout.PrintedEmpty` | tools/xevutil_xml.c:1350-1421 | an element without children and with nothing but blanks before its closing tag is printed as a single tag, attributes in double quotes |
| `XmlLayout.PrintedFull` | tools/xevutil_xml.c:1350-1421 | content is printed between two tags, the text before the closing tag last |
| `LangStr.StrF2G` | tools/xevutil_langstr.c:16-54 | two passes, one to size and one to fill the buffer, compute the text of a quoted string; the buffer fits exactly |
| `LangStr.StrG2F` | tools/xevutil_langstr.c:56-92 | two passes compute the quoted string; the buffer fits exactly |
| `LangStr.F2GofG2F` | tools/xevutil_langstr.c:16-92 | decoding undoes encoding for either quote, whatever follows the closing quote |
| `LangStr.G2FofF2G` | tools/xevutil_langstr.c:16-92 | encoding undoes decoding: it restores the literal up to its closing quote |
| `LangStr.EndstrF` | tools/xevutil_langstr.c:94-110 | the position of the closing quote, doubled quotes skipped |
| `LangStr.EndOfG2F` | tools/xevutil_langstr.c:94-110 | on an encoded text followed by anything but that quote, the closing quote found is the last character of the encoding |
| `LangStr.StrchrF` | tools/xevutil_langstr.c:112-130 | the first occurrence at which no string is open, strings being opened and closed quote by quote |
| `LangStr.InsideString` | tools/xevutil_langstr.c:94-110 | skipping doubled quotes in pairs sees no character outside a string that opening and closing at every quote would not |
| `LangStr.StrX2G` | tools/xevutil_langstr.c:306-364 | decodes an XML string if it has no bare ampersand; otherwise the buffer sized by the first pass is too short |
| `LangStr.CountX` | tools/xevutil_langstr.c:315-336 | the size found by the first pass is short by one for every bare ampersand |
| `LangStr.BareAmpersand` | tools/xevutil_langstr.c:315-336 | the string of one ampersand has a value and a buffer that is one place short |
| `LangStr.StrG2X` | tools/xevutil_langstr.c:366-420 | two passes compute the escaped string; the buffer fits exactly |
| `LangStr.X2GofG2X` | tools/xevutil_langstr.c:306-420 | decoding undoes encoding for every text and either quote |
| `LangStr.LooseEscaped` | tools/xevutil_langstr.c:306-420 | encoded text has no bare ampersand, so decoding it never overruns |
| `LangStr.Escaped` | tools/xevutil_langstr.c:366-420 | text is escaped character by character, five characters as references |
| `DirectivePrinter.Unparser.PutArgs` | tools/xevunparse_x.c:12-124 | along the cells, prints terms with commas between them; the cells of each code expression are cut off and queued under the next number |
| `DirectivePrinter.Unparser.XevUnparsePragma` | tools/xevunparse_x.c:126-163 | the text of the clauses, the queue being longer by exactly their code expressions in printed order |
| `DirectiveReader.Attach` | tools/xevparse_x.c:133-152 | a term is appended below its parent, together with a first half as a pair |
| `DirectiveReader.Parser.ParseArgs` | tools/xevparse_x.c:89-176 | the cells of the arguments, pairs among them, below their parent, taken from text and queue as the grammar function takes them, with the same failures |
| `DirectiveReader.Parser.XevParsePragma` | tools/xevparse_x.c:187-311 | the linked cells of all clauses up to the end or a comment, as the grammar function reads them; the cells of code expressions come from the queue |
| `DirectiveProofs.ParseUnparse` | tools/xevunparse_x.c:126-163 | parsing the printed text of any clause list of the grammar, from any starting number, gives the clauses back and takes exactly their expressions from the queue |
| `DirectiveProofs.TermParsed` | tools/xevparse_x.c:13-185 | a printed term, with any nesting of calls, is read back whatever may follow an argument |
| `DirectiveLayout.ParseExact` | tools/xevparse_x.c:13-311 | a text is parsed as given clauses, with given expressions left in the queue, if and only if it is the text of a legal layout of these clauses whose code terms hold the expressions taken |
| `DirectiveLayout.LayoutRead` | tools/xevparse_x.c:187-311 | every legal layout is read: blanks around arguments and separators, either quotes, braces for begin and end, an ampersand ahead of a clause, a comment at the end |
| `DirectiveLayout.StringRead` | tools/xevparse_x.c:36-55 | a string in either quotes, doubled inside, is read whatever follows its closing quote |
| `PragmaForms.HalfLost` | tools/xevparse_x.c:99-133 | in a call, a first half is lost where the parenthesis closes right behind its colon |
| `PragmaForms.PrintedClause` | tools/xevunparse_x.c:12-163 | an example in full: pairs with a colon, one blank behind commas, single quotes, expressions by number |
| `DirectiveCount.CountPragma` | tools/xevunparse_pre_f.c:84-107 | the number of expressions counted in a printed directive is the number of its code terms |
| `LayoutCount.LayoutCounted` | tools/xevunparse_pre_f.c:84-107 | in a directive laid out in any legal way, the expressions counted are its code terms, provided that marks and comment hold no quotes |
| `LayoutCount.Unfinished` | tools/xevunparse_pre_f.c:84-107 | counting fails within an expression or a string that is not finished |
| `ExtractHeap.CountExpressions` | tools/xevunparse_pre_f.c:84-107 | counts the back-quoted expressions outside strings; fails where the source aborts |
| `PragmaTree.PragmaOfElem` | tools/xevparse_postf.c:158-193 | directives are represented by elements without loss |
| `PragmaForms.TermForms` | tools/xevparse_x.c:13-185 | the element of every kind of term, written out |
| `PragmaForms.PragmaForm` | tools/xevparse_postf.c:158-193 | a directive is an `xev_pragma` over an `xev_clause_list` of `xev_clause` elements with their names and terms |
| `PragmaForms.UnparsedForm` | tools/xevunparse_pre_f.c:43-56 | a directive gives way to an `SgPragmaDeclaration` whose only child holds its text |
| `PragmaForms.ExtractForm` | tools/xevunparse_pre_f.c:138-157 | the statement that carries an expression along, written out |
| `PragmaForms.CollectedForm` | tools/xevparse_postf.c:65-96 | a statement whose call refers to `xevparse_extract_exp` is taken out whatever else it holds |
| `PragmaForms.ParsedForm` | tools/xevparse_postf.c:158-193 | a declaration whose text starts with a letter, a digit, an underscore or a dot gives way to the directive parsed from it |
| `PragmaHeap.UnparsePragma` | tools/xevunparse_pre_f.c:58-80 | in place, from first child to next sibling, every directive gives way to its text and all code expressions are queued in tree order |
| `ExtractHeap.ExpQueue.Insert` | tools/xevunparse_pre_f.c:126-159 | turning the first links of the queue round and inserting their cells one by one behind the directive leaves them in queue order |
| `ExtractHeap.ExpQueue.PlaceExp` | tools/xevunparse_pre_f.c:122-165 | in place, behind every directive come as many queued expressions as its text asks for, also though the walk goes through what it has inserted; no cell is in program and queue at once |
| `ExtractHeap.Collector.CollectExp` | tools/xevparse_postf.c:65-120 | in place, all expression statements are taken out and the cells of their expressions queued in tree order |
| `PragmaHeap.PragmaParser.GetPragma` | tools/xevparse_postf.c:158-193 | the cells of the directive that a text stands for, with the failures of the grammar function |
| `PragmaHeap.PragmaParser.ParsePragmas` | tools/xevparse_postf.c:195-223 | in place, every directive text gives way to its directive, expressions being taken from the queue in tree order, also though the walk goes on inside what it has made |
| `PragmaRun.UnparseF` | tools/xevunparse_pre_f.c:168-191 | printing and placing with one queue, in place |
| `PragmaRun.PostparseF` | tools/xevparse_postf.c:264-303 | collecting and parsing with one queue, in place |
| `PragmaRun.Ready` | tools/xevparse_postf.c:62-223 | for every program of the grammar, what each walk demands of program and queue holds where the walk before has left off |
| `PragmaRun.Run` | tools/xevunparse_pre_f.c:168-191 | the four walks one after the other succeed and leave the cell with the very trees it had |
| `PragmaTrip.PlaceCollect` | tools/xevparse_postf.c:62-120 | collecting after placing gives the printed tree and the queue back, expression for expression |
| `PragmaTrip.RoundTrip` | tools/xevunparse_pre_f.c:24-165 | printing all directives, placing, collecting and parsing gives every program of the grammar back, each code term with its own expression, both queues ending empty |
| `PragmaWalk.QuietParse` | tools/xevparse_x.c:187-311 | every expression in a parsed directive comes from the queue |
| `ContinuationRun.DistributeLine` | tools/xevutil_continu.c:497-554 | the lines a free-form line is written as; the loop makes progress because the directive word is shorter than its buffer |
| `ContinuationRun.DistributeFixed` | tools/xevutil_continu.c:436-492 | the same for fixed form |
| `ContinuationRun.ScanCode` | tools/xevutil_continu.c:240-291 | finding a comment by skipping whole strings, also when starting inside one, is reading on with the open quote as state |
| `ContinuationRun.Joiner.ConcatLine` | tools/xevutil_continu.c:226-389 | one input line changes the joined line, the pending comments and lines, the open quote and the output as the transition function says |
| `ContinuationRun.Concat` | tools/xevutil_continu.c:68-421 | the output for a whole file |
| `ContinuationProofs.MoreJoined` | tools/xevutil_continu.c:543-551 | wherever a split falls, in a string or between two doubled quotes, the text of the continuation lines is joined to what was split |
| `ContinuationProofs.LineJoined` | tools/xevutil_continu.c:497-554 | a directive line with closed strings is restored with a clean state if and only if its last written line holds code that does not end in an ampersand |
| `ContinuationProofs.BlankTail` | tools/xevutil_continu.c:497-554 | a short directive with 130 blanks or more behind it is split and then left to be continued |
| `ContinuationLayout.DirectiveJoined` | tools/xevutil_continu.c:226-389 | a directive continued by hand, its lines indented, with or without an ampersand ahead of their text and with comments behind the marker, comes out as its first comment, one line with the text of all pieces, and the other comments |
| `ContinuationLayout.GoingLine` | tools/xevutil_continu.c:226-389 | a line that goes on adds its text, behind one blank if no ampersand is ahead of it, and leaves the string open that its text leaves open |
| `ContinuationLayout.UnmarkedInString` | tools/xevutil_continu.c:242-264 | inside a string, a line without an ampersand is scanned from behind its exclamation mark, so that quotes in its word count |
| `ContinuationLayout.OtherLine` | tools/xevutil_continu.c:226-361 | a line that is no directive is kept for later and changes nothing else |
| `ContinuationFile.FileRejoined` | tools/xevutil_continu.c:68-557 | splitting all lines of a file and joining them gives the file, other lines passing through in place |
| `ContinuationFile.FreeWidths` | tools/xevutil_continu.c:536-551 | a line is split just if it has more than 132 columns up to a trailing comment; every written line but the last has 132 columns, the last at most that up to the comment, a line is split again only if its text does not fit, and the texts together are the line |
| `ContinuationFile.FixedWidths` | tools/xevutil_continu.c:472-488 | the same for fixed form and 72 columns |
| `ContinuationFile.LineEndExact` | tools/xevutil_continu.c:534-537 | a line ends behind its last character that is neither a newline, a carriage return nor the end |
| `CellPool.Pool.FreeCell` | tools/xevutil_xml.c:66-74 | a live cell becomes the first free one; all others stay as they are |
| `CellPool.Pool.Grow` | tools/xevutil_xml.c:76-93 | a new block of 10240 cells or twice the last block, all of them free in order |
| `CellPool.Pool.GetCell` | tools/xevutil_xml.c:76-100 | never hands out a live cell, adds just the one handed out to the live cells, and grows only when nothing is free |
| `CellPool.ChainAcyclic` | tools/xevutil_xml.c:66-100 | a free list that ends visits no cell twice |
| `CellPool.Pool.XmlgcMark` | tools/xevutil_xml.c:231-264 | flags free cells as free and all others as unmarked |
| `CellPool.Pool.XmlgcCollect` | tools/xevutil_xml.c:266-290 | the free list afterwards holds exactly the cells free before and the unmarked ones, each once; marked cells keep their flags |
| `CellPool.Pool.RunAll` | tools/xevutil_xml.c:66-290 | over any run of getting, freeing, marking, keeping and collecting from a new pool on, the cells in use are just those of the client's own account, with its flags, no two of them the same, and the free list stays proper |
| `CellPool.CollectedExactly` | tools/xevutil_xml.c:231-290 | in the account, after marking, keeping any cells and collecting, the cells in use are just those kept |
| `StrObj.StrobjHash` | tools/xevutil_strobj.c:19-36 | the loop computes the hash, a bucket number below 1024 |
| `StrObj.HashSum` | tools/xevutil_strobj.c:19-36 | keeping the low ten bits at every step gives the sum of the signed characters times 123, 125 and so on, modulo 1024 |
| `StrObj.StringTable.GetStrobj` | tools/xevutil_strobj.c:55-94 | the handle of a string is the one given before if there is one, every earlier handle stays, and all chains end and hold strings of their bucket |
| `StrObj.StringTable.GetAll` | tools/xevutil_strobj.c:55-94 | in any run of requests two handles are the same exactly when the strings are |
| `StrObj.StringTable.Canonical` | tools/xevutil_strobj.c:55-94 | in any state of the table handles are equal exactly when their strings are |
| `Entities.ReplaceAll` | src/xmlutils.cpp:54-64 | the loop that edits the string and searches on behind each replacement replaces every occurrence from the left |
| `Entities.EncodedByCharacter` | src/xmlutils.cpp:85-96 | eight passes in order equal one map over characters |
| `Entities.EncodedCharacter` | src/xmlutils.cpp:85-96 | every character is encoded by itself, eight of them as the references written out |
| `Entities.DecodedEncoding` | src/xmlutils.cpp:85-109 | decoding an encoded text replaces the seven references that the text itself spelled out, and does nothing else |
| `Entities.RoundTripExact` | src/xmlutils.cpp:85-109 | decoding undoes encoding if and only if the text spells out none of the seven references other than `&amp;` |
| `Entities.AmpFirstLosesText` | src/xmlutils.cpp:98-109 | the text `&lt;` does not come back |
| `Mangle.GetMangledTypes` | src/expr.cpp:52-159 | the recursion with its argument loop computes the mangled name, whose letters are those of `BuiltinNames`, `ModifierOrder` and the names in full |
| `Mangle.BuiltinNames` | src/expr.cpp:68-91 | the letter of every builtin type, as in section 5.1.5 of the Itanium C++ ABI where that has one |
| `Mangle.BuiltinsTold` | src/expr.cpp:68-91 | two builtin types share a name, and a normal form, if and only if they are the same or one of four pairs of signed synonyms |
| `Mangle.ModifierOrder` | src/expr.cpp:55-66 | restrict, volatile and const come in this order whatever they modify |
| `Mangle.ProcedureName` | src/expr.cpp:123-134 | an example in full: result first, then the arguments in order, letters of compound types ahead of their base |
| `Mangle.NamedName` | src/expr.cpp:136-152 | a name of its own comes behind its length in decimal |
| `Mangle.FixedNames` | src/expr.cpp:94-113 | imaginary types and the three fixed names |
| `Mangle.MangledNorm` | src/expr.cpp:52-159 | the name depends only on the type up to signed synonyms, dimensions, kind of named type, grouping of modifiers, and string being array of char |
| `Mangle.PrefixFree` | src/expr.cpp:52-159 | for function-free types equal texts, each a mangling and a rest, have equal types and equal rests |
| `Mangle.Faithful` | src/expr.cpp:52-159 | manglings of function-free types are equal if and only if the types are, up to what the name leaves out |
| `Mangle.FaithfulExact` | src/expr.cpp:52-159 | for every type, functions included, no other type has its mangling if and only if it is unambiguous, which is a condition on its shape |
| `Mangle.UnambiguousFaithful` | src/expr.cpp:122-134 | between an unambiguous type and any other type, manglings are equal if and only if the types are, up to what the name leaves out |
| `Mangle.PrefixFreeExact` | src/expr.cpp:52-159 | no mangling properly extends that of a type if and only if the type is function-free |
| `Mangle.OneFunctionFaithful` | src/expr.cpp:122-134 | types with at most one function that is not inside another are told apart |
| `Mangle.NestedFunctionsCollide` | src/expr.cpp:122-134 | two different types with a function among the arguments of a function are both mangled to `FvFic` |
| `Mangle.FunctionResultsCollide` | src/expr.cpp:122-134 | two different types with a function that gives a function back are both mangled to `FFic` |
| `Context.WriteContextTest` | tools/xevtgen_write_template.c:744-781 | emits the conditions one after the other and fails exactly when a context is not defined |
| `Context.TestCorrect` | tools/xevtgen_write_template.c:744-781 | read with the precedence of `and` and `or`, the emitted condition is true exactly when all conditions hold in the context string |
| `Context.TruthExact` | tools/xevtgen_write_template.c:744-781 | `and` asks for all of its conditions, `or` for one, `not` for one that does not hold |
| `Context.NameTruth` | tools/xevtgen_write_template.c:768-777 | a context holds if the character at the position of its latest definition is a `t` |
| `Context.SetContextString` | tools/xevtgen_write_template.c:1905-1933 | marks the template's own context as set and the cancelled ones as cleared, cancelling last |
| `Context.WriteContextParam` | tools/xevtgen_write_template.c:678-724 | one pass over the marks emits the parts of the new context string |
| `Context.UpdateExact` | tools/xevtgen_write_template.c:678-724 | for every context string the emitted expression is the updated string if and only if every update after the first directly follows the one before and sets its context |
| `Context.SingleUpdate` | tools/xevtgen_write_template.c:1905-1914 | without cancelled contexts the expression sets the one position and keeps all others |
| `Context.CancelExamples` | tools/xevtgen_write_template.c:678-724 | cancelling the third of three contexts while setting the first gives a wrong string; cancelling the first while setting the second does not |

## Left out

- Conditions (`condef`), messages, output patterns and the parallel text buffers of the template generator.
- The emitted XPath is kept as syntax, not as text; which names are variables or ignored is configuration and given as a parameter.
- PatternWriter.Writer.WriteMatchPattern: leaves out matching against following siblings (`following_list`), conditions on variables, and the position offset kept with a variable.
- PatternProofs.MatchPatternCorrect: covers distinct attribute names and list variables in last place, which the generator demands.
- Text around elements is not part of the cells in the heap modules; a cell and its node are one object there.
- PragmaTrip.RoundTrip: code expressions hold no directive, directive text or expression statement, and none is in the program beforehand.
- PragmaRun.UnparseF: leaves out the file that the cited function writes afterwards.
- PragmaRun.PostparseF: leaves out preprocessing info, source positions and the file that the cited function writes.
- PragmaRun.Run: between its two halves the tool chain prints the program, reads it with the Fortran front end and rebuilds it; here the second half starts where the first has left off.
- ExtractHeap.Collector.CollectExp: a statement that carries an expression has a list to carry it in, as the source would otherwise follow a null link.
- XmlFile.Reader.GetXml: XML comments, declarations and the end of input inside a tag are failures of the model; the source reads declarations, and its reading of comments and of the end-of-file character is not modelled. Attributes without a value are not modelled.
- XmlFile.Reader.ReadXml: a closing tag at the top of a file is a failure of the model.
- The reader builds values; linking cells is the subject of `XmlHeap`.
- ContainsExact.ProgramExact: trees in which a unit lies on the way from another unit to its statements; in those of the front end there is a definition element.
- ContinuationRun.DistributeLine: splits directive lines only, which is what the tool chain runs it on; all others pass through.
- ContinuationRun.DistributeFixed: fixed-form directive lines have at least six characters, as the code reads from the seventh column on without looking for the end.
- ContinuationRun.Joiner.ConcatLine: joins free-form directive lines only; fixed-form joining depends on configuration.
- ContinuationRun.Concat: joins free-form directive lines only.
- ContinuationProofs.LineJoined: the directive starts within the first 129 columns, and its word is shorter than 100 characters, free of ampersands, and holds neither a comment nor an open string.
- ContinuationFile.FileRejoined: for lines that do not end well only the state behind each line is exact; what a whole file then comes out as depends on the lines that follow.
- ContinuationFile.FixedWidths: fixed-form directive lines have at least six characters.
- Fixed buffer sizes, reading lines of limited length, and overflow of the hash coefficient, which does not change the low ten bits.
- Indentation depth in parsed directives, line numbers in diagnostics.
- `strC2G` and `strG2C`, which do not undo each other.
- The `&` clause of `xev_concat_cont.c`, which the parser never produces.
- Drivers, temporary files, configuration loading, and the ROSE, Xerces and Xalan visitors.
