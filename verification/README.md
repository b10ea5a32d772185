# Verified model of the XML engine and of the Sentinel-1 numeric cores

This project models, in Dafny 4.11, the code behind the Sentinel-1 processors that is hardest to get right by inspection,
and proves what it promises.

* **XML text.** The in-place decoder of character data and attribute values, the tag parser, the iterative printer, the
  chunking writer and its transcoders (`XmlText`, `XmlDecode`, `XmlLines`, `XmlNormalization`, `XmlEscapes`, `XmlPrint`,
  `XmlSections`, `XmlScript`, `XmlSpacing`, `XmlTokens`, `XmlRecords`, `XmlPlan`, `XmlMarkup`, `XmlParser`, `XmlRoundTrip`,
  `XmlLayout`, `BufferedWriter`, `Utf`, `Encodings`). Main results: printing a document of elements, texts, comments, CDATA
  sections, processing instructions and a declaration, and parsing what was printed, gives the document back, through the
  buffered writer and the decoder that works in place, exactly when no character of a text at its end is lost; white space
  between the markup makes no difference to that; and for every input the nodes that the parser makes are in document order.
* **XPath.** A meaning of every expression on sets of nodes, without evaluation order or early exit; the evaluator in all of
  its modes; the optimizer; the function library and what it promises; the walks over the axes on the four link fields of a
  node; document order and its shortcut through buffer addresses; sorting, hashing and duplicate removal; the
  operator-precedence parser and the grammar it parses (`XmlTree`, `Traversal`, `DocumentOrder`, `BufferOrder`, `Sorting`,
  `HashSet`, `XPath*`).
  Main result: running the optimized query, with early exits, answers with the meaning of the query as it was written.
* **Document tree.** The link operations on class instances, guarded moves, insertion and removal (`DomLinks`, `DomTree`,
  `DomKinds`), and the page allocator with its string headers (`Allocator`). Main results: the links are always those of one
  tree whose child lists change by one position, and after every run of requests the accounts of every page are right.
* **Integers.** Parsing that finds overflow although it computes modulo a power of two, printing, and the numerals that are
  read (`Integers`, `Numerals`).
* **Orbit and grid.** Lagrange interpolation over a window of orbit vectors with its cache (`Lagrange`, `Orbit`), and the
  geolocation grid lookup (`GeolocationGrid`). Main results: both are exact on the functions they should be exact on.
* **Backgeocoding.** How tiles are cut, and the nine worker threads with their exception protocol under every interleaving
  (`TileCutting`, `WorkerPool`).

The conventions: a method that changes an array or an object is proved against a function of its old state; the lemmas then
say what the function means. Strings are sequences of bytes (`char_t` is `char`). `Common` holds what several modules share.

Hypotheses that run through several results:

* `Writable` and `PlanFits` (round trip): names are legal, and that of a declaration is xml; only elements have children,
  and declarations are at the top; texts are not only white space and not next to each other; no carriage return in a text,
  comment or section, no NUL anywhere, no end mark inside what is written as it is, no white space in front of the value of a
  processing instruction. The printer escapes; the parser keeps the kinds that the document has, accepts fragments if there is
  text at the top, expands references, normalizes line ends and does not trim, embed or collapse text. The text of a
  document does not begin with U+FEFF, unless a byte order mark stands in front of it. White space that is added stands
  between markup, not next to a text, and where the options make the parser drop it (`XmlPlan.Drops`).
* `DistinctAttributes` (evaluator): no element has two attributes of one name, as section 3.1 of XML 1.0 demands; the parser does
  not check it. It is exactly what the evaluator needs when a name test stops at the first attribute
  (`XPathEval.StopsAtOnlyAttribute`). The optimizer needs only `AgreeingAttributes`: that such attributes have one value
  (`XPathOptimize.OptimizeSoundExactly`).
* `WellFormed` (evaluator and optimizer): the operand types that the expression parser checks; string constants without NUL.
* `Separate` and `Allowed` (writer): every piece that is written is well-formed UTF-8, unless the output is UTF-8 itself.

Where the code and the standards part:

* `<`, `<=`, `>` and `>=` between a boolean and a node set compare the boolean's number with the number of each node; section
  3.4 of XPath 1.0 converts the node set to a boolean. `XPathConformance.ComparisonsAgree` says that this is the only such case.
* With normalization of attribute values, white space from a reference is not trimmed or collapsed, as section 3.3.3 of XML 1.0
  asks, and white space at the end is trimmed even when it is a tab or a line end from a reference;
  `XmlNormalization.NormalizationAgrees` says exactly which values are normalized as there.
* A text with a carriage return does not survive printing and parsing in character data (`XmlEscapes.PcdataRoundTrip`).
* The list of exceptions of the backgeocoding controller is not cleared between runs, so that a second run that fails throws
  the first exception of an earlier one (`WorkerPool.LeftoverIsThrown`).
* More than 4000000 lines in a burst make the tile width zero and the cutting loop endless, if there is a burst and a sample
  (`TileCutting.CutEnds`).
* A text at the end of a document loses its last character, for which the terminator takes the place, when the buffer has no
  zero behind it (`XmlRoundTrip.SaveAndLoad`).
* When declarations and processing instructions are kept, `<?xml ><?p ?> ?>a='1'/><r/>` gives a declaration that is still
  open when the next node is made, and then one more attribute. Its name stands behind that node's, so that the comparison of nodes by buffer addresses puts it
  behind the node, and document order in front of it. `XmlRoundTrip.Parse` finds out whether that has happened, and
  `BufferOrder.ShortcutIsRight` says that nothing else puts the two orders apart.
* A slant range time equal to the last one of the first grid line has no cell, and the code then reads before the first column
  (`GeolocationGrid.ComputeIndex` answers `None`).

`dafny verify dfyconfig.toml` checks the whole project.

## Model

| member | source | states |
|---|---|---|
| XPathOptimize.OptimizeSound | external/pugixml/pugixml.cpp:10931-11055 | for every well-formed expression and context, the optimized expression has the meaning of the original one: the position predicates, the classified predicates, the collapsed `//`, the translation table and the attribute lookup change nothing |
| XPathOptimize.OptimizeSoundExactly | external/pugixml/pugixml.cpp:10998-11008 | the optimizer keeps the meaning of every expression in every context of a document exactly when attributes of one name at one element have one value |
| XPathOptimize.SelectNodes | external/pugixml/pugixml.cpp:12696-12716 | optimizing and then evaluating in any mode answers with the order-free meaning of the query: all nodes, emptiness exactly, or at least the first node |
| XPathOptimize.SelectNode | external/pugixml/pugixml.cpp:12718-12738 | evaluating for the first node gives the node of the full result that is first in document order, or none when that is empty |
| XPathOptimize.EvaluateBoolean | external/pugixml/pugixml.cpp:12601-12620 | the boolean of the optimized query is that of the query's meaning; what the meanings of the boolean functions promise is said by the laws below |
| XPathOptimize.EvaluateNumber | external/pugixml/pugixml.cpp:12622-12641 | the number of the optimized query is that of the query's meaning |
| XPathOptimize.EvaluateString | external/pugixml/pugixml.cpp:12644-12663 | the string of the optimized query is that of the query's meaning |
| XPathOptimize.MergedUnion | external/pugixml/pugixml.cpp:10973-10983 | `descendant-or-self::node()` followed by a position-invariant step selects the nodes of the one collapsed step |
| XPathOptimize.TableTranslates | external/pugixml/pugixml.cpp:8503-8563 | translation by the table of 128 codes is `translate()` with the two constant strings |
| XPathOptimize.AttributeComparison | external/pugixml/pugixml.cpp:10998-11008 | `@name = 'value'` holds exactly when the first attribute of that name has the value |
| XPathEval.EvalNodeSet | external/pugixml/pugixml.cpp:10804-10929 | in every evaluation mode and through filters, unions and steps, the list answers for the meaning's set of nodes, and its recorded order is true |
| XPathEval.StepDo | external/pugixml/pugixml.cpp:10152-10197 | a step over all start nodes, with early exit and with duplicate removal only where it is needed, answers for the union of the nodes that each start selects |
| XPathEval.StopsAtOnlyAttribute | external/pugixml/pugixml.cpp:10152-10160 | stopping at the first attribute of a name loses nothing, for every name and node, exactly when no element has two attributes of one name |
| XPathEval.ApplyPredicates | external/pugixml/pugixml.cpp:9742-9750 | filtering by the predicates one after the other leaves what each keeps with its own positions and size; stopping after the first hit of the last one leaves its first element |
| XPathEval.ApplyPredicateBoolean | external/pugixml/pugixml.cpp:9648-9672 | a boolean predicate keeps, in place and in order, the nodes for which it holds at their position |
| XPathEval.ApplyPredicateNumber | external/pugixml/pugixml.cpp:9674-9698 | a numeric predicate keeps the nodes whose position is its value there |
| XPathEval.ApplyPredicateNumberConst | external/pugixml/pugixml.cpp:9700-9726 | a constant numeric predicate keeps the one node at that position, as evaluating it at every position would |
| XPathEval.CompareEq | external/pugixml/pugixml.cpp:9484-9570 | the loops of = and != decide the existential comparison of the two meanings |
| XPathEval.CompareRel | external/pugixml/pugixml.cpp:9577-9646 | the loops of the relational operators decide whether two of the operands' numbers compare |
| XPathEval.EvalBoolean | external/pugixml/pugixml.cpp:10249-10384 | the boolean of an expression, with short circuits, emptiness tests, `lang()`, `starts-with()` and `contains()`, is the conversion of its meaning |
| XPathEval.EvalNumber | external/pugixml/pugixml.cpp:10386-10520 | the number of an expression, `count()`, `sum()`, `floor()`, `ceiling()`, `round()` and `string-length()` included, is the conversion of its meaning, for every arithmetic |
| XPathEval.EvalString | external/pugixml/pugixml.cpp:10564-10802 | the string of an expression is the conversion of its meaning, with the functions on strings, names and namespaces; that of a node set is the first node's |
| XPathEvaluated.EvaluateNot | external/pugixml/pugixml.cpp:12601-12620 | a query and `not()` of it are evaluated to opposite booleans |
| XPathLaws.NotNegates | external/pugixml/pugixml.cpp:10300-10307 | for every expression and context, `not()` of it means the negation of its boolean |
| XPathLaws.Connectives | external/pugixml/pugixml.cpp:10253-10257 | `or` and `and` by their laws, and that `not()` of the one is the other of `not()` |
| XPathLaws.BooleanOf | external/pugixml/pugixml.cpp:10356-10382 | `boolean()` is false exactly of zero and not-a-number, of the empty string and of the empty node set |
| XPathLaws.NumberOf | external/pugixml/pugixml.cpp:10445-10446 | `number()` is one or zero for booleans, and reads the string of a string or of a node set |
| XPathLaws.Integral | external/pugixml/pugixml.cpp:10466-10485 | `floor()` is the greatest integer that is not greater, `ceiling()` the least that is not less, and `round()` the nearest, the greater one of two |
| XPathLaws.NumbersCompare | external/pugixml/pugixml.cpp:7315-7346 | numbers compare like reals between the two infinities, and not-a-number is only different from every number |
| XPathLaws.StringOf | external/pugixml/pugixml.cpp:10622-10626 | `string()` is true or false for booleans, empty for no nodes, and otherwise the string of the node that precedes all others |
| XPathLaws.StartsAndContains | external/pugixml/pugixml.cpp:10277-10295 | `starts-with()` and `contains()` hold exactly if the text is the pattern with something behind it, and in front of it |
| XPathLaws.BeforeAndAfter | external/pugixml/pugixml.cpp:10631-10661 | if the pattern occurs, the text is `substring-before()`, the pattern and `substring-after()`, at its first occurrence; otherwise both are empty |
| XPathLaws.Concatenated | external/pugixml/pugixml.cpp:10522-10562 | `concat()` is the first string and what `concat()` of the others gives |
| XPathLaws.Lengths | external/pugixml/pugixml.cpp:10424-10436 | `string-length()` is the number of characters |
| XPathLaws.SubstringFinite | external/pugixml/pugixml.cpp:10663-10711 | `substring()` of finite numbers is a slice between the rounded position and the sum of the rounded numbers |
| XPathLaws.SubstringNothing | external/pugixml/pugixml.cpp:10663-10711 | what `substring()` gives for not-a-number and the infinities |
| XPathLaws.Normalized | external/pugixml/pugixml.cpp:8453-8479 | `normalize-space()` is the words of the text with one space between them |
| XPathNodeLaws.AxesAre | external/pugixml/pugixml.cpp:9867-10058 | each axis by parents and document order alone: ancestors are parents of parents, siblings have one parent, following nodes come later and are not below |
| XPathNodeLaws.AttributeAxesAre | external/pugixml/pugixml.cpp:10060-10150 | the axes of an attribute: its parent is its element, what follows its element in the document follows it, and nothing is below it |
| XPathNodeLaws.TestsByKind | external/pugixml/pugixml.cpp:9792-9865 | which kinds of nodes and which names each node test lets through |
| XPathNodeLaws.AttributeTests | external/pugixml/pugixml.cpp:9752-9790 | attributes are let through by name, and declarations of namespaces never |
| XPathNodeLaws.InheritedIs | external/pugixml/pugixml.cpp:8408-8447 | what the climb over the ancestors gives is the value at the nearest node that has such an attribute, and nothing exactly if none has |
| XPathNodeLaws.LocalNames | external/pugixml/pugixml.cpp:8373-8384 | a local name is what comes behind the first colon, or the whole name |
| XPathNodeLaws.NamespaceIs | external/pugixml/pugixml.cpp:8386-8451 | the namespace of a name is the value of the nearest declaration of its prefix; without one, of the default, for elements only |
| XPathNodeLaws.LangIs | external/pugixml/pugixml.cpp:10309-10338 | `lang()` holds exactly if the nearest `xml:lang`, in small letters, is the language or begins with it and a hyphen |
| XPathNodeLaws.StringValueIs | external/pugixml/pugixml.cpp:7897-7950 | the string-value of an element or the document joins the values of the text nodes that are its descendants, in document order |
| XPathNodeLaws.SumLaws | external/pugixml/pugixml.cpp:10448-10464 | the sum of two sets without a common node is that of their sums, and the sum of nothing is zero |
| XPathNodeLaws.TranslateLaws | external/pugixml/pugixml.cpp:8481-8501 | `translate()` works character by character, and the first occurrence in the first string decides |
| XPathNodeLaws.PositionsPick | external/pugixml/pugixml.cpp:9674-9726 | the predicates `[k]` and `[position() = k]` pick the k-th node in the order of the axis, and `[last()]` the last one |
| XPathNodeLaws.WithoutAttribute | external/pugixml/pugixml.cpp:10300-10301 | `not(@name)` is true of a node exactly if none of its attributes has the name |
| XPathEval.CountCovered | external/pugixml/pugixml.cpp:10417-10422 | the length of a list without repeats is the size of the set it stands for |
| XPathEval.SumAnyOrder | external/pugixml/pugixml.cpp:10448-10464 | the numbers of a list of nodes add up to the same sum in every order |
| XPathEval.SumCovered | external/pugixml/pugixml.cpp:10448-10464 | a list without repeats, in whatever order the evaluator left it, adds up to the sum over its set |
| XPathFacts.PositionFree | external/pugixml/pugixml.cpp:11011-11040 | an expression that is classified as position-invariant, and every node set, means the same at every position and size |
| XPathConformance.ComparisonsAgree | external/pugixml/pugixml.cpp:9484-9646 | for operand types and an operator, the evaluator's comparison is that of section 3.4 of XPath 1.0 for all values exactly when the operator is not relational or the types are not one boolean and one node set |
| XPathConformance.EmptySetDiffers | external/pugixml/pugixml.cpp:9607-9622 | in a document without an element of that name, `true() > //none` means false here, and section 3.4 makes its comparison true |
| XPathConformance.MeaningIsStandard | external/pugixml/pugixml.cpp:10255-10275 | every comparison inside an expression without that pair of types means what section 3.4 says |
| XPathTranslate.Translate | external/pugixml/pugixml.cpp:8481-8501 | the translation in place leaves the translated text, terminated, at the start of the buffer |
| XPathTranslate.TranslateTableGenerate | external/pugixml/pugixml.cpp:8503-8533 | the table exists exactly when the first string and the part of the second that it uses fit in 7 bits, and then has for each code its translation, or 128 for dropping it |
| XPathTranslate.TranslateTable | external/pugixml/pugixml.cpp:8535-8563 | the translation in place by the table leaves the text translated by the two strings |
| XPathFunctions.StringValue | external/pugixml/pugixml.cpp:7897-7950 | the walk over the links below a node adds up its string-value: all text below it in document order, or the value of an attribute |
| XPathFunctions.FindInherited | external/pugixml/pugixml.cpp:8408-8447 | the climb over the ancestors finds the value of the nearest attribute of a name |
| XPathFunctions.NameOfNode | external/pugixml/pugixml.cpp:8373-8451 | the local name, the qualified name and the namespace of a node, which the nearest declaration of its prefix above it gives |
| XPathFunctions.Lang | external/pugixml/pugixml.cpp:10305-10330 | a node has a language exactly when the nearest `xml:lang` above it is that language or a variant of it, in any case |
| XPathFunctions.Concat | external/pugixml/pugixml.cpp:10522-10562 | the strings are copied one behind the other into a buffer of the length that was counted before |
| XPathFunctions.SubstringFrom | external/pugixml/pugixml.cpp:10660-10683 | `substring()` with two arguments has the characters at the positions that section 4.2 of XPath 1.0 asks for, whatever the number |
| XPathFunctions.SubstringBetween | external/pugixml/pugixml.cpp:10685-10711 | the same with three arguments, infinities and not-a-number included |
| XPathFunctions.RoundNearest | external/pugixml/pugixml.cpp:8361-8371 | a number is rounded to the nearest integer, up when there are two |
| XPathFunctions.NormalizeInPlace | external/pugixml/pugixml.cpp:8453-8479 | in place, white space at both ends goes and each run in between becomes one space |
| XPathSteps.StepFill | external/pugixml/pugixml.cpp:10060-10150 | a step from a node or from an attribute pushes the selected nodes in the order of the axis, or the first of them |
| XPathNodeSets.ItemIsBefore | external/pugixml/pugixml.cpp:8025-8108 | the comparator orders nodes and attributes by document order: an attribute after its element and before its children, attributes in their own order; the shortcut through buffer addresses, where both have one, does not change that when the addresses follow document order |
| BufferOrder.ShortcutIsRight | external/pugixml/pugixml.cpp:8025-8064 | in a parsed document the buffer addresses follow document order exactly when the nodes and attributes were appended in the order of their strings |
| BufferOrder.ParsedIsBefore | external/pugixml/pugixml.cpp:8056-8108 | so the comparator with the shortcut gives document order on such a document |
| XPathNodeSets.GetOrder | external/pugixml/pugixml.cpp:8753-8767 | a list is reported as sorted, up or down, only if it is |
| XPathNodeSets.XPathSort | external/pugixml/pugixml.cpp:8769-8790 | the same in either direction: what is not sorted is sorted first, and then reversed if it has to be |
| XPathNodeSets.SortDo | external/pugixml/pugixml.cpp:8769-8790 | sorting a node set in document order gives the same nodes in that order, whether it reverses or sorts |
| XPathNodeSets.XPathFirst | external/pugixml/pugixml.cpp:8792-8811 | the first node of a set is the one that precedes all others in document order, whatever the order of the list |
| XPathGrammar.Parse | external/pugixml/pugixml.cpp:11876-11933 | for every token sequence, the result is a tree that the grammar of sections 3.3 to 3.5 of XPath 1.0 derives from OrExpr, each nonterminal with its own operators, and whose in-order tokens are the input; no result means that there is none |
| XPathGrammar.UniqueTree | external/pugixml/pugixml.cpp:11912-11925 | there is at most one tree of the tokens in which a left operand binds at least as tightly and a right operand more tightly than its parent, with unions of node sets only |
| XPathGrammar.DerivedIs | external/pugixml/pugixml.cpp:11858-11865 | a nonterminal derives a tree exactly if the tree keeps those rules of precedence and its root binds at least as tightly as the nonterminal's operators |
| XPathGrammar.OneDerivation | external/pugixml/pugixml.cpp:11912-11925 | no token sequence has two derivations |
| XPathGrammar.Parser.ParseExpressionRec | external/pugixml/pugixml.cpp:11876-11907 | precedence climbing from a left operand reads the longest expression whose operators bind at least as tightly as the limit |
| Traversal.StepFill | external/pugixml/pugixml.cpp:9867-10058 | the walks without a stack push, for every axis and node test, exactly the selected nodes, once each, in the order of the axis, or only the first |
| Traversal.Advance | external/pugixml/pugixml.cpp:9911-9945 | from a node inside a subtree, the climb finds the next node in document order that is not below it, or the end |
| Traversal.FillPreceding | external/pugixml/pugixml.cpp:9977-10032 | the walk backwards skips the ancestors and pushes the preceding nodes in reverse document order |
| Traversal.NodeIsAncestor | external/pugixml/pugixml.cpp:8018-8023 | the climb finds exactly the proper and improper ancestors |
| XmlTree.AxesPartition | external/pugixml/pugixml.cpp:9867-10058 | in the lists that a step over ancestors, descendants, following nodes, preceding nodes and the node itself yields, every node of the document occurs exactly once, section 2.2 of XPath 1.0 |
| XmlTree.ListingExact | external/pugixml/pugixml.cpp:9867-10058 | what a walk yields has every selected node, no other, and is strictly ordered along its axis |
| DocumentOrder.NodeIsBefore | external/pugixml/pugixml.cpp:7975-8016 | for two different nodes at any depths, the comparison by links holds exactly when the first precedes the second in preorder |
| DocumentOrder.NodeIsBeforeSibling | external/pugixml/pugixml.cpp:7951-7973 | of two siblings, the parallel walk finds which one comes first |
| Sorting.Sort | external/pugixml/pugixml.cpp:7457-7485 | under any strict total order the range ends up sorted and a permutation of what it was, the rest is unchanged, and the recursion is at most as deep as the logarithm of the length |
| Sorting.Partition3 | external/pugixml/pugixml.cpp:7430-7455 | the range is split into less, equal and greater elements, also when the equal ones outnumber the lesser ones in the final swap, and at least one element is equal |
| Sorting.InsertionSort | external/pugixml/pugixml.cpp:7396-7416 | a short range ends up sorted and a permutation |
| Sorting.Median3 | external/pugixml/pugixml.cpp:7418-7428 | the index is that of the middle one of three elements |
| HashSet.HashInsert | external/pugixml/pugixml.cpp:7487-7520 | the key is reported as new exactly when it was not in the table, ends up in it, and no other slot changes; with a free slot the probing never fails |
| HashSet.ProbesCover | external/pugixml/pugixml.cpp:7491-7517 | triangular probing in a table whose size is a power of two visits every bucket exactly once |
| HashSet.TableSize | external/pugixml/pugixml.cpp:8905-8908 | the table's size is the least power of two that holds one and a half times the nodes |
| HashSet.RemoveDuplicates | external/pugixml/pugixml.cpp:8897-8933 | what remains, in place, is the first occurrence of every node in the original order |
| HashSet.DedupPositions | external/pugixml/pugixml.cpp:8897-8933 | the deduplicated list consists of the elements at all positions without an earlier equal one, in increasing position |
| XmlDecode.Gap.Push | external/pugixml/pugixml.cpp:2404-2444 | opening a further gap moves the text before it down, so that what has been read so far, without the gaps, is in place |
| XmlDecode.Gap.Flush | external/pugixml/pugixml.cpp:2434-2443 | closing the last gap returns where the collapsed text ends |
| XmlDecode.Escape | external/pugixml/pugixml.cpp:2446-2584 | at an ampersand, the text in place grows by the expansion of a character reference or predefined entity, or the ampersand stays literal; the reading position never falls behind the writing position |
| Numerals.DigitAt | external/pugixml/pugixml.cpp:2464-2500 | every digit, in base 10 and in base 16 in either case, has the value of its place in the table of digits |
| Numerals.SpelledReference | external/pugixml/pugixml.cpp:2446-2520 | a reference to a character by any numeral for it, in either base and case, expands to UTF-8 bytes that decode to the character |
| Numerals.OnlyReferences | external/pugixml/pugixml.cpp:2446-2584 | what is expanded is exactly a reference by number, with digits and a semicolon, or one of the five predefined entities |
| XmlEscapes.EntityDecoded | external/pugixml/pugixml.cpp:2511-2579 | the five entities stand for their characters |
| XmlDecode.ConvertPcdata | external/pugixml/pugixml.cpp:2657-2706 | for every option choice and terminated buffer, the character data up to the next tag is replaced by its decoding, terminated, and nothing else in the buffer changes |
| XmlDecode.ConvertComment | external/pugixml/pugixml.cpp:2599-2625 | a comment's text is replaced by itself with normalized line ends, up to its end mark; none without one |
| XmlDecode.ConvertCdata | external/pugixml/pugixml.cpp:2627-2653 | the same for a CDATA section |
| XmlDecode.AttributeWnorm | external/pugixml/pugixml.cpp:2730-2780 | the value is decoded in place with white space collapsed and trimmed |
| XmlDecode.AttributeWconv | external/pugixml/pugixml.cpp:2782-2816 | the value is decoded in place with every white space character turned into a space |
| XmlDecode.AttributeEol | external/pugixml/pugixml.cpp:2818-2848 | the value is decoded in place with normalized line ends |
| XmlDecode.AttributeSimple | external/pugixml/pugixml.cpp:2850-2874 | the value is decoded in place with white space kept |
| XmlDecode.ConvertAttribute | external/pugixml/pugixml.cpp:2877-2901 | the converter chosen by the options leaves the attribute's value as the options ask |
| XmlLines.DecodedLiteral | external/pugixml/pugixml.cpp:2611-2848 | a text without references is decoded by the passes of section 2.11 of XML 1.0, each carriage return with its line feed and then each other one replaced by a line feed, and, if blanks are asked for, by those of section 3.3.3 behind them |
| XmlLines.DecodedReference | external/pugixml/pugixml.cpp:2657-2848 | the text in front of a reference is decoded so, the reference expands, and decoding goes on behind it |
| XmlText.DecodedShrinks | external/pugixml/pugixml.cpp:2404-2584 | no text decodes to a longer one, so that decoding can be done in place |
| XmlNormalization.NormalizationAgrees | external/pugixml/pugixml.cpp:2730-2780 | for every value, the parser's normalization is that of section 3.3.3 of XML 1.0 (each white space character turned into a space, then trimmed and collapsed) exactly when, up to the white space at the end, no reference to a space comes first or next to another space, and the white space at the end has no reference to a tab or line end |
| XmlNormalization.VisibleReferencesAgree | external/pugixml/pugixml.cpp:2730-2780 | so it is for every value without references to white space |
| XmlNormalization.ReferencedSpaceDiffers | external/pugixml/pugixml.cpp:2730-2780 | `&#32;a` normalizes to a space and a here, and to a alone in that section |
| XmlEscapes.Unescaped | external/pugixml/pugixml.cpp:3906-3956 | decoding what the printer writes for a text gives the text back, for attributes and character data, when the white space treatment leaves its characters alone |
| XmlEscapes.EscapedIsSafe | external/pugixml/pugixml.cpp:3906-3956 | what the printer writes for a text contains no character that would end the text or open a tag |
| XmlEscapes.PcdataRoundTrip | external/pugixml/pugixml.cpp:3906-3956 | character data survives printing and line-end normalization exactly when it has no carriage return |
| XmlEscapes.LastIsNeeded | external/pugixml/pugixml.cpp:3906-3956 | what is written for a text is not read as that text when its last character is missing |
| XmlPrint.TextOutputEscaped | external/pugixml/pugixml.cpp:3906-3956 | the loop over plain runs and special characters writes the text with each special character escaped |
| XmlPrint.TextOutputCdata | external/pugixml/pugixml.cpp:3966-3986 | a text is written as CDATA sections, cut inside every end mark |
| XmlSections.SectionsReadBack | external/pugixml/pugixml.cpp:3966-3986 | what is written for any text as CDATA is what is written for its pieces as one section each, every piece is read back as it is, and together they are the text; there is one exactly when the text has no end mark in it |
| XmlPrint.CommentIsLegal | external/pugixml/pugixml.cpp:4028-4051 | the text of a written comment has no double hyphen and does not end in one |
| XmlPrint.PiIsLegal | external/pugixml/pugixml.cpp:4053-4072 | the value of a written processing instruction does not contain its end mark |
| XmlPrint.NodeOutputSimple | external/pugixml/pugixml.cpp:4174-4228 | a node without children is written as its kind asks |
| XmlPrint.NodeOutput | external/pugixml/pugixml.cpp:4236-4327 | the iterative printer over the links writes the text that the recursive definition on the tree gives |
| XmlParser.Parser.ParseTree | external/pugixml/pugixml.cpp:3242-3478 | on any buffer the parser stays inside it and leaves records that point into it; every node hangs below the node before it or above, so that the list is in document order, and the strings are in the same order exactly when no attribute was appended to a node that was not the newest; it succeeds only if every element has been closed, by its own tag or by an end tag with its name; on a printed document, with white space between its markup or without, it succeeds and the records are the document's nodes |
| XmlParser.Parser.ParseTag | external/pugixml/pugixml.cpp:3254-3415 | on any buffer, a tag closes an element only if it is a start tag that ends it, or an end tag that fits the open one, and the elements that are still open are the cursor and those above it |
| XmlTokens.NameCharacters | external/pugixml/pugixml.cpp:1828-1860 | a name begins with a letter, an underscore, a colon or a byte above 127, and goes on with these, digits, hyphens and periods |
| XmlParser.Parser.ParseAttributes | external/pugixml/pugixml.cpp:3273-3345 | on any buffer it succeeds exactly if attributes and the end of a start tag follow; then their names and decoded values are appended in order, the reading position is behind the tag, and the cursor is the element or, if the tag closed it, its parent |
| XmlParser.Parser.ParseAttribute | external/pugixml/pugixml.cpp:3276-3320 | on any buffer it succeeds exactly if a name, an equals sign and a quoted value follow, with white space between them, and no name right behind; then the attribute has that name and the decoded value, and nothing before it in the buffer changes |
| XmlParser.Parser.ParseElement | external/pugixml/pugixml.cpp:3258-3367 | on any buffer it succeeds exactly if a start tag follows; then there is one element more, below the cursor, with its name and attributes, and it is the cursor unless the tag closed it; on a printed document it is the next node |
| XmlParser.Parser.ParseEndTag | external/pugixml/pugixml.cpp:3368-3400 | on any buffer it succeeds exactly if the name is that of the open element and white space and a bracket follow; then the parent is the cursor and the reading position is behind the bracket |
| XmlParser.Parser.ParseComment | external/pugixml/pugixml.cpp:3044-3077 | a comment up to its end mark becomes the next node if comments are kept, with its line ends normalized in place if they are to be, and nothing else in the buffer changes; if they are not kept, nothing changes at all; on a printed document it is the next node |
| XmlParser.Parser.ParseCdata | external/pugixml/pugixml.cpp:3078-3117 | the same for a CDATA section |
| XmlParser.Parser.ParseQuestion | external/pugixml/pugixml.cpp:3148-3239 | on any buffer, a processing instruction or declaration becomes the next node, with its name, exactly if its kind is kept, and nothing changes otherwise; on a printed document the one that is next is read; of a declaration with attributes, a slash takes the place of its end mark, so that they are read like those of an empty tag |
| XmlParser.Parser.ParsePcdata | external/pugixml/pugixml.cpp:3418-3470 | on any buffer, white space up to the next tag or the end is passed over, with no change, if it is to be trimmed or no option keeps it; the option for single white space keeps it only in front of the end tag of a node without children; other character data, and white space that is kept, becomes one text node with the decoded text as its value, or the value of its element, and at the top of what is no fragment it is skipped |
| XmlRoundTrip.Parse | external/pugixml/pugixml.cpp:3505-3550 | for every input: the nodes are in document order, and their strings are unless a declaration was left open; success means that every element has been closed, that the last character opens no tag and, without the fragment option, that there is an element at the top. A printed document with any white space between its markup, and a byte order mark in front of it or none, gives the document's nodes and no others; a buffer in which the last character was replaced by the terminator parses as if it were still there, exactly unless that character was the last one of a text at the end |
| XmlLayout.ParseBoth | external/pugixml/pugixml.cpp:3418-3470 | a printed document, and the same with any white space between its markup, are parsed to the same status and to the same records: kinds, parents, names, values and attributes |
| XmlLayout.SpaceIsItsValue | external/pugixml/pugixml.cpp:3418-3470 | white space that is kept is its node's value, with line ends normalized if they are everywhere |
| XmlSpacing.SpacedPlain | external/pugixml/pugixml.cpp:3418-3470 | a document with no white space added is what the printer writes |
| XmlRoundTrip.SaveAndLoad | external/pugixml/pugixml.cpp:3242-3478 | printing a document through the buffered writer and parsing the bytes, in place or zero-terminated, gives nodes with the document's kinds, parents, names, values and attributes in the same order, and no others, exactly unless the document ends in a text and is not zero-terminated; the status is that of a document with or without an element at the top |
| XmlRoundTrip.ParentsDetermine | external/pugixml/pugixml.cpp:3242-3478 | documents with the same parents in the same order are the same tree |
| BufferedWriter.Run | external/pugixml/pugixml.cpp:3692-3874 | for every sequence of write, write_buffer, write_string and flush calls with well-formed pieces, the bytes that come out are the transcoding of all pieces together |
| BufferedWriter.GetValidLength | external/pugixml/pugixml.cpp:3652-3689 | of a chunk, the length that is handed on cuts off at most an incomplete sequence at its end, and is not zero |
| BufferedWriter.Writer.WriteBuffer | external/pugixml/pugixml.cpp:3767-3780 | the buffer's contents grow by the data, whether it fits or is written in chunks |
| BufferedWriter.Writer.WriteString | external/pugixml/pugixml.cpp:3782-3805 | the same for a string that is copied until the buffer is full, and never cut inside a sequence |
| BufferedWriter.Writer.WriteDirect | external/pugixml/pugixml.cpp:3728-3765 | long data goes out in chunks that each end between two sequences, and every round makes progress |
| BufferedWriter.Writer.FlushData | external/pugixml/pugixml.cpp:3710-3726 | what is flushed comes out transcoded |
| BufferedWriter.Writer.ConvertBufferOutput | external/pugixml/pugixml.cpp:3614-3650 | the converted chunk fits into the scratch space and has the bytes of the target encoding in its byte order |
| BufferedWriter.Fits | external/pugixml/pugixml.cpp:3614-3650 | no chunk of a buffer's length transcodes to more units than the scratch space has |
| BufferedWriter.TranscodeConcat | external/pugixml/pugixml.cpp:3703-3874 | transcoding two well-formed pieces one after the other is transcoding them together |
| Utf.Process8 | external/pugixml/pugixml.cpp:1619-1684 | the UTF-8 decoder, with its fast path for four aligned ASCII bytes, passes on what decoding byte by byte finds, for malformed input and every alignment; its counting pass gives the length of what the writing pass stores |
| Utf.Process16 | external/pugixml/pugixml.cpp:1686-1736 | the same for the UTF-16 decoder in both byte orders |
| Utf.Process32 | external/pugixml/pugixml.cpp:1738-1766 | the same for the UTF-32 decoder |
| Utf.ProcessLatin1 | external/pugixml/pugixml.cpp:1768-1783 | the same for the Latin-1 decoder |
| Utf.ConvertBuffer16 | external/pugixml/pugixml.cpp:2174-2197 | the buffer that was allocated after counting is filled exactly and ends in a terminator |
| Utf.ConvertBuffer32 | external/pugixml/pugixml.cpp:2174-2197 | the same for UTF-32 input |
| Utf.ConvertBufferLatin1 | external/pugixml/pugixml.cpp:2199-2243 | copying the ASCII prefix and decoding the rest gives what decoding everything would |
| Utf.RoundTrip8 | external/pugixml/pugixml.cpp:1469-1512 | decoding the UTF-8 encoding of any sequence of scalar values returns it (section 3 of RFC 3629), and the encoding is well formed |
| Utf.RoundTrip16 | external/pugixml/pugixml.cpp:1529-1554 | decoding the UTF-16 encoding of any sequence of scalar values, in either byte order, returns it (section 2 of RFC 2781) |
| Encodings.CharacterWritten | external/pugixml/pugixml.cpp:3614-3650 | each character is written with the bits and the byte order that section 3 of RFC 3629, section 2.1 of RFC 2781, UTF-32 and Latin-1 show |
| Encodings.Transcoded | external/pugixml/pugixml.cpp:3614-3650 | transcoding writes the characters of a text one after the other in this way, in every encoding |
| Integers.StringToInteger | external/pugixml/pugixml.cpp:4489-4569 | for digit strings of any length, decimal or hexadecimal, and every width, the result is the true value clamped to the limits, modulo the width |
| Numerals.ReadSpelled | external/pugixml/pugixml.cpp:4489-4569 | a numeral for any number, in base 10 or in base 16 in either case, with white space and a sign in front and anything behind that is no digit, is read as that number, or as the nearest limit |
| Integers.OverflowFound | external/pugixml/pugixml.cpp:4532-4556 | the number of digits, the first digit and the top bit of the wrapped value together tell exactly whether a decimal value does not fit |
| Integers.HexOverflow | external/pugixml/pugixml.cpp:4503-4527 | the number of digits tells exactly whether a hexadecimal value does not fit |
| Integers.IntegerToString | external/pugixml/pugixml.cpp:4620-4638 | the digits are those of the value, or of its negation modulo the width after a minus sign, at the end of the buffer |
| Integers.WriteAndRead | external/pugixml/pugixml.cpp:4489-4638 | reading what was written gives every value back, the least one included |
| DomLinks.AppendNode | external/pugixml/pugixml.cpp:1231-1250 | the links become those with the child at the end of the list, and stay those of a forest |
| DomLinks.PrependNode | external/pugixml/pugixml.cpp:1252-1268 | the same at the start of the list |
| DomLinks.InsertNodeAfter | external/pugixml/pugixml.cpp:1270-1285 | the same behind a node |
| DomLinks.InsertNodeBefore | external/pugixml/pugixml.cpp:1287-1302 | the same in front of a node |
| DomLinks.RemoveNode | external/pugixml/pugixml.cpp:1304-1321 | the links become those without the node, which hangs nowhere |
| DomLinks.SpliceKeepsLinks | external/pugixml/pugixml.cpp:1231-1302 | after one node more at any position, every list is again a ring that is open at its end: the first one's previous link is the last one, the last one's next link is null, and parent links agree |
| DomLinks.UnlinkKeepsLinks | external/pugixml/pugixml.cpp:1304-1321 | the same after one node less |
| DomTree.NewDocument | external/pugixml/pugixml.cpp:6893-6934 | a new document is a root without children |
| DomTree.AllowMove | external/pugixml/pugixml.cpp:4356-4387 | a move is allowed exactly when the kinds may be nested, both nodes are of one document, and the new parent is not in the moved subtree |
| DomTree.AppendMove | external/pugixml/pugixml.cpp:5975-5989 | an allowed move leaves the tree with the subtree as the last child; a refused one changes nothing |
| DomTree.PrependMove | external/pugixml/pugixml.cpp:5991-6005 | the same as the first child |
| DomTree.InsertMoveAfter | external/pugixml/pugixml.cpp:6007-6023 | the same right behind a sibling |
| DomTree.InsertMoveBefore | external/pugixml/pugixml.cpp:6025-6041 | the same right in front of a sibling |
| DomTree.AppendChild | external/pugixml/pugixml.cpp:5799-5814 | a new node of an allowed kind becomes the last child, named xml if it is a declaration; another kind changes nothing |
| DomTree.PrependChild | external/pugixml/pugixml.cpp:5816-5831 | the same as the first child |
| DomTree.InsertChildBefore | external/pugixml/pugixml.cpp:5833-5849 | the same right in front of a child |
| DomTree.InsertChildAfter | external/pugixml/pugixml.cpp:5851-5867 | the same right behind a child |
| DomTree.RemoveChild | external/pugixml/pugixml.cpp:6067-6078 | a child is taken out with its subtree, and the rest stays a tree; a node that is not a child changes nothing |
| DomTree.MoveKeepsTree | external/pugixml/pugixml.cpp:4365-4387 | moving a subtree to a place outside itself gives a tree of the same nodes |
| DomTree.MoveWouldLoop | external/pugixml/pugixml.cpp:4376-4384 | moving it inside itself could not give a tree: the guard refuses no more than it must |
| DomTree.PruneKeepsTree | external/pugixml/pugixml.cpp:6067-6078 | taking out a node with everything below it leaves a tree |
| DomKinds.MoveDecided | external/pugixml/pugixml.cpp:4356-4363 | a move keeps the kinds of a document in order, with only elements and the document having children and its prolog at the top, exactly if the guard allows those kinds |
| DomKinds.AddDecided | external/pugixml/pugixml.cpp:4356-4363 | the same for a new child |
| Allocator.EveryRun | external/pugixml/pugixml.cpp:508-743 | after every run of requests and returns, the blocks of a page lie apart inside it, busy minus freed is what they take, only the top page is ever empty, and the live bytes are the requested less the returned ones |
| Allocator.ReleasedWithItsLastBlock | external/pugixml/pugixml.cpp:593-635 | a page is released exactly when it is not on top and what comes back makes its freed size its busy size; below the top, these two sizes are then equal exactly when no other block of the page is left |
| Allocator.BlocksAreDisjoint | external/pugixml/pugixml.cpp:541-553 | two live blocks of a page share no byte |
| Allocator.HeaderRecovers | external/pugixml/pugixml.cpp:671-688 | although it keeps 16 bits of each, a string's header gives back its offset and its size, the size of a whole page included |
| Allocator.Allocator.AllocateMemory | external/pugixml/pugixml.cpp:541-553 | a request takes the end of the top page or a page of its own, and the pages stay linked up to the root |
| Allocator.Allocator.AllocateMemoryOutOfBand | external/pugixml/pugixml.cpp:707-743 | a small request gets a new top page, a large one a page before the top one |
| Allocator.Allocator.AllocateObject | external/pugixml/pugixml.cpp:588-591 | a block for a node or an attribute, and every string keeps its header |
| Allocator.Allocator.DeallocateObject | external/pugixml/pugixml.cpp:1199-1228 | the block of a node or an attribute comes back, and every string keeps its header |
| Allocator.Allocator.DeallocateMemory | external/pugixml/pugixml.cpp:593-635 | a return takes the block off its page, resets the top page or unlinks another one when it was the last, and the rest stays linked |
| Allocator.Allocator.AllocateString | external/pugixml/pugixml.cpp:637-669 | the block of a string has a header that tells where and how long it is, and all other strings keep theirs |
| Allocator.Allocator.DeallocateString | external/pugixml/pugixml.cpp:671-688 | from the pointer alone, the block that was allocated for the string is returned |
| Lagrange.Exact | sentinel1/s1tbx-commons/orbit_state_vectors.cc:87-108 | Lagrange interpolation through distinct times returns every polynomial with at most as many coefficients as there are times, at every time |
| Lagrange.UnityIsOne | sentinel1/s1tbx-commons/orbit_state_vectors.cc:90-97 | the weights of distinct times add up to one everywhere |
| Lagrange.AtNode | sentinel1/s1tbx-commons/orbit_state_vectors.cc:87-108 | at one of the times, interpolation returns the sample |
| Orbit.OrbitIsExact | sentinel1/s1tbx-commons/orbit_state_vectors.cc:70-108 | a coordinate that follows a polynomial in the window, of degree below the number of vectors there (eight, when there are more), is returned exactly at every time |
| Orbit.WindowIsCentred | sentinel1/s1tbx-commons/orbit_state_vectors.cc:79-83 | among more than eight evenly spaced vectors, a time with four of them on either side lies in the middle of its window |
| Orbit.VectorInItsWindow | sentinel1/s1tbx-commons/orbit_state_vectors.cc:76-83 | among evenly spaced vectors, every vector is in the window for its own time |
| Orbit.OrbitAtVector | sentinel1/s1tbx-commons/orbit_state_vectors.cc:70-111 | at the time of a vector of its window, position and velocity are the vector's |
| Orbit.RecordsOrdered | sentinel1/s1tbx-commons/orbit_state_vectors.cc:58-69 | the vectors that are kept have strictly increasing times, begin with the first one, and none of the input is later than the last one |
| Orbit.NothingRedundant | sentinel1/s1tbx-commons/orbit_state_vectors.cc:58-69 | vectors with strictly increasing times are all kept |
| Orbit.RemoveRedundantVectors | sentinel1/s1tbx-commons/orbit_state_vectors.cc:58-69 | the kept vectors are those later than every vector before them |
| Orbit.OrbitStateVectors.GetPositionVelocity | sentinel1/s1tbx-commons/orbit_state_vectors.cc:70-111 | from the cache or computed, the answer is that of the two single queries; it is cached, and the cache stays true |
| Orbit.OrbitStateVectors.GetPosition | sentinel1/s1tbx-commons/orbit_state_vectors.cc:112-147 | the nested loops compute the interpolated position over the window |
| Orbit.OrbitStateVectors.GetVelocity | sentinel1/s1tbx-commons/orbit_state_vectors.cc:149-178 | the nested loops compute the interpolated velocity over the window |
| Orbit.OrbitStateVectors.WithLines | sentinel1/s1tbx-commons/orbit_state_vectors.cc:26-45 | the sensor's position and velocity at every image line are the interpolated ones |
| GeolocationGrid.ComputeIndex | sentinel1/s1tbx-commons/sentinel1_utils.cc:722-774 | for every azimuth and slant range time there is a cell, except exactly for the last range time of the first line; its position blends back to both times, inside and beyond the grid |
| GeolocationGrid.AffineIsExact | sentinel1/s1tbx-commons/sentinel1_utils.cc:776-814 | a field that is affine in azimuth time and in the range time of its column is returned exactly, extrapolation included |
| GeolocationGrid.OneRangeCell | sentinel1/s1tbx-commons/sentinel1_utils.cc:722-744 | a slant range time has one range cell |
| GeolocationGrid.FindLine | sentinel1/s1tbx-commons/sentinel1_utils.cc:750-769 | the search always finds the two lines around the azimuth time, or the first or last two |
| TileCutting.CutTiles | algs/backgeocoding/src/backgeocoding_controller.cc:141-166 | unless there is a burst, a sample and more than 4000000 lines in a burst, the loop ends; the tiles partition the raster, each has at most 4000000 pixels, each but the last one of its burst is 4000000 / lines wide, which is as wide as that allows, and each carries its number and its two burst numbers |
| TileCutting.CutEnds | algs/backgeocoding/src/backgeocoding_controller.cc:147-164 | some number of turns of the two loops brings the burst to the end, exactly when there are no bursts or no samples, or a burst has at most 4000000 lines |
| WorkerPool.RunEndsWell | algs/backgeocoding/src/backgeocoding_controller.cc:168-191 | under every interleaving of the nine threads, a run that is over without a counted exception has written every band of every tile once; otherwise the first entry of the list is thrown; no band is ever written twice |
| WorkerPool.FirstOfThisRun | algs/backgeocoding/src/backgeocoding_controller.cc:83-88 | when the first exception of this run is not one of those left from before, it is the one that is thrown exactly when none was left; in general, exactly when none was left or the first one left is like it |
| WorkerPool.LeftoverIsThrown | algs/backgeocoding/src/backgeocoding_controller.cc:83-88 | for every list of exceptions left from before and every exception, there is a run of nine threads in which one thread throws it, all end, and the first one of the list is thrown |
| WorkerPool.StepKeepsInvariant | algs/backgeocoding/src/backgeocoding_worker.cc:27-148 | whatever step whatever thread makes, every tile is queued, held by one thread, dropped or written, and beyond those from before the list of exceptions has as many entries as are counted, or one more while the lock is held |
| WorkerPool.StepDescends | algs/backgeocoding/src/backgeocoding_worker.cc:27-148 | every step brings the run closer to its end |
| WorkerPool.SomeoneCanStep | algs/backgeocoding/src/backgeocoding_controller.cc:83-88 | as long as a thread has not ended, some thread can step: the lock does not block the run |

## Left out

- The namespace axis and `id()` are empty in the code and here.
- Pointers to nodes in the XPath and printing parts are numbers in document order and attributes are sequences: that code neither writes links nor compares addresses by size, except of strings in one buffer. `DomLinks` and `DomTree` have the links as objects.
- The XPath lexer and the parsing of paths, steps and function calls: an operand of `XPathGrammar` is one token. The optimizer works on values and does not overwrite the nodes of the expression in place.
- Numbers of XPath, of the orbit and of the grid are reals with infinities and not-a-number where the code has them; rounding, negative zero, `strtod` and number formatting are not modelled.
- XPathEval.EvalNumber: the arithmetic operators and the conversion from strings are arbitrary functions, because their rounding is not modelled; the theorems hold for all of them.
- XPathEval.EvalString: the conversion of numbers to strings is an arbitrary function.
- XPathEval.EvalBoolean: comparisons use the same arbitrary conversions.
- XmlPrint.NodeOutput: the raw format, without indentation.
- XmlParser.Parser.ParseTree: for a buffer that is no printed document, the contracts of the single tags and texts are not put together to say which nodes there are; bounds, the soundness of the records and their order are promised. Document types are skipped or kept as the code does, but are in no printed document here.
- XmlParser.Parser.ParseQuestion: for such a buffer, where the value of an instruction ends is not promised.
- XmlRoundTrip.Parse: for such a buffer, soundness and order only. White space inside tags is in no printed document; the contracts of single tags cover it. Printed documents are parsed without the options that trim or embed text.
- XmlRoundTrip.SaveAndLoad: documents with a document type are not covered, nor a document that begins with U+FEFF, which the parser skips, nor the option that collapses white space in attribute values, which does not preserve them.
- XmlSections.SectionsReadBack: is about the text of one node; the tree with the pieces as siblings is not built.
- The unrolling of the scanning loops, the wide character and compact modes, out-of-memory returns, guessing of encodings, and the file and stream readers. The union of scratch arrays of different widths is one array of units.
- Attribute lists of the document tree, copies of subtrees, and the names of nodes other than new ones.
- DomTree.RemoveChild: takes the nodes of the subtree out of the tree; the release of their memory is the allocator's part and is not called.
- The allocator's memory is a page and an offset, and a string header is a pair of numbers at such a place; a page of a request below the page size that does not fit anywhere has the size of the request. The first request of a document is small, as the code asserts. The mean step of a single orbit vector, not a number in the code, is zero here and is not used.
- The cached positions of the orbit are values, not shared objects; 32-bit overflow in the conversion of a time to an index, in tile coordinates and in page sizes is not modelled.
- The four readers of the grid are one expression over four fields: `GeolocationGrid.Value`.
- Computations of a worker are one step that may throw; only exceptions that the worker catches are modelled, and the unsynchronized reads of the count are sequentially consistent. The queue is an atomic pop.
- Kernels, device memory, terrain and gravity models, metadata fields, and the convergence of the Newton iterations are not part of this model.
