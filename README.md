# AutoChunker core in Dafny

AutoChunker turns the text extracted from a document (Markdown or plain text)
into a tree of sections. The user edits the tree, and then exports it as
token-bounded chunks for retrieval. This project models the
document-to-tree pipeline and the small helpers around it, and proves what
each piece promises:

- **Header classification and section extraction.** There are two variants.
  - The TypeScript `parseMarkdownToTree` is in `MarkdownParser`.
  - The Python `parse_markdown_to_tree` of `parser-to-tree.py` is in `PyParser`.
  - The stack-based builder `buildTreeFromSections` / `build_tree_from_sections` is in `SectionTree`.
- **Serialisers.**
  - `treeToNodeModels` and `nodeModelsToTree` (`NodeModels`).
  - `treeToMarkdown` (`MarkdownWriter`).
  - `estimateTokens` (`Tokens`).
- **Tree mutators.**
  - The nested editors' delete, rename, content change, add-child and add-root are in `TreeEdits`; move-up and move-down are in `SiblingMoves`.
  - The two editor components are classes in `TreeEditors`.
  - The flat parent-pointer editor with `isDescendantOf` and `findNodeInTree` is in `FlatEditor`.
  - The App's step state machine is in `AppSession`.
- **The chunker** `generateChunks` / `processNode` is in `Chunker`.
- **Helpers.**
  - The tree statistics of `parser-to-tree.py` are in `TreeQuality`.
  - The counters and the noise filter of `generate-tree-images.py` are in `TreeImages`.
  - `clean-tree-view.py` is in `CleanTree`.
  - The structure counts of `compare-parsers.py` are in `CompareParsers`.
  - The content scorer and ranking of `document-parser-poc.py` are in `ContentQuality`.
  - The PDF search term is in `SearchTerm`.
  - The prototype splitter of `App-minimal.tsx` is in `MinimalApp`.
- **Shared pieces.**
  - `Strings` has the ASCII character classes, `trim`/`strip`, `split`/`join` and number rendering.
  - `Tree` has the `TreeNode` / `NodeModel` / `DocumentChunk` shapes of `types.ts`, pre-order flattening and `findNodeInTree`'s reference search.

**How the model is written**

- The code that loops, or that updates state, is modelled with Dafny methods and loops. Each method is proved equal to a specification function. The properties are lemmas about those functions.
  - The code that updates state includes the section scan, the builder's stack, the traversals, the sentence loop, the Python counters, the index loops of move-up and move-down, and the best-parser choice.
- The React components whose state hooks change are classes: `DraggableTreeEditor`, `SimpleTreeEditor`, `FlatTreeEditor` and `Session`.
- Pure recursive maps and filters are functions.
- Regular expressions are written as explicit ASCII character predicates.
  - JavaScript's `.` excludes `\n` and `\r`.
  - Python's `.` excludes only `\n`.
- `Date.now()` stamps and `parseInt` results are parameters.

Where the description of the system and the code differ, the model follows
the code. These behaviours are kept as the code does them:

- Long all-caps lines become level 1 even when only the Title-case rule admits them.
- Text before the first header is lost.
- Move-up never searches the first sibling's subtree, and move-down never searches the last sibling's.
- `slice(-0)` keeps the whole buffer as overlap.
- Sentences are glued with no separator when headers are not preserved.
- A section over the limit whose content adds nothing to its header pushes no chunk. Its children then hang under the last chunk pushed before it, or under none.
- Python page markers are transparent: the content collected before a marker is kept, and collection goes on after it.
- `clean-tree-view.py` drops a noise node's whole subtree, while `generate-tree-images.py` splices its children into its place.

## Model

| member | source | states |
|---|---|---|
| Tokens.EstimateTokens | deployments/local-selfhosted/client/src/utils/markdownParser.ts:230-232 | the estimate is the least r with 4r at least the length, i.e. ceil(length/4) |
| Tokens.EstimateZeroIffEmpty | deployments/local-selfhosted/client/src/utils/markdownParser.ts:230-232 | the estimate is 0 exactly for the empty string |
| Tokens.EstimateMonotone | deployments/local-selfhosted/client/src/utils/markdownParser.ts:230-232 | a longer text never has a smaller estimate |
| Tokens.EstimateSubadditive | deployments/local-selfhosted/client/src/utils/markdownParser.ts:230-232 | the estimate of a concatenation is at most the sum of the parts' estimates |
| Tree.FindNode | client/src/components/TreeEditor.tsx:257-268 | a node found carries the id searched for |
| Tree.FindNodeFound | client/src/components/TreeEditor.tsx:257-268 | a node is found exactly when the id occurs at some depth |
| Tree.FindNodeFirst | client/src/components/TreeEditor.tsx:257-268 | the node found is the first node with that id in depth-first pre-order |
| Tree.FindEveryNode | client/src/components/TreeEditor.tsx:257-268 | with unique ids, searching for any node's id finds that very node |
| MarkdownParser.ExplicitGuardIff | deployments/local-selfhosted/client/src/utils/markdownParser.ts:24 | the executable guard holds exactly when `^(#{1,6})\s+(.+)$` matches the untrimmed line |
| MarkdownParser.ExplicitMatchesAgree | deployments/local-selfhosted/client/src/utils/markdownParser.ts:45-48 | every way the regular expression can match gives the same number of `#` and the same trimmed title |
| MarkdownParser.ExplicitHeading | deployments/local-selfhosted/client/src/utils/markdownParser.ts:45-48 | a heading is produced exactly for explicit headers, with level = number of `#` and title = the rest trimmed |
| MarkdownParser.ImplicitHeading | deployments/local-selfhosted/client/src/utils/markdownParser.ts:27-63 | a heading is produced exactly when the all-caps, Title-case or bold rule matches; its level is 1 or 2 and its title trimmed |
| MarkdownParser.ClassifyLine | deployments/local-selfhosted/client/src/utils/markdownParser.ts:24-63 | every header gets a level in 1..6 and a trimmed title |
| MarkdownParser.HeaderLineIff | deployments/local-selfhosted/client/src/utils/markdownParser.ts:24-33 | a line is a header exactly when the explicit pattern or an implicit rule on the trimmed line matches |
| MarkdownParser.ExplicitHeaderClassified | deployments/local-selfhosted/client/src/utils/markdownParser.ts:45-48 | an explicit header is classified with its `#` count as level and its trimmed remainder as title |
| MarkdownParser.AllCapsHeaderIsLevelOne | deployments/local-selfhosted/client/src/utils/markdownParser.ts:51-54 | a trimmed line of `[A-Z\s]` only, 3 to 79 characters long, that is no explicit header gets level 1 and itself as title, also at lengths 50..79 where only the Title-case rule admits it |
| MarkdownParser.BoldHeaderClassified | deployments/local-selfhosted/client/src/utils/markdownParser.ts:55-58 | a bold line gets level 2 and its inner text trimmed as title |
| MarkdownParser.TitleCaseHeaderClassified | deployments/local-selfhosted/client/src/utils/markdownParser.ts:59-62 | a Title-case line that is not all caps gets level 2 with one trailing colon removed |
| MarkdownParser.LongAllCapsIsNotImplicit | deployments/local-selfhosted/client/src/utils/markdownParser.ts:27-33 | an all-caps line of 80 or more characters is never an implicit header |
| MarkdownParser.BlankLineIsNotHeader | deployments/local-selfhosted/client/src/utils/markdownParser.ts:24-33 | a blank line is never a header |
| MarkdownParser.HeaderIndices | deployments/local-selfhosted/client/src/utils/markdownParser.ts:15-34 | lists exactly the header lines, in increasing order |
| MarkdownParser.ParseSections | deployments/local-selfhosted/client/src/utils/markdownParser.ts:12-85 | the line loop, with its in-place patching of the previous section, yields exactly one section per header, carrying the trimmed `\n`-join of the lines up to the next header |
| MarkdownParser.SectionsOfAt | deployments/local-selfhosted/client/src/utils/markdownParser.ts:45-73 | section j is `section-j`, starts at the j-th header line and has that line's level and title |
| MarkdownParser.NoSectionsIffNoHeader | deployments/local-selfhosted/client/src/utils/markdownParser.ts:36-85 | there are no sections exactly when no line is a header |
| MarkdownParser.SectionsTile | deployments/local-selfhosted/client/src/utils/markdownParser.ts:36-85 | the sections tile the lines from the first header on: each ends just before the next starts and the last ends at the last line |
| MarkdownParser.SectionSpan | deployments/local-selfhosted/client/src/utils/markdownParser.ts:36-85 | section j spans from header j to just before header j+1, or to the end |
| MarkdownParser.ParseMarkdownToTree | deployments/local-selfhosted/client/src/utils/markdownParser.ts:12-100 | the two passes give the parsed forest, or the fallback node |
| MarkdownParser.ParsedWithoutHeaders | deployments/local-selfhosted/client/src/utils/markdownParser.ts:88-96 | with no header line the result is the one node `section-0`, level 1, "Document Content", with the trimmed input as content |
| MarkdownParser.ParsedWithHeaders | deployments/local-selfhosted/client/src/utils/markdownParser.ts:98-137 | with a header, the forest's pre-order is the section list, every child is deeper than its parent, children point to their parent and roots to nothing |
| MarkdownParser.ParsedIds | deployments/local-selfhosted/client/src/utils/markdownParser.ts:66-96 | the ids are `section-0, section-1, ...` in pre-order, hence distinct |
| MarkdownParser.ParsedNesting | deployments/local-selfhosted/client/src/utils/markdownParser.ts:98-137 | with a header, node i of the parsed forest hangs under `section-j` for the last earlier section j with a smaller level, and is a root when none has one |
| SectionTree.PopToKeeps | deployments/local-selfhosted/client/src/utils/markdownParser.ts:116-118 | popping keeps a prefix of the stack, removes only entries at the new level or deeper, and leaves a top below it |
| SectionTree.BuildTreeFromSections | deployments/local-selfhosted/client/src/utils/markdownParser.ts:102-137 | the explicit-stack loop with its in-place child pushes builds the section-by-section forest |
| SectionTree.BuiltPreOrder | deployments/local-selfhosted/client/src/utils/markdownParser.ts:102-137 | the pre-order of the built forest is exactly the input section order |
| SectionTree.BuiltSize | deployments/local-selfhosted/client/src/utils/markdownParser.ts:102-137 | every section becomes exactly one node |
| SectionTree.BuiltWellNested | deployments/local-selfhosted/client/src/utils/markdownParser.ts:116-131 | every child's level is strictly greater than its parent's |
| SectionTree.BuiltParentLinks | deployments/local-selfhosted/client/src/utils/markdownParser.ts:120-131 | roots carry no parent, and children carry their parent's id when linking is on |
| SectionTree.LastBelow | deployments/local-selfhosted/client/src/utils/markdownParser.ts:116-118 | the position found has a smaller level than the new section and every later section's level is at least the new one; -1 when no section is below it |
| SectionTree.SpineBelow | deployments/local-selfhosted/client/src/utils/markdownParser.ts:116-125 | popping the stack to a level empties it exactly when no earlier section has a smaller level, and otherwise leaves the last such section on top |
| SectionTree.BuiltSpine | deployments/local-selfhosted/client/src/utils/markdownParser.ts:116-133 | after each section the stack is the popped stack with that section pushed |
| SectionTree.ParentRefsAppendAt | deployments/local-selfhosted/client/src/utils/markdownParser.ts:120-130 | attaching a childless node along the stack puts its back-reference last in pre-order |
| SectionTree.BuiltParentRefs | deployments/local-selfhosted/client/src/utils/markdownParser.ts:116-131 | node i's back-reference is the id of the last earlier section with a smaller level, and node i is a root when there is none |
| SectionTree.BuiltUnlinked | parser-to-tree.py:100-120 | the Python builder, which records no back-references, nests the sections exactly as the linking one does |
| NodeModels.ModelsInPreOrder | deployments/local-selfhosted/client/src/utils/markdownParser.ts:143-161 | entry k is the k-th node in pre-order, under its parent id, with originalIndex = start + k |
| NodeModels.Traverse | deployments/local-selfhosted/client/src/utils/markdownParser.ts:143-161 | the recursive loop appends the entries of its nodes and advances the counter by their size |
| NodeModels.TreeToNodeModels | deployments/local-selfhosted/client/src/utils/markdownParser.ts:139-165 | the output is the pre-order entry list with roots under `"0"`, numbered from 0 |
| NodeModels.ParentsPrecede | deployments/local-selfhosted/client/src/utils/markdownParser.ts:143-161 | every entry's parent id is `"0"` or the id of an earlier entry |
| NodeModels.NodeModelsToTree | deployments/local-selfhosted/client/src/utils/markdownParser.ts:167-202 | the two loops over the map give the forest the models describe |
| NodeModels.NodeMapKeys | deployments/local-selfhosted/client/src/utils/markdownParser.ts:172-181 | the node map's keys are exactly the models' ids |
| NodeModels.NodesOfModels | deployments/local-selfhosted/client/src/utils/markdownParser.ts:172-181 | each node enters the map childless and unlinked, with a zero level defaulted to 1 |
| NodeModels.KidsLookup | deployments/local-selfhosted/client/src/utils/markdownParser.ts:190-197 | a node's children are exactly the models whose parent is its id, in list order |
| NodeModels.RootsAreZeroParented | deployments/local-selfhosted/client/src/utils/markdownParser.ts:187-188 | the roots are exactly the models with parent `"0"`, in order |
| NodeModels.ParentsMapLast | deployments/local-selfhosted/client/src/utils/markdownParser.ts:190-197 | a model with a unique id gets its parent as back-reference exactly when it attaches to a present node |
| NodeModels.MaterializeDescribed | deployments/local-selfhosted/client/src/utils/markdownParser.ts:184-199 | reading a described forest back from its root ids gives the forest |
| NodeModels.RoundTrip | deployments/local-selfhosted/client/src/utils/markdownParser.ts:139-202 | for unique ids other than `"0"` and non-zero levels, `nodeModelsToTree(treeToNodeModels(t))` is t with its back-references rewritten builder-style: every id, title, level, content and child order comes back, and t itself does when its links were already builder-style |
| NodeModels.LinkedRoundTrip | deployments/local-selfhosted/client/src/utils/markdownParser.ts:139-202 | on a forest with builder-style back-references, unique ids other than `"0"` and non-zero levels, the flat list converts back to exactly that forest |
| NodeModels.RelinkedShape | deployments/local-selfhosted/client/src/utils/markdownParser.ts:190-197 | rewriting back-references changes nothing else: the same shape, labels and ids, with every root under the given parent and every child under its parent's id |
| NodeModels.RelinkedLinked | deployments/local-selfhosted/client/src/utils/markdownParser.ts:190-197 | a forest whose back-references are already builder-style is unchanged by the rewrite |
| NodeModels.ModelsIgnoreLinks | deployments/local-selfhosted/client/src/utils/markdownParser.ts:143-161 | the flat entries never depend on the nodes' back-references |
| NodeModels.OrphanDropped | deployments/local-selfhosted/client/src/utils/markdownParser.ts:190-197 | a model whose parent is neither `"0"` nor a present id is no root, nobody's child and has no back-reference |
| MarkdownWriter.Hashes | deployments/local-selfhosted/client/src/utils/markdownParser.ts:210 | a non-negative level gives that many `#` |
| MarkdownWriter.ForestMarkdownPreOrder | deployments/local-selfhosted/client/src/utils/markdownParser.ts:204-227 | the text is the node texts in pre-order, each node's subtree right after it |
| MarkdownWriter.Traverse | deployments/local-selfhosted/client/src/utils/markdownParser.ts:207-223 | the recursive loop appends each node's header, its content when non-blank, then its children |
| MarkdownWriter.TreeToMarkdown | deployments/local-selfhosted/client/src/utils/markdownParser.ts:204-227 | the result is the trimmed pre-order text |
| MarkdownRoundTrip.WrittenFromLabels | deployments/local-selfhosted/client/src/utils/markdownParser.ts:204-227 | the text written for a forest depends only on its labels in pre-order |
| MarkdownRoundTrip.LinesJoin | deployments/local-selfhosted/client/src/utils/markdownParser.ts:207-223 | the untrimmed text is the sections' lines joined by `\n`, with one more line break at the end |
| MarkdownRoundTrip.HeaderLineClassified | deployments/local-selfhosted/client/src/utils/markdownParser.ts:45-48 | a written header line of level 1..6 with a trimmed one-line title is read as an explicit header with that level and title |
| MarkdownRoundTrip.WrittenText | deployments/local-selfhosted/client/src/utils/markdownParser.ts:204-227 | the trimmed text of writable sections is their lines joined by `\n`, and splitting it on `\n` gives exactly those lines |
| MarkdownRoundTrip.TextSections | deployments/local-selfhosted/client/src/utils/markdownParser.ts:12-85 | the lines of the written text yield exactly the written sections, in order, with their titles, levels and contents, numbered `section-j` |
| MarkdownRoundTrip.ReadBack | deployments/local-selfhosted/client/src/utils/markdownParser.ts:12-227 | parsing the Markdown of a forest of writable sections gives the builder's forest of its pre-order labels, renumbered `section-j` |
| MarkdownRoundTrip.ReparseRoundTrip | deployments/local-selfhosted/client/src/utils/markdownParser.ts:12-227 | writing a built forest of writable sections and parsing the text gives the same forest back up to the `section-j` ids |
| MarkdownRoundTrip.ReparseNesting | deployments/local-selfhosted/client/src/utils/markdownParser.ts:102-137 | in both the written and the re-parsed forest, node i hangs under the last earlier section with a smaller level, by its id and by `section-j` respectively, and roots stay roots |
| TreeEdits.Delete | deployments/firebase-cloud/client/src/components/DraggableTreeEditor.tsx:258-271 | deleting never adds roots |
| TreeEdits.Removed | deployments/firebase-cloud/client/src/components/DraggableTreeEditor.tsx:258-271 | every removed subtree is rooted at a node with the id |
| TreeEdits.DeleteRemovesId | deployments/firebase-cloud/client/src/components/DraggableTreeEditor.tsx:258-271 | no node with the id remains at any depth |
| TreeEdits.DeleteKeepsOrder | deployments/firebase-cloud/client/src/components/DraggableTreeEditor.tsx:258-271 | the surviving nodes are a subsequence of the old pre-order, each with its own id, title, level and content |
| TreeEdits.DeleteSize | deployments/firebase-cloud/client/src/components/DraggableTreeEditor.tsx:258-271 | the node count falls by exactly the size of the removed subtrees |
| TreeEdits.DeleteAbsent | deployments/firebase-cloud/client/src/components/SimpleTreeEditor.tsx:206-221 | deleting an absent id gives back the same forest and removes nothing |
| TreeEdits.DeleteUnique | deployments/firebase-cloud/client/src/components/SimpleTreeEditor.tsx:206-221 | with unique ids, the one removed subtree is the node the search finds |
| TreeEdits.EditAt | deployments/firebase-cloud/client/src/components/DraggableTreeEditor.tsx:276-289 | a matching entry gets the new field and is not searched further; any other keeps its fields and has its children rewritten |
| TreeEdits.EditKeepsIds | deployments/firebase-cloud/client/src/components/SimpleTreeEditor.tsx:229-245 | a rename or content change keeps every id, and so the node count |
| TreeEdits.EditAbsent | deployments/firebase-cloud/client/src/components/SimpleTreeEditor.tsx:229-245 | editing an absent id gives back the same forest |
| TreeEdits.EditUnique | deployments/firebase-cloud/client/src/components/DraggableTreeEditor.tsx:276-289 | with unique ids, the new pre-order is the old one with only the node with the id changed |
| TreeEdits.AddChildAt | deployments/firebase-cloud/client/src/components/DraggableTreeEditor.tsx:337-360 | a matching node gets a last child "New Section", at its level + 1, with empty content and no children |
| TreeEdits.AddChildAbsent | deployments/firebase-cloud/client/src/components/DraggableTreeEditor.tsx:337-360 | adding under an absent id changes nothing |
| TreeEdits.AddChildUnique | deployments/firebase-cloud/client/src/components/DraggableTreeEditor.tsx:337-360 | with unique ids, adding under a present id adds exactly one node |
| TreeEdits.AddRoot | deployments/firebase-cloud/client/src/components/DraggableTreeEditor.tsx:452-462 | the old roots are kept as they were, and one level-1 empty "New Section" follows them |
| TreeEdits.CountNodesIsSize | deployments/firebase-cloud/client/src/components/DraggableTreeEditor.tsx:393-404 | `countNodes` is the number of nodes |
| TreeEdits.CountTokensIsContentTokens | deployments/firebase-cloud/client/src/components/DraggableTreeEditor.tsx:380-391 | `countTokens` is the sum of the content estimates over every node |
| TreeEdits.Toggle | deployments/firebase-cloud/client/src/components/DraggableTreeEditor.tsx:368-378 | only the id's membership flips |
| TreeEdits.ToggleTwice | deployments/firebase-cloud/client/src/components/SimpleTreeEditor.tsx:247-257 | toggling the same id twice restores the set |
| TreeEdits.InitialExpanded | deployments/firebase-cloud/client/src/components/SimpleTreeEditor.tsx:184-193 | the initial set is exactly the ids of the roots with children |
| SiblingMoves.MoveNodeUp | deployments/firebase-cloud/client/src/components/DraggableTreeEditor.tsx:294-307 | the index loop over a copy with its early return computes the move-up function |
| SiblingMoves.MoveUpSplit | deployments/firebase-cloud/client/src/components/DraggableTreeEditor.tsx:294-307 | with m the first match after the first entry, entries before it have their children searched, the match swaps with its predecessor, the rest are untouched; the entry at index 0 is never searched inside except through the swap |
| SiblingMoves.MoveNodeDown | deployments/firebase-cloud/client/src/components/DraggableTreeEditor.tsx:314-327 | the index loop over a copy with its early return computes the move-down function |
| SiblingMoves.MoveDownSplit | deployments/firebase-cloud/client/src/components/DraggableTreeEditor.tsx:314-327 | with j the first match before the last entry, entries before it have their children searched and the match swaps with its successor; the last entry is never moved or searched |
| SiblingMoves.MoveUpPermutes | deployments/firebase-cloud/client/src/components/DraggableTreeEditor.tsx:296-305 | moving up keeps the multiset of nodes |
| SiblingMoves.MoveDownPermutes | deployments/firebase-cloud/client/src/components/DraggableTreeEditor.tsx:316-325 | moving down keeps the multiset of nodes |
| SiblingMoves.MoveUpAbsent | deployments/firebase-cloud/client/src/components/DraggableTreeEditor.tsx:294-307 | moving an absent id up changes nothing |
| SiblingMoves.MoveDownAbsent | deployments/firebase-cloud/client/src/components/DraggableTreeEditor.tsx:314-327 | moving an absent id down changes nothing |
| TreeEditors.DraggableTreeEditor.constructor | deployments/firebase-cloud/client/src/components/DraggableTreeEditor.tsx:237-247 | the tree is the initial one and the roots with children are expanded |
| TreeEditors.DraggableTreeEditor.DeleteNode | deployments/firebase-cloud/client/src/components/DraggableTreeEditor.tsx:258-273 | the tree becomes the deleted forest and the expanded set stays |
| TreeEditors.DraggableTreeEditor.EditNode | deployments/firebase-cloud/client/src/components/DraggableTreeEditor.tsx:276-291 | the tree becomes the renamed forest and the expanded set stays |
| TreeEditors.DraggableTreeEditor.MoveNodeUpIn | deployments/firebase-cloud/client/src/components/DraggableTreeEditor.tsx:294-311 | the tree becomes the moved-up forest |
| TreeEditors.DraggableTreeEditor.MoveNodeDownIn | deployments/firebase-cloud/client/src/components/DraggableTreeEditor.tsx:314-331 | the tree becomes the moved-down forest |
| TreeEditors.DraggableTreeEditor.AddChildTo | deployments/firebase-cloud/client/src/components/DraggableTreeEditor.tsx:334-365 | the tree gains the new child and the parent id joins the expanded set, present or not |
| TreeEditors.DraggableTreeEditor.ToggleExpanded | deployments/firebase-cloud/client/src/components/DraggableTreeEditor.tsx:368-378 | only the expanded set changes, by one toggle |
| TreeEditors.DraggableTreeEditor.AddRootSection | deployments/firebase-cloud/client/src/components/DraggableTreeEditor.tsx:452-462 | the tree gains a new last root |
| TreeEditors.HeaderTokens | deployments/firebase-cloud/client/src/components/DraggableTreeEditor.tsx:380-391 | the header total of both editors is the sum of the content estimates of every node |
| TreeEditors.HeaderNodes | deployments/firebase-cloud/client/src/components/DraggableTreeEditor.tsx:393-404 | the node count of both editors is the number of nodes at every depth |
| TreeEditors.SimpleTreeEditor.constructor | deployments/firebase-cloud/client/src/components/SimpleTreeEditor.tsx:183-194 | the tree is the initial one, the roots with children are expanded, nothing is selected |
| TreeEditors.SimpleTreeEditor.SelectNode | deployments/firebase-cloud/client/src/components/SimpleTreeEditor.tsx:201-204 | only the selection changes |
| TreeEditors.SimpleTreeEditor.DeleteNode | deployments/firebase-cloud/client/src/components/SimpleTreeEditor.tsx:206-226 | the tree becomes the deleted forest; the selection is cleared only when the selected node's own id is deleted |
| TreeEditors.SimpleTreeEditor.EditNode | deployments/firebase-cloud/client/src/components/SimpleTreeEditor.tsx:229-245 | the tree becomes the renamed forest; the selection and expanded set stay |
| TreeEditors.SimpleTreeEditor.ToggleExpanded | deployments/firebase-cloud/client/src/components/SimpleTreeEditor.tsx:247-257 | only the expanded set changes, by one toggle |
| FlatEditor.FindModel | client/src/components/TreeEditor.tsx:276 | a model found is in the list and has the id; none is found exactly when no model has it |
| FlatEditor.ChainFuel | client/src/components/TreeEditor.tsx:270-280 | once the parent walk ends, more fuel changes neither that nor what it visits |
| FlatEditor.SelfParentNeverEnds | client/src/components/TreeEditor.tsx:270-280 | a model that is its own parent makes the walk run forever |
| FlatEditor.IsDescendantOf | client/src/components/TreeEditor.tsx:270-280 | the while loop answers true exactly when the ancestor id is on the node's parent chain before `"0"`, an empty id or a missing model |
| FlatEditor.FlatDelete | client/src/components/TreeEditor.tsx:173-177 | the filter keeps the models of the kept list |
| FlatEditor.KeptMembers | client/src/components/TreeEditor.tsx:173-177 | a model survives exactly when it has another id and its parent chain avoids the id |
| FlatEditor.KeptInOrder | client/src/components/TreeEditor.tsx:173-177 | the survivors keep their relative order and fields |
| FlatEditor.KeptAll | client/src/components/TreeEditor.tsx:173-177 | when no model has the id and no chain reaches it, nothing is deleted |
| FlatEditor.KeptParentKept | client/src/components/TreeEditor.tsx:173-177 | a survivor's parent model survives too, so the delete leaves no orphan |
| FlatEditor.FlatEditEntries | client/src/components/TreeEditor.tsx:188-191 | a model with the id gets the new `text` and nothing else changes; any other model is unchanged |
| FlatEditor.FlatEditAbsent | client/src/components/TreeEditor.tsx:188-191 | a list without the id is returned unchanged |
| FlatEditor.FlatEditIdempotent | client/src/components/TreeEditor.tsx:188-191 | renaming twice with the same title is renaming once |
| FlatEditor.FlatTokensOfTree | client/src/components/TreeEditor.tsx:198-200 | the flat token total of a converted forest equals the nested editors' total |
| FlatEditor.FindNodeInTree | client/src/components/TreeEditor.tsx:257-268 | the loop with its recursive search and early return gives the first pre-order match, or nothing |
| FlatEditor.FlatTreeEditor.constructor | client/src/components/TreeEditor.tsx:155-156 | the flat list is the converted initial forest and nothing is selected |
| FlatEditor.FlatTreeEditor.Drop | client/src/components/TreeEditor.tsx:158-162 | the dropped list replaces the old one and the forest handed on is its conversion |
| FlatEditor.FlatTreeEditor.SelectNode | client/src/components/TreeEditor.tsx:164-171 | the model is selected and the node found in the converted forest is reported |
| FlatEditor.FlatTreeEditor.DeleteNode | client/src/components/TreeEditor.tsx:173-186 | the list loses the model and its descendants, the forest is converted, and the selection clears only for the deleted id |
| FlatEditor.FlatTreeEditor.EditNode | client/src/components/TreeEditor.tsx:188-196 | the list is renamed, the forest converted, the selection kept |
| AppSession.UpdateNodeContent | client/src/App.tsx:52-66 | the change keeps the root count, every id and the node count, and leaves a forest without the id as it is |
| AppSession.UpdateNodeContentFacts | client/src/App.tsx:52-66 | the content change keeps every id, the node count and the root count, leaves a forest without the id equal, and on unique ids changes only that node's content |
| AppSession.ContentChangeOnParsed | client/src/App.tsx:52-66 | on a freshly parsed forest the change replaces the content of exactly the one section with the id |
| AppSession.Transition | client/src/App.tsx:88-200 | the step changes only upload to edit, edit to export, export to edit, and edit or export back to upload |
| AppSession.TransitionTargets | client/src/App.tsx:138-196 | export is entered only from the editor, upload only by starting over |
| AppSession.Session.constructor | client/src/App.tsx:12-22 | the session starts in upload with no text, no tree, no selection and idle flags |
| AppSession.Session.HandleFileProcessed | client/src/App.tsx:24-31 | the text and name are kept, the tree is the parsed text and the step is edit |
| AppSession.Session.ProcessingSettled | client/src/App.tsx:33-41 | the delayed callback resets the flags and nothing else |
| AppSession.Session.SetProcessingState | client/src/App.tsx:17-22 | only the processing state changes |
| AppSession.Session.HandleTreeChange | client/src/App.tsx:44-46 | only the tree changes |
| AppSession.Session.HandleNodeSelect | client/src/App.tsx:48-50 | only the selection changes |
| AppSession.Session.HandleContentChange | client/src/App.tsx:52-72 | the tree gets the content change, and the selected copy is updated only when its id is the edited one |
| AppSession.Session.HandleReset | client/src/App.tsx:74-86 | the step is upload, the text, name, tree and selection are cleared and the flags idle |
| AppSession.Session.GoToExport | client/src/App.tsx:144 | the step becomes export and nothing else changes |
| AppSession.Session.GoBackToEditor | client/src/App.tsx:190 | the step becomes edit and nothing else changes |
| Chunker.ClampMaxTokens | deployments/firebase-cloud/client/src/components/ChunkExporter.tsx:217 | the limit is never below 100, and 0 or NaN input gives 1000 |
| Chunker.ClampOverlapTokens | deployments/firebase-cloud/client/src/components/ChunkExporter.tsx:234 | the overlap is never negative, and 0 or NaN input gives 100 |
| Chunker.Sentences | deployments/firebase-cloud/client/src/components/ChunkExporter.tsx:50 | the split always yields at least one piece |
| Chunker.SentencesShape | deployments/firebase-cloud/client/src/components/ChunkExporter.tsx:50 | no piece holds a `[.!?]`-then-whitespace break, and every piece but the last ends in `.`, `!` or `?` |
| Chunker.SentencesTrimmed | deployments/firebase-cloud/client/src/components/ChunkExporter.tsx:33-50 | on trimmed non-empty content every sentence is non-empty and trimmed |
| Chunker.SentencesJoin | deployments/firebase-cloud/client/src/components/ChunkExporter.tsx:50 | when every cut drops exactly one space, joining the sentences with spaces gives the text back |
| Chunker.LastWords | deployments/firebase-cloud/client/src/components/ChunkExporter.tsx:71 | the result is the last `n` words, all of them when `n` is 0 (`slice(-0)`) or at least the word count |
| Chunker.OverlapIsTail | deployments/firebase-cloud/client/src/components/ChunkExporter.tsx:70-71 | the overlap is always a suffix of the closed buffer |
| Chunker.OverlapWholeBuffer | deployments/firebase-cloud/client/src/components/ChunkExporter.tsx:70-71 | an overlap of 1 to 3 tokens keeps the whole buffer, because of `slice(-0)` |
| Chunker.OverlapWords | deployments/firebase-cloud/client/src/components/ChunkExporter.tsx:70-71 | from 4 tokens up, the overlap's space-separated words are exactly the last min(floor(overlap/4), word count) words of the closed buffer |
| Chunker.GluedWithoutHeaders | deployments/firebase-cloud/client/src/components/ChunkExporter.tsx:76 | without headers the separator is always empty, so sentences are glued together |
| Chunker.SplitSection | deployments/firebase-cloud/client/src/components/ChunkExporter.tsx:48-91 | the sentence loop and the final push compute the part fold |
| Chunker.ProcessNode | deployments/firebase-cloud/client/src/components/ChunkExporter.tsx:32-101 | the recursive procedure, with the chunk list and counter passed in and out, computes the walk of the node |
| Chunker.GenerateChunks | deployments/firebase-cloud/client/src/components/ChunkExporter.tsx:28-108 | the loop over the roots with no parent gives the chunks of the forest |
| Chunker.NodeOwnShape | deployments/firebase-cloud/client/src/components/ChunkExporter.tsx:33-91 | a section within the limit yields exactly one chunk with its own title, the trimmed text and its estimate; a larger one yields `(Part n)` titles numbered 1, 2, ..., the last numbered only after others; all at the node's level under the parent chunk |
| Chunker.FinishShape | deployments/firebase-cloud/client/src/components/ChunkExporter.tsx:81-91 | the final push keeps the part titles in order, suffixing the last only when `chunkCount > 1` |
| Chunker.FoldClosedParts | deployments/firebase-cloud/client/src/components/ChunkExporter.tsx:55-79 | the loop pushes exactly one part per closing sentence, in order; each holds more than the header, and its tokens plus those of the sentence that closed it exceed `maxTokens` |
| Chunker.SplitPartsFull | deployments/firebase-cloud/client/src/components/ChunkExporter.tsx:48-91 | a section over the limit gives its closed parts in order, each full up to its closing sentence, then at most one final part, and every part holds more than the header |
| Chunker.FinishPart | deployments/firebase-cloud/client/src/components/ChunkExporter.tsx:81-91 | the final push adds at most one chunk, and only one holding more than the header |
| Chunker.ForestOk | deployments/firebase-cloud/client/src/components/ChunkExporter.tsx:94-105 | walking nodes only appends chunks and keeps the walk well formed |
| Chunker.ForestSplit | deployments/firebase-cloud/client/src/components/ChunkExporter.tsx:103-105 | walking two lists of nodes one after the other is walking their concatenation |
| Chunker.ForestTail | deployments/firebase-cloud/client/src/components/ChunkExporter.tsx:97-99 | the nodes after node i only append to the chunks pushed up to it |
| Chunker.NodeUnder | deployments/firebase-cloud/client/src/components/ChunkExporter.tsx:94-99 | node i's own chunks follow those of the nodes before it, all carry the parent chunk's id, stay unchanged to the end, and its children are then walked under the last chunk pushed so far |
| Chunker.RootChunks | deployments/firebase-cloud/client/src/components/ChunkExporter.tsx:103-105 | the chunks a root pushes itself have no parent id and appear unchanged in the result |
| Chunker.ChildChunks | deployments/firebase-cloud/client/src/components/ChunkExporter.tsx:94-99 | the chunks a root's child pushes itself carry the id of the last chunk pushed once the root's own chunks were out, none when nothing was pushed, and appear unchanged in the result |
| Chunker.ChunksWellFormed | deployments/firebase-cloud/client/src/components/ChunkExporter.tsx:28-105 | the chunks are `chunk-1, chunk-2, ...` in emission order, hence distinct; the first has no parent and every parent id names an earlier chunk |
| Chunker.TotalTokensAppend | deployments/firebase-cloud/client/src/components/ChunkExporter.tsx:185 | the token total of two chunk runs is the sum of their totals |
| PyParser.PyExplicitIff | parser-to-tree.py:29-51 | on a line the explicit test holds exactly when `^(#{1,6})\s+(.+)$` matches, and every match gives the same level and trimmed title |
| PyParser.RStripColons | parser-to-tree.py:65-68 | every trailing colon is removed and nothing else |
| PyParser.ClassifyPyLine | parser-to-tree.py:29-68 | every header gets a level in 1..6 and a trimmed title |
| PyParser.PageMarkerSkipped | parser-to-tree.py:54-56 | a page marker is never a header |
| PyParser.BlankLineIsText | parser-to-tree.py:79-81 | a blank line is plain text, which collection drops |
| PyParser.PyAllCapsIsLevelOne | parser-to-tree.py:57-60 | a trimmed `[A-Z\s]` line of 3 to 79 characters that is no explicit header is level 1, also at lengths 51..79 where only the Title-case rule admits it |
| PyParser.ColonStripsAgree | parser-to-tree.py:65-68 | on a Title-case line `rstrip(':')` agrees with the single-colon strip of the TypeScript parser |
| PyParser.CollectSections | parser-to-tree.py:25-85 | the line loop with its in-place patching of the last section gives the grouped sections |
| PyParser.SectionsAreGroups | parser-to-tree.py:45-85 | section k is `section-k` with the k-th header's heading and the stripped `\n`-join of its non-blank body lines |
| PyParser.GroupsFollowHeaders | parser-to-tree.py:70-78 | there is one group per header line, with that line's heading, so page markers never become sections |
| PyParser.NoSectionsIffNoHeader | parser-to-tree.py:84-88 | there are no sections exactly when no line is a header |
| PyParser.BodiesAreBodyLines | parser-to-tree.py:79-81 | the bodies together are exactly the non-blank, non-marker lines after the headers, in order |
| PyParser.PreambleDropped | parser-to-tree.py:79-85 | text before the first header is lost |
| PyParser.Find | parser-to-tree.py:19 | the first occurrence, or none exactly when there is no occurrence |
| PyParser.AfterBanner | parser-to-tree.py:19-22 | with a banner, everything before it and 52 characters from it on are dropped; otherwise the text is kept |
| PyParser.ParseMarkdownToTree | parser-to-tree.py:11-98 | the banner skip, the line loop and the builder give the parsed forest |
| PyParser.PyParsedShape | parser-to-tree.py:88-120 | with no header the result is one `section-0` node named after the parser; otherwise the pre-order is the groups, children are deeper than parents and no back-references are set |
| TreeQuality.CountNodes | parser-to-tree.py:146-160 | the total is the number of nodes and every node is counted at its level in the histogram |
| TreeQuality.CountContent | parser-to-tree.py:169-178 | the totals are the words of every node and the number of nodes with words |
| TreeQuality.AnalyzeTreeQuality | parser-to-tree.py:144-188 | the report's figures are the node count, the level histogram, the word total and the nodes with content |
| TreeQuality.AnalysisFacts | parser-to-tree.py:144-188 | the histogram counts every node once at its own level, has keys exactly for the levels present, and `nodes_with_content` is at most `total_nodes` |
| TreeQuality.HistogramTotal | parser-to-tree.py:182-187 | summed over any distinct list of all levels present, the histogram gives `total_nodes` |
| TreeQuality.QualityScore | parser-to-tree.py:236-243 | the score is at most 100, at least ten per node up to 100, and 100 from ten nodes on |
| TreeQuality.MostNodes | parser-to-tree.py:248 | the parser with the most nodes is chosen, the first one on a tie, and none for no parser |
| TreeImages.LevelMax | generate-tree-images.py:121-134 | the largest level field among the nodes, 0 when none is above 0 |
| TreeImages.GetMaxDepth | generate-tree-images.py:121-134 | the result is the largest level field over all nodes, not the nesting depth |
| TreeImages.CountNodes | generate-tree-images.py:136-147 | the number of nodes at every depth |
| TreeImages.CountMeaningfulSections | generate-tree-images.py:199-213 | the meaningful nodes at every depth, at most the node count |
| TreeImages.NoiseCountsChildren | generate-tree-images.py:205-211 | a noise node adds nothing itself but everything meaningful below it counts |
| TreeImages.CountTotalWords | generate-tree-images.py:215-224 | the sum of the whitespace-split words of every node |
| TreeImages.WordsCoverMeaningful | generate-tree-images.py:199-224 | the word total is at least eleven times the meaningful count |
| TreeImages.FilterMeaningfulSections | generate-tree-images.py:277-307 | the loop with its appends and splices builds the filtered forest |
| TreeImages.FilteredEmptyIff | generate-tree-images.py:277-307 | the filter leaves something exactly when some node at any depth keeps itself |
| TreeImages.FilteredEntries | generate-tree-images.py:277-307 | the output is exactly the kept nodes in their original pre-order, each with its stripped title and its own level and content |
| TreeImages.KeptEntriesClean | generate-tree-images.py:285-305 | no kept entry has a noise title, and every kept title is stripped |
| TreeImages.FilterFacts | generate-tree-images.py:277-307 | nothing shown is noise or unstripped, no more nodes are shown than there were, and every node with more than five words or kept children is shown |
| CleanTree.CleanTreeOf | clean-tree-view.py:9-34 | the loop builds the cleaned forest |
| CleanTree.CleanedEmptyIff | clean-tree-view.py:9-34 | the result is empty exactly when no visible node has more than five words |
| CleanTree.CleanedEntries | clean-tree-view.py:9-34 | the output is exactly the kept visible nodes in pre-order, with stripped titles, levels and word counts; a noise node hides its whole subtree |
| CleanTree.VisibleNotNoise | clean-tree-view.py:17-20 | no visible node has a noise title |
| CleanTree.KeptEntriesFrom | clean-tree-view.py:22-28 | every output title is some input title, stripped |
| CleanTree.CleanFacts | clean-tree-view.py:9-34 | no output title is noise or unstripped, and the output never has more nodes than the input |
| CleanTree.FindInFirst | clean-tree-view.py:114-126 | nothing is found exactly when no title contains the target case-insensitively; otherwise the first such node in pre-order |
| CleanTree.FindSectionInTree | clean-tree-view.py:114-126 | the recursive loop with early return gives the first match in pre-order, or none |
| CleanTree.MeaningfulScore | clean-tree-view.py:86-87 | the score is at most the number of top-level sections |
| CleanTree.ScoresAt | clean-tree-view.py:84-87 | entry i is parser i's score |
| CleanTree.BestParser | clean-tree-view.py:80-91 | the best parser has the highest positive score, the earliest on a tie, and none when no score is positive |
| CompareParsers.AnalyzeStructure | compare-parsers.py:10-48 | the counts are those of the non-blank stripped lines of each kind, the clean and blank line counts, and the first three headers and definitions |
| CompareParsers.CleanLines | compare-parsers.py:37 | clean lines never exceed the non-blank lines |
| CompareParsers.Take3 | compare-parsers.py:46-47 | at most three items, a prefix of the list in order |
| CompareParsers.KindsDisjoint | compare-parsers.py:25-34 | no stripped line is of two kinds |
| CompareParsers.CollectedOfKind | compare-parsers.py:19-34 | every collected line is stripped, non-blank and of its kind |
| CompareParsers.CountsFit | compare-parsers.py:19-34 | the three counts together fit in the non-blank lines |
| CompareParsers.BlankContributesNothing | compare-parsers.py:20-22 | a blank line adds to no list |
| ContentQuality.HasHeaders | document-parser-poc.py:182 | true exactly when some stripped line longer than three characters is upper case |
| ContentQuality.HasNumbers | document-parser-poc.py:184 | true exactly when some character is a digit |
| ContentQuality.PointsRange | document-parser-poc.py:188-198 | the points are a multiple of 5, at most 100, and 100 exactly when all five tests pass |
| ContentQuality.AnalyzeContentQuality | document-parser-poc.py:168-207 | None or empty content gives the all-zero record; otherwise the words, non-blank lines, flags and capped score |
| ContentQuality.ScoreRange | document-parser-poc.py:188-206 | every reported score lies in 0..100 and is a multiple of 5 |
| ContentQuality.InsertDescending | document-parser-poc.py:282 | inserting into a ranking keeps it descending |
| ContentQuality.InsertWithScore | document-parser-poc.py:282 | an insert places the new result after all results of its score |
| ContentQuality.SortByScoreFacts | document-parser-poc.py:282 | the sort is descending, a permutation, and stable among equal scores |
| ContentQuality.RankedFacts | document-parser-poc.py:279-282 | the ranking holds exactly the successful results, highest first, ties in run order |
| SearchTerm.DropHeadingMarks | client/src/components/SimplePDFViewer.tsx:18 | a title starting with `#` loses exactly its whole leading `#` run and the whitespace after it; any other title is kept |
| SearchTerm.RemoveChar | client/src/components/SimplePDFViewer.tsx:19-21 | no copy of the character is left |
| SearchTerm.StarsRemoved | client/src/components/SimplePDFViewer.tsx:19-20 | the bold and italic steps together remove exactly the stars |
| SearchTerm.CollapseSpaces | client/src/components/SimplePDFViewer.tsx:24 | the result is empty exactly for the empty input, and starts with a space exactly when the input does |
| SearchTerm.CollapseKeepsText | client/src/components/SimplePDFViewer.tsx:24 | normalising spaces keeps every other character in order |
| SearchTerm.TrimKeepsText | client/src/components/SimplePDFViewer.tsx:25 | trimming removes only whitespace |
| SearchTerm.CleanTitleKeepsText | client/src/components/SimplePDFViewer.tsx:15-25 | on a title not starting with `#`, cleaning removes only stars, underscores and whitespace |
| SearchTerm.CleanTitleFacts | client/src/components/SimplePDFViewer.tsx:18-25 | a cleaned title has no `*` or `_`, is trimmed and single spaced |
| SearchTerm.LongWords | client/src/components/SimplePDFViewer.tsx:30 | only words longer than three characters, each from the input |
| SearchTerm.FirstThree | client/src/components/SimplePDFViewer.tsx:33 | the first up to three words |
| SearchTerm.GetSearchTerm | client/src/components/SimplePDFViewer.tsx:14-38 | the term is the cleaned title, or, only for a cleaned title under five characters, one to three space-separated content words each longer than three characters |
| SearchTerm.LongTitleWins | client/src/components/SimplePDFViewer.tsx:28 | a cleaned title of five or more characters is the term whatever the content |
| SearchTerm.TitleKept | client/src/components/SimplePDFViewer.tsx:28-34 | without content, or without a content word longer than three characters, the cleaned title stays |
| SearchTerm.FallbackWords | client/src/components/SimplePDFViewer.tsx:28-35 | when the fallback applies, the term's space-separated words are the first up to three long content words |
| SearchTerm.OffersPreview | client/src/components/SimplePDFViewer.tsx:40 | the preview is offered exactly when the name's last four characters are `.pdf` in any case |
| SearchTerm.PreviewIgnoresCase | client/src/components/SimplePDFViewer.tsx:40 | a name and its lower-case form get the same answer |
| MinimalApp.ParseToTree | client/src/App-minimal.tsx:38-62 | the loop computes the left fold of the line steps |
| MinimalApp.SectionCount | client/src/App-minimal.tsx:43-61 | one section per header line, plus one when non-blank text precedes the first header |
| MinimalApp.SectionsKeepText | client/src/App-minimal.tsx:43-59 | the sections laid end to end are the non-blank lines in order, headers marked and trimmed, other lines untrimmed with a newline |
| MinimalApp.SectionShape | client/src/App-minimal.tsx:47-54 | every section is well formed and every one but the first starts with the marker |
| MinimalApp.FirstSection | client/src/App-minimal.tsx:40-54 | text before the first header forms the first section without the marker; otherwise every section starts with it |
| MinimalApp.TokenEstimate | client/src/App-minimal.tsx:123 | the estimate is ceil(wordCount/4) |
| MinimalApp.View | client/src/App-minimal.tsx:111-123 | at least one word, the token bounds, a trimmed content and a one-line title |
| MinimalApp.DocumentWords | client/src/App-minimal.tsx:99 | the document word count is at least 1 |
| MinimalApp.TitleNeverFallsBack | client/src/App-minimal.tsx:113 | a parsed section is never shown under the fallback title |
| MinimalApp.HeaderTitle | client/src/App-minimal.tsx:113 | a header section is shown under its marked, trimmed header |

## Left out

- Servers, cloud functions, upload and input components, PDF and Markdown rendering, Firebase configuration and storage are I/O or UI, so they are not modelled.
- Plotting in `generate-tree-images.py` and console printing in the Python `main`s are output only, so they are not modelled.
- JSON/Blob exports, `new Date()` stamps and `Date.now()` ids are side effects or time. The ids and parsed integers are parameters.
- `setTimeout` in `handleFileProcessed` is asynchronous; `ProcessingSettled` models only its callback.
- The in-place reassignment of `node.children` in the delete handlers and the Python builder's shared dictionaries are modelled on values, so aliasing between the old and new trees is not captured.
- `onTreeChange` callbacks and React effects that copy `initialTree` into state are notifications to other components, so they are not modelled.
- `avgTokensPerChunk`, `spacing_quality` and `avg_words_per_node` are floating-point. `spacing_quality` is kept as its two integer operands and the others are left out.
- JavaScript `\s`, `trim`, and Python `strip`, `split`, `isupper` and `isdigit` are modelled on ASCII only. Unicode whitespace and case are not captured.
- Lengths are counted in characters. JavaScript's `.length` counts UTF-16 code units, so a character outside the Basic Multilingual Plane counts 2 there and 1 here. This affects `estimateTokens` (Tokens.EstimateTokens), the `< 5` test of `getSearchTerm` and the length bounds of the header classifier.
- The drag-and-drop library's reordering is outside the repository. `FlatTreeEditor.Drop` takes its result as input.
- FlatEditor.IsDescendantOf: the walk is bounded by ghost fuel, so the model covers only parent chains that end. `SelfParentNeverEnds` shows one that does not end.
- NodeModels.MaterializeDescribed: building the children lists recursively is bounded by fuel. The round trip holds when the fuel covers the forest's size.
- MarkdownWriter.Hashes: a negative level, which makes `repeat` throw in JavaScript, is modelled as no `#` instead of an exception.
- MarkdownRoundTrip.ReadBack: the re-parse is proved only for writable sections (levels 1 to 6, non-empty trimmed one-line titles, trimmed content with no line that reads as a header). Other trees are read back differently by the code itself.
- CleanTree.BestParser: when no parser scores above 0, `best_parser.upper()` raises in Python. The model returns `None` instead of an exception.
- TreeQuality.MostNodes: `max` over no analyses raises in Python, and `.upper()` on the missing result would crash. Both are modelled as `None`.
- The `test_*` wrappers of `document-parser-poc.py` call foreign libraries, so they are not modelled. Their results are inputs to the ranking.
- `print_tree` and `print_clean_tree` are console printing only, so they are not modelled.
