# PhiPy truth trees in Dafny

PhiPy decides whether a propositional argument is valid by building a
truth tree (a semantic tableau). The argument's sentences go at the top.
Complex formulas are decomposed into simpler ones, on one branch or on
two. A branch that holds both a formula and its negation is closed, and
the argument is valid when every branch closes. The repository has three
separate implementations of this pipeline, and they differ from each
other. This project models each one as its own set of Dafny modules,
following its own code:

- **The package** (`truth_tree_generator/logic/`):
  - `Lexer` is the character tokenizer. `Prop` holds the formula tree (`ASTNode`) and its printer `ast_to_string`, which is the same function as `formula_to_string`.
  - `Parser` is the recursive-descent precedence parser. It is a class over the shared token list with `pop(0)`, proved against a functional specification.
  - `Tableau` is the truth tree. It is an arena of nodes with parent and child indices, and a `TruthTree` class whose methods mutate the arena. It covers `add_child`, `get_leaves`, `is_valid`, the leaf-driven `expand_tree`, `decompose_node` and `check_closure`.
  - `Visualizer` is `visualize_tree`: line numbering, labels, one graph node per non-root tree node, one edge per link between two non-root nodes, and the closed-path edges. Its `Canvas` class carries the graph and the `line_number` fields.
- **The Flask monolith** (`truth_tree_generator/app.py`):
  - `App` has the tokenizer that never raises.
  - The parser is the `Flask` dialect of `Parser`: no trailing-token check, and Python's `IndexError` on an empty list.
  - `AppTree` holds the premise and expansion loops over leaf lists, `expand_node` with its detached nodes, and `check_contradiction`.
- **The `utils` package**:
  - `Logic` has the frozen formula datatype, `formula_to_str` and a reader that inverts it.
  - `PrefixParser` is the `and( , )` prefix parser over a popped token list.
  - `UtilsTree` is the recursive `expand_tree` with `mark_contradictions`. The tree is modelled as a value.
  - `UtilsCheck` has `combine_premises`, `generate_truth_tree`, `collect_open_branches` and `check_validity`.
  - `UtilsRender` has `visualize_tree` and `print_truth_tree_graphviz` over a `Digraph` class.
- **`Roman`**: `roman_numeral` of the argument outliner page, the greedy Roman numeral conversion.

Several of the proofs are about meaning as well as shape, with truth
values given by a set of true atoms:
- every decomposition rule of the package preserves truth;
- a closed package tree refutes its sentences;
- the `utils` validity verdict is sound once its two rule defects are corrected.

Where the code misbehaves, the model keeps the behaviour as written and
proves a lemma that exhibits it. A corrected definition carries the
intended property, and the rest of the model uses that definition (see
"## Findings").

Three facts about the code shape the model, and it keeps all three. Both
tokenizers read each letter as its own atom
(`truth_tree_generator/logic/parser.py:32-33`). They take ↔ only as the
last character (`parser.py:42-44`). The Flask tree does not put an atomic
premise among its parent's children (`app.py:161`).

## Model

| member | source | states |
|---|---|---|
| Lexer.Lex | truth_tree_generator/logic/parser.py:25-52 | Defines what `tokenize` returns or raises; Lexer.LexOkIffAccepted, Lexer.LexErrorIsFirstRejected and Lexer.LexOneTokenPerChar state its meaning |
| Lexer.Tokenize | truth_tree_generator/logic/parser.py:25-52 | The index loop computes the tokenizer specification: whitespace skipped, one token per accepted character, the first rejected character raised |
| Lexer.LexOkIffAccepted | truth_tree_generator/logic/parser.py:28-50 | Tokenizing succeeds exactly when every character is accepted: whitespace, a letter, ∧ ∨ ¬ →, a parenthesis, or a ↔ that is the last character |
| Lexer.LexErrorIsFirstRejected | truth_tree_generator/logic/parser.py:49-50 | A failure reports the first rejected character, and every character before it is accepted |
| Lexer.LexOneTokenPerChar | truth_tree_generator/logic/parser.py:28-51 | On success the tokens match the non-whitespace characters one to one, in order |
| Lexer.AdjacentLettersAreTwoAtoms | truth_tree_generator/logic/parser.py:32-33 | Two adjacent letters are two one-letter atoms, never one name |
| Lexer.IffNotLastRejected | truth_tree_generator/logic/parser.py:42-44 | A ↔ anywhere except at the end of the input makes tokenizing fail |
| Lexer.LexAgreesWithoutIff | truth_tree_generator/logic/parser.py:25-52 | On ↔-free text the tokenizer as written and the intended one (↔ accepted anywhere) give the same result |
| Prop.Render | truth_tree_generator/logic/parser.py:120-129 | Defines `ast_to_string` (also `formula_to_string` at truth_tree_generator/logic/truth_tree.py:120-129): atoms bare, ¬ and binary formulas parenthesised; Lexer.RenderHasIff and Parser.TextRoundTrip state what its output contains and reads back as |
| Lexer.RenderHasIff | truth_tree_generator/logic/parser.py:120-129 | For a formula with letter atoms, the printed form contains ↔ exactly when the formula has a biconditional |
| Lexer.RenderLexAsWritten | truth_tree_generator/logic/parser.py:42-44 | As written, tokenizing a printed formula gives its tokens when it has no ↔, and fails whenever it has one |
| Lexer.LexIntendedRender | truth_tree_generator/logic/parser.py:120-129 | The intended tokenizer reads the printed form of every formula with letter atoms back to that formula's token sequence |
| Lexer.IffBetweenAtomsRejected | truth_tree_generator/logic/parser.py:42-50 | "P ↔ Q" is rejected at the ↔ as written, and gives P ↔ Q when ↔ is accepted anywhere |
| Parser.Level | truth_tree_generator/logic/parser.py:63-99 | A precedence level that succeeds consumes at least one token and stops at a token it does not fold; its errors are its dialect's own and never the trailing-token error |
| Parser.Loop | truth_tree_generator/logic/parser.py:63-93 | The `while` loop of a binary level consumes tokens and stops only at a token of a looser level |
| Parser.Primary | truth_tree_generator/logic/parser.py:101-113 | `parse_atom` consumes at least one token on success and raises only its dialect's errors |
| Parser.Sentence | truth_tree_generator/logic/parser.py:115-118 | A sentence parse raises only errors of its dialect (the Flask parser has no trailing-token error) |
| Parser.Join | truth_tree_generator/logic/parser.py:63-93 | The node a level builds is the binary connective of that level, with the two operands in order |
| Parser.TokenStream.constructor | truth_tree_generator/logic/parser.py:62 | The stream starts with the whole token list |
| Parser.TokenStream.ParseAtom | truth_tree_generator/logic/parser.py:101-113 | Popping from the shared list gives the functional `parse_atom` result and leaves exactly its unread tokens |
| Parser.TokenStream.ParseNot | truth_tree_generator/logic/parser.py:95-99 | The same agreement for `parse_not` |
| Parser.TokenStream.ParseBinary | truth_tree_generator/logic/parser.py:63-93 | The same agreement for `parse_and`, `parse_or`, `parse_implies` and `parse_iff` |
| Parser.TokenStream.ParseSentence | truth_tree_generator/logic/parser.py:115-118 | `parse_sentence` returns the functional sentence result |
| Parser.SentenceReadsToks | truth_tree_generator/logic/parser.py:62-118 | The token sequence of any formula parses back to that formula, in both dialects |
| Parser.LevelAppend | truth_tree_generator/logic/parser.py:63-99 | Tokens appended after a parsed prefix that stop the level do not change what the level reads |
| Parser.LeftAssociative | truth_tree_generator/logic/parser.py:63-93 | A chain of one connective folds to the left: ((f1 op f2) op f3) … |
| Parser.AndChainGroupsLeft | truth_tree_generator/logic/parser.py:87-93 | P ∧ Q ∧ R parses as (P ∧ Q) ∧ R |
| Parser.Precedence | truth_tree_generator/logic/parser.py:63-93 | Operands of the next tighter level joined by a level's connective parse to that connective applied to them; the looseness order is ↔, →, ∨, ∧ |
| Parser.NegationBindsTighter | truth_tree_generator/logic/parser.py:87-99 | ¬P ∧ Q parses as (¬P) ∧ Q |
| Parser.LeadingNegations | truth_tree_generator/logic/parser.py:95-99 | n leading ¬ give n nested negations around what follows, and an error after them is passed on unchanged |
| Parser.ErrorClimbs | truth_tree_generator/logic/parser.py:63-99 | An error of the innermost level is the error of every level above it |
| Parser.EmptyInput | truth_tree_generator/logic/parser.py:101-103 | No tokens raise "Unexpected end of input"; the Flask parser indexes the empty list instead |
| Parser.OperandExpected | truth_tree_generator/logic/parser.py:112-113 | A connective or `)` where an operand is expected raises "Unexpected token" naming it, in both dialects |
| Parser.UnclosedParen | truth_tree_generator/logic/parser.py:104-108 | An unclosed `(` raises "Mismatched parentheses"; the Flask parser indexes the empty list |
| Parser.WrongCloser | truth_tree_generator/logic/parser.py:107-108 | A `(` closed by anything but `)` raises "Mismatched parentheses"; the Flask parser raises "Missing closing parenthesis" |
| Parser.LeftoverTokens | truth_tree_generator/logic/parser.py:115-117 | Tokens after a complete sentence are an error in the package and ignored by the Flask parser |
| Parser.PackageConsumesAll | truth_tree_generator/logic/parser.py:115-118 | A successful package parse has read every token |
| Parser.ParseText | truth_tree_generator/logic/parser.py:57-58 | A sentence is parsed exactly when it tokenizes and its tokens parse |
| Parser.ParseAll | truth_tree_generator/logic/parser.py:54-60 | Parsing a list of sentences gives one formula per sentence |
| Parser.ParseAllOk | truth_tree_generator/logic/parser.py:54-60 | The list parses exactly when every sentence does, and then the i-th formula is the i-th sentence's |
| Parser.ParseAllFirstError | truth_tree_generator/logic/parser.py:54-60 | A failure is the error of the first sentence that fails, and all earlier ones parse |
| Parser.CollectErrorSticks | truth_tree_generator/logic/parser.py:56-59 | Once a sentence has failed, later sentences do not change the outcome |
| Parser.ParseSentences | truth_tree_generator/logic/parser.py:54-60 | The loop over the sentences computes the list parse |
| Parser.TextRoundTrip | truth_tree_generator/logic/parser.py:120-129 | Printing a formula with one-letter atoms and parsing the text gives it back when it has no ↔; with a ↔ the tokenizer fails |
| Tableau.Leaves | truth_tree_generator/logic/truth_tree.py:24-33 | Defines `get_leaves`, which lists nodes of the tree; Tableau.LeavesFromSound, Tableau.LeavesFromComplete and Tableau.LeavesFromDistinct state that it lists every childless node below the start exactly once and nothing else |
| Tableau.LeavesFromSound | truth_tree_generator/logic/truth_tree.py:25-31 | Every node `collect_leaves` lists is childless and below the start node |
| Tableau.LeavesFromComplete | truth_tree_generator/logic/truth_tree.py:25-31 | Every childless node below the start node is listed |
| Tableau.LeavesFromDistinct | truth_tree_generator/logic/truth_tree.py:25-31 | No leaf is listed twice |
| Tableau.LeavesAreChildless | truth_tree_generator/logic/truth_tree.py:24-33 | A node is a leaf of the tree exactly when it has no children (a lone root is its own leaf) |
| Tableau.WithChildFacts | truth_tree_generator/logic/truth_tree.py:12-14 | `add_child` appends the new node as the parent's last child, makes the receiver its parent, and changes nothing else |
| Tableau.Rule | truth_tree_generator/logic/truth_tree.py:60-87 | Defines the rule table of `decompose_node`; Tableau.RuleSound and Tableau.NoRuleCases state that each rule keeps truth both ways and which formulas have none |
| Tableau.RuleSound | truth_tree_generator/logic/truth_tree.py:60-87 | Each rule preserves truth both ways: a formula is true exactly when one branch is, both stacked formulas are, or its single child is |
| Tableau.NoRuleCases | truth_tree_generator/logic/truth_tree.py:76-87 | `decompose_node` adds nothing exactly for atoms, negated atoms and negated biconditionals |
| Tableau.Decompose | truth_tree_generator/logic/truth_tree.py:60-87 | Decomposing keeps the tree well formed and only adds nodes |
| Tableau.DecomposeMeasure | truth_tree_generator/logic/truth_tree.py:60-87 | Decomposing a leaf that has a rule lowers the weighted size of what is left to do |
| Tableau.DecomposeJustified | truth_tree_generator/logic/truth_tree.py:60-87 | Every node added is justified by its parent's or its grandparent's rule |
| Tableau.CanDecompose | truth_tree_generator/logic/truth_tree.py:56-57 | `can_decompose` raises on the formula-less root and holds for every non-atom, ¬P included |
| Tableau.Expanded | truth_tree_generator/logic/truth_tree.py:47-53 | Corrected loop: repeating passes keeps the arena well formed and never shrinks it; Tableau.ExpandedComplete states where it ends |
| Tableau.ExpandedComplete | truth_tree_generator/logic/truth_tree.py:47-53 | Expanding until no leaf has a rule terminates, and every leaf of the result is atomic, a negated atom or a negated biconditional |
| Tableau.ExpandedFacts | truth_tree_generator/logic/truth_tree.py:47-53 | Expansion only adds nodes, keeps the tree justified, and never touches a node that already had children |
| Tableau.ChainTopNeverDecomposed | truth_tree_generator/logic/truth_tree.py:62-64 | The upper node of a stacked pair gets its child at once, so it is never a leaf and its own rule never fires |
| Tableau.StuckLeafStaysForever | truth_tree_generator/logic/truth_tree.py:47-57 | A ¬P or ¬(A ↔ B) leaf passes `can_decompose` and survives every pass unchanged, so the loop guard stays true |
| Tableau.NegatedAtomNeverFinishes | truth_tree_generator/logic/truth_tree.py:47-53 | The tree for the single sentence ¬P is a fixed point of the pass with the loop guard still true: `expand_tree` never returns |
| Tableau.ChainLiteralsAlwaysFail | truth_tree_generator/logic/truth_tree.py:98-103 | Collecting literals up the parent chain reaches the formula-less root and raises, from every node |
| Tableau.CheckClosureAlwaysRaises | truth_tree_generator/logic/truth_tree.py:90-116 | `check_closure` as written raises on every tree |
| Tableau.ClashMeansComplementaryPair | truth_tree_generator/logic/truth_tree.py:98-112 | The closure test holds exactly when the chain holds some atom P and also ¬P |
| Tableau.ClashRefutes | truth_tree_generator/logic/truth_tree.py:98-112 | No valuation makes every formula on a clashing chain true |
| Tableau.Closure | truth_tree_generator/logic/truth_tree.py:114-116 | Corrected closure: keeps the arena well formed, its size, and every node's formula and parent; Tableau.CloseLeavesMarks states which flags it sets |
| Tableau.CloseLeavesMarks | truth_tree_generator/logic/truth_tree.py:114-116 | The marking loop sets `closed` on exactly the listed leaves whose chain clashes, and changes nothing else |
| Tableau.ClosureMarksClashes | truth_tree_generator/logic/truth_tree.py:90-116 | After closure, every closed flag is honest (its chain clashes), a leaf is closed exactly when its chain clashes, no node with children is closed, and no child list changes |
| Tableau.ClosedTreeRefutes | truth_tree_generator/logic/truth_tree.py:21-22 | In a justified tree whose leaves are all closed, no valuation satisfies any node's chain |
| Tableau.Planted | truth_tree_generator/logic/truth_tree.py:36-39 | The root and one node per sentence, well formed; Tableau.PlantedShape gives the exact shape |
| Tableau.PlantedShape | truth_tree_generator/logic/truth_tree.py:36-39 | The root has no formula and has one child per sentence, in input order, each a fresh open leaf |
| Tableau.Generate | truth_tree_generator/logic/truth_tree.py:36-44 | Corrected pipeline: a well-formed arena with more nodes than sentences; Tableau.GenerateFacts and Tableau.GenerateSound state its meaning |
| Tableau.GenerateFacts | truth_tree_generator/logic/truth_tree.py:36-44 | The generated tree is justified and its closed flags are honest, with the sentences under the root |
| Tableau.GenerateSound | truth_tree_generator/logic/truth_tree.py:36-44 | When the generated tree is valid, no valuation makes any of the sentences true |
| Tableau.TruthTree.constructor | truth_tree_generator/logic/truth_tree.py:17-19 | The tree starts as the lone formula-less root |
| Tableau.TruthTree.AddChild | truth_tree_generator/logic/truth_tree.py:12-14 | The arena grows by the new child, linked both ways to its parent |
| Tableau.TruthTree.CollectLeaves | truth_tree_generator/logic/truth_tree.py:25-31 | The recursive walk returns the leaves below a node in left-to-right order |
| Tableau.TruthTree.GetLeaves | truth_tree_generator/logic/truth_tree.py:24-33 | `get_leaves` returns the leaves of the whole tree, each once |
| Tableau.TruthTree.IsValidTree | truth_tree_generator/logic/truth_tree.py:21-22 | `is_valid` holds exactly when every leaf is closed |
| Tableau.TruthTree.DecomposeNode | truth_tree_generator/logic/truth_tree.py:60-87 | The arena becomes the decomposition of the node |
| Tableau.TruthTree.AddBranched | truth_tree_generator/logic/truth_tree.py:65-70 | Two sibling children tagged with the rule are added to the node |
| Tableau.TruthTree.AddStacked | truth_tree_generator/logic/truth_tree.py:62-64 | A child and a grandchild tagged with the rule are added below the node |
| Tableau.Pass | truth_tree_generator/logic/truth_tree.py:50-52 | One pass of the `for leaf in leaves` loop keeps the arena well formed and never shrinks it; Tableau.TruthTree.PassOver runs it in place |
| Tableau.TruthTree.PassOver | truth_tree_generator/logic/truth_tree.py:50-52 | One pass decomposes every listed leaf that has a rule, in order |
| Tableau.TruthTree.AnyRule | truth_tree_generator/logic/truth_tree.py:49 | Corrected guard: holds exactly when some listed leaf has a rule (the source's `any(can_decompose)` also holds on ¬P and ¬↔ leaves) |
| Tableau.TruthTree.ExpandTree | truth_tree_generator/logic/truth_tree.py:47-53 | Corrected loop: with its guard restricted to leaves that have a rule, it ends in the fully expanded tree |
| Tableau.TruthTree.CheckNodeClosure | truth_tree_generator/logic/truth_tree.py:98-112 | Corrected walk, which skips the formula-less root where the source raises: answers whether the node's chain holds an atom and its negation |
| Tableau.TruthTree.CheckClosure | truth_tree_generator/logic/truth_tree.py:114-116 | Corrected closure (the source raises on every tree): the arena becomes the closure of the tree, with clashing leaves marked |
| Tableau.GenerateTruthTree | truth_tree_generator/logic/truth_tree.py:36-44 | Corrected pipeline: plants the sentences, expands with the corrected guard and closes with the corrected walk, giving the generated tree |
| Visualizer.PreOrderSound | truth_tree_generator/logic/visualizer.py:35-36 | Every node the recursive walk reaches is below the start node |
| Visualizer.PreOrderComplete | truth_tree_generator/logic/visualizer.py:35-36 | Every node below the start node is reached |
| Visualizer.PreOrderDistinct | truth_tree_generator/logic/visualizer.py:35-36 | No node is reached twice |
| Visualizer.DescendantsAreNonRoot | truth_tree_generator/logic/visualizer.py:39-41 | The walk from the root's children reaches every node except the root, each once |
| Visualizer.DecimalRoundTrip | truth_tree_generator/logic/visualizer.py:15 | The decimal line number in a label reads back as the number |
| Visualizer.Label | truth_tree_generator/logic/visualizer.py:12-28 | Composing a label fails, with the node named, exactly when line numbers are shown and the node has none yet |
| Visualizer.LabelReads | truth_tree_generator/logic/visualizer.py:12-28 | The label is "n.  " when numbers are shown, then the formula (⊚-wrapped atoms when asked), "  ×" when closed, and " (rule)" when asked and a rule is set |
| Visualizer.NodeLabel | truth_tree_generator/logic/visualizer.py:12-28 | The label-building steps give that label |
| Visualizer.DrawnAt | truth_tree_generator/logic/visualizer.py:30 | One graph node per visited tree node, in visiting order, with its label |
| Visualizer.TreeEdgesMembers | truth_tree_generator/logic/visualizer.py:32-33 | An unmarked edge is drawn for a visited node exactly when it has a non-root parent, and it runs from that parent |
| Visualizer.TreeEdgesDistinct | truth_tree_generator/logic/visualizer.py:32-33 | No tree edge is drawn twice |
| Visualizer.Emit | truth_tree_generator/logic/visualizer.py:10-36 | Defines what `add_node` emits or raises; Visualizer.EmitOk and Visualizer.EmitFails state both outcomes |
| Visualizer.EmitOk | truth_tree_generator/logic/visualizer.py:10-36 | When every node below is labelled, `add_node` draws the subtree in pre-order with one edge into every node from its parent |
| Visualizer.EmitFails | truth_tree_generator/logic/visualizer.py:10-36 | A node below without a line number makes `add_node` fail |
| Visualizer.RootNumberedMeaning | truth_tree_generator/logic/visualizer.py:39-40 | The root's children get line numbers 1, 2, … in order; other nodes keep theirs |
| Visualizer.DrawRootsOk | truth_tree_generator/logic/visualizer.py:39-41 | Drawing the root's children in turn draws every non-root node in pre-order, and no edge from the root |
| Visualizer.DrawRootsFails | truth_tree_generator/logic/visualizer.py:39-41 | An unnumbered node under the root's children makes the drawing fail |
| Visualizer.ChainMarks | truth_tree_generator/logic/visualizer.py:56-62 | The red edges of a path are exactly the parent-to-child steps on it, above the node and below the root |
| Visualizer.ClosedMarksMeaning | truth_tree_generator/logic/visualizer.py:53-62 | A red edge is drawn exactly when some listed leaf marks it |
| Visualizer.MarksMeaning | truth_tree_generator/logic/visualizer.py:53-62 | A red edge runs from a non-root parent to a child exactly when some closed leaf lies below that child |
| Visualizer.Visualize | truth_tree_generator/logic/visualizer.py:5-64 | Defines the drawing or its error; Visualizer.VisualizeOk and Visualizer.VisualizeDraws state both |
| Visualizer.VisualizeOk | truth_tree_generator/logic/visualizer.py:5-64 | Drawing succeeds exactly when every non-root node is labelled after the root children are numbered; the graph is then all non-root nodes, their edges, and the red edges when asked |
| Visualizer.VisualizeDraws | truth_tree_generator/logic/visualizer.py:5-64 | A successful drawing has one node per non-root tree node, one plain edge per non-root parent link, and red edges exactly on paths to closed leaves |
| Visualizer.Numbered | truth_tree_generator/logic/visualizer.py:44-49 | Defines the line numbers `number_nodes` leaves behind; Visualizer.NumberedMeaning states them |
| Visualizer.NumberedMeaning | truth_tree_generator/logic/visualizer.py:44-49 | `number_nodes` gives the nodes visited in pre-order the numbers k+1, k+2, … and leaves other numbers alone |
| Visualizer.GrandchildUnnumbered | truth_tree_generator/logic/visualizer.py:14-15 | With line numbers shown, a root child that has children leaves a node unnumbered when it is drawn |
| Visualizer.NoGrandchildrenNumbered | truth_tree_generator/logic/visualizer.py:39-41 | If no root child has children, every drawn node is numbered |
| Visualizer.LineNumbersReadBeforeAssigned | truth_tree_generator/logic/visualizer.py:39-51 | With line numbers shown, drawing a fresh tree succeeds exactly when no root child has children |
| Visualizer.ShownNumberOf | truth_tree_generator/logic/visualizer.py:44-51 | Numbering first, the root's children show their position, and the others show their pre-order position after them |
| Visualizer.ShownNumbersDistinct | truth_tree_generator/logic/visualizer.py:44-51 | Numbering first, distinct nodes show distinct numbers |
| Visualizer.NumberedFirstNeverFails | truth_tree_generator/logic/visualizer.py:39-51 | Numbering before drawing never fails and draws every non-root node with those numbers |
| Visualizer.ClosedPath | truth_tree_generator/logic/visualizer.py:56-60 | The `while current.parent` walk collects the node and its ancestors below the root |
| Visualizer.Canvas.constructor | truth_tree_generator/logic/visualizer.py:6-8 | The graph starts empty, and the nodes keep whatever line numbers they already carry |
| Visualizer.Canvas.NumberNodes | truth_tree_generator/logic/visualizer.py:44-49 | The recursive numbering writes the pre-order numbers and returns k plus the number of nodes it numbered |
| Visualizer.Canvas.AddNode | truth_tree_generator/logic/visualizer.py:10-36 | The graph grows as `add_node` specifies, or the call fails at the first unlabelled node |
| Visualizer.Canvas.DrawRootChildren | truth_tree_generator/logic/visualizer.py:39-41 | The root-children loop numbers each child and draws it |
| Visualizer.Canvas.MarkPath | truth_tree_generator/logic/visualizer.py:61-62 | One red edge per consecutive pair of the path, from parent to child |
| Visualizer.Canvas.MarkLeaf | truth_tree_generator/logic/visualizer.py:54-62 | A closed leaf adds the red edges of its path to the root; an open one adds nothing |
| Visualizer.Canvas.MarkClosedBranches | truth_tree_generator/logic/visualizer.py:53-62 | The loop over the leaves adds the red edges of every closed leaf |
| Visualizer.Canvas.VisualizeTree | truth_tree_generator/logic/visualizer.py:5-64 | The whole drawing, and the line numbers left on the nodes afterwards: after a success, every non-root node, the root's children included, carries n + 1 plus its pre-order position, where n is the number of root children; after a failure, the first j root children carry 1 to j, for some j ≥ 1 |
| App.AppLex | truth_tree_generator/app.py:31-51 | Never more tokens than characters; App.AppLexIsLexOfKept states exactly which tokens |
| App.AppTokenize | truth_tree_generator/app.py:31-51 | The index loop computes the Flask token list |
| App.ReadChar | truth_tree_generator/app.py:35-49 | The `if`/`elif` chain gives the token of one character, if any |
| App.SliceTest | truth_tree_generator/app.py:45-47 | The two-character slice equals "↔" exactly when ↔ is the last character |
| App.AppLexIsLexOfKept | truth_tree_generator/app.py:31-51 | The Flask tokenizer never raises: it is the package tokenizer applied to the characters it keeps |
| App.AppLexAgrees | truth_tree_generator/app.py:31-51 | On every text the package tokenizer accepts, the two tokenizers agree |
| App.InnerIffDropped | truth_tree_generator/app.py:45-49 | A ↔ between atoms is dropped silently, so "P↔Q" reads as the two atoms P Q where the package raises |
| App.StepOf | truth_tree_generator/app.py:120-161 | Defines the rule table of `expand_node`; App.StepMeaning states what each rule keeps true |
| App.ExpandShape | truth_tree_generator/app.py:120-161 | `expand_node` on a childless node adds a stacked pair, two siblings or one child under it, or returns a detached node that is not among its parent's children; nothing else changes |
| App.Expand | truth_tree_generator/app.py:120-161 | `expand_node` always adds a node; App.ExpandShape and App.ExpandLeaves state where and what it returns |
| App.ExpandLeaves | truth_tree_generator/app.py:120-161 | The nodes `expand_node` returns and the formulas they hold |
| App.StepMeaning | truth_tree_generator/app.py:120-161 | Each rule keeps truth: stacked formulas both ways, siblings from the formula (both ways except ↔), a single child both ways; literals and ¬↔ are detached |
| App.IffSplitAlwaysTrue | truth_tree_generator/app.py:134-139 | The ↔ rule branches into A → B and B → A, one of which is true under every valuation, so the rule loses the formula |
| App.Premises | truth_tree_generator/app.py:183-187 | The premise loop keeps a list of distinct childless leaves and only adds nodes |
| App.GrowsDecomposes | truth_tree_generator/app.py:194 | Both the written guard and the corrected one pass only formulas the rule table decomposes |
| App.AnyGrowsMeaning | truth_tree_generator/app.py:193-196 | The `expanded` flag is set exactly when some listed leaf passes the guard |
| App.PassOver | truth_tree_generator/app.py:192-200 | One pass only adds nodes |
| App.PassOverFacts | truth_tree_generator/app.py:192-200 | One pass keeps the leaf list distinct and childless, only adds nodes, and lowers the measure when it expands something |
| App.QuietPass | truth_tree_generator/app.py:190-202 | A pass in which no leaf passes the guard changes nothing, so the loop stops |
| App.Settle | truth_tree_generator/app.py:190-202 | Defines the `while True` loop; App.SettleFacts states that it ends with no leaf passing the guard |
| App.SettleFacts | truth_tree_generator/app.py:190-202 | The `while True` loop terminates, and no leaf it leaves passes the guard |
| App.ChainUnfold | truth_tree_generator/app.py:164-169 | One step of the parent walk adds the node's formula, if any, in front of its ancestors' |
| App.ClashMeaning | truth_tree_generator/app.py:171-180 | The formula scan finds a clash exactly when some atom P and ¬P are both present |
| App.ClashUnsatisfiable | truth_tree_generator/app.py:171-180 | No valuation makes every formula of a clashing list true |
| App.FindClash | truth_tree_generator/app.py:171-180 | The nested loops compute the clash test |
| App.MarkMeaning | truth_tree_generator/app.py:205-207 | A node ends up closed exactly when it was, or it is a listed leaf whose chain clashes |
| App.Generated | truth_tree_generator/app.py:116-209 | Defines the generated tree; App.GeneratedLeaves and App.GeneratedClosed state its leaves and its closed flags |
| App.GeneratedLeaves | truth_tree_generator/app.py:116-209 | The final leaves are distinct and childless, and none passes the guard |
| App.GeneratedClosed | truth_tree_generator/app.py:204-207 | A node of the result is closed exactly when it is a final leaf whose chain clashes |
| App.ContradictoryUnsatisfiable | truth_tree_generator/app.py:183-207 | The single premise P ∧ ¬(P ∨ Q) is false under every valuation |
| App.NegatedLeafLeftOpen | truth_tree_generator/app.py:194 | As written, its tree stops with the leaf ¬(P ∨ Q) undecomposed, and that leaf stays open |
| App.NegatedLeafClosedWhenDecomposed | truth_tree_generator/app.py:190-207 | With the corrected guard the leaf is decomposed to ¬P, ¬Q, and the final leaf closes |
| App.AppTree.constructor | truth_tree_generator/app.py:117-118 | The tree starts as the formula-less root |
| App.AppTree.AddChild | truth_tree_generator/app.py:122 | `children.append(TreeNode(f, node))` links a new node below its parent |
| App.AppTree.ExpandNode | truth_tree_generator/app.py:120-161 | The in-place `expand_node` computes the rule table's step and returns its new leaves |
| App.AppTree.CheckContradiction | truth_tree_generator/app.py:163-180 | The parent walk and the scan answer whether the node's chain clashes |
| App.AppTree.ExpandPremise | truth_tree_generator/app.py:184-187 | The inner loop expands the premise below each leaf in order and joins the returned lists |
| App.AppTree.ExpandPass | truth_tree_generator/app.py:191-200 | Corrected pass (the source's guard skips every NOT formula): one pass of the expansion loop with the corrected guard, and its `expanded` flag |
| App.AppTree.CloseLeaves | truth_tree_generator/app.py:205-207 | The closing loop marks the leaves whose chains clash |
| App.GenerateTruthTree | truth_tree_generator/app.py:116-209 | Corrected pipeline: the premise loop, the expansion loop with the corrected guard, and the closing loop together give the generated tree |
| PrefixParser.Tokenize | utils/parser.py:5-8 | Defines `tokenize`; PrefixParser.TokenizeFacts states what its tokens are |
| PrefixParser.TokenizeFacts | utils/parser.py:5-8 | Every token is a `(`, `)` or `,` alone or a run of other non-whitespace characters, and the tokens joined are the input without its whitespace |
| PrefixParser.Parse | utils/parser.py:10-36 | A successful parse consumes at least one token |
| PrefixParser.Operands | utils/parser.py:17-34 | Reading a keyword's operands consumes tokens |
| PrefixParser.SecondOperand | utils/parser.py:25-34 | Reading the second operand consumes tokens |
| PrefixParser.ParseFront | utils/parser.py:10-36 | No tokens raise "Unexpected EOF", a leading `(` raises "Unexpected '('", and any other non-keyword token is an atom, `)` and `,` included |
| PrefixParser.StrayCloserIsAtom | utils/parser.py:35-36 | The text ")" parses as an atom named ")" |
| PrefixParser.ParseNot | utils/parser.py:20-23 | `not ( X )` reads as Not(X) |
| PrefixParser.ParseConnective | utils/parser.py:24-34 | `and`, `or` or `implies` `( X , Y )` reads as And, Or or Implies of X and Y |
| PrefixParser.ParseWrite | utils/parser.py:10-36 | Every formula whose atom names are non-empty, free of whitespace, `(`, `)` and `,`, and not a keyword, written in prefix notation, parses back, and the tokens after it are left alone |
| PrefixParser.Argument | utils/parser.py:38-40 | Defines `parse_argument`; PrefixParser.ArgumentRoundTrip states that it reads back any formula with plain, non-keyword atom names, written in prefix notation with spaces between the tokens |
| PrefixParser.ArgumentRoundTrip | utils/parser.py:38-40 | `parse_argument` reads back any formula with plain, non-keyword atom names, written in prefix notation with spaces between the tokens |
| PrefixParser.DelimitersUnchecked | utils/parser.py:19-22 | The tokens popped as delimiters are never checked: `not [ P ]` parses as Not(P) |
| PrefixParser.KeywordAtEnd | utils/parser.py:19 | A keyword with nothing after it fails on the empty pop |
| PrefixParser.PrefixStream.constructor | utils/parser.py:39 | The stream holds the token list |
| PrefixParser.PrefixStream.Pop | utils/parser.py:14 | `pop(0)` removes and returns the first token, or fails on an empty list |
| PrefixParser.PrefixStream.ParseFormula | utils/parser.py:10-36 | Popping from the shared list gives the functional parse and leaves exactly its unread tokens |
| PrefixParser.PrefixStream.ParseOperands | utils/parser.py:18-34 | The same agreement for a keyword's operands |
| PrefixParser.PrefixStream.ParseSecond | utils/parser.py:25-34 | The same agreement for a second operand |
| PrefixParser.ParseArgument | utils/parser.py:38-40 | `parse_argument` gives the formula at the front of the text and ignores what follows |
| Logic.FormulaToStr | utils/truth_tree.py:101-113 | A printed negation starts with ¬ and a printed binary formula is parenthesised; Logic.ReadFormulaToStr states that it reads back |
| Logic.Read | utils/truth_tree.py:101-113 | The reader of printed formulas consumes input when it succeeds |
| Logic.Glyph | utils/truth_tree.py:106-111 | The printed connective determines the binary variant |
| Logic.ReadFormulaToStr | utils/truth_tree.py:101-113 | Reading the printed form of a readable formula (atom names non-empty, not starting with ¬ or `(`, with no space or `)`), followed by a boundary, gives the formula and the rest |
| Logic.FormulaToStrInjective | utils/visualizer.py:5-17 | Formulas whose atom names cannot be confused with the notation print differently, so they are distinct counterexample keys |
| UtilsTree.Clash | utils/truth_tree.py:89-94 | Defines when `check_for_contradictions` closes a node; UtilsTree.MarkedAt and UtilsTree.ClosedIffComplementAbove state it on the tree |
| UtilsTree.RuleOf | utils/truth_tree.py:38-80 | Every formula a rule adds weighs less than the decomposed one, so the recursion ends |
| UtilsTree.MarkFrom | utils/truth_tree.py:88-99 | Marking keeps every node's formula and number of children; UtilsTree.MarkedAt states which nodes it closes |
| UtilsTree.MarkTwice | utils/truth_tree.py:84-99 | Marking again from a larger set of seen formulas is the same as marking once from it: flags are only ever set |
| UtilsTree.Expand | utils/truth_tree.py:38-82 | The expanded node holds its formula and is not closed; UtilsTree.ExpandIsMarkedGrow states the whole tree |
| UtilsTree.Grow | utils/truth_tree.py:38-80 | The tree without marking: its root holds the formula and is open; UtilsTree.HoldingBranch states its truth-preserving branches |
| UtilsTree.ExpandIsMarkedGrow | utils/truth_tree.py:38-82 | The recursion, which marks each subtree as it returns, equals growing the whole tree and marking once from the root |
| UtilsTree.MarkedAt | utils/truth_tree.py:88-99 | Marking keeps the shape and the formulas, and closes a node exactly when its formula's complement is among the formulas above it |
| UtilsTree.ClosedIffComplementAbove | utils/truth_tree.py:82-99 | In the expanded tree a node is closed exactly when a strict ancestor holds its complement |
| UtilsTree.RuleHolds | utils/truth_tree.py:39-78 | With the corrected rules, a true formula has its stacked formulas both true, or some child true |
| UtilsTree.HoldingBranch | utils/truth_tree.py:38-82 | With the corrected rules, a valuation that makes the root true makes every formula on some root-to-leaf branch true |
| UtilsCheck.Conj | utils/truth_tree.py:25-28 | Defines the left-nested conjunction of the premises; UtilsCheck.ConjHolds states its truth value |
| UtilsCheck.ConjHolds | utils/truth_tree.py:22-28 | The combined premise is true exactly when every premise is |
| UtilsCheck.CombinePremises | utils/truth_tree.py:22-28 | An empty list raises; otherwise the result is the left-nested conjunction of the premises |
| UtilsCheck.GenerateTruthTree | utils/truth_tree.py:30-36 | The root holds the combined premises and the negated conclusion, and the tree is its expansion |
| UtilsCheck.OpenBranches | utils/truth_tree.py:141-147 | Defines the branches `collect_open_branches` collects; UtilsCheck.OpenBranchesMeaning states exactly which |
| UtilsCheck.OpenBranchesMeaning | utils/truth_tree.py:141-147 | A branch is collected exactly when it is the path to an open leaf |
| UtilsCheck.CollectOpenBranches | utils/truth_tree.py:141-147 | The recursion appends the open branches below the node, in depth-first order, to the list |
| UtilsCheck.BranchLabelsMeaning | utils/truth_tree.py:138 | The keys from one branch are the printed formulas of its nodes |
| UtilsCheck.LabelsMeaning | utils/truth_tree.py:138 | The keys are exactly the printed formulas of the nodes on the open branches |
| UtilsCheck.AddLabels | utils/truth_tree.py:138 | Adding a branch adds its printed formulas as keys, all mapped to True |
| UtilsCheck.CheckValidity | utils/truth_tree.py:131-139 | Valid exactly when no branch is open; otherwise the counterexample maps every printed formula on the open branches to True |
| UtilsCheck.SatisfiableLeavesOpenBranch | utils/truth_tree.py:131-147 | With the corrected rules, a satisfiable root leaves an open branch |
| UtilsCheck.ValidVerdictIsSound | utils/truth_tree.py:131-139 | With the corrected rules, a valid verdict means every valuation of the premises makes the conclusion true |
| UtilsCheck.NegatedAtomUnsoundAsWritten | utils/truth_tree.py:70-73 | As written, ¬P ⊢ Q is judged valid although the valuation with nothing true refutes it |
| UtilsCheck.SelfEntailmentRejectedAsWritten | utils/truth_tree.py:39-45 | As written, P ⊢ P is judged invalid |
| UtilsCheck.SelfEntailmentAcceptedIntended | utils/truth_tree.py:39-45 | With the corrected rules, P ⊢ P is judged valid |
| UtilsRender.Digraph.constructor | utils/visualizer.py:21 | The graph starts with no nodes and no edges |
| UtilsRender.Digraph.Node | utils/visualizer.py:25 | `node` appends one node |
| UtilsRender.Digraph.Edge | utils/visualizer.py:27 | `edge` appends one edge |
| UtilsRender.Label | utils/truth_tree.py:120 | Defines a node's label, its formula then ` [x]` when marked and closed |
| UtilsRender.AddNode | utils/visualizer.py:23-29 | The walk appends the subtree's nodes in pre-order, an edge from the parent when given, and the subtree's edges |
| UtilsRender.Nodes | utils/visualizer.py:23-29 | Defines the nodes the walk adds; UtilsRender.NodesArePreorder states them |
| UtilsRender.NodesArePreorder | utils/visualizer.py:23-29 | The k-th node drawn is the k-th node in pre-order, with its printed formula as label |
| UtilsRender.Edges | utils/visualizer.py:26-29 | Defines the edges the walk adds; UtilsRender.EdgesAreTree states them |
| UtilsRender.EdgesAreTree | utils/visualizer.py:26-29 | There is one edge per non-root node, into that node, from its parent |
| UtilsRender.PreorderStartsWithRoot | utils/visualizer.py:31 | The walk starts with the root |
| UtilsRender.VisualizeTree | utils/visualizer.py:20-32 | The graph has every node in pre-order, root included, and one edge from each non-root node's parent |
| UtilsRender.PrintTruthTreeGraphviz | utils/truth_tree.py:115-129 | The same graph with " [x]" after the label of closed nodes |
| Roman.Groups | streamlit_app/pages/Argument_Outliner.py:53-56 | The greedy choice only uses table positions from the current one on |
| Roman.Spell | streamlit_app/pages/Argument_Outliner.py:52-56 | At least one letter per group |
| Roman.RomanNumeral | streamlit_app/pages/Argument_Outliner.py:49-57 | The nested loops compute the lower-cased numeral of the greedy groups |
| Roman.NonPositiveIsEmpty | streamlit_app/pages/Argument_Outliner.py:53-54 | A number below 1 has no groups, so its numeral is empty |
| Roman.GroupsTotal | streamlit_app/pages/Argument_Outliner.py:52-56 | The values of the groups sum to the number |
| Roman.TableDescends | streamlit_app/pages/Argument_Outliner.py:50 | The table lists its values strictly from the largest down |
| Roman.GroupsDescend | streamlit_app/pages/Argument_Outliner.py:52-56 | Groups come in table order |
| Roman.RomanDescends | streamlit_app/pages/Argument_Outliner.py:50-56 | The group values never increase along the numeral |
| Roman.RomanCanonical | streamlit_app/pages/Argument_Outliner.py:49-56 | Only M, C, X and I repeat, and no group but M comes four times in a row |
| Roman.Lower | streamlit_app/pages/Argument_Outliner.py:57 | Lower-casing keeps the length; Roman.RomanLowerCase states the letters |
| Roman.RomanLowerCase | streamlit_app/pages/Argument_Outliner.py:57 | The numeral uses only the letters m d c l x v i |

## Left out

- Graph rendering: the graphviz attributes (`rankdir`, shapes, colours, pen width) and the `dot.source` text are not modelled. A graph is a list of nodes and a list of edges, and node ids are arena positions (or pre-order positions in `utils`) instead of `id(node)`.
- Lexer.IsAlpha: `str.isalpha` is modelled on the ASCII letters only; non-ASCII letters are rejected rather than read as atoms. `str.isspace` is modelled by a fixed list of whitespace characters.
- The Flask routes, JSON handling and `visualize_tree` of `truth_tree_generator/app.py` (lines 212-267), including the route's validity test over `truth_tree.children`: web I/O and presentation.
- UtilsTree: the `utils` tree is a value, so sharing between `TreeNode` objects is not modelled. No node is shared in the source either.
- `TreeNode.__repr__` (utils/truth_tree.py:15-16) is not modelled: it only prints.
- The "Unknown formula type" and "Unknown node type" errors of the printers cannot arise in the model, because its formula types are closed.
- UtilsCheck.ValidVerdictIsSound: soundness of the corrected `utils` tree is proved, completeness is not. `collect_open_branches` checks only the leaf's own flag, so an "invalid" verdict is not proved to come with a real counterexample.
- UtilsCheck.CheckValidity: the counterexample is a `map`, so the insertion order of the Python dict (utils/truth_tree.py:138) is not kept. Nothing in the core reads that order.
- Logic.FormulaToStrInjective: atom names that start with `¬` or `(`, or that contain a space or `)`, can print like other formulas. The lemma requires names free of these characters.
- Tableau.TruthTree.AnyRule: computes the corrected guard "some listed leaf has a rule". The guard as written, `any(can_decompose)` at truth_tree.py:49, also holds on ¬P and ¬↔ leaves; it is Tableau.CanDecompose, and Tableau.NegatedAtomNeverFinishes shows the loop it drives never ends.
- Tableau.TruthTree.ExpandTree: runs the loop with the corrected guard. The loop as written does not terminate on a ¬P or ¬↔ leaf (Tableau.StuckLeafStaysForever).
- Tableau.TruthTree.CheckNodeClosure: skips the formula-less root. `collect_literals` (truth_tree.py:91-96) reads the root's missing `type` and raises (Tableau.ChainLiteralsAlwaysFail).
- Tableau.TruthTree.CheckClosure: ensures the corrected closure. `check_closure` as written raises on every tree (Tableau.CheckClosureAlwaysRaises).
- Tableau.GenerateTruthTree: returns the corrected tree. As written, `generate_truth_tree` never returns when a ¬P or ¬↔ leaf appears, and otherwise raises in `check_closure`.
- App.AppTree.ExpandPass: uses the corrected guard, which skips literals and negated biconditionals, the formulas `expand_node` cannot decompose. The guard at app.py:193-194 skips every NOT formula (App.NegatedLeafLeftOpen).
- App.GenerateTruthTree: runs the expansion loop with the corrected guard. As written, negated compound leaves are never decomposed and stay open (App.NegatedLeafLeftOpen).
- The Streamlit pages other than `roman_numeral`, the browser script, the survey formatter and the predicate-logic parser (an nltk grammar that is not part of this model) are outside the core.

## Findings

| source | as written | input that shows it | evidently intended | confidence | as-written member | corrected member |
|---|---|---|---|---|---|---|
| truth_tree_generator/logic/parser.py:42-44 | `sentence[i:i+2] == '↔'` compares a two-character slice with a one-character string, so ↔ is accepted only as the last character | "P ↔ Q" raises "Unexpected character: ↔" | ↔ is a token wherever it occurs, so every printed formula with letter atoms reads back | not executed | Lexer.RenderLexAsWritten | Lexer.LexIntendedRender |
| truth_tree_generator/logic/truth_tree.py:90-116 | `collect_literals` reads `node.formula.type` on every node up to the root, whose formula is None | any tree, for example one with the single sentence P | the parent walk stops at, or skips, the formula-less root | not executed | Tableau.CheckClosureAlwaysRaises | Tableau.ClosureMarksClashes |
| truth_tree_generator/logic/truth_tree.py:47-57 | `can_decompose` holds for ¬P, but `decompose_node` adds nothing for it, so the loop guard never turns false | the single sentence ¬P | leaves without a rule count as finished | not executed | Tableau.NegatedAtomNeverFinishes | Tableau.ExpandedComplete |
| truth_tree_generator/logic/visualizer.py:15 | `add_node` reads `line_number` while drawing, but `number_nodes` only runs after all nodes are drawn | a tree whose root child has a child, such as the sentence P ∧ Q after decomposition, drawn with line numbers shown (the default) | number the nodes before drawing them | not executed | Visualizer.LineNumbersReadBeforeAssigned | Visualizer.NumberedFirstNeverFails |
| truth_tree_generator/app.py:194 | the guard skips every NOT formula, so negated compound leaves are never decomposed | the premise P ∧ ¬(P ∨ Q) leaves the leaf ¬(P ∨ Q) open | skip literals and negated biconditionals, the formulas `expand_node` cannot decompose | not executed | App.NegatedLeafLeftOpen | App.NegatedLeafClosedWhenDecomposed |
| utils/truth_tree.py:39-45 | And adds its two conjuncts as sibling branches, so each conjunct sits on a branch without the other | P ⊢ P: the root P ∧ ¬P splits into sibling branches P and ¬P, and the branch holding only P stays open | stack the conjuncts on one branch | not executed | UtilsCheck.SelfEntailmentRejectedAsWritten | UtilsCheck.SelfEntailmentAcceptedIntended |
| utils/truth_tree.py:70-73 | ¬ of an atom or of an implication adds the un-negated inner formula as a child | ¬P ⊢ Q: the root ¬P ∧ ¬Q splits into ¬P and ¬Q, each gets its un-negated atom below it and closes, so the argument is judged valid | ¬P is a literal with no child, and ¬(A → B) adds A ∧ ¬B | not executed | UtilsCheck.NegatedAtomUnsoundAsWritten | UtilsCheck.ValidVerdictIsSound |
