# CS50 AI cores in Dafny

This project models four algorithmic cores of the CS50 "Introduction to Artificial
Intelligence with Python" projects and proves properties of them.

- **Crossword generator** (`crossword/generate.py`): a constraint-satisfaction
  solver. It keeps a candidate set (domain) per slot and prunes it in place:
  - node consistency keeps the words of the right length;
  - arc consistency (revise and AC-3) keeps the words that have a partner in each
    crossing slot;
  - backtracking search then picks slots by fewest candidates and most crossings,
    and tries words in least-constraining order.

  The unseen `Crossword` class is given as plain data (`CrosswordSpec.dfy`): slots,
  overlaps and a word list. The creator is a class with a `domains` field and one
  method per operation (`Generate.dfy`).
- **Tic-tac-toe** (`tictactoe/tictactoe.py`): the rules of the game on a 3 x 3 board
  and the minimax search (`TicTacToe.dfy`).
- **Noun-phrase chunking** (`parser/parser.py`): `has_np` and `np_chunk` over
  nltk-style parse trees, and the token filter of `preprocess` (`Parser.dfy`).
- **Shopping predictor** (`shopping/shopping.py`): the categorical encodings of a
  spreadsheet row and the evaluation of predictions as sensitivity and specificity
  (`Shopping.dfy`).

`Wrappers.dfy` holds the `Option` and `Result` types.

The crossword code does not do what its documentation says in three places:
- `revise` reports the verdict on the last word it examined, not whether it removed
  a word;
- `ac3` promises to start from a given list of arcs, but with one it reads a
  worklist it never created; `Ac3Intended` starts from the given list;
- the consistency check never fails on a conflicting letter.

The model follows the code as written and states the documented behaviour beside
it: `ReviseAny`, `Ac3Intended`, `BacktrackIntended` and `SolveIntended` are the
documented operations. See Findings below.

Where the documentation and the code disagree, the model follows the code:
- The docstring of `preprocess` keeps every word with at least one letter.
  The code keeps only the tokens made entirely of letters (`isalpha`).
- The docstring of `revise` promises "a revision was made".
- The docstring of `consistent` promises a check for conflicting characters.
- The docstring of `np_chunk` counts every noun phrase with no noun phrase inside
  it as a chunk. The code keeps no noun phrase of height 2, because `has_np`
  answers true for it (`Parser.ChunkCharacterization`).

## Model

| member | source | states |
|---|---|---|
| Generate.CrosswordCreator.constructor | crossword/generate.py:13-21 | every slot, and nothing else, starts with the whole word list as its domain |
| Generate.CrosswordCreator.EnforceNodeConsistency | crossword/generate.py:101-111 | each new domain is exactly the words of the old domain whose length is the slot's length; domains only shrink |
| Generate.CrosswordCreator.FindsPartner | crossword/generate.py:127-131 | the inner scan finds a partner exactly when some word of y's domain agrees at the shared cell |
| Generate.CrosswordCreator.Revise | crossword/generate.py:114-134 | x's domain becomes exactly its words that have a partner in y's domain and no other domain changes; the answer is whether the last word examined was removed, and true only after a removal |
| Generate.CrosswordCreator.ReviseAny | crossword/generate.py:114-122 | the documented revise: the same removal, and the answer is true exactly when x's domain changed; nothing changes when x and y do not cross |
| Generate.CrosswordCreator.AllArcs | crossword/generate.py:147-152 | the starting worklist holds exactly the arcs (slot, neighbour) of the puzzle |
| Generate.CrosswordCreator.PushIncoming | crossword/generate.py:159-161 | the worklist gains exactly the arcs (z, x) for every neighbour z of x other than y, appended after the old worklist, which stays in place |
| Generate.CrosswordCreator.Ac3 | crossword/generate.py:137-162 | as written: it terminates; domains only shrink; no solution built from the candidates is lost; true means no domain that had a candidate was emptied; false means a domain was emptied, and then no solution exists among the original candidates |
| Generate.CrosswordCreator.Ac3Intended | crossword/generate.py:137-145 | the documented AC-3: it terminates, domains only shrink and keep every solution; true means no domain that had a candidate was emptied and, when the arcs left out of the starting list were consistent, every arc of the puzzle is consistent; false means a domain was emptied and no solution exists among the original candidates; on stable domains, where no revision along an arc would change anything, it answers true and changes nothing, so a second run is idempotent |
| CrosswordSpec.PairsShrink | crossword/generate.py:154-161 | shrinking domains never adds a slot-word pair and removing a word removes one; this is the termination measure of AC-3 |
| CrosswordSpec.RevisionStep | crossword/generate.py:154-161 | one revision keeps the domains shrinking from the start and keeps every solution; a change removes a slot-word pair and no change leaves the domains as they were |
| CrosswordSpec.EmptyDomainNoSolution | crossword/generate.py:157-158 | an emptied domain means no solution exists among the original candidates |
| CrosswordSpec.RevisedIsArcConsistent | crossword/generate.py:114-118 | after revising x against y, the arc (x, y) is consistent |
| CrosswordSpec.RevisedKeepsReverseArc | crossword/generate.py:159-161 | revising x against y keeps (y, x) consistent, which is why (y, x) is not pushed again |
| CrosswordSpec.ShrinkingKeepsArc | crossword/generate.py:159-161 | shrinking x's domain keeps every arc out of x consistent |
| CrosswordSpec.WorklistStep | crossword/generate.py:154-161 | one step of the documented AC-3 keeps every arc outside the worklist consistent |
| CrosswordSpec.WrittenMaintained | crossword/generate.py:154-161 | one pop, revise and push step of AC-3 as written keeps the domains shrinking with every solution, empties no domain that had a candidate, keeps a candidate in every crossing slot and only queues arcs; a change to the domains removes a slot-word pair |
| CrosswordSpec.StableIffArcConsistent | crossword/generate.py:138-144 | the domains are stable, so no revision along an arc would change one, exactly when every arc of the puzzle is consistent |
| CrosswordSpec.StableUnrevised | crossword/generate.py:116-121 | while the domains are still those of a stable start, revising along an arc reports no revision |
| CrosswordSpec.WorklistMaintained | crossword/generate.py:154-161 | one pop, revise and push step keeps the whole AC-3 loop invariant, including that a stable start stays unchanged |
| CrosswordSpec.RevisedKeepsSolution | crossword/generate.py:125-133 | revising never removes a word that a solution within the domains uses |
| CrosswordSpec.LastFlagMissesRemoval | crossword/generate.py:125-134 | a revision can remove a word while the last word examined is kept, so the answer False, which Revise's flag clause allows, goes with a changed domain |
| CrosswordSpec.AssignmentComplete | crossword/generate.py:165-175 | for an assignment to slots of the puzzle, complete exactly when every slot is assigned |
| CrosswordSpec.DistinctIffValuesCount | crossword/generate.py:184-185 | as many distinct words as entries exactly when no word is used twice |
| CrosswordSpec.Consistent | crossword/generate.py:178-199 | as written: true exactly when no word is used twice and every word has its slot's length; conflicts are never detected |
| CrosswordSpec.ConsistentMissesConflict | crossword/generate.py:193-198 | a well-formed grid has a full fill that the check as written accepts although its crossing letters differ |
| CrosswordSpec.IntendedIsConsistent | crossword/generate.py:178-182 | every assignment the documented check accepts passes the check as written |
| CrosswordSpec.IntendedHereditary | crossword/generate.py:178-182 | dropping slots from an assignment the documented check accepts keeps it accepted |
| CrosswordSpec.ConsistentHereditary | crossword/generate.py:184-190 | dropping slots from an assignment the check as written accepts keeps it accepted |
| Generate.CrosswordCreator.SelectUnassignedVariable | crossword/generate.py:234-252 | returns an unassigned slot that comes first in the order fewest candidates, then most crossings, among all unassigned slots |
| Generate.FirstInOrderExists | crossword/generate.py:251-252 | a nonempty set of slots has one that comes first in the sort order |
| Generate.CrosswordCreator.ConflictCount | crossword/generate.py:210-220 | the count is the number of candidates of unassigned crossing slots that disagree with the word at the shared cell |
| Generate.LeastCountExists | crossword/generate.py:221 | a nonempty set of counted words has a word of least count |
| Generate.SortByCount | crossword/generate.py:221-226 | each counted word appears exactly once, in non-decreasing order of count |
| Generate.CrosswordCreator.OrderDomainValues | crossword/generate.py:202-228 | a permutation of the slot's domain, in non-decreasing order of the number of candidates each word rules out |
| Generate.PassesHereditary | crossword/generate.py:270-277 | dropping slots from an assignment that passes either check keeps it passing, so a rejected partial assignment has no passing completion |
| Generate.CompletesThrough | crossword/generate.py:270-277 | completing a with v filled by a word is completing a with that word in v |
| Generate.NoCompletionWith | crossword/generate.py:271-277 | a candidate that fails the check, or whose recursive search finds nothing, has no completion that passes it |
| Generate.AllExcluded | crossword/generate.py:270-278 | once every candidate of the chosen slot has failed, no completion of the assignment passes the check |
| Generate.FewerUnassigned | crossword/generate.py:271-275 | each recursive call has one unassigned slot fewer, so the search terminates |
| Generate.FullCompletions | crossword/generate.py:99 | completions of the empty assignment are the full assignments within the domains |
| Generate.CrosswordCreator.Backtrack | crossword/generate.py:255-278 | a complete input is returned as is; a result extends the input, fills every slot with candidates and passes the check; None means no completion passes it |
| Generate.CrosswordCreator.BacktrackIntended | crossword/generate.py:255-278 | the search with the documented check: from an assignment that passes it, a result is a full assignment of candidates extending the input that passes it, and None means no such completion exists |
| Generate.CrosswordCreator.Solve | crossword/generate.py:93-99 | a result fills every slot with distinct words of the right lengths from the word list; None means the puzzle has no solution in the word list; an emptied domain always gives None |
| Generate.CrosswordCreator.SolveIntended | crossword/generate.py:93-99 | with the documented revise and check, and None at once when AC-3 empties a domain: a result is a solution of the puzzle from the word list, and None means there is none |
| TicTacToe.InitialState | tictactoe/tictactoe.py:16-22 | a 3 x 3 board of empty cells |
| TicTacToe.Player | tictactoe/tictactoe.py:25-43 | O exactly when the board holds more X than O marks, X otherwise |
| TicTacToe.Actions | tictactoe/tictactoe.py:46-57 | exactly the (i, j) on the board whose cell is empty |
| TicTacToe.Result | tictactoe/tictactoe.py:60-73 | on an empty cell the board with that cell marked by the player to move and every other cell as before; on an occupied cell ValueError |
| TicTacToe.ApplyRemovesAction | tictactoe/tictactoe.py:64-71 | a move takes its cell out of the legal moves and leaves the others, so the search terminates |
| TicTacToe.ApplyAt | tictactoe/tictactoe.py:64-71 | a move changes its own cell only |
| TicTacToe.ApplyCounts | tictactoe/tictactoe.py:64-71 | a move adds one mark of the mover, removes one empty cell and changes no other count |
| TicTacToe.ResultPassesTurn | tictactoe/tictactoe.py:25-43 | on a board of alternating play every move keeps play alternating and passes the turn |
| TicTacToe.WinnerFrom | tictactoe/tictactoe.py:76-86 | a winner owns one of the eight lines; None exactly when no line is all X or all O |
| TicTacToe.CountPositive | tictactoe/tictactoe.py:93-97 | the count of a mark is positive exactly when some cell holds it |
| TicTacToe.NoEmptyCellNoAction | tictactoe/tictactoe.py:93-98 | no empty cell exactly when there is no legal move |
| TicTacToe.Terminal | tictactoe/tictactoe.py:89-100 | over exactly when there is a winner or no cell is empty |
| TicTacToe.Utility | tictactoe/tictactoe.py:103-111 | 1 exactly when X won, -1 exactly when O won, 0 exactly when nobody won |
| TicTacToe.ValueRange | tictactoe/tictactoe.py:125-157 | every minimax value is -1, 0 or 1 |
| TicTacToe.BestRange | tictactoe/tictactoe.py:133-157 | the best value over a nonempty range of moves is a utility; over no move it is the sentinel |
| TicTacToe.BestBounds | tictactoe/tictactoe.py:133-157 | the best value bounds the value of every move and is the value of one of them |
| TicTacToe.ValueOfBestMove | tictactoe/tictactoe.py:129-157 | the value of a move that beats or ties every other move is the board's minimax value |
| TicTacToe.WinningMove | tictactoe/tictactoe.py:136-138 | a move of value 1 for X (-1 for O) has the board's minimax value, so returning it early is sound |
| TicTacToe.MaxUtility | tictactoe/tictactoe.py:131-143 | X's turn: the minimax value and a legal move that attains it |
| TicTacToe.MinUtility | tictactoe/tictactoe.py:145-157 | O's turn: the minimax value and a legal move that attains it |
| TicTacToe.MinimaxUtility | tictactoe/tictactoe.py:125-157 | the minimax value, with no move exactly on a finished game and otherwise a legal move that attains it |
| TicTacToe.Minimax | tictactoe/tictactoe.py:114-122 | None exactly on a finished game; otherwise a legal move whose value is the board's and at least (X) or at most (O) that of every other move |
| Parser.SubtreesWithoutRoot | parser/parser.py:87 | leaving out the subtrees equal to the tree leaves exactly the proper subtrees in pre-order |
| Parser.SubtreesTransitive | parser/parser.py:87-91 | a subtree of a subtree is a subtree |
| Parser.ProperSubtreesTransitive | parser/parser.py:87-91 | a proper subtree of a proper subtree is a proper subtree |
| Parser.AnyNpMeansNpAmong | parser/parser.py:87-93 | the scan answers yes only when some proper subtree is labelled NP, and surely does when one is among those scanned |
| Parser.HasNp | parser/parser.py:78-93 | a tree of height 2 answers whether its own label is NP; for taller trees the answer is characterised by HasNpMeansContainsNp |
| Parser.HasNpMeansContainsNp | parser/parser.py:78-93 | on a tree whose height is not 2, has_np is true exactly when some proper subtree is labelled NP; the recursive call never changes the answer |
| Parser.NpChunk | parser/parser.py:96-111 | the subtrees in pre-order that are labelled NP and for which has_np is false, in that order |
| Parser.ChunksAmongMembers | parser/parser.py:107-111 | an element is kept exactly when it is a chunk |
| Parser.ChunkCharacterization | parser/parser.py:96-111 | a tree is a chunk exactly when it is a subtree labelled NP whose height is not 2 and that has no proper NP subtree |
| Parser.ChunksAreMinimalNps | parser/parser.py:96-111 | every chunk is labelled NP and has no proper subtree labelled NP |
| Parser.Preprocess | parser/parser.py:64-75 | the alphabetic tokens, in their order, each lower-cased |
| Parser.LowerAlpha | parser/parser.py:73-74 | lower-casing an alphabetic token gives an alphabetic lower-case token, and lower-casing it again changes nothing |
| Parser.PreprocessedAppend | parser/parser.py:71-75 | preprocessing two parts of a token list gives the two results one after the other |
| Parser.PreprocessedMembers | parser/parser.py:71-75 | a word is kept exactly when it is the lower-cased form of an alphabetic token |
| Parser.PreprocessedWords | parser/parser.py:71-75 | every kept word is alphabetic and in lower case |
| Parser.PreprocessedIdempotent | parser/parser.py:71-75 | preprocessing a preprocessed list changes nothing |
| Shopping.MonthsDistinct | shopping/shopping.py:74 | the twelve month names are distinct, so a name has at most one index |
| Shopping.EncodeRow | shopping/shopping.py:71-95 | a listed month name becomes its index and any other is left as text; VisitorType becomes 1 exactly for Returning_Visitor; Weekend becomes 1 exactly for TRUE; the label is 1 exactly for Revenue TRUE; other fields stay |
| Shopping.Hits | shopping/shopping.py:132-136 | the matches of a label never exceed its occurrences |
| Shopping.Misses | shopping/shopping.py:137-141 | the mismatched predictions of a label never exceed its occurrences |
| Shopping.HitsAndMisses | shopping/shopping.py:131-141 | every occurrence of a label is counted exactly once, as matched or as missed |
| Shopping.ConfusionOf | shopping/shopping.py:127-141 | with tp and tn counting matched labels and fn and fp counting mismatched ones, tp + fn is the number of labels 1 and tn + fp the number of labels 0 |
| Shopping.BinaryCounts | shopping/shopping.py:116 | with labels in {0, 1}, the labels 1 and the labels 0 together are all the labels |
| Shopping.ConfusionTotal | shopping/shopping.py:131-141 | with labels in {0, 1}, tp + fn + tn + fp is the number of labels |
| Shopping.PrefixStep | shopping/shopping.py:131-141 | each index adds to exactly the counters its label and prediction select |
| Shopping.RatioAtMostOne | shopping/shopping.py:118-124 | a part over a positive whole lies between 0 and 1 |
| Shopping.Evaluate | shopping/shopping.py:111-151 | the loop's counters are the matched and mismatched counts of each label, so sensitivity is tp / (tp + fn), the share of labels 1 predicted as 1, and specificity tn / (tn + fp), the share of labels 0 predicted as 0, each between 0 and 1 |

## Left out

- Terminal and image output of the crossword (`print`, `save`, `letter_grid`), every `main` and its command-line and file handling, and user input. These are I/O.
- The `Crossword` class that reads the structure and word files is not part of this model. Its slots, overlaps and word list are given as data. `CrosswordSpec.WellFormed` states what the solver relies on: mirrored overlaps inside both words, and no slot crossing itself.
- Python's set and dict iteration order is not modelled. Each loop over a set picks its next element by nondeterministic choice, so every order is covered.
- `copy.deepcopy` is modelled by value semantics: assignments and boards are values.
- questions/questions.py is not part of this model. It is floating-point TF-IDF over files and the nltk tokenizer.
- nltk's tokenizer, grammar and chart parser are not part of this model. `Preprocess` takes the token list, and trees are given as data.
- `isalpha` and `lower` are modelled for ASCII letters only. Unicode letters and case mappings are not modelled.
- The `int()` and `float()` parsing of the numeric spreadsheet columns is not modelled. Neither is the selection of the first 17 columns, which depends on the file's column order. The KNN classifier and the train/test split are library code.
- Generate.CrosswordCreator.Revise: requires that x and y cross and that x's domain is nonempty, because otherwise the returned flag is an unbound local. It also requires both slots' candidates to be long enough to read the shared cell (`Comparable`), because otherwise indexing the word raises IndexError.
- Generate.CrosswordCreator.Ac3: requires `arcs` to be None, because with a given list the code reads a worklist it never created. It also requires every crossing slot to have a candidate, because popping an arc out of a slot with an empty domain reaches the unbound flag of revise. It requires every candidate to be at least as long as its slot (`LongEnough`), because otherwise reading the shared cell in revise raises IndexError; after node consistency this always holds. `Ac3Intended` starts from a given list.
- Generate.CrosswordCreator.Solve: requires a word of the right length for every crossing slot. Node consistency then leaves those domains nonempty, which is what Ac3 needs.
- Generate.CrosswordCreator.Backtrack: requires every candidate to be at least as long as its slot. Otherwise reading the shared cell in `order_domain_values` can raise IndexError. After node consistency this always holds.
- Generate.CrosswordCreator.SelectUnassignedVariable: requires an unassigned slot (the code raises IndexError otherwise). Ties in the sort order are not resolved as Python's stable sort would resolve them; any slot first in the order is allowed.
- Generate.CrosswordCreator.OrderDomainValues: the order among words with equal counts is left open, as it is for Python's sort over a dict built from set iteration.
- TicTacToe.Result: requires the move to lie on the board. Python would accept negative indices and raise IndexError past the edge.
- TicTacToe.MinimaxUtility: the `math.inf` sentinels are modelled as -2 and 2. No utility reaches them.
- Shopping.EncodeRow: requires the Month, VisitorType, Weekend and Revenue fields, whose absence raises KeyError.
- Shopping.Evaluate: requires at least one label 1 and one label 0, because otherwise a division by zero is raised. It also requires a prediction for every label, because otherwise IndexError is raised. Labels outside {0, 1} are counted by no counter, as in the code.

## Findings

| source | as written | input that shows it | evidently intended | confidence | as-written member | corrected member |
|---|---|---|---|---|---|---|
| crossword/generate.py:125-134 | `revise` returns the verdict on the last word examined | x's domain {"a", "b"}, y's domain {"a"}, overlap (0, 0), "a" examined last: "b" is removed but revise returns False | True whenever a word was removed, as the docstring says | not executed | CrosswordSpec.LastFlagMissesRemoval | Generate.CrosswordCreator.ReviseAny |
| crossword/generate.py:197-198 | `consistent` returns True when the letters in a shared cell differ | two 2-letter slots crossing at their first cells, filled with "ab" and "cd": accepted | return False on a conflicting letter | not executed | CrosswordSpec.ConsistentMissesConflict | Generate.CrosswordCreator.SolveIntended |
