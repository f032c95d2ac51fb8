# Verified model of neufbox components

Dafny models of five parts of the neufbox firmware, with proofs about all inputs, all runs or all
reachable states:

* **The configuration engine** (`openwrt/scripts/config`). `Expr`, `Transform`, `ExprEq`, `Join`, `Dups` and
  `Compare` model the rewriting of three-valued dependency expressions: which rewritings keep the value on
  every assignment, which one does not and exactly when, and why each loop ends. `Canon` says what the comparison
  and the cancelling of operands recognise: expressions up to the order and grouping of AND/OR operands. `Simplify`
  says what the simplification leaves. `Symbols` and `Evaluator`
  model the cached, demand-driven evaluation of symbols: over acyclic definitions the values are the unique
  solution of one equation per symbol, whatever the order of demands, and assigning a boolean or tristate
  symbol never leaves a stale value. `Meaning` says case by case what that value is. `DepCheck` models the recursive
  dependency check, which warns exactly when there is a cycle, and `Checked` connects the two. `Menu` and `MenuTree`
  model the rebuilding of the menu tree, first on trees and then on list, next and parent links, and `Nesting` says
  which entries are moved. `ConfData` models writing the configuration file and reading
  it back through a fixed line buffer, and `Reload` puts menu, evaluator and file together: saving and
  loading again changes no value.
* **The ring buffer of libetk** (`Bits`, `Fifo`): free-running 32-bit indices, and one writer and one reader
  that interleave byte by byte.
* **The auto-negotiation state machine of the 57xx driver** (`Autoneg`), after section 37.3.1.5 of
  IEEE 802.3z: what every run of calls that reaches LINK_OK must have waited for and received, and in `Progress` the
  exact condition under which each phase is left and the runs that do reach LINK_OK.
* **The cyclic doubly linked list of libnbu** (`Ring`) with its cursor, its sort, and
* **the session cleaner** of the web API, which deletes from the list it is walking.

Code that updates state in place is a class or a method over arrays, specified by functions whose own
properties are the lemmas below; code that only computes is a function. `Common` holds what is shared.

## What the proofs found

* Removing complementary operands (`expr_eliminate_dups2`) can turn the value m into n or y. It keeps the value
  if and only if that was not m (`ComplementExactly`); the whole simplification does it for AND and for OR
  (`SimplifyingDropsMod`).
* `expr_eq` does not always recognise an expression as equal to itself. Without y/n operands it does if and only
  if no AND/OR group has two string operands (`ExprEqSelfExactly`).
* Comparing with y or n reads every negated m as the target, so the answer is wrong exactly when that reading and
  the value disagree (`TransCompareExactly`). Dropping `!= n` under a NOT is right if and only if the operand is
  not m (`TransBoolUnderNot`).
* For the same reason an entry can be moved below a parent that is hidden while it shows itself
  (`NestedShowsAlone`); it cannot when the entry shows with negated m read as n (`NestedShowsParent`).
* The dependency check does not follow deselects, so a symbol that deselects itself passes
  (`DeselectNotFollowed`). Followed like selects they make the check exact (`CheckForEvaluation`).
* A line longer than the reader's buffer is read as several lines. It never sets its own symbol
  (`OwnUntouched`), but its tail can set another one (`LongStringSets`). A heading can unset a symbol
  (`HeadingUnsets`). A record survives exactly if it is `Storable` (`RecordSurvives`).
* Setting a string symbol to the tristate value it already has leaves a stale string (`StaleString`), and this is
  the only way to a stale cache among the modelled operations (`SetTristateValue`). The program itself only sets boolean and
  tristate symbols (mconf.c:826-843, symbol.c:586-597).
* `roundup_pow_of_two` never returns the nearest power of two above its argument, against its comment; an
  allocation of more than 65536 bytes that is no power of two gets fewer bytes than asked for
  (`AllocSizeReaches`). The buffer itself stays correct for the size it got.
* The consistency test of ACK_DETECT compares a word with itself: it cannot fail (`ConsistencyTestPasses`). Two zero
  words that do not follow another word already count as a restart of the partner, while any other match takes three
  words (`MatchExactStep`). The inner next-page test of COMPLETE_ACK never succeeds: the phase is left exactly when
  not both sides ask for a next page (`PhaseTable`).
* `nbu_list_sort` reverses elements that compare equal (`SortReversesTies`).

## Model

| member | source | states |
|---|---|---|
| `Expressions.EliminateYnValue` | openwrt/scripts/config/expr.c:235-316 | constant folding keeps the value of every expression on every well-typed assignment |
| `Expressions.EliminateYnShape` | openwrt/scripts/config/expr.c:235-316 | afterwards no AND/OR outside a NOT has a y/n operand; the tree shrinks whenever one had, and is unchanged exactly otherwise |
| `Transformation.Transform` | openwrt/scripts/config/expr.c:640-775 | the rewriting, which runs again on its own output after De Morgan and double negation, terminates: a weight never grows |
| `Transformation.DeMorganWeight` | openwrt/scripts/config/expr.c:720-737 | the rewritten tree is bigger but lighter, the measure behind that termination |
| `Transformation.TransformValue` | openwrt/scripts/config/expr.c:640-775 | every rewriting keeps the value on every well-typed assignment |
| `Transformation.TransformNormal` | openwrt/scripts/config/expr.c:640-775 | the output is in normal form: NOT only on symbols other than y, m and n, and no boolean symbol compared with one of these |
| `Transformation.NormalIffFixed` | openwrt/scripts/config/expr.c:640-775 | the normal forms are exactly the fixed points of the rewriting |
| `Transformation.TransformIdempotent` | openwrt/scripts/config/expr.c:640-775 | transforming twice is transforming once |
| `Equivalence.EliminateSlotsSplits` | openwrt/scripts/config/expr.c:135-166 | cancelling equal operands splits off one common value: joined with it, each residue has the value of its input |
| `Equivalence.ExprEqSound` | openwrt/scripts/config/expr.c:193-233 | when the comparison answers yes, the two expressions agree on every well-typed assignment |
| `Equivalence.ExprEqReflexive` | openwrt/scripts/config/expr.c:193-233 | every expression in which no AND/OR group has two string operands compares equal to itself, however deep |
| `Equivalence.EqualGroups` | openwrt/scripts/config/expr.c:193-233 | without y/n operands, two expressions that compare equal have no group with two string operands |
| `Equivalence.ExprEqSelfExactly` | openwrt/scripts/config/expr.c:193-233 | so an expression without y/n operands compares equal to itself if and only if no group has two string operands |
| `Equivalence.ExprEqLiterals` | openwrt/scripts/config/expr.c:147-149 | an AND of any two strings does not compare equal to itself |
| `Equivalence.ExprEqConstants` | openwrt/scripts/config/expr.c:193-233 | with y/n operands the condition is not needed: a deciding constant hides the strings |
| `Equivalence.EliminateEqToYes` | openwrt/scripts/config/expr.c:168-188 | when cancelling reduces the second expression to y, the first is at most the second everywhere |
| `Equivalence.ExtractSlotsSplits` | openwrt/scripts/config/expr.c:852-879 | the extraction collects exactly the common value that it removes from both trees |
| `Equivalence.ExtractEqSplits` | openwrt/scripts/config/expr.c:830-850 | both inputs equal the extracted part joined with their own residue, for AND and for OR |
| `Canonical.ExprEqExactly` | openwrt/scripts/config/expr.c:193-233 | without y/n operands two expressions compare equal if and only if they are the same up to the order and the grouping of AND/OR operands at every depth, and no group has two string operands |
| `Canonical.ShapeInstances` | openwrt/scripts/config/expr.c:193-233 | what is the same in that sense: swapped operands and regrouped operands, of any expressions |
| `Canonical.AbsorbedExactly` | openwrt/scripts/config/expr.c:168-188 | over such expressions cancelling a conjunction reduces the second expression to y if and only if the AND operands of the second, none a string, are all among those of the first, counted with repetitions |
| `Canonical.ExtractedExactly` | openwrt/scripts/config/expr.c:830-879 | the extraction uses up a group of operands if and only if they are all operands of the other group |
| `Joining.ConstDistinct` | openwrt/scripts/config/expr.c:350-506 | two constants have the same string only if they are the same symbol, which the comparison joins rest on |
| `Joining.JoinOrValue` | openwrt/scripts/config/expr.c:350-412 | a join for OR has the maximum of the two values |
| `Joining.JoinAndValue` | openwrt/scripts/config/expr.c:414-506 | a join for AND has the minimum of the two values |
| `Joining.JoinShape` | openwrt/scripts/config/expr.c:350-506 | a join is no bigger than its first operand, stays in negation normal form and is no node of the kind being joined |
| `Joining.JoinEqual` | openwrt/scripts/config/expr.c:350-506 | two operands that compare equal are always joined, into the first |
| `Joining.JoinedTests` | openwrt/scripts/config/expr.c:378-489 | two tests of one tristate symbol against different constants of y, m and n are always joined: equalities for OR and inequalities for AND into the test against the third constant, an equality and an inequality for AND into the equality |
| `Joining.JoinedSymbol` | openwrt/scripts/config/expr.c:398-456 | a boolean or tristate symbol and a test of it against y, or an inequality with n or m, are always joined for AND, in either order, and a boolean symbol and its negation for OR |
| `Joining.JoinedConstants` | openwrt/scripts/config/expr.c:458-472 | an equality and an inequality of one tristate symbol with any constants are always joined for AND: into the equality, or n if they contradict each other |
| `Duplicates.PutShape` | openwrt/scripts/config/expr.c:508-558 | what a write through one operand slot does to the whole tree: size, spine, normal form, leftover constants |
| `Duplicates.PutElsewhere` | openwrt/scripts/config/expr.c:508-558 | a write through one operand slot leaves every other operand slot as it was |
| `Duplicates.PutValue` | openwrt/scripts/config/expr.c:508-558 | the value of the tree as a function of what one slot holds |
| `Duplicates.Dups1` | openwrt/scripts/config/expr.c:508-558 | the pass never grows the tree and keeps its spine; the counter moves exactly when something was replaced, and then a constant is left to fold |
| `Duplicates.Dups1Value` | openwrt/scripts/config/expr.c:508-558 | merging pairs of operands while walking the same tree through two slots keeps the value exactly |
| `Duplicates.Dups2` | openwrt/scripts/config/expr.c:560-614 | the same bookkeeping for the pass that replaces complementary operands |
| `Duplicates.ComplementRefines` | openwrt/scripts/config/expr.c:560-614 | replacing complementary operands keeps y and n; only m may become definite |
| `Duplicates.ComplementExactly` | openwrt/scripts/config/expr.c:577-607 | where it fires, the value is kept if and only if it was not m |
| `Duplicates.Dups2Refines` | openwrt/scripts/config/expr.c:560-614 | the whole pass only ever makes m definite |
| `Duplicates.Round` | openwrt/scripts/config/expr.c:616-638 | one round never grows the tree, and leaves it alone exactly when it counted nothing |
| `Duplicates.RoundRefines` | openwrt/scripts/config/expr.c:616-638 | one round only makes m definite |
| `Duplicates.ReducedRefines` | openwrt/scripts/config/expr.c:616-638 | so do all rounds together |
| `Duplicates.ReducedShape` | openwrt/scripts/config/expr.c:616-638 | the loop ends in a fixed point, no bigger than the input and still in negation normal form |
| `Duplicates.EliminateDups` | openwrt/scripts/config/expr.c:616-638 | the loop terminates with that fixed point; on every assignment y and n are kept; and in the result no two operands at any depth join, and none is found complementary to another |
| `Duplicates.Dups1Apart` | openwrt/scripts/config/expr.c:508-558 | the merging pass leaves alone an expression in which no two operands join, at any depth |
| `Duplicates.Dups1Done` | openwrt/scripts/config/expr.c:508-558 | conversely, when the merging pass counts nothing, no two operands at any depth can be joined |
| `Duplicates.Dups2Done` | openwrt/scripts/config/expr.c:560-614 | when the complement pass counts nothing, no operand it compares with another is complementary to it |
| `Duplicates.RoundDone` | openwrt/scripts/config/expr.c:616-638 | so a round that counts nothing leaves no two operands that join or are complementary |
| `Duplicates.Dups2Leaf` | openwrt/scripts/config/expr.c:560-614 | the complement pass never replaces an operand that is no AND/OR node |
| `Duplicates.ReducedPair` | openwrt/scripts/config/expr.c:616-638 | two operands that do not join make a fixed point of the loop |
| `Duplicates.SimplifyingDropsMod` | openwrt/scripts/config/expr.c:560-638 | for AND and for OR: an expression over any two symbols at m whose value is m and which the loop simplifies to n, respectively y |
| `Simplified.SimplifiedNoRepeats` | openwrt/scripts/config/expr.c:616-638 | without y/n operands and with at most one string a group, no AND/OR group of the result has two operands that are the same up to order and grouping, at any depth |
| `Simplified.ApartOnce` | openwrt/scripts/config/expr.c:508-558 | operands that do not join occur once each |
| `Simplified.DuplicateGone` | openwrt/scripts/config/expr.c:508-638 | an operand joined with itself is reduced to itself |
| `Simplified.ComplementaryExactly` | openwrt/scripts/config/expr.c:577-607 | an operand is found complementary to a group if and only if the operands of its rewritten negation are all operands of that group |
| `Comparison.TransBoolPromoted` | openwrt/scripts/config/expr.c:321-345 | rewriting `FOO != n` to `FOO` is invisible once m counts as y, on negation normal forms |
| `Comparison.TransBoolUnderNot` | openwrt/scripts/config/expr.c:321-345 | under a NOT it is invisible if and only if FOO is not m |
| `Comparison.TransCompareReads` | openwrt/scripts/config/expr.c:881-940 | what a comparison with y or n evaluates to, for every expression and assignment: the question asked of the value with negated m read as the target |
| `Comparison.ReadBounds` | openwrt/scripts/config/expr.c:881-940 | on negation normal forms the readings for n and for y enclose the value |
| `Comparison.TransCompareExactly` | openwrt/scripts/config/expr.c:881-940 | the comparison answers rightly if and only if reading and value agree on being the target |
| `Comparison.TransCompareValue` | openwrt/scripts/config/expr.c:881-940 | in particular it is right when no operand of a NOT is m |
| `Comparison.TransCompareUnderNot` | openwrt/scripts/config/expr.c:912-913 | for a NOT it asks the same question if and only if the operand is not m |
| `Comparison.TransCompareMissing` | openwrt/scripts/config/expr.c:885-890 | a missing condition compares as y |
| `Comparison.ValueLocal` | openwrt/scripts/config/expr.c:777-799 | the value depends only on the symbols found by the containment test |
| `Comparison.DependsSymbolNo` | openwrt/scripts/config/expr.c:801-828 | a condition that depends on a symbol is n whenever the symbol is n |
| `Evaluator.MeaningLocal` | openwrt/scripts/config/symbol.c:270-380 | visibility, selection, value and write mark of a symbol depend only on the symbols its definition mentions |
| `Evaluator.HoldsAlike` | openwrt/scripts/config/symbol.c:196-380 | what an evaluation leaves depends only on the symbols it looked at, deselects and the first default cutting the others off |
| `Evaluator.TransBoolVisibility` | openwrt/scripts/config/symbol.c:196-229 | the rewriting of prompt conditions at load time changes the visibility of no non-tristate symbol |
| `Evaluator.DenotationSolves` | openwrt/scripts/config/symbol.c:270-380 | over acyclic definitions there is an assignment that satisfies the equations of all symbols at once |
| `Evaluator.SolutionUnique` | openwrt/scripts/config/symbol.c:270-380 | there is only one, so the order of demands cannot matter |
| `Evaluator.InputFrame` | openwrt/scripts/config/symbol.c:433-470 | changing the user value of one symbol changes no symbol outside those that depend on it |
| `Evaluator.DenotationWellTyped` | openwrt/scripts/config/symbol.c:333-334 | no boolean symbol ever evaluates to m |
| `Evaluator.AcceptedValue` | openwrt/scripts/config/symbol.c:414-431 | a value the range test admits is the value the symbol then evaluates to |
| `Evaluator.SettingEffect` | openwrt/scripts/config/symbol.c:433-470 | an accepted assignment takes effect under the new solution, for every type; repeating a value keeps the symbol exactly when it is logical, was set or invisible, or has the user string |
| `Evaluator.SameSolution` | openwrt/scripts/config/symbol.c:433-470 | if the symbol whose input changed keeps its value, every symbol does |
| `Evaluator.EvaluatedSame` | openwrt/scripts/config/symbol.c:433-470 | changing the input of a symbol that is not evaluated changes no evaluated symbol and no cell |
| `Evaluator.CacheKept` | openwrt/scripts/config/symbol.c:462-467 | after a symbol was set without invalidation the cache is right if and only if the symbol was not evaluated or keeps its value |
| `Evaluator.ReloadKeeps` | openwrt/scripts/config/confdata.c:317-378 | setting every visible symbol to the value it has, and any other to anything, changes no value |
| `Evaluator.Engine.CalcExpr` | openwrt/scripts/config/expr.c:942-981 | evaluating on demand, filling in symbols as it goes, gives the value under the unique solution |
| `Evaluator.Engine.FindDefault` | openwrt/scripts/config/symbol.c:123-133 | the first default whose condition holds in the solution |
| `Evaluator.Engine.CalcVisibility` | openwrt/scripts/config/symbol.c:196-229 | the stored visibility and selection are those of the solution; a deselected symbol keeps its old selection |
| `Evaluator.Engine.CalcValue` | openwrt/scripts/config/symbol.c:270-380 | the recursion with the valid mark set first ends with the symbol valid, every valid symbol holding its solution and having looked at valid symbols only, valid cells untouched |
| `Evaluator.Engine.constructor` | openwrt/scripts/config/symbol.c:689-695 | an engine whose symbols are all new and not evaluated satisfies the invariant |
| `Evaluator.Engine.Demand` | openwrt/scripts/config/symbol.c:270-380 | any demand in any order returns the value of the unique solution and disturbs no cached symbol |
| `Evaluator.Engine.ClearAllValid` | openwrt/scripts/config/symbol.c:382-392 | invalidation keeps the user values and re-establishes the invariant from any cache contents |
| `Evaluator.Engine.BeginSave` | openwrt/scripts/config/confdata.c:434-435 | in every state between saves the printing starts with no write mark cleared |
| `Evaluator.Engine.TakeMark` | openwrt/scripts/config/confdata.c:449-452 | answers whether the symbol is written and was not printed before, and keeps the cache right although it clears the mark |
| `Evaluator.Engine.Load` | openwrt/scripts/config/confdata.c:287-311 | loading replaces all user values and leaves no stale cell |
| `Evaluator.Engine.SetTristateValue` | openwrt/scripts/config/symbol.c:433-470 | accepted if and only if unchanged or in range; a refusal changes nothing; otherwise one input changes, the request takes effect on an evaluated symbol and only dependent symbols move; the cache stays right if and only if it is not an evaluated, new and visible string symbol set to the n it has |
| `Evaluator.StaleString` | openwrt/scripts/config/symbol.c:433-470 | an instance: a string symbol with a prompt and a default, evaluated and set to n, keeps showing its default |
| `Evaluator.Engine.CalcPrompts` | openwrt/scripts/config/symbol.c:202-207 | the loop over prompts gives the greatest prompt condition under the solution, while evaluating what it meets |
| `Evaluator.Engine.CalcLogic` | openwrt/scripts/config/symbol.c:306-335 | a boolean or tristate symbol ends holding its solution, its write mark included |
| `Evaluator.Engine.CalcString` | openwrt/scripts/config/symbol.c:336-356 | a string symbol ends holding its user value or its default under the solution, its write mark included |
| `SymbolMeaning.RangeExactly` | openwrt/scripts/config/symbol.c:414-431 | the range test accepts a value if and only if the visibility exceeds the selects and the symbol, set to it, has it |
| `SymbolMeaning.VisibilityMeans` | openwrt/scripts/config/symbol.c:196-229 | the visibility is the one value that bounds every prompt condition and is n or one of them, m counting as y unless the symbol is tristate; n when deselected |
| `SymbolMeaning.DefaultExactly` | openwrt/scripts/config/symbol.c:123-133 | the default found is the one at the first index whose condition is not n; there is none if and only if no condition holds |
| `SymbolMeaning.LogicValueMeans` | openwrt/scripts/config/symbol.c:306-335 | the value of a boolean or tristate symbol, case by case and with nothing else possible: n when deselected; at least its selects; the user value, or the default while there is none, if it lies between selects and visibility, and otherwise the bound it exceeds; the default, m counting as y for a boolean, without prompt and select |
| `SymbolMeaning.LogicMeansSomething` | openwrt/scripts/config/symbol.c:306-335 | every symbol has the visibility and the default value these cases speak of |
| `SymbolMeaning.LogicWrittenMeans` | openwrt/scripts/config/symbol.c:311-331 | it is written if and only if it is not deselected and is visible, selected or has a default |
| `SymbolMeaning.StringMeans` | openwrt/scripts/config/symbol.c:336-356 | a string is what the user set while it is visible, otherwise the string of the symbol that its first default names, otherwise empty; it is written if and only if it is visible or has such a default |
| `DependencyCheck.UniverseClosed` | openwrt/scripts/config/symbol.c:771-840 | the search stays in a finite set of symbols, hence ends |
| `DependencyCheck.PathDescends` | openwrt/scripts/config/symbol.c:801-840 | along any path from a finished symbol the finishing numbers fall |
| `DependencyCheck.OrderedAcyclic` | openwrt/scripts/config/symbol.c:801-840 | if every symbol is finished there is no dependency cycle |
| `DependencyCheck.CycleOnStack` | openwrt/scripts/config/symbol.c:806-809 | meeting a symbol on the stack closes a cycle |
| `DependencyCheck.Checker.CheckExpr` | openwrt/scripts/config/symbol.c:771-799 | without a warning every symbol of the expression is finished; a symbol is returned only with a warning |
| `DependencyCheck.Checker.CheckDeps` | openwrt/scripts/config/symbol.c:801-840 | the recursive search keeps the stack a path and the finished symbols ordered; without a warning the symbol is finished |
| `DependencyCheck.Checker.CheckProps` | openwrt/scripts/config/symbol.c:814-829 | without a warning everything the search follows from the symbol is finished |
| `DependencyCheck.Sweep` | openwrt/scripts/config/zconf.y:485-487 | the check over all symbols warns if and only if there is a dependency cycle |
| `DependencyCheck.Checker.CheckProperty` | openwrt/scripts/config/symbol.c:818-829 | without a warning what one property leads to is finished |
| `DependencyCheck.Checker.CheckAll` | openwrt/scripts/config/zconf.y:485-487 | the loop leaves no symbol on the stack |
| `CheckedConfiguration.ReadsAreFollowed` | openwrt/scripts/config/symbol.c:801-840 | with deselects taken like selects the check follows what the evaluator reads, and nothing else where only prompts and defaults are followed |
| `CheckedConfiguration.NothingAdded` | openwrt/scripts/config/symbol.c:801-840 | without deselects the check as it is already follows them all |
| `CheckedConfiguration.CycleExtends` | openwrt/scripts/config/symbol.c:801-840 | a cycle the check warns of is a cycle with deselects too: no warning is wrong |
| `CheckedConfiguration.CycleForbidsRank` | openwrt/scripts/config/symbol.c:270-380 | with a cycle through reads, deselects included, no order of evaluation exists |
| `CheckedConfiguration.CheckForEvaluation` | openwrt/scripts/config/zconf.y:485-487 | the same sweep with deselects followed warns if and only if no order of evaluation exists, and otherwise yields the rank the evaluation theorems need |
| `CheckedConfiguration.DeselectNotFollowed` | openwrt/scripts/config/symbol.c:801-840 | a symbol that deselects itself passes the check although no rank exists |
| `Menus.Finalized` | openwrt/scripts/config/menu.c:197-319 | the rebuilt tree lists the same entries in the same order as the declared one |
| `Menus.Hoist` | openwrt/scripts/config/menu.c:309-318 | splicing the lists of hidden entries upwards keeps the order of all entries |
| `Menus.ProperIffDistinct` | openwrt/scripts/config/menu.c:197-319 | a tree without sharing is exactly one whose preorder repeats nothing |
| `Menus.SamePreorder` | openwrt/scripts/config/menu.c:197-319 | equal preorder means the same entries, shared or not alike |
| `Menus.FinalizedSpreads` | openwrt/scripts/config/menu.c:197-319 | the conditions after rebuilding are those of handing down the declared tree with nothing moved |
| `Menus.ListSpreads` | openwrt/scripts/config/menu.c:254-255 | the same for a whole list of entries |
| `Menus.UnderMeans` | openwrt/scripts/config/menu.c:224-227 | a condition under an outer one has the minimum of both values, up to m becoming definite |
| `Menus.ConditionedMeans` | openwrt/scripts/config/menu.c:224-241 | every dependency and property condition of an entry means its own text restricted by what surrounds it |
| `Menus.FinalizedMeans` | openwrt/scripts/config/menu.c:197-319 | at every depth, after the whole rebuild, every condition means the conjunction of the declared conditions around it |
| `Menus.NotNoMeans` | openwrt/scripts/config/menu.c:257-268 | what the nesting test compares, for every condition: whether it reads as not n |
| `Menus.NestingJustified` | openwrt/scripts/config/menu.c:256-287 | an entry moved under another either is n when that symbol is n, or is never shown without it |
| `Menus.NestedShowsParent` | openwrt/scripts/config/menu.c:256-287 | while an entry nested by implication reads as shown, with negated m taken for n, its new parent does, and a parent condition in negation normal form then holds |
| `Menus.NestedShowsAlone` | openwrt/scripts/config/menu.c:256-287 | with a negated m it can show alone: `!A && FOO != y` is nested below a FOO that shows while `A = n`, and A is m |
| `Menus.SwallowedNests` | openwrt/scripts/config/menu.c:256-287 | exactly the leading entries that nest, judged by their final conditions, are taken |
| `Nesting.HoistExactly` | openwrt/scripts/config/menu.c:309-318 | the list afterwards, entry by entry: one with a prompt text keeps its own list; one without loses it, and the list follows it, arranged in the same way |
| `Nesting.FinalizedFlat` | openwrt/scripts/config/menu.c:197-319 | after the whole rebuild no entry without a prompt text has a list, at any depth, and no entry has gained or lost its text |
| `Nesting.ConditionedTidy` | openwrt/scripts/config/menu.c:224-241 | every dependency is a fixed point of the simplification; the property conditions of a symbol that is not tristate contain no test of a tristate symbol against n, and those of other entries are fixed points too |
| `Nesting.DependsExactly` | openwrt/scripts/config/expr.c:801-828 | the dependency test holds if and only if some conjunct is the symbol, its equality with y or m, or its inequality with n |
| `Nesting.NestsExactly` | openwrt/scripts/config/menu.c:261-277 | an entry is taken if and only if it has a condition, which mentions the symbol and either has such a conjunct or absorbs the condition of the parent; below an unconditional prompt mentioning the symbol is enough |
| `Nesting.AbsorbsExactly` | openwrt/scripts/config/menu.c:257-277 | over conditions without y/n operands it absorbs it if and only if, normalised, it is a conjunction with all operands of the other |
| `Nesting.FinalizedTakes` | openwrt/scripts/config/menu.c:256-318 | a symbol entry without a list takes a run of followers, arranged as above, of which each one mentions the symbol and belongs below it by its final condition, and the first one left does not |
| `Nesting.FirstFollower` | openwrt/scripts/config/menu.c:261-277 | if the first follower does not belong below the entry nothing is changed; if it does, it is the first of its list |
| `MenuLinks.Condition` | openwrt/scripts/config/menu.c:224-241 | the in-place rewriting of one entry computes its conditioned form |
| `MenuLinks.Place` | openwrt/scripts/config/menu.c:224-227 | transform, conjoin and remove duplicates, to the fixed point |
| `MenuLinks.MenuTree.HandDownList` | openwrt/scripts/config/menu.c:223-253 | the loop along the next-links conditions exactly the entries of the list |
| `MenuLinks.MenuTree.Finalize` | openwrt/scripts/config/menu.c:197-319 | the recursive pointer surgery leaves links that represent the rebuilt tree, touches no entry outside its subtree and its followers, and is called once per entry |
| `MenuLinks.MenuTree.SwallowNext` | openwrt/scripts/config/menu.c:256-287 | the followers that nest become the list of the entry, with parent, next and end of list set right |
| `MenuLinks.MenuTree.HoistLists` | openwrt/scripts/config/menu.c:309-318 | the splicing loop, which changes the list it walks, ends with the hoisted list |
| `MenuLinks.MenuTree.Splice` | openwrt/scripts/config/menu.c:310-317 | one splice: the inner list follows its entry, under the outer parent |
| `MenuLinks.MenuTree.FinalizeAndWalk` | openwrt/scripts/config/confdata.c:437-520 | finalising the root and walking the links visits every declared entry once, in declaration order |
| `MenuLinks.MenuTree.Walk` | openwrt/scripts/config/confdata.c:437-520 | the walk by list, next and parent links visits the tree in preorder and ends |
| `MenuLinks.MenuTree.FinalizeList` | openwrt/scripts/config/menu.c:254-255 | finalising a list entry by entry, while entries take over their followers, leaves links for the finalised list |
| `MenuLinks.MenuTree.FinalizeFollowing` | openwrt/scripts/config/menu.c:261-281 | the loop stops at the first follower that does not nest; everything before it is finalised and under the new parent |
| `MenuLinks.MenuTree.TakeList` | openwrt/scripts/config/menu.c:282-286 | cutting the chain after the last follower makes it the list of the entry |
| `MenuLinks.MenuTree.MoveList` | openwrt/scripts/config/menu.c:310-314 | every entry of the list changes its parent and the last one is found |
| `ConfigFile.StringRoundTrip` | openwrt/scripts/config/confdata.c:187-200 | every string is read back from its escaped form, whatever follows the closing quote |
| `ConfigFile.EscapeMarks` | openwrt/scripts/config/confdata.c:477-493 | quotes and backslashes get one backslash each, and no other character does |
| `ConfigFile.MarkedReads` | openwrt/scripts/config/confdata.c:187-200 | a string is read back from any form in which at least its quotes and backslashes have a backslash in front, up to the first bare quote |
| `ConfigFile.ReadsMarked` | openwrt/scripts/config/confdata.c:187-200 | and whatever is read back had that form |
| `ConfigFile.CutStringRefused` | openwrt/scripts/config/confdata.c:187-200 | an escaped string cut anywhere before its closing quote is refused |
| `ConfigFile.WriteString` | openwrt/scripts/config/confdata.c:477-493 | the two-speed printing loop writes the escaped string |
| `ConfigFile.UnescapeInPlace` | openwrt/scripts/config/confdata.c:190-200 | squeezing backslashes out of the buffer while scanning it gives the unescaped string, terminated in place |
| `ConfigFile.DropFirst` | openwrt/scripts/config/confdata.c:195 | the overlapping move shifts the string, its terminator included, and nothing else |
| `ConfigFile.LineRoundTrip` | openwrt/scripts/config/confdata.c:112-221 | every setting is read back from its own line, with or without the newline |
| `ConfigFile.HandWritten` | openwrt/scripts/config/confdata.c:168-186 | what a hand-edited assignment does to a boolean or tristate symbol: it reads as the written line for n, y or, for a tristate, m if and only if the value starts with that letter, and otherwise as nothing |
| `ConfigFile.LongLineRefused` | openwrt/scripts/config/confdata.c:116-221 | any written line cut anywhere before its end is refused |
| `ConfigFile.NewlineIgnored` | openwrt/scripts/config/confdata.c:116-221 | a line means the same with and without its newline |
| `ConfigFile.LineReads` | openwrt/scripts/config/confdata.c:116-221 | a line of any length is read as its pieces of 1023 characters, each as a line of its own |
| `ConfigFile.WrittenLineReads` | openwrt/scripts/config/confdata.c:116-221 | a written line sets its symbol if it fits the buffer, and is read from its tail on if not |
| `ConfigFile.OwnUntouched` | openwrt/scripts/config/confdata.c:116-221 | a line that does not fit never sets its own symbol |
| `ConfigFile.LongStringReads` | openwrt/scripts/config/confdata.c:116-221 | the part of a string behind a full buffer is read as a line of its own |
| `ConfigFile.LongStringSets` | openwrt/scripts/config/confdata.c:116-221 | so a long string sets any boolean or tristate symbol it names there |
| `ConfigFile.HeadingSilent` | openwrt/scripts/config/confdata.c:120-142 | a heading that fits is skipped if and only if it does not spell out an unset symbol |
| `ConfigFile.HeadingUnsets` | openwrt/scripts/config/confdata.c:443-447 | a heading that does unsets that symbol |
| `ConfigFile.RecordSurvives` | openwrt/scripts/config/confdata.c:437-520 | a record is read back as written, whatever came before, if and only if its line fits or, for a heading, no piece of it sets anything |
| `ConfigFile.FileReads` | openwrt/scripts/config/confdata.c:437-520 | reading back any written file, long lines and all, is reading back its records one after the other |
| `ConfigFile.ReadOne` | openwrt/scripts/config/confdata.c:116-221 | one line that fits the buffer stores its setting and the reader goes on with the next line, also when the newline falls into the next buffer |
| `ConfigFile.FileRoundTrip` | openwrt/scripts/config/confdata.c:437-520 | a file of storable records gives every symbol its last written setting |
| `ConfigFile.WrittenReadable` | openwrt/scripts/config/confdata.c:437-520 | a written file never ends in a lone hash, so the reader is defined on it |
| `ConfigFile.ReadLine` | openwrt/scripts/config/confdata.c:116-221 | taking a line apart inside its buffer gives the parsed setting |
| `ConfigFile.ReadFile` | openwrt/scripts/config/confdata.c:112-242 | the loop over buffers of 1024 characters reads what the line-by-line meaning says |
| `ConfigFile.WriteFile` | openwrt/scripts/config/confdata.c:437-520 | the writing loop produces the text of the records |
| `ConfigFile.WriteRun` | openwrt/scripts/config/confdata.c:482-490 | each inner loop consumes exactly one run of ordinary or of special characters |
| `ConfigFile.ReadAssignment` | openwrt/scripts/config/confdata.c:144-221 | an assignment line parsed in place |
| `ConfigFile.ReadUnset` | openwrt/scripts/config/confdata.c:120-142 | a line for an unset symbol parsed in place |
| `ConfigFile.Fgets` | openwrt/scripts/config/confdata.c:116 | one read takes a line with its newline or fills the buffer, and terminates it |
| `SaveAndReload.SavedSetting` | openwrt/scripts/config/confdata.c:112-242 | after the round trip a listed symbol that was written has its setting, and any other what it had before |
| `SaveAndReload.EmittedSaves` | openwrt/scripts/config/confdata.c:437-520 | the records printed along the menu hold the setting of every listed symbol that is written, and no other setting |
| `SaveAndReload.PrintedEntries` | openwrt/scripts/config/confdata.c:437-450 | the symbols listed are those of the visited entries that are no choices, and the headings those of the visited entries without a symbol that show |
| `SaveAndReload.SaveConfig` | openwrt/scripts/config/confdata.c:434-532 | walking the menu, evaluating, testing and clearing write marks prints exactly those records, in menu order and each symbol once; saving again prints the same |
| `SaveAndReload.FileKeepsValues` | openwrt/scripts/config/confdata.c:317-378 | reading back the file, after any other settings, changes the value of no symbol; every listed written symbol then agrees with its setting, and without earlier settings no other symbol has one |
| `SaveAndReload.SaveThenLoad` | openwrt/scripts/config/confdata.c:434-532 | saving, forgetting all user values and loading the text again leaves the value of every symbol as it was |
| `Bits.PowerOfTwoTest` | efixo/efixo-libetk/src/include/etk/math.h:43-47 | the bit trick recognises exactly the powers of two |
| `Bits.MaskIsRemainder` | efixo/efixo-libetk/src/include/etk/fifo.h:181-184 | masking with a power of two less one is the remainder |
| `Bits.WrapKeepsRemainder` | efixo/efixo-libetk/src/src/fifo.c:71-74 | a remainder by a power of two survives the wrap of a wider counter |
| `Bits.RoundUpExact` | efixo/efixo-libetk/src/include/etk/math.h:33-37 | the rounding is never the nearest power of two above, and reaches its argument if and only if that is at most 65536 |
| `RingBuffer.AllocSizeReaches` | efixo/efixo-libetk/src/src/fifo.c:67-89 | an allocated size is a power of two; it holds the request if and only if that was one already or at most 65536; otherwise it is never the rounded-up size the documentation promises |
| `RingBuffer.OffsetIsRemainder` | efixo/efixo-libetk/src/include/etk/fifo.h:181-184 | the masked, wrapped index is the number of bytes so far modulo the size, for ever |
| `RingBuffer.DistanceSurvivesWrap` | efixo/efixo-libetk/src/include/etk/fifo.h:124-130 | the difference of two wrapped counters is the true number of unread bytes |
| `RingBuffer.WriteIsSafe` | efixo/efixo-libetk/src/src/fifo.c:115-134 | the writer never writes a place that holds an unread byte |
| `RingBuffer.ReadIsSafe` | efixo/efixo-libetk/src/src/fifo.c:136-154 | the reader only reads published bytes, the oldest unread one next |
| `RingBuffer.StepKeeps` | efixo/efixo-libetk/src/src/fifo.c:115-227 | every step of either side, byte copies included, keeps the invariant that ties buffer and indices to the streams |
| `RingBuffer.RunKeeps` | efixo/efixo-libetk/src/src/fifo.c:167-227 | so does every interleaving of one writer and one reader |
| `RingBuffer.RunSafe` | efixo/efixo-libetk/src/src/fifo.c:167-227 | in every run what was read is a prefix of what was accepted, and at most the size is outstanding |
| `RingBuffer.WriteLands` | efixo/efixo-libetk/src/src/fifo.c:167-187 | whatever the reader does meanwhile, a write accepts, as a whole, the longest prefix that fitted when it started |
| `RingBuffer.ReadLands` | efixo/efixo-libetk/src/src/fifo.c:207-227 | whatever the writer does meanwhile, a read returns, as a whole, the next unread bytes, as many as there were and were asked for |
| `RingBuffer.WriteFinishes` | efixo/efixo-libetk/src/src/fifo.c:167-187 | left alone it has done so after one step a byte and the publication |
| `RingBuffer.ReadFinishes` | efixo/efixo-libetk/src/src/fifo.c:207-227 | the same for the read |
| `RingBuffer.RunWritesSafe` | efixo/efixo-libetk/src/src/fifo.c:167-187 | in every reachable state the next write hits no unread byte |
| `RingBuffer.RunReadsSafe` | efixo/efixo-libetk/src/src/fifo.c:207-227 | in every reachable state the next read yields the next byte of the stream |
| `RingBuffer.OverlayAppends` | efixo/efixo-libetk/src/src/fifo.c:115-134 | two copies behind the used bytes, split at the end of the buffer, append to the contents |
| `RingBuffer.PutAppends` | efixo/efixo-libetk/src/src/fifo.c:115-134 | in terms of the two wrapped indices the split copy appends, and the used count grows by its length |
| `RingBuffer.WindowReads` | efixo/efixo-libetk/src/src/fifo.c:136-154 | two copies from the masked index give the oldest bytes in order |
| `RingBuffer.WindowDrops` | efixo/efixo-libetk/src/include/etk/fifo.h:164-168 | moving the wrapped read index drops the oldest bytes |
| `RingBuffer.Fifo.Init` | efixo/efixo-libetk/src/src/fifo.c:45-54 | a size that is no power of two changes nothing; otherwise the queue is empty |
| `RingBuffer.Fifo.Put` | efixo/efixo-libetk/src/src/fifo.c:180-187 | appends the longest prefix that fits and returns its length |
| `RingBuffer.Fifo.Get` | efixo/efixo-libetk/src/src/fifo.c:219-227 | what is returned followed by what remains is what was there |
| `RingBuffer.Fifo.Skip` | efixo/efixo-libetk/src/src/fifo.c:106-113 | drops the oldest bytes, all of them when asked for as many or more |
| `RingBuffer.Fifo.PutData` | efixo/efixo-libetk/src/src/fifo.c:115-134 | the two copies overlay the buffer from the masked index on, around the end |
| `RingBuffer.Fifo.GetData` | efixo/efixo-libetk/src/src/fifo.c:136-154 | the two copies return the oldest bytes |
| `RingBuffer.Fifo.Drop` | efixo/efixo-libetk/src/include/etk/fifo.h:164-167 | moving the read index drops the oldest bytes |
| `AutoNegotiation.TimerStep` | openwrt/package/broadcom-57xx/src/autoneg.c:121-436 | every call keeps the accounting of link timers since the last restart |
| `AutoNegotiation.TimerRun` | openwrt/package/broadcom-57xx/src/autoneg.c:121-436 | the accounting holds after every run of calls, through any number of wraps of the 32-bit clock |
| `AutoNegotiation.ExpiredReally` | openwrt/package/broadcom-57xx/src/autoneg.c:243-244 | a wrapped clock can only make the link timer look younger |
| `AutoNegotiation.LinkOkTakesThreeTimers` | openwrt/package/broadcom-57xx/src/autoneg.c:240-422 | in every run LINK_OK is reached only more than three full link timers after the latest RESTART_INIT step |
| `AutoNegotiation.MatchStep` | openwrt/package/broadcom-57xx/src/autoneg.c:147-189 | an ability match on a non-zero word means the last three calls received the same word, the acknowledge bit included |
| `AutoNegotiation.EvidenceStep` | openwrt/package/broadcom-57xx/src/autoneg.c:121-436 | every call keeps the trail of received words that each state owes |
| `AutoNegotiation.EvidenceRun` | openwrt/package/broadcom-57xx/src/autoneg.c:121-436 | the trail exists after every run |
| `AutoNegotiation.LinkOkIsEarned` | openwrt/package/broadcom-57xx/src/autoneg.c:258-422 | LINK_OK implies that three equal non-zero words were received in a row, then one with ACK, then, in the latest COMPLETE_ACK_INIT step, a word without reserved bits, and the partner abilities reported are decoded from that word |
| `AutoNegotiation.ConsistencyTestPasses` | openwrt/package/broadcom-57xx/src/autoneg.c:296-315 | the consistency test of ACK_DETECT can never fail, so its failing branch is dead |
| `AutoNegotiation.AnyAckCompletes` | openwrt/package/broadcom-57xx/src/autoneg.c:288-315 | hence any acknowledged word completes the state, consistent or not |
| `AutoNegotiation.RestartOnlyByPartner` | openwrt/package/broadcom-57xx/src/autoneg.c:240-422 | negotiation starts over only on zero words from the partner |
| `AutoNegotiation.Negotiator.constructor` | openwrt/package/broadcom-57xx/src/autoneg.c:96-112 | initialisation |
| `AutoNegotiation.Negotiator.Poll` | openwrt/package/broadcom-57xx/src/autoneg.c:121-436 | one call of the field-by-field code is one step of the state machine the run theorems are about |
| `AutoNegotiation.Negotiator.TakeSample` | openwrt/package/broadcom-57xx/src/autoneg.c:147-189 | the match flags after one received word, or none |
| `NegotiationProgress.MatchExactStep` | openwrt/package/broadcom-57xx/src/autoneg.c:147-189 | the flags are exact: a match means the last three samples are the same non-zero word, or the last two are zero words with no other word right before them |
| `NegotiationProgress.PhaseTable` | openwrt/package/broadcom-57xx/src/autoneg.c:192-436 | in every run each call leads to the phase, and returns the status, that a table gives from the samples since AN_ENABLE, the time since the timer was started on a 32-bit clock and the next-page bits: the exact condition under which each phase is left, and for which |
| `NegotiationProgress.RegistersRun` | openwrt/package/broadcom-57xx/src/autoneg.c:192-422 | in every run the link is reported up, and the negotiation complete, in LINK_OK only; a page has been received from COMPLETE_ACK on and not before; there the own toggle bit is set and that of the partner is not |
| `NegotiationProgress.LinkComesUp` | openwrt/package/broadcom-57xx/src/autoneg.c:192-422 | progress, for runs of any length: with a word received three times, a later word with ACK, a word without reserved bits after it, each timer running out, no silence and not both sides asking for a next page, LINK_OK is entered when the last timer has run out and is not left; the abilities are those of that word, and this side has advertised its own, acknowledged, and gone back to idle |
| `NegotiationProgress.MeetingComesUp` | openwrt/package/broadcom-57xx/src/autoneg.c:192-422 | such runs exist: eleven calls suffice for every non-zero word matched and every word with ACK and without reserved bits that follows |
| `NegotiationProgress.AbilityBits` | openwrt/package/broadcom-57xx/src/autoneg.c:264-271 | a word is sent for an ability if and only if its advertised bits are those of the ability and all others are clear, and read bit by bit in the same way; D0 to D4 and D9 to D11 are the reserved bits |
| `NegotiationProgress.AbilityRoundTrip` | openwrt/package/broadcom-57xx/src/autoneg.c:329-335 | an ability is read back from what is sent for it, with or without ACK; a word is what is sent for its ability if and only if it has no reserved bit and no ACK |
| `LinkedRing.LinkInWellFormed` | efixo/efixo-libnbu/src/src/list.c:50-149 | linking a node in at any position keeps the ring doubly linked and inserts its datum there |
| `LinkedRing.UnlinkWellFormed` | efixo/efixo-libnbu/src/src/list.c:9-48 | unlinking a node keeps the ring doubly linked and removes its datum alone |
| `LinkedRing.FreshTest` | efixo/efixo-libnbu/src/src/list.c:68-91 | the pointers of the root tell whether anything was ever inserted |
| `LinkedRing.List.constructor` | efixo/efixo-libnbu/src/src/list.c:151-160 | a new list is empty |
| `LinkedRing.List.Insert` | efixo/efixo-libnbu/src/src/list.c:50-149 | succeeds exactly with a place or on a fresh list; then the contents gain one element at that place, and the cursor stays |
| `LinkedRing.List.DestroyNode` | efixo/efixo-libnbu/src/src/list.c:9-48 | the contents lose one element and the ring stays well formed |
| `LinkedRing.List.InsertBefore` | efixo/efixo-libnbu/src/src/list.c:272-276 | inserts in front of the cursor, which stays where it is; before the root is at the end |
| `LinkedRing.List.InsertAfter` | efixo/efixo-libnbu/src/src/list.c:266-270 | inserts behind the cursor, which stays where it is; after the root is at the beginning |
| `LinkedRing.List.InsertBegin` | efixo/efixo-libnbu/src/src/list.c:306-310 | prepends, also to a fresh list |
| `LinkedRing.List.InsertEnd` | efixo/efixo-libnbu/src/src/list.c:312-316 | appends, also to a fresh list |
| `LinkedRing.List.InsertAtNowhere` | efixo/efixo-libnbu/src/src/list.c:266-276 | without a cursor an insertion works only as the very first |
| `LinkedRing.List.DeleteForward` | efixo/efixo-libnbu/src/src/list.c:278-290 | removes the element at the cursor, which then stands at its successor |
| `LinkedRing.List.DeleteBackward` | efixo/efixo-libnbu/src/src/list.c:292-304 | removes the element at the cursor, which then stands at its predecessor, so that a forward loop misses nothing |
| `LinkedRing.List.Clear` | efixo/efixo-libnbu/src/src/list.c:174-194 | destroying node by node ends with nothing left |
| `LinkedRing.InsertSortedSorts` | efixo/efixo-libnbu/src/src/list.c:548-594 | inserting before the first element that is not smaller keeps the order and adds that element |
| `LinkedRing.SortSorts` | efixo/efixo-libnbu/src/src/list.c:548-594 | the insertion sort gives an ordered permutation |
| `LinkedRing.SortReversesTies` | efixo/efixo-libnbu/src/src/list.c:548-594 | elements that compare equal come out in exactly the opposite order: the sort is never stable on ties |
| `LinkedRing.FindPlace` | efixo/efixo-libnbu/src/src/list.c:566-579 | the cursor loop stops at the first element that is not smaller, or past the end |
| `LinkedRing.Sort` | efixo/efixo-libnbu/src/src/list.c:548-594 | the new list holds the sorted contents, the old one is emptied |
| `LinkedRing.CleanSessions` | efixo/efixo-api/src/src/ewf_session.c:44-67 | deleting from the list it is walking, the cleaner keeps exactly the sessions that have not expired, in order, and counts the others |
| `LinkedRing.AliveExactly` | efixo/efixo-api/src/src/ewf_session.c:44-67 | which those are: a session stays, as often as it was listed, if and only if it is at most 3600 seconds old, or 300 if it was never activated |
| `LinkedRing.AliveInOrder` | efixo/efixo-api/src/src/ewf_session.c:44-67 | what stays of two lists, one after the other, is what stays of each, so the order is kept |
| `LinkedRing.List.Start` | efixo/efixo-libnbu/src/src/list.c:203-208 | the cursor stands at the first element, or past the end of an empty list |
| `LinkedRing.List.Next` | efixo/efixo-libnbu/src/src/list.c:217-223 | the cursor moves on by one, from the root too |
| `LinkedRing.List.AtNode` | efixo/efixo-libnbu/src/src/list.c:233-236 | tells exactly whether the cursor is at an element |
| `LinkedRing.List.DeleteBegin` | efixo/efixo-libnbu/src/src/list.c:318-321 | removes the first element |
| `LinkedRing.List.DeleteEnd` | efixo/efixo-libnbu/src/src/list.c:323-326 | removes the last element |
| `LinkedRing.InsertInOrder` | efixo/efixo-libnbu/src/src/list.c:566-584 | search and insertion give the ordered insertion |

## Left out

- CheckedConfiguration.CheckForEvaluation: excludes choices; the half about no order of evaluation is for symbols whose followed properties are prompts or defaults, because ranges are not evaluated here.
- Equivalence.ExprEqSelfExactly: for expressions without y/n operands; with them a deciding constant can hide any other operand (`ExprEqConstants`).
- Canonical.ExprEqExactly: for expressions without y/n operands, for the same reason.
- Canonical.AbsorbedExactly: for expressions without y/n operands and groups with at most one string; `EliminateEqToYes` is for all.
- Canonical.ExtractedExactly: for expressions of the same kind; `ExtractEqSplits` is for all.
- Simplified.ComplementaryExactly: for expressions of the same kind; `ComplementExactly` is for all.
- Simplified.SimplifiedNoRepeats: for results without y/n operands and with at most one string a group, where sameness up to order and grouping is what `expr_eq` decides.
- Nesting.AbsorbsExactly: for normalised conditions of that kind; `NestsExactly` holds for all conditions and names the absorption itself.
- AutoNegotiation.LinkOkTakesThreeTimers: for a clock that does not run backwards, kept in 32 bits; a 64-bit `unsigned long` is not modelled.
- AutoNegotiation.Negotiator.Poll: the received word is a parameter; register access and the physical order of the bits are not modelled.
- Evaluator.Engine.SetTristateValue: for a symbol that is not evaluated yet the range test is made on the fields its cell happens to hold, as in the source, and no value is promised.
- ConfigFile.FileRoundTrip: names have no separators, and values and headings no newlines; `FileReads` and `RecordSurvives` say what happens to all such records, storable or not.
- SaveAndReload.SaveConfig: the walk and the printing are two loops here and one in the source; whether a heading shows, and its text, are parameters; int and hex symbols are not in the file model.
- SaveAndReload.SaveThenLoad: the text has no NUL characters and its records fit the reader (`Storable`); symbols without a menu entry are invisible, having no prompt.
- ConfigFile.ReadFile: excludes NUL characters, and a `#` alone at the very end of a file, where the reader compares bytes behind the terminator that this line did not write (uninitialised ones if it is the only line).
- RingBuffer.RunSafe: steps are byte copies and index stores in program order; reordering by compiler or processor is not modelled.
- RingBuffer.AllocSizeReaches: excludes 0, for which the rounding is documented as undefined.
- RingBuffer.Fifo.Put: the length is that of the data given; record mode, peeking and serialisation are left out.
- LinkedRing.List.Insert: allocation failure and the freeing of data are left out.
- LinkedRing.List.DestroyNode: a cursor left at the destroyed node is not followed further (`DeleteBegin` and `DeleteEnd` leave it so).
- Expressions, menu entries and list nodes are values, tree paths, positions and numbers rather than heap objects: a slot is a path, a link is a position, a node is a number. Sharing is expressed through these names.
- Choices (`sym_calc_choice`, choice values), ranges, and int and hex symbols in the configuration file are not modelled; they are separate branches of the same functions.
- `menu_finalize` also collects selects into reverse dependencies, types choice values and prints warnings; the reverse dependencies are inputs of the evaluator here.
- Changed marks, menu marks, freeing, printing and the header and renaming of the written file are left out.
- Comparing against the constant m in `expr_trans_compare`, and expressions of kind choice or range, are left out; no caller modelled here uses them.
- The parser, the lexer and the user interfaces of the configuration engine are left out.
- Serialisation, membership and indexed access of the list, and the creation, lookup, check and removal of sessions, are left out.
- The rest of the repository (packages, build files, web pages, other daemons) is left out.
