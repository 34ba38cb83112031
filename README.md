# jCAS core, modelled in Dafny

jCAS is a small computer algebra system written in Java. A command typed
into its window is either `simplify(e)` or `solve(a=b)`. The infix text `e` goes through these steps:

- **Spacing.** `addSpaces` puts spaces around the operator characters `+ - * / ^ ( )`.
- **Postfix.** `infToPost` runs the shunting-yard algorithm to reorder the tokens into reverse Polish.
- **Tree building.** `createAST` builds a tree of `Node` objects, each holding an `Expr`: a constant, a variable or an operator.
- **Rewriting.** `simplifyAST` rewrites the tree in place:
  - `canonicalForm` puts constants first in products, turns `a-b` into the sum of `-1*b` and `a` (printed `- b + a`), raises a lone variable to the power 1, and scales a lone power by 1;
  - a distribution step spreads `*` over `+` and `-`.
- **Printing.** `toInfix` / `ASTtoInfix` print the tree back as infix. The printer hides the constants the rewrites introduced.

The project models that core:

- the string and token level: `addSpaces`, `isOperator`, `getPrec`, `infToPost` and the command parsers of `jGUI`;
- the `Node` and `Expr` classes;
- the tree operations `createAST`, `canonicalForm`, the distribution block, `swapNodes`, `fillParentNodes`, `toInfix` and `ASTtoInfix`.

How it is organised:

- **Heap and value views.** `Node` is a Dafny class with fields `children`, `parent` and `data`, and its methods change those fields in place. The tree a node stands for is read off its children (`Nodes.Abs`, a `Trees.Tree` value). Whether the parent links agree with that tree is a separate property (`Maintenance.Linked`).
- **Specification functions.** Each tree-changing method is proved against a function on `Tree` values: `Builder.Build`, `Canonical.Canonical`, `Distribution.Distribute` and `Printer.Infix`.
- **Partners.** Those functions are tied to independent meanings:
  - a round trip through postfix;
  - the value of the tree (`Values.Eval`, over real numbers, partial where the arithmetic is);
  - a reference rendering (`Printer.Words`).
- **Exceptions.** A Java exception becomes a `Results.Failure`: an empty stack, a null pointer or an index out of bounds. The model carries the failure in a `Result` or `Outcome` value instead of ruling those inputs out.
- **Operand order.** Child 0 of an operator node is its RIGHT operand and child 1 its LEFT one, because `createAST` pops the right operand first.

Three behaviours of the code are easy to miss:

- `addSpaces` keeps an operator in first position glued to what follows it, so `-x` stays one token.
- `canonicalForm` also scales a power at the root by 1.
- An operator of equal precedence under its parent gets brackets only when the parent is `-` and the node is its right operand.

`isRoot`, `hasChildren` and `dataIs` are the predicates `Nodes.Node.IsRoot`, `Nodes.Node.HasChildren` and `Nodes.Node.DataIs`. The methods below use them to decide their branches.

## Model

| member | source | states |
|---|---|---|
| `Exprs.TypeName` | Expr.java:61-98 | ConstExpr, OperatorExpr and VariableExpr report "const", "operator" and "variable", and no two kinds share a name |
| `Exprs.Prec` | Expr.java:47-56 | the precedence is -1 exactly for non-operators, 2 exactly for + and -, 3 exactly for * and /, 4 exactly for ^ |
| `Exprs.Expr.constructor` | Expr.java:32-35 | a new Expr holds the given string and keeps its subclass |
| `Exprs.Expr.SetData` | Expr.java:42-45 | after setData the Expr holds the new string and its precedence is the new string's |
| `Exprs.Expr.Value` | Expr.java:37-58 | the value read out of an Expr reports the same type name and precedence as the Expr |
| `Lexer.GetPrec` | jCAS.java:891-900 | -1 exactly for tokens outside the table; 100 exactly for "(", 0 exactly for ")"; on the five operators it agrees with Expr.getPrec and is positive |
| `Lexer.IsOperatorIsSymbol` | jCAS.java:984-987 | isOperator(c) holds exactly when the one-character token is in getPrec's table |
| `Lexer.AddSpaces` | jCAS.java:953-979 | fails (charAt(0) out of bounds) exactly when the input is only spaces. Otherwise: removing spaces from the result gives back the input without spaces; after the first character every operator sits between single spaces; every space separates an operator from its neighbour; a leading "(" is split off and any other leading operator stays glued to its operand |
| `Strings.IndexOf` | jCAS.java:542 | the result is -1 or the first position where the pattern occurs |
| `Strings.LastIndexOf` | jGUI.java:146 | the result is -1 or the last position where the pattern occurs |
| `Strings.StripConcat` | jCAS.java:955 | removing spaces distributes over concatenation |
| `Strings.JoinSplitStrips` | jCAS.java:955 | joining the pieces of split(" ") with "" removes every space and keeps everything else in order |
| `Postfix.InfToPost` | jCAS.java:569-625 | the loop's output queue, or its empty-stack exception, is exactly the shunting-yard function Convert on the whitespace-separated tokens |
| `Postfix.ShuntToken` | jCAS.java:576-615 | one token: an operator pops what binds at least as tight (but never past "(") and is pushed; ")" pops to the matching "(" and drops both; an operand goes to the output |
| `Postfix.PopOperators` | jCAS.java:590-593 | pops exactly the operators Step would pop before pushing |
| `Postfix.PopToParen` | jCAS.java:602-605 | pops exactly up to the nearest "(" |
| `Postfix.Unwind` | jCAS.java:619-622 | appends the operator stack to the output, top first |
| `Postfix.ConvertFails` | jCAS.java:599-609 | conversion fails exactly when some ")" has no open "(" before it, and it fails with an empty-stack exception |
| `Postfix.ConvertKeeps` | jCAS.java:569-625 | the output holds the operands in their input order and every non-bracket token as often as the input does; it holds no ")" and no empty token; it holds one "(" for each "(" left unclosed |
| `Postfix.RunFails` | jCAS.java:574-616 | from any stack, the loop fails exactly when a ")" finds no open "(" |
| `Postfix.RunFailsEmpty` | jCAS.java:602-608 | the only exception the loop throws is the empty-stack one |
| `Postfix.RunKeeps` | jCAS.java:574-616 | the loop moves tokens between stack and output without losing or inventing any, except the brackets it drops |
| `Postfix.RunKeepsOperands` | jCAS.java:612-615 | operands reach the output in input order |
| `Postfix.RunDepth` | jCAS.java:574-616 | the number of "(" on the stack afterwards is the count before plus the input's net bracket depth |
| `Postfix.StepDepth` | jCAS.java:579-615 | one token fails exactly when it is a ")" with no "(" on the stack, and changes the open-bracket count by its bracket weight |
| `Postfix.ConvertTwoOperators` | jCAS.java:590 | for `a o1 b o2 c`, o1 is applied first exactly when it binds tighter than o2, or as tight and o2 is not "^"; so ^ groups to the right and the others to the left |
| `Builder.CreateAST` | jCAS.java:532-567 | fails exactly when the postfix queue does not build a tree (an operator short of two operands, or an empty queue), with an empty-stack exception. Otherwise the returned root has no parent, denotes the tree Build gives, shares no node between branches, and every node below it links back to its parent |
| `Builder.ReadToken` | jCAS.java:536-564 | one token updates the node stack exactly as Push updates the tree stack, or fails exactly when Push does |
| `Builder.PushOperand` | jCAS.java:539-547 | a token outside getPrec's table becomes a leaf: a variable when it occurs in the variable string, otherwise a constant |
| `Builder.PushOperator` | jCAS.java:550-564 | an operator node takes the top of the stack as child 0 and the next as child 1, becomes their parent and replaces them on the stack |
| `Builder.BuildFails` | jCAS.java:558 | building fails exactly when the queue has no valid stack height, and only with an empty-stack exception |
| `Builder.BuildWellFormed` | jCAS.java:532-567 | every built tree has operator nodes with two children holding a symbol, and leaves classified by the variable string |
| `Builder.BuildPostOrder` | jCAS.java:532-567 | round trip: building from the post-order token list of a well-formed, classified tree gives back that tree |
| `Nodes.Node.constructor` | Node.java:34-37 | new Node(e) has no children, no parent and the Expr e |
| `Nodes.Node.Copy` | Node.java:30-32 | new Node() followed by setNode(src) has src's children, parent and Expr |
| `Nodes.Node.SetNode` | Node.java:78-85 | the node takes over the other node's parent, Expr and children (as a copied list) and returns itself |
| `Nodes.Node.SetChildren` | Node.java:59-66 | the child list becomes a copy of the given one, in order |
| `Nodes.Node.SetParent` | Node.java:73-76 | the parent link becomes the given node |
| `Nodes.Node.AddChild` | Node.java:87-92 | the child is appended at the end of the list, its parent becomes this node, and it is returned |
| `Nodes.Node.TypeIs` | Node.java:94-97 | holds exactly when the name is the type name of the node's Expr |
| `Nodes.Node.ComparePrec` | Node.java:134-137 | positive exactly when this node's operator binds tighter than the other's, zero exactly when they tie |
| `Nodes.Node.HasChildOfType` | Node.java:139-147 | holds exactly when some child has that type |
| `Nodes.Node.GetChildOfTypeInd` | Node.java:149-158 | the index of the first child of that type, or -1 when there is none |
| `Nodes.Node.GetChildOfType` | Node.java:191-200 | the first child of that type, or null exactly when there is none |
| `Nodes.Node.GetOtherChildInd` | Node.java:180-189 | throws exactly for a root; otherwise the first index holding a different object, or -1 when every entry is this node |
| `Nodes.Node.IsSame` | Node.java:230-247 | the answer, or the exception, is what the structural comparison of the two trees gives |
| `Nodes.Node.GetOtherChild` | Node.java:212-228 | a root returns itself. Otherwise: the parent's child object at index (i+1)%2, where i is the first index whose child isSame reports equal to this node; null when none is equal; or the exception the comparison throws. All of this agrees with the value-level OtherChild |
| `Trees.IsSame` | Node.java:230-247 | a "true" answer means the two trees have the same shape and texts |
| `Trees.IsSameDecides` | Node.java:230-247 | on well-formed trees the comparison never throws and answers true exactly when shape and texts agree |
| `Trees.FirstSame` | Node.java:221-225 | the first child equal to the node, -1 when none is, or an exception that some child's comparison throws |
| `Trees.OtherChild` | Node.java:212-228 | a found sibling is one of the parent's two children |
| `Trees.OtherChildOfWellFormed` | Node.java:212-228 | on well-formed trees: never throws; returns child 1 when child 0 equals the node, else child 0 when child 1 does, and nothing exactly when neither does |
| `Maintenance.FillParentNodes` | jCAS.java:759-772 | on a tree that shares no node, every node below the root links back to its parent |
| `Maintenance.SwapNodes` | jCAS.java:786-792 | the two nodes exchange children, Expr and parent |
| `Maintenance.Branch` | jCAS.java:232-241 | a fresh operator node over copies of two nodes denotes the operator applied to their trees |
| `Maintenance.Replace` | jCAS.java:243 | setNode with a fresh operator node: the node now denotes that operator over the two trees, as a root |
| `Canonical.CanonicalForm` | jCAS.java:216-273 | fails exactly when the Java throws, with the same exception and nothing changed. Otherwise the node denotes Canonical of its old tree and parent; a rewritten node has no parent, and a node left alone is unchanged |
| `Canonical.CanonicalFails` | jCAS.java:247-249 | below a real parent, a well-formed node only makes canonicalForm throw when it is a variable at the root (null parent) |
| `Canonical.CanonicalKeepsValue` | jCAS.java:216-273 | the rewrite keeps the value of the expression for every assignment of the variables |
| `Canonical.CanonicalWellFormed` | jCAS.java:216-273 | the rewrite keeps trees well-formed |
| `Canonical.CanonicalShape` | jCAS.java:216-273 | afterwards no "-" is left at the node, a variable stays only under "^", and a product never has a constant right operand beside a non-constant left one |
| `Canonical.SwapRule` | jCAS.java:219-226 | when the two children are separate subtrees, swapping their contents exchanges the operands |
| `Canonical.MinusRule` | jCAS.java:229-244 | a-b becomes a sum whose left operand is the product -1 * b and whose right operand is a, so it keeps the value of a-b |
| `Canonical.MinusOperands` | jCAS.java:234-240 | the copies of the two operands denote the left operand and the right operand times -1 |
| `Canonical.NegatedProduct` | jCAS.java:236-240 | a fresh product node denotes the given tree times -1 |
| `Canonical.PowerRule` | jCAS.java:247-258 | the variable becomes x ^ 1 with the variable as base |
| `Canonical.TimesOneRule` | jCAS.java:261-271 | the power becomes (power) * 1 |
| `Canonical.UnsharedSeparate` | jCAS.java:222-224 | in a tree that shares no node, the two children of a node never lie below one another, so the swap is safe |
| `Distribution.DistributeNode` | jCAS.java:155-182 | fails exactly when the Java throws, with the same exception and nothing changed; otherwise the node denotes Distribute of its old tree, and changes only when a sum or difference was spread |
| `Distribution.SpreadNode` | jCAS.java:159-178 | the node becomes the sum (or difference) of the other operand times each operand of the sum, or throws exactly when the sum is a leaf |
| `Distribution.Products` | jCAS.java:162-172 | two fresh products denote the other operand times the first and the second operand of the sum |
| `Distribution.DistributeAt` | jCAS.java:157-180 | the loop stops at the first child that is a sum and spreads it against the other child; a spread node no longer holds "*" |
| `Distribution.DistributeOnlySums` | jCAS.java:155-160 | the node is left alone exactly when it is not a product or neither child is a sum or difference |
| `Distribution.DistributeFails` | jCAS.java:159-166 | the step throws exactly when the first child with "+" or "-" has no children |
| `Distribution.DistributeWellFormed` | jCAS.java:155-182 | on a well-formed tree the step never throws and keeps the tree well-formed |
| `Distribution.Distributes` | jCAS.java:155-182 | (a ± b)·c is a·c ± b·c and c·(a ± b) is c·a ± c·b |
| `Distribution.SpreadKeepsValue` | jCAS.java:159-178 | spreading keeps the value of the product, whichever side the sum was on |
| `Distribution.DistributeKeepsValue` | jCAS.java:155-182 | the distribution step keeps the value of the expression for every assignment of the variables |
| `Printer.ToInfix` | jCAS.java:801-885 | printing a linked, unshared tree appends exactly what Infix gives for its tree in its place, or throws what Infix throws |
| `Printer.ParensNeeded` | jCAS.java:840-862 | a node is bracketed exactly as NeedParens says for its parent and position |
| `Printer.PrintOperator` | jCAS.java:838-883 | an operator node prints as Infix says |
| `Printer.PrintChildren` | jCAS.java:867-879 | the loop over the children, last to first, prints as Children says |
| `Printer.PrintChild` | jCAS.java:869-878 | one child and the symbol after it print as Visit says |
| `Printer.PrintOperand` | jCAS.java:803-837 | the operand branch of toInfix prints as Operand says; the lemmas below state what that means for the constants the rewrites introduce |
| `Printer.TimesOneHidden` | jCAS.java:807 | the factor 1 that canonicalForm puts beside a power is not printed: the product with 1 prints exactly as its other operand |
| `Printer.PlusZeroHidden` | jCAS.java:818-825 | a term 0 is dropped with the "+ " that joins it: x + 0 prints exactly as x |
| `Printer.MinusOneFactor` | jCAS.java:827-835 | under a sum, a product b * -1 prints as "- " followed by b, in place of a preceding "+ ", and without its "*" |
| `Printer.NegatedSumPrints` | jCAS.java:827-875 | the sum that canonicalForm makes of a - b prints as "- b + a" |
| `Printer.AstToInfix` | jCAS.java:916-921 | succeeds exactly when toInfix does, and with delimiter "" gives the printed text without spaces |
| `Printer.AstToInfixNode` | jCAS.java:916-921 | the node prints as AstToInfix says for its tree |
| `Printer.PrintableInfix` | jCAS.java:811 | toInfix does not throw on a tree whose printed operands have text |
| `Printer.WellFormedPrintable` | jCAS.java:801-885 | every well-formed tree is printable |
| `Printer.InfixFailure` | jCAS.java:811 | the only exception toInfix throws is the out-of-bounds charAt(0) on an empty operand |
| `Printer.PlainInfix` | jCAS.java:801-885 | on a tree without hidden constants, toInfix appends the reference rendering: left operand, symbol, right operand, bracketed where NeedParens says |
| `Commands.VariableParser` | jGUI.java:126-136 | the result holds each letter of the input exactly once, and nothing else |
| `Commands.Variables` | jGUI.java:126-136 | the letters of the input, without repeats |
| `Commands.VariablesInOrder` | jGUI.java:130-131 | the letters appear in the order of their first occurrence in the input |
| `Commands.SimplifyParser` | jGUI.java:144-152 | throws exactly when no ")" follows the first "("; otherwise returns text strictly shorter than the input |
| `Commands.SolveParser` | jGUI.java:162-171 | succeeds exactly when the first "(" comes before the first "=", which comes before the last ")" |
| `Commands.Invokes` | jGUI.java:177-192 | isSimplify and isSolve: holds exactly when the command's name followed by "(" occurs somewhere in the input |
| `Commands.SimplifyRoundTrip` | jGUI.java:144-152 | "simplify(e)" is recognised and parses back to e |
| `Commands.SolveRoundTrip` | jGUI.java:162-171 | "solve(a=b)" is recognised and parses to a-(b) when a has no "=" |
| `Commands.NoCloseRejected` | jGUI.java:146-148 | an input without ")" makes both parsers throw |
| `Brackets.PrintsBare` | jCAS.java:801-885 | two nested operators over leaves that need no brackets print as five bare words |
| `Brackets.ReadsBare` | jCAS.java:532-625 | five bare words read back as the tree the postfix precedence rules give |
| `Brackets.QuotientRegroups` | jCAS.java:851-860 | a/(b*c) prints as "a / b * c ", which reads back as (a/b)*c, a different value |
| `Brackets.PowerRegroups` | jCAS.java:851-860 | (a^b)^c prints as "a ^ b ^ c ", which reads back as a^(b^c), a different value |
| `Brackets.NeedParensFixed` | jCAS.java:840-862 | brackets wherever the printer uses them, and also for a right operand of "/" or a left operand of "^" of equal precedence |
| `Brackets.Reassociates` | jCAS.java:851-860 | for + over +/- and * over */ regrouping keeps the value, which is why no other equal-precedence case needs brackets |
| `Brackets.FixedReadsBack` | jCAS.java:801-885 | with the corrected rule, two nested operators over leaves print as text that reads back to a tree with the same value |

## Left out

- The numeric side of jCAS is not modelled: `constSimp`, `operate`, `toDouble`, `toString`, `eval`, `deriv`, `plugIn`, `solve` and Newton's method, all of which work on floating-point doubles. `Values.Eval` gives trees an exact real value instead.
- Not modelled: the fixed-point loop of the `jCAS` constructor, the recursion of `simplifyAST` over the children, `infixToAST`, `printAST`, `queueToString`, the debug printing and the Swing window of `jGUI`. They are drivers, I/O or output.
- `Node` helpers that the core does not call are not modelled: `typeIsOr`, `sameType`, `dataIsOr`, `dataIsIn`, `sameData`, `hasChildOfData`, `getChildOfDataInd`, `getChildOfData`. The model calls the ones the core uses through their own definitions.
- `new Node()` with no Expr is modelled only when setNode follows at once (`Nodes.Node.Copy`). A node without an Expr is never used otherwise.
- `Commands.VariableParser`: `Character.isLetter` is modelled for ASCII letters only. Unicode letter classes are out of scope.
- `Nodes.Node.ComparePrec` states the sign of the difference, not the difference itself. The core only compares it with 0.
- `Canonical.CanonicalForm` and `Canonical.SwapRule` state the new tree after the swap only when the two children are separate subtrees. `Canonical.UnsharedSeparate` shows that this holds for trees built by createAST. With shared children, the Java swap produces aliasing that the model does not describe.
- `Printer.ToInfix` and `Printer.AstToInfixNode` require the tree to be linked and unshared, as createAST leaves it. The Java reads parent links, so on other heaps its output is not described. The distribution step (jCAS.java:164, 170) copies only the top node of the factor, twice, so after distributing over a compound factor the tree is shared. fillParentNodes does not undo that sharing. Such trees fall outside `Printer.ToInfix`, `Printer.AstToInfixNode` and the main ensures of `Maintenance.FillParentNodes`.
- `Canonical.CanonicalForm`, `Distribution.DistributeNode`, `Canonical.MinusRule`, `Canonical.PowerRule` and `Canonical.TimesOneRule` leave the rewritten node's parent link null, as setNode copies it from a fresh node. The value-level results say nothing about parent links until fillParentNodes runs.
- Where the Java allocates nodes before throwing (the "-" rule and the distribution step on a leaf), the model checks for the failure first. The nodes allocated before the exception are unreachable, so nothing observable differs.
- `createAST` on an empty queue throws when `peek` finds the stack empty. The model reports the same empty-stack failure once the whole queue has been read.
- A leaf at the root prints as nothing, as in the Java. `Printer.Infix` keeps that quirk.
- `Values.Eval` is partial: it has no value for a division by zero, an exponent that is not a natural number, or a constant that is not a decimal numeral. The value lemmas speak only of trees whose values exist, or state equality of the partial values.
- The distribution step copies only the top node of the operand it duplicates, so both products share that operand's subtrees, as in the Java. The model states the resulting trees, not the sharing.

## Findings

| source | as written | input that shows it | evidently intended | confidence | as-written member | corrected member |
|---|---|---|---|---|---|---|
| jCAS.java:851-860 | an operator of equal precedence under "/" is printed without brackets when it is the right operand | the tree a/(b*c) prints as `a / b * c `, which reads back as (a/b)*c; with a = 1 and b = c = 2 the values are 0.25 and 1 | a right operand of "/" of equal precedence keeps its brackets | not executed | `Brackets.QuotientRegroups` | `Brackets.FixedReadsBack` |
| jCAS.java:851-860 | a "^" under "^" is printed without brackets when it is the left operand | the tree (a^b)^c prints as `a ^ b ^ c `, which reads back as a^(b^c); with a = c = 2 and b = 3 the values are 64 and 512 | a left operand of "^" of equal precedence keeps its brackets | not executed | `Brackets.PowerRegroups` | `Brackets.FixedReadsBack` |
