# azul conditions and grammar, in Dafny

This project models the condition pipeline of azul's SQL builder.

A caller passes a flat list of predicate specs to the condition constructor `w(...)`. The list can hold:
- key/value mappings, such as `{ 'id[gt]': 5 }`;
- `field=other` strings;
- arrays of specs;
- already built conditions;
- the tokens `and`, `or` and `not`.

The constructor turns that list into an expression tree, or rejects it with an error that names the misplaced operator. Building a condition renders the tree through a grammar:
- `quote` wraps an identifier in double quotes.
- `field` quotes each part of a dotted path.
- `value` is a `?` placeholder that carries its literal as a bind argument.
- `expression`, `operation`, `unary` and `group` assemble lists of pieces. A piece is either a plain string or a fragment of text with arguments.
- `joinFragments` flattens such a list into one fragment: the concatenated text, plus the arguments of the fragment pieces in the same order.

Modules:

- `Wrappers`: `Option` and `Result`.
- `Fragments`: bind values, `Fragment` (SQL text with its ordered bind arguments) and `Piece` (a plain string or a fragment).
- `Strings`: `split`, `join` and character search over `seq<char>`.
- `Grammar`: the grammar combinators of `lib/db/grammar/grammar.js`.
  - `JoinFragments` is a method with a loop that collects strings and arguments, as the source does. It is proved equal to the recursive specification `Joined`.
  - Lemmas state what each combinator adds to the text and to the arguments.
- `Condition`: the tree, the specs, the errors and their messages, and predicate-suffix extraction (`_extractPredicate`).
  - The constructor reads the specs left to right as a small state machine. The states are: nothing yet but pending `not`s, a complete expression, or a left side and an operator waiting for their right side.
- `ConditionLaws`: properties of the constructor.
  - The placement rules: the constructor succeeds exactly when every operator stands where it may.
  - Each error and where it arises.
  - The implicit `and`.
  - Left-deep chains, nested `not`, and arrays as sub-conditions.
- `Binding`: how an adapter pairs a fragment's arguments with its text, one argument per `?` from left to right.
- `Rendering`: rendering a tree through a grammar whose `field` and `value` are parameters, as the test suite overrides them. The translator is also a parameter: it maps a predicate to a one-slot template.
  - Rendering is proved to produce the text of a direct printer of the tree.
  - Under the default grammar, the arguments are proved to be the leaves' literals in order.
  - Binding them into the text is proved to put each literal exactly where its comparison stands.
- `ConditionExamples`: the test suite's cases, stated over the model, with the suite's grammar (identity `field`, JSON `value`). `ConditionMessages` states that each error message matches the regular expression the suite checks it against.

## Model

| member | source | states |
|---|---|---|
| Grammar.Quote | lib/db/grammar/grammar.js:27-29 | the result is the identifier between two double quotes, unchanged (no escaping) |
| Grammar.Field | lib/db/grammar/grammar.js:41-45 | split on `.`, quote each part, join with `.`; a plain string, so no arguments; its contract is carried by `FieldSimple`, `FieldQualified`, `FieldUnquotes` and `FieldAbsent` |
| Grammar.FieldSimple | lib/db/grammar/grammar.js:41-45 | a path without a dot is quoted as a whole |
| Grammar.FieldQualified | lib/db/grammar/grammar.js:41-45 | `field("t.rest")` is the quoted `t`, a dot, and the field of `rest` |
| Grammar.FieldUnquotes | lib/db/grammar/grammar.js:41-45 | removing the double quotes from `field(p)` gives back `p` when `p` has none: `field` only adds quotes |
| Grammar.FieldAbsent | lib/db/grammar/grammar.js:41-45 | `field` introduces no character other than `"` and `.` |
| ConditionExamples.QualifiedField | lib/db/grammar/grammar.js:41-45 | `field("table.column")` is `"table"."column"` |
| Grammar.Value | lib/db/grammar/grammar.js:57-59 | the fragment `?` with the one argument `v`; its contract is carried by `Rendering.ValueBinds` |
| Rendering.ValueBinds | lib/db/grammar/grammar.js:57-59 | `value(v)` has one placeholder and the arguments `[v]`, and binding puts `v` at that placeholder |
| Grammar.Expression | lib/db/grammar/grammar.js:72-77 | `[lhs, ' ', fragment]`, the right side filled into the template and only the right side's arguments lifted; its contract is carried by `ExpressionJoined` |
| Grammar.ExpressionJoined | lib/db/grammar/grammar.js:72-77 | an expression joins to the left text, a space and the template filled with the right text; its arguments are the left then the right piece's arguments |
| Grammar.Operation | lib/db/grammar/grammar.js:90-92 | `lhs ++ [' ', op, ' '] ++ rhs`; its contract is carried by `OperationJoined` |
| Grammar.OperationJoined | lib/db/grammar/grammar.js:90-92 | an operation has three pieces more than its two sides together, joins to the left text, the operator between spaces, and the right text, and adds no arguments |
| Grammar.Unary | lib/db/grammar/grammar.js:104-106 | `[op, ' '] ++ operand`; its contract is carried by `UnaryJoined` |
| Grammar.UnaryJoined | lib/db/grammar/grammar.js:104-106 | a unary operation prefixes the operator and a space, and keeps the operand's arguments exactly |
| Grammar.Group | lib/db/grammar/grammar.js:117-119 | `['(', e, ')']`; its contract is carried by `GroupJoined` |
| Grammar.GroupJoined | lib/db/grammar/grammar.js:117-119 | a group wraps the piece's text in parentheses, and keeps its arguments exactly |
| Grammar.JoinFragments | lib/db/grammar/grammar.js:130-139 | the loop's result is `Joined(pieces)`: the in-order texts and the in-order arguments of fragment pieces |
| Grammar.JoinedAppend | lib/db/grammar/grammar.js:131-138 | joining distributes over concatenation of piece lists, for the text and for the arguments |
| Grammar.JoinedStrings | lib/db/grammar/grammar.js:135-136 | plain strings contribute no arguments |
| Condition.Construct | test/condition_tests.js:28-35 | no arguments fail with `ConditionRequired`; a single built condition is returned as it is |
| ConditionExamples.ArgumentRequired | test/condition_tests.js:33-35 | `w()` fails, and its message is `condition required` |
| Condition.ExtractPredicate | test/condition_tests.js:65-75 | the result is either the whole key with `exact`, or a name without `[` and a non-empty predicate such that the key is `name[predicate]` |
| Condition.ExtractPredicateSuffix | test/condition_tests.js:65-69 | `name[pred]` gives back exactly `name` and `pred` |
| Condition.ExtractPredicateDefault | test/condition_tests.js:71-75 | a key without `[` keeps its name and gets the predicate `exact` |
| ConditionExamples.ExtractsPredicate | test/condition_tests.js:65-69 | `id[gt]` gives `id` and `gt` |
| ConditionExamples.DefaultsToExact | test/condition_tests.js:71-75 | `address` gives `address` and `exact` |
| ConditionExamples.SuffixedKey | test/condition_tests.js:65-69 | a suffixed key builds a leaf with exactly that name and predicate |
| ConditionExamples.GreaterThan | test/db/query_tests.js:49-53 | `{ 'words[gt]': 200 }` under the default grammar is the statement `"words" > ?` with the arguments `[200]`; with the suite's grammar it is written `words > 200` |
| Condition.ParseEquation | test/condition_tests.js:57-61 | a `field=other` string parses exactly when it holds a `=`; otherwise it fails with `NotAnEquation` for that text; a parsed string is an `exact` leaf whose field (without `=`), `=` and column give back the text |
| Condition.ParseEquationSplits | test/condition_tests.js:57-61 | `key=other` is the leaf `Leaf(key, exact, FieldRef(other))`: an exact comparison of the field `key`, as written, with the column `other` |
| ConditionExamples.EquationString | test/condition_tests.js:57-61 | `first=value` is the leaf `first exact FieldRef(value)` |
| ConditionExamples.RightHandSides | test/condition_tests.js:44-62 | a literal renders through `value` (`first = "value"`), a field reference through `field` (`first = value`) |
| ConditionExamples.BuildsExpressions | test/condition_tests.js:38-42 | `w({ id: 1 }, { name: 'Whitney' })` is the two leaves joined by `and` |
| ConditionExamples.JoinedLeavesText | test/condition_tests.js:38-42 | two leaves joined by an operator are written `a = u op b = v` |
| ConditionLaws.Placement | test/condition_tests.js:124-190 | for well-formed operands, construction succeeds if and only if every `and`/`or` follows an operand, no `not` follows an operand, and the list ends with an operand |
| ConditionLaws.StepKind | test/condition_tests.js:124-190 | one spec is accepted exactly when the placement rule allows it after the current state, and the state then sits after that kind of spec |
| ConditionLaws.RunAccepts | test/condition_tests.js:124-190 | from any state, the rest of the specs build exactly when the placement rules hold from that state |
| ConditionLaws.ImplicitAnd | test/condition_tests.js:110-122 | two neighbouring operands build the same as with an explicit `and` between them, anywhere in the list, including the errors |
| ConditionLaws.MappingSplits | test/condition_tests.js:38-42 | a mapping with several keys reads as its keys one mapping at a time, in key order |
| ConditionLaws.LeadingBinary | test/condition_tests.js:124-157 | `and`/`or` first fails with "must include left hand expression", whatever follows |
| ConditionLaws.TrailingBinary | test/condition_tests.js:130-163 | `and`/`or` after a condition that builds, at the end, fails with "must include right hand expression" |
| ConditionLaws.NotAfterExpression | test/condition_tests.js:164-168 | `not` right after a complete expression fails with `NotBetweenExpressions` |
| ConditionLaws.BinaryAfterBinary | test/condition_tests.js:186-190 | a second binary operator right after the first fails as "invalid after" the first |
| ConditionLaws.BinaryAfterLeadingNot | test/condition_tests.js:175-179 | `and`/`or` straight after a leading `not` cannot follow it |
| ConditionLaws.BinaryAfterNot | test/condition_tests.js:175-179 | `and`/`or` straight after `op not` in the middle of a list cannot follow `not` |
| ConditionLaws.NotsAlone | test/condition_tests.js:181-184 | one or more `not` with nothing after them fail with "must precede expression" |
| ConditionExamples.LeftHandRequired | test/condition_tests.js:124-157 | `w(w.and, {...})` and `w(w.or)` fail for the missing left-hand side |
| ConditionExamples.RightHandRequired | test/condition_tests.js:159-163 | `w({...}, w.or)` fails for the missing right-hand side |
| ConditionExamples.NotBetween | test/condition_tests.js:164-168 | `w({...}, w.not, {...})` fails with `NotBetweenExpressions` |
| ConditionExamples.AndAfterNot | test/condition_tests.js:175-179 | `w({...}, w.or, w.not, w.and, {...})` fails: `and` cannot follow `not` |
| ConditionExamples.NotAlone | test/condition_tests.js:181-184 | `w(w.not)` fails: `not` must precede an expression |
| ConditionExamples.OrAfterAnd | test/condition_tests.js:186-190 | `w({...}, w.and, w.or, {...})` fails: `or` is invalid after `and` |
| Condition.Message | test/condition_tests.js:124-190 | the text of each error; its contract is carried by the `ConditionMessages` lemmas below and by `ArgumentRequired` |
| ConditionMessages.LeftHandText | test/condition_tests.js:124-157 | the message for a missing left side matches `/"and".*must include left hand/`, and likewise for `or` |
| ConditionMessages.RightHandText | test/condition_tests.js:130-163 | the message for a missing right side matches `/"and".*must include right hand/`, and likewise for `or` |
| ConditionMessages.NotBetweenText | test/condition_tests.js:164-168 | the message for `not` between expressions matches `/"not".*between expressions/` |
| ConditionMessages.CannotFollowText | test/condition_tests.js:175-179 | the message for an operator after `not` matches `/"and".*cannot follow.*"not"/`, and likewise for `or` |
| ConditionMessages.PrecedeText | test/condition_tests.js:181-184 | the message for a trailing `not` matches `/"not".*must precede expression/` |
| ConditionMessages.InvalidAfterText | test/condition_tests.js:186-190 | the message for two binary operators in a row matches `/"or".*invalid after.*"and"/`, for any two operators |
| ConditionLaws.NotChain | test/condition_tests.js:192-197 | `k` copies of `not` before a key build `k` nested `Not` nodes around its leaf |
| Rendering.NotsText | test/condition_tests.js:192-197 | `k` nested `Not` nodes are written as `k` copies of `not ` before the operand, with no parentheses |
| ConditionExamples.DoubleNot | test/condition_tests.js:192-197 | `w(w.not, w.not, {...})` is `Not(Not(leaf))` |
| ConditionExamples.DoubleNotText | test/condition_tests.js:192-197 | it is written `not not first = "Whitney"` |
| ConditionLaws.LeftDeep | test/condition_tests.js:237-244 | appending `op {key: v}` to a list that builds a chain of `op` makes that chain the left side of a new `op` node, and the result is again a chain of `op` |
| ConditionExamples.LeftDeepTree | test/condition_tests.js:237-244 | `1 and 2 and 3` builds `(1 and 2) and 3` |
| ConditionExamples.NotBindsTightly | test/condition_tests.js:246-253 | `w(w.not, w.not, { id: 1 }, { id: 2 })` is `and(not(not(1)), 2)` |
| ConditionLaws.ArrayIsSubCondition | test/condition_tests.js:211-219 | an array operand anywhere in a list builds exactly as the condition built from its items would |
| ConditionLaws.NestedLeft | test/condition_tests.js:200-209 | a built condition followed by `op {key: v}` is grouped as the left side |
| ConditionLaws.NeighbouringConditions | test/condition_tests.js:221-226 | two conditions side by side are both grouped and joined by `and`; two bare keys are joined without grouping |
| ConditionExamples.WhitTree | test/condition_tests.js:202 | `w({ first: 'Whit' }, w.or, { first: 'Whitney' })` is the `or` of the two leaves |
| ConditionExamples.SubConditions | test/condition_tests.js:200-219 | the sub-condition and the array both build the grouped `or` joined by `and` with the last leaf |
| ConditionExamples.SubConditionText | test/condition_tests.js:206-218 | it is written `(first = "Whit" or first = "Whitney") and last = "Young"` |
| ConditionExamples.NeighbouringGroups | test/condition_tests.js:221-226 | two one-leaf conditions side by side build two groups joined by `and` |
| ConditionExamples.NeighbouringGroupsText | test/condition_tests.js:221-226 | they are written `(first = "Whitney") and (last = "Young")` |
| Rendering.Render | test/condition_tests.js:38-42 | a leaf through `expression`, `not` through `unary`, `and`/`or` through `operation`, a sub-condition through `group`; its contract is carried by `RenderText`, `BuildArgs` and `BuildBinds` |
| Rendering.Build | test/condition_tests.js:38-42 | building renders the tree and joins the pieces; its text is the tree written directly |
| Rendering.RenderText | lib/db/grammar/grammar.js:72-139 | the joined text of the rendered pieces equals the direct printer `Show` for every tree, grammar and translator |
| Rendering.BuildArgs | lib/db/grammar/grammar.js:57-59 | under the default grammar, the bind arguments are the leaves' literals in left-to-right order |
| Rendering.BuildPlaceholders | lib/db/grammar/grammar.js:57-59 | when no field name or template holds a `?`, the text has exactly as many placeholders as arguments |
| Rendering.BuildBinds | lib/db/grammar/grammar.js:57-139 | under the same condition, binding the arguments to the placeholders puts every literal exactly where its comparison stands |
| ConditionExamples.DefaultStatementText | lib/db/grammar/grammar.js:41-77 | with the default grammar, `a = u and b = v` is written `"a" = ? and "b" = ?` |
| ConditionExamples.DefaultStatementArgs | lib/db/grammar/grammar.js:57-77 | ... and its arguments are `[u, v]` |
| ConditionExamples.StandardLeaf | lib/db/grammar/grammar.js:41-77 | a leaf with a literal is the quoted field, a space, and the template around `?` |
| ConditionExamples.PlainLeaf | test/condition_tests.js:18-23 | with the suite's grammar, an `exact` leaf is the bare field, `=`, and the JSON literal or the bare column; a `gt` leaf has `>` in place of `=`; no other predicate is stated, since the suite's default translator is not part of this model |

## Left out

- `lib/db/condition.js` is not part of this model. The constructor and `build` are modelled from what `test/condition_tests.js` asserts about them: the trees, the rendered strings and the error messages.
- Node's `util.format` is modelled only for a template with one `%s` slot: the text before the slot, the argument, and the text after it.
- The JSON encoding (`%j`) of the suite's `value` override is modelled only for integers and for strings without characters that need escaping.
- The translator is a function parameter from a predicate name, and whether the right side is a column, to a one-slot template. Its internals and the unsupported-predicate error are not modelled. For the suite's default translator only `exact` (`= %s`) and `gt` (`> %s`) are known; `ConditionExamples.Operators` maps every other predicate to `= %s` as a placeholder, and no lemma states anything for those.
- ParseEquation: the text before the first `=` is the field as written, with the predicate `exact`; it is not read for a `[predicate]` suffix. The source of this case is not shown; only `first=value` is tested.
- LeftDeep: stated only for chains that repeat one operator. No test shows what the source does with a list that mixes `and` and `or` without grouping, and the model folds every list left to right. An explicit change of operator, as in `a or b and c`, builds `(a or b) and c`. So does an `or` followed by a mapping with several keys, because the keys are fed one by one with an implicit `and`: `w({ x: u }, or, { a: v, b: w })` builds `(x or a) and b`. The same holds for any `or` followed by neighbouring operands, by `MappingSplits` and `ImplicitAnd`. `Show` writes these trees without parentheses, as `x = u or a = v and b = w`, which SQL reads as `x or (a and b)`. For such lists the rendered text does not mean the built tree, and no precedence between `and` and `or` is claimed.
- Composite children of `not` and of binary operators are not wrapped in parentheses automatically. The suite writes `not not first = "Whitney"` with no parentheses, and it groups only sub-conditions and arrays.
- `and`/`or` right after `not`: the error is `cannot follow "not"`, as the suite matches, not an "invalid immediately after" message.
- A mapping with no keys adds no operand, so on its own it fails with `ConditionRequired`, as does an array with no items. A string with no `=` fails with `NotAnEquation`. The source of both cases is not shown.
- Bind values are integers and strings only. Every property is stated for any value, but the source's other literals (null, booleans, floating point, arrays for `in`) are not represented.
- Statements and fragments are one type, `Fragment`. Argument lists are sequences that the model rebuilds rather than arrays that it mutates.
- `Class.extend`, the adapter loading of `lib/database.js`, the query builders and live database access are not modelled.
