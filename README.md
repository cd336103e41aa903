# Operation variables of a documented rule

This project models how the rule documentation pages pick the variables of a
rule's formula to link to (`findSimpleOperationToLink` and the
`OperationVariables` component). The formula is parsed into an object that maps
operator names to operand lists. The helper takes the first entry, in
`Object.entries` order, whose value has exactly two operands with at least one
variable reference. If there is none, it returns `null`. Otherwise it keeps the
variable operands in order and resolves each one against the documented rule's
dotted name. The component renders nothing for `null`, and otherwise one link
per resolved rule, in order.

The model is written as Dafny functions over sequences, in the module
`OperationVariables` (`operation_variables.dfy`). `Option` and `Result` are in
`Wrappers` (`wrappers.dfy`). The parser's output is a sequence of `Entry` values
in enumeration order. The value of an entry is an operand list (`Array`), a
string (`Text`, as under the `variable` key of a bare reference) or any other
object (`Record`). Four pieces come from outside this code and are passed in as
function parameters: the expression parser, the rules library's reference
disambiguation, the rule-name URL encoder and the title formatter.

## Model

| member | source | states |
|---|---|---|
| OperationVariables.IsVariable | components/documentation/OperationVariables.tsx:17 | an operand is a variable reference exactly when its `variable` field is present, whatever the name, the empty name included |
| OperationVariables.AnyVariable | components/documentation/OperationVariables.tsx:11 | `some` over the operands is true exactly when some operand is a variable reference |
| OperationVariables.Qualifies | components/documentation/OperationVariables.tsx:11 | the corrected `find` test: the value is an operand list of exactly two operands and the first or the second is a variable; the array check is not in the source (see Findings) |
| OperationVariables.FindFirst | components/documentation/OperationVariables.tsx:10-12 | absent exactly when no entry qualifies; otherwise the found entry qualifies and every earlier entry does not |
| OperationVariables.FindFirstIsFirstQualifying | components/documentation/OperationVariables.tsx:10-12 | conversely, the first qualifying entry in enumeration order is the one found |
| OperationVariables.KeepVariables | components/documentation/OperationVariables.tsx:16-17 | the filter keeps only variable operands, keeps every variable operand, and never lengthens the list |
| OperationVariables.KeepVariablesAppend | components/documentation/OperationVariables.tsx:16-17 | the filter distributes over concatenation, so it keeps the operands in their order |
| OperationVariables.KeepVariablesOfPair | components/documentation/OperationVariables.tsx:16-17 | on two operands the filter gives the first if it is a variable, then the second if it is one |
| OperationVariables.ResolveAll | components/documentation/OperationVariables.tsx:18 | one name per variable operand; the k-th is the disambiguation of the k-th operand's name in the given context |
| OperationVariables.ResolvePair | components/documentation/OperationVariables.tsx:16-18 | filtering then resolving two operands gives the first's resolved name if it is a variable, then the second's |
| OperationVariables.SelectReferences | components/documentation/OperationVariables.tsx:10-19 | null exactly when no entry has two operands with a variable; otherwise a list of one or two names, never empty |
| OperationVariables.FindSimpleOperationToLink | components/documentation/OperationVariables.tsx:7-20 | the same two facts about the parse of the formula text |
| OperationVariables.FirstQualifyingOperationResolved | components/documentation/OperationVariables.tsx:10-19 | the result comes from the first qualifying entry: its variable operands resolved in operand order against the caller's dotted name, and nothing from a non-variable operand |
| OperationVariables.ResultFromFirstQualifying | components/documentation/OperationVariables.tsx:10-19 | a present result is the resolved variables of an entry that qualifies when every earlier entry does not |
| OperationVariables.SkipUnqualifiedHead | components/documentation/OperationVariables.tsx:10-12 | an entry that does not qualify (for example two constant operands) is skipped and later entries are still searched |
| OperationVariables.RemoveUnqualifiedEntry | components/documentation/OperationVariables.tsx:10-12 | removing an entry that does not qualify, at any position, never changes the result |
| OperationVariables.WrongArityNeverSelected | components/documentation/OperationVariables.tsx:11 | an operand list whose length is not 2 is never selected, whatever variables it holds |
| OperationVariables.OnlyCallerContextConsulted | components/documentation/OperationVariables.tsx:18 | disambiguation is only consulted with the caller's dotted name as the context |
| OperationVariables.DistanceTimesSpeed | components/documentation/OperationVariables.tsx:10-19 | `distance * vitesse` documented under `trajet . duree` yields `trajet . distance`, `trajet . vitesse` in that order |
| OperationVariables.ConstantsOnlyAbsent | components/documentation/OperationVariables.tsx:10-13 | `2 * 3` yields null |
| OperationVariables.RenderLinks | components/documentation/OperationVariables.tsx:27-33 | one link per reference, in order, to `/documentation/` plus the encoded name, captioned with the rule's title |
| OperationVariables.RenderOperationVariables | components/documentation/OperationVariables.tsx:21-36 | renders nothing exactly when the helper returns null; otherwise one or two links, the k-th for the k-th reference |
| OperationVariables.QualifiesAsWritten | components/documentation/OperationVariables.tsx:11 | the `find` test as written throws exactly on a two-character string value, and otherwise agrees with the corrected test |
| OperationVariables.ThrowsOn | components/documentation/OperationVariables.tsx:11 | the test as written throws on a two-character string value, and such an entry never qualifies under the corrected test |
| OperationVariables.FindFirstAsWritten | components/documentation/OperationVariables.tsx:10-12 | the search as written throws exactly when a two-character string value comes before every qualifying entry; when it returns, it returns the corrected search's result |
| OperationVariables.SelectReferencesAsWritten | components/documentation/OperationVariables.tsx:10-19 | the helper as written throws exactly when a two-character string value comes before every qualifying entry, and otherwise returns the corrected result |
| OperationVariables.FindFirstAsWrittenThrows | components/documentation/OperationVariables.tsx:10-12 | a two-character string value reached before any qualifying entry makes the search throw |
| OperationVariables.TwoLetterReferenceThrows | components/documentation/OperationVariables.tsx:8-13 | a formula that is a bare two-letter reference throws as written, where the corrected helper returns null |

## Findings

| source | as written | input that shows it | evidently intended | confidence | as-written member | corrected member |
|---|---|---|---|---|---|---|
| components/documentation/OperationVariables.tsx:11 | `v.length === 2 && v.some(...)` is applied to every entry value, and strings also have a `length` | a formula that is a bare reference to a two-letter rule name: the parser gives `{variable: "ab"}`, `"ab".length === 2`, and `"ab".some` is not a function, so a TypeError is thrown during rendering | only operand arrays qualify, so the result is null and nothing is rendered | medium, not executed; it assumes the parser represents a bare reference as `{variable: name}` | OperationVariables.TwoLetterReferenceThrows | OperationVariables.SelectReferences |

The code as written is `OperationVariables.SelectReferencesAsWritten`. The
corrected test, `OperationVariables.Qualifies`, checks that the value is an
operand list. The rest of the model uses the corrected test.

## Left out

- Parsing: `parseExpression` is a parameter and is taken to be total. When the library throws on a malformed formula, the error propagates unchanged; this is not modelled.
- Disambiguation: `utils.disambiguateReference` is a parameter and is taken to be total. When it throws on a missing or ambiguous name, the error propagates unchanged; this is not modelled.
- Title and link encoding: `ruleTitle` and `utils.encodeRuleName` are parameters. The title formatter receives the rules and the dotted name in place of the spread rule record.
- Purity and determinism hold by construction, because every member is a function. The `console.log` trace at line 9 is output only and is not modelled.
- JSX structure: the `VariableList`, `li` and `Link` elements are modelled only as the ordered list of `(href, caption)` pairs they display.
- String length: the two-character test in `QualifiesAsWritten` counts Unicode characters, while JavaScript counts UTF-16 code units.
- Operand nodes: only their `variable` field is modelled. A `null` or `undefined` field, and any node without one, is `None`.
- Other files: `app/voyage/Content.tsx` (view composition, hooks, timers) and `webpack.common.js` (build configuration) contain no logic of this core.
