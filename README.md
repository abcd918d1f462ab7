# tflint core: variable resolution and detection

This project models two parts of tflint, the Terraform linter.

The first is the variable resolver of `evaluator/variable.go`:
- `detectVariables` walks the `variable` blocks of every configuration document.
- It stores each variable that has a default under the key `"var." + name`.
- `parseVariable` coerces each untyped default into a tagged interpolation variable (string, list or map), by the value's run-time kind.

The second is the detection engine, as its test file fixes it:
- the attribute accessors `hclLiteralToken`, `hclObjectItems` and `IsKeyNotFound`;
- `evalToString`, which interpolates one variable reference;
- the test rule `DetectMethodForTest`;
- the detection pass `Detect`, which runs every registered rule that is not suppressed over the template and over each module that is not suppressed.

Files:
- `wrappers.dfy`: `Option` and `Result`.
- `values.dfy`: the untyped default (`Raw`), the tagged variable (`Variable`) and `WellShaped`. `WellShaped` describes the defaults the resolver can coerce without a run-time panic.
- `variable.dfy` (module `Evaluator`): `ParseVariable` and its map and list branches. It also holds the specification `Resolve` of `detectVariables`, and `DetectVariables`, the loop that builds the environment, proved equal to `Resolve`.
- `ast.dfy` (module `Ast`): parsed items, the label filter and the three accessors.
- `detector.dfy` (module `Detector`): `EvalToString`, issues, rules, the test rule, and `Detect` as loops proved equal to the specification `RegistryIssues`.
- `detector_cases.dfy` (module `DetectorCases`): the documented cases on concrete parsed blocks.

How the model maps the source:
- Documents form a sequence, because Go's iteration order over the document map is not fixed. Last-write-wins is stated in that order.
- A Go map default is an association list with distinct keys.
- The implementation of the detection engine (`detector/detector.go`) is not part of this model. Its accessors and `Detect` are reconstructed from the contracts that `detector/detector_test.go` fixes.

Two behaviours worth knowing:
- `evaluator/variable.go:93` reads element 0 of a list default without a guard, so `default = []` panics; `WellShaped` requires a non-empty slice.
- `detector/detector_test.go:221-290` expects `hclObjectItems` to return the matching attribute itself, with its key removed (`Keys` empty, `Val` the object).

## Model

| member | source | states |
|---|---|---|
| Evaluator.ParseVariable | evaluator/variable.go:40-122 | the tag follows the run-time kind: strings and unrecognised kinds give a string variable carrying the value unchanged; a slice whose element 0 is a map gives a map; any other slice gives a list of the same length |
| Evaluator.ParseIgnoresDeclaredType | evaluator/variable.go:41-51 | the declared type hint never affects the result |
| Evaluator.CoerceList | evaluator/variable.go:109-113 | the list branch keeps length and order; position j holds element j coerced with an empty hint |
| Evaluator.InsertEntries | evaluator/variable.go:99-103 | definition of the inner loop over one map element's keys; characterised by Evaluator.InsertEntriesSpec |
| Evaluator.MergeElements | evaluator/variable.go:95-104 | definition of the map-merge loop over the slice's elements; characterised by Evaluator.MergeKeys, Evaluator.MergeLastWins, Evaluator.ParseMapKeys, Evaluator.ParseMapLastWins |
| Evaluator.ParseListKeepsOrder | evaluator/variable.go:109-117 | a slice whose element 0 is not a map becomes a list whose position p is element p coerced |
| Evaluator.InsertEntriesSpec | evaluator/variable.go:99-103 | storing one map element adds exactly its keys, each holding its coerced value, and leaves every other key untouched |
| Evaluator.MergeKeys | evaluator/variable.go:95-104 | the merged map's keys are exactly the union of all elements' keys |
| Evaluator.MergeLastWins | evaluator/variable.go:97-104 | a key takes its value from the last element that carries it |
| Evaluator.ParseMapKeys | evaluator/variable.go:93-108 | a slice of maps becomes a map variable whose keys are the union of the elements' keys |
| Evaluator.ParseMapLastWins | evaluator/variable.go:93-108 | in a slice of maps, a key's value comes from the last element carrying it, coerced with an empty hint |
| Evaluator.SingleMapDefault | evaluator/variable.go:60-108 | a single map default (a one-element slice of maps) becomes a map with exactly its keys and coerced values |
| Evaluator.DetectVariables | evaluator/variable.go:19-38 | the loop's result equals `Resolve`; it fails exactly when some document fails to decode; every stored key starts with `var.` |
| Evaluator.Declarations | evaluator/variable.go:22-28 | flattening the decoded documents keeps every default coercible |
| Evaluator.QualifiedName | evaluator/variable.go:32 | definition of the environment key `"var." + name`; characterised by Evaluator.QualifiedNameInjective and Evaluator.DetectVariables (every key starts with `var.`) |
| Evaluator.Store | evaluator/variable.go:29-33 | definition of one step of the declaration loop (skip without a default, else store the coerced default); characterised by Evaluator.StoreAllKeys, Evaluator.StoreAllLastWins, Evaluator.StoreAllUntouched |
| Evaluator.StoreAll | evaluator/variable.go:28-34 | definition of the declaration loop of one document; characterised by Evaluator.StoreAllAppend, Evaluator.StoreAllKeys, Evaluator.StoreAllLastWins, Evaluator.StoreAllUntouched |
| Evaluator.Resolve | evaluator/variable.go:19-38 | definition of the specification of `detectVariables`; characterised by Evaluator.DetectVariables, Evaluator.ResolveAllDecoded, Evaluator.ResolveFirstError, Evaluator.ResolveFailsIffDecodeError, Evaluator.ResolveKeys, Evaluator.ResolveLastWins, Evaluator.NoDefaultNeverStored |
| Evaluator.QualifiedNameInjective | evaluator/variable.go:32 | distinct names give distinct keys |
| Evaluator.StoreAllAppend | evaluator/variable.go:22-35 | all documents share one environment: storing two runs of declarations equals storing the first, then the second |
| Evaluator.StoreAllKeys | evaluator/variable.go:28-34 | storing declarations adds exactly `var.` + the names of those with a default |
| Evaluator.StoreAllLastWins | evaluator/variable.go:28-34 | a name's stored value comes from its last declaration that has a default |
| Evaluator.StoreAllUntouched | evaluator/variable.go:29-31 | a key not declared with a default keeps its presence and value |
| Evaluator.ResolveAllDecoded | evaluator/variable.go:19-38 | when every document decodes, the result is all declarations stored in order into an empty environment |
| Evaluator.ResolveFirstError | evaluator/variable.go:24-26 | the first document that fails to decode aborts resolution with its error |
| Evaluator.ResolveFailsIffDecodeError | evaluator/variable.go:24-26 | resolution fails if and only if some document fails to decode |
| Evaluator.ResolveKeys | evaluator/variable.go:29-33 | the environment's keys are exactly `var.` + the names declared with a default |
| Evaluator.NoDefaultNeverStored | evaluator/variable.go:29-31 | when every document decodes, a name never declared with a default raises no error (resolution succeeds) and is absent from the environment |
| Evaluator.DeclarationOrigin | evaluator/variable.go:22-28 | every flattened declaration comes from some decoded document at some position |
| Evaluator.ResolveLastWins | evaluator/variable.go:22-35 | across documents, a name holds the coerced default of its last declaration with a default |
| Ast.FirstMatch | detector/detector_test.go:177-182 | finds the first item in source order whose labels start with the given keys, or none exactly when no item matches |
| Ast.Filter | detector/detector_test.go:180 | definition of the label filter (`ObjectList.Filter`) that the test uses and `hclObjectItems` relies on; characterised by Ast.FilterAppend, Ast.FilterMembers, Ast.FilterMembersAll, Ast.FilterFirst |
| Ast.FilterAppend | detector/detector_test.go:210-292 | filtering keeps source order: the filter of a concatenation is the concatenation of the filters |
| Ast.FilterMembers | detector/detector_test.go:210-292 | the filter hands on exactly the matching items, with the matched labels removed |
| Ast.FilterFirst | detector/detector_test.go:210-306 | the filter is empty exactly when nothing matches; otherwise it starts with the first match, stripped |
| Ast.FilterMembersAll | detector/detector_test.go:210-292 | for every item at once: it is in the filter exactly when it is a matching item with the matched labels removed |
| Ast.HclObjectItems | detector/detector_test.go:210-306 | fails with KeyNotFound exactly when the key is absent; otherwise returns exactly the attributes named by the key, in source order (the filter's result), each with the key removed, the first match first |
| Ast.HclLiteralToken | detector/detector_test.go:115-174 | an absent key is KeyNotFound; otherwise a literal first match yields its token text, and a list or object value is an error |
| Ast.IsKeyNotFound | detector/detector_test.go:341-362 | true exactly when no attribute is named by the key |
| Ast.KeyNotFoundIffItemsFail | detector/detector_test.go:293-362 | the probe reports a missing key exactly when fetching its items fails, and then the token fetch fails with KeyNotFound |
| Detector.EvalToString | detector/detector_test.go:377-421 | a reference to a string variable gives its string; a list or map variable is an error; an unknown reference is unresolved; plain text passes through |
| Detector.EvalDeclaredString | detector/detector_test.go:389-400 | a reference to a variable whose last default is a string evaluates to that string |
| Detector.EvalDeclaredSlice | detector/detector_test.go:401-412 | a reference to a variable whose last default is a list fails as not a string |
| Detector.EvalUndeclared | detector/detector_test.go:413-421 | when every document decodes, resolution succeeds, and a reference that no declaration with a default provides fails as unresolved |
| Detector.DetectMethodForTest | detector/detector_test.go:94-101 | appends exactly one issue (TEST, its message, line 1, no file) and keeps earlier issues unchanged |
| Detector.Invoke | detector/detector_test.go:55-57 | invoking a registered rule method appends exactly the issues that method emits |
| Detector.Emitted | detector/detector_test.go:94-101 | definition of what one invocation of a rule method appends (the test method: its one test issue); characterised by Detector.Invoke, Detector.TestMethodModuleIssues |
| Detector.DetectModules | detector/detector_test.go:37-44 | a rule runs over each module in order, skipping every suppressed module source |
| Detector.ModuleIssues | detector/detector_test.go:37-44 | definition of one rule's issues over the modules, skipping suppressed sources; characterised by Detector.DetectModules, Detector.SuppressedModulesUnvisited, Detector.TestMethodModuleIssues |
| Detector.RuleIssues | detector/detector_test.go:29-52 | definition of one rule's issues: none when the rule is suppressed, else the template's then the modules'; characterised by Detector.Detect, Detector.SuppressedRulesRemoved |
| Detector.RegistryIssues | detector/detector_test.go:18-92 | definition of the specification of `Detect`, rule by rule in registry order; characterised by Detector.Detect, Detector.SuppressedRulesRemoved, Detector.TestRegistryIssues, Detector.TestRegistryCount |
| Detector.Detect | detector/detector_test.go:18-92 | the detection loops produce `RegistryIssues`: per rule that is not suppressed, the template's issues, then those of each module that is not suppressed |
| Detector.EnabledRulesMembers | detector/detector_test.go:45-52 | a rule is enabled exactly when it is registered and its name is not suppressed |
| Detector.KeptModulesMembers | detector/detector_test.go:37-44 | a module is kept exactly when it is loaded and its source is not suppressed |
| Detector.EnabledRules | detector/detector_test.go:45-52 | definition of the registry without the suppressed rules; characterised by Detector.EnabledRulesMembers, Detector.SuppressedRulesRemoved |
| Detector.KeptModules | detector/detector_test.go:37-44 | definition of the modules without the suppressed sources; characterised by Detector.KeptModulesMembers, Detector.SuppressedModulesUnvisited |
| Detector.SuppressedRulesRemoved | detector/detector_test.go:45-52 | suppressing rule names equals removing those rules from the registry and running the rest with no rule suppressed |
| Detector.SuppressedModulesUnvisited | detector/detector_test.go:37-44 | suppressing module sources equals not loading those modules; a rule never sees their items |
| Detector.TestMethodModuleIssues | detector/detector_test.go:94-101 | the test method reports one test issue per module that is not suppressed |
| Detector.TestRegistryIssues | detector/detector_test.go:94-101 | with test rules only, every issue reported is the test issue |
| Detector.TestRegistryCount | detector/detector_test.go:29-52 | with test rules only, the issue count is (rules not suppressed) × (1 + modules not suppressed) |
| DetectorCases.LiteralTokenCase | detector/detector_test.go:115-135 | `instance_type = "t2.micro"` yields the token text with its quotes |
| DetectorCases.LiteralTokenErrorCases | detector/detector_test.go:137-174 | a list value, an object value and an absent key all fail |
| DetectorCases.ObjectItemsCases | detector/detector_test.go:210-306 | `root_block_device` yields one item with no keys whose object holds `volume_size = "16"`; `ami_id` fails |
| DetectorCases.KeyNotFoundCases | detector/detector_test.go:341-362 | `instance_type` is found; `iam_instance_profile` is not |
| DetectorCases.EvalStringCase | detector/detector_test.go:389-400 | `${var.text}` with default "result" evaluates to "result" |
| DetectorCases.EvalListCase | detector/detector_test.go:401-412 | `${var.text}` with a list default fails |
| DetectorCases.EvalUnresolvedCase | detector/detector_test.go:413-421 | `${aws_instance.app}` with no default fails as unresolved |
| DetectorCases.DetectCases | detector/detector_test.go:29-52 | with one module and the test rule: 2 issues; 1 with the module suppressed; 0 with the rule suppressed |
| DetectorCases.MergeLaterWinsCase | evaluator/variable.go:97-104 | two map elements both holding `name`, "a" then "b": the result maps `name` to "b" |

## Left out

- Decoding HCL text into `variable` blocks (`hcl.DecodeObject`) and parsing HCL: each document arrives already decoded, or as a decode error with its message.
- Reflection: the run-time kind of a default is the `Raw` constructor. Numbers and booleans are one opaque `OtherVal`.
- Go map iteration order over documents and within a map element: documents are a sequence in a fixed order. Keys within one element are distinct, so their order does not change the result.
- Evaluator.ParseVariable: requires `WellShaped`, because the source panics on an empty slice, on a bare map, or on a non-map element after a map element 0. The panics themselves are not modelled.
- Evaluator.ParseVariable: the unused `Fields` member of the decoded block and the `description` field play no part.
- `detector/detector.go` is not part of this model. `hclLiteralToken`, `hclObjectItems`, `IsKeyNotFound`, `evalToString` and `Detect` are reconstructed from the test contracts.
- Token positions (offsets, lines, columns) and token types: only the token text is modelled.
- The HCL parser library's `ObjectList.Filter`: its key comparison is modelled as exact equality of labels.
- Detector.EvalToString: full HIL interpolation is out of scope. Only a single reference, plain text or a parse error is modelled. A string variable whose value is not a string (a number default) is treated as not a string.
- Module loading from disk, changing the working directory, the logger and configuration parsing. The suppression configuration is given as two sets; the tests' empty setting is the empty set.
- The rule registry's name-to-method dispatch by reflection: a rule carries its method directly, either the test method or any function from items and environment to issues.
- Detector.Detect: the rule registry is a Go map (`detector/detector_test.go:55-57`), so the order in which rules run is not fixed. The model runs rules in sequence order, so the issue order across rules it states is one of the possible orders. The count and membership lemmas do not depend on that order.
- Pointers and in-place appends to the shared issue slice: the issue list is a value that each invocation extends.
