# A verified model of the cqes pattern matcher and heuristic scorer

This project models two small engines of the repository and proves properties of them in Dafny.

**The pattern-matching compiler** is `src/Matches.ts`, plus an earlier copy of it in `src/index.ts`.
- `new MatchAny(knowledge, pattern)` inspects the runtime shape of an untyped JavaScript pattern and returns one tester variant:
  - strict equality;
  - a null/undefined check;
  - an adopted function;
  - the `schema:body` string dispatch;
  - a regular expression;
  - an alternation with a set fast path;
  - an in-order fit `[[...]]`;
  - a conjunction;
  - a non-exhaustive key match;
  - `$`-tagged objects, resolved through the `Knowledge` registry and then the built-in `ObjectMatch` table.
- Each variant's `test` decides whether an input matches.

**The heuristic scoring pipeline** is `src/Heuristic.ts`.
- `parseRule` gives a serialized rule its defaults.
- `computeScorer` tells a range spec `kind:min;ref;max` apart from an expression.
- `wrapScore` normalises whatever a scorer returns to `[achieved, possible, errors]`.
- `execute` folds a list of rules into a score, a total and an error list.

Modules:

- `Wrappers` (wrappers.dfy): `Option` and `Result`, and `Collect`, the "first exception aborts" reading of `array.map` and of a compiling loop.
- `Js` (js.dfy): `JsValue`, one constructor per runtime shape the engines tell apart. It also holds the built-ins they rely on:
  - truthiness;
  - `typeof … === 'object'` and `in`, with the conversion of a field name to a property key (`PropertyKey`);
  - `indexOf` and `lastIndexOf`;
  - `substring` and `substr`;
  - string iteration;
  - `String(v)`.
- `Fit` (fit.dfy): the greedy first-fit scan over a table of booleans, and its equivalence with "there are strictly increasing matching positions".
- `Matches` (matches.dfy): `src/Matches.ts`.
  - `Compile` is the constructor dispatch, returning `Result<Tester, Fault>` because some constructors throw.
  - `Run` is every variant's `test`. It returns the raw value, because ArrayFit compares with `=== false` where the other loops use truthiness.
  - The imperative parts are methods proved against those functions: the `MatchOneOf` constructor loop and the `test` loops.
- `Index` (index.ts model, index.dfy): the earlier dispatcher.
  - It shares the tester variants and their `test` with `Matches`.
  - It takes the whole knowledge but consults only its string registry, `k.strings`.
  - It differs exactly where it throws "Not yet implemented".
- `Heuristic` (heuristic.dfy): `src/Heuristic.ts`. It holds two versions of `execute`:
  - `ExecuteAsWritten` follows the statement order of the source;
  - `Execute` is the corrected one (see Findings).

Behaviour the engines take from outside is passed in as a datatype of functions:
- `Matches.Host`:
  - calling an adopted function;
  - building a RegExp and running its `test`;
  - the testers that registered constructors build. A registered constructor is handed the whole knowledge and its argument, as `new (knowledge.String[schema])(knowledge, body)` and `new (knowledge.Object[tag])(knowledge, pattern)` do.
- `Heuristic.Env`:
  - evaluating a compiled extractor or scorer, which returns a value or throws;
  - the two range comparators;
  - `a / b` outside the case of two numbers with a nonzero divisor;
  - the TypeError that spreading a non-iterable raises.

The model follows the code in these places, where a reader might expect otherwise:
- `execute` has no rule that skips null extractions and returns no details map. It adds `strength`, not `possible * strength`, to the total, and adds `result[0] / result[1] * strength` to the score whatever `result[1]` is.
- A missing extractor compiles to the expression `undefined`, not to the identity.
- A tag known to neither registry falls back to AllOf over the whole pattern instead of raising an error.
- A boolean pattern keeps `value` unset, so the pattern `true` does not accept `true`.
- The "Unable to build RegExp" branch of `MatchRegexp` cannot be reached. The first character of a non-empty text always occurs in it, and `"".lastIndexOf("")` is 0. `SplitRegexEmpty` states the empty case.

## Model

| member | source | states |
|---|---|---|
| Matches.Compile | src/Matches.ts:17-59 | definition of the `MatchAny` constructor dispatch; properties in rows Matches.NumberPattern through Matches.ArrayPatternKind, Matches.CompileFaultIsTypeError and Index.AgreesWithMatches |
| Matches.Run | src/Matches.ts:57-278 | definition of every variant's `test`; properties in rows Matches.TestOneOf, Matches.TestArrayFit, Matches.TestArrayAnd, Matches.TestAllOf, Matches.TestHas and Matches.TestHasNot |
| Matches.Meta | src/Matches.ts:65-82 | definition of the `schema:body` string dispatch; properties in rows Matches.MetaWithoutColon and Matches.MetaDispatch |
| Matches.NumberPattern | src/Matches.ts:20-22 | a number pattern compiles to `===` with that number and accepts exactly it |
| Matches.NullPattern | src/Matches.ts:30-32 | a null pattern accepts exactly null and undefined |
| Matches.FunctionPattern | src/Matches.ts:26-28 | a function pattern is adopted: its test result is the function's result |
| Matches.BooleanOrUndefinedPattern | src/Matches.ts:17-59 | a boolean or undefined pattern hits no case, so its tester accepts only undefined |
| Matches.MetaWithoutColon | src/Matches.ts:69-71 | a string without `:` compiles to equality with itself |
| Matches.MetaDispatch | src/Matches.ts:69-80 | for `schema:body`, a schema in `knowledge.String` wins and its constructor gets the knowledge and only `body`; else `Regexp` builds a regex from `body`; else equality with the whole string |
| Matches.SplitRegexDelimited | src/Matches.ts:89-95 | `d source d flags` splits into (source, flags), even when the source contains `d` |
| Matches.SplitRegexUndelimited | src/Matches.ts:89-95 | when the first character does not recur, the clamped and swapped `substring` gives that character as the source and the rest as the flags |
| Matches.SplitRegexEmpty | src/Matches.ts:89-95 | the empty text gives an empty source and no flags |
| Matches.RegexFallback | src/Matches.ts:94-103 | a regex the constructor rejects gives an always-false tester; otherwise the tester is the regex tested from position 0, global or not |
| Matches.ArrayPatternKind | src/Matches.ts:33-38 | `[[...]]` compiles to ArrayFit over the compiled inner members, in order; any other array to an alternation, set or always-false tester |
| Matches.BuildOneOf | src/Matches.ts:128-143 | the constructor loop equals `OneOfResult`: the first compile failure aborts; null/undefined add both; literals go to the set; the rest go, in order, to the list behind the set tester |
| Matches.MatchOneOf | src/Matches.ts:124-143 | the constructor, given `new MatchAny` for the members, builds what `Compile` gives for a non-fit array |
| Matches.PartitionAccepts | src/Matches.ts:130-135 | the set plus the fallback list accept exactly what some member, as sorted, stands for |
| Matches.PartitionShape | src/Matches.ts:130-135 | the fallback list is empty iff every member is nullish or literal; the set is empty iff none is |
| Matches.AssembleAccepts | src/Matches.ts:136-142 | the assembled tester accepts iff the set contains the input or some fallback tester accepts it |
| Matches.OneOfSemantics | src/Matches.ts:124-150 | a compiled alternation accepts iff some member, read as `MemberAccepts`, accepts |
| Matches.OneOfShape | src/Matches.ts:136-142 | no members gives always-false; only literals gives a set-only tester; otherwise a list, headed by the set tester when there is one |
| Matches.OneOfEmpty | src/Matches.ts:138 | `[]` compiles to a tester that rejects everything |
| Matches.OneOfAlternation | src/Matches.ts:124-150 | without undefined members and registry-built testers, the alternation accepts iff some member's own tester accepts |
| Matches.UndefinedMemberAcceptsNull | src/Matches.ts:132 | `[undefined]` accepts null, though `undefined` alone rejects it |
| Matches.TestOneOf | src/Matches.ts:145-150 | the early-return loop returns true iff some member accepts |
| Matches.OneWithSetIsMembership | src/Matches.ts:161-163 | the set tester's test is membership |
| Fit.GreedySound | src/Matches.ts:175-190 | a successful greedy scan exhibits strictly increasing accepted positions |
| Fit.GreedyComplete | src/Matches.ts:175-190 | if such positions exist, the greedy scan succeeds |
| Fit.GreedyIffPlaced | src/Matches.ts:175-190 | the greedy scan succeeds iff the sub-patterns can be placed at strictly increasing accepted positions |
| Matches.TestArrayFit | src/Matches.ts:175-190 | `test` computes ArrayFit's acceptance: non-arrays are rejected, arrays go through the scan over their fit table |
| Matches.ScanFit | src/Matches.ts:177-189 | the cursor loops, with `i <= input.length` kept, compute the greedy first-fit scan of the fit table |
| Matches.ArrayFitIffInOrder | src/Matches.ts:175-190 | ArrayFit accepts iff the input is an array on which the sub-patterns fit at strictly increasing positions |
| Matches.ArrayFitEmpty | src/Matches.ts:175-190 | no sub-patterns fit every array |
| Matches.ArrayFitOfTwoNumbers | src/Matches.ts:33-35 | `[[a, b]]` compiles to an in-order fit of the two numbers |
| Matches.ArrayFitInOrderExample | src/Matches.ts:166 | the fit tester of `[1, 15, 100]` accepts `[0, 1, 2, ..., 100]` |
| Matches.ArrayFitOutOfOrderExample | src/Matches.ts:167 | the fit tester of `[15, 1, 100]` rejects `[0, 1, 2, ..., 100]` (no backtracking) |
| Fit.GreedySkip | src/Matches.ts:179-185 | a scan that meets no fit before position `j` and a fit at `j` goes on with the next sub-pattern after `j` |
| Fit.GreedyNoFit | src/Matches.ts:179-187 | a sub-pattern that fits nowhere from the cursor on makes the scan fail |
| Matches.TestArrayAnd | src/Matches.ts:201-206 | the early-return loop returns true iff every sub-tester accepts |
| Matches.ArrayAndEmpty | src/Matches.ts:201-206 | an empty conjunction accepts everything |
| Matches.TestAllOf | src/Matches.ts:219-227 | the key loop computes AllOf's acceptance, whatever order the keys are visited in |
| Matches.AllOfSemantics | src/Matches.ts:210-227 | a plain-object pattern rejects falsy and non-object inputs, else needs every key present and its value accepted |
| Matches.AllOfIgnoresExtraKeys | src/Matches.ts:219-227 | inputs that agree on the pattern's keys are accepted alike |
| Matches.CompileTagged | src/Matches.ts:232-245 | definition of the `$`-tag dispatch; properties in rows Matches.RegistryPrecedence, Matches.UnknownTagFallsBack, Matches.ObjectHasBuiltin, Matches.ObjectHasNotBuiltin and Matches.AndBuiltin |
| Matches.RegistryPrecedence | src/Matches.ts:236-241 | a tag in `knowledge.Object` wins over `ObjectMatch`, built-in tags included, and its constructor gets the knowledge and the whole pattern |
| Matches.UnknownTagFallsBack | src/Matches.ts:243 | an unknown tag compiles to AllOf over the whole pattern, `$` included |
| Matches.ObjectHasBuiltin | src/Matches.ts:250-262 | `Object.has` accepts iff every listed field is present; `fields` that is neither an array nor a string raises a TypeError |
| Matches.TestHas | src/Matches.ts:257-262 | the early-return loop returns true iff every listed field is present |
| Matches.ObjectHasNotBuiltin | src/Matches.ts:266-278 | `Object.hasNot` accepts iff no listed field is present; ill-typed `fields` raises a TypeError |
| Matches.TestHasNot | src/Matches.ts:273-278 | the early-return loop returns true iff no listed field is present |
| Js.PropertyKey | src/Matches.ts:258-259 | the key a field name is converted to by `in`: a string is its own key, and a number has a key only when it is whole, which is then its decimal text; further properties in rows Matches.NumericFieldName, Matches.LiteralFieldNames and Js.NatTextRoundTrip |
| Matches.NumericFieldName | src/Matches.ts:258-259 | the field name `0` is looked up as the key `"0"`, for `Object.has` and `Object.hasNot`, and not as `"0.0"` |
| Matches.LiteralFieldNames | src/Matches.ts:258-259 | the field names `null` and `true` are looked up as the keys `"null"` and `"true"` |
| Js.NatTextRoundTrip | src/Matches.ts:258-259 | the key text a whole-number field name is converted to spells that number back, so distinct numbers give distinct keys |
| Matches.AndBuiltin | src/Matches.ts:282-288 | `and` accepts iff every `forAll` sub-pattern accepts; a non-array `forAll` raises a TypeError |
| Matches.CompileFaultIsTypeError | src/Matches.ts:17-55 | the only exception compiling raises, at any depth, is a TypeError |
| Index.Compile | src/index.ts:20-58 | definition of the earlier constructor dispatch; properties in rows Index.NotYetImplementedBranches, Index.FaultIsNotYetImplemented and Index.AgreesWithMatches |
| Index.NotYetImplementedBranches | src/index.ts:37-48 | a tagged object and `[[...]]` raise "Not yet implemented" |
| Index.FaultIsNotYetImplemented | src/index.ts:20-58 | the only exception the earlier dispatcher raises, at any depth, is "Not yet implemented" |
| Index.AgreesWithMatches | src/index.ts:20-58 | wherever the earlier dispatcher succeeds, the later one, given the same knowledge, builds the same tester |
| Index.MetaDispatch | src/index.ts:72-83 | the string dispatch consults only `knowledge.String`, whose constructor gets the knowledge and `body`, then `Regexp` |
| Index.MatchOneOf | src/index.ts:131-146 | the earlier constructor loop builds what its `Compile` gives for a non-fit array |
| Index.OneOfSemantics | src/index.ts:127-153 | the earlier alternation accepts iff some member, read as `MemberAccepts`, accepts |
| Index.AllOfSemantics | src/index.ts:170-187 | the earlier AllOf rejects falsy and non-object inputs and needs every key present and accepted |
| Heuristic.ComputeExtractor | src/Heuristic.ts:39-41 | definition of `computeExtractor`'s body text; properties in rows Heuristic.ExtractorText and Heuristic.ParseRule |
| Heuristic.ParseRule | src/Heuristic.ts:27-37 | strength is the input's when above 1, else 1, so always at least 1; `against` is the extractor when missing or empty; the other fields pass through |
| Heuristic.ExtractorText | src/Heuristic.ts:39-41 | distinct extractor texts compile to distinct bodies; a missing one is the expression `undefined` |
| Heuristic.ComputeScorer | src/Heuristic.ts:43-56 | definition of `computeScorer`'s choice between a range spec and an expression; properties in rows Heuristic.RangeSpecScorer, Heuristic.ExpressionScorerFallback and Heuristic.RunScorer |
| Heuristic.ExecRange | src/Heuristic.ts:44 | a match has the groups' shapes and spans the whole text |
| Heuristic.ExecRangeComplete | src/Heuristic.ts:44 | every text of the range shape matches, with the groups it was built from |
| Heuristic.DecimalLeadingZero | src/Heuristic.ts:47 | leading zeros do not change the digits' value |
| Heuristic.RangeSpecScorer | src/Heuristic.ts:44-51 | a range spec picks the gaussian comparator iff its kind is `gaussian`, with the bounds its digits spell |
| Heuristic.ExpressionScorerFallback | src/Heuristic.ts:52-54 | any other text, and a missing scorer, is an expression defaulting to `0` |
| Heuristic.WrapScore | src/Heuristic.ts:58-85 | every outcome, a throw included, becomes an array of at least three elements |
| Heuristic.WrapScoreShape | src/Heuristic.ts:66-82 | arrays are kept as a prefix, of length 3 or more unchanged; `[]` becomes `[0, 1, []]`, `[x]` becomes `[x, 1, []]` and `[x, y]` becomes `[x, y, []]`; everything else is a triple with an error array, out of 1; a throw becomes `[0, 1, [e]]` |
| Heuristic.WrapScoreScalars | src/Heuristic.ts:62-77 | a number n gives `[n, 1, []]`, a boolean `[1 or 0, 1, []]`, null and undefined `[0, 1, []]`, other values a "Bad result" error |
| Heuristic.WrapScoreIdempotent | src/Heuristic.ts:58-85 | normalising a normalised score changes nothing |
| Heuristic.RunScorer | src/Heuristic.ts:43-56 | a compiled scorer always returns at least three elements |
| Heuristic.RangeScorerResult | src/Heuristic.ts:49-50 | a range scorer achieves its comparator's value out of 1, with no errors |
| Heuristic.RunRule | src/Heuristic.ts:107-109 | both extractions and the scorer's run, or the first exception they throw; a scored result has at least three elements; properties in rows Heuristic.OneRule and Heuristic.TryRule |
| Heuristic.Spread | src/Heuristic.ts:112 | spreading succeeds exactly on arrays and strings, giving an array's own elements |
| Heuristic.TryRule | src/Heuristic.ts:106-116 | one rule's `try` and `catch`, with the spread done before the accumulators change, is one corrected step: its contribution, its strength and its errors are added |
| Heuristic.Execute | src/Heuristic.ts:101-119 | the corrected loop returns `Corrected`: the corrected step folded over the rules in order |
| Heuristic.CorrectedTotal | src/Heuristic.ts:110-114 | whether each rule scores or throws, the corrected total is the sum of the strengths |
| Heuristic.OneRule | src/Heuristic.ts:105-116 | in the corrected `execute` (`Corrected`, not the loop as written): a throwing rule adds no score and its error; a scored rule adds `r[0] / r[1] * strength` and the elements of `r[2]`; a scored rule whose `r[2]` cannot be spread counts as a throw; the total grows by the strength in every case |
| Heuristic.ExecuteSplits | src/Heuristic.ts:101-119 | score, total and errors split over any concatenation of rule lists |
| Heuristic.TotalAtLeastRuleCount | src/Heuristic.ts:30 | parsed rules weigh at least 1 each, so the total is at least the number of rules |
| Heuristic.StepAsWritten | src/Heuristic.ts:106-116 | definition of one pass of the loop in statement order; properties in rows Heuristic.TryRuleAsWritten, Heuristic.StepAgrees and Heuristic.SpreadFailureCountsTwice |
| Heuristic.TryRuleAsWritten | src/Heuristic.ts:106-116 | one pass as written: score and total grow before the spread, whose throw reaches the `catch` |
| Heuristic.ExecuteAsWritten | src/Heuristic.ts:101-119 | the loop as written computes `AsWritten` |
| Heuristic.StepAgrees | src/Heuristic.ts:106-116 | for a rule whose spread cannot fail, one pass as written adds what the corrected pass adds |
| Heuristic.AsWrittenAgrees | src/Heuristic.ts:101-119 | when no rule's error slot fails to spread, the loop as written gives `Corrected` |
| Heuristic.SpreadFailureCountsTwice | src/Heuristic.ts:110-115 | a scored rule whose error slot cannot be spread adds its strength to the total twice |
| Heuristic.CounterexampleRule | src/Heuristic.ts:27-37 | the serialized rule of the counterexample parses to strength 1 and an expression scorer |
| Heuristic.CounterexampleScores | src/Heuristic.ts:107-109 | in the counterexample environment both extractors give `undefined` and an expression scorer returns `[1, 1, null]` |
| Heuristic.AsWrittenCountsTwice | src/Heuristic.ts:110-115 | a strength-1 rule whose scorer returns `[1, 1, null]` ends with total 2 |

`Index` has no test loops of its own: the `test` methods of src/index.ts (src/index.ts:148-153, 164-166, 179-187) are the same code as those of src/Matches.ts and share `Matches.Run`, `Matches.TestOneOf` and `Matches.TestAllOf`.

## Left out

- Numbers are exact reals. NaN, -0, infinities, the rounding of `/` and the precision of `Number(raw)` for long digit strings are not modelled.
- `String(v)` (`Js.Display`) is written out only for strings, plain objects, regexes, functions and errors. The "Bad result" message for these is exact, except that a plain object with its own `toString` or `valueOf` would have that method called; the model always gives `[object Object]`. Number formatting and array joining are not modelled.
- Value equality stands for `===`, `Set.has` and `pattern.value === member`. Object identity (two equal but distinct objects) is not modelled.
- Prototype-chain keys (`toString`, `constructor`, ...) are not modelled. They would be seen by `in`, by `for...in` and by the registry lookups `knowledge.String[schema]` and `ObjectMatch[schema]`. Only own keys count in the model.
- `in` where the input is an array, a regex, an error or a function sees indices and own properties (a function's own `name`, `length` and `prototype`, for instance). In the model such inputs have no keys.
- Matches.ObjectHasBuiltin: a field name is converted to a key only when it is a string, a boolean, null, undefined, a plain object, a regex, a function, an error, or an integer below 10^21 in magnitude. A field name that is any other number (a fraction, a huge number) or an array finds nothing, because number formatting and array joining are not modelled. A function input is treated as having no keys, so its own `name`, `length` and `prototype` are not found.
- Matches.ObjectHasNotBuiltin: the same key conversion as `Object.has`. A field name that is a non-integer or huge number or an array is reported absent, and a function input is treated as having no keys.
- `in` on a primitive input throws a TypeError inside `test` (Has, HasNot). Exceptions thrown inside any `test` are not modelled: Has and HasNot simply report the field missing.
- Exceptions thrown by registered constructors and by adopted functions are outside the model: `Host` returns values only. Adopted functions and registry-built testers are taken to be pure. `MatchArrayFit.test` calls a sub-tester only on the cells its cursor visits, while the model's fit table (`FitTable`) is total; the difference could be seen only through side effects of adopted functions, which are not modelled.
- A pattern object whose `fields` or `forAll` is an object with its own `slice`/`map` method is read as ill-typed (TypeError).
- The RegExp engine is opaque (`Host.regexBuilds`, `Host.regexTest`). Sticky regexes, `lastIndex` state beyond the reset of global regexes, and non-string inputs to `test` are its concern.
- The `console.log` of a rejected regex is I/O and is not modelled.
- `for...in` key order is not modelled. Constructing AllOf can throw only one kind of exception (TypeError in src/Matches.ts, "Not yet implemented" in src/index.ts), so which key fails first does not change the result.
- A registry-built tester counts as a literal when its `value` equals the member (`Host.customValue`). Its `test` is opaque, so `Matches.OneOfAlternation` excludes registry-built members.
- `MatchArrayFit.test` of src/index.ts (src/index.ts:199-201) cannot be reached, since its constructor always throws. It is not modelled.
- src/Skill.ts is not part of this model: its matcher evaluates pattern text as code.
- `computeExtractor` and the expression branch of `computeScorer` build code with `new Function`. The model keeps the exact body text and evaluates it through `Env.evalExtractor` and `Env.evalScorer`, which return a value or throw. Syntax errors raised by `new Function` when a rule is parsed are not modelled.
- Heuristic.ExecuteSplits: evaluation is pure in the model. `Env.evalExtractor` and `Env.evalScorer` are functions of the code text, the namespace value and the inputs, and leave the namespace as it was. In the source, extractors and scorers run inside `with (this)` over the one mutable namespace object that `execute` shares across rules (src/Heuristic.ts:40, 53), so a rule could assign to it and change what a later rule computes. The split over concatenated rule lists relies on this purity.
- Matches.SplitRegexUndelimited: strings are sequences of Unicode characters in the model, while JavaScript strings are UTF-16 code units. The two splits differ when the first character lies outside the Basic Multilingual Plane. For `"😀a😀"` the source's `text[0]` is a lone high surrogate; it finds the source `"\uDE00a"` and the flags `"\uDE00"`. The model gives the source `"a"` and empty flags. The same reading applies to `Matches.SplitRegexDelimited` and `Matches.RegexFallback`.
- `compareLinearRange` and `compareGaussianRange` are floating-point code (`Math.exp`, `Math.pow`, `toFixed`) and are opaque (`Env.compare`).
- A serialized `strength` is modelled as an optional real. Non-numeric strengths and their coercion by `>` are not modelled.
- The default `namespace = {}` of `execute` is not modelled: the namespace is always passed.
- A scorer's error slot that is an object with a custom iterator is not modelled: only arrays and strings are iterable.

## Findings

| source | as written | input that shows it | evidently intended | confidence | as-written member | corrected member |
|---|---|---|---|---|---|---|
| src/Heuristic.ts:110-115 | `score` and `total` are updated before `errors.push(...result[2])`. When `result[2]` is not iterable the spread throws inside the `try`, and the `catch` adds `rule.strength` to `total` a second time. | one rule of strength 1 whose scorer returns `[1, 1, null]`: total 2, score 1, errors [TypeError] | each rule's strength is counted once in `total` (a rule that throws counts as a thrown rule) | not executed | Heuristic.AsWrittenCountsTwice | Heuristic.Execute |

`Heuristic.AsWritten` and `Heuristic.ExecuteAsWritten` model the loop as written. `Heuristic.AsWrittenAgrees` shows that the two versions agree whenever no error slot fails to spread. `Heuristic.Execute` spreads the error list before it touches the accumulators, so a failing spread is handled like any other thrown rule. `Heuristic.CorrectedTotal` shows that its total is always `StrengthSum`, the sum of the strengths.
