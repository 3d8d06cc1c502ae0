# postcss-better-units, modelled in Dafny

A model of the `better-units` PostCSS plugin's per-declaration rewrite. The plugin is
configured with an ordered list of unit rules. Each rule converts dimensions in one unit
(`fromUnit`) into one of three forms:

- another unit (`toUnit`): `10px` becomes `10rpx`;
- a multiple of a custom property (`toCssVar`): `10rpx` becomes `calc(10 * var(--rpx))`;
- a user-computed string (`transform`).

For each declaration, the handler:

1. rejects the declaration early when the detection pattern finds none of the configured units in its value;
2. skips the declaration, leaving it unchanged, when the global exclude matches its full text;
3. filters out the rules whose own exclude matches;
4. walks the parsed value and rewrites each word that splits into number and unit, using the first remaining rule for its lower-cased unit;
5. tracks the effective `preserve` mode;
6. when the serialised value differs from the original, inserts one clone carrying the new value and removes the original unless `preserve` is truthy.

Files:

- `css.dfy` (module `Css`): the host-side data. It holds declarations and the parsed value as a flat node sequence in walk order. A function node is its opening `name(`, then its children, then `)`. It also holds serialisation and ASCII lower-casing.
- `better_units.dfy` (module `BetterUnits`): rules and options, options normalisation, `checkExclude`, the rule filter, first-match lookup (a `for … break` scan proved against `FirstMatch`), the three target forms, preserve tracking, and `Walk`. `Walk` rewrites an `array<Token>` in place and returns the effective preserve mode. `FromUnits` (the list the detection pattern is built from) and `RewriteAll` (every node rewritten on its own) are plain definitions; `Walk` and `Rewrite` are stated against them, and `MatchedUnitIsDetected`, `RewriteAllAppend` and `OnlyMatchedWordsChange` state what they promise.
- `handler.dfy` (module `Handler`): the handler's decision `Rewrite`, the sibling edit `Emit`, and the class `RuleBody`. `RuleBody` is a rule body whose declaration list is edited by `CloneBefore`, `CloneAfter`, `Remove` and by the handler `Process`. `Process` is proved to produce `Handle` of the old list.
- `scenarios.dfy` (module `Scenarios`): the repository's test cases, restated as lemmas. They use small stand-ins for the foreign pieces: a detection that searches the value for a unit, a one-word parser, and a sign/digits/dot number splitter.

Three details of the code's behaviour:

- `preserve: 'before'` calls `cloneAfter`. So the original stays first and the new declaration follows it. `true` and `'after'` put the new declaration first.
- `fromUnit` is compared with the lower-cased unit of the token, and `fromUnit` itself is not lower-cased. A rule whose `fromUnit` contains an upper-case letter therefore never applies (`UpperCaseRuleNeverUsed`), even though the detection pattern is case-insensitive.
- `unit.preserve ?? preserve` replaces the mode whenever a matched rule defines `preserve`. That includes `preserve: false`.

## Model

| member | source | states |
|---|---|---|
| Css.SerializeAppend | src/index.ts:96 | serialising a node sequence is concatenation: serialising `a + b` is serialising `a` followed by serialising `b` |
| Css.LowerEachChar | src/index.ts:73 | lower-casing works character by character: each upper-case ASCII letter becomes its lower-case letter (code point + 32) and every other character stays in place |
| Css.LowerOfLowerCase | src/index.ts:73 | a unit with no upper-case letter is its own lower-cased form |
| Css.LowerHasNoUpper | src/index.ts:73 | a lower-cased unit contains no upper-case letter |
| Css.LowerIdempotent | src/index.ts:73 | lower-casing an already lower-cased unit changes nothing |
| BetterUnits.Normalize | src/index.ts:33-38 | missing options become an empty rule list; a bare list has global preserve `false` and no global exclude; an options object keeps its units and exclude, and its preserve defaults to `false` |
| BetterUnits.BareListIsDefaultSettings | src/index.ts:34-38 | a bare rule list configures the plugin exactly like `{ units }` with nothing else set |
| BetterUnits.CheckExclude | src/index.ts:25-31 | an absent exclude never excludes; a pattern is tested on the declaration text; a callback is given the text, the declaration and its parent |
| BetterUnits.Applicable | src/index.ts:54 | the kept rules are all non-excluded; if every rule is excluded, none are kept; if none is excluded, all are kept in order |
| BetterUnits.ApplicableKeepsOnlyConfigured | src/index.ts:54 | every kept rule is a configured rule |
| BetterUnits.ApplicableKeepsEveryAllowed | src/index.ts:54 | every configured rule whose exclude does not match is kept |
| BetterUnits.ApplicableAppend | src/index.ts:54 | the filter keeps configured order: filtering `a + b` is filtering `a` followed by filtering `b` |
| BetterUnits.FirstMatch | src/index.ts:74-75 | the found rule has the unit, and no earlier rule does; nothing is found only when no rule has the unit |
| BetterUnits.FirstApplicable | src/index.ts:54-57 | the rule chosen in configured order has the unit and is not excluded, and every earlier rule with that unit is excluded; when none is chosen, every rule with the unit is excluded |
| BetterUnits.FirstMatchOfApplicable | src/index.ts:54-92 | looking up among the filtered rules picks exactly the first non-excluded configured rule for the unit; every earlier rule with that unit was excluded |
| BetterUnits.MatchRule | src/index.ts:74-92 | the `for … break` scan returns the first rule whose `fromUnit` equals the unit, or none |
| BetterUnits.ShadowedRuleNeverUsed | src/index.ts:74-92 | a later rule with the same `fromUnit` as an earlier one is never chosen |
| BetterUnits.UpperCaseRuleNeverUsed | src/index.ts:73-75 | a rule whose `fromUnit` holds an upper-case letter never matches a lower-cased unit |
| BetterUnits.MatchedRule | src/index.ts:63-75 | a node gets a rule iff it is a word, the splitter accepts it, and some rule's `fromUnit` equals its lower-cased unit |
| BetterUnits.MatchedRuleIsFirstApplicable | src/index.ts:54-92 | the rule applied to a node is the first rule of the configured list that has the node's lower-cased unit and is not excluded |
| BetterUnits.RewriteToken | src/index.ts:63-93 | a node with no matched rule is left unchanged |
| BetterUnits.MatchedUnitIsDetected | src/index.ts:40-47 | every lower-cased unit the walk converts is one of the `fromUnit`s the detection pattern is built from |
| BetterUnits.RewriteAllAppend | src/index.ts:63-94 | the walk rewrites each node without regard to its neighbours: rewriting `a + b` is rewriting `a` followed by rewriting `b` |
| BetterUnits.OnlyMatchedWordsChange | src/index.ts:63-75 | a node that the walk changes is a word with a matched rule |
| BetterUnits.NothingMatchedNothingChanged | src/index.ts:64-75 | when every node is a non-word, a word the splitter rejects, or a word whose unit no rule converts, the node sequence is unchanged |
| BetterUnits.ToUnitKeepsNumber | src/index.ts:81-82 | a `toUnit` rewrite stays a word and renders as the number literal, verbatim, followed by the new unit |
| BetterUnits.ToCssVarIsCalc | src/index.ts:76-79 | a `toCssVar` rewrite renders as `calc(<number> * var(<name>))` |
| BetterUnits.TransformIsString | src/index.ts:84-87 | a `transform` rewrite is a string node rendering as the user function's result on the number |
| BetterUnits.EffectiveIsGlobal | src/index.ts:59-90 | the effective preserve mode is the global one when no matched rule sets `preserve` |
| BetterUnits.EffectiveIsLastSetting | src/index.ts:59-90 | when some matched rule sets `preserve`, the effective mode is the setting of the last matched node whose rule sets it |
| BetterUnits.EffectiveStep | src/index.ts:90 | visiting one more node replaces the mode by that node's rule setting when it has one (`unit.preserve ?? preserve`) |
| BetterUnits.Visit | src/index.ts:63-91 | the walk callback returns the node rewritten by its first applicable rule and the `preserve` setting that rule defines, if any |
| BetterUnits.Walk | src/index.ts:59-94 | the in-place walk leaves every node rewritten by its first applicable rule and returns the tracked preserve mode |
| Handler.Rewrite | src/index.ts:44-100 | nothing changes when detection fails, when the global exclude matches, or when no rule is applicable; a rewrite always carries a value different from the original |
| Handler.RewriteHappens | src/index.ts:44-107 | when detection succeeds, no global exclude matches, some rule is applicable and the walked value differs, the verdict is a rewrite with the walked value and tracked mode, and the list becomes `Emit` of them |
| Handler.AllRulesExcluded | src/index.ts:54-57 | with no rules configured, or every rule excluded, the declaration is left unchanged |
| Handler.NoConvertibleUnit | src/index.ts:61-100 | if the parser round-trips the value and no node has a unit an applicable rule converts, the declaration is left unchanged |
| Handler.RewrittenValue | src/index.ts:59-100 | a rewrite carries the serialised walked value and the preserve mode tracked by the walk |
| Handler.Emit | src/index.ts:102-106 | the list grows by one when preserve is truthy and keeps its length when it is `false` |
| Handler.EmitPlacement | src/index.ts:102-106 | earlier siblings are untouched. With `'before'` the order is original, then new. With `true`/`'after'` it is new, then original. With `false` the new declaration takes the original's place. Later siblings follow unchanged |
| Handler.EmitMultiset | src/index.ts:102-106 | exactly one declaration is added, the clone carrying the new value; the original is removed only when preserve is `false` |
| Handler.Handle | src/index.ts:44-107 | an unchanged verdict leaves the list as it was; a rewrite puts a clone carrying the new value into the list |
| Handler.RuleBody.CloneBefore | src/index.ts:102 | the clone with the new value is inserted just before declaration `i` |
| Handler.RuleBody.CloneAfter | src/index.ts:102 | the clone with the new value is inserted just after declaration `i` |
| Handler.RuleBody.Remove | src/index.ts:104-105 | declaration `i` is removed, the others keep their order |
| Handler.RuleBody.Process | src/index.ts:44-107 | one run of the handler on declaration `i` leaves the list as `Handle` of the old list |
| Scenarios.UnitToUnit | tests/index.test.ts:15-24 | `width: 10px` under `px` to `rpx` becomes `width: 10rpx` |
| Scenarios.UnitToCssVar | tests/index.test.ts:26-35 | `width: 10rpx` under `rpx` to `--rpx` becomes `width: calc(10 * var(--rpx))` |
| Scenarios.UnitToTransform | tests/index.test.ts:37-46 | `width: 16px` under `px` with `value / 16` + `rem` becomes `width: 1rem` |
| Scenarios.UpperCaseUnitMatched | src/index.ts:73-75 | the word `10PX` is converted by a `px` rule to `10rpx` |
| Scenarios.NegativeValue | tests/index.test.ts:48-57 | `margin-left: -10px` becomes `margin-left: -10rpx`, sign kept |
| Scenarios.DecimalValues | tests/index.test.ts:59-71 | `1.01rpx .01rem auto` becomes `calc(1.01 * var(--rpx)) 0.16px auto`; each word is converted by the rule for its own unit, `auto` stays |
| Scenarios.DecimalPreserve | tests/index.test.ts:59-71 | with no rule setting `preserve`, the global `false` stays in force |
| Scenarios.MultipleUnits | tests/index.test.ts:73-85 | in `width: 1rem; margin-left: -16rpx` the handler run on each declaration in turn gives `width: 16px` and `margin-left: calc(-16 * var(--rpx))`, each by its own rule, order kept and sign kept inside `calc` |
| Scenarios.PreserveTrue | tests/index.test.ts:87-96 | `preserve: true` yields `100vh` followed by the original `100dvh` |
| Scenarios.PreserveBefore | tests/index.test.ts:98-107 | `preserve: 'before'` yields the original `100vh` followed by `100dvh` |
| Scenarios.VariableUnit | tests/index.test.ts:110-119 | the unit `--rpx` is matched as a whole: `10--rpx` becomes `calc(10 * var(--rpx))` |
| Scenarios.ExcludePatternSpares | tests/index.test.ts:121-130 | a rule excluding texts that contain `--rpx` leaves `--rpx: 1px` unchanged |
| Scenarios.ExcludePatternRewritesOthers | tests/index.test.ts:121-130 | the same rule still rewrites `width: 16px` to `width: 16rpx` |
| Scenarios.ExcludeCallbackSpares | tests/index.test.ts:132-145 | a callback excluding the `:root` parent leaves the `:root` declaration unchanged |
| Scenarios.ExcludeCallbackRewritesOthers | tests/index.test.ts:132-145 | the same rule still rewrites `width: 16px` inside `div` |

## Left out

- PostCSS plumbing is not modelled: the plugin name, the `postcss` flag and the visitor registration. The host processor's re-visiting of the clones the handler inserts is not modelled either; `Process` models one run of the handler on one declaration.
- The value parser (`postcss-value-parser`) enters as `Host.parse` and `Host.split`. Serialisation is the concatenation of the nodes' texts. The parser's round-trip is not proved; `NoConvertibleUnit` takes it as a hypothesis.
- The detection pattern `HAS_UNITS_RE` enters as the predicate `Host.hasUnits`, given the list of `fromUnit`s. Its alternation, its trailing word boundary, its case-insensitivity and the missing escaping of units are not modelled.
- Pattern excludes enter as a predicate on the declaration text, because the regular-expression engine is foreign. The predicate is stateless: a regular expression with the `g` or `y` flag keeps a `lastIndex` that each `test` advances or resets, so one such object shared by two rules, or tested on several declarations, can answer differently for the same text; that is not captured. Callback excludes see the declaration and only the parent rule's selector, not the rest of the parent node.
- `String(declaration)` enters as `Host.show`. A declaration carries only its property, value and `!important` flag; the other raw formatting is not modelled.
- The `transform` callback and its `Number.parseFloat` enter as one function from the number literal's text to a string. Floating point is not modelled. A transform that throws is not modelled; the exception would reach the caller.
- `Lower` and `LowerEachChar`: model `toLowerCase` on ASCII letters only. Unicode case mapping is not modelled.
- Switching a converted node's type to `string` is modelled as a string node with no quote, which renders its text bare.
- `Handler.Handle`: its own contract states only that the new declaration is present; the exact placement is stated by `EmitPlacement` and `EmitMultiset`.
- `Scenarios.DecimalValues`: the test's transform `value * 16` is replaced by a table for the one input it receives, because the float arithmetic is not modelled.
- `Scenarios.UnitToTransform`: the test's transform `value / 16` is likewise a table for its one input.
- `Scenarios.MultipleUnits`: the transform `value * 16` is the same table, extended by the input `1`.
- A rule's target is a sum of `toUnit`, `toCssVar` and `transform`. The source tests the keys in the order `toCssVar`, `toUnit`, `transform`. So a rule that carries both `toUnit` and `toCssVar`, which the TypeScript union type accepts, uses `toCssVar`. A rule with no target key still wins the lookup and sets `preserve`, but leaves the node as it was. The model's `Target` cannot express either rule.
