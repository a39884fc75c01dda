# semverify in Dafny

semverify compares two versions of a Rust crate and reports every change to its public items.
Severities follow the API-evolution rules of Rust RFC 1105. This project models the core of the
tool and proves properties of that model:

- **The `#[cfg]` predicate algebra** (`Cfg`, in `cfg.dfy`).
  - Configuration trees and their evaluation on a set of free variables.
  - A brute-force odometer enumeration (`any`). It decides `subset`, `intersects` and `equivalent`.
  - `union`, `simplify` and the `{:?}` rendering of a configuration.
  - The translation from attribute syntax.
  - The decisions are proved equal to their semantic meaning over *consistent* assignments, that
    is, assignments with at most one value per target property key.
- **The comparison engine** (`Compare`, in `compare.dfy`).
  - The `find_item_l` scan over same-named new items and the single verdict it pushes.
  - The per-kind rules for modules, consts, statics and fns.
  - `is_public`, `types_equal` and `use_defines_name`.
  - The `compare_mods` traversal and the `compare_crates` coverage check.
  - Each imperative method is proved to append exactly what a ghost specification function says.
    The properties are lemmas about those functions.
- **The report** (`Reports`, in `report.dfy`).
  - The totally ordered `Severity` and report items.
  - A `Report` class whose `push!` and `changed!` appends are methods.
  - `max_severity`.
- **The entry points** (`Lib`, in `lib.dfy`).
  - `create_report`, with the two parse results passed in as options.
  - `fmt_path`, with a round trip back from its text.
- **Indentation** (`Utils`, in `utils.dfy`).
  - `Indent::new`, `Indent::next` and its `Display`.
- **Helpers** (`Basics`, in `basics.dfy`).
  - `Option`, `Join` and `Quote`, and the lemmas `JoinSnoc` (joining one more part) and `AppendAssoc` (associativity of `+` on sequences).

The source's own severity `Major`, used throughout the comparison engine, is modelled as the
report's `Breaking` ("change requiring bumping of major release number"). The report is flat:
`Inherit Note` and `nest` are plain appends of one item.

## Model

| member | source | states |
|---|---|---|
| Reports.SeverityTotalOrder | src/report.rs:3-19 | the derived order on severities is reflexive, antisymmetric, transitive and total, and follows declaration order Debug < Note < Minor < Warning < SemiBreaking < Breaking < Error |
| Reports.MaxSeverityOf | src/report.rs:37-39 | the maximum of no items is Note; otherwise it is at least every item's severity and equal to one of them |
| Reports.MaxSeverityAfterPush | src/report.rs:37-49 | after pushing an item onto a non-empty report, the maximum is the larger of the old maximum and the new severity |
| Reports.DebugOnlyReport | src/report.rs:37-39 | a non-empty report of only Debug items has maximum Debug, which ranks below the Note of an empty report |
| Reports.ChangedText | src/report.rs:51-57 | the text of a `changed!` item starts with `<what> has changed:\n  Was: `, followed by the old rendering, `\n  Now: ` and the new rendering |
| Reports.Report.constructor | src/report.rs:33-35 | a new report has no items |
| Reports.Report.Push | src/report.rs:42-49 | appends exactly one item with the given severity and text at the end; earlier items are unchanged |
| Reports.Report.Changed | src/report.rs:51-57 | appends exactly one item with the given severity and the `changed!` text |
| Reports.Report.PushAll | src/report.rs:42-49 | appends the given items in order, one `push!` each |
| Reports.Report.MaxSeverity | src/report.rs:37-39 | `max_severity`: Note for an empty report; otherwise an upper bound of every item's severity that some item attains |
| Utils.NewIndent | src/utils.rs:7-9 | a new indent has depth 0 |
| Utils.Next | src/utils.rs:10-12 | `next` returns depth + 1; the argument is a value, so the original is unchanged |
| Utils.Repeat | src/utils.rs:20-22 | `count` copies of the string have `count` times its length |
| Utils.RenderingIsSpaces | src/utils.rs:15-24 | displaying depth d writes exactly 2·d characters, all of them spaces |
| Utils.NextRendering | src/utils.rs:10-24 | one level deeper displays exactly two more spaces |
| Utils.Display | src/utils.rs:17-25 | the loop writes ⌊2d / 20⌋ copies of the 20-space blank, then its first (2d mod 20) characters |
| Cfg.FindFreeVars | src/cfg.rs:145-158 | the result is the input set plus exactly the variables of the configuration's atoms |
| Cfg.Evaluate | src/cfg.rs:160-171 | definition: an atom holds iff its variable is in the set; `not`, `all` and `any` are negation, conjunction and disjunction; `True` and `False` are the constants; properties in EvaluateLocal and SimplifyPreservesEvaluate |
| Cfg.IsUniversal | src/cfg.rs:140-143 | definition: only the literal `True` is universal; used by the short-cuts stated in Subset, Intersects and ReportCfg |
| Cfg.EvaluateLocal | src/cfg.rs:160-171 | a configuration's value depends only on its own free variables |
| Cfg.Union | src/cfg.rs:75-93 | the union is always a top-level `Any` and holds exactly where either side holds; its items are the two sides' alternatives, so its length is their sum; two `Any`s are concatenated in order |
| Cfg.UnionWith | src/cfg.rs:75-93 | the in-place rewrite, including the swap: its result is the union above, so a non-`Any` receiver ends up after the other side's items |
| Cfg.Retain | src/cfg.rs:113 | `retain` keeps exactly the set of items other than the dropped one and is the identity if none is dropped |
| Cfg.RetainCounts | src/cfg.rs:113 | every other item is kept as often as it occurs, and every copy of the dropped one goes |
| Cfg.RetainConcat | src/cfg.rs:113 | `retain` distributes over concatenation, so the kept items stay in their order |
| Cfg.RetainSingle | src/cfg.rs:113 | a single item is kept exactly when it is not the dropped one |
| Cfg.SimplifyPreservesEvaluate | src/cfg.rs:96-138 | simplification keeps the value on every assignment |
| Cfg.SimplifiedIsNormal | src/cfg.rs:96-138 | after simplification no `All` has a `True` item, no `Any` has a `False` item, no list has fewer than two items and no `not` of a constant remains, at any depth |
| Cfg.NormalIsFixpoint | src/cfg.rs:96-138 | simplification leaves a tree in that normal form unchanged |
| Cfg.SimplifyIdempotent | src/cfg.rs:96-138 | a second `simplify` changes nothing |
| Cfg.Simplify | src/cfg.rs:96-138 | the recursive in-place normaliser (children simplified in place, then `retain`, then collapse) computes the simplified tree |
| Cfg.Position | src/cfg.rs:298-301 | finds the first group whose target-property key matches, or reports that no group has it |
| Cfg.AddGroup | src/cfg.rs:303-306 | a new group holding one variable keeps the grouping well formed when no other group has its key |
| Cfg.JoinGroup | src/cfg.rs:302 | a target property joining its key's group keeps the grouping well formed |
| Cfg.Options | src/cfg.rs:293-308 | the groups partition the free variables: each is listed exactly once, in one group at one place; a feature or flag is alone in its group; all target properties with one key share one group |
| Cfg.Total | src/cfg.rs:311-335 | the number of position vectors, the product of (group size + 1), is at least 1 |
| Cfg.ValueBelowTotal | src/cfg.rs:311-335 | read as a mixed-radix number, every position vector is below the total |
| Cfg.ValueInjective | src/cfg.rs:311-335 | distinct position vectors have distinct numbers |
| Cfg.MaxValue | src/cfg.rs:326-334 | the vector at which stepping stops, every position at its group's size, is the last number |
| Cfg.SteppedValue | src/cfg.rs:326-333 | one odometer step with carry adds exactly one to the number |
| Cfg.Picked | src/cfg.rs:315-320 | clearing and refilling the set gives exactly the variables the positions pick |
| Cfg.NextPositions | src/cfg.rs:326-334 | the odometer step either adds one to the number of the position vector, keeping it in range, or stops only at the last vector |
| Cfg.Enumerate | src/cfg.rs:310-337 | visits the position vectors in numeric order, 0, 1, 2, …; returns true iff some vector's picked set satisfies `f`, stopping at the first; when false it has visited all product-of-(size + 1) vectors, each exactly once |
| Cfg.ChosenSound | src/cfg.rs:315-320 | every set the positions pick is made of free variables and has at most one value per target property key |
| Cfg.ChosenConsistent | src/cfg.rs:296-320 | since target properties with one key share one group and one position picks at most one variable per group, the picked set has at most one value per key |
| Cfg.SameKeySameGroup | src/cfg.rs:296-306 | two target properties with the same key sit in the same group |
| Cfg.ChosenInjective | src/cfg.rs:311-320 | when no variable is listed twice, as `Options` guarantees, distinct position vectors pick distinct sets, so `any` tries each assignment at most once |
| Cfg.ChosenComplete | src/cfg.rs:315-320 | every consistent set of free variables is picked by some position vector |
| Cfg.AnyWitness | src/cfg.rs:287-338 | `any` is true iff some consistent set of the two configurations' free variables satisfies `f` |
| Cfg.Localize | src/cfg.rs:287-291 | restricting an assignment to the two configurations' free variables keeps it consistent and changes neither value |
| Cfg.Subset | src/cfg.rs:32-39 | true for a `True` other without enumerating; otherwise true iff every consistent assignment enabling `c` enables `other` |
| Cfg.Intersects | src/cfg.rs:45-51 | true if either side is `True`; otherwise true iff some consistent assignment enables both |
| Cfg.Equivalent | src/cfg.rs:54-60 | true iff every consistent assignment gives both the same value |
| Cfg.AgreeIsMutualEntailment | src/cfg.rs:54-60 | `equivalent(A, B)` holds iff `subset(A, B)` and `subset(B, A)` both hold |
| Cfg.ConstantIdentities | src/cfg.rs:32-60 | `True` entails `x` iff `x` is equivalent to `True`; `x` entails `False` iff `x` is equivalent to `False` |
| Cfg.EntailsPreorder | src/cfg.rs:32-39 | `subset` is reflexive and transitive |
| Cfg.ArbitraryMeetsUnix | src/cfg.rs:351-352 | `arbitrary` and `target_family = "unix"` can hold together |
| Cfg.LinuxMissesWindows | src/cfg.rs:354-356 | `target_os = "linux"` and `target_os = "windows"` never hold together |
| Cfg.FeatureTwoWithoutOne | src/cfg.rs:357-358 | `feature = "one"` is a subset of itself; `feature = "two"` is not a subset of `feature = "one"` |
| Cfg.OhBoyHereWeGo | src/cfg.rs:347-359 | the decision methods give the four answers the test asserts |
| Cfg.Render | src/cfg.rs:185-198 | definition of the `{:?}` rendering: `not(..)`, `all(..)`, `any(..)` around the rendered items joined by `, `, `key="value"` for a target property, `feature="name"` for a feature, the bare name for a flag, `__true`/`__false` for the constants; properties in Renderings, FmtList and ReportCfg |
| Cfg.Renderings | src/cfg.rs:185-198 | renders each item of a list, in order |
| Cfg.FmtList | src/cfg.rs:200-214 | writes the start, then the items' renderings with exactly one ", " between consecutive items, then ")" |
| Cfg.ReportCfg | src/cfg.rs:66-72 | leaves the report unchanged when the parent entails the configuration, and in particular for `True`; otherwise appends exactly one Note `<prefix>#[cfg(<rendering>)]` |
| Cfg.FromMeta | src/cfg.rs:235-285 | every error it reports has severity Error, and the result never contains `True` or `False` |
| Cfg.FromMetas | src/cfg.rs:247-248 | maps `cfg_from_meta` over a list, keeping length and order and collecting the errors in item order |
| Cfg.NoErrorsIffWellFormed | src/cfg.rs:235-285 | a meta item is read without errors iff it and every item inside it is well formed: known list heads, unary `not`, string values of known keys |
| Cfg.ListNoErrorsIffWellFormed | src/cfg.rs:247-248 | a list is read without errors iff every item is well formed |
| Cfg.MalformedNodeOneError | src/cfg.rs:249-281 | `not` of arity other than 1, an unknown head, a non-string value or an unknown key each yield exactly one Error and a `Flag` placeholder named after the head or key |
| Cfg.WordMeaning | src/cfg.rs:238-245 | `unix` and `windows` become `target_family` properties; any other word becomes a flag |
| Cfg.TargetHasAtomicIsFlag | src/cfg.rs:274-277 | `target_has_atomic = "v"` becomes the flag `target_has_atomic="v"`, with no error |
| Cfg.CfgArguments | src/cfg.rs:218-228 | collects the single items of the unary `cfg` attributes; it is empty iff no attribute is a unary `cfg` |
| Cfg.CfgArgumentsConcat | src/cfg.rs:218-228 | the collection distributes over concatenating attribute lists |
| Cfg.FromAttrList | src/cfg.rs:217-233 | no unary `cfg` gives None; exactly one gives its condition bare; several give an `All` of them in order; the errors are those of reading the conditions |
| Cfg.ConfigOf | src/cfg.rs:24-26 | without a unary `cfg` attribute the configuration is `True` with no errors; every error has severity Error |
| Cfg.NonUnaryCfgIgnored | src/cfg.rs:219-224 | a `cfg` attribute with other than one item is skipped silently: adding it anywhere changes neither the configuration nor the errors |
| Cfg.New | src/cfg.rs:24-26 | returns the configuration of the attributes and appends exactly the errors of reading them |
| Compare.IsPublic | src/compare.rs:268-276 | definition: always-public kinds are public whatever their visibility, others iff `pub`; properties in ImplicitlyPublicKinds |
| Compare.TypesEqual | src/compare.rs:229-232 | definition: equality of the two renderings; properties in TypesEqualIsEquality and TypeCheck |
| Compare.ChangedItem | src/report.rs:51-58 | definition of a Major `changed!` item: severity Breaking, text ChangedText; properties in ChangedText and TypeCheckItem |
| Compare.ImplicitlyPublicKinds | src/compare.rs:268-276 | foreign modules, default impls, impls and macro invocations are public whatever their visibility; any other item is public iff its visibility is `pub` |
| Compare.TypesEqualIsEquality | src/compare.rs:229-232 | two types are equal iff their renderings are the same string, which is symmetric |
| Compare.TypeCheck | src/compare.rs:145-147 | pushes nothing iff the renderings agree, else exactly one Major item |
| Compare.TypeCheckItem | src/compare.rs:145-147 | on a mismatch that one item is Major with the `changed!` text naming the old and the new rendering |
| Compare.ModBlock | src/compare.rs:103-110 | a module is matched only by a module, which it records as a child; it pushes nothing |
| Compare.ConstBlock | src/compare.rs:143-162 | matches a const or a static; const→`static mut` is Major and const→immutable static is Minor; a type mismatch adds one Major item on both paths |
| Compare.StaticBlock | src/compare.rs:163-181 | matches a const or a static; static→const is Major; between statics, nothing is pushed iff type and mutability both agree; everything pushed is Major; on static→const a type mismatch adds one Major item after the "replaced by const" item |
| Compare.FnBlock | src/compare.rs:190-206 | matches only a fn; nothing is pushed iff unsafety and ABI agree and a const fn was not made non-const; non-const→const is not reported; everything pushed is Major |
| Compare.FnBlockItems | src/compare.rs:190-202 | a fn pushes exactly one item per reported change, in check order: the unsafety `changed!`, then "was made non-const", then the abi `changed!` |
| Compare.KindBlock | src/compare.rs:101-207 | a non-matching candidate pushes nothing; only a module block records children; a module is matched only by a module |
| Compare.RunBlock | src/compare.rs:39 | running the block appends what it pushes and returns whether it matched |
| Compare.StepOther | src/compare.rs:34 | proof helper, an unfolding of the definition: a candidate with another name changes nothing in the scan |
| Compare.StepPrivate | src/compare.rs:34-36 | proof helper, an unfolding of the definition: a private namesake only sets `any_found` |
| Compare.StepDisjoint | src/compare.rs:36-39 | proof helper, an unfolding of the definition: a public namesake that does not intersect the old configuration sets both flags and appends only its attribute errors; the block is not run |
| Compare.StepRejected | src/compare.rs:36-41 | proof helper, an unfolding of the definition: a public namesake that intersects but that the block rejects sets both flags and appends its attribute errors and what the block pushed, and nothing else |
| Compare.StepMatched | src/compare.rs:36-42 | proof helper, an unfolding of the definition: a matching candidate also unions its configuration into `their_config`, sets `kind_found` and records the block's children |
| Compare.ScanAnyFound | src/compare.rs:33-35 | after the loop `any_found` holds iff some candidate has the name |
| Compare.ScanPubFound | src/compare.rs:33-37 | after the loop `pub_found` holds iff some candidate is a public namesake |
| Compare.ScanKindFound | src/compare.rs:33-42 | after the loop `kind_found` holds iff some candidate is a public namesake that intersects the old configuration and passes the block |
| Compare.ScanTheirsUnmatched | src/compare.rs:31-42 | `their_config` stays `False` while no candidate has matched |
| Compare.ScanTheirs | src/compare.rs:31-42 | on every assignment, `their_config` holds exactly where some matching candidate's configuration holds |
| Compare.Verdict | src/compare.rs:46-56 | at most one item is pushed after the scan, and it is Major |
| Compare.VerdictCases | src/compare.rs:46-56 | "was removed" when no new item has the name; "was made private" when none of those is public; "is no longer a <kind>" when none matches; otherwise nothing iff every consistent assignment enabling the old `#[cfg]` enables some matching candidate, else "has been narrowed" |
| Compare.NoPublicNamesakeScanSilent | src/compare.rs:33-36 | candidates that are not public namesakes push nothing and record no children during the scan |
| Compare.NoPublicNamesake | src/compare.rs:25-50 | an old item without a public namesake contributes its attribute errors and then exactly one Major item, "was removed" when no new item has its name and "was made private" otherwise, and no children |
| Compare.ScanOne | src/compare.rs:34-44 | one round of the loop computes exactly one step of the scan specification and appends what that step pushes |
| Compare.ScanCandidates | src/compare.rs:33-45 | the loop computes the flags, union and children of the scan specification and appends what it pushes |
| Compare.PushVerdict | src/compare.rs:46-56 | appends exactly the verdict, with the simplified union rendered in the narrowed message |
| Compare.FindItem | src/compare.rs:25-57 | appends the old item's attribute errors, then the scan, then the verdict |
| Compare.CompareItemSpec | src/compare.rs:92-93 | a private old item contributes nothing; only a module item records children |
| Compare.CompareItemCases | src/compare.rs:183-209 | proof helper, an unfolding of the definition: an unhandled kind gives exactly one Note and no lookup; a variadic fn gives an Error, then three Debug items, then its lookup; a mod, const or static gives only its lookup |
| Compare.FnPrelude | src/compare.rs:184-189 | before its lookup a fn pushes three Debug items, preceded by one "is variadic" Error exactly when it is variadic |
| Compare.FnArm | src/compare.rs:183-208 | proof helper, an unfolding of the definition: a public fn contributes its prelude followed by its lookup |
| Compare.CompareFn | src/compare.rs:183-208 | the fn arm appends exactly the fn part of the per-item specification |
| Compare.CompareItem | src/compare.rs:93-210 | one iteration of the item loop appends exactly what the per-item specification says and returns its children |
| Compare.Outcomes | src/compare.rs:92-211 | the per-item results of the old module, one per old item in order; only module items have children |
| Compare.PhaseOf | src/compare.rs:92-211 | the items pushed and the children recorded after the first `n` old items; every child points at a module item that precedes position `n` |
| Compare.PrivateItemsIgnored | src/compare.rs:93 | a private old item changes neither the report nor the recorded children |
| Compare.CompareAt | src/compare.rs:93-210 | one round of the item loop, at index `i`, appends that item's result and returns its children |
| Compare.CompareItems | src/compare.rs:92-211 | the item loop appends every old item's result in order and records the child modules for later |
| Compare.CompareChildren | src/compare.rs:215-218 | for each recorded child, in order, an "Inside mod" Note followed by that child's comparison |
| Compare.CompareMods | src/compare.rs:80-219 | appends the whole item loop's output first, then the children's comparisons |
| Compare.CompareCrates | src/compare.rs:65-74 | appends both crates' attribute errors, one Major "New crate reduces #[cfg] coverage" iff the old crate's `#[cfg]` does not entail the new one's, then the root module comparison |
| Compare.UseDefines | src/compare.rs:249-266 | definition: a simple `use` defines its name, a glob defines nothing, a list defines a name iff some item does, by its rename, its own name or, for `self`, the path's last segment; properties in UseDefinesRenames and UseDefinesName |
| Compare.UseDefinesRenames | src/compare.rs:256-264 | a renamed list item defines its new name and not its old one; `self` defines the path's last segment, and nothing for an empty path |
| Compare.UseDefinesName | src/compare.rs:249-266 | a glob never defines the name and appends exactly one Warning; other forms append nothing and answer by name or rename |
| Lib.ReadFailure | src/lib.rs:40-45 | the item for an unreadable crate is an Error whose text is `Failed to read crate at ` followed by the path |
| Lib.CreateReport | src/lib.rs:35-52 | a fresh report holding one Error per side that failed to parse (old before new), then the crate comparison only when both parsed |
| Lib.CreateReportOutcomes | src/lib.rs:40-48 | each combination of parse results gives exactly the listed items, and a failed side makes the maximum severity Error |
| Lib.FmtPath | src/lib.rs:54-68 | the `first`-flag loop writes the names joined by `::`, with a leading `::` exactly for a non-empty global path |
| Lib.SplitJoin | src/lib.rs:57-66 | cutting names joined by `::` at every `::` gives the names back |
| Lib.PathRoundTrip | src/lib.rs:54-68 | for one or more colon-free names, the text determines the path: it starts with `::` iff the path is global, and the names are separated by single `::` |
| Lib.ShortPaths | src/lib.rs:58-67 | an empty relative path gives `""`; one relative name gives that bare name; one global name gives `::name` |
| Lib.PathSnoc | src/lib.rs:59-66 | one more segment adds exactly one `::` and its name |

## Left out

- `parse_crate` (src/lib.rs:17-33) reads a file and runs the libsyntax parser, which is I/O and a foreign call. Its result is a parameter of `Lib.CreateReport`. `src/main.rs` is not part of this model.
- `strip_lazy` (src/lib.rs:50), the `nest` of the report tree (src/compare.rs:217) and `Inherit` strictness (src/cfg.rs:70) do not exist in the report shown. The report is a flat list, so a nested "Inside mod" section is one Note followed by the child module's items.
- `compare_macros`, the additions pass and full signature comparison are only comments or TODOs in the source. Nothing exists to model.
- The `syntax::ast` structures are abstracted to strings:
  - types, ABIs, fn declarations and generics are their `{:?}` renderings;
  - an item's kind is a closed datatype;
  - unhandled kinds carry their descriptive name.
  The `debug!` dumps are Debug items of those renderings.
- Cfg.Render renders a `{:?}`-quoted string as the string between double quotes. Rust's escaping of quotes, backslashes and control characters is not modelled. A literal's `{:?}` rendering in an error message is one given string, although the source prints the literal with its span in one message and without it in the other.
- Cfg.FmtList and Utils.Display never fail: the `fmt::Result` that the source propagates with `try!` (src/cfg.rs:203, src/cfg.rs:209, src/cfg.rs:211, src/utils.rs:21) is dropped, because the writes go into a string.
- `Display for Config` (src/cfg.rs:175-183) is not modelled; only the `Debug` rendering is used by the core.
- Cfg.Options: the free-variable set is a Dafny `set`, taken in an unspecified order, rather than the source's ordered `BTreeSet`. So the order of the groups, and the order in which `any` tries assignments, are not fixed. Everything proved holds for every order.
- Utils.Display: `Indent` holds an unbounded `nat`. The `usize` overflow of `depth * 2` is not modelled.
- The unreachable error branch at src/cfg.rs:222-224 has no counterpart, because the match guard at src/cfg.rs:219 excludes it. Cfg.NonUnaryCfgIgnored states what happens instead.
- Compare.CompareCrates: the `cfg::subset(r, attrs, attrs)` helper it calls is not shown. It is modelled as `Config::new` on each side, then `Config::subset`.
