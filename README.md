# UseCmdletCorrectly — a verified model

PSScriptAnalyzer's `UseCmdletCorrectly` rule walks every command invocation in
a PowerShell script. It warns when a call visibly leaves out a parameter that
the invoked cmdlet requires. The rule stays silent whenever it cannot decide:
the command is unknown or not a cmdlet, its metadata cannot be read, or an
argument is bound by position.

This project models the rule's two procedures in Dafny:

- `AnalyzeScript` is the per-invocation loop that emits records.
- `IsMandatoryParameterExisted` derives the mandatory set with nested
  counting loops, then runs the early-exit name match.

Three methods carry the loops, and each is proved equal to a specification
function:

- `AnalyzeScript` is proved equal to `Report`.
- `IsMandatoryParameterExisted` is proved equal to `IsConformant`.
- `DeriveMandatoryParameters`, the nested counting loops, is proved equal to
  `MandatorySet`.

Lemmas then state what those functions mean.

The "mandatory set" is the rule's own count test (lines 103-117), not
PowerShell's notion of a parameter mandatory in every set. A parameter is in
the set when it has at least as many Mandatory-flagged ParameterAttributes as
the cmdlet has parameter sets. So a parameter declared once, Mandatory, for
all of two sets is not in the set.

Files:

- `wrappers.dfy`: `Option` and `Result`.
- `command_model.dfy`: invocations, command metadata, diagnostic records, the
  external helpers, and case-insensitive name comparison.
- `use_cmdlet_correctly.dfy`: the specification functions and the rule's
  methods.
- `use_cmdlet_correctly_properties.dfy`: the lemmas.

The external collaborators are the fields of a `Helper` value. They are total
functions that the model does not specify:

- `cmdletNameFromAlias`: the alias resolver.
- `commandInfo`: the metadata lookup, where `None` stands for null.
- `positionalParameterUsed`: the positional-argument detector. It reads the
  whole invocation node, including its source extent. So two invocations whose
  elements look the same in the model (`Copy-Item -Filter:a b` and
  `Copy-Item -Filter a`) can still get different answers
  (`PositionalAnswerIsPerInvocation`).

The syntax tree is an opaque type parameter. `findAll` is the tree search
that yields the invocations in order.

One named mandatory parameter is enough to clear an invocation. So
`Copy-Item -Destination foo` is not reported, even though `Path` is missing
(Rules/UseCmdletCorrectly.cs:136-144; `CopyItemOneMatchSuffices`). The rule
first looks up whatever name the alias resolver returns. It looks up the name
itself only when that first lookup gives null (lines 83-84; `ResolveCommand`).

## Model

| member | source | states |
|---|---|---|
| CommandModel.Fold | Rules/UseCmdletCorrectly.cs:140 | the folded character is never a lower-case ASCII letter, and it is the input or that input's upper-case letter |
| UseCmdletCorrectly.MandatoryCount | Rules/UseCmdletCorrectly.cs:108-115 | the count of Mandatory-flagged ParameterAttributes never exceeds the number of attribute occurrences |
| UseCmdletCorrectly.MandatorySet | Rules/UseCmdletCorrectly.cs:98-121 | a parameter is in the mandatory set iff it is a parameter of the command with at least as many attribute occurrences as parameter sets and at least that many Mandatory flags; the set is no longer than the parameter list |
| UseCmdletCorrectly.ParameterNames | Rules/UseCmdletCorrectly.cs:73-92 | the names kept are exactly those of the elements that are named parameters (`CommandParameterAst`); other elements are dropped |
| UseCmdletCorrectly.MatchCount | Rules/UseCmdletCorrectly.cs:139-140 | the count of mandatory parameters matching a name is positive iff some mandatory parameter's name equals it, ordinal and case-insensitive |
| CommandModel.EqualsIgnoreCase | Rules/UseCmdletCorrectly.cs:140 | equal names always match; matching names have equal length; two different names match only when some differing position differs by case alone |
| UseCmdletCorrectly.ResolveCommand | Rules/UseCmdletCorrectly.cs:83-84 | the lookup of the alias resolver's answer wins whenever it finds a command; the result is absent exactly when both lookups find nothing; otherwise it is one of the two lookups |
| UseCmdletCorrectly.IsConformant | Rules/UseCmdletCorrectly.cs:83-150 | a positional argument always makes the invocation conformant; a non-conformant invocation always resolves to a cmdlet whose metadata is readable and whose mandatory set is not empty |
| UseCmdletCorrectly.WarningFor | Rules/UseCmdletCorrectly.cs:52-53 | the record for a flagged invocation has Warning severity, the invocation's command name and extent, and the analysed file |
| UseCmdletCorrectly.Report | Rules/UseCmdletCorrectly.cs:40-55 | no more records than invocations; every record is a Warning for the analysed file |
| UseCmdletCorrectly.DeriveMandatoryParameters | Rules/UseCmdletCorrectly.cs:98-121 | the nested loops (skip short parameters, count Mandatory ParameterAttributes, keep those reaching the set count) build exactly the mandatory set |
| UseCmdletCorrectly.IsMandatoryParameterExisted | Rules/UseCmdletCorrectly.cs:63-151 | alias-then-direct lookup, non-cmdlet and fault short-circuits, mandatory-set derivation, the positional short-circuit and the early-break name match return exactly the conformance verdict |
| UseCmdletCorrectly.AnalyzeScript | Rules/UseCmdletCorrectly.cs:32-56 | a missing tree fails with the null-tree error; otherwise the result is the report over the found invocations, skipping nameless ones and adding one warning per non-conformant one, in order |
| UseCmdletCorrectlyProperties.MandatoryCountIsMultiplicity | Rules/UseCmdletCorrectly.cs:108-115 | the mandatory count is the multiplicity of Mandatory-flagged ParameterAttributes among the attributes: nothing else is counted |
| UseCmdletCorrectlyProperties.UncountedAttributeIsIgnored | Rules/UseCmdletCorrectly.cs:110-114 | inserting an attribute that is not a Mandatory-flagged ParameterAttribute anywhere leaves the count unchanged |
| UseCmdletCorrectlyProperties.MandatorySetMembership | Rules/UseCmdletCorrectly.cs:103-120 | a parameter with fewer attribute occurrences than parameter sets is never in the set; membership is decided by the mandatory count alone |
| UseCmdletCorrectlyProperties.TwoParameterSets | Rules/UseCmdletCorrectly.cs:98-121 | with two parameter sets, any parameter flagged Mandatory in both is in the mandatory set and any parameter flagged Mandatory in only one is not, whatever other attributes they carry |
| UseCmdletCorrectlyProperties.TwoParameterSetsNamingOnlyPartlyMandatory | Rules/UseCmdletCorrectly.cs:129-150 | with two parameter sets, an invocation that names only the parameter mandatory in one set, with no positional argument, is reported, because the parameter mandatory in both is still missing |
| UseCmdletCorrectlyProperties.NotConformantExactly | Rules/UseCmdletCorrectly.cs:83-150 | an invocation is non-conformant iff it resolves to a readable cmdlet with a non-empty mandatory set, no positional argument, and no named element matching any mandatory name; one match suffices |
| UseCmdletCorrectlyProperties.NamesMatchIffElementsMatch | Rules/UseCmdletCorrectly.cs:92-145 | matching over the filtered parameter names is the same as matching over the named elements of the invocation |
| UseCmdletCorrectlyProperties.SilentWhenUndecidable | Rules/UseCmdletCorrectly.cs:83-132 | unresolved names, non-cmdlets, faulted metadata, an empty mandatory set and positional arguments each make the invocation conformant |
| UseCmdletCorrectlyProperties.AliasLookupTakesPrecedence | Rules/UseCmdletCorrectly.cs:83-84 | when the lookup of the alias resolver's answer finds a command, the direct lookup of the name has no influence on the verdict |
| UseCmdletCorrectlyProperties.DirectLookupWhenAliasFails | Rules/UseCmdletCorrectly.cs:83-84 | when the alias path finds nothing, the verdict depends only on the direct lookup of the name |
| UseCmdletCorrectlyProperties.ReportAppend | Rules/UseCmdletCorrectly.cs:40-55 | the records for two invocation lists in sequence are the records of the first followed by those of the second, so each invocation is judged independently |
| UseCmdletCorrectlyProperties.ReportOfOne | Rules/UseCmdletCorrectly.cs:47-54 | a nameless or conformant invocation contributes no record; a flagged one contributes exactly its warning, in place |
| UseCmdletCorrectlyProperties.ReportEmptyIffNoneFlagged | Rules/UseCmdletCorrectly.cs:40-55 | the rule emits nothing iff no invocation has a name and is non-conformant |
| UseCmdletCorrectlyProperties.FlaggedIndices | Rules/UseCmdletCorrectly.cs:47-50 | the positions listed are strictly increasing, each is a flagged invocation, and every flagged invocation is listed |
| UseCmdletCorrectlyProperties.ReportIsOneWarningPerFlagged | Rules/UseCmdletCorrectly.cs:40-55 | the records are exactly one Warning per flagged invocation, naming its command and extent, in the order found |
| UseCmdletCorrectlyProperties.CopyItemMandatorySet | Rules/UseCmdletCorrectly.cs:98-121 | for Copy-Item with one set, Path and Destination are mandatory and Force is not |
| UseCmdletCorrectlyProperties.CopyItemOneMatchSuffices | Rules/UseCmdletCorrectly.cs:136-144 | naming only `-destination` (any case) clears Copy-Item even though Path is missing |
| UseCmdletCorrectlyProperties.CopyItemMissingMandatoryReported | Rules/UseCmdletCorrectly.cs:50-53 | naming only `-Force` with no positional argument yields exactly one Warning naming Copy-Item |
| UseCmdletCorrectlyProperties.PositionalAnswerIsPerInvocation | Rules/UseCmdletCorrectly.cs:129 | two Copy-Item invocations with the same name and elements, only one of which the detector says binds by position, yield exactly one warning, for the other one |

## Left out

- The tree search `ast.FindAll` and the syntax-tree types (line 37) are not modelled. The found invocations come from a caller-supplied `findAll`.
- The helpers `GetCommandInfo`, `GetCmdletNameFromAlias` and `PositionalParameterUsed` (lines 83-84, 129) are external. They are parameters of the model and their behaviour is not specified.
- The helpers are taken to be total. A throw at lines 83-86 or 129 is outside the `try` and is not modelled. Such a throw from `GetCommandInfo`, `GetCmdletNameFromAlias`, `CommandType` or `PositionalParameterUsed` would end the analysis of the remaining invocations.
- Exceptions as control flow (lines 96-127) are not modelled. A metadata read that throws is the `Faulted` variant, which covers a throw at any point of the read.
- `AnalyzeScript` is a C# iterator, so the null-tree exception surfaces only when enumeration starts. The model fails eagerly instead, and it models neither laziness nor the resumption of enumeration.
- Message formatting (`String.Format`, `Strings`, `CultureInfo`) and the rule name in each record are not modelled. A record keeps the command name, the invocation's extent, the severity and the file name.
- The rule-identity getters `GetName`, `GetCommonName`, `GetDescription`, `GetSourceType` and `GetSourceName` (lines 157-194) are left out. So is the `[Export]` registration. They return constant strings and carry no logic.
- `Fold` models `StringComparison.OrdinalIgnoreCase` as ASCII case folding only. The full Unicode upper-case mapping is left out.
- The order of `cmdInfo.Parameters.Values` is taken to be the order of the `parameters` sequence. The dictionary's case-insensitive keys are not modelled, because only the values are read.
- Determinism (the same tree and the same metadata give the same records) holds by construction, because `Report` is a function. No separate lemma states it.
