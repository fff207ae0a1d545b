# Ingress generator model

A Dafny model of the Kubernetes Ingress generator of kusk (`generators/ingress/ingress.go`).
Given the paths of an OpenAPI document and a set of options, the generator emits either one
consolidated Ingress for the whole service, or one Ingress per enabled path. The second form is
used when the `path.split` option is set or when any path is disabled. The model covers these
parts of the generator:

- the mode decision (`shouldSplit`);
- the name fragment derived from a path template (`ingressResourceNameFromPath`);
- the path field of a split-mode Ingress: the `{[A-z]+}` variable replacement, the `/` special
  case and the single `//` collapse pass;
- the Ingress record builder (`newIngressResource`);
- the split orchestration, with its filtering of disabled paths and its sort by name;
- the consolidated branch of `Generate`;
- the multi-document output assembly (`buildOutput`).

Everything is written as pure functions over `string` (`seq<char>`) and immutable datatypes.
Three collaborators the generator calls but does not define are parameters of `Generate`:

- `validate` stands for `FillDefaultsAndValidate`;
- `disabled` stands for `IsPathDisabled`;
- `marshal` stands for the YAML serializer.

The paths of the document are a sequence in arbitrary order, because Go map iteration order is
random.

Modules:

- `Results`: the `Result` type.
- `Seqs`: map and filter over sequences, and how they act on permutations.
- `Text`: the Go `strings` operations used: `ReplaceAll`, `Split`, `TrimSuffix`, ASCII `ToLower`,
  and Go's `<` on strings. It also defines `Join`, which the code does not call: the name is built
  with a `strings.Builder` and `Fprintf` (ingress.go:212-220), and `Join` is the reference form
  used to state what that loop computes.
- `Resource`: the Ingress datatype, the options, the error kinds, and `NewIngressResource`.
- `Names`: `DeriveName`.
- `PathMatch`: the path-variable scanner, `ReplaceVars`, `Collapse` and `PathField`.
- `Sorting`: the sort by name.
- `Output`: `BuildOutput`.
- `Generator`: `ShouldSplit`, `SplitResources`, `SplitPath` and `Generate`, plus the main
  theorems.
- `Scenarios`: concrete inputs that show edge-case behaviour.

## Behaviour a reader might not expect

The model follows the code as written. Some consequences:

- Derived names are not always valid name tokens. `"//"` gives `""` and `"/{}/a"` gives `"-a"`
  (`Scenarios.EmptyName`, `Scenarios.NameWithLeadingHyphen`). Two different paths can also get
  the same name: `"/a/b"` and `"/a-b"` both give `"a-b"` (`Scenarios.NamesCollide`).
  `TrimSuffix` removes only one trailing `-`, so a segment of braces only at the end or in the
  middle leaves a trailing or doubled hyphen: `"/a/{}"` gives `"a-"`
  (`Scenarios.NameWithTrailingHyphen`), and `"/a/{}/b"` gives `"a--b"`.
- Doubled slashes are not always removed. The collapse is a single `ReplaceAll` pass, so
  `"///x"` becomes `"//x"` (`Scenarios.CollapseIsSinglePass`). No `//` remains only when the
  uncollapsed field has no `///` (`PathMatch.CollapseRemovesDoubles`).
- Nothing is validated when an Ingress is built. An empty name or an empty backend is copied
  as is, and there is no invalid-input error.
- Consolidated mode uses the base path unchanged, whatever the paths are. It applies no
  variable pattern and no per-path suffix.
- Split mode always uses `Exact` matching, even for paths rewritten into a pattern.
- The output is independent of the order of the document's paths only up to the order of
  equal names. The sorted names are always the same. The whole output is the same in consolidated
  mode, and in split mode when the names are distinct (`Generator.GenerateIgnoresPathOrder`). Go's `sort.Slice` is not stable,
  so equal names may come out in either order.
- Consolidated mode returns the serializer's error unwrapped (`MarshalFailed`). Split mode names
  the Ingress that failed (`ResourceMarshalFailed`).

## Model

| member | source | states |
|---|---|---|
| Text.ReplaceAll | generators/ingress/ingress.go:123 | a non-empty pattern that does not occur leaves the string unchanged. A replacement no longer than the pattern never lengthens the string |
| Text.ReplaceAllAtFirst | generators/ingress/ingress.go:123 | for a non-empty pattern, the text before its first occurrence is copied, that occurrence becomes the replacement, and the pass goes on after it. With the unchanged-when-absent clause this fixes the result of every left-to-right, non-overlapping pass |
| Text.DeleteChar | generators/ingress/ingress.go:219 | replacing one character by nothing equals filtering that character out: the other characters stay, in their order and number |
| Text.Split | generators/ingress/ingress.go:213 | `strings.Split` yields at least one piece, and no piece contains the separator |
| Text.JoinSplit | generators/ingress/ingress.go:213 | joining the pieces of a split with the separator gives back the original string |
| Text.TrimSuffix | generators/ingress/ingress.go:224 | the result is a prefix of the input. The suffix is removed exactly when the input ends with it |
| Text.ToLowerAscii | generators/ingress/ingress.go:224 | same length. Every upper-case ASCII letter becomes its lower-case partner (code + 32), and every other character is unchanged |
| Text.Less | generators/ingress/ingress.go:138 | Go's `<` on strings: a string is never less than itself, and nothing is less than `""` |
| Text.LessTotal | generators/ingress/ingress.go:137-139 | Go's string `<` orders any two different strings one way or the other |
| Text.SortedPermutationsEqual | generators/ingress/ingress.go:137-139 | two non-decreasing arrangements of the same strings are equal |
| Resource.NewIngressResource | generators/ingress/ingress.go:144-189 | the Ingress has the fixed API version and kind, and the given name, namespace and class. It has exactly one rule, with the given host, holding exactly one path, with the given path type, path and service backend. Nothing is checked |
| Names.Segments | generators/ingress/ingress.go:213-216 | a string is a segment exactly when it is a non-empty piece of the split at `/`, so no segment is empty or contains `/` |
| Names.StripBraces | generators/ingress/ingress.go:219 | a character is in the stripped segment exactly when it is in the segment and is not `{` or `}` |
| Names.AppendHyphens | generators/ingress/ingress.go:212-221 | the written text has no braces, has no `/` when no segment has one, and ends with `-` when there is a segment |
| Names.DeriveName | generators/ingress/ingress.go:207-224 | `""` and `"/"` give `"root"`. No name contains `/`, `{`, `}` or an upper-case ASCII letter |
| Names.StripBracesIsFilter | generators/ingress/ingress.go:218-219 | stripping a segment removes every `{` and `}` and keeps the other characters in their order and number |
| Names.AppendThenTrimIsJoin | generators/ingress/ingress.go:212-224 | writing every stripped segment followed by `-` and trimming one trailing `-` is the same as joining the stripped segments with `-` |
| Names.DeriveNameIsJoin | generators/ingress/ingress.go:207-224 | any path other than `""` and `"/"` gets the ASCII lower case of its non-empty `/`-segments, with braces removed, joined by `-` |
| PathMatch.MatchLen | generators/ingress/ingress.go:23 | a positive length is a complete match of `{[A-z]+}` at the front of the string |
| PathMatch.MatchLenIsTheMatch | generators/ingress/ingress.go:23 | every match at the front of the string has exactly the reported length, so 0 means no match starts there |
| PathMatch.ContainsVar | generators/ingress/ingress.go:112 | `MatchString` holds only for a string containing both `{` and `}` |
| PathMatch.ContainsVarIffSubstring | generators/ingress/ingress.go:112 | `MatchString` holds exactly when some substring is a match of `{[A-z]+}` |
| PathMatch.ReplaceVars | generators/ingress/ingress.go:113 | a path without a variable is left unchanged |
| PathMatch.ReplaceVarsAtFirst | generators/ingress/ingress.go:113 | the text before the first variable is copied, that variable becomes `([A-z0-9]+)`, and the scan goes on after it. With the no-variable clause of `ReplaceVars` this fixes the result for every path |
| PathMatch.NoVarAfterReplace | generators/ingress/ingress.go:113 | after the replacement no match of `{[A-z]+}` is left, and no new one is created |
| PathMatch.Collapse | generators/ingress/ingress.go:122-123 | the `//` pass never lengthens a string, and it leaves a string without `//` unchanged |
| PathMatch.CollapseAtFirst | generators/ingress/ingress.go:122-123 | the text before the first `//` is copied, that `//` becomes `/`, and the pass goes on after the pair |
| PathMatch.CollapseRemovesDoubles | generators/ingress/ingress.go:122-123 | a string with no three slashes in a row has no `//` after the pass |
| PathMatch.CollapseKeepsOtherChars | generators/ingress/ingress.go:122-123 | the pass removes only slashes. The non-slash characters stay the same and in the same order |
| PathMatch.RawPathField | generators/ingress/ingress.go:111-120 | the field is the base followed by a text with no variable left. A path with a variable gets the base followed by the path with every variable replaced |
| PathMatch.RawPathFieldUniform | generators/ingress/ingress.go:111-120 | `"/"` gives base + `"$"`, and every other path gives base + the replaced path. The variable test does not change the result |
| PathMatch.PathField | generators/ingress/ingress.go:111-123 | the field is one `//` pass (`Collapse`) over the uncollapsed field. It is no longer than the uncollapsed one, and it has no `//` when the uncollapsed one has no `///` |
| Sorting.Insert | generators/ingress/ingress.go:137-139 | inserting into a name-sorted list keeps it sorted and adds exactly that element |
| Sorting.SortByName | generators/ingress/ingress.go:137-139 | the result is a permutation of the input, ordered by name in non-decreasing Go string order |
| Sorting.SortedArrangementsAgree | generators/ingress/ingress.go:137-139 | any two name-sorted permutations of the same list have the same name sequence. They are the same list when the names are distinct |
| Output.FirstFailure | generators/ingress/ingress.go:230-235 | the index of the first Ingress whose serialization fails, or the length of the list when none fails |
| Output.BuildOutput | generators/ingress/ingress.go:227-240 | an empty list gives `""`. The result succeeds exactly when every Ingress serializes. Otherwise the error names the first failing Ingress and its cause, and no text is returned. Successful non-empty output starts with `"---\n"` |
| Output.BuildOutputSingle | generators/ingress/ingress.go:230-237 | one Ingress gives `"---\n"` followed by its document, or the error that names it |
| Output.BuildOutputAppend | generators/ingress/ingress.go:227-240 | the output of a concatenation is the concatenation of the outputs. When a part fails, the first failure in order is the result |
| Generator.AnyDisabled | generators/ingress/ingress.go:196-203 | true exactly when some path of the document is disabled |
| Generator.ShouldSplit | generators/ingress/ingress.go:191-205 | split mode is chosen exactly when the split option is set or some path is disabled |
| Generator.ResourceFor | generators/ingress/ingress.go:109-133 | a split-mode Ingress is named service name + `-` + derived name. It uses `Exact` matching on the collapsed path field, and the options' namespace, host, class and backend |
| Generator.SplitResources | generators/ingress/ingress.go:103-139 | the list handed to the output is sorted by name and is a permutation of the Ingresses of the enabled paths, taken in input order |
| Generator.SplitPath | generators/ingress/ingress.go:102-142 | the output is `BuildOutput` of some name-sorted permutation of the enabled paths' Ingresses |
| Generator.SplitPathOkIffAllMarshal | generators/ingress/ingress.go:102-142 | split mode succeeds exactly when the Ingress of every enabled path serializes |
| Generator.SplitResourcesExactlyEnabled | generators/ingress/ingress.go:105-135 | one Ingress per enabled path. Every enabled path's Ingress is present, and every Ingress comes from an enabled path |
| Generator.Consolidated | generators/ingress/ingress.go:81-89 | the consolidated Ingress is named service name + `-ingress` and uses `Prefix` matching on the base path, unchanged. It has the options' namespace, host, class and backend |
| Generator.Generate | generators/ingress/ingress.go:70-73 | a validation failure is reported as `InvalidOptions` before any generation |
| Generator.GenerateConsolidated | generators/ingress/ingress.go:75-93 | without the split option and without a disabled path, the output is exactly the serialized consolidated Ingress, with no separator, or the serializer's error |
| Generator.GenerateSplit | generators/ingress/ingress.go:75-77 | in split mode the output is `BuildOutput` of a name-sorted permutation of the enabled paths' Ingresses |
| Generator.ShouldSplitIgnoresPathOrder | generators/ingress/ingress.go:191-205 | reordering the document's paths does not change the mode decision |
| Generator.SplitResourcesIgnorePathOrder | generators/ingress/ingress.go:105-141 | reordering the document's paths does not change the sorted names. It does not change the sorted list when the names are distinct |
| Generator.GenerateIgnoresPathOrder | generators/ingress/ingress.go:70-141 | reordering the document's paths gives the same output: always in consolidated mode, and in split mode when the names are distinct |
| Scenarios.EmptyName | generators/ingress/ingress.go:207-224 | `"//"` gives the empty name |
| Scenarios.NameWithLeadingHyphen | generators/ingress/ingress.go:207-224 | `"/{}/a"` gives `"-a"` |
| Scenarios.NameWithTrailingHyphen | generators/ingress/ingress.go:207-224 | `"/a/{}"` gives `"a-"`: only one trailing `-` is trimmed |
| Scenarios.NamesCollide | generators/ingress/ingress.go:207-224 | two different paths, `"/a/b"` and `"/a-b"`, give the same name |
| Scenarios.CollapseIsSinglePass | generators/ingress/ingress.go:122-123 | `"///x"` becomes `"//x"` |
| Scenarios.RawExample | generators/ingress/ingress.go:112-113 | `"/{id}"` becomes the base followed by `"/([A-z0-9]+)"` |
| Scenarios.SplitWithDisabledPath | generators/ingress/ingress.go:102-141 | with `"/admin"` disabled among `"/"`, `"/pets"` and `"/admin"`, split mode is chosen. The Ingresses are named `<service>-pets` and `<service>-root`, in that order |

## Left out

- YAML serialization (`yaml.Marshal`) is a foreign library. It is the parameter `marshal`, which may fail.
- Option defaulting and validation (`FillDefaultsAndValidate`) live in a package that is not part of this model. They are the parameter `validate`, which returns the filled-in options or an error.
- The per-path overrides (`IsPathDisabled`) are the parameter `disabled`.
- OpenAPI parsing is not modelled. The document's paths are a sequence of strings in arbitrary order, which stands in for Go's random map iteration order.
- Regular-expression matching is replaced by a hand-written scanner for `{`, one or more characters from `'A'` to `'z'`, then `}`. The replacement text contains no `$`, so Go's template expansion does not apply.
- The CLI and registry parts are not modelled: `init`, `Cmd`, `Flags`, `ShortDescription` and `LongDescription`. They only register the generator and declare its flags.
- `generateServiceProfileSpec` is not modelled because it is never called.
- The exact text of wrapped error messages (`fmt.Errorf` with `%+v`) is not modelled. Errors are datatypes that carry the cause and, for split mode, the failing Ingress.
- Text.ToLowerAscii: lowers only ASCII letters, whereas Go's `strings.ToLower` also lowers other Unicode letters. Non-ASCII case mapping is not modelled.
- Text.Less: compares character codes. For valid UTF-8 strings this matches Go's byte-wise order.
- Text.Split: takes a one-character separator, the only kind the generator uses.
- Resource.NewIngressResource: the port is an unbounded integer, whereas Go uses `int32`. The generator never does arithmetic on the port.
- Sorting.SortByName: fixes one arrangement of equal names, whereas `sort.Slice` may produce any. The properties stated about split mode depend only on the result being sorted and a permutation. `Sorting.SortedArrangementsAgree` shows that every such arrangement has the same names.
- Generator.GenerateIgnoresPathOrder: requires distinct names in split mode, because with equal names even the source's split-mode output depends on the sort's choice.
