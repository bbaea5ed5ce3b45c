# JVM binary class names in MinecraftDev, modelled in Dafny

This project models the class-name utilities of the MinecraftDev IntelliJ plugin.

- **Building a name.** `fullQualifiedName` and `shortName` build a class's name by walking outwards from it. A member class contributes its simple name. Any other class contributes its 1-based position among the anonymous elements of the nearest enclosing class. The walk stops at the first class that has an outer name. That name comes first, then the segments outermost first, each after `$` or `.`. This gives the binary-name form of The Java Language Specification, section 13.1: `Outer$Inner`, `Outer$1`.
- **Resolving a name.** `findQualifiedClass` does the reverse. It looks up the text before the first `$` as a top-level class. It then resolves every later segment in order: a number is an anonymous index, anything else a member class's simple name.
- **Signature matching.** These helpers match methods and fields against a pattern by parameter count, primitive identity and erasure equivalence.
- **Type text.** `getClassFromString` classifies the type text of an access-transformer entry as a field descriptor (The Java Virtual Machine Specification, section 4.3.2). It strips `[`, sends `L…` to class lookup, and sends one base-type letter to the wrapper-class lookup.

The host IDE's program-structure tree is a value, `PsiTree.Project`: a sequence of classes, numbered so that a class's containing class and enclosing class come before it. Each class records what the host would answer about it:

- its name and qualified name;
- its containing class;
- the class around its parent element;
- what each registered anonymous-element provider reports for it.

The code's failures each become a `Failure` value:

- a `!!` on null;
- the `IllegalStateException` of `getAnonymousIndex`;
- an array index out of range.

Modules, one per concern:

- `KotlinText`: `StringBuilder`, `indexOf`, `Int.toString` and `toIntOrNull`, plus a `Split` that describes what the `indexOf` loop walks over.
- `PsiTree`: the class tree and the host's two lookups.
- `AnonymousClasses`: `anonymousElements` and `getAnonymousIndex`.
- `ClassNames`: building names.
- `ClassLookup`: `findInnerClass` and `findQualifiedClass`, with the round trip between building and resolving.
- `MemberMatching`: signature matching.
- `AtMixinUtil`: `getClassFromString`.

The loops of the source are methods with loop invariants, each proved equal to a specification function:

- the do-while walk and the reverse `for` loop of `buildInnerName`;
- the `while (true)` loop of `findQualifiedClass`;
- the loops with early returns in `getAnonymousIndex`, `anonymousElements` and `areReallyOnlyParametersErasureEqual`;
- the callback overload of `findMatchingMethods`.

`StringBuilder` is a class whose `text` the methods append to. Everything the properties need is proved about the specification functions.

`fullQualifiedName` builds a name exactly when `outerQualifiedName` is null (McPsiClass.kt:37-42). That is the case for member classes, and also for anonymous and local classes, which have no containing class and a null qualified name.

## Model

| member | source | states |
|---|---|---|
| KotlinText.IndexOf | src/main/kotlin/com/demonwav/mcdev/util/McPsiClass.kt:106 | the result is the first position at or after `from` holding the character, or -1 exactly when none does |
| KotlinText.SplitAtIndexOf | src/main/kotlin/com/demonwav/mcdev/util/McPsiClass.kt:114-123 | the text from `from` splits into the piece up to the next `indexOf` hit followed by the split of the rest, and is a single piece when `indexOf` finds nothing |
| KotlinText.NatToString | src/main/kotlin/com/demonwav/mcdev/util/McPsiClass.kt:81 | `Int.toString` of an index is a non-empty run of decimal digits without a leading zero |
| KotlinText.ParseInt | src/main/kotlin/com/demonwav/mcdev/util/McPsiClass.kt:127 | `toIntOrNull` succeeds exactly on an optional sign followed by at least one digit whose value is in the 32-bit Int range, and then returns that value with the sign applied |
| KotlinText.ParseNatToString | src/main/kotlin/com/demonwav/mcdev/util/McPsiClass.kt:127 | `toIntOrNull` reads back exactly the number that `toString` wrote, for every index up to Int.MAX_VALUE |
| KotlinText.IdentifierIsNotNumeric | src/main/kotlin/com/demonwav/mcdev/util/McPsiClass.kt:127-130 | a segment starting with neither a digit nor a sign is not numeric, so it goes to the by-name lookup |
| PsiTree.FindClass | src/main/kotlin/com/demonwav/mcdev/util/McPsiClass.kt:108 | the lookup returns a class with exactly that qualified name, the first one, and null exactly when no class has it |
| PsiTree.FindInnerClassByName | src/main/kotlin/com/demonwav/mcdev/util/McPsiClass.kt:130 | the lookup returns the first member class of the class with that simple name, and null exactly when there is none |
| AnonymousClasses.FirstNonEmpty | src/main/kotlin/com/demonwav/mcdev/util/McPsiClass.kt:156-163 | the result is null exactly when every provider reports nothing; otherwise it is the first non-empty report, with all earlier reports empty |
| AnonymousClasses.AnonymousElements | src/main/kotlin/com/demonwav/mcdev/util/McPsiClass.kt:154-164 | the provider loop with its early return computes the first non-empty provider result |
| AnonymousClasses.FirstNonEmptyAt | src/main/kotlin/com/demonwav/mcdev/util/McPsiClass.kt:156-160 | a non-empty report preceded only by empty ones is the answer |
| AnonymousClasses.Position | src/main/kotlin/com/demonwav/mcdev/util/McPsiClass.kt:144-147 | the position of the first occurrence, null exactly when the element is absent |
| AnonymousClasses.AnonymousIndex | src/main/kotlin/com/demonwav/mcdev/util/McPsiClass.kt:142-151 | it fails when there are no anonymous elements and when the class is not among them; when the class is among them it succeeds, with i+1 for the first equivalent element at position i |
| AnonymousClasses.GetAnonymousIndex | src/main/kotlin/com/demonwav/mcdev/util/McPsiClass.kt:142-151 | the loop with its early return and the throw after it computes AnonymousIndex |
| ClassNames.OuterQualifiedName | src/main/kotlin/com/demonwav/mcdev/util/McPsiClass.kt:37-38 | defined exactly for a class without a containing class that has a qualified name, and then that qualified name; ClassNames.TopLevelFullQualifiedName and ClassLookup.OuterNameFound build on it |
| ClassNames.OuterShortName | src/main/kotlin/com/demonwav/mcdev/util/McPsiClass.kt:54-55 | defined exactly for a class without a containing class that has a simple name, and then that name; ClassNames.MemberOfTopLevel builds on it |
| ClassNames.Step | src/main/kotlin/com/demonwav/mcdev/util/McPsiClass.kt:72-84 | one level of the walk always moves to an earlier-numbered class, so the do-while loop ends; the segment rule itself is the function's definition |
| ClassNames.WalkFrom | src/main/kotlin/com/demonwav/mcdev/util/McPsiClass.kt:72-86 | a finished walk has one segment per level, its first level is the start class, and it stops at a class whose outer name is the name it reports |
| ClassNames.WalkFromIsWalk | src/main/kotlin/com/demonwav/mcdev/util/McPsiClass.kt:72-86 | every level steps to the next by the segment rule, no level after the first has an outer name, and the last class reached has one |
| ClassNames.WalkIsUnique | src/main/kotlin/com/demonwav/mcdev/util/McPsiClass.kt:72-86 | any walk satisfying the segment rule and the stopping rule from a class is the computed one |
| ClassNames.InnerNameShape | src/main/kotlin/com/demonwav/mcdev/util/McPsiClass.kt:66-95 | the built name starts with the outer name of the class the walk stopped at and ends with the separator and the start class's own segment |
| ClassNames.EmitFrom | src/main/kotlin/com/demonwav/mcdev/util/McPsiClass.kt:92-94 | one turn of the reverse loop appends the separator and segment i after the segments beyond i |
| ClassNames.CollectSegments | src/main/kotlin/com/demonwav/mcdev/util/McPsiClass.kt:67-86 | the do-while loop collects exactly the walk, or fails with the failure the walk meets |
| ClassNames.BuildInnerName | src/main/kotlin/com/demonwav/mcdev/util/McPsiClass.kt:66-95 | the builder keeps its text and gains exactly the outer name followed by the segments outermost first, each after the separator; on failure it is unchanged |
| ClassNames.AppendSegments | src/main/kotlin/com/demonwav/mcdev/util/McPsiClass.kt:92-94 | the reverse loop appends the collected segments outermost first, each after the separator, to the builder's text |
| ClassNames.BuildQualifiedName | src/main/kotlin/com/demonwav/mcdev/util/McPsiClass.kt:48-51 | the same builder comes back, with the `$`-built name appended |
| ClassNames.FullQualifiedName | src/main/kotlin/com/demonwav/mcdev/util/McPsiClass.kt:40-42 | the outer qualified name when it is defined, otherwise the `$`-built name |
| ClassNames.ShortName | src/main/kotlin/com/demonwav/mcdev/util/McPsiClass.kt:57-64 | the outer short name when it is defined, otherwise the `.`-built name with outerShortName |
| ClassNames.AppendFullQualifiedName | src/main/kotlin/com/demonwav/mcdev/util/McPsiClass.kt:44-46 | the builder keeps its contents as a prefix and gains exactly the full qualified name |
| ClassNames.TopLevelFullQualifiedName | src/main/kotlin/com/demonwav/mcdev/util/McPsiClass.kt:36-42 | a class without a containing class and with a qualified name is named by that qualified name |
| ClassNames.MemberOfTopLevel | src/main/kotlin/com/demonwav/mcdev/util/McPsiClass.kt:36-64 | a member of a top-level class is named `Outer$Inner`, and its short name is `Outer.Inner` |
| ClassNames.OneLevel | src/main/kotlin/com/demonwav/mcdev/util/McPsiClass.kt:72-94 | a one-level walk emits the outer name, the separator and the simple name |
| ClassNames.FullNameEndsWithOwnName | src/main/kotlin/com/demonwav/mcdev/util/McPsiClass.kt:73-76 | a member class has a name, and its full name ends with `$` and that name |
| ClassLookup.FindInnerClassAsWritten | src/main/kotlin/com/demonwav/mcdev/util/McPsiClass.kt:126-139 | findInnerClass as written fails exactly on a numeric segment below 1 when the class has anonymous elements |
| ClassLookup.ZeroSegmentThrows | src/main/kotlin/com/demonwav/mcdev/util/McPsiClass.kt:133-134 | for the segment `0` behind a class with one anonymous element, the array access as written is out of bounds, while the corrected lookup returns null |
| ClassLookup.FindInnerClass | src/main/kotlin/com/demonwav/mcdev/util/McPsiClass.kt:126-139 | the corrected lookup only ever returns a class of the project |
| ClassLookup.FindInnerClassMeaning | src/main/kotlin/com/demonwav/mcdev/util/McPsiClass.kt:126-139 | a non-numeric segment is a by-name lookup; a numeric segment n yields anonymous element n-1 exactly when there are anonymous elements and 1 <= n <= their count, and null otherwise |
| ClassLookup.AsWrittenAgreesWithCorrected | src/main/kotlin/com/demonwav/mcdev/util/McPsiClass.kt:126-139 | wherever the code as written does not throw, it returns what the corrected lookup returns |
| ClassLookup.ResolveWhole | src/main/kotlin/com/demonwav/mcdev/util/McPsiClass.kt:106-108 | with no `$` in the name, resolution is the top-level lookup of the whole name |
| ClassLookup.ResolveFirstPiece | src/main/kotlin/com/demonwav/mcdev/util/McPsiClass.kt:106-111 | otherwise the text before the first `$` is looked up as a top-level class; null there is null overall, and the rest is resolved from that class |
| ClassLookup.ResolveLastPiece | src/main/kotlin/com/demonwav/mcdev/util/McPsiClass.kt:115-119 | when no `$` is left, the rest of the name is one last findInnerClass |
| ClassLookup.ResolveNextPiece | src/main/kotlin/com/demonwav/mcdev/util/McPsiClass.kt:115-122 | a middle segment that fails ends resolution with null; one that succeeds continues from the class it found |
| ClassLookup.FindQualifiedClass | src/main/kotlin/com/demonwav/mcdev/util/McPsiClass.kt:104-124 | the `indexOf` loop computes a top-level lookup of the first `$`-piece followed by the later pieces resolved left to right |
| ClassLookup.ResolveWithoutDollar | src/main/kotlin/com/demonwav/mcdev/util/McPsiClass.kt:106-108 | a name without `$` is found by one top-level lookup of the whole name |
| ClassLookup.ResolveStopsAtFailure | src/main/kotlin/com/demonwav/mcdev/util/McPsiClass.kt:121 | once a segment fails, no later segment is looked at and the result is null |
| ClassLookup.ResolveSnoc | src/main/kotlin/com/demonwav/mcdev/util/McPsiClass.kt:114-122 | resolving one more segment continues from where the earlier segments ended |
| ClassLookup.StepResolves | src/main/kotlin/com/demonwav/mcdev/util/McPsiClass.kt:72-82 | the segment a level contributes contains no `$`, and findInnerClass of it from the class the walk moves to gives back that level |
| ClassLookup.WalkResolves | src/main/kotlin/com/demonwav/mcdev/util/McPsiClass.kt:66-95 | resolving a walk's segments, outermost first, from the class it stopped at gives back the start class |
| ClassLookup.SplitEmitted | src/main/kotlin/com/demonwav/mcdev/util/McPsiClass.kt:88-94 | splitting a `$`-built name at `$` gives back the outer name and the segments, outermost first |
| ClassLookup.FullQualifiedNameRoundTrip | src/main/kotlin/com/demonwav/mcdev/util/McPsiClass.kt:104-124 | findQualifiedClass of a class's full qualified name is that class, when five conditions hold: no simple name contains `$` or reads as an Int, no qualified name contains `$`, qualified names are unique, the member classes of one class have distinct simple names, and every anonymous-element list is at most Int.MAX_VALUE long |
| ClassLookup.InnerNameRoundTrip | src/main/kotlin/com/demonwav/mcdev/util/McPsiClass.kt:66-95 | under the same five conditions, findQualifiedClass reverses the `$`-built name of member, anonymous and local classes |
| ClassLookup.OuterNameFound | src/main/kotlin/com/demonwav/mcdev/util/McPsiClass.kt:37-38 | a class that has an outer qualified name is what the top-level lookup finds for it, and that name contains no `$` |
| ClassLookup.ExampleNames | src/main/kotlin/com/demonwav/mcdev/util/McPsiClass.kt:66-95 | the first anonymous class in `Inner` of `com.example.Outer` is named `com.example.Outer$Inner$1`, with short name `Outer.Inner.1` |
| ClassLookup.ExampleResolves | src/main/kotlin/com/demonwav/mcdev/util/McPsiClass.kt:104-124 | `com.example.Outer$Inner$1` resolves back to that anonymous class |
| MemberMatching.AreReallyOnlyParametersErasureEqual | src/main/kotlin/com/demonwav/mcdev/util/McPsiClass.kt:216-238 | true exactly when the counts agree and every position matches; a match implies equal length, and a primitive parameter matched only the identical primitive |
| MemberMatching.IsMatchingMethod | src/main/kotlin/com/demonwav/mcdev/util/McPsiClass.kt:207-210 | the parameters match position by position and the return types are erasure-equivalent; what a match implies is stated by MemberMatching.MatchingNeedsSameShape, and that names do not matter by MemberMatching.MatchingIgnoresName |
| MemberMatching.MatchingNeedsSameShape | src/main/kotlin/com/demonwav/mcdev/util/McPsiClass.kt:207-210 | a matching method has as many parameters as the pattern, primitives identical, every position erasure-equivalent, and an erasure-equivalent return type |
| MemberMatching.MatchingIgnoresName | src/main/kotlin/com/demonwav/mcdev/util/McPsiClass.kt:207-210 | renaming either method never changes whether it matches |
| MemberMatching.FindMatchingMethods | src/main/kotlin/com/demonwav/mcdev/util/McPsiClass.kt:195-197 | the result holds exactly the matching candidates, in their order |
| MemberMatching.FindMatchingMethodsCounts | src/main/kotlin/com/demonwav/mcdev/util/McPsiClass.kt:195-197 | every matching candidate is kept as often as it occurs among the candidates, and every other one never |
| MemberMatching.FindMatchingMethod | src/main/kotlin/com/demonwav/mcdev/util/McPsiClass.kt:191-193 | null exactly when no candidate matches; otherwise the first candidate that matches |
| MemberMatching.FirstOfMatchingMethods | src/main/kotlin/com/demonwav/mcdev/util/McPsiClass.kt:191-197 | findMatchingMethod is the head of findMatchingMethods, or null when that list is empty |
| MemberMatching.FindMatchingMethodsVisit | src/main/kotlin/com/demonwav/mcdev/util/McPsiClass.kt:199-205 | the forward loop hands the callback exactly the methods findMatchingMethods returns, in the same order |
| MemberMatching.FindMatchingMethodsSnoc | src/main/kotlin/com/demonwav/mcdev/util/McPsiClass.kt:200-204 | one more candidate at the end of the list is visited last, exactly when it matches |
| MemberMatching.FindMatchingField | src/main/kotlin/com/demonwav/mcdev/util/McPsiClass.kt:212-214 | the field found by name is returned exactly when its type is erasure-equivalent to the pattern's type, and null otherwise |
| AtMixinUtil.StripArrays | src/main/kotlin/com/demonwav/mcdev/platform/mcp/at/psi/AtMixinUtil.kt:25 | no `[` is left |
| AtMixinUtil.StripArraysKeepsTheRest | src/main/kotlin/com/demonwav/mcdev/platform/mcp/at/psi/AtMixinUtil.kt:25 | exactly the brackets are removed: every other character stays as often as it occurred |
| AtMixinUtil.StripArraysIdempotent | src/main/kotlin/com/demonwav/mcdev/platform/mcp/at/psi/AtMixinUtil.kt:25 | stripping twice is stripping once |
| AtMixinUtil.StripArraysNoBrackets | src/main/kotlin/com/demonwav/mcdev/platform/mcp/at/psi/AtMixinUtil.kt:25 | text without brackets is left unchanged |
| AtMixinUtil.StripArraysAppend | src/main/kotlin/com/demonwav/mcdev/platform/mcp/at/psi/AtMixinUtil.kt:25 | stripping a concatenation strips each part |
| AtMixinUtil.StripArraysDropsBracket | src/main/kotlin/com/demonwav/mcdev/platform/mcp/at/psi/AtMixinUtil.kt:25 | a bracket anywhere in the text is removed, not only at the front |
| AtMixinUtil.Classify | src/main/kotlin/com/demonwav/mcdev/platform/mcp/at/psi/AtMixinUtil.kt:21-36 | null text gives null; a class descriptor exactly when the stripped text starts with `L`, named by parseClassDescriptor of the stripped text; a primitive exactly when the stripped text is one letter of `BCDFIJSZ`, and then that letter |
| AtMixinUtil.ClassifyAfterStripping | src/main/kotlin/com/demonwav/mcdev/platform/mcp/at/psi/AtMixinUtil.kt:24-38 | two texts that strip to the same text are classified alike |
| AtMixinUtil.ClassifyIgnoresBrackets | src/main/kotlin/com/demonwav/mcdev/platform/mcp/at/psi/AtMixinUtil.kt:24-25 | inserting `[` anywhere, or stripping beforehand, never changes the classification |
| AtMixinUtil.ClassifyRejects | src/main/kotlin/com/demonwav/mcdev/platform/mcp/at/psi/AtMixinUtil.kt:34-36 | `V`, the empty text, bare brackets and a two-letter text are all rejected |
| AtMixinUtil.ClassifyAccepts | src/main/kotlin/com/demonwav/mcdev/platform/mcp/at/psi/AtMixinUtil.kt:29-38 | `[[I` asks for the wrapper of `I`; `[Ljava/lang/String;` asks for the class descriptor |
| AtMixinUtil.GetClassFromString | src/main/kotlin/com/demonwav/mcdev/platform/mcp/at/psi/AtMixinUtil.kt:21-39 | null text gives null; stripped text starting with `L` gives findQualifiedClass of its parsed descriptor; a single base-type letter gives that letter's wrapper class; anything else gives null |

## Left out

- `PsiClassType.fullQualifiedName` (McPsiClass.kt:30-32) only resolves a type through the host and forwards to `fullQualifiedName`; type resolution is not part of this model.
- `addImplements` (McPsiClass.kt:174-187) edits the host's tree through its element factory, which is not part of this model.
- `extendsOrImplements` (McPsiClass.kt:168-172) delegates to the host's `isInheritor`, which is not part of this model.
- The `findQualifiedClass(String, PsiElement)` overload (McPsiClass.kt:97-100) only picks the project and search scope from its context. Search scopes are not modelled: every lookup searches the whole project.
- PsiTree.FindClass: `JavaPsiFacade.findClass` may return any class with the qualified name; the model fixes it to the first one, which decides nothing when qualified names are unique.
- The `AnonymousElementProvider` extension registry is a list per class (`anonymousByProvider`) of what each provider reports, in registry order; how the providers compute it is not modelled.
- `areElementsEquivalent` is equality of class numbers.
- `isErasureEquivalentTo` is a parameter of the matching functions, not a definition; `findMethodsByName` and `findFieldByName` become their results, passed in as the candidate list and the found field (with `checkBases` and the lookup name, which only steer those lookups).
- `parseClassDescriptor` and `getPrimitiveWrapperClass` (called from AtMixinUtil.kt:30, 38) are parameters; their bodies are not part of this model.
- The `getName` lambda of `buildInnerName` is one of the two getters the file passes (`outerQualifiedName`, `outerShortName`), not an arbitrary function.
- KotlinText.ParseInt accepts ASCII digits only; Kotlin's `toIntOrNull` also accepts other Unicode decimal digits.
- The `as PsiClass` cast in findInnerClass (McPsiClass.kt:134) cannot fail in the model, because anonymous elements are classes here.
- ClassNames.Step: its own contract states only that the walk moves to an earlier class. The segment rule (a member class gives its simple name, any other class its 1-based anonymous index within the enclosing class) is the function's definition and is not restated as a contract. ClassNames.WalkFromIsWalk states that the walk follows Step at every level; ClassLookup.StepResolves states that each segment has no `$` and resolves back to its level.
- ClassLookup.FindQualifiedClass: it resolves with the corrected findInnerClass, so a numeric segment of 0 or below behind a class with anonymous elements (`A$0`) gives null where the source throws ArrayIndexOutOfBoundsException (see Findings).
- AtMixinUtil.GetClassFromString: its class-descriptor branch uses the same corrected resolution, so text such as `LA$0;` gives null where the source throws.
- ClassLookup.FindInnerClass: its own contract states only that the result is a class of the project; its meaning is stated by ClassLookup.FindInnerClassMeaning.
- The `@Contract` annotations, `@JvmOverloads` and the `@file:JvmName` of both files are not modelled.
- `src/main/kotlin/translations/folding.kt` is editor-folding plumbing on the host's syntax trees, and `AtFuncNameMixin.kt` is an interface without behaviour; neither is part of this model.

## Findings

| source | as written | input that shows it | evidently intended | confidence | as-written member | corrected member |
|---|---|---|---|---|---|---|
| src/main/kotlin/com/demonwav/mcdev/util/McPsiClass.kt:133-134 | a numeric segment n is accepted when n <= the number of anonymous elements, then element n - 1 is read | `findQualifiedClass("A$0")` (or `"A$-1"`) where `A` has an anonymous class: `anonymousElements[-1]` throws ArrayIndexOutOfBoundsException | only 1 <= n <= count selects an element; any other number finds nothing (null) | not executed | ClassLookup.FindInnerClassAsWritten, ClassLookup.ZeroSegmentThrows | ClassLookup.FindInnerClass |
