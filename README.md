# Converter registration in the Python static source generator

The Python static source generator turns each `.py` file of a C# project into a
generated C# class. This project models the part of
`PythonStaticGenerator` that decides which Python.NET converters the generated
class must register in its constructor:

- the selection of the per-method lists of parameter generic types
  (`FormatClassFromMethods`: null and empty lists are dropped);
- `InjectConverters` and its local function `Process`: a depth-first,
  left-to-right walk over the generic types, which maps `IEnumerable<…>` to a
  `ListConverter<…>`, `IReadOnlyDictionary<…>` to a `DictionaryConverter<…>`
  plus the `TupleConverter` it needs internally, and `Tuple<…>` to the one
  `TupleConverter`; every other generic name throws
  `NotImplementedException("No converter for <name>")`. Each converter gets one
  `RegisterEncoder` line and one `RegisterDecoder` line, each added only when
  not already present; the result is all encoder lines, then all decoder
  lines, joined by new lines;
- the snake_case to PascalCase conversion of the file name that names the
  generated class.

Modules:

- `Results` (results.dfy): `Option`, `Result` and the `Outcome` of a walk.
- `Text` (text.dfy): `string.Join` and `string.Split(char)`, with their round trips.
- `TypeShapes` (type_shapes.dfy): the type syntax the walk sees (a generic name
  with type arguments, or any other type) and `Visit`, the order in which
  `Process` reaches the generics.
- `Dedup` (dedup.dfy): the "add unless already contained" fold and the proof that
  its result is the duplicate-free, first-seen-order list of its input.
- `ConverterResolution` (converter_resolution.dfy): the converter table, the
  required converters, the registered list and the returned text, as functions,
  with the properties of the generator's output proved about them.
- `ConverterInjection` (converter_injection.dfy): the imperative code as it runs —
  a class holding the two line lists that `Process` grows in place, the recursive
  `Process` method and `InjectConverters`, each proved equal to the functional
  model of `ConverterResolution`.
- `MethodSelection` (method_selection.dfy): the per-method lists handed to
  `InjectConverters`.
- `PascalCasing` (pascal_case.dfy): the class-name conversion.

An exception thrown by the generator is modelled as an `Err` carrying its
message. Nothing in the code catches these exceptions: the
`NotImplementedException` thrown for an unsupported generic name
(PythonStaticGenerator.cs:123) leaves `InjectConverters`,
`FormatClassFromMethods` and the loop over the `.py` files (lines 24-53), and
so does the `IndexOutOfRangeException` of `s[0]` on an empty name segment
(line 32). One unsupported generic anywhere therefore makes the whole
converter block an `Err`, and no later file is generated either.

`PascalCasing.PascalFrom`, `TypeShapes.Reaches`,
`MethodSelection.AllParameterGenerics` and `ConverterResolution.AsDecoderLine`
are independent reference definitions written for the proofs; they do not
model source lines, and the lemmas that compare the modelled functions with
them carry the rows below.

## Model

| member | source | states |
|---|---|---|
| `TypeShapes.Generics` | PythonSourceGenerator/PythonStaticGenerator.cs:157 | the `Where(…).Cast<GenericNameSyntax>()` filter; `GenericsCons` and `GenericsAppend` determine it, and `GenericsMembers` and `GenericsSize` state its membership and size |
| `TypeShapes.GenericsMembers` | PythonSourceGenerator/PythonStaticGenerator.cs:157 | the nested generics are exactly the type arguments that are generic names |
| `TypeShapes.GenericsAppend` | PythonSourceGenerator/PythonStaticGenerator.cs:157 | the filter works element by element: it keeps the arguments' order and repeats, so filtering a concatenation concatenates the filtered parts |
| `TypeShapes.GenericsCons` | PythonSourceGenerator/PythonStaticGenerator.cs:157 | an argument in front of the rest is kept, in front of the filtered rest, exactly when it is a generic name |
| `TypeShapes.GenericsSize` | PythonSourceGenerator/PythonStaticGenerator.cs:157 | the nested generics are no larger than the type arguments, which makes the recursion at line 160 terminate |
| `TypeShapes.Render` | PythonSourceGenerator/PythonStaticGenerator.cs:120-121 | the text of a type, arguments written `<A, B>`; `ExampleRenderDictionary` gives an instance and `ConverterIdentity` shows converter names tell argument lists apart |
| `TypeShapes.RenderArgs` | PythonSourceGenerator/PythonStaticGenerator.cs:120-121 | the `TypeArgumentList` text appended to a converter name, as used by `ConverterType` |
| `TypeShapes.Visit` | PythonSourceGenerator/PythonStaticGenerator.cs:113-161 | the order in which `Process` meets the generics (each one, then its nested generics, then the rest); every parameter generic is visited, so there are at least as many visits as parameters; `VisitOne` and `VisitAppend` together determine this preorder, and `VisitReaches` states which shapes it meets |
| `TypeShapes.VisitOne` | PythonSourceGenerator/PythonStaticGenerator.cs:115-161 | one shape is visited first, and then the walk descends into its nested generics, as the recursive call at line 160 does after the registrations at lines 126-155 |
| `TypeShapes.VisitReaches` | PythonSourceGenerator/PythonStaticGenerator.cs:113-161 | the walk visits a shape exactly when it is reachable from a parameter generic through generic type arguments |
| `TypeShapes.VisitAppend` | PythonSourceGenerator/PythonStaticGenerator.cs:106-109 | walking two lists one after the other visits the first list's shapes, then the second's |
| `Text.Join` | PythonSourceGenerator/PythonStaticGenerator.cs:111 | `string.Join`: the parts with the separator between neighbours; `JoinSplit`, `SplitJoin` and `JoinAvoids` relate it to `Split` |
| `Text.JoinAvoids` | PythonSourceGenerator/PythonStaticGenerator.cs:32 | a character found in neither the separator nor any part is not in the join, which keeps '_' out of a converted name |
| `Text.Split` | PythonSourceGenerator/PythonStaticGenerator.cs:32 | `string.Split('_')` yields one more piece than there are separators, and no piece holds a separator |
| `Text.JoinSplit` | PythonSourceGenerator/PythonStaticGenerator.cs:32 | joining the pieces of a split with the separator gives the string back |
| `Text.SplitJoin` | PythonSourceGenerator/PythonStaticGenerator.cs:111 | splitting a join of separator-free lines gives the lines back |
| `Dedup.AddOnce` | PythonSourceGenerator/PythonStaticGenerator.cs:129-132 | `Contains` then `Add`: the item is present afterwards, what the list held stays in place, nothing else is added, the list grows by at most one, an item already present leaves the list unchanged, and a duplicate-free list stays duplicate-free |
| `Dedup.AddAll` | PythonSourceGenerator/PythonStaticGenerator.cs:129-137 | the list after adding each item in turn with `AddOnce`; for a duplicate-free start `AddAllFirstSeen` with `FirstSeenUnique` determine it, and `AddAllAppend` splits it over concatenation |
| `Dedup.AddAllFirstSeen` | PythonSourceGenerator/PythonStaticGenerator.cs:129-137 | adding each item unless contained yields a list without duplicates, holding exactly the items seen, in the order of their first occurrence |
| `Dedup.FirstSeenUnique` | PythonSourceGenerator/PythonStaticGenerator.cs:129-137 | there is only one duplicate-free list of a sequence's items in first-seen order |
| `ConverterResolution.Supported` | PythonSourceGenerator/PythonStaticGenerator.cs:118-122 | the three keys of the switch: `IEnumerable`, `IReadOnlyDictionary` and `Tuple`; `ConverterType` and `Requirements` succeed exactly on them |
| `ConverterResolution.ConverterType` | PythonSourceGenerator/PythonStaticGenerator.cs:117-124 | a converter exists exactly for `IEnumerable`, `IReadOnlyDictionary` and `Tuple`; otherwise the error is "No converter for" and the name |
| `ConverterResolution.Requirements` | PythonSourceGenerator/PythonStaticGenerator.cs:117-155 | a visited shape requires something exactly when its name is supported, fails with "No converter for" and the name otherwise, and requires the tuple converter exactly when it is a dictionary or a tuple |
| `ConverterResolution.RequiredConverters` | PythonSourceGenerator/PythonStaticGenerator.cs:115-155 | on success every visited shape requires at least one converter; `RequiredOne` and `RequiredAppend` together determine it, order and repeats included, and `RequiredFailure`, `RequiredCovers` and `RequiredSound` state when it fails and which converters it holds |
| `ConverterResolution.RequiredOne` | PythonSourceGenerator/PythonStaticGenerator.cs:115-155 | a walk over one shape requires exactly that shape's converters |
| `ConverterResolution.Resolve` | PythonSourceGenerator/PythonStaticGenerator.cs:115-155 | the converter list after a walk that started from given converters; `ResolveCons` fixes each step of the walk, and `ResolveAppend` and `ResolveAppendOnly` state how walks compose and that they only append |
| `ConverterResolution.Resolution` | PythonSourceGenerator/PythonStaticGenerator.cs:101-110 | the converters registered for all selected lists; `ResolutionCharacterized` determines it on success and `ResolutionFailure` on failure; `ResolutionCovers` and `ResolutionSound` state which converters it holds |
| `ConverterResolution.EncoderLine` | PythonSourceGenerator/PythonStaticGenerator.cs:126 | the `RegisterEncoder` line of a converter; `EncoderLineInjective` shows distinct converters give distinct lines |
| `ConverterResolution.DecoderLine` | PythonSourceGenerator/PythonStaticGenerator.cs:127 | the `RegisterDecoder` line of a converter; `RegistrationLines` ties it to the encoder line |
| `ConverterResolution.ConverterBlock` | PythonSourceGenerator/PythonStaticGenerator.cs:101-111 | the returned text, or the thrown error; `ConverterBlockLines` and `NoGenericsNoOutput` state its properties |
| `ConverterResolution.ConverterIdentity` | PythonSourceGenerator/PythonStaticGenerator.cs:118-124 | two supported generics share a converter exactly when they have the same name and, unless they are tuples, the same rendered type arguments |
| `ConverterResolution.RequiredAppend` | PythonSourceGenerator/PythonStaticGenerator.cs:115-161 | the converters required by two visited stretches are those of the first followed by those of the second; an error in the first wins |
| `ConverterResolution.RequiredFailure` | PythonSourceGenerator/PythonStaticGenerator.cs:118-123 | requirement fails exactly when some visited shape is unsupported, with the message naming the first such shape |
| `ConverterResolution.RequiredCovers` | PythonSourceGenerator/PythonStaticGenerator.cs:126-155 | every visited shape's converter is required, and the tuple converter too for a dictionary |
| `ConverterResolution.RequiredSound` | PythonSourceGenerator/PythonStaticGenerator.cs:126-155 | every required converter is the converter of a visited shape, or the tuple converter of a visited dictionary |
| `ConverterResolution.ResolveCons` | PythonSourceGenerator/PythonStaticGenerator.cs:115-124 | an unsupported first shape aborts the walk with its error; a supported one adds its converters before the rest is walked |
| `ConverterResolution.AddRequirements` | PythonSourceGenerator/PythonStaticGenerator.cs:126-155 | one shape adds its own converter unless present, then for a dictionary the tuple converter unless present |
| `ConverterResolution.ResolveAppend` | PythonSourceGenerator/PythonStaticGenerator.cs:106-109 | walking two stretches continues from the lists the first left behind; an error in the first stops the walk |
| `ConverterResolution.ResolveAppendOnly` | PythonSourceGenerator/PythonStaticGenerator.cs:129-137 | a walk only appends: the converters registered before it stay, in place and in order |
| `ConverterResolution.FlattenAppend` | PythonSourceGenerator/PythonStaticGenerator.cs:106-109 | the per-method lists are walked as one concatenated list |
| `ConverterResolution.ResolutionFailure` | PythonSourceGenerator/PythonStaticGenerator.cs:101-164 | the registration fails exactly when an unsupported generic is reachable from some parameter, with the message naming the first one the walk meets |
| `ConverterResolution.ResolutionCovers` | PythonSourceGenerator/PythonStaticGenerator.cs:101-164 | every generic reachable from a parameter has its converter registered, and a dictionary also the tuple converter |
| `ConverterResolution.ResolutionSound` | PythonSourceGenerator/PythonStaticGenerator.cs:101-164 | every registered converter belongs to a reachable generic, or is the tuple converter of a reachable dictionary |
| `ConverterResolution.ResolutionFirstSeen` | PythonSourceGenerator/PythonStaticGenerator.cs:101-164 | the registered converters hold no duplicates, are exactly the required ones, and appear in the order of their first requirement |
| `ConverterResolution.ResolutionCharacterized` | PythonSourceGenerator/PythonStaticGenerator.cs:101-164 | a list is the registered one if and only if it is duplicate-free, holds exactly the required converters and is in first-requirement order |
| `ConverterResolution.EncoderLineInjective` | PythonSourceGenerator/PythonStaticGenerator.cs:126-127 | different converters give different encoder lines and different decoder lines |
| `ConverterResolution.LineMembership` | PythonSourceGenerator/PythonStaticGenerator.cs:129-137 | a converter's line is in a line list exactly when the converter was registered; registering appends its line |
| `ConverterResolution.RegistrationLines` | PythonSourceGenerator/PythonStaticGenerator.cs:126-137 | the encoder and decoder lists hold no duplicates, have the same length, and each decoder line is its encoder line with `RegisterDecoder` in place of `RegisterEncoder` |
| `ConverterResolution.ConverterBlockLines` | PythonSourceGenerator/PythonStaticGenerator.cs:111 | on success the text is produced, each line list is without duplicates, and when at least one converter is registered and no converter name holds a line break, splitting the text on new lines gives the encoder lines then the decoder lines back (an empty block splits to one empty line) |
| `ConverterResolution.LinesWithoutLineBreaks` | PythonSourceGenerator/PythonStaticGenerator.cs:126-127 | a registration line holds a line break only when its converter type does |
| `ConverterResolution.NoGenericsNoOutput` | PythonSourceGenerator/PythonStaticGenerator.cs:101-111 | without parameter generics the returned text is empty |
| `ConverterResolution.ExampleListOfInt` | PythonSourceGenerator/PythonStaticGenerator.cs:120 | `IEnumerable<int>` requires exactly `ListConverter<int>` |
| `ConverterResolution.ExampleRenderDictionary` | PythonSourceGenerator/PythonStaticGenerator.cs:121 | the type arguments of `IReadOnlyDictionary<string, IEnumerable<int>>` render as `<string, IEnumerable<int>>` |
| `ConverterResolution.ExampleDictionaryArguments` | PythonSourceGenerator/PythonStaticGenerator.cs:157 | the nested generics of that dictionary are `IEnumerable<int>` alone |
| `ConverterResolution.ExampleDictionaryVisit` | PythonSourceGenerator/PythonStaticGenerator.cs:157-161 | the walk visits the dictionary, then `IEnumerable<int>` |
| `ConverterResolution.ExampleDictionaryRequirements` | PythonSourceGenerator/PythonStaticGenerator.cs:139-155 | the dictionary requires its own converter, then the tuple converter |
| `ConverterResolution.ExampleListAndDictionary` | PythonSourceGenerator/PythonStaticGenerator.cs:101-164 | a function taking `IEnumerable<int>` and one taking that dictionary register the list converter once, the dictionary converter and the tuple converter, in that order |
| `ConverterResolution.ExampleUnsupported` | PythonSourceGenerator/PythonStaticGenerator.cs:123 | a parameter of an unknown generic type `Custom<int>` fails with "No converter for Custom" |
| `ConverterInjection.ConverterLists.constructor` | PythonSourceGenerator/PythonStaticGenerator.cs:103-104 | both line lists start empty |
| `ConverterInjection.ConverterLists.Register` | PythonSourceGenerator/PythonStaticGenerator.cs:126-137 | the encoder and decoder lines of a converter are appended exactly when absent, keeping both lists duplicate-free and in step |
| `ConverterInjection.Process` | PythonSourceGenerator/PythonStaticGenerator.cs:113-164 | the walk fails exactly when `ConverterResolution.Resolve` fails on the visited shapes, with the same message, and on success leaves the lists holding exactly the converters it computes |
| `ConverterInjection.InjectConverters` | PythonSourceGenerator/PythonStaticGenerator.cs:101-111 | the returned text, or the thrown error, is exactly `ConverterResolution.ConverterBlock` of the selected lists |
| `MethodSelection.ParameterGenericArgs` | PythonSourceGenerator/PythonStaticGenerator.cs:59-61 | no selected list is empty and there are no more lists than methods |
| `MethodSelection.SelectedLists` | PythonSourceGenerator/PythonStaticGenerator.cs:59-61 | a list is selected exactly when it is non-empty and some method carries it |
| `MethodSelection.SelectionKeepsGenerics` | PythonSourceGenerator/PythonStaticGenerator.cs:59-61 | dropping null and empty lists loses no parameter generic and changes no order |
| `MethodSelection.ReturnTypesIgnored` | PythonSourceGenerator/PythonStaticGenerator.cs:59-61 | the selection depends on the methods' parameter generics alone |
| `MethodSelection.NoParameterGenerics` | PythonSourceGenerator/PythonStaticGenerator.cs:59-61 | when no method has parameter generics nothing is selected and the constructor registers nothing |
| `MethodSelection.ConverterSection` | PythonSourceGenerator/PythonStaticGenerator.cs:89 | the text placed in the generated constructor is the converter block of the selected lists |
| `PascalCasing.ToUpper` | PythonSourceGenerator/PythonStaticGenerator.cs:32 | `char.ToUpperInvariant` on ASCII: a lower-case letter becomes the upper-case letter at the same position of the alphabet, any other character is kept |
| `PascalCasing.Capitalize` | PythonSourceGenerator/PythonStaticGenerator.cs:32 | the lambda `char.ToUpperInvariant(s[0]) + s.Substring(1)`: same length, first character upper-cased, the rest kept; it maps "" to "" where the lambda throws, a case `PascalCase` rules out before calling it |
| `PascalCasing.CapitalizeAll` | PythonSourceGenerator/PythonStaticGenerator.cs:32 | the `Select` of that lambda over the segments: one capitalized segment per segment |
| `PascalCasing.PascalCase` | PythonSourceGenerator/PythonStaticGenerator.cs:32 | split on '_', capitalize, join; fails only with the index-out-of-range message, and a converted name holds no '_' |
| `PascalCasing.PascalFromSegments` | PythonSourceGenerator/PythonStaticGenerator.cs:32 | split-capitalize-join agrees with the character-by-character reading of the name |
| `PascalCasing.PascalCaseByCharacter` | PythonSourceGenerator/PythonStaticGenerator.cs:32 | a converted name drops every '_' and upper-cases the first character and each character after a '_' |
| `PascalCasing.PascalFromShape` | PythonSourceGenerator/PythonStaticGenerator.cs:32 | the character-by-character reading removes exactly the underscores |
| `PascalCasing.PascalCaseShape` | PythonSourceGenerator/PythonStaticGenerator.cs:32 | a converted name holds no '_' and is shorter than the file name by the number of '_' |
| `PascalCasing.LaterSegmentEmpty` | PythonSourceGenerator/PythonStaticGenerator.cs:32 | a segment after the first is empty exactly when the name ends with '_' or holds "__" |
| `PascalCasing.PascalCaseFailure` | PythonSourceGenerator/PythonStaticGenerator.cs:32 | the conversion throws exactly on an empty name, a leading or trailing '_', or "__" |

## Left out

- `Initialize` (PythonStaticGenerator.cs:15-55): the incremental pipeline, file reading, diagnostics and `AddSource` are I/O of the compiler host; only the class-name conversion on line 32 is modelled.
- `PythonSignatureParser` and `ModuleReflection` are not part of this model; their output is taken as given (`MethodDefinition` with its parameter generic lists).
- The generated class text of `FormatClassFromMethods` (lines 63-98) is template text around the converter block; only the converter block on line 89 is modelled.
- `PythonEnvironments/CustomConverters/PyObjectExtensions.cs` (the runtime converters themselves) is not part of this model.
- Roslyn's `TypeArgumentList` text is modelled as a canonical rendering `<A, B>`; whitespace exactly as written in the signature is not kept.
- `Environment.NewLine` is modelled as "\n"; on Windows it is "\r\n".
- `PascalCasing.ToUpper`: models `char.ToUpperInvariant` on ASCII letters only; other letters are left unchanged.
- `PascalCasing.PascalCase`: the error of an empty segment is the `IndexOutOfRangeException` message as a constant; the exception's type is not kept.
- The lists that `Process` has partly filled when it throws are discarded by the caller, so `ConverterInjection.Process` states nothing about them on failure.
- Unsupported generic names are not skipped per function: the exception at line 123 leaves `InjectConverters` and the loop over files at lines 24-53, so the model makes the whole converter block an `Err`; the loop over files itself is not modelled.
- Return types are not scanned for converters, because the code reads only the parameter generic lists.
