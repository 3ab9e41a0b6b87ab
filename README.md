# glow registry resolver, modelled in Dafny

This project models the core of glow, the generator of Go bindings for
OpenGL. Glow reads the Khronos XML API registry (`gl.xml`) and resolves, for
one API and version, the commands, enums and typedefs that a generated Go
package exports. The model covers:

- **Declaration parsing** (`spec.go`, module `SpecParse`; `parser.go`,
  module `Parser`). Command, parameter and typedef declarations arrive as
  sequences of XML tokens: character data and start or end elements. Each
  scanner is a `Step`/`Run` function over the tokens, plus a method with the
  Go loop, proved equal to that function. Lemmas then state what the
  scanners promise: where the name comes from, what enters the C
  definition, how pointer levels are counted, and which elements are errors.
- **Lookup with API fallback and package resolution** (`spec.go`, module
  `Spec`). `ToPackage` is a class method over a `Package` whose function
  and enum maps it updates. It works in three steps:
  - the feature replay in registry order;
  - the overlay of the two whitelisted extensions;
  - the typedef closure through the `requires` links, written into an
    array at each typedef's ordinal and then compacted in place.

  The contracts tie each loop to a specification function. The lemmas
  characterise those functions: which names survive, which entries they
  hold, and that the typedefs are exactly the ones reached, in ordinal
  order.
- **The older registry reader** (`parser.go`, module `Parser`). This
  covers:
  - its own signature and typedef scanners and `findEnum`;
  - the four add and remove helpers, which mutate every targeted package
    in a sequence of `Package` objects;
  - the two loops of `ParseSpecFile`, which create packages and then
    replay features;
  - the feature option (`ParseFeatureList`, `HasFeature`) and
    `commandsToFunctions`.
- **Versions** (`version.go`, module `Versions`). Parsing, comparison with
  the "all" wildcard, and printing.
- **Type mapping** (`type.go`, module `Types`), the records of
  `functions.go` and `enums.go` (modules `Functions`, `Enums`), and the
  utilities of `util.go` (module `Util`). The utilities cover prefix
  trimming, renaming, `CamelCase`, length strings, and the writer that
  drops blank lines. The writer is a class whose buffer and output are
  strings.
- **Packages** (`package.go`, module `Packages`). The whitelist filter and
  the queries used by the templates.
- **Documentation** (`doc.go`, module `DocIndex`; `docs.go`, module `Docs`).
  This covers:
  - URL building;
  - the lookup by binary search over an array of reference pages;
  - annotating packages;
  - the index filter;
  - copying purposes onto functions.

Support modules: `Wrappers` holds `Option` and `Result`. `Text` holds the
parts of Go's `strings` and `strconv` that the code calls, such as
`Split`, `Trim`, `Atoi`, `ParseInt` and `Replace`, each with the lemmas
the proofs need. The source files come from different snapshots of the
repository, so each file is its own module with its own records.

Where the code and its surrounding description disagree, the model
follows the code:

- `parseSignature` does not decay arrays to pointers.
- `ToPackage` applies removals even for the "all" version.
- There is no profile scoping and no force-include of extensions.
- A command that an extension offers and the package already holds keeps
  its stored entry. The code appends the extension name to a copy and
  never writes that copy back.
- `SpecType.Parse` reports an unexpected end element with the message
  "Wrong start element".

## Model

| member | source | states |
|---|---|---|
| Versions.ParseVersion | version.go:15-34 | "all" gives the pseudo-version (-1, -1); any other text is accepted exactly when it splits on '.' into two parts that Atoi accepts, and then those are the major and minor numbers; text without exactly one dot is an error |
| Versions.Compare | version.go:36-53 | the result is -1, 0 or 1; 0 whenever either side is the "all" pseudo-version; otherwise negative exactly when the pair is lexicographically smaller and 0 exactly when the versions are equal |
| Versions.VersionString | version.go:60-65 | the text is "all" exactly for the pseudo-version |
| Versions.IsAll | version.go:55-58 | the value parsed from "all" is the pseudo-version, and no version with a non-negative major number is |
| Versions.CompareAntisymmetric | version.go:39-53 | swapping the arguments negates the result, and every version compares equal to itself |
| Versions.CompareTransitive | version.go:39-53 | on concrete versions "not after" is transitive |
| Versions.ParseOfString | version.go:16-65 | parsing the printed form of any version with a non-negative major number gives that version back |
| Versions.ParseAccepted | version_test.go:13-18 | single-digit "m.n" texts parse to (m, n) and "all" to (-1, -1) |
| Versions.ParseRejected | version_test.go:19-22 | "0.", "", "." and "a" are rejected |
| Functions.CName | functions.go:17-20 | the C-safe name of a parameter is its own name |
| Functions.GoName | functions.go:22-25 | a parameter named after a reserved Go word gets the "gl" prefix, any other keeps its name, and the result is never reserved |
| Types.Pointers | type.go:143-145 | one '*' per level of indirection and nothing else |
| Types.TypeString | type.go:21-23 | the name, then one '*' per level, then the raw C text in brackets, and nothing else |
| Types.IsVoid | type.go:25-28 | a void type has no asterisks, is no debug callback, and its Go spelling is its cgo name |
| Types.IsDebugProc | type.go:30-33 | a debug callback type is neither a mapped scalar nor void, and its Go type is DebugProc |
| Types.CType | type.go:35-38 | the C type is exactly the text that String shows in brackets |
| Types.GoCType | type.go:40-46 | the cgo spelling starts with one '*' per level, then `C.`, then `C.struct_` for a struct type |
| Types.GoType | type.go:48-115 | the Go spelling is never empty, and outside the debug callbacks and void at levels 1 and 2 it starts with one '*' per level |
| Types.ConvertGoToC | type.go:117-133 | every conversion ends with the Go value followed by at most two closing parentheses, and is a cast starting with "(" unless the value is void |
| Types.ConvertCToGo | type.go:135-141 | a GLboolean becomes the value compared with TRUE; anything else is the value converted to its Go type |
| Types.IsVoidExactly | type.go:25-33 | void means "void" or "GLvoid" with no indirection, and no debug callback type is void |
| Types.GoTypeIsPointersThenBase | type.go:48-115 | outside void and the debug callbacks, the Go type is one '*' per level in front of the level-0 spelling: the mapped scalar name, or the cgo name |
| Types.GoCTypeIsPointersThenBase | type.go:41-47 | the cgo spelling is one '*' per level of indirection in front of the cgo base name: `C.struct_` plus the tag for a struct, `C.` plus the name otherwise |
| Types.GoTypeOfVoid | type.go:87-95 | void at level 1 is unsafe.Pointer, at level 2 *unsafe.Pointer, and at any other level falls through to the cgo name |
| Types.GoTypeOfDebugProc | type.go:110-112 | every debug callback type is DebugProc, whatever its indirection |
| Types.GoCTypeOfStruct | type.go:40-46 | a "struct X" type is spelled C.struct_X behind its asterisks |
| Types.ConvertGoToCCases | type.go:117-133 | void values pass through, a plain GLboolean goes through boolToInt, and other pointers are cast through unsafe.Pointer to the cgo type |
| Types.ConvertCToGoCases | type.go:135-141 | a GLboolean is compared with TRUE; anything else is converted to its Go type |
| Util.TrimGLCmdPrefix | util.go:28-39 | the result is a suffix of the name: without "gl" when the name starts with it, else without "wgl" when it starts with that, else the name itself |
| Util.TrimGLCmdPrefixOfGlx | util.go:29-34 | a "glx" name loses only "gl", because the "gl" test comes first |
| Util.TrimGLCmdPrefixExamples | util_test.go:10-13 | "glTest" and "wglTest" become "Test"; "eglTest" is left alone |
| Util.EnumPrefix | util.go:44-53 | the recognised API prefix is a prefix of the name |
| Util.TrimGLEnumPrefix | util.go:41-58 | the result is the name or the name without its API prefix; a name without a prefix is unchanged; the prefix is dropped only when what remains does not start with a digit |
| Util.TrimGLEnumPrefixExamples | util_test.go:15-19 | "GL_TEST", "WGL_TEST" and "GLX_TEST" become "TEST"; "GL_0TEST" and "EGL_TEST" stay as they are |
| Util.ParseLenString | util.go:60-70 | the kind is never unknown; it is COMPSIZE exactly for names with that prefix, a value exactly when the text is a 32-bit decimal, else a reference to the parameter named by the text; unused fields keep their zero values |
| Util.ParseLenStringOfCompSize | util.go:61-64 | the argument list of COMPSIZE(...) comes back unchanged |
| Util.ParseLenStringOfValue | util.go:65-68 | every 32-bit integer written in decimal is read back as that constant length |
| Util.ParseLenStringOfName | util.go:69 | a name that is not a number and not COMPSIZE is a parameter reference |
| Util.RenameIfReservedCWord | util.go:72-79 | every word, "near" and "far" included, comes back unchanged |
| Util.RenameIfReservedGoWord | util.go:81-88 | the six clashing Go words get a "gl" prefix; every other word is unchanged |
| Util.RenameIfReservedGoWordIsSafe | util.go:81-88 | the renamed word is never one of the six clashing words |
| Util.ToTitle | util.go:101 | ASCII lower-case letters become upper-case; every other character is unchanged |
| Util.CamelChar | util.go:94-105 | the mapping writes nothing exactly for '_' and never writes '_' |
| Util.CamelSpec | util.go:90-107 | the camel-cased name has no '_' and is shorter by exactly the number of underscores |
| Util.CamelCase | util.go:90-107 | the loop computes the camel-cased name of its input |
| Util.CamelSpecPrefix | util.go:92-106 | camel-casing a prefix gives a prefix of the result |
| Util.CamelSpecChar | util.go:94-105 | each character other than '_' lands at its position less the underscores before it, title-cased when it is first or follows '_' |
| Util.CamelSpecAfterUnderscore | util.go:90 | "a_b" camel-cases to the camel case of "a" followed by that of "b" |
| Util.CamelSpecWord | util.go:90 | a word without '_' keeps its letters with the first title-cased |
| Util.IsBlank | util.go:120-129 | the scan reports blank exactly when every character is white space or '/' |
| Util.FirstLine | util.go:139 | the line read is a non-empty prefix that ends in its only '\n' |
| Util.Pending | util.go:149-152 | the text kept after the last complete line holds no '\n' |
| Util.NonBlank | util.go:142 | the forwarded lines are lines of the input and none is blank |
| Util.LinesAreLines | util.go:139-141 | every complete line ends in its only '\n' |
| Util.LinesThenPending | util.go:138-152 | the complete lines followed by the kept text are the whole buffered text |
| Util.ForwardedStep | util.go:139-148 | one loop step forwards the first line unless it is blank and treats the rest the same way |
| Util.BlankLineStrippingWriter.constructor | util.go:116-118 | a new writer has an empty buffer and has forwarded nothing |
| Util.BlankLineStrippingWriter.Write | util.go:131-158 | the output grows by exactly the non-blank complete lines of the buffer and `p`, in order; the buffer keeps only the trailing partial line; 0 is returned |
| Util.ForwardedStepFrom | util.go:138-148 | the loop invariant of Write survives one line |
| Util.ForwardLines | util.go:137-156 | the read-line loop appends to the output exactly the non-blank complete lines of the buffer, in order, and leaves the trailing partial line, which holds no line break |
| Util.LinesAppend | util.go:133-152 | more text can only complete the pending line: the lines of the longer text are the old lines followed by those of the pending part and the new text |
| Util.TwoWritesAsOne | util.go:131-158 | two writes forward the same text and leave the same buffer as one write of both parts |
| Packages.FilterMap | package.go:111-134 | an empty whitelist keeps the table as it is; otherwise exactly the listed names stay, each with its old entry |
| Packages.VersionWithoutDot | package.go:36 | removing the dot from a printed version leaves its two numbers side by side ("all" stays "all") |
| Packages.Package.constructor | package.go:14-25 | a package holds the name, API, version, profile, template directory, typedefs, enums and functions it is given |
| Packages.Package.UniqueName | package.go:34-38 | the name is the API, then the profile, then the version without its dot |
| Packages.Package.Filter | package.go:111-134 | the enums and functions become their whitelist-filtered tables; nothing else changes |
| Packages.KeepListed | package.go:115-131 | the delete loop over one table, with a non-empty whitelist, leaves exactly the whitelist-filtered table |
| Packages.Package.HasRequiredFunctions | package.go:100-109 | true exactly when some function of the package is required |
| Packages.Package.HasDebugCallbackFeature | package.go:86-98 | true exactly when some parameter of some function has a debug callback type |
| Packages.FilterMapIdempotent | package.go:111-134 | filtering twice with the same whitelist is filtering once |
| Packages.FilterMapKeeps | package.go:115-122 | with a non-empty whitelist a name survives exactly when it was present and is listed |
| Packages.FilterMapCompose | package.go:111-134 | two non-empty whitelists in turn keep exactly the names listed in both |
| Docs.OneLine | docs.go:43 | the text keeps its length with every line break, and nothing else, turned into a space |
| Docs.Documented | docs.go:37-46 | the same functions; each whose C name has an entry gets that entry as its documentation, the others are unchanged |
| Docs.AddDocs | docs.go:37-46 | the package's functions become their documented table; nothing else of the package changes |
| Docs.DocumentAll | docs.go:38-45 | the loop over the functions, in any order, gives every function that has an entry its one-line documentation and leaves the others alone |
| Docs.DocumentedText | docs.go:40-44 | a documented function's text has no line break and is as long as its entry |
| Docs.DocumentedIdempotent | docs.go:37-46 | adding the same documentation twice is adding it once |
| Docs.Fill | docs.go:48-61 | the loop over the pages computes the name-to-purpose table of the pages in order |
| Docs.AddPage | docs.go:56-58 | the loop over one page's names stores that page's purpose under each of them on top of what was there |
| Docs.FillSpecKeys | docs.go:56-58 | a name has documentation exactly when some page lists it |
| Docs.FillSpecLastWins | docs.go:51-59 | a name's documentation is the purpose of the last page that lists it |
| DocIndex.ManVersion | doc.go:50-53 | "2" below major version 3, otherwise the decimal digits of the major version |
| DocIndex.MakeGLDocUrl | doc.go:57-63 | the manual root followed by the edition |
| DocIndex.MakeCmdDocUrl | doc.go:49-55 | the command's page below the root of its edition, ending in the command name and ".xml" |
| DocIndex.EarlyVersionsShareManual | doc.go:50-53 | every major version below 3 gets the second edition's URLs |
| DocIndex.Swap | doc.go:70 | pages i and j trade places, nothing else moves, and the pages stay a permutation |
| DocIndex.Less | doc.go:71 | page i sorts before page j only when j does not sort before i, so the two base names differ |
| DocIndex.Snapshot | doc.go:40-43 | the contents of each edition's pages, edition by edition |
| DocIndex.SearchFrom | doc.go:79-81 | the bisection stays within its range |
| DocIndex.SearchIndex | doc.go:79-81 | the search index lies between 0 and the number of pages |
| DocIndex.Search | doc.go:79-81 | the bisection loop on the array computes the search index |
| DocIndex.SearchFromBoundary | doc.go:79-81 | whatever the order of the pages, the page at the index (if any) does not sort before the command and the page before it does |
| DocIndex.SearchIndexSorted | doc.go:71-81 | on pages sorted by base name, exactly the pages before the index sort before the command name |
| DocIndex.FindIn | doc.go:79-94 | a page found has a base name that is a prefix of the command name and is the page at the index or the one before it; an index past the end is an error; every error is the not-found message |
| DocIndex.FindCmdSpec | doc.go:73-98 | no edition with the effective major version is the version-not-found error; a found page has a base name that is a prefix of the command name and comes from the lookup in an edition with that major version |
| DocIndex.FindCmdSpecFirst | doc.go:77-95 | the first edition with the effective major version decides the result: it is that edition's page lookup, found or not found |
| DocIndex.FindInArray | doc.go:79-94 | the lookup on the array computes the one-edition lookup |
| DocIndex.FindCmd | doc.go:73-98 | the loop over the editions computes the lookup on their current contents |
| DocIndex.FindCmdVersionOne | doc.go:74-76 | major version 1 is looked up as version 2 |
| DocIndex.FindInAllBefore | doc.go:82-84 | when every page sorts before the command name the lookup fails without testing the last page |
| DocIndex.FindInExact | doc.go:79-87 | on sorted pages a page whose base name is the command name is found |
| DocIndex.Annotated | doc.go:102-107 | the same functions with the same commands and flags; a function whose lookup fails is unchanged |
| DocIndex.AnnotatedIdempotent | doc.go:100-109 | annotating twice is annotating once |
| DocIndex.AnnotatePackages | doc.go:100-109 | every package's functions become their annotated table for the package's major version; only the functions field of the packages may change |
| DocIndex.AnnotateOne | doc.go:102-107 | the inner loop turns one package's functions into their annotated table and changes no other field |
| DocIndex.AnnotateFunction | doc.go:103-106 | a function gets the documentation line of its page when the lookup succeeds and is left alone otherwise; its name and requirement never change |
| DocIndex.KeptFiles | doc.go:127-140 | the index loop keeps at most one page per entry |
| DocIndex.ParseDocIndex | doc.go:127-140 | the loop over the index entries computes the kept pages in index order |
| DocIndex.KeptFilesMembers | doc.go:128-139 | a page is kept exactly when its entry starts with "gl" but not "glu" or "glX" and its base name is the entry without ".xml" and "gl" |
| DocIndex.RefBaseNameOf | doc.go:135-137 | an entry "gl" + name + ".xml" whose name does not start with 'u' or 'X' is kept under that name |
| Parser.ParseSignature | parser.go:151-217 | the token loop computes the scan of the declaration fragment, token by token, stopping at the first error |
| Parser.WrongElementFails | parser.go:198-213 | any start or end element other than ptype and name, anywhere in the fragment, makes the parse fail |
| Parser.SigRunAppend | parser.go:158-215 | scanning two fragments in turn is scanning their concatenation |
| Parser.UnknownWords | parser.go:192-197 | the first unrecognised word names the type; a second is an "Unknown" error quoting it |
| Parser.NameElement | parser.go:167-210 | the trimmed text inside name, without its GL prefix, becomes the name and the type is untouched |
| Parser.PtypeElement | parser.go:167-208 | the trimmed text inside ptype becomes the type name |
| Parser.StarWord | parser.go:184-189 | "*" sets pointer depth 1, "**" and "*const*" set 2 |
| Parser.PointerType | parser.go:171-189 | a ptype followed by an asterisk word gives that type name at that depth |
| Parser.PointerDeclaration | parser.go:151-217 | ptype, asterisks, then name declares the trimmed name as a non-const type of that depth |
| Parser.ConstVoidWord | parser.go:180-183 | "const void *" makes the type a const void pointer of depth 1 |
| Parser.ConstVoidPointer | parser.go:151-217 | "const void *" followed by a name declares that name as a const void pointer |
| Parser.ParseType | parser.go:101-137 | the token loop computes the typedef scan of the entry, stopping at the first error |
| Parser.TdRunOk | parser.go:119-133 | a typedef parses exactly when its only elements are name and apientry |
| Parser.TdRunSpelled | parser.go:114-123 | a typedef that parses has as C definition all its text, with APIENTRY for each apientry element, and keeps its comment and API |
| Parser.ParseTypedefs | parser.go:139-149 | the loop computes all typedefs in order, or the first entry's error |
| Parser.TypeDefsOfErr | parser.go:141-145 | the first entry that fails decides the error |
| Parser.TypeDefsOfOk | parser.go:139-149 | the typedefs parse exactly when every entry does, and then each typedef is its entry's parse at its position |
| Parser.CommandsToFunctions | parser.go:234-254 | the loops compute the function table of the commands |
| Parser.ParsedParamsFrom | parser.go:241-249 | every kept parameter is the parse of one of the fragments, none is made up, and none is lost when all parse |
| Parser.FunctionsOfLast | parser.go:236-251 | a name is in the table exactly when some command's prototype parses to it, and it holds the function of the last such command |
| Parser.FindEnum | parser.go:256-265 | the loops compute the value and group of the first enum with the name, or two empty strings |
| Parser.FirstValueAt | parser.go:258-262 | the first enum of a block with the name gives the value |
| Parser.FirstValueNone | parser.go:258-262 | a block without the name gives nothing |
| Parser.EnumLookupFirst | parser.go:256-263 | the first enum with the name, blocks in order, decides the value and the group |
| Parser.EnumLookupMissing | parser.go:264 | without an enum of the name the lookup gives two empty strings |
| Parser.WithEnumsAt | parser.go:277-283 | after adding, a listed name holds its entry: the trimmed name with the value and group of its first definition; other names keep their entries; no other name appears |
| Parser.WithEnumsTwice | parser.go:277-283 | adding the same enums twice is adding them once |
| Parser.WithFunctionsAt | parser.go:313-320 | after adding, a listed key holds the table's function; other keys keep theirs; no other key appears |
| Parser.WithFunctionsTwice | parser.go:313-320 | adding the same commands twice is adding them once |
| Parser.Package.constructor | parser.go:365-371 | a new package is named after its API and has the version, the shared typedefs and empty tables |
| Parser.Package.AddEnumsTo | parser.go:277-283 | the package's enums become the table with the listed entries added |
| Parser.Package.RemoveEnumsFrom | parser.go:297-301 | the package's enums lose exactly the listed names; absent names are skipped |
| Parser.Package.AddCommandsTo | parser.go:313-320 | the package's functions become the table with the listed commands added under their trimmed names |
| Parser.Package.RemoveCommandsFrom | parser.go:332-339 | the package's functions lose exactly the listed trimmed names; absent names are skipped |
| Parser.AddEnums | parser.go:267-285 | every package with the API and a version not before the feature's gains the entries; every other package keeps its enums |
| Parser.RemoveEnums | parser.go:287-303 | every targeted package loses the names; every other package keeps its enums |
| Parser.AddCommands | parser.go:305-322 | every targeted package gains the commands; every other package keeps its functions |
| Parser.RemoveCommands | parser.go:324-341 | every targeted package loses the commands; every other package keeps its functions |
| Parser.Collect | parser.go:418-425 | a successful list has one value per result |
| Parser.CollectErr | parser.go:418-422 | once a prefix fails, the whole list fails with the same error |
| Parser.CollectOk | parser.go:418-425 | the list succeeds exactly when every result does, and then holds each value at its position |
| Parser.CollectFirstErr | parser.go:419-421 | a failing list reports the error of its first failing result |
| Parser.VersionResults | parser.go:417-418 | one result per version string |
| Parser.ParseVersions | parser.go:416-424 | the loop computes the versions of the strings, or the first one's error |
| Parser.ParseFeatureList | parser.go:405-428 | the loops compute the entries of the option, or its first error |
| Parser.FeatureOfNoColon | parser.go:412-415 | a segment without ':' is rejected with the whole option quoted in the message |
| Parser.FeatureOfOk | parser.go:412-425 | a segment with ':' is accepted exactly when every comma-separated version after the first ':' parses; the entry is then the text before that ':' with at least one version, each the parse of its string |
| Parser.FeatureListOk | parser.go:405-428 | the option parses exactly when it is not empty and every '|'-separated segment is accepted; it then holds one entry per segment in order |
| Parser.HasFeature | parser.go:430-441 | true exactly when some entry with the name lists a version comparing equal to the one asked about |
| Parser.OffersAll | parser.go:430-441 | asked about the "all" pseudo-version, an option offers exactly the names it lists |
| Parser.EnumsListedAt | parser.go:384-386 | a name is listed exactly when some block lists it |
| Parser.EnumsAddedAt | parser.go:381-383 | after the require blocks, a listed name holds its entry, other names keep theirs, and no other name appears |
| Parser.FunctionsAddedAt | parser.go:387-389 | after the require blocks, a listed command holds the table's function, other keys keep theirs, and no other key appears |
| Parser.FeatureOnAt | parser.go:381-392 | for a targeted package, an enum or command is there after the feature exactly when it was there or is required, and is not removed; a required entry holds its new value |
| Parser.RemoveBoth | parser.go:384-386 | removing two sets of names in turn is removing their union |
| Parser.ReplayEnums | parser.go:381-386 | targeted packages get the required enums added and then the removed ones dropped; others keep their enums |
| Parser.ReplayCommands | parser.go:387-392 | targeted packages get the required commands added and then the removed ones dropped; others keep their functions |
| Parser.ReplayFeature | parser.go:381-392 | every package's tables become the effect of the feature on them |
| Parser.Numbers | parser.go:357-359 | one version number per feature |
| Parser.CreatedNext | parser.go:357-374 | one more feature adds a package exactly when the option offers its API at its version |
| Parser.CreatedAt | parser.go:357-374 | a package header is created exactly when some feature has that API and version and the option offers it |
| Parser.CreateFor | parser.go:363-373 | a new, empty package goes at the end exactly when the option offers the feature's API at its version |
| Parser.CreatePackages | parser.go:357-374 | one fresh, empty package per offered feature, in registry order, or the first version number's error |
| Parser.ReplayedNext | parser.go:376-393 | one more replayed feature applies its effect to the tables so far |
| Parser.ReplayFeatures | parser.go:376-393 | every package's tables become the replay of all features in registry order; API, version, name and typedefs are unchanged |
| Parser.ReplayAt | parser.go:377-392 | one feature applied to every package extends each package's replay by that feature |
| Parser.BuildPackages | parser.go:357-393 | a version error is returned as is; otherwise one fresh package per offered feature holding the replay of every feature over empty tables |
| Parser.ParseSpecFile | parser.go:343-396 | a typedef error comes first, then a version error; otherwise the packages are those of the offered features, each built by the replay |
| SpecParse.ParseSignature | spec.go:176-225 | the token loop computes the scan of the signature fragment, stopping at the first error |
| SpecParse.SigToken | spec.go:192-222 | one token of the signature loop does what the scan step says: text fills the name, type or C definition, an unknown start element is an error |
| SpecParse.SigRunOk | spec.go:208-215 | a signature parses exactly when every start element in it is ptype or name |
| SpecParse.SigRunAppend | spec.go:184-223 | scanning two fragments in turn is scanning their concatenation |
| SpecParse.SigStepDefinition | spec.go:192-222 | one token that scans adds its text to the C definition unless it is inside name, adds its asterisks to the pointer level only outside both elements, and moves the scanner in or out of the elements |
| SpecParse.SigRunDefinition | spec.go:184-223 | over any fragment that scans, the C definition grows by all the text outside name and the pointer level by the asterisks outside both elements |
| SpecParse.SignatureDefinition | spec.go:176-225 | for any signature that parses, the C definition is all its text outside name and the pointer level the number of asterisks outside both elements |
| SpecParse.PlainText | spec.go:199-207 | plain text goes into the C definition verbatim, adds one pointer level per '*', and makes the type void when it mentions void |
| SpecParse.NameElement | spec.go:193-220 | the trimmed text inside name becomes the name and never enters the C definition |
| SpecParse.PtypeElement | spec.go:193-218 | the trimmed text inside ptype becomes the type name and its raw text joins the C definition |
| SpecParse.TextThenName | spec.go:192-222 | plain text then a name element: the name, void detection, asterisk count and C definition of the two together |
| SpecParse.PtypeThenName | spec.go:192-222 | ptype, plain text, then name: the type name unless the text mentions void, the asterisks of the text, and the C definition without the name |
| SpecParse.TypedDeclaration | spec.go:176-225 | the usual parameter shape declares the trimmed name, the ptype's name unless the text after it mentions void, one pointer level per '*' outside the elements, and all text but the name as C definition |
| SpecParse.UntypedDeclaration | spec.go:176-225 | without a ptype the type comes from the plain text alone |
| SpecParse.ParseTypedef | spec.go:257-297 | the token loop computes the typedef scan of the entry, stopping at the first error |
| SpecParse.TdRunText | spec.go:272-293 | a typedef parses exactly when it holds only text, name and apientry start elements and end elements; its C definition is then all its text with APIENTRY for each apientry |
| SpecParse.TdRunKeepsName | spec.go:258-278 | without a name element the typedef keeps its name attribute |
| SpecParse.TypedefNamed | spec.go:257-297 | "a<name>n</name>b" names the typedef n and spells it a + n + b |
| SpecParse.ParseTypedefs | spec.go:241-255 | the loop computes the typedef table, or the first entry's error |
| SpecParse.TypedefTableErr | spec.go:244-247 | an error in the first entries is the error of the whole table |
| SpecParse.TypedefTableOk | spec.go:241-255 | the table exists exactly when every entry parses |
| SpecParse.TypedefTableKeys | spec.go:248-252 | every entry's (name, api) key is in the table |
| SpecParse.TypedefTableEntries | spec.go:243-252 | the entry under a key comes from the last registry position with that key: its ordinal is that position and its typedef and requirement are that entry's |
| SpecParse.TypedefTableUniqueOrdinals | spec.go:249-252 | different keys never share an ordinal |
| SpecParse.BlockNames | spec.go:323-338 | a name is collected exactly when some block lists it |
| SpecParse.AppendAll | spec.go:324-326 | the loop appends the names in order |
| SpecParse.ParseAddRem | spec.go:316-340 | the added commands and enums are those of the require blocks, the removed ones those of the remove blocks, each in document order |
| SpecParse.ExtensionsOf | spec.go:342-356 | the list is an error exactly when some extension has a remove block; otherwise one entry per extension with its name, its supported pattern and what its require blocks add |
| SpecParse.ParseExtensions | spec.go:342-356 | the loop computes the extension list or its error |
| Spec.Get | spec.go:358-372 | an entry is found exactly when one exists for the API or for every API; the API's own entry wins |
| Spec.GetPrefersApi | spec.go:358-372 | an API-specific entry shadows the generic one, and the generic one serves every API without its own |
| Spec.HasPackage | spec.go:429-437 | true exactly when some feature is for the API at a version comparing equal to the one requested |
| Spec.OffersAll | spec.go:430-437 | the "all" version is offered exactly when the API has any feature |
| Spec.Resolved | spec.go:463-465 | the added names map to their entries found with fallback |
| Spec.RequiredFunctions | spec.go:456-462 | each added command maps to its function found with fallback, required and without extensions |
| Spec.Applicable | spec.go:451-455 | the features that take part are exactly those for the API whose version is not after the package's |
| Spec.ReplayIsApplicable | spec.go:451-473 | skipped features have no effect: the replay applies, in registry order, exactly the features that take part |
| Spec.ForApi | spec.go:453 | the features kept are exactly those of the API |
| Spec.ApplicableAll | spec.go:453 | with the "all" version every feature of the API takes part, removals included |
| Spec.ReplayKeys | spec.go:451-473 | a name is in the replayed package exactly when some feature that takes part adds it and neither it nor a later one that takes part removes it |
| Spec.ReplayValues | spec.go:456-465 | every replayed function is the registry's, required and without extensions; every replayed enum is the registry's |
| Spec.ReplayResolvesInit | spec.go:451-473 | a prefix of a resolvable feature list is resolvable |
| Spec.OptionalFunctions | spec.go:490-495 | each command an extension brings maps to its function, optional and marked with the extension |
| Spec.OverlayResolvesInit | spec.go:476-501 | a prefix of a resolvable extension list is resolvable |
| Spec.OverlayKeeps | spec.go:486-490 | the overlay never drops or changes a function already selected, and never drops an enum |
| Spec.OverlayNew | spec.go:476-497 | a function the overlay brings in is optional, carries exactly one whitelisted extension that contributes and lists it, and is the registry's function |
| Spec.ChainAnyName | spec.go:374-385 | in a table without requirement cycles the chain from any name ends |
| Spec.ChainInTable | spec.go:375-383 | a chain visits entries of the table only |
| Spec.ClosureInTable | spec.go:374-385 | the closure holds entries of the table only |
| Spec.ClosureAdd | spec.go:504-509 | the closure of one more name adds that name's chain |
| Spec.MarkedAdd | spec.go:380 | writing one more entry at its ordinal keeps the buffer holding exactly the marked entries |
| Spec.SelectRequired | spec.go:374-385 | the buffer afterwards holds exactly the entries marked before and those of the chain from the name, each at its ordinal |
| Spec.CompactPositions | spec.go:510-517 | the compacted typedefs come from the held positions, ascending, each once, and every held position is listed |
| Spec.CompactInPlace | spec.go:510-517 | the front of the buffer holds the present typedefs in their order, and the count is their number |
| Spec.CompactAllPresent | spec.go:510-517 | a buffer that holds a typedef in every slot compacts to itself |
| Spec.CompactMarkedEntries | spec.go:503-517 | every reached typedef appears, in ascending ordinal order |
| Spec.CompactMarkedOnly | spec.go:503-517 | only reached typedefs appear |
| Spec.RootsAdd | spec.go:504-509 | one more function adds its return and parameter type names to the roots |
| Spec.ParamNamesNext | spec.go:506-508 | one more parameter adds its type name |
| Spec.SelectName | spec.go:505-507 | one selectRequired call extends the buffer by the chain of the name |
| Spec.SelectFunction | spec.go:505-508 | the buffer gains the chains of the function's return and parameter type names |
| Spec.SelectAll | spec.go:503-509 | the buffer holds exactly the typedefs reached from the type names of all functions, each at its ordinal |
| Spec.Package.constructor | spec.go:441-448 | a new package is named after its API, has the version and holds nothing |
| Spec.Package.AddRequired | spec.go:456-462 | the functions gain each command as required, without extensions |
| Spec.Package.AddEnums | spec.go:463-465 | the enums gain or overwrite each name with the registry's enum |
| Spec.Package.RemoveCommands | spec.go:466-468 | the functions lose exactly the names; absent names are skipped |
| Spec.Package.RemoveEnums | spec.go:469-471 | the enums lose exactly the names; absent names are skipped |
| Spec.Package.ReplayFeature | spec.go:456-471 | the selection becomes the feature's effect: adds first, removals after |
| Spec.Package.OverlayExtension | spec.go:486-500 | a missing command is added as optional with the extension; a held one stays as stored; the enums are added or overwritten |
| Spec.OverlayCommands | spec.go:486-497 | each command the package lacks becomes an optional function of the extension; a command it already holds keeps its stored entry |
| Spec.ReplayStep | spec.go:451-473 | one more feature applies its effect exactly when it takes part |
| Spec.OverlayStep | spec.go:476-501 | one more extension applies its effect exactly when it contributes |
| Spec.ReplayFeatures | spec.go:450-473 | the feature loop leaves the package holding the replay of the registry's features |
| Spec.OverlayExtensions | spec.go:475-501 | the extension loop leaves the package holding the overlay of the registry's extensions on what it held |
| Spec.SelectTypedefs | spec.go:503-517 | the typedefs are the compaction of a buffer holding exactly the closure of the functions' type names |
| Spec.ToPackage | spec.go:439-520 | the new package is named after the API, holds the replay followed by the overlay, and its typedefs are exactly those reached from its functions' types, in ordinal order |

## Left out

- XML decoding: fragments arrive already tokenized, so decoder errors and byte-level input are not modelled, and neither is the raw fragment text that some error messages quote.
- File and network I/O is not modelled. This covers `readSpecFile` (in both `spec.go` and `parser.go`), `readDocFile`, `readXmlFileNonStrict`, `parseDocFile`, `parseDocs`, `ParseAllDocs`, `DownloadDocs`, `GeneratePackage`, `generateFile` and `importPathToDir`. The loops that follow these reads are modelled over data that has already been read.
- `NewSpecification`, `parseFunctions`, `parseEnums` and `parseFeatures` in `spec.go` are not modelled. The tables they build are the input of `ToPackage`, given as a `Specification` value.
- Progress and diagnostic printing (`fmt.Println`, `fmt.Printf`) has no effect on the results and is left out.
- `makeExtenionSpecDocUrl` is not modelled: nothing in the core calls it.
- The templates, `gofmt`, download.go, main.go, overload.go, glt/glt.go and examples/cube/cube.go are not part of this model.
- Go maps iterate in random order. The loops over maps pick their next key nondeterministically, and their contracts hold for every order.
- Spec.ToPackage: the extension pattern match (`regexp.MatchString`) is a parameter `matches`, so regular expressions are not modelled.
- Spec.ToPackage: the caller must guarantee three things. Every looked-up name must resolve, because the source dereferences the lookup without a check. The `requires` links must form no cycle, because `selectRequired` has no cycle guard. The ordinals must index the buffer.
- Parser.AddCommands: the source stops the program (`log.Fatal`) when a targeted package needs a command the table lacks. The model excludes that case with a precondition rather than modelling the exit.
- Parser.ParseSpecFile: the same `log.Fatal` case is excluded by its precondition.
- Parser.ReplayFeatures: the second `ParseVersion` error branch of `ParseSpecFile` (parser.go:377-380) cannot be taken, because the creation loop has already parsed every number. The model does not include that branch.
- Util.ToTitle: only ASCII letters are title-cased. Other characters, including non-ASCII letters, are left unchanged.
- Util.BlankLineStrippingWriter.Write: the wrapped writer is a string that only grows. Short writes and write errors of the buffer or the output are not modelled.
- DocIndex.FindCmd: nothing in the code sorts the pages. Sorted order is a hypothesis of the lemmas that need it (`SearchIndexSorted`, `FindInExact`), not a precondition of the lookup.
- Types.Pointers: a pointer level is a `nat`. `strings.Repeat` panics on a negative count, and the parsers only ever increase the level.
- Some test expectations are not met by the code: spec_test.go:38-55 expects array decay and plain-text base names, type_test.go:11-17 relies on a `Cast` field, and util_test.go:25 calls a `TrimAPIPrefix` that does not exist. These are not stated.
- Profiles, force-include and force-exclude extension patterns, overload application, and removal suppression for "all" do not appear in the code and are not modelled.
