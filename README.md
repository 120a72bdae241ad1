# AsciiDoxy core, modelled in Dafny

AsciiDoxy turns Doxygen XML into AsciiDoc documentation. This project models the parts
that decide *what* is generated and *where links point*:

- **The API reference model** (`model.dfy`, module `Model`): referable elements, type
  references, parameters, return values, throws clauses and compounds. It covers their
  value equality and hashing, the text rendering of a type reference, and the one-way
  resolution of a type reference.
- **Language traits** (`language_traits.dfy`, module `LanguageTraits`): qualifying a name
  with its parent, splitting a full name into namespace and short name around the
  nesting boundary, and building identifiers that are unique across languages.
- **The Doxygen driver** (`driver.dfy`, module `Driver`): registering elements and pending
  type references, resolving references once all files are read (plain references in
  place, inner types by appending to their parent), and normalising language tags.
- **Relative paths** (`path_utils.dfy`, module `PathUtils`): the relative path from one
  generated file to another, with a round-trip proof.
- **The generator context** (`context.dfy`, module `GeneratorContext`): the registries a
  run shares (inserted elements, links, anchors, call stack, known documents) are held
  in a `Registry` object. Each scope is a `Context` object. Contexts cover insertion with
  duplicate detection, stack traces, finding documents, and linking to documents and
  anchors from the right output document. Sub-contexts share the registry and copy the
  rest.
- **Navigation** (`navigation.dfy`, module `Navigation`): the Prev/Up/Home/Next bar and
  the multi-page table of contents with the breadcrumb branch expanded.
- **Template helpers** (`template_helper.dfy`, `python_helpers.dfy`, `java_helpers.dfy`):
  Python parameter and method rendering, dropping private members and finding
  constructors, and Java constants.

Supporting modules:

- `Common` holds Option/Result, string search and an order-keeping `Filter`, with its
  lemmas.
- `Documents` holds the document arena: documents are named by handle, and `Valid`
  states the tree shape the navigation relies on.
- `Filters` holds the insertion filter as a value.

Objects the source shares and updates in place are modelled in two ways:

- Documents, type references and elements are addressed by handle into arenas, and the
  arenas are fields of the objects that update them.
- Contexts, the registry, the driver and the progress counter are classes with
  `modifies` frames.

## Model

| member | source | states |
|---|---|---|
| `Model.NewReferableElement` | asciidoxy/model.py:50-52 | a new element has only its language set; id is absent and the other fields are empty |
| `Model.ElementEqualityAndHash` | asciidoxy/model.py:59-66 | equality is never true against None, holds exactly when id, name, full name, language and kind agree, and equal elements hash alike |
| `Model.NewTypeRef` | asciidoxy/model.py:100-103 | a new type reference carries the given language and name and no optional part |
| `Model.NewParameter` | asciidoxy/model.py:128-147 | a parameter's kind defaults to "param" and everything else is empty or absent |
| `Model.NewThrowsClause` | asciidoxy/model.py:186-188 | without a type, a throws clause gets an unnamed type reference in its language |
| `Model.Resolve` | asciidoxy/model.py:114-116 | resolving copies exactly the target's id and kind and leaves every other field of the reference unchanged |
| `Model.ResolveIdempotent` | asciidoxy/model.py:114-116 | resolving twice with the same target is resolving once, and the last resolution wins |
| `Model.TypeRefStringShape` | asciidoxy/model.py:105-112 | the rendering starts with prefix and name and ends with the suffix, and is just those exactly when there are no nested types and no arguments |
| `Model.ResolvedRendersAlike` | asciidoxy/model.py:105-116 | resolution never changes how a reference renders |
| `Model.TypeRefStringExamples` | tests/unit/test_model.py:36-64 | the renderings of an empty reference, a plain name, and a name with prefix and suffix |
| `Model.NestedTypeRefStringExample` | tests/unit/test_model.py:36-64 | a two-level nested reference renders as "const Type< Nested1, const Nested2< Nested1 >* > &" |
| `Model.TypeRefEqIsStructural` | asciidoxy/model.py:118-125 | type reference equality holds exactly for equal values, over all eleven fields recursively, and never against None |
| `Model.OptionalTypeRefEqIsStructural` | asciidoxy/model.py:118-125 | equality of optional type references is equality of the options |
| `Model.ParameterEqIsStructural` | asciidoxy/model.py:149-154 | parameter equality holds exactly for equal parameters |
| `Model.ReturnAndThrowsEqAreStructural` | asciidoxy/model.py:168-193 | return values and throws clauses are equal exactly when their type and description are |
| `Model.NewCompound` | asciidoxy/model.py:245-257 | absent members, parameters, exceptions and sections become empty, and every other field takes its default |
| `Model.CompoundEqIsStructural` | asciidoxy/model.py:262-273 | compound equality holds exactly for equal values over all twenty-three fields, and never against None |
| `Model.CompoundHashConsistent` | asciidoxy/model.py:262-276 | equal compounds hash alike, because the hash reads only fields that equality compares |
| `LanguageTraits.FullName` | asciidoxy/parser/doxygen/language_traits.py:173-195 | the result ends with the name; it is the name itself exactly when there is no separator, no parent, the name is already qualified, or the parent is a file; otherwise it is parent, separator and name |
| `LanguageTraits.FullNameIdempotent` | asciidoxy/parser/doxygen/language_traits.py:173-195 | qualifying a full name again with the same parent changes nothing |
| `LanguageTraits.PartitionRejoins` | asciidoxy/parser/doxygen/language_traits.py:210-230 | the three parts of a partition concatenate back to the string |
| `LanguageTraits.RPartitionRejoins` | asciidoxy/parser/doxygen/language_traits.py:210-230 | the parts of a right partition concatenate back to the string; the separator part is empty exactly when the separator does not occur, and then the string is all tail |
| `LanguageTraits.NamespaceAndNameSplit` | asciidoxy/parser/doxygen/language_traits.py:210-230 | namespace, separator and short name concatenate to the full name; the namespace lies before the nesting boundary; the short name keeps everything from the boundary on; without a separator nothing is split |
| `LanguageTraits.NamespaceAtLastSeparator` | asciidoxy/parser/doxygen/language_traits.py:225-229 | the namespace ends at the last separator before the nesting boundary: no separator lies between it and the boundary; without a namespace the part before the boundary has no separator, or only a leading one |
| `LanguageTraits.ShortNameIsFullName` | asciidoxy/parser/doxygen/language_traits.py:159-171 | the short name is the whole name exactly when no separator comes before the nesting boundary, and then there is no namespace |
| `LanguageTraits.NoNamespaceKeepsTail` | asciidoxy/parser/doxygen/language_traits.py:197-230 | without a namespace, the short name is a tail of the full name |
| `LanguageTraits.Names` | asciidoxy/parser/doxygen/language_traits.py:125-157 | the full name is the qualified cleaned name, and short name and namespace put together give it back |
| `LanguageTraits.NoDoubleUnderscoreLeft` | asciidoxy/parser/doxygen/language_traits.py:263-282 | after replacing "__" by "-", no "__" is left |
| `LanguageTraits.ReplaceKeepsCleanId` | asciidoxy/parser/doxygen/language_traits.py:280 | an id without two adjacent underscores comes through the replacement unchanged |
| `LanguageTraits.ReplaceSplits` | asciidoxy/parser/doxygen/language_traits.py:280 | the replacement of a string cut after a non-underscore character is the replacement of its two parts, joined |
| `LanguageTraits.ReplaceLeadingPair` | asciidoxy/parser/doxygen/language_traits.py:280 | a leading "__" becomes one "-" and the rest is replaced on its own |
| `LanguageTraits.UniqueId` | asciidoxy/parser/doxygen/language_traits.py:263-282 | None stays None, an empty id stays empty, and any other id becomes tag, "-" and the id with "__" replaced |
| `LanguageTraits.UniqueIdShape` | asciidoxy/parser/doxygen/language_traits.py:263-282 | a unique id starts with its language tag and a dash and has no "__" after it; ids of two different tags without dashes never collide |
| `LanguageTraits.UniqueIdKeepsCleanId` | asciidoxy/parser/doxygen/language_traits.py:263-282 | a non-empty id without "__" becomes exactly the tag, "-" and the id itself |
| `LanguageTraits.TraitsUniqueId` | asciidoxy/parser/doxygen/language_traits.py:246-257 | a traits class prefixes every non-empty id with its own tag, and keeps None as None |
| `Driver.SafeLanguageTag` | asciidoxy/parser/doxygen/driver.py:165-178 | no name gives ""; otherwise the lower-cased name, with "c++" mapped to "cpp" and "objective-c" to "objc" |
| `Driver.SafeLanguageTagIdempotent` | asciidoxy/parser/doxygen/driver.py:165-178 | a safe tag is already safe |
| `Driver.SafeLanguageTagExamples` | asciidoxy/parser/doxygen/driver.py:165-178 | "C++", "Objective-C", "Java" and None give "cpp", "objc", "java" and "" |
| `Driver.ForcedLanguage` | asciidoxy/parser/doxygen/driver.py:43-61 | a forced language is kept exactly when its safe tag is a language with a parser, and it is then that tag |
| `Driver.ForcedLanguageExamples` | tests/unit/parser/doxygen/test_parser.py:254-287 | empty and unknown forced languages fall back to detection; "java", "objc" and no language behave as the tests expect |
| `Driver.ResolveReference` | asciidoxy/parser/doxygen/driver.py:155-162 | an element is returned exactly when the lookup finds one, and an ambiguous lookup gives none |
| `Driver.ResolutionOutcome` | asciidoxy/parser/doxygen/driver.py:118-128 | each pending reference is either resolved to the id and kind of the element found, or stays pending, never both; still-pending references keep their order; resolved and pending counts add up to the old count; references that were not pending are untouched |
| `Driver.InnerResolutionOutcome` | asciidoxy/parser/doxygen/driver.py:130-143 | the inner-type references still pending are exactly those whose lookup fails, in their order, and the two groups add up to the old count |
| `Driver.AttachAllAppendsMembers` | asciidoxy/parser/doxygen/driver.py:130-143 | attaching inner types changes no field of any element other than its members and protection, keeps existing members, and appends to each parent, in order, the elements found for its inner-type references, equal to them up to members and protection |
| `Driver.AttachProtection` | asciidoxy/parser/doxygen/driver.py:134-143 | one inner-type reference: a failed lookup changes nothing; a found element takes the reference's protection when that is non-empty and keeps its own otherwise, and the parent gains exactly that element as one more member; no other protection or member list changes |
| `Driver.AttachAllProtections` | asciidoxy/parser/doxygen/driver.py:130-143 | after the pass, each element carries the protection of the last reference found at it with a non-empty protection, or its own, and keeps every field other than members and protection |
| `Driver.Progress.constructor` | tests/unit/parser/doxygen/test_parser.py:242-252 | a new progress counter has no total and nothing ready |
| `Driver.Progress.Update` | tests/unit/parser/doxygen/test_parser.py:242-252 | one update counts one more step done and keeps the total |
| `Driver.Driver.constructor` | asciidoxy/parser/doxygen/driver.py:43-61 | a new driver has no elements and no pending references, and keeps the forced language only when it is a language with a parser |
| `Driver.Driver.Register` | asciidoxy/parser/doxygen/driver.py:102-103 | the element is appended to the API reference |
| `Driver.Driver.UnresolvedRef` | asciidoxy/parser/doxygen/driver.py:105-106 | the reference is appended to the pending plain references, and the pending count grows by one |
| `Driver.Driver.InnerTypeRef` | asciidoxy/parser/doxygen/driver.py:108-109 | the reference and its parent are appended to the pending inner-type references, and the pending count grows by one |
| `Driver.Driver.ResolveReferences` | asciidoxy/parser/doxygen/driver.py:111-153 | the new references, elements and pending lists are those of resolving every pending reference once (see ResolutionOutcome, InnerResolutionOutcome and AttachAllAppendsMembers); the progress total is the old pending count and every pending reference advances it by one |
| `Driver.Driver.ResolvePlainRefs` | asciidoxy/parser/doxygen/driver.py:118-128 | the loop over plain references produces the resolved references and the references still pending, and reports one step per reference |
| `Driver.Driver.AttachInnerType` | asciidoxy/parser/doxygen/driver.py:134-143 | one inner-type reference is attached exactly when its lookup succeeds, as `Attach` defines; a failed lookup changes nothing; with a non-empty protection, both the element found and the member appended to the parent carry it |
| `Driver.StillPendingWithin` | asciidoxy/parser/doxygen/driver.py:152 | the plain references left pending are distinct and point into the arena |
| `Driver.StillPendingInnerWithin` | asciidoxy/parser/doxygen/driver.py:153 | the inner-type references left pending point into the arenas |
| `Driver.Driver.AttachInnerTypes` | asciidoxy/parser/doxygen/driver.py:130-143 | the loop over inner-type references produces the elements with inner types attached and the references still pending, and reports one step per reference |
| `PathUtils.CommonPrefixLength` | asciidoxy/path_utils.py:19-31 | the length of the longest common leading part of two paths |
| `PathUtils.PrefixIffWithinCommon` | asciidoxy/path_utils.py:19-31 | an ancestor of the source directory contains the target exactly when it is no deeper than the common prefix |
| `PathUtils.RelativePath` | asciidoxy/path_utils.py:19-31 | the loop over ancestors yields the climb-then-descend path `RelativePathOf` |
| `PathUtils.RelativePathRoundTrip` | asciidoxy/path_utils.py:19-31 | walking the relative path from the directory of the source file reaches the target file |
| `PathUtils.RelativePathShape` | asciidoxy/path_utils.py:19-31 | every ".." comes before every other component, and the length is the levels climbed plus the levels descended |
| `PathUtils.RelativePathWithinDirectory` | asciidoxy/path_utils.py:19-31 | a target inside the source file's directory is reached without climbing, and a file relative to itself is its own name |
| `PathUtils.Suffix` | asciidoxy/generator/navigation.py:135-136 | a suffix is empty or starts with a dot, ends the name and is shorter than it |
| `PathUtils.WithSuffix` | asciidoxy/generator/navigation.py:135-136 | replacing the suffix fails exactly for the empty path; otherwise only the last component changes, and it ends with the new suffix |
| `Documents.Standalone` | asciidoxy/generator/context.py:250-281 | a document made by the package manager keeps its path and package, is its own root, and has no parent and no embedders |
| `Documents.AppendStandaloneKeepsValid` | asciidoxy/generator/context.py:250-281 | adding such a document keeps the document arena well-formed |
| `Filters.DefaultInsertionFilter` | asciidoxy/generator/context.py:166-167 | a new context inserts public and protected members only |
| `GeneratorContext.PackagePrefix` | asciidoxy/generator/context.py:75-107 | files of packages other than the input files are prefixed with the package name and ":/", and input files get no prefix |
| `GeneratorContext.LeadingInputFrames` | asciidoxy/generator/context.py:75-107 | the input-file frames end exactly at the first internal frame |
| `GeneratorContext.Stacktrace` | asciidoxy/generator/context.py:75-107 | the two loops of `stacktrace` produce the lines of the input-file frames under one heading, then the internal frames under another |
| `GeneratorContext.InputFrameLoop` | asciidoxy/generator/context.py:93-99 | the first loop pops exactly the frames from input files at the bottom of the stack and gives each its file line |
| `GeneratorContext.InternalFrameLoop` | asciidoxy/generator/context.py:103-105 | the second loop gives every remaining frame its command line, in order |
| `GeneratorContext.StacktraceHeading` | asciidoxy/generator/context.py:75-107 | a trace is empty only for an empty stack, and otherwise opens with the heading of its bottom frame's group |
| `GeneratorContext.StacktraceLineCount` | asciidoxy/generator/context.py:75-107 | one line per frame plus one heading per group that is present |
| `GeneratorContext.InnermostNotEmbedded` | asciidoxy/generator/context.py:347-362 | the innermost stack position whose document is not embedded, with every document above it embedded, or none when all are embedded |
| `GeneratorContext.InnermostNotEmbeddedUnique` | asciidoxy/generator/context.py:352-357 | the position found is the only one with that property, so the reverse walk that stops at the first non-embedded document finds it |
| `GeneratorContext.OutputDocumentIsAPage` | asciidoxy/generator/context.py:347-362 | in multi-page mode the output document is on the stack, and it is a non-embedded page whenever the stack holds one; in single-page mode it is a document without parent |
| `GeneratorContext.RootHasNoParent` | asciidoxy/generator/context.py:347-362 | the root of every document has no parent |
| `GeneratorContext.LinkToDocumentLeadsThere` | asciidoxy/generator/context.py:283-307 | a link fails exactly for a target embedded in other than one document and not in the current one; otherwise, from the output document's directory, it reaches the target or its only embedder, or, for a target embedded several times, the current document |
| `GeneratorContext.Registry.constructor` | asciidoxy/generator/context.py:166-186 | a new run knows only its starting document, and has nothing inserted, linked or anchored and an empty call stack |
| `GeneratorContext.Registry.AddDocument` | asciidoxy/generator/context.py:264-281 | a new document is appended to the arena and becomes known under its own path |
| `GeneratorContext.Context.constructor` | asciidoxy/generator/context.py:166-186 | a new context has the default insertion filter, an empty environment, no namespace or language, the starting document as its whole stack, and a fresh registry |
| `GeneratorContext.Context.Scope` | asciidoxy/generator/context.py:202-228 | a scope shares the parent's registry, copies its settings, and extends its document stack with the new document |
| `GeneratorContext.Context.SubContext` | asciidoxy/generator/context.py:202-228 | the sub-context is a new object that shares the registry, copies namespace, languages, environment and filter, and stacks the new document on the parent's stack |
| `GeneratorContext.Context.Insert` | asciidoxy/generator/context.py:188-200 | a first insertion records document and call stack; a duplicate is an error that changes nothing when warnings are errors, and otherwise a warning with both stack traces, after which the later insertion wins |
| `GeneratorContext.Context.FileWithElement` | asciidoxy/generator/context.py:230-244 | a document is returned exactly in multi-page mode for an element inserted in another document, and it is that document |
| `GeneratorContext.Context.LinkToElement` | asciidoxy/generator/context.py:246-248 | the current call stack is appended to the links of the element |
| `GeneratorContext.Context.FindDocument` | asciidoxy/generator/context.py:250-281 | a known path gives its document, or an unknown-file error when it belongs to another package than the one asked for; an unknown path, or a default document not yet known, is made by the package manager and becomes known; the package manager's errors are passed on and change nothing |
| `GeneratorContext.Context.OutputDocument` | asciidoxy/generator/context.py:347-362 | the reverse walk over the document stack yields the output document `OutputDocumentOf` |
| `GeneratorContext.Context.LinkToDocument` | asciidoxy/generator/context.py:283-307 | the link is the one `LinkToDocumentOf` decides; see LinkToDocumentLeadsThere |
| `GeneratorContext.Context.RegisterAnchor` | asciidoxy/generator/context.py:313-321 | a new anchor name is recorded with the current document and link text; a known name is a duplicate-anchor error that changes nothing |
| `GeneratorContext.Context.LinkToAnchor` | asciidoxy/generator/context.py:323-332 | an unknown anchor is an error; a known one gives the link to its document and its link text, or the link's error |
| `GeneratorContext.Context.PushStack` | asciidoxy/generator/context.py:334-341 | one frame is pushed, naming the document's path when there is one |
| `GeneratorContext.Context.PopStack` | asciidoxy/generator/context.py:343-345 | the most recent frame is dropped and the rest is kept |
| `Navigation.XrefString` | asciidoxy/generator/navigation.py:35-38 | no target gives ""; otherwise a cross reference "<<path#,text>>" whose path is the relative path to the target |
| `Navigation.Cells` | asciidoxy/generator/navigation.py:24-59 | Prev, Up and Next link to the previous, parent and next documents, and a Home line appears exactly for documents that are not their own root |
| `Navigation.NavigationBarDecisions` | asciidoxy/generator/navigation.py:24-59 | a bar is generated exactly for documents with a previous or next document, and then it opens with the Prev cell and closes with the Next cell |
| `Navigation.CellsFilled` | asciidoxy/generator/navigation.py:24-59 | each cell is filled exactly when its document exists |
| `Navigation.RelativeHtmlLink` | asciidoxy/generator/navigation.py:135-136 | the link fails exactly when the relative path has no name, and otherwise ends with ".html" |
| `Navigation.Ancestors` | asciidoxy/generator/navigation.py:100-115 | a document's ancestors include it and are no deeper than it |
| `Navigation.AncestorsReachRoot` | asciidoxy/generator/navigation.py:100-115 | all ancestors share the document's root, and the root is among them and has no parent |
| `Navigation.Breadcrumbs` | asciidoxy/generator/navigation.py:100-115 | the walk up through the parents collects exactly the ancestors and stops at the root |
| `Navigation.ListedChildrenInOrder` | asciidoxy/generator/navigation.py:118-132 | the listed children are exactly the children included in the document itself, in order; the kept and the dropped ones together number as many as the input, so no repeated entry is lost |
| `Navigation.Toc` | asciidoxy/generator/navigation.py:118-132 | there is a list exactly when some child is listed; each entry links to its listed child with its title; an entry is expanded, one level deeper, only for a child with children on the breadcrumb path, and always for such a child with listed children |
| `Navigation.TocEntryFor` | asciidoxy/generator/navigation.py:127-132 | an entry shows its child's title and link; it holds the table of contents of the child one level deeper exactly when the child has children and lies on the breadcrumbs, and no list otherwise |
| `Navigation.MultipageToc` | asciidoxy/generator/navigation.py:100-115 | the page's title links to the root of the tree, and its contents are the root's table of contents at level 1 with the ancestors of the document as breadcrumbs |
| `Navigation.TocExpandsBreadcrumbs` | asciidoxy/generator/navigation.py:100-132 | in the table of contents of a page, an entry is expanded, at level 2, exactly when it is an ancestor of the page with listed children |
| `PythonHelpers.ParamsDropsSelfAndCls` | asciidoxy/generator/templates/python/helpers.py:60-62 | the listed parameters are all parameters other than `self` and `cls`, in order, and nothing else |
| `PythonHelpers.RenderParameter` | asciidoxy/generator/templates/python/helpers.py:28-32 | `self` and `cls` render as their bare name, and every other parameter as the common helper renders it |
| `PythonHelpers.MethodPrefix` | asciidoxy/generator/templates/python/helpers.py:34-35 | every Python method is introduced by "def" |
| `PythonHelpers.MethodSuffix` | asciidoxy/generator/templates/python/helpers.py:37-38 | the suffix is empty exactly without a return value, and otherwise " -> " and the printed return type |
| `PythonHelpers.WithoutPrivateKeepsPublic` | asciidoxy/generator/templates/python/helpers.py:40-57 | static methods, methods, enclosed types and variables keep exactly the selected members whose name does not start with "_", in order; the kept and the dropped ones together number as many as the input, so no repeated entry is lost |
| `PythonHelpers.WithoutPrivateIdempotent` | asciidoxy/generator/templates/python/helpers.py:40-57 | dropping private members twice is dropping them once |
| `PythonHelpers.ConstructorsAreInits` | asciidoxy/generator/templates/python/helpers.py:46-51 | the constructors are exactly the selected `__init__` functions, in order; the kept and the dropped ones together number as many as the input, so no repeated entry is lost |
| `JavaHelpers.ConstantsAreFinalVariables` | asciidoxy/generator/templates/java/helpers.py:23-29 | the constants are exactly the selected variables with the given protection whose type prefix contains "final", in order; the kept and the dropped ones together number as many as the input, so no repeated entry is lost |

## Left out

- Logging is not modelled. A duplicate insertion that is only a warning returns its
  message as `Ok(Some(message))` instead of writing it to the log. The log lines of
  `resolve_references` and the unknown-forced-language error are dropped.
- The `tqdm` progress bar is replaced by the `Progress` class, which counts the total and
  the steps done.
- The template cache and the document cache of the context hold no state the model
  reasons about, and are not part of this model.
- `docinfo_footer_file` is not modelled. It only reads an attribute of the output
  document, and the document class is not part of this model.
- The document and package classes are not part of this model. A document is a record
  in an arena (`Documents.Document`) whose tree links, embedders and root are given.
  `relative_path_to` is `relative_path` between the two documents' paths. The package
  manager's `make_document` is a parameter that returns a new, standalone document or
  an error.
- The error for a link to a document embedded several times names the document by its
  path rather than by the document's own `str`. Membership in `embedded_in` stands for
  `is_embedded_in`.
- Object sharing between type references and elements is not modelled. Resolving a type
  reference updates the driver's arena only, and an element appended as a member is a
  copy of the element after its protection is set. Later changes to the element are
  not reflected in the copy.
- Driver.Driver.InnerTypeRef: the parent must be a registered element (a handle), while
  the source accepts any compound.
- Driver.Driver.ResolveReferences: the pending plain references are distinct handles,
  which `UnresolvedRef` guarantees. The source's `assert ref.name` becomes a
  precondition. The set of unresolved names exists only for logging and is not kept.
- Driver.Driver.UnresolvedRefCount has no contract of its own. The count it reports is
  stated through the pending lists in `UnresolvedRef`, `InnerTypeRef` and
  `ResolveReferences`.
- `ApiReference.find` and its rules for matching names, ids, languages and namespaces
  are not part of this model. The lookup is a parameter answering found, not found or
  ambiguous, and it only finds registered elements.
- `parse` and `_parse_element` read XML and dispatch to the language parsers, which are
  not part of this model.
- Lower-casing covers ASCII letters only.
- Paths are sequences of components below one root. A path that names ".." itself is
  outside the round-trip lemma.
- The HTML rendering of the table of contents is not modelled. The table is a tree of
  entries with levels, links and titles. A link that cannot be formed (an empty
  relative path, for which the source raises ValueError) is `None`.
- `TypeRef.resolve` is modelled as a function returning the resolved reference; the
  driver stores the result back in place.
- GeneratorContext.Context.PopStack requires a non-empty call stack, where the source
  raises IndexError.
- GeneratorContext.Context.Insert requires the element to have an id, as the source
  asserts.
- GeneratorContext.Context.FindDocument requires a package name or a path, as the source
  asserts.
- The name of the input package is "INPUT" and the parser tags are "cpp", "java", "objc"
  and "python"; the package and parser modules are not part of this model.
- The environment of a context is a map from names to strings; the `Environment` class
  is not part of this model.
- `json_repr` and the `__str__` methods used for debugging are not modelled.
- The common `TemplateHelper` is not part of this model. Its member selection by the
  insertion filter, its parameter rendering and `print_ref` are parameters of the
  helpers that build on them.
