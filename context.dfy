/** The context of the document being generated.

    One `Registry` holds what all contexts of a run share: the inserted elements, the
    links, the anchors, the call stack and the known documents. A `Context` is one scope
    of generation: the document being processed, the stack of documents that include it
    and the settings that a sub-context copies from its parent. A sub-context shares the
    registry of its parent and owns copies of the rest. */
module GeneratorContext {
  import opened Common
  import opened PathUtils
  import opened Documents
  import opened Filters
  import opened Model

  /** One command on the stack of commands being executed. */
  datatype StackFrame = StackFrame(command: string, file: Option<Path>, package: Option<string>,
                                   internal: bool)

  /** Where a flexible anchor was inserted, and the text to link to it with. */
  datatype AnchorData = AnchorData(document: DocId, linkText: Option<string>)

  /** Where an element was inserted, and the commands that inserted it. */
  datatype InsertData = InsertData(document: DocId, stacktrace: seq<StackFrame>)

  datatype Error =
    | ConsistencyError(message: string)
    | DuplicateAnchorError(name: string)
    | UnknownAnchorError(name: string)
    | UnknownFileError(packageName: string, fileName: string)
    | UnknownPackageError(packageName: string)

  /** The variables an AsciiDoc file shares with the files it includes. */
  type Environment = map<string, string>

  /** The package manager's `make_document(package_name, rel_path)`: the document for a
      file of a package, or for the default file of the package without a path. */
  type MakeDocument = (Option<string>, Option<Path>) -> Result<NewDocument, Error>

  // Stack traces

  /** How a frame names its file: a missing file prints as "None". */
  function FileText(file: Option<Path>): string
  {
    match file
    case None => "None"
    case Some(p) => PathString(p)
  }

  /** Files of packages other than the input files are prefixed by their package. */
  function PackagePrefix(package: Option<string>): (r: string)
    ensures r == "" <==> !Truthy(package) || package.value == INPUT_PACKAGE_NAME
    ensures r != "" ==> r == package.value + ":/"
  {
    if Truthy(package) && package.value != INPUT_PACKAGE_NAME then package.value + ":/" else ""
  }

  /** The line of a frame from an input file: its file, then its command. */
  function InputFrameLine(frame: StackFrame, prefix: string): string
  {
    prefix + "  " + PackagePrefix(frame.package) + FileText(frame.file) + ":\n"
    + prefix + "    " + frame.command
  }

  /** The line of an internal frame: its command only. */
  function InternalFrameLine(frame: StackFrame, prefix: string): string
  {
    prefix + "    " + frame.command
  }

  function InputFrameLines(trace: seq<StackFrame>, prefix: string): seq<string>
  {
    seq(|trace|, i requires 0 <= i < |trace| => InputFrameLine(trace[i], prefix))
  }

  function InternalFrameLines(trace: seq<StackFrame>, prefix: string): seq<string>
  {
    seq(|trace|, i requires 0 <= i < |trace| => InternalFrameLine(trace[i], prefix))
  }

  /** One more frame from an input file adds its line. */
  lemma InputFrameLinesStep(trace: seq<StackFrame>, prefix: string, i: nat)
    requires i < |trace|
    ensures InputFrameLines(trace[..i + 1], prefix)
            == InputFrameLines(trace[..i], prefix) + [InputFrameLine(trace[i], prefix)]
  {
  }

  /** One more internal frame adds its line. */
  lemma InternalFrameLinesStep(trace: seq<StackFrame>, prefix: string, j: nat)
    requires j < |trace|
    ensures InternalFrameLines(trace[..j + 1], prefix)
            == InternalFrameLines(trace[..j], prefix) + [InternalFrameLine(trace[j], prefix)]
  {
  }

  /** The number of frames at the bottom of the stack that come from input files. */
  function LeadingInputFrames(trace: seq<StackFrame>): (k: nat)
    ensures k <= |trace|
    ensures forall i | 0 <= i < k :: !trace[i].internal
    ensures k < |trace| ==> trace[k].internal
  {
    if |trace| == 0 || trace[0].internal then 0 else 1 + LeadingInputFrames(trace[1..])
  }

  /** The lines of a stack trace: the frames from input files under one heading, then
      every frame from the first internal one on under another, each heading present
      only when its group is not empty. */
  function StacktraceLines(trace: seq<StackFrame>, prefix: string): seq<string>
  {
    var k := LeadingInputFrames(trace);
    (if k > 0 then [prefix + "Commands in input files:"] else [])
    + InputFrameLines(trace[..k], prefix)
    + (if k < |trace| then [prefix + "Internal AsciiDoxy commands:"] else [])
    + InternalFrameLines(trace[k..], prefix)
  }

  function StacktraceOf(trace: seq<StackFrame>, prefix: string): string
  {
    Join(StacktraceLines(trace, prefix), "\n")
  }

  /** `stacktrace`: pops the frames from input files, then all others, one line each. */
  method Stacktrace(trace: seq<StackFrame>, prefix: string) returns (s: string)
    ensures s == StacktraceOf(trace, prefix)
  {
    if |trace| == 0 {
      return "";
    }
    var head: seq<string> := [];
    if !trace[0].internal {
      head := [prefix + "Commands in input files:"];
    }
    var inputLines, k := InputFrameLoop(trace, prefix);
    var middle: seq<string> := [];
    if k < |trace| && trace[k].internal {
      middle := [prefix + "Internal AsciiDoxy commands:"];
    }
    var internalLines := InternalFrameLoop(trace[k..], prefix);
    s := Join(head + inputLines + middle + internalLines, "\n");
  }

  /** The first loop of `stacktrace`: a line for each frame from an input file at the
      bottom of the stack, and how many there are. */
  method InputFrameLoop(trace: seq<StackFrame>, prefix: string) returns (lines: seq<string>, k: nat)
    ensures k == LeadingInputFrames(trace)
    ensures lines == InputFrameLines(trace[..k], prefix)
  {
    var rest := trace;
    lines := [];
    k := 0;
    while |rest| > 0 && !rest[0].internal
      invariant 0 <= k <= |trace| && rest == trace[k..]
      invariant forall j | 0 <= j < k :: !trace[j].internal
      invariant lines == InputFrameLines(trace[..k], prefix)
    {
      InputFrameLinesStep(trace, prefix, k);
      lines := lines + [InputFrameLine(rest[0], prefix)];
      rest := rest[1..];
      k := k + 1;
    }
    LeadingInputFramesIsFirstInternal(trace, k);
  }

  /** The second loop of `stacktrace`: a line for each remaining frame. */
  method InternalFrameLoop(trace: seq<StackFrame>, prefix: string) returns (lines: seq<string>)
    ensures lines == InternalFrameLines(trace, prefix)
  {
    var rest := trace;
    lines := [];
    ghost var j := 0;
    while |rest| > 0
      invariant 0 <= j <= |trace| && rest == trace[j..]
      invariant lines == InternalFrameLines(trace[..j], prefix)
    {
      InternalFrameLinesStep(trace, prefix, j);
      lines := lines + [InternalFrameLine(rest[0], prefix)];
      rest := rest[1..];
      j := j + 1;
    }
    assert trace[..j] == trace;
  }

  /** The input frames end exactly at the first internal frame. */
  lemma LeadingInputFramesIsFirstInternal(trace: seq<StackFrame>, k: nat)
    requires k <= |trace|
    requires forall j | 0 <= j < k :: !trace[j].internal
    requires k < |trace| ==> trace[k].internal
    ensures LeadingInputFrames(trace) == k
  {
  }

  lemma JoinStartsWithFirst(parts: seq<string>, sep: string)
    requires |parts| > 0
    ensures StartsWith(Join(parts, sep), parts[0])
  {
  }

  /** A stack trace is empty only for an empty stack; otherwise it opens with the heading
      of the group its bottom frame belongs to. */
  lemma StacktraceHeading(trace: seq<StackFrame>, prefix: string)
    ensures StacktraceOf(trace, prefix) == "" <==> |trace| == 0
    ensures |trace| > 0 && !trace[0].internal ==>
              StartsWith(StacktraceOf(trace, prefix), prefix + "Commands in input files:")
    ensures |trace| > 0 && trace[0].internal ==>
              StartsWith(StacktraceOf(trace, prefix), prefix + "Internal AsciiDoxy commands:")
  {
    var lines := StacktraceLines(trace, prefix);
    if |trace| > 0 {
      var k := LeadingInputFrames(trace);
      if k > 0 {
        assert lines[0] == prefix + "Commands in input files:";
      } else {
        assert lines[0] == prefix + "Internal AsciiDoxy commands:";
      }
      JoinStartsWithFirst(lines, "\n");
      assert |StacktraceOf(trace, prefix)| >= |lines[0]| > 0;
    }
  }

  /** Every frame gets exactly one line, and each group that is present one heading. */
  lemma StacktraceLineCount(trace: seq<StackFrame>, prefix: string)
    ensures |StacktraceLines(trace, prefix)|
            == |trace| + (if LeadingInputFrames(trace) > 0 then 1 else 0)
                       + (if LeadingInputFrames(trace) < |trace| then 1 else 0)
  {
  }

  // The generated output document

  /** The position of the innermost document on the stack that is not embedded. */
  function InnermostNotEmbedded(docs: seq<Document>, stack: seq<DocId>): (r: Option<nat>)
    requires forall i | 0 <= i < |stack| :: stack[i] < |docs|
    ensures r.Some? ==> r.value < |stack| && !docs[stack[r.value]].isEmbedded
                        && forall j | r.value < j < |stack| :: docs[stack[j]].isEmbedded
    ensures r.None? ==> forall j | 0 <= j < |stack| :: docs[stack[j]].isEmbedded
  {
    if |stack| == 0 then None
    else if !docs[stack[|stack| - 1]].isEmbedded then Some(|stack| - 1)
    else InnermostNotEmbedded(docs, stack[..|stack| - 1])
  }

  /** The innermost document that is not embedded is determined by the stack: it is the
      one with only embedded documents above it, and there is none exactly when all are
      embedded. */
  lemma InnermostNotEmbeddedUnique(docs: seq<Document>, stack: seq<DocId>, k: int)
    requires forall i | 0 <= i < |stack| :: stack[i] < |docs|
    requires -1 <= k < |stack|
    requires k >= 0 ==> !docs[stack[k]].isEmbedded
    requires forall j | k < j < |stack| :: docs[stack[j]].isEmbedded
    ensures InnermostNotEmbedded(docs, stack) == (if k >= 0 then Some(k) else None)
  {
  }

  /** The document links are resolved against: in single-page mode the root of the
      current document; in multi-page mode the current document, or, when that one is
      embedded, the innermost including document that is not, or the bottom of the stack
      when all of them are. */
  function OutputDocumentOf(docs: seq<Document>, config: Configuration, document: DocId,
                            stack: seq<DocId>): (r: DocId)
    requires Documents.Valid(docs) && document < |docs|
    requires |stack| > 0 && forall i | 0 <= i < |stack| :: stack[i] < |docs|
    ensures r < |docs|
  {
    if !config.multipage then
      assert DocumentValid(docs, document);
      docs[document].root
    else if !docs[document].isEmbedded then document
    else match InnermostNotEmbedded(docs, stack)
         case Some(i) => stack[i]
         case None => stack[0]
  }

  /** In multi-page mode links are relative to a generated page: a document that is not
      embedded, unless every document on the stack is. In single-page mode they are
      relative to the top of the document tree. */
  lemma OutputDocumentIsAPage(docs: seq<Document>, config: Configuration, document: DocId,
                              stack: seq<DocId>)
    requires Documents.Valid(docs) && document < |docs|
    requires |stack| > 0 && forall i | 0 <= i < |stack| :: stack[i] < |docs|
    requires stack[|stack| - 1] == document
    ensures var out := OutputDocumentOf(docs, config, document, stack);
            config.multipage ==>
              (out in stack)
              && (!docs[out].isEmbedded
                  <==> exists i | 0 <= i < |stack| :: !docs[stack[i]].isEmbedded)
    ensures !config.multipage ==> docs[OutputDocumentOf(docs, config, document, stack)].parent.None?
  {
    var out := OutputDocumentOf(docs, config, document, stack);
    if config.multipage {
      if !docs[document].isEmbedded {
        assert !docs[stack[|stack| - 1]].isEmbedded;
      } else {
        match InnermostNotEmbedded(docs, stack)
        case Some(i) =>
          assert !docs[stack[i]].isEmbedded;
        case None =>
      }
    } else {
      var root := docs[document].root;
      assert DocumentValid(docs, document);
      assert DocumentValid(docs, root);
      RootHasNoParent(docs, document);
    }
  }

  /** The root of a document has no parent. */
  lemma RootHasNoParent(docs: seq<Document>, d: DocId)
    requires Documents.Valid(docs) && d < |docs|
    ensures docs[d].root < |docs| && docs[docs[d].root].parent.None?
    decreases docs[d].depth
  {
    assert DocumentValid(docs, d);
    match docs[d].parent
    case None =>
    case Some(p) =>
      assert DocumentValid(docs, p);
      RootHasNoParent(docs, p);
  }

  // The registry shared by a context and its sub-contexts

  class Registry {
    /** Per element id: where it was inserted and by which commands. */
    var inserted: map<string, InsertData>
    /** Per element id: the call stacks of all links to it. */
    var linked: map<string, seq<seq<StackFrame>>>
    var anchors: map<string, AnchorData>
    var callStack: seq<StackFrame>
    /** The known documents by path. */
    var documents: map<Path, DocId>
    /** Every document of the run, indexed by handle. */
    var docs: seq<Document>

    ghost predicate Valid()
      reads this
    {
      && Documents.Valid(docs)
      && (forall p | p in documents :: documents[p] < |docs| && docs[documents[p]].relativePath == p)
      && (forall id | id in inserted :: inserted[id].document < |docs|)
      && (forall name | name in anchors :: anchors[name].document < |docs|)
    }

    /** The shared state of a new run that starts at `document`. */
    constructor (docs: seq<Document>, document: DocId)
      requires Documents.Valid(docs) && document < |docs|
      ensures Valid()
      ensures this.docs == docs && documents == map[docs[document].relativePath := document]
      ensures inserted == map[] && linked == map[] && anchors == map[] && callStack == []
    {
      this.docs := docs;
      documents := map[docs[document].relativePath := document];
      inserted := map[];
      linked := map[];
      anchors := map[];
      callStack := [];
    }

    /** Keep a document made by the package manager as a known document. */
    method AddDocument(nd: NewDocument) returns (d: DocId)
      requires Valid()
      modifies this`docs, this`documents
      ensures Valid()
      ensures d == |old(docs)| && docs == old(docs) + [Standalone(nd, d)]
      ensures documents == old(documents)[nd.relativePath := d]
    {
      AppendStandaloneKeepsValid(docs, nd);
      d := |docs|;
      docs := docs + [Standalone(nd, d)];
      documents := documents[nd.relativePath := d];
    }
  }

  /** The links registered for an element so far. */
  function LinksTo(linked: map<string, seq<seq<StackFrame>>>, elementId: string): seq<seq<StackFrame>>
  {
    if elementId in linked then linked[elementId] else []
  }

  /** The message for a duplicate insertion, naming both places by their stack traces. */
  function DuplicateInsertionMessage(name: string, current: seq<StackFrame>,
                                     previous: seq<StackFrame>): string
  {
    DuplicateInsertionText(name, StacktraceOf(current, "  "), StacktraceOf(previous, "  "))
  }

  function DuplicateInsertionText(name: string, current: string, previous: string): string
  {
    "Duplicate insertion of " + name + ".\nTrying to insert at:\n" + current
    + "\nPreviously inserted at:\n" + previous
  }

  function EmbeddedLinkMessage(path: Path): string
  {
    "Cannot resolve link to embedded file " + PathString(path) + ": The same file is embedded "
    + "multiple times. Either embed the file in only one file, or only link to it from the "
    + "files it is embedded in."
  }

  /** Where a link from the current document to `target` points: the target itself, the one
      document embedding it, or, for a document embedded in several, the current document
      when it is one of them. Paths are relative to the output document, except the last,
      which is the current document's name. */
  function LinkToDocumentOf(docs: seq<Document>, config: Configuration, document: DocId,
                            stack: seq<DocId>, target: DocId): Result<Path, Error>
    requires Documents.Valid(docs) && document < |docs| && target < |docs|
    requires |stack| > 0 && forall i | 0 <= i < |stack| :: stack[i] < |docs|
  {
    var t := docs[target];
    var out := OutputDocumentOf(docs, config, document, stack);
    if !t.isEmbedded then Ok(RelativePathTo(docs, out, target))
    else if |t.embeddedIn| == 1 then
      assert DocumentValid(docs, target);
      Ok(RelativePathTo(docs, out, t.embedder.value))
    else if document in t.embeddedIn then Ok([Name(docs[document].relativePath)])
    else Err(ConsistencyError(EmbeddedLinkMessage(t.relativePath)))
  }

  /** Documents whose paths are non-empty and name no "..". */
  predicate PlainPaths(docs: seq<Document>)
  {
    forall d | 0 <= d < |docs| :: |docs[d].relativePath| > 0 && NoParentRefs(docs[d].relativePath)
  }

  /** A link resolves exactly when the target is embedded in at most one document or in
      the current one, and then it leads, from the directory of the output document, to
      the target or to the one document embedding it, or, from the directory of the
      current document, to the current document. */
  lemma LinkToDocumentLeadsThere(docs: seq<Document>, config: Configuration, document: DocId,
                                 stack: seq<DocId>, target: DocId)
    requires Documents.Valid(docs) && PlainPaths(docs) && document < |docs| && target < |docs|
    requires |stack| > 0 && forall i | 0 <= i < |stack| :: stack[i] < |docs|
    ensures var t := docs[target];
            var r := LinkToDocumentOf(docs, config, document, stack, target);
            var from := Parent(docs[OutputDocumentOf(docs, config, document, stack)].relativePath);
            && (r.Err? <==> t.isEmbedded && |t.embeddedIn| != 1 && document !in t.embeddedIn)
            && (r.Ok? && !t.isEmbedded ==> Walk(from, r.value) == t.relativePath)
            && (r.Ok? && t.isEmbedded && |t.embeddedIn| == 1 ==>
                  t.embedder.Some? && t.embedder.value < |docs|
                  && Walk(from, r.value) == docs[t.embedder.value].relativePath)
            && (r.Ok? && t.isEmbedded && |t.embeddedIn| != 1 ==>
                  var cur := docs[document].relativePath;
                  Walk(Parent(cur), r.value) == cur)
  {
    var t := docs[target];
    var out := OutputDocumentOf(docs, config, document, stack);
    assert DocumentValid(docs, target);
    if !t.isEmbedded {
      RelativePathRoundTrip(docs[out].relativePath, t.relativePath);
    } else if |t.embeddedIn| == 1 {
      RelativePathRoundTrip(docs[out].relativePath, docs[t.embedder.value].relativePath);
    } else if document in t.embeddedIn {
      var cur := docs[document].relativePath;
      assert Walk(Parent(cur), [Name(cur)]) == Walk(Parent(cur) + [Name(cur)], []);
      assert Parent(cur) + [Name(cur)] == cur;
    }
  }

  // One scope of generation

  class Context {
    var namespace: Option<string>
    var language: Option<string>
    var sourceLanguage: Option<string>
    var insertFilter: InsertionFilter
    var env: Environment
    /** The document being processed. */
    var document: DocId
    /** The documents including the current one, outermost first, ending with it. */
    var documentStack: seq<DocId>
    const config: Configuration
    const reg: Registry
    const makeDocument: MakeDocument

    ghost predicate Valid()
      reads this, reg
    {
      && reg.Valid()
      && document < |reg.docs|
      && |documentStack| > 0 && documentStack[|documentStack| - 1] == document
      && forall i | 0 <= i < |documentStack| :: documentStack[i] < |reg.docs|
    }

    /** The context of a new run that starts at `document`. */
    constructor (docs: seq<Document>, document: DocId, config: Configuration,
                 makeDocument: MakeDocument)
      requires Documents.Valid(docs) && document < |docs|
      ensures Valid() && fresh(reg)
      ensures this.document == document && documentStack == [document]
      ensures namespace.None? && language.None? && sourceLanguage.None?
      ensures insertFilter == DefaultInsertionFilter() && env == map[]
      ensures this.config == config && this.makeDocument == makeDocument
      ensures reg.docs == docs && reg.documents == map[docs[document].relativePath := document]
      ensures reg.inserted == map[] && reg.linked == map[] && reg.anchors == map[]
      ensures reg.callStack == []
    {
      namespace := None;
      language := None;
      sourceLanguage := None;
      insertFilter := DefaultInsertionFilter();
      env := map[];
      this.document := document;
      documentStack := [document];
      this.config := config;
      this.makeDocument := makeDocument;
      reg := new Registry(docs, document);
    }

    /** A scope for `document` below `parent`: it shares the registry and copies the rest. */
    constructor Scope(parent: Context, document: DocId)
      requires parent.Valid() && document < |parent.reg.docs|
      ensures Valid()
      ensures reg == parent.reg && this.document == document
      ensures documentStack == parent.documentStack + [document]
      ensures namespace == parent.namespace && language == parent.language
      ensures sourceLanguage == parent.sourceLanguage
      ensures env == parent.env && insertFilter == parent.insertFilter
      ensures config == parent.config && makeDocument == parent.makeDocument
    {
      namespace := parent.namespace;
      language := parent.language;
      sourceLanguage := parent.sourceLanguage;
      insertFilter := parent.insertFilter;
      env := parent.env;
      this.document := document;
      documentStack := parent.documentStack + [document];
      config := parent.config;
      makeDocument := parent.makeDocument;
      reg := parent.reg;
    }

    /** `sub_context`: a new context for processing `document`, included from this one.
        What the sub-context records in the registry its parent sees; changes to its own
        settings and stack leave the parent as it was. */
    method SubContext(document: DocId) returns (sub: Context)
      requires Valid() && document < |reg.docs|
      ensures fresh(sub) && sub.Valid()
      ensures sub.reg == reg && sub.document == document
      ensures sub.documentStack == documentStack + [document]
      ensures sub.namespace == namespace && sub.language == language
      ensures sub.sourceLanguage == sourceLanguage
      ensures sub.env == env && sub.insertFilter == insertFilter
      ensures sub.config == config && sub.makeDocument == makeDocument
    {
      sub := new Context.Scope(this, document);
    }

    /** `insert`: record that an element is inserted in the current document. Inserting
        the same element twice is an error when warnings are errors, and a warning
        (returned here) otherwise; the later insertion then wins. */
    method Insert(element: ReferableElement) returns (r: Result<Option<string>, Error>)
      requires Valid() && Truthy(element.id)
      modifies reg`inserted
      ensures Valid()
      ensures var id := element.id.value;
              var now := InsertData(document, reg.callStack);
              if id in old(reg.inserted) then
                var msg := DuplicateInsertionMessage(element.name, reg.callStack,
                                                     old(reg.inserted)[id].stacktrace);
                if config.warningsAreErrors then
                  r == Err(ConsistencyError(msg)) && reg.inserted == old(reg.inserted)
                else
                  r == Ok(Some(msg)) && reg.inserted == old(reg.inserted)[id := now]
              else
                r == Ok(None) && reg.inserted == old(reg.inserted)[id := now]
    {
      var id := element.id.value;
      r := Ok(None);
      if id in reg.inserted {
        var trace := reg.inserted[id].stacktrace;
        var msg := DuplicateInsertionMessage(element.name, reg.callStack, trace);
        if config.warningsAreErrors {
          return Err(ConsistencyError(msg));
        }
        r := Ok(Some(msg));
      }
      reg.inserted := reg.inserted[id := InsertData(document, reg.callStack)];
    }

    /** `file_with_element`: in multi-page mode, the other document the element was
        inserted in; nothing when it is not inserted, inserted in the current document, or
        in single-page mode. */
    function FileWithElement(elementId: string): (r: Option<DocId>)
      reads this, reg
      requires Valid()
      ensures r.Some? <==> config.multipage && elementId in reg.inserted
                           && reg.inserted[elementId].document != document
      ensures r.Some? ==> r.value == reg.inserted[elementId].document && r.value < |reg.docs|
    {
      if !config.multipage || elementId !in reg.inserted then None
      else
        var containing := reg.inserted[elementId].document;
        if document != containing then Some(containing) else None
    }

    /** `link_to_element`: record the current call stack as one more link to the element. */
    method LinkToElement(elementId: string)
      requires Valid()
      modifies reg`linked
      ensures Valid()
      ensures reg.linked == old(reg.linked)[elementId := LinksTo(old(reg.linked), elementId)
                                                        + [reg.callStack]]
    {
      reg.linked := reg.linked[elementId := LinksTo(reg.linked, elementId) + [reg.callStack]];
    }

    /** `find_document`: the known document at `relPath`, or a new one from the package
        manager, which becomes known. Without a path the package's default document is
        made first and the known one at its path wins. A known document from another
        package than the one asked for is an unknown file. */
    method FindDocument(packageName: Option<string>, relPath: Option<Path>)
      returns (r: Result<DocId, Error>)
      requires Valid() && (Truthy(packageName) || relPath.Some?)
      modifies reg`docs, reg`documents
      ensures Valid()
      ensures relPath.Some? && relPath.value in old(reg.documents) ==>
                var known := old(reg.documents)[relPath.value];
                && unchanged(reg)
                && r == (if Truthy(packageName) && reg.docs[known].packageName != packageName.value
                         then Err(UnknownFileError(packageName.value, PathString(relPath.value)))
                         else Ok(known))
      ensures relPath.Some? && relPath.value !in old(reg.documents) ==>
                match makeDocument(packageName, relPath)
                case Err(e) => r == Err(e) && unchanged(reg)
                case Ok(nd) => r == Ok(|old(reg.docs)|) && Added(old(reg.docs), old(reg.documents), nd)
      ensures relPath.None? ==>
                match makeDocument(packageName, None)
                case Err(e) => r == Err(e) && unchanged(reg)
                case Ok(nd) =>
                  if nd.relativePath in old(reg.documents) then
                    r == Ok(old(reg.documents)[nd.relativePath]) && unchanged(reg)
                  else
                    r == Ok(|old(reg.docs)|) && Added(old(reg.docs), old(reg.documents), nd)
      ensures r.Ok? ==> r.value < |reg.docs|
    {
      if relPath.None? {
        var made := makeDocument(packageName, None);
        if made.Err? {
          return Err(made.error);
        }
        var nd := made.value;
        if nd.relativePath in reg.documents {
          return Ok(reg.documents[nd.relativePath]);
        }
        var d := reg.AddDocument(nd);
        return Ok(d);
      } else {
        var path := relPath.value;
        if path !in reg.documents {
          var made := makeDocument(packageName, relPath);
          if made.Err? {
            return Err(made.error);
          }
          var d := reg.AddDocument(made.value);
          return Ok(d);
        }
        var known := reg.documents[path];
        if Truthy(packageName) && reg.docs[known].packageName != packageName.value {
          return Err(UnknownFileError(packageName.value, PathString(path)));
        }
        return Ok(known);
      }
    }

    /** The registry state after a new document was kept. */
    ghost predicate Added(oldDocs: seq<Document>, oldDocuments: map<Path, DocId>, nd: NewDocument)
      reads reg
    {
      && reg.docs == oldDocs + [Standalone(nd, |oldDocs|)]
      && reg.documents == oldDocuments[nd.relativePath := |oldDocs|]
    }

    /** `output_document`: walks the document stack from the innermost document out. */
    method OutputDocument() returns (out: DocId)
      requires Valid()
      ensures out == OutputDocumentOf(reg.docs, config, document, documentStack)
    {
      var docs := reg.docs;
      if !config.multipage {
        assert DocumentValid(docs, document);
        return docs[document].root;
      }
      if !docs[document].isEmbedded {
        return document;
      }
      var stack := documentStack;
      var i := |stack|;
      while i > 0
        invariant 0 <= i <= |stack|
        invariant forall j | i <= j < |stack| :: docs[stack[j]].isEmbedded
      {
        if !docs[stack[i - 1]].isEmbedded {
          InnermostNotEmbeddedUnique(docs, stack, i - 1);
          return stack[i - 1];
        }
        i := i - 1;
      }
      InnermostNotEmbeddedUnique(docs, stack, -1);
      return stack[0];
    }

    /** `link_to_document`: the path to link to `target` from the current document. */
    method LinkToDocument(target: DocId) returns (r: Result<Path, Error>)
      requires Valid() && target < |reg.docs|
      ensures r == LinkToDocumentOf(reg.docs, config, document, documentStack, target)
    {
      var t := reg.docs[target];
      var out := OutputDocument();
      if !t.isEmbedded {
        r := Ok(RelativePathTo(reg.docs, out, target));
      } else if |t.embeddedIn| == 1 {
        assert DocumentValid(reg.docs, target);
        r := Ok(RelativePathTo(reg.docs, out, t.embedder.value));
      } else if document in t.embeddedIn {
        r := Ok([Name(reg.docs[document].relativePath)]);
      } else {
        r := Err(ConsistencyError(EmbeddedLinkMessage(t.relativePath)));
      }
    }

    /** `register_anchor`: a flexible anchor in the current document; names are unique. */
    method RegisterAnchor(name: string, linkText: Option<string>) returns (r: Outcome<Error>)
      requires Valid()
      modifies reg`anchors
      ensures Valid()
      ensures name in old(reg.anchors) ==> r == Fail(DuplicateAnchorError(name))
                                           && reg.anchors == old(reg.anchors)
      ensures name !in old(reg.anchors) ==>
                r == Pass && reg.anchors == old(reg.anchors)[name := AnchorData(document, linkText)]
    {
      if name in reg.anchors {
        return Fail(DuplicateAnchorError(name));
      }
      reg.anchors := reg.anchors[name := AnchorData(document, linkText)];
      r := Pass;
    }

    /** `link_to_anchor`: the path to the document holding the anchor, and its link text. */
    method LinkToAnchor(name: string) returns (r: Result<(Path, Option<string>), Error>)
      requires Valid()
      ensures name !in reg.anchors ==> r == Err(UnknownAnchorError(name))
      ensures name in reg.anchors ==>
                var anchor := reg.anchors[name];
                match LinkToDocumentOf(reg.docs, config, document, documentStack, anchor.document)
                case Ok(path) => r == Ok((path, anchor.linkText))
                case Err(e) => r == Err(e)
    {
      if name !in reg.anchors {
        return Err(UnknownAnchorError(name));
      }
      var anchor := reg.anchors[name];
      var link := LinkToDocument(anchor.document);
      match link
      case Ok(path) => r := Ok((path, anchor.linkText));
      case Err(e) => r := Err(e);
    }

    /** `push_stack`: record a command, with the path of the document it comes from. */
    method PushStack(command: string, document: Option<DocId>, package: Option<string>,
                     internal: bool)
      requires Valid() && (document.Some? ==> document.value < |reg.docs|)
      modifies reg`callStack
      ensures Valid()
      ensures reg.callStack == old(reg.callStack) + [StackFrame(command,
                 if document.Some? then Some(reg.docs[document.value].relativePath) else None,
                 package, internal)]
    {
      var file := if document.Some? then Some(reg.docs[document.value].relativePath) else None;
      reg.callStack := reg.callStack + [StackFrame(command, file, package, internal)];
    }

    /** `pop_stack`: drop the most recent command. */
    method PopStack()
      requires Valid() && |reg.callStack| > 0
      modifies reg`callStack
      ensures Valid()
      ensures reg.callStack == old(reg.callStack)[..|old(reg.callStack)| - 1]
    {
      reg.callStack := reg.callStack[..|reg.callStack| - 1];
    }
  }
}
