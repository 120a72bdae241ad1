/** The documents being generated, as the generator context and the navigation see them.

    Documents live in an arena and refer to each other by handle (an index into the
    arena): the package that owns a document, the documents that embed it, and its place
    in the document tree (parent, children, the document it is included in, and its
    neighbours in pre-order). `depth` is the number of parent steps up to the tree root;
    it makes the tree shape explicit. */
module Documents {
  import opened Common
  import opened PathUtils

  type DocId = nat

  /** The name of the package that holds the input files. */
  const INPUT_PACKAGE_NAME := "INPUT"

  datatype Document = Document(
    relativePath: Path,
    packageName: string,
    title: string,
    isEmbedded: bool,
    embeddedIn: set<DocId>,
    /** what `find_embedder()` answers */
    embedder: Option<DocId>,
    /** what `root()` answers */
    root: DocId,
    parent: Option<DocId>,
    children: seq<DocId>,
    includedIn: Option<DocId>,
    preorderNext: Option<DocId>,
    preorderPrev: Option<DocId>,
    depth: nat)

  datatype Configuration = Configuration(multipage: bool, warningsAreErrors: bool)

  predicate InArena(docs: seq<Document>, d: Option<DocId>)
  {
    d.Some? ==> d.value < |docs|
  }

  /** Every handle points into the arena, a parent is one level up and shares the root,
      children are one level down, a document without parent is its own root, and a
      document embedded in exactly one other names that one as its embedder. */
  predicate Valid(docs: seq<Document>)
  {
    forall d | 0 <= d < |docs| :: DocumentValid(docs, d)
  }

  predicate DocumentValid(docs: seq<Document>, d: nat)
    requires d < |docs|
  {
    var doc := docs[d];
    && doc.root < |docs|
    && InArena(docs, doc.parent) && InArena(docs, doc.includedIn) && InArena(docs, doc.embedder)
    && InArena(docs, doc.preorderNext) && InArena(docs, doc.preorderPrev)
    && (forall e | e in doc.embeddedIn :: e < |docs|)
    && (|doc.embeddedIn| == 1 ==> doc.embedder.Some? && doc.embedder.value in doc.embeddedIn)
    && (forall i | 0 <= i < |doc.children| :: doc.children[i] < |docs|
                                              && docs[doc.children[i]].depth == doc.depth + 1)
    && (match doc.parent
        case None => doc.depth == 0 && doc.root == d
        case Some(p) => docs[p].depth + 1 == doc.depth && docs[p].root == doc.root)
  }

  /** `a.relative_path_to(b)`: the path from document `a` to document `b`, computed as
      `relative_path` between their paths. */
  function RelativePathTo(docs: seq<Document>, a: DocId, b: DocId): Path
    requires a < |docs| && b < |docs|
  {
    RelativePathOf(docs[a].relativePath, docs[b].relativePath)
  }

  /** A document as the package manager's `make_document` produces it: not yet placed in
      the document tree and not embedded anywhere. */
  datatype NewDocument = NewDocument(relativePath: Path, packageName: string, title: string)

  /** The new document `nd` stored under handle `id`: its own root, without parent,
      children, embedders or neighbours. */
  function Standalone(nd: NewDocument, id: DocId): (doc: Document)
    ensures doc.relativePath == nd.relativePath && doc.packageName == nd.packageName
    ensures doc.root == id && doc.parent.None? && doc.depth == 0 && !doc.isEmbedded
  {
    Document(nd.relativePath, nd.packageName, nd.title, false, {}, None, id, None, [], None,
             None, None, 0)
  }

  /** Adding a standalone document to a well-formed arena keeps it well-formed. */
  lemma AppendStandaloneKeepsValid(docs: seq<Document>, nd: NewDocument)
    requires Valid(docs)
    ensures Valid(docs + [Standalone(nd, |docs|)])
  {
    var all := docs + [Standalone(nd, |docs|)];
    forall d | 0 <= d < |all|
      ensures DocumentValid(all, d)
    {
      if d < |docs| {
        assert DocumentValid(docs, d);
        var doc := docs[d];
        assert all[d] == doc;
        forall i | 0 <= i < |doc.children|
          ensures all[doc.children[i]] == docs[doc.children[i]]
        {
        }
        if doc.parent.Some? {
          assert all[doc.parent.value] == docs[doc.parent.value];
        }
      }
    }
  }
}
