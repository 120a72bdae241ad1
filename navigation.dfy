/** Navigation for multi-page output: the bar with links to the previous, parent, next and
    root documents, and the table of contents that lists the documents of the tree and
    expands the branch that leads to the current document. The HTML rendering of the
    table of contents is not modelled; the table of contents is given as a tree of
    entries. */
module Navigation {
  import opened Common
  import opened PathUtils
  import opened Documents

  /** `_xref_string`: a cross reference from `origin` to `target` with the given text, or
      nothing when there is no target. */
  function XrefString(docs: seq<Document>, origin: DocId, target: Option<DocId>, linkText: string): (r: string)
    requires origin < |docs| && InArena(docs, target)
    ensures r == "" <==> target.None?
    ensures target.Some? ==>
            var path := PathString(RelativePathTo(docs, origin, target.value));
            |r| == |path| + |linkText| + 6
            && StartsWith(r, "<<") && EndsWith(r, "#," + linkText + ">>")
            && r[2..|r| - |linkText| - 4] == path
  {
    if target.None? then ""
    else
      var path := PathString(RelativePathTo(docs, origin, target.value));
      var r := "<<" + path + "#," + linkText + ">>";
      assert r[2..|r| - |linkText| - 4] == path;
      r
  }

  /** The four cells of the navigation bar. `home` is the second line of the middle cell. */
  datatype NavigationCells = NavigationCells(prev: string, up: string, home: string, next: string)

  function Cells(docs: seq<Document>, d: DocId): (cells: NavigationCells)
    requires Valid(docs) && d < |docs|
    ensures cells.prev == XrefString(docs, d, docs[d].preorderPrev, "Prev")
    ensures cells.up == XrefString(docs, d, docs[d].parent, "Up")
    ensures cells.next == XrefString(docs, d, docs[d].preorderNext, "Next")
    ensures cells.home == "" <==> docs[d].root == d
    ensures cells.home != "" ==> cells.home == " +\n" + XrefString(docs, d, Some(docs[d].root), "Home")
  {
    assert DocumentValid(docs, d);
    var doc := docs[d];
    NavigationCells(
      XrefString(docs, d, doc.preorderPrev, "Prev"),
      XrefString(docs, d, doc.parent, "Up"),
      if doc.root != d then " +\n" + XrefString(docs, d, Some(doc.root), "Home") else "",
      XrefString(docs, d, doc.preorderNext, "Next"))
  }

  const BarHead := "ifdef::backend-html5[]\n++++\n<div id=\"navigation\">\n++++\nendif::[]\n"
                   + "[frame=none, grid=none, cols=\"<.^,^.^,>.^\"]\n|===\n|"
  const BarTail := "\n|===\nifdef::backend-html5[]\n++++\n</div>\n++++\nendif::[]"

  /** The three-column table of the navigation bar. */
  function Bar(cells: NavigationCells): string
  {
    BarHead + cells.prev + "\n\n|" + cells.up + cells.home + "\n\n|" + cells.next + BarTail
  }

  /** The table opens with the Prev cell and closes with the Next cell. */
  lemma BarShape(cells: NavigationCells)
    ensures StartsWith(Bar(cells), BarHead + cells.prev + "\n\n|")
    ensures EndsWith(Bar(cells), "\n\n|" + cells.next + BarTail)
  {
    var head := BarHead + cells.prev + "\n\n|";
    var tail := "\n\n|" + cells.next + BarTail;
    var middle := cells.up + cells.home;
    var bar := Bar(cells);
    assert bar == head + middle + tail;
    assert bar[..|head|] == head;
    assert bar[|bar| - |tail|..] == tail;
  }

  /** `navigation_bar`: nothing for a document without neighbours in pre-order, and
      otherwise a three-column table of the cells. */
  function NavigationBar(docs: seq<Document>, d: DocId): string
    requires Valid(docs) && d < |docs|
  {
    var doc := docs[d];
    if doc.preorderNext.None? && doc.preorderPrev.None? then ""
    else Bar(Cells(docs, d))
  }

  /** A navigation bar is generated exactly for documents that have a previous or a next
      document, and then it holds the Prev cell first and the Next cell last. */
  lemma NavigationBarDecisions(docs: seq<Document>, d: DocId)
    requires Valid(docs) && d < |docs|
    ensures NavigationBar(docs, d) == "" <==> docs[d].preorderNext.None? && docs[d].preorderPrev.None?
    ensures NavigationBar(docs, d) != "" ==>
            var cells := Cells(docs, d);
            StartsWith(NavigationBar(docs, d), BarHead + cells.prev + "\n\n|")
            && EndsWith(NavigationBar(docs, d), "\n\n|" + cells.next + BarTail)
  {
    BarShape(Cells(docs, d));
  }

  /** Each cell is filled exactly when its document exists, and the Home line appears
      exactly for documents that are not the root of their tree. */
  lemma CellsFilled(docs: seq<Document>, d: DocId)
    requires Valid(docs) && d < |docs|
    ensures var cells := Cells(docs, d);
            && (cells.prev == "" <==> docs[d].preorderPrev.None?)
            && (cells.up == "" <==> docs[d].parent.None?)
            && (cells.next == "" <==> docs[d].preorderNext.None?)
            && (cells.home == "" <==> docs[d].root == d)
  {
  }

  /** `_relative_html_link`: the path from `current` to `target` with its suffix replaced
      by ".html"; None where the path has no name, for which the source raises
      ValueError. */
  function RelativeHtmlLink(docs: seq<Document>, current: DocId, target: DocId): (r: Option<string>)
    requires current < |docs| && target < |docs|
    ensures r.None? <==> RelativePathTo(docs, current, target) == []
    ensures r.Some? ==> EndsWith(r.value, ".html")
  {
    match WithSuffix(RelativePathTo(docs, current, target), ".html")
    case Some(p) =>
      assert |p| > 0;
      LinkEndsWithName(p, ".html");
      Some(PathString(p))
    case None => None
  }

  lemma {:induction false} JoinEndsWithLast(parts: seq<string>, sep: string)
    requires |parts| > 0
    ensures EndsWith(Join(parts, sep), parts[|parts| - 1])
    decreases |parts|
  {
    if |parts| > 1 {
      JoinEndsWithLast(parts[1..], sep);
      var rest := Join(parts[1..], sep);
      var last := parts[|parts| - 1];
      assert Join(parts, sep) == parts[0] + sep + rest;
      assert (parts[0] + sep + rest)[|parts[0] + sep + rest| - |last|..] == rest[|rest| - |last|..];
    }
  }

  lemma LinkEndsWithName(p: Path, suffix: string)
    requires |p| > 0 && EndsWith(Name(p), suffix)
    ensures EndsWith(PathString(p), suffix)
  {
    JoinEndsWithLast(p, "/");
    var s := PathString(p);
    var name := Name(p);
    assert s[|s| - |suffix|..] == s[|s| - |name|..][|name| - |suffix|..];
  }

  /** `doc` and all the documents above it, all in the arena and no deeper than `doc`. */
  ghost function Ancestors(docs: seq<Document>, d: DocId): (r: set<DocId>)
    requires Valid(docs) && d < |docs|
    ensures d in r
    ensures forall a | a in r :: a < |docs| && docs[a].depth <= docs[d].depth
    decreases docs[d].depth
  {
    assert DocumentValid(docs, d);
    match docs[d].parent
    case None => {d}
    case Some(p) => {d} + Ancestors(docs, p)
  }

  /** The ancestors of a document share its root and include that root, which has no
      parent. */
  lemma {:induction false} AncestorsReachRoot(docs: seq<Document>, d: DocId)
    requires Valid(docs) && d < |docs|
    ensures forall a | a in Ancestors(docs, d) :: docs[a].root == docs[d].root
    ensures docs[d].root in Ancestors(docs, d) && docs[docs[d].root].parent.None?
    decreases docs[d].depth
  {
    assert DocumentValid(docs, d);
    match docs[d].parent {
      case None =>
      case Some(p) =>
        AncestorsReachRoot(docs, p);
    }
  }

  /** The breadcrumb walk of `multipage_toc`: from `doc` up through its parents, collecting
      each; the walk ends at the document without parent, which is the root. */
  method Breadcrumbs(docs: seq<Document>, d: DocId) returns (breadcrumbs: set<DocId>, top: DocId)
    requires Valid(docs) && d < |docs|
    ensures breadcrumbs == Ancestors(docs, d)
    ensures top < |docs| && top == docs[d].root && top in breadcrumbs && docs[top].parent.None?
  {
    AncestorsReachRoot(docs, d);
    var doc := d;
    breadcrumbs := {doc};
    var parent := docs[doc].parent;
    assert DocumentValid(docs, doc);
    while parent.Some?
      invariant doc < |docs| && parent == docs[doc].parent && DocumentValid(docs, doc)
      invariant doc in breadcrumbs && breadcrumbs + Ancestors(docs, doc) == Ancestors(docs, d)
      invariant docs[doc].root == docs[d].root
      decreases docs[doc].depth
    {
      doc := parent.value;
      breadcrumbs := breadcrumbs + {doc};
      parent := docs[doc].parent;
      assert DocumentValid(docs, doc);
    }
    top := doc;
  }

  /** One entry of a table of contents: the document, its link and title, and the list
      below it when it is expanded. */
  datatype TocEntry = TocEntry(doc: DocId, link: Option<string>, title: string, sub: TocList)

  /** A list of entries at a level, or no list at all. */
  datatype TocList = NoList | TocList(level: nat, entries: seq<TocEntry>)

  /** The children of `d` that are included in `d` itself, in order. */
  function ListedChildren(docs: seq<Document>, d: DocId): (r: seq<DocId>)
    requires d < |docs|
  {
    Filter(docs[d].children, (c: DocId) => c < |docs| && docs[c].includedIn == Some(d))
  }

  /** The listed children are the children of `d` included in `d` itself, all of them, in
      the order of the children. */
  lemma ListedChildrenInOrder(docs: seq<Document>, d: DocId)
    requires Valid(docs) && d < |docs|
    ensures IsSubsequence(ListedChildren(docs, d), docs[d].children)
    ensures forall c | c in ListedChildren(docs, d) :: c < |docs| && docs[c].includedIn == Some(d)
    ensures forall i | 0 <= i < |docs[d].children| ::
              var c := docs[d].children[i];
              c < |docs| && docs[c].includedIn == Some(d) ==> c in ListedChildren(docs, d)
    ensures |ListedChildren(docs, d)|
            + |Filter(docs[d].children, (c: DocId) => !(c < |docs| && docs[c].includedIn == Some(d)))|
            == |docs[d].children|
  {
    FilterIsSubsequence(docs[d].children, (c: DocId) => c < |docs| && docs[c].includedIn == Some(d));
    FilterPartition(docs[d].children, (c: DocId) => c < |docs| && docs[c].includedIn == Some(d),
                    (c: DocId) => !(c < |docs| && docs[c].includedIn == Some(d)));
  }

  /** `_toc`: list the children of `d` that are included in `d`, at `level`; expand each
      listed child that has children of its own and lies on the breadcrumb path. */
  function Toc(docs: seq<Document>, d: DocId, current: DocId, level: nat, breadcrumbs: set<DocId>): (r: TocList)
    requires Valid(docs) && d < |docs| && current < |docs|
    requires forall b | b in breadcrumbs :: b < |docs| && docs[b].depth <= docs[current].depth
    ensures r.NoList? <==> ListedChildren(docs, d) == []
    ensures r.TocList? ==> r.level == level
    ensures r.TocList? ==>
            |r.entries| == |ListedChildren(docs, d)|
            && forall i | 0 <= i < |r.entries| ::
                 var e := r.entries[i];
                 && e.doc == ListedChildren(docs, d)[i] && e.doc < |docs|
                 && e.title == docs[e.doc].title
                 && e.link == RelativeHtmlLink(docs, current, e.doc)
                 && (e.sub.TocList? ==> docs[e.doc].children != [] && e.doc in breadcrumbs
                                        && e.sub.level == level + 1)
                 && (docs[e.doc].children != [] && e.doc in breadcrumbs ==>
                       ListedChildren(docs, e.doc) != [] ==> e.sub.TocList?)
    decreases docs[current].depth - docs[d].depth, 1
  {
    assert DocumentValid(docs, d);
    var listed := ListedChildren(docs, d);
    if |listed| == 0 then NoList
    else
      var entries := seq(|listed|, i requires 0 <= i < |listed| =>
        assert listed[i] in docs[d].children;
        TocEntryFor(docs, listed[i], current, level, breadcrumbs));
      assert forall i | 0 <= i < |entries| ::
               var e := entries[i];
               && e.doc == listed[i] && e.doc < |docs| && e.title == docs[e.doc].title
               && e.link == RelativeHtmlLink(docs, current, e.doc)
               && (e.sub.TocList? ==> docs[e.doc].children != [] && e.doc in breadcrumbs
                                      && e.sub.level == level + 1)
               && (docs[e.doc].children != [] && e.doc in breadcrumbs ==>
                     ListedChildren(docs, e.doc) != [] ==> e.sub.TocList?) by {
        forall i | 0 <= i < |entries|
          ensures var e := entries[i];
                  && e.doc == listed[i] && e.doc < |docs| && e.title == docs[e.doc].title
                  && e.link == RelativeHtmlLink(docs, current, e.doc)
                  && (e.sub.TocList? ==> docs[e.doc].children != [] && e.doc in breadcrumbs
                                         && e.sub.level == level + 1)
                  && (docs[e.doc].children != [] && e.doc in breadcrumbs ==>
                        ListedChildren(docs, e.doc) != [] ==> e.sub.TocList?)
        {
          assert listed[i] in docs[d].children;
          var e := TocEntryFor(docs, listed[i], current, level, breadcrumbs);
          assert entries[i] == e;
        }
      }
      TocList(level, entries)
  }

  /** The entry of `_toc` for one listed child. */
  function TocEntryFor(docs: seq<Document>, child: DocId, current: DocId, level: nat, breadcrumbs: set<DocId>): (e: TocEntry)
    requires Valid(docs) && child < |docs| && current < |docs|
    requires forall b | b in breadcrumbs :: b < |docs| && docs[b].depth <= docs[current].depth
    ensures e.doc == child && e.title == docs[child].title
    ensures e.link == RelativeHtmlLink(docs, current, child)
    ensures e.sub.TocList? ==> docs[child].children != [] && child in breadcrumbs
                               && e.sub.level == level + 1
    ensures |docs[child].children| > 0 && child in breadcrumbs ==>
              e.sub == Toc(docs, child, current, level + 1, breadcrumbs)
    ensures !(|docs[child].children| > 0 && child in breadcrumbs) ==> e.sub.NoList?
    decreases docs[current].depth - docs[child].depth + 1, 0
  {
    TocEntry(child, RelativeHtmlLink(docs, current, child), docs[child].title,
             if |docs[child].children| > 0 && child in breadcrumbs
             then Toc(docs, child, current, level + 1, breadcrumbs)
             else NoList)
  }

  /** What `multipage_toc` decides: a title linking to the root of the tree, and the
      table of contents of the root's children with the path to `doc` expanded. */
  datatype MultipageTocPage = MultipageTocPage(titleLink: Option<string>, title: string, toc: TocList)

  method MultipageToc(docs: seq<Document>, d: DocId) returns (page: MultipageTocPage)
    requires Valid(docs) && d < |docs|
    ensures var root := docs[d].root;
            root < |docs|
            && page.titleLink == RelativeHtmlLink(docs, d, root)
            && page.title == docs[root].title
            && page.toc == Toc(docs, root, d, 1, Ancestors(docs, d))
  {
    var breadcrumbs, top := Breadcrumbs(docs, d);
    AncestorsReachRoot(docs, d);
    page := MultipageTocPage(RelativeHtmlLink(docs, d, top), docs[top].title,
                             Toc(docs, top, d, 1, breadcrumbs));
  }

  /** In the table of contents of the root, a listed entry is expanded exactly when it
      lies on the breadcrumb path from the root to `doc` and has listed children of its
      own; an expanded entry lists them at level 2. */
  lemma TocExpandsBreadcrumbs(docs: seq<Document>, d: DocId, i: nat)
    requires Valid(docs) && d < |docs|
    requires docs[d].root < |docs|
    requires var t := Toc(docs, docs[d].root, d, 1, Ancestors(docs, d));
             t.TocList? && i < |t.entries|
    ensures var t := Toc(docs, docs[d].root, d, 1, Ancestors(docs, d));
            var e := t.entries[i];
            && (e.sub.TocList? ==> e.doc in Ancestors(docs, d) && ListedChildren(docs, e.doc) != []
                                   && e.sub.level == 2)
            && (e.doc in Ancestors(docs, d) && ListedChildren(docs, e.doc) != [] ==> e.sub.TocList?)
  {
    AncestorsReachRoot(docs, d);
    var t := Toc(docs, docs[d].root, d, 1, Ancestors(docs, d));
    var e := t.entries[i];
    if ListedChildren(docs, e.doc) != [] {
      FilterIsSubsequence(docs[e.doc].children, (c: DocId) => c < |docs| && docs[c].includedIn == Some(e.doc));
    }
  }
}
