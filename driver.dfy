/** The Doxygen driver: it collects the API reference elements the language parsers
    register, together with the type references they could not resolve yet, and resolves
    those references once all files are read.

    Type references and elements are objects the driver updates in place; they live in
    arenas and are named by handle. The lookup in the API reference is a parameter. */
module Driver {
  import opened Common
  import opened Model

  /** The tags of the languages that have a parser. */
  const KNOWN_LANGUAGES: set<string> := {"cpp", "java", "objc", "python"}

  /** `safe_language_tag`: the lower-cased language name, with "c++" as "cpp" and
      "objective-c" as "objc"; no name gives "". */
  function SafeLanguageTag(name: Option<string>): (r: string)
    ensures name.None? ==> r == ""
    ensures name.Some? ==> r == (if Lower(name.value) == "c++" then "cpp"
                                 else if Lower(name.value) == "objective-c" then "objc"
                                 else Lower(name.value))
  {
    if name.None? then ""
    else
      var lowered := Lower(name.value);
      if lowered == "c++" then "cpp" else if lowered == "objective-c" then "objc" else lowered
  }

  /** A tag is already safe: converting it again changes nothing. */
  lemma SafeLanguageTagIdempotent(name: Option<string>)
    ensures SafeLanguageTag(Some(SafeLanguageTag(name))) == SafeLanguageTag(name)
  {
    if name.Some? {
      var lowered := Lower(name.value);
      LowerIdempotent(name.value);
      if lowered == "c++" {
        assert Lower("cpp") == "cpp";
      } else if lowered == "objective-c" {
        assert Lower("objc") == "objc";
      }
    } else {
      assert Lower("") == "";
    }
  }

  lemma SafeLanguageTagExamples()
    ensures SafeLanguageTag(Some("C++")) == "cpp"
    ensures SafeLanguageTag(Some("Objective-C")) == "objc"
    ensures SafeLanguageTag(Some("Java")) == "java"
    ensures SafeLanguageTag(None) == ""
  {
    assert Lower("C++") == "c++";
    assert Lower("Objective-C") == "objective-c";
    assert Lower("Java") == "java";
  }

  /** The forced language the driver keeps: the safe tag of the name, when that is a
      language with a parser; otherwise none, and languages are detected per element. */
  function ForcedLanguage(name: Option<string>): (r: Option<string>)
    ensures r.None? <==> SafeLanguageTag(name) !in KNOWN_LANGUAGES
    ensures r.Some? ==> r.value == SafeLanguageTag(name) && r.value in KNOWN_LANGUAGES
  {
    var tag := SafeLanguageTag(name);
    if tag == "" then None else if tag !in KNOWN_LANGUAGES then None else Some(tag)
  }

  lemma ForcedLanguageExamples()
    ensures ForcedLanguage(Some("")) == None
    ensures ForcedLanguage(Some("unknown")) == None
    ensures ForcedLanguage(Some("java")) == Some("java")
    ensures ForcedLanguage(Some("objc")) == Some("objc")
    ensures ForcedLanguage(None) == None
  {
    assert Lower("") == "";
    assert Lower("unknown") == "unknown";
    assert Lower("java") == "java";
    assert Lower("objc") == "objc";
  }

  // Reference resolution

  type RefId = nat
  type ElemId = nat

  /** What `ApiReference.find` answers for the name, id, language and namespace of a
      reference: one element, none, or several (an ambiguous lookup). */
  datatype Lookup = Found(element: ElemId) | NotFound | Ambiguous

  /** The lookup only finds registered elements. */
  ghost predicate FindsWithin(find: TypeRef -> Lookup, count: nat)
  {
    forall t :: find(t).Found? ==> find(t).element < count
  }

  /** `resolve_reference`: the element found, and nothing both when there is none and when
      the lookup is ambiguous. */
  function ResolveReference(find: TypeRef -> Lookup, ref: TypeRef): (r: Option<ElemId>)
    ensures r.Some? <==> find(ref).Found?
    ensures r.Some? ==> r.value == find(ref).element
    ensures find(ref).Ambiguous? ==> r.None?
  {
    match find(ref)
    case Found(e) => Some(e)
    case NotFound => None
    case Ambiguous => None
  }

  /** A pending plain reference whose lookup fails. */
  predicate Unresolvable(find: TypeRef -> Lookup, typeRefs: seq<TypeRef>, h: RefId)
  {
    h < |typeRefs| && ResolveReference(find, typeRefs[h]).None?
  }

  /** A pending inner-type reference, with its parent, whose lookup fails. */
  predicate InnerUnresolvable(find: TypeRef -> Lookup, typeRefs: seq<TypeRef>, x: (ElemId, RefId))
  {
    Unresolvable(find, typeRefs, x.1)
  }

  /** The plain references that stay pending, in order. */
  function StillUnresolved(find: TypeRef -> Lookup, typeRefs: seq<TypeRef>, pending: seq<RefId>): seq<RefId>
  {
    Filter(pending, h => Unresolvable(find, typeRefs, h))
  }

  /** The inner-type references that stay pending, in order. */
  function StillUnresolvedInner(find: TypeRef -> Lookup, typeRefs: seq<TypeRef>,
                                inner: seq<(ElemId, RefId)>): seq<(ElemId, RefId)>
  {
    Filter(inner, x => InnerUnresolvable(find, typeRefs, x))
  }

  /** The type references after resolving the `pending` ones: each one found takes the id
      and kind of its element; all others keep their value. */
  function ResolvedTypeRefs(find: TypeRef -> Lookup, typeRefs: seq<TypeRef>, elements: seq<Compound>,
                            pending: seq<RefId>): (r: seq<TypeRef>)
    requires FindsWithin(find, |elements|)
    ensures |r| == |typeRefs|
  {
    seq(|typeRefs|, h requires 0 <= h < |typeRefs| =>
      if h in pending then
        match ResolveReference(find, typeRefs[h])
        case Some(e) => Resolve(typeRefs[h], elements[e].Base())
        case None => typeRefs[h]
      else typeRefs[h])
  }

  /** Every pending reference ends up either resolved to the element found for it or
      still pending, never both, and the ones still pending keep their order. A reference
      that is not pending is left alone. */
  lemma ResolutionOutcome(find: TypeRef -> Lookup, typeRefs: seq<TypeRef>, elements: seq<Compound>,
                          pending: seq<RefId>)
    requires FindsWithin(find, |elements|)
    requires forall i | 0 <= i < |pending| :: pending[i] < |typeRefs|
    ensures var after := ResolvedTypeRefs(find, typeRefs, elements, pending);
            var still := StillUnresolved(find, typeRefs, pending);
            && IsSubsequence(still, pending)
            && |still| + |Filter(pending, h => !Unresolvable(find, typeRefs, h))| == |pending|
            && (forall h | 0 <= h < |typeRefs| ::
                  && (h in still <==> h in pending && find(typeRefs[h]).Found? == false)
                  && (h !in pending || h in still ==> after[h] == typeRefs[h])
                  && (h in pending && find(typeRefs[h]).Found? ==>
                        var e := elements[find(typeRefs[h]).element];
                        after[h].id == e.id && after[h].kind == Some(e.kind)
                        && after[h].(id := typeRefs[h].id, kind := typeRefs[h].kind) == typeRefs[h]))
  {
    var still := StillUnresolved(find, typeRefs, pending);
    FilterIsSubsequence(pending, h => Unresolvable(find, typeRefs, h));
    FilterPartition(pending, h => Unresolvable(find, typeRefs, h), h => !Unresolvable(find, typeRefs, h));
    forall h | 0 <= h < |typeRefs|
      ensures h in still <==> h in pending && find(typeRefs[h]).Found? == false
    {
      if h in pending && !find(typeRefs[h]).Found? {
        var i :| 0 <= i < |pending| && pending[i] == h;
        assert Unresolvable(find, typeRefs, pending[i]);
      }
    }
  }

  /** The inner-type references still pending are exactly those whose lookup fails, in
      their original order. */
  lemma InnerResolutionOutcome(find: TypeRef -> Lookup, typeRefs: seq<TypeRef>,
                               inner: seq<(ElemId, RefId)>)
    ensures var still := StillUnresolvedInner(find, typeRefs, inner);
            && IsSubsequence(still, inner)
            && |still| + |Filter(inner, x => !InnerUnresolvable(find, typeRefs, x))| == |inner|
            && (forall x | x in still :: InnerUnresolvable(find, typeRefs, x))
            && (forall i | 0 <= i < |inner| :: InnerUnresolvable(find, typeRefs, inner[i]) ==> inner[i] in still)
  {
    FilterIsSubsequence(inner, x => InnerUnresolvable(find, typeRefs, x));
    FilterPartition(inner, x => InnerUnresolvable(find, typeRefs, x),
                    x => !InnerUnresolvable(find, typeRefs, x));
  }

  /** One inner-type reference processed: when its lookup succeeds, the element found takes
      the protection of the reference if it has one, and is appended to the members of the
      parent. */
  function Attach(find: TypeRef -> Lookup, typeRefs: seq<TypeRef>, elements: seq<Compound>,
                  x: (ElemId, RefId)): (r: seq<Compound>)
    requires FindsWithin(find, |elements|) && x.0 < |elements| && x.1 < |typeRefs|
    ensures |r| == |elements|
  {
    var ref := typeRefs[x.1];
    match ResolveReference(find, ref)
    case None => elements
    case Some(e) =>
      var updated := if Truthy(ref.prot) then elements[e := elements[e].(prot := ref.prot.value)]
                     else elements;
      updated[x.0 := updated[x.0].(members := updated[x.0].members + [updated[e]])]
  }

  /** `a` is `b` up to its members and its protection: the only fields the inner-type pass
      writes. */
  predicate SameButMembersAndProt(a: Compound, b: Compound)
  {
    a == b.(members := a.members, prot := a.prot)
  }

  /** One inner-type reference: a failed lookup changes nothing. When the lookup finds
      `e`, the element `e` takes the reference's protection if that is non-empty and keeps
      its own otherwise; the parent gains exactly one member, `e` as it then is; no other
      protection and no other member list changes, and no element changes any other field. */
  lemma AttachProtection(find: TypeRef -> Lookup, typeRefs: seq<TypeRef>, elements: seq<Compound>,
                         x: (ElemId, RefId))
    requires FindsWithin(find, |elements|) && x.0 < |elements| && x.1 < |typeRefs|
    ensures var r := Attach(find, typeRefs, elements, x);
            var ref := typeRefs[x.1];
            && (find(ref).Found? == false ==> r == elements)
            && (find(ref).Found? ==>
                  var e := find(ref).element;
                  var prot := if Truthy(ref.prot) then ref.prot.value else elements[e].prot;
                  var n := |elements[x.0].members|;
                  && r[e].prot == prot
                  && |r[x.0].members| == n + 1
                  && r[x.0].members[..n] == elements[x.0].members
                  && r[x.0].members[n] == elements[e].(prot := prot)
                  && (forall q | 0 <= q < |elements| && q != e :: r[q].prot == elements[q].prot)
                  && (forall q | 0 <= q < |elements| && q != x.0 :: r[q].members == elements[q].members))
            && forall q | 0 <= q < |elements| :: SameButMembersAndProt(r[q], elements[q])
  {
    var ref := typeRefs[x.1];
    if find(ref).Found? {
      var e := find(ref).element;
      var n := |elements[x.0].members|;
      var r := Attach(find, typeRefs, elements, x);
      assert r[x.0].members[..n] == elements[x.0].members;
    }
  }

  /** The protection of element `p` after the inner-type references `inner`, starting from
      `prot`: that of the last reference found at `p` with a non-empty protection. */
  function ProtectionAfter(find: TypeRef -> Lookup, typeRefs: seq<TypeRef>, inner: seq<(ElemId, RefId)>,
                           p: ElemId, prot: string): string
    requires forall i | 0 <= i < |inner| :: inner[i].1 < |typeRefs|
    decreases |inner|
  {
    if |inner| == 0 then prot
    else
      var ref := typeRefs[inner[|inner| - 1].1];
      if find(ref) == Found(p) && Truthy(ref.prot) then ref.prot.value
      else ProtectionAfter(find, typeRefs, inner[..|inner| - 1], p, prot)
  }

  /** After the whole pass, every element carries the protection of the last reference
      found at it that has one, or its own when there is none, and keeps every field other
      than its members and its protection. */
  lemma {:induction false} AttachAllProtections(find: TypeRef -> Lookup, typeRefs: seq<TypeRef>,
                                                elements: seq<Compound>, inner: seq<(ElemId, RefId)>)
    requires FindsWithin(find, |elements|) && InnerRefsWithin(inner, |elements|, |typeRefs|)
    ensures var r := AttachAll(find, typeRefs, elements, inner);
            forall p | 0 <= p < |elements| ::
              && r[p].prot == ProtectionAfter(find, typeRefs, inner, p, elements[p].prot)
              && SameButMembersAndProt(r[p], elements[p])
    decreases |inner|
  {
    if |inner| > 0 {
      var init := inner[..|inner| - 1];
      var x := inner[|inner| - 1];
      assert InnerRefsWithin(init, |elements|, |typeRefs|);
      AttachAllProtections(find, typeRefs, elements, init);
      var before := AttachAll(find, typeRefs, elements, init);
      AttachProtection(find, typeRefs, before, x);
    }
  }

  predicate InnerRefsWithin(inner: seq<(ElemId, RefId)>, elementCount: nat, refCount: nat)
  {
    forall i | 0 <= i < |inner| :: inner[i].0 < elementCount && inner[i].1 < refCount
  }

  /** The elements after processing the inner-type references in order. */
  function AttachAll(find: TypeRef -> Lookup, typeRefs: seq<TypeRef>, elements: seq<Compound>,
                     inner: seq<(ElemId, RefId)>): (r: seq<Compound>)
    requires FindsWithin(find, |elements|) && InnerRefsWithin(inner, |elements|, |typeRefs|)
    ensures |r| == |elements|
    decreases |inner|
  {
    if |inner| == 0 then elements
    else
      var before := AttachAll(find, typeRefs, elements, inner[..|inner| - 1]);
      Attach(find, typeRefs, before, inner[|inner| - 1])
  }

  /** The handles of the elements found for the inner-type references of `parent`, in order. */
  function AttachedTo(find: TypeRef -> Lookup, typeRefs: seq<TypeRef>, inner: seq<(ElemId, RefId)>,
                      parent: ElemId): (r: seq<ElemId>)
    requires forall i | 0 <= i < |inner| :: inner[i].1 < |typeRefs|
    ensures |r| <= |inner|
    decreases |inner|
  {
    if |inner| == 0 then []
    else
      var x := inner[|inner| - 1];
      AttachedTo(find, typeRefs, inner[..|inner| - 1], parent)
      + (if x.0 == parent && find(typeRefs[x.1]).Found? then [find(typeRefs[x.1]).element] else [])
  }

  /** Attaching inner types only adds members and changes protections: every element keeps
      every other field, every parent keeps its members and gains, in order, the elements found
      for its inner-type references. */
  lemma {:induction false} AttachAllAppendsMembers(find: TypeRef -> Lookup, typeRefs: seq<TypeRef>,
                                                   elements: seq<Compound>, inner: seq<(ElemId, RefId)>)
    requires FindsWithin(find, |elements|) && InnerRefsWithin(inner, |elements|, |typeRefs|)
    ensures var r := AttachAll(find, typeRefs, elements, inner);
            forall p | 0 <= p < |elements| ::
              var added := AttachedTo(find, typeRefs, inner, p);
              var n := |elements[p].members|;
              && SameButMembersAndProt(r[p], elements[p])
              && |r[p].members| == n + |added|
              && r[p].members[..n] == elements[p].members
              && forall k | 0 <= k < |added| ::
                   added[k] < |elements| && SameButMembersAndProt(r[p].members[n + k], elements[added[k]])
    decreases |inner|
  {
    if |inner| > 0 {
      var init := inner[..|inner| - 1];
      var x := inner[|inner| - 1];
      assert InnerRefsWithin(init, |elements|, |typeRefs|);
      var before := AttachAll(find, typeRefs, elements, init);
      AttachAllAppendsMembers(find, typeRefs, elements, init);
      var r := AttachAll(find, typeRefs, elements, inner);
      assert r == Attach(find, typeRefs, before, x);
      forall p | 0 <= p < |elements|
        ensures var added := AttachedTo(find, typeRefs, inner, p);
                var n := |elements[p].members|;
                && SameButMembersAndProt(r[p], elements[p])
                && |r[p].members| == n + |added|
                && r[p].members[..n] == elements[p].members
                && forall k | 0 <= k < |added| ::
                     added[k] < |elements| && SameButMembersAndProt(r[p].members[n + k], elements[added[k]])
      {
        AttachStep(find, typeRefs, elements, before, x, p, AttachedTo(find, typeRefs, init, p));
      }
    }
  }

  /** One step of `AttachAllAppendsMembers`. */
  lemma AttachStep(find: TypeRef -> Lookup, typeRefs: seq<TypeRef>, elements: seq<Compound>,
                   before: seq<Compound>, x: (ElemId, RefId), p: ElemId, added: seq<ElemId>)
    requires FindsWithin(find, |elements|) && |before| == |elements|
    requires x.0 < |elements| && x.1 < |typeRefs| && p < |elements|
    requires forall q | 0 <= q < |elements| :: SameButMembersAndProt(before[q], elements[q])
    requires var n := |elements[p].members|;
             && |before[p].members| == n + |added|
             && before[p].members[..n] == elements[p].members
             && forall k | 0 <= k < |added| ::
                  added[k] < |elements| && SameButMembersAndProt(before[p].members[n + k], elements[added[k]])
    ensures var r := Attach(find, typeRefs, before, x);
            var more := added + (if x.0 == p && find(typeRefs[x.1]).Found?
                                 then [find(typeRefs[x.1]).element] else []);
            var n := |elements[p].members|;
            && SameButMembersAndProt(r[p], elements[p])
            && |r[p].members| == n + |more|
            && r[p].members[..n] == elements[p].members
            && forall k | 0 <= k < |more| ::
                 more[k] < |elements| && SameButMembersAndProt(r[p].members[n + k], elements[more[k]])
  {
    var n := |elements[p].members|;
    var ref := typeRefs[x.1];
    var r := Attach(find, typeRefs, before, x);
    AttachProtection(find, typeRefs, before, x);
    SameButMembersAndProtTransitive(r[p], before[p], elements[p]);
    if find(ref).Found? && x.0 == p {
      var e := find(ref).element;
      var m := |before[p].members|;
      assert r[p].members[..m] == before[p].members;
      SameButMembersAndProtTransitive(r[p].members[m], before[e], elements[e]);
      assert r[p].members[..n] == r[p].members[..m][..n];
    }
  }

  lemma SameButMembersAndProtTransitive(a: Compound, b: Compound, c: Compound)
    requires SameButMembersAndProt(a, b) && SameButMembersAndProt(b, c)
    ensures SameButMembersAndProt(a, c)
  {
  }

  /** The plain references still pending are distinct handles into the arena. */
  lemma StillPendingWithin(find: TypeRef -> Lookup, typeRefs: seq<TypeRef>, pending: seq<RefId>)
    requires Distinct(pending) && forall k | 0 <= k < |pending| :: pending[k] < |typeRefs|
    ensures var still := StillUnresolved(find, typeRefs, pending);
            Distinct(still) && forall k | 0 <= k < |still| :: still[k] < |typeRefs|
  {
    var still := StillUnresolved(find, typeRefs, pending);
    FilterKeepsDistinct(pending, h => Unresolvable(find, typeRefs, h));
    forall k | 0 <= k < |still| ensures still[k] < |typeRefs| {
      assert still[k] in pending;
    }
  }

  /** The inner-type references still pending point into the arenas. */
  lemma StillPendingInnerWithin(find: TypeRef -> Lookup, typeRefs: seq<TypeRef>,
                                inner: seq<(ElemId, RefId)>, elementCount: nat)
    requires InnerRefsWithin(inner, elementCount, |typeRefs|)
    ensures InnerRefsWithin(StillUnresolvedInner(find, typeRefs, inner), elementCount, |typeRefs|)
  {
    var still := StillUnresolvedInner(find, typeRefs, inner);
    forall k | 0 <= k < |still| ensures still[k].0 < elementCount && still[k].1 < |typeRefs| {
      assert still[k] in inner;
    }
  }

  /** Progress of the resolution, as a progress bar sees it. */
  class Progress {
    var total: nat
    var ready: nat

    constructor ()
      ensures total == 0 && ready == 0
    {
      total := 0;
      ready := 0;
    }

    /** One more step done. */
    method Update()
      modifies this
      ensures ready == old(ready) + 1 && total == old(total)
    {
      ready := ready + 1;
    }
  }

  class Driver {
    /** Every type reference registered for resolution, by handle. */
    var typeRefs: seq<TypeRef>
    /** The API reference: every registered element, by handle. */
    var elements: seq<Compound>
    var unresolvedRefs: seq<RefId>
    /** Inner-type references, each with the compound it belongs to. */
    var innerTypeRefs: seq<(ElemId, RefId)>
    var forceLanguage: Option<string>

    ghost predicate Valid()
      reads this
    {
      && (forall i | 0 <= i < |unresolvedRefs| :: unresolvedRefs[i] < |typeRefs|)
      && Distinct(unresolvedRefs)
      && InnerRefsWithin(innerTypeRefs, |elements|, |typeRefs|)
    }

    /** `Driver(force_language)`. */
    constructor (forceLanguage: Option<string>)
      ensures Valid()
      ensures this.forceLanguage == ForcedLanguage(forceLanguage)
      ensures typeRefs == [] && elements == [] && unresolvedRefs == [] && innerTypeRefs == []
    {
      typeRefs := [];
      elements := [];
      unresolvedRefs := [];
      innerTypeRefs := [];
      var tag := SafeLanguageTag(forceLanguage);
      if tag == "" {
        this.forceLanguage := None;
      } else if tag !in KNOWN_LANGUAGES {
        this.forceLanguage := None;
      } else {
        this.forceLanguage := Some(tag);
      }
    }

    /** `unresolved_ref_count`: the references still waiting for resolution. */
    function UnresolvedRefCount(): nat
      reads this
    {
      |unresolvedRefs| + |innerTypeRefs|
    }

    /** `register`: add an element to the API reference. */
    method Register(element: Compound) returns (e: ElemId)
      requires Valid()
      modifies this`elements
      ensures Valid()
      ensures e == |old(elements)| && elements == old(elements) + [element]
    {
      e := |elements|;
      elements := elements + [element];
    }

    /** `unresolved_ref`: keep a type reference for resolution. */
    method UnresolvedRef(ref: TypeRef) returns (h: RefId)
      requires Valid()
      modifies this`typeRefs, this`unresolvedRefs
      ensures Valid()
      ensures h == |old(typeRefs)| && typeRefs == old(typeRefs) + [ref]
      ensures unresolvedRefs == old(unresolvedRefs) + [h]
      ensures UnresolvedRefCount() == old(UnresolvedRefCount()) + 1
    {
      h := |typeRefs|;
      typeRefs := typeRefs + [ref];
      unresolvedRefs := unresolvedRefs + [h];
    }

    /** `inner_type_ref`: keep a reference to an inner type of `parent` for resolution. */
    method InnerTypeRef(parent: ElemId, ref: TypeRef) returns (h: RefId)
      requires Valid() && parent < |elements|
      modifies this`typeRefs, this`innerTypeRefs
      ensures Valid()
      ensures h == |old(typeRefs)| && typeRefs == old(typeRefs) + [ref]
      ensures innerTypeRefs == old(innerTypeRefs) + [(parent, h)]
      ensures UnresolvedRefCount() == old(UnresolvedRefCount()) + 1
    {
      h := |typeRefs|;
      typeRefs := typeRefs + [ref];
      innerTypeRefs := innerTypeRefs + [(parent, h)];
    }

    /** `resolve_references`: look up every pending reference once. Plain references found
        are resolved in place; inner-type references found add their element to the
        members of their parent. The others stay pending, in order. The progress, when
        there is one, counts every pending reference. */
    method ResolveReferences(find: TypeRef -> Lookup, progress: Progress?)
      requires Valid() && FindsWithin(find, |elements|)
      requires forall i | 0 <= i < |unresolvedRefs| :: typeRefs[unresolvedRefs[i]].name != ""
      requires forall i | 0 <= i < |innerTypeRefs| :: typeRefs[innerTypeRefs[i].1].name != ""
      modifies this`typeRefs, this`elements, this`unresolvedRefs, this`innerTypeRefs, progress
      ensures Valid()
      ensures typeRefs == ResolvedTypeRefs(find, old(typeRefs), old(elements), old(unresolvedRefs))
      ensures unresolvedRefs == StillUnresolved(find, old(typeRefs), old(unresolvedRefs))
      ensures elements == AttachAll(find, typeRefs, old(elements), old(innerTypeRefs))
      ensures innerTypeRefs == StillUnresolvedInner(find, typeRefs, old(innerTypeRefs))
      ensures progress != null ==> progress.total == old(UnresolvedRefCount())
                                   && progress.ready == old(progress.ready) + old(UnresolvedRefCount())
    {
      if progress != null {
        progress.total := |unresolvedRefs| + |innerTypeRefs|;
      }
      ghost var refs0 := typeRefs;
      var refs, stillUnresolved := ResolvePlainRefs(find, typeRefs, elements, unresolvedRefs, progress);
      var els, stillInner := AttachInnerTypes(find, refs, elements, innerTypeRefs, progress);
      StillPendingWithin(find, refs0, unresolvedRefs);
      StillPendingInnerWithin(find, refs, innerTypeRefs, |elements|);
      typeRefs := refs;
      elements := els;
      unresolvedRefs := stillUnresolved;
      innerTypeRefs := stillInner;
    }

    /** The first loop of `resolve_references`: each plain reference found is resolved,
        the others are kept, in order. */
    static method ResolvePlainRefs(find: TypeRef -> Lookup, refs0: seq<TypeRef>, els: seq<Compound>,
                                   pending: seq<RefId>, progress: Progress?)
      returns (refs: seq<TypeRef>, stillUnresolved: seq<RefId>)
      requires FindsWithin(find, |els|) && Distinct(pending)
      requires forall k | 0 <= k < |pending| :: pending[k] < |refs0|
      modifies progress
      ensures refs == ResolvedTypeRefs(find, refs0, els, pending)
      ensures stillUnresolved == StillUnresolved(find, refs0, pending)
      ensures progress != null ==> progress.ready == old(progress.ready) + |pending|
                                   && progress.total == old(progress.total)
    {
      refs := refs0;
      stillUnresolved := [];
      var i := 0;
      while i < |pending|
        invariant 0 <= i <= |pending| && |refs| == |refs0|
        invariant refs == ResolvedTypeRefs(find, refs0, els, pending[..i])
        invariant stillUnresolved == StillUnresolved(find, refs0, pending[..i])
        invariant progress != null ==> progress.ready == old(progress.ready) + i
                                       && progress.total == old(progress.total)
      {
        if progress != null {
          progress.Update();
        }
        var h := pending[i];
        ResolveStep(find, refs0, els, pending, i);
        var element := ResolveReference(find, refs[h]);
        if element.Some? {
          refs := refs[h := Resolve(refs[h], els[element.value].Base())];
        } else {
          stillUnresolved := stillUnresolved + [h];
        }
        PlainFilterStep(find, refs0, pending, i);
        i := i + 1;
      }
      assert pending[..i] == pending;
    }

    /** The second loop of `resolve_references`: each inner-type reference found gives
        its protection to the element found, which joins the members of the parent; the
        others are kept, in order. */
    static method AttachInnerTypes(find: TypeRef -> Lookup, refs: seq<TypeRef>, els0: seq<Compound>,
                                   inner: seq<(ElemId, RefId)>, progress: Progress?)
      returns (els: seq<Compound>, stillInner: seq<(ElemId, RefId)>)
      requires FindsWithin(find, |els0|) && InnerRefsWithin(inner, |els0|, |refs|)
      modifies progress
      ensures els == AttachAll(find, refs, els0, inner)
      ensures stillInner == StillUnresolvedInner(find, refs, inner)
      ensures progress != null ==> progress.ready == old(progress.ready) + |inner|
                                   && progress.total == old(progress.total)
    {
      els := els0;
      stillInner := [];
      var j := 0;
      while j < |inner|
        invariant 0 <= j <= |inner| && |els| == |els0|
        invariant InnerRefsWithin(inner[..j], |els0|, |refs|)
        invariant els == AttachAll(find, refs, els0, inner[..j])
        invariant stillInner == StillUnresolvedInner(find, refs, inner[..j])
        invariant progress != null ==> progress.ready == old(progress.ready) + j
                                       && progress.total == old(progress.total)
      {
        if progress != null {
          progress.Update();
        }
        var x := inner[j];
        var found;
        els, found := AttachInnerType(find, refs, els, x);
        if !found {
          stillInner := stillInner + [x];
        }
        AttachAllStep(find, refs, els0, inner, j);
        InnerFilterStep(find, refs, inner, j);
        j := j + 1;
      }
      assert inner[..j] == inner;
    }

    /** The body of the second loop of `resolve_references`: when the lookup of the
        reference succeeds, the element found takes the reference's protection, if it has
        one, and joins the members of the parent. */
    static method AttachInnerType(find: TypeRef -> Lookup, refs: seq<TypeRef>, els: seq<Compound>,
                                  x: (ElemId, RefId))
      returns (updated: seq<Compound>, found: bool)
      requires FindsWithin(find, |els|) && x.0 < |els| && x.1 < |refs|
      ensures updated == Attach(find, refs, els, x)
      ensures found <==> !InnerUnresolvable(find, refs, x)
      ensures found && Truthy(refs[x.1].prot) ==>
                var e := find(refs[x.1]).element;
                && updated[e].prot == refs[x.1].prot.value
                && |updated[x.0].members| == |els[x.0].members| + 1
                && updated[x.0].members[|els[x.0].members|].prot == refs[x.1].prot.value
      ensures !found ==> updated == els
    {
      var parent := x.0;
      var ref := refs[x.1];
      var element := ResolveReference(find, ref);
      updated := els;
      found := element.Some?;
      if found {
        var e := element.value;
        if Truthy(ref.prot) {
          updated := updated[e := updated[e].(prot := ref.prot.value)];
        }
        updated := updated[parent := updated[parent].(members := updated[parent].members + [updated[e]])];
      }
      AttachProtection(find, refs, els, x);
    }

    /** One step of the second loop of `ResolveReferences`. */
    static lemma AttachAllStep(find: TypeRef -> Lookup, typeRefs: seq<TypeRef>, elements: seq<Compound>,
                               inner: seq<(ElemId, RefId)>, j: nat)
      requires FindsWithin(find, |elements|) && j < |inner|
      requires InnerRefsWithin(inner, |elements|, |typeRefs|)
      ensures InnerRefsWithin(inner[..j], |elements|, |typeRefs|)
      ensures InnerRefsWithin(inner[..j + 1], |elements|, |typeRefs|)
      ensures AttachAll(find, typeRefs, elements, inner[..j + 1])
              == Attach(find, typeRefs, AttachAll(find, typeRefs, elements, inner[..j]), inner[j])
    {
      assert inner[..j + 1][..j] == inner[..j];
    }

    static lemma PlainFilterStep(find: TypeRef -> Lookup, typeRefs: seq<TypeRef>, pending: seq<RefId>,
                                 i: nat)
      requires i < |pending|
      ensures StillUnresolved(find, typeRefs, pending[..i + 1])
              == StillUnresolved(find, typeRefs, pending[..i])
                 + (if Unresolvable(find, typeRefs, pending[i]) then [pending[i]] else [])
    {
      assert pending[..i + 1] == pending[..i] + [pending[i]];
      FilterConcat(pending[..i], [pending[i]], h => Unresolvable(find, typeRefs, h));
    }

    static lemma InnerFilterStep(find: TypeRef -> Lookup, typeRefs: seq<TypeRef>,
                                 inner: seq<(ElemId, RefId)>, j: nat)
      requires j < |inner|
      ensures StillUnresolvedInner(find, typeRefs, inner[..j + 1])
              == StillUnresolvedInner(find, typeRefs, inner[..j])
                 + (if InnerUnresolvable(find, typeRefs, inner[j]) then [inner[j]] else [])
    {
      assert inner[..j + 1] == inner[..j] + [inner[j]];
      FilterConcat(inner[..j], [inner[j]], x => InnerUnresolvable(find, typeRefs, x));
    }

    /** One step of the first loop of `ResolveReferences`: resolving the `i`-th pending
        reference extends the resolution of the ones before it. */
    static lemma ResolveStep(find: TypeRef -> Lookup, typeRefs: seq<TypeRef>, elements: seq<Compound>,
                             pending: seq<RefId>, i: nat)
      requires FindsWithin(find, |elements|) && i < |pending| && Distinct(pending)
      requires forall k | 0 <= k < |pending| :: pending[k] < |typeRefs|
      ensures var h := pending[i];
              var before := ResolvedTypeRefs(find, typeRefs, elements, pending[..i]);
              && before[h] == typeRefs[h]
              && ResolvedTypeRefs(find, typeRefs, elements, pending[..i + 1])
                 == match ResolveReference(find, typeRefs[h])
                    case Some(e) => before[h := Resolve(typeRefs[h], elements[e].Base())]
                    case None => before
    {
      var h := pending[i];
      assert h !in pending[..i] by {
        forall k | 0 <= k < i ensures pending[..i][k] != h {
          assert pending[k] != pending[i];
        }
      }
      assert pending[..i + 1] == pending[..i] + [h];
    }
  }
}
