/** The API reference elements: documented entities, references to types, parameters,
    return values, exceptions and compounds (classes, functions, enums, ...), with the
    value equality and hashing the generator relies on, the rendering of a type
    reference as text and the one-way resolution of a type reference. */
module Model {
  import opened Common

  /** A documented entity that can be linked to. */
  datatype ReferableElement = ReferableElement(
    id: Option<string>,
    name: string,
    fullName: string,
    language: string,
    kind: string)

  /** `ReferableElement(language)`: every field but the language takes its default. */
  function NewReferableElement(language: string): (e: ReferableElement)
    ensures e.id.None? && e.name == "" && e.fullName == "" && e.kind == ""
    ensures e.language == language
  {
    ReferableElement(None, "", "", language, "")
  }

  /** The tuple that both equality and hashing of a referable element are computed from. */
  type ElementKey = (Option<string>, string, string, string, string)

  function Key(e: ReferableElement): ElementKey
  {
    (e.id, e.name, e.fullName, e.language, e.kind)
  }

  /** `ReferableElement.__eq__`; `b == None` stands for comparing with None. */
  predicate ElementEquals(a: ReferableElement, b: Option<ReferableElement>)
  {
    b.Some? && Key(a) == Key(b.value)
  }

  /** `ReferableElement.__hash__`, for any hash function over the key tuple. */
  function ElementHash(e: ReferableElement, hash: ElementKey -> int): int
  {
    hash(Key(e))
  }

  /** Equality never holds against None and otherwise is exactly agreement on the five
      fields; equal elements hash alike. */
  lemma ElementEqualityAndHash(a: ReferableElement, b: ReferableElement, hash: ElementKey -> int)
    ensures !ElementEquals(a, None)
    ensures ElementEquals(a, Some(b)) <==> a == b
    ensures ElementEquals(a, Some(b)) ==> ElementHash(a, hash) == ElementHash(b, hash)
  {
  }

  /** The nested type arguments of a type reference; `NoNested` is the source's None and
      `Nested([])` its empty list. */
  datatype NestedTypes = NoNested | Nested(types: seq<TypeRef>)

  /** The argument list of a function-like type; `NoArgs` is the source's None. */
  datatype ArgList = NoArgs | Args(params: seq<Parameter>)

  /** A reference to a type as written in a signature. */
  datatype TypeRef = TypeRef(
    id: Option<string>,
    name: string,
    language: string,
    namespace: Option<string>,
    kind: Option<string>,
    prefix: Option<string>,
    suffix: Option<string>,
    nested: NestedTypes,
    args: ArgList,
    returnType: Option<TypeRef>,
    prot: Option<string>)

  datatype Parameter = Parameter(
    typeRef: Option<TypeRef>,
    name: string,
    description: string,
    defaultValue: Option<string>,
    prefix: Option<string>,
    kind: string)

  datatype ReturnValue = ReturnValue(typeRef: Option<TypeRef>, description: string)

  datatype ThrowsClause = ThrowsClause(typeRef: TypeRef, description: string)

  /** `TypeRef(language, name)`: unresolved, with every optional part absent. */
  function NewTypeRef(language: string, name: string): (t: TypeRef)
    ensures t.language == language && t.name == name
    ensures t.id.None? && t.namespace.None? && t.kind.None? && t.prot.None?
    ensures t.prefix.None? && t.suffix.None? && t.returnType.None?
    ensures t.nested.NoNested? && t.args.NoArgs?
  {
    TypeRef(None, name, language, None, None, None, None, NoNested, NoArgs, None, None)
  }

  /** `Parameter()`: a parameter's kind defaults to "param". */
  function NewParameter(): (p: Parameter)
    ensures p.typeRef.None? && p.name == "" && p.description == ""
    ensures p.defaultValue.None? && p.prefix.None? && p.kind == "param"
  {
    Parameter(None, "", "", None, None, "param")
  }

  /** `ThrowsClause(language, type)`: without a type, a fresh unnamed type reference in the
      given language stands in. */
  function NewThrowsClause(language: string, typeRef: Option<TypeRef>): (c: ThrowsClause)
    ensures typeRef.Some? ==> c.typeRef == typeRef.value
    ensures typeRef.None? ==> c.typeRef.name == "" && c.typeRef.language == language
                               && c.typeRef.id.None? && c.typeRef.nested.NoNested?
    ensures c.description == ""
  {
    ThrowsClause(if typeRef.Some? then typeRef.value else NewTypeRef(language, ""), "")
  }

  /** `TypeRef.resolve`: copy the id and kind of the element the reference denotes. */
  function Resolve(t: TypeRef, target: ReferableElement): (r: TypeRef)
    ensures r.id == target.id && r.kind == Some(target.kind)
    ensures r.(id := t.id, kind := t.kind) == t
  {
    t.(id := target.id, kind := Some(target.kind))
  }

  /** Resolution is one-way enrichment: resolving again with the same target changes
      nothing, and a later resolution overrides an earlier one. */
  lemma ResolveIdempotent(t: TypeRef, x: ReferableElement, y: ReferableElement)
    ensures Resolve(Resolve(t, x), x) == Resolve(t, x)
    ensures Resolve(Resolve(t, x), y) == Resolve(t, y)
  {
  }

  /** `str(TypeRef)`: prefix, name, `< nested, ... >` when there are nested types,
      `(type name, ...)` when there are arguments, and suffix. An argument without a type
      renders its type as "None", as Python's f-string does. */
  function TypeRefString(t: TypeRef): string
    decreases t
  {
    OrEmpty(t.prefix) + t.name
    + (match t.nested
       case Nested(ts) =>
         if |ts| > 0
         then "< " + Join(seq(|ts|, i requires 0 <= i < |ts| => TypeRefString(ts[i])), ", ") + " >"
         else ""
       case NoNested => "")
    + (match t.args
       case Args(ps) =>
         if |ps| > 0
         then "(" + Join(seq(|ps|, i requires 0 <= i < |ps| =>
                            (match ps[i].typeRef
                             case Some(pt) => TypeRefString(pt)
                             case None => "None") + " " + ps[i].name), ", ") + ")"
         else ""
       case NoArgs => "")
    + OrEmpty(t.suffix)
  }

  predicate HasNested(t: TypeRef)
  {
    t.nested.Nested? && |t.nested.types| > 0
  }

  predicate HasArgs(t: TypeRef)
  {
    t.args.Args? && |t.args.params| > 0
  }

  /** The rendering always starts with prefix and name and ends with the suffix; it is
      nothing more than those exactly when there are no nested types and no arguments. */
  lemma TypeRefStringShape(t: TypeRef)
    ensures StartsWith(TypeRefString(t), OrEmpty(t.prefix) + t.name)
    ensures EndsWith(TypeRefString(t), OrEmpty(t.suffix))
    ensures TypeRefString(t) == OrEmpty(t.prefix) + t.name + OrEmpty(t.suffix)
            <==> !HasNested(t) && !HasArgs(t)
  {
    var s := TypeRefString(t);
    var head := OrEmpty(t.prefix) + t.name;
    var tail := OrEmpty(t.suffix);
    var n := match t.nested
       case Nested(ts) =>
         if |ts| > 0
         then "< " + Join(seq(|ts|, i requires 0 <= i < |ts| => TypeRefString(ts[i])), ", ") + " >"
         else ""
       case NoNested => "";
    var a := match t.args
       case Args(ps) =>
         if |ps| > 0
         then "(" + Join(seq(|ps|, i requires 0 <= i < |ps| =>
                            (match ps[i].typeRef
                             case Some(pt) => TypeRefString(pt)
                             case None => "None") + " " + ps[i].name), ", ") + ")"
         else ""
       case NoArgs => "";
    assert s == head + n + a + tail;
    assert s[..|head|] == head;
    assert s[|s| - |tail|..] == tail;
    assert |n| == 0 <==> !HasNested(t);
    assert |a| == 0 <==> !HasArgs(t);
    if HasNested(t) || HasArgs(t) {
      assert |s| > |head + tail|;
    }
  }

  /** Resolving a reference does not change how it is rendered. */
  lemma ResolvedRendersAlike(t: TypeRef, target: ReferableElement)
    ensures TypeRefString(Resolve(t, target)) == TypeRefString(t)
  {
  }

  /** The plain renderings the source's own tests expect. */
  lemma TypeRefStringExamples()
    ensures TypeRefString(NewTypeRef("cpp", "")) == ""
    ensures TypeRefString(NewTypeRef("cpp", "Type")) == "Type"
    ensures TypeRefString(NewTypeRef("cpp", "Type").(prefix := Some("const "), suffix := Some(" &")))
            == "const Type &"
  {
  }

  /** How a type reference with nested types and no arguments renders. */
  lemma NestedRendering(t: TypeRef, parts: seq<string>)
    requires t.nested.Nested? && |t.nested.types| > 0 && t.args.NoArgs?
    requires |parts| == |t.nested.types|
    requires forall i | 0 <= i < |parts| :: parts[i] == TypeRefString(t.nested.types[i])
    ensures TypeRefString(t) == OrEmpty(t.prefix) + t.name + "< " + Join(parts, ", ") + " >" + OrEmpty(t.suffix)
  {
    var ts := t.nested.types;
    assert seq(|ts|, i requires 0 <= i < |ts| => TypeRefString(ts[i])) == parts;
  }

  function ExampleNested1(): TypeRef
  {
    NewTypeRef("cpp", "Nested1")
  }

  function ExampleNested2(): TypeRef
  {
    NewTypeRef("cpp", "Nested2").(prefix := Some("const "), suffix := Some("*"),
                                  nested := Nested([ExampleNested1()]))
  }

  function ExampleOuter(): TypeRef
  {
    NewTypeRef("cpp", "Type").(prefix := Some("const "), suffix := Some(" &"),
                               nested := Nested([ExampleNested1(), ExampleNested2()]))
  }

  lemma ExampleNested2Renders()
    ensures TypeRefString(ExampleNested2()) == "const Nested2< Nested1 >*"
  {
    assert TypeRefString(ExampleNested1()) == "Nested1";
    NestedRendering(ExampleNested2(), ["Nested1"]);
  }

  /** The rendering of nested type arguments, two levels deep, as the source's tests expect. */
  lemma NestedTypeRefStringExample()
    ensures TypeRefString(ExampleOuter()) == "const Type< Nested1, const Nested2< Nested1 >* > &"
  {
    var s1 := "Nested1";
    var s2 := "const Nested2< Nested1 >*";
    assert TypeRefString(ExampleNested1()) == s1;
    ExampleNested2Renders();
    NestedRendering(ExampleOuter(), [s1, s2]);
    assert Join([s1, s2], ", ") == s1 + ", " + s2;
    OuterLiteral(s1, s2);
  }

  lemma OuterLiteral(s1: string, s2: string)
    requires s1 == "Nested1" && s2 == "const Nested2< Nested1 >*"
    ensures "const " + "Type" + "< " + (s1 + ", " + s2) + " >" + " &"
            == "const Type< Nested1, const Nested2< Nested1 >* > &"
  {
    var a := "const " + "Type" + "< ";
    assert a + (s1 + ", " + s2) + " >" + " &" == a + s1 + ", " + s2 + " >" + " &";
    assert a == "const Type< ";
    assert "const Type< " + "Nested1" == "const Type< Nested1";
    assert "const Type< Nested1" + ", " == "const Type< Nested1, ";
    assert "const Type< Nested1, " + "const Nested2< Nested1 >*"
           == "const Type< Nested1, const Nested2< Nested1 >*";
    assert "const Type< Nested1, const Nested2< Nested1 >*" + " >"
           == "const Type< Nested1, const Nested2< Nested1 >* >";
    assert "const Type< Nested1, const Nested2< Nested1 >* >" + " &"
           == "const Type< Nested1, const Nested2< Nested1 >* > &";
  }

  /** `TypeRef.__eq__`: all eleven fields, comparing nested types, arguments and the
      return type with their own equality. */
  predicate TypeRefEq(a: TypeRef, b: TypeRef)
    decreases a
  {
    && a.id == b.id && a.name == b.name && a.language == b.language
    && a.namespace == b.namespace && a.kind == b.kind
    && a.prefix == b.prefix && a.suffix == b.suffix
    && (match a.nested
        case NoNested => b.nested.NoNested?
        case Nested(xs) =>
          b.nested.Nested? && |xs| == |b.nested.types|
          && forall i | 0 <= i < |xs| :: TypeRefEq(xs[i], b.nested.types[i]))
    && (match a.args
        case NoArgs => b.args.NoArgs?
        case Args(ps) =>
          b.args.Args? && |ps| == |b.args.params|
          && forall i | 0 <= i < |ps| :: ParameterEq(ps[i], b.args.params[i]))
    && OptionalTypeRefEq(a.returnType, b.returnType)
    && a.prot == b.prot
  }

  /** Equality of optional type references inside a record: None equals only None. */
  predicate OptionalTypeRefEq(a: Option<TypeRef>, b: Option<TypeRef>)
    decreases a
  {
    match a
    case None => b.None?
    case Some(x) => b.Some? && TypeRefEq(x, b.value)
  }

  /** `Parameter.__eq__`. */
  predicate ParameterEq(p: Parameter, q: Parameter)
    decreases p
  {
    && OptionalTypeRefEq(p.typeRef, q.typeRef)
    && p.name == q.name && p.description == q.description
    && p.defaultValue == q.defaultValue && p.prefix == q.prefix && p.kind == q.kind
  }

  /** `TypeRef.__eq__` against a value that may be None. */
  predicate TypeRefEquals(a: TypeRef, b: Option<TypeRef>)
  {
    b.Some? && TypeRefEq(a, b.value)
  }

  /** Type reference equality is exactly structural equality: it compares every field,
      recursively, and nothing else. */
  lemma {:induction false} TypeRefEqIsStructural(a: TypeRef, b: TypeRef)
    ensures TypeRefEq(a, b) <==> a == b
    ensures !TypeRefEquals(a, None)
    decreases a
  {
    if a.nested.Nested? && b.nested.Nested? && |a.nested.types| == |b.nested.types| {
      var xs, ys := a.nested.types, b.nested.types;
      forall i | 0 <= i < |xs| ensures TypeRefEq(xs[i], ys[i]) <==> xs[i] == ys[i] {
        TypeRefEqIsStructural(xs[i], ys[i]);
      }
      assert (forall i | 0 <= i < |xs| :: TypeRefEq(xs[i], ys[i])) <==> xs == ys;
    }
    if a.args.Args? && b.args.Args? && |a.args.params| == |b.args.params| {
      var ps, qs := a.args.params, b.args.params;
      forall i | 0 <= i < |ps| ensures ParameterEq(ps[i], qs[i]) <==> ps[i] == qs[i] {
        ParameterEqIsStructural(ps[i], qs[i]);
      }
      assert (forall i | 0 <= i < |ps| :: ParameterEq(ps[i], qs[i])) <==> ps == qs;
    }
    OptionalTypeRefEqIsStructural(a.returnType, b.returnType);
  }

  lemma {:induction false} OptionalTypeRefEqIsStructural(a: Option<TypeRef>, b: Option<TypeRef>)
    ensures OptionalTypeRefEq(a, b) <==> a == b
    decreases a
  {
    if a.Some? && b.Some? {
      TypeRefEqIsStructural(a.value, b.value);
    }
  }

  lemma {:induction false} ParameterEqIsStructural(p: Parameter, q: Parameter)
    ensures ParameterEq(p, q) <==> p == q
    decreases p
  {
    OptionalTypeRefEqIsStructural(p.typeRef, q.typeRef);
  }

  /** `ReturnValue.__eq__` and `ThrowsClause.__eq__`: type and description. */
  predicate ReturnValueEq(a: ReturnValue, b: ReturnValue)
  {
    OptionalTypeRefEq(a.typeRef, b.typeRef) && a.description == b.description
  }

  predicate ThrowsClauseEq(a: ThrowsClause, b: ThrowsClause)
  {
    TypeRefEq(a.typeRef, b.typeRef) && a.description == b.description
  }

  lemma ReturnAndThrowsEqAreStructural(a: ReturnValue, b: ReturnValue, c: ThrowsClause, d: ThrowsClause)
    ensures ReturnValueEq(a, b) <==> a == b
    ensures ThrowsClauseEq(c, d) <==> c == d
  {
    OptionalTypeRefEqIsStructural(a.typeRef, b.typeRef);
    TypeRefEqIsStructural(c.typeRef, d.typeRef);
  }

  /** A class, function, enum or other composite element with its members. */
  datatype Compound = Compound(
    id: Option<string>,
    name: string,
    fullName: string,
    language: string,
    kind: string,
    members: seq<Compound>,
    params: seq<Parameter>,
    exceptions: seq<ThrowsClause>,
    returnValue: Option<ReturnValue>,
    includeFile: Option<string>,
    namespace: Option<string>,
    prot: string,
    definition: string,
    args: string,
    initializer: string,
    brief: string,
    description: string,
    sections: map<string, string>,
    isStatic: bool,
    isConst: bool,
    isDeleted: bool,
    isDefault: bool,
    isConstexpr: bool)
  {
    /** The referable element a compound is. */
    function Base(): ReferableElement
    {
      ReferableElement(id, name, fullName, language, kind)
    }
  }

  /** `Compound(language, members=..., params=..., exceptions=..., sections=...)` with every
      other field at its default: absent lists become empty lists, an absent map an empty map. */
  function NewCompound(language: string, members: Option<seq<Compound>>, params: Option<seq<Parameter>>,
                       exceptions: Option<seq<ThrowsClause>>, sections: Option<map<string, string>>): (c: Compound)
    ensures c.Base() == NewReferableElement(language)
    ensures c.members == (if members.Some? then members.value else [])
    ensures c.params == (if params.Some? then params.value else [])
    ensures c.exceptions == (if exceptions.Some? then exceptions.value else [])
    ensures c.sections == (if sections.Some? then sections.value else map[])
    ensures c.returnValue.None? && c.includeFile.None? && c.namespace.None?
    ensures c.prot == "" && c.definition == "" && c.args == "" && c.initializer == ""
    ensures c.brief == "" && c.description == ""
    ensures !c.isStatic && !c.isConst && !c.isDeleted && !c.isDefault && !c.isConstexpr
  {
    Compound(None, "", "", language, "",
             if members.Some? then members.value else [],
             if params.Some? then params.value else [],
             if exceptions.Some? then exceptions.value else [],
             None, None, None, "", "", "", "", "", "",
             if sections.Some? then sections.value else map[],
             false, false, false, false, false)
  }

  /** `Compound.__eq__`: the referable-element fields plus the eighteen compound fields,
      comparing members, parameters, exceptions and return value with their own equality. */
  predicate CompoundEq(a: Compound, b: Compound)
    decreases a
  {
    && Key(a.Base()) == Key(b.Base())
    && |a.members| == |b.members|
    && (forall i | 0 <= i < |a.members| :: CompoundEq(a.members[i], b.members[i]))
    && |a.params| == |b.params|
    && (forall i | 0 <= i < |a.params| :: ParameterEq(a.params[i], b.params[i]))
    && |a.exceptions| == |b.exceptions|
    && (forall i | 0 <= i < |a.exceptions| :: ThrowsClauseEq(a.exceptions[i], b.exceptions[i]))
    && (match a.returnValue
        case None => b.returnValue.None?
        case Some(r) => b.returnValue.Some? && ReturnValueEq(r, b.returnValue.value))
    && a.includeFile == b.includeFile && a.namespace == b.namespace
    && a.prot == b.prot && a.definition == b.definition && a.args == b.args
    && a.initializer == b.initializer && a.brief == b.brief && a.description == b.description
    && a.sections == b.sections
    && a.isStatic == b.isStatic && a.isConst == b.isConst && a.isDeleted == b.isDeleted
    && a.isDefault == b.isDefault && a.isConstexpr == b.isConstexpr
  }

  /** `Compound.__eq__` against a value that may be None. */
  predicate CompoundEquals(a: Compound, b: Option<Compound>)
  {
    b.Some? && CompoundEq(a, b.value)
  }

  /** `Compound.__hash__` hashes only the referable-element fields. */
  function CompoundHash(c: Compound, hash: ElementKey -> int): int
  {
    ElementHash(c.Base(), hash)
  }

  /** Compound equality is exactly structural equality of all twenty-three fields. */
  lemma {:induction false} CompoundEqIsStructural(a: Compound, b: Compound)
    ensures CompoundEq(a, b) <==> a == b
    ensures !CompoundEquals(a, None)
    decreases a
  {
    if |a.members| == |b.members| {
      forall i | 0 <= i < |a.members| ensures CompoundEq(a.members[i], b.members[i]) <==> a.members[i] == b.members[i] {
        CompoundEqIsStructural(a.members[i], b.members[i]);
      }
      assert (forall i | 0 <= i < |a.members| :: CompoundEq(a.members[i], b.members[i])) <==> a.members == b.members;
    }
    if |a.params| == |b.params| {
      forall i | 0 <= i < |a.params| ensures ParameterEq(a.params[i], b.params[i]) <==> a.params[i] == b.params[i] {
        ParameterEqIsStructural(a.params[i], b.params[i]);
      }
      assert (forall i | 0 <= i < |a.params| :: ParameterEq(a.params[i], b.params[i])) <==> a.params == b.params;
    }
    if |a.exceptions| == |b.exceptions| {
      forall i | 0 <= i < |a.exceptions| ensures ThrowsClauseEq(a.exceptions[i], b.exceptions[i]) <==> a.exceptions[i] == b.exceptions[i] {
        TypeRefEqIsStructural(a.exceptions[i].typeRef, b.exceptions[i].typeRef);
      }
      assert (forall i | 0 <= i < |a.exceptions| :: ThrowsClauseEq(a.exceptions[i], b.exceptions[i])) <==> a.exceptions == b.exceptions;
    }
    if a.returnValue.Some? && b.returnValue.Some? {
      OptionalTypeRefEqIsStructural(a.returnValue.value.typeRef, b.returnValue.value.typeRef);
    }
  }

  /** Equal compounds hash alike, since the hash reads only fields that equality compares. */
  lemma CompoundHashConsistent(a: Compound, b: Compound, hash: ElementKey -> int)
    ensures CompoundEq(a, b) ==> CompoundHash(a, hash) == CompoundHash(b, hash)
  {
    CompoundEqIsStructural(a, b);
  }
}
