/** The template helper for Python: parameters named after `self` or `cls` are not
    listed, names starting with an underscore are private, methods are written with
    `def` and `-> return type`, and constructors are the `__init__` functions. */
module PythonHelpers {
  import opened Common
  import opened Model
  import opened TemplateHelper

  /** A parameter that stands for the instance or the class. */
  predicate IsSelfOrCls(param: Parameter)
  {
    param.typeRef.Some? && param.typeRef.value.name in {"self", "cls"}
  }

  /** `params`: the parameters of a method other than `self` and `cls`, in order. */
  function Params(fn: Compound): seq<Parameter>
  {
    Filter(fn.params, (p: Parameter) => !IsSelfOrCls(p))
  }

  /** The listed parameters are the parameters minus `self` and `cls`: all others, in
      their order, and nothing else. */
  lemma ParamsDropsSelfAndCls(fn: Compound)
    ensures var r := Params(fn);
            && IsSubsequence(r, fn.params)
            && (forall p | p in r :: !IsSelfOrCls(p))
            && (forall i | 0 <= i < |fn.params| :: !IsSelfOrCls(fn.params[i]) ==> fn.params[i] in r)
            && |r| + |Filter(fn.params, (p: Parameter) => IsSelfOrCls(p))| == |fn.params|
  {
    FilterIsSubsequence(fn.params, (p: Parameter) => !IsSelfOrCls(p));
    FilterPartition(fn.params, (p: Parameter) => !IsSelfOrCls(p), (p: Parameter) => IsSelfOrCls(p));
  }

  /** How the common template helper renders a parameter, given whether to link and
      whether to show the default value. */
  type BaseParameter = (Parameter, bool, bool) -> string

  /** `parameter`: `self` and `cls` are written as their bare type name; every other
      parameter as the common helper writes it. */
  function RenderParameter(param: Parameter, link: bool, defaultValue: bool, base: BaseParameter): (r: string)
    ensures IsSelfOrCls(param) ==> r == param.typeRef.value.name && (r == "self" || r == "cls")
    ensures !IsSelfOrCls(param) ==> r == base(param, link, defaultValue)
  {
    if param.typeRef.Some? && param.typeRef.value.name in {"self", "cls"} then param.typeRef.value.name
    else base(param, link, defaultValue)
  }

  /** `_method_prefix`: every Python method starts with `def`. */
  function MethodPrefix(fn: Compound, link: bool): (r: string)
    ensures r == "def"
  {
    "def"
  }

  /** How the common template helper writes a (possibly absent) type reference. */
  type PrintRef = (Option<TypeRef>, bool) -> string

  /** `_method_suffix`: ` -> ` and the return type for a method with a return value,
      nothing otherwise. */
  function MethodSuffix(fn: Compound, link: bool, printRef: PrintRef): (r: string)
    ensures r == "" <==> fn.returnValue.None?
    ensures fn.returnValue.Some? ==>
              StartsWith(r, " -> ") && r[4..] == printRef(fn.returnValue.value.typeRef, link)
  {
    if fn.returnValue.Some? then " -> " + printRef(fn.returnValue.value.typeRef, link) else ""
  }

  /** A name starting with an underscore is private in Python. */
  predicate IsPrivateName(member: Compound)
  {
    StartsWith(member.name, "_")
  }

  /** `static_methods`, `methods`, `complex_enclosed_types` and `variables`: what the
      common helper selects, minus the members with private names. */
  function WithoutPrivate(members: seq<Compound>): seq<Compound>
  {
    Filter(members, (m: Compound) => !IsPrivateName(m))
  }

  /** The public members are the selected members minus those with a private name: all
      others, in their order, and nothing else. */
  lemma WithoutPrivateKeepsPublic(members: seq<Compound>)
    ensures var r := WithoutPrivate(members);
            && IsSubsequence(r, members)
            && (forall m | m in r :: !StartsWith(m.name, "_"))
            && (forall i | 0 <= i < |members| :: !StartsWith(members[i].name, "_") ==> members[i] in r)
            && |r| + |Filter(members, (m: Compound) => IsPrivateName(m))| == |members|
  {
    FilterIsSubsequence(members, (m: Compound) => !IsPrivateName(m));
    FilterPartition(members, (m: Compound) => !IsPrivateName(m), (m: Compound) => IsPrivateName(m));
  }

  /** Filtering out private names twice is filtering once. */
  lemma {:induction false} WithoutPrivateIdempotent(members: seq<Compound>)
    ensures WithoutPrivate(WithoutPrivate(members)) == WithoutPrivate(members)
  {
    if |members| > 0 {
      WithoutPrivateIdempotent(members[1..]);
      var rest := WithoutPrivate(members[1..]);
      if !IsPrivateName(members[0]) {
        var once := [members[0]] + rest;
        assert WithoutPrivate(members) == once;
        assert once[0] == members[0] && once[1..] == rest;
        assert WithoutPrivate(once) == [members[0]] + WithoutPrivate(rest);
      } else {
        assert WithoutPrivate(members) == rest;
      }
    }
  }

  predicate IsConstructor(member: Compound)
  {
    member.kind == "function" && member.name == "__init__"
  }

  /** `constructors`: the selected members that are `__init__` functions, in order. The
      element and the insertion filter must be set. */
  function Constructors(helper: Helper, select: MemberSelection): seq<Compound>
    requires Ready(helper)
  {
    Filter(SelectedMembers(helper, select), (m: Compound) => IsConstructor(m))
  }

  /** The constructors are exactly the selected `__init__` functions, in their order. */
  lemma ConstructorsAreInits(helper: Helper, select: MemberSelection)
    requires Ready(helper)
    ensures var all := SelectedMembers(helper, select);
            var r := Constructors(helper, select);
            && IsSubsequence(r, all)
            && (forall m | m in r :: m.kind == "function" && m.name == "__init__")
            && (forall i | 0 <= i < |all| :: all[i].kind == "function" && all[i].name == "__init__" ==> all[i] in r)
            && |r| + |Filter(all, (m: Compound) => !IsConstructor(m))| == |all|
  {
    FilterIsSubsequence(SelectedMembers(helper, select), (m: Compound) => IsConstructor(m));
    FilterPartition(SelectedMembers(helper, select), (m: Compound) => IsConstructor(m),
                    (m: Compound) => !IsConstructor(m));
  }
}
