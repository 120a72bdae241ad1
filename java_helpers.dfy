/** The template helper for Java: constants are the final variables. */
module JavaHelpers {
  import opened Common
  import opened Model
  import opened TemplateHelper

  /** A variable with the given protection whose type is declared `final`. */
  predicate IsConstant(member: Compound, prot: string)
  {
    && member.kind == "variable"
    && member.prot == prot
    && member.returnValue.Some?
    && member.returnValue.value.typeRef.Some?
    && Truthy(member.returnValue.value.typeRef.value.prefix)
    && Contains(member.returnValue.value.typeRef.value.prefix.value, "final")
  }

  /** `constants`: the selected members that are constants with protection `prot`, in
      order. The element and the insertion filter must be set. */
  function Constants(helper: Helper, select: MemberSelection, prot: string): seq<Compound>
    requires Ready(helper)
  {
    Filter(SelectedMembers(helper, select), (m: Compound) => IsConstant(m, prot))
  }

  /** The constants are exactly the selected final variables with that protection, in
      their order. */
  lemma ConstantsAreFinalVariables(helper: Helper, select: MemberSelection, prot: string)
    requires Ready(helper)
    ensures var all := SelectedMembers(helper, select);
            var r := Constants(helper, select, prot);
            && IsSubsequence(r, all)
            && (forall m | m in r ::
                  && m.kind == "variable" && m.prot == prot
                  && m.returnValue.Some? && m.returnValue.value.typeRef.Some?
                  && m.returnValue.value.typeRef.value.prefix.Some?
                  && Contains(m.returnValue.value.typeRef.value.prefix.value, "final"))
            && (forall i | 0 <= i < |all| :: IsConstant(all[i], prot) ==> all[i] in r)
            && |r| + |Filter(all, (m: Compound) => !IsConstant(m, prot))| == |all|
  {
    FilterIsSubsequence(SelectedMembers(helper, select), (m: Compound) => IsConstant(m, prot));
    FilterPartition(SelectedMembers(helper, select), (m: Compound) => IsConstant(m, prot),
                    (m: Compound) => !IsConstant(m, prot));
  }
}
