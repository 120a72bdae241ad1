/** What the language-specific template helpers know of their common base: the element
    being rendered and the insertion filter, either of which may not be set yet, and the
    filter's selection of members. */
module TemplateHelper {
  import opened Common
  import opened Model
  import opened Filters

  datatype Helper = Helper(element: Option<Compound>, insertFilter: Option<InsertionFilter>)

  /** `insert_filter.members(element)`: the members of the element the filter lets through. */
  type MemberSelection = (InsertionFilter, Compound) -> seq<Compound>

  /** Both the element and the insertion filter are set. */
  predicate Ready(helper: Helper)
  {
    helper.element.Some? && helper.insertFilter.Some?
  }

  function SelectedMembers(helper: Helper, select: MemberSelection): seq<Compound>
    requires Ready(helper)
  {
    select(helper.insertFilter.value, helper.element.value)
  }
}
