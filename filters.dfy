/** The filter that selects which members of an element are inserted. Its rules are not
    part of this model: a filter is a value holding its settings, copied from a context
    to its sub-contexts. */
module Filters {

  /** The filter settings, keyed by what they filter on ("members", "prot", ...). */
  datatype InsertionFilter = InsertionFilter(members: map<string, seq<string>>)

  /** The filter a new context starts with: public and protected members only. */
  function DefaultInsertionFilter(): (f: InsertionFilter)
    ensures "prot" in f.members && f.members["prot"] == ["+public", "+protected"]
    ensures f.members.Keys == {"prot"}
  {
    InsertionFilter(map["prot" := ["+public", "+protected"]])
  }
}
