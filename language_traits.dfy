/** Name handling shared by the Doxygen language parsers: qualifying a name with its
    parent, splitting a qualified name into namespace and short name, and building
    identifiers that are unique over languages. */
module LanguageTraits {
  import opened Common

  /** The parts of a language's traits that name handling reads. An absent or empty
      separator or boundary means the language has none. */
  datatype Traits = Traits(
    tag: string,
    nestingBoundary: Option<string>,
    namespaceSeparator: Option<string>,
    fileExtensions: Option<seq<string>>)

  /** The separator, when the language has a non-empty one. */
  predicate HasSeparator(traits: Traits)
  {
    Truthy(traits.namespaceSeparator)
  }

  function Sep(traits: Traits): string
  {
    OrEmpty(traits.namespaceSeparator)
  }

  /** `cleanup_name`: the base traits leave a name as it is. */
  function CleanupName(traits: Traits, name: string): string
  {
    name
  }

  /** `parent` names a source file: it ends with one of the language's file extensions. */
  predicate IsFileName(traits: Traits, parent: string)
  {
    traits.fileExtensions.Some?
    && exists i | 0 <= i < |traits.fileExtensions.value| :: EndsWith(parent, traits.fileExtensions.value[i])
  }

  /** `full_name`: qualify `name` with `parent` unless there is no separator, no parent,
      the name is already qualified with that parent, or the parent is a file. */
  function FullName(traits: Traits, name: string, parent: string): (r: string)
    ensures EndsWith(r, name)
    ensures r == name || (HasSeparator(traits) && r == parent + Sep(traits) + name)
    ensures r == name <==>
            !HasSeparator(traits) || parent == "" || StartsWith(name, parent + Sep(traits))
            || IsFileName(traits, parent)
  {
    if !HasSeparator(traits) then name
    else if parent == "" || StartsWith(name, parent + Sep(traits)) then name
    else if IsFileName(traits, parent) then name
    else parent + Sep(traits) + name
  }

  /** Qualifying twice with the same parent qualifies once. */
  lemma FullNameIdempotent(traits: Traits, name: string, parent: string)
    ensures FullName(traits, FullName(traits, name, parent), parent) == FullName(traits, name, parent)
  {
    var once := FullName(traits, name, parent);
    if once != name {
      var q := parent + Sep(traits);
      assert once[..|q|] == q;
    }
  }

  /** `str.partition(sep)`: before the first occurrence, the separator, and after it; or
      the whole string and two empty strings when `sep` does not occur. */
  function Partition(s: string, sep: string): (string, string, string)
  {
    match FindFirst(s, sep)
    case Some(i) => (s[..i], sep, s[i + |sep|..])
    case None => (s, "", "")
  }

  /** `str.rpartition(sep)`: split at the last occurrence; two empty strings and the whole
      string when `sep` does not occur. */
  function RPartition(s: string, sep: string): (string, string, string)
  {
    match FindLast(s, sep)
    case Some(i) => (s[..i], sep, s[i + |sep|..])
    case None => ("", "", s)
  }

  /** Cutting `s` around an occurrence of `sep` loses nothing. */
  lemma CutRejoins(s: string, sep: string, i: nat)
    requires OccursAt(s, sep, i)
    ensures s[..i] + sep + s[i + |sep|..] == s
  {
    assert s == s[..i] + s[i..i + |sep|] + s[i + |sep|..];
  }

  lemma PartitionRejoins(s: string, sep: string)
    ensures Partition(s, sep).0 + Partition(s, sep).1 + Partition(s, sep).2 == s
  {
    var f := FindFirst(s, sep);
    if f.Some? {
      CutRejoins(s, sep, f.value);
    }
  }

  lemma RPartitionRejoins(s: string, sep: string)
    ensures RPartition(s, sep).0 + RPartition(s, sep).1 + RPartition(s, sep).2 == s
    ensures RPartition(s, sep).1 == "" <==> !Contains(s, sep) || sep == ""
    ensures !Contains(s, sep) ==> RPartition(s, sep).0 == "" && RPartition(s, sep).2 == s
  {
    var f := FindLast(s, sep);
    if f.Some? {
      CutRejoins(s, sep, f.value);
    }
  }

  /** Where the nesting boundary splits a full name: the index of its first occurrence, or
      the end of the name when the language has no boundary or it does not occur. */
  function BoundaryIndex(traits: Traits, fullName: string): (b: nat)
    ensures b <= |fullName|
  {
    if Truthy(traits.nestingBoundary) then
      match FindFirst(fullName, traits.nestingBoundary.value)
      case Some(i) => i
      case None => |fullName|
    else |fullName|
  }

  /** The name before the nesting boundary, the boundary itself, and what follows it. */
  function SplitAtBoundary(traits: Traits, fullName: string): (string, string, string)
  {
    if Truthy(traits.nestingBoundary) then Partition(fullName, traits.nestingBoundary.value)
    else (fullName, "", "")
  }

  lemma SplitAtBoundaryIndex(traits: Traits, fullName: string)
    ensures var b := BoundaryIndex(traits, fullName);
            SplitAtBoundary(traits, fullName).0 == fullName[..b]
            && SplitAtBoundary(traits, fullName).1 + SplitAtBoundary(traits, fullName).2 == fullName[b..]
  {
    if Truthy(traits.nestingBoundary) {
      var f := FindFirst(fullName, traits.nestingBoundary.value);
      if f.Some? {
        CutRejoins(fullName, traits.nestingBoundary.value, f.value);
        assert fullName[f.value..] == traits.nestingBoundary.value + fullName[f.value + |traits.nestingBoundary.value|..];
      }
    }
    assert fullName[..|fullName|] == fullName;
  }

  /** `namespace_and_name`: split off the namespace at the last separator that comes before
      the nesting boundary. An empty namespace is reported as None. */
  function NamespaceAndName(traits: Traits, fullName: string): (Option<string>, string)
  {
    if !HasSeparator(traits) then (None, fullName)
    else
      var (name, sep, nested) := SplitAtBoundary(traits, fullName);
      var (namespace, _, shortName) := RPartition(name, Sep(traits));
      (if namespace != "" then Some(namespace) else None, shortName + sep + nested)
  }

  /** The namespace and the short name put back together give the full name. A namespace
      only ever comes from before the nesting boundary, and the short name keeps all that
      follows the boundary. Without a separator the name is never split. */
  lemma NamespaceAndNameSplit(traits: Traits, fullName: string)
    ensures !HasSeparator(traits) ==> NamespaceAndName(traits, fullName) == (None, fullName)
    ensures var ns := NamespaceAndName(traits, fullName).0;
            ns.Some? ==> ns.value + Sep(traits) + NamespaceAndName(traits, fullName).1 == fullName
                         && |ns.value| + |Sep(traits)| <= BoundaryIndex(traits, fullName)
    ensures EndsWith(NamespaceAndName(traits, fullName).1, fullName[BoundaryIndex(traits, fullName)..])
  {
    if HasSeparator(traits) {
      var b := BoundaryIndex(traits, fullName);
      var parts := SplitAtBoundary(traits, fullName);
      SplitAtBoundaryIndex(traits, fullName);
      var cut := RPartition(parts.0, Sep(traits));
      RPartitionRejoins(parts.0, Sep(traits));
      var shortName := cut.2 + parts.1 + parts.2;
      assert NamespaceAndName(traits, fullName).1 == shortName;
      assert shortName[|cut.2|..] == fullName[b..];
      if cut.0 != "" {
        assert cut.1 == Sep(traits);
        assert cut.0 + Sep(traits) + shortName == parts.0 + (parts.1 + parts.2);
        assert fullName == fullName[..b] + fullName[b..];
      }
    } else {
      assert fullName[|fullName|..] == [];
    }
  }

  /** With a separator, the namespace and short name in terms of the two cuts: at the
      nesting boundary, then at the last separator before it. */
  lemma NamespaceAndNameParts(traits: Traits, fullName: string)
    requires HasSeparator(traits)
    ensures var parts := SplitAtBoundary(traits, fullName);
            var cut := RPartition(parts.0, Sep(traits));
            && NamespaceAndName(traits, fullName).1 == cut.2 + parts.1 + parts.2
            && (NamespaceAndName(traits, fullName).0.None? <==> cut.0 == "")
            && fullName == parts.0 + (parts.1 + parts.2)
            && cut.0 + cut.1 + cut.2 == parts.0
            && (cut.1 == "" <==> !Contains(parts.0, Sep(traits)))
            && (!Contains(parts.0, Sep(traits)) ==> cut.0 == "" && cut.2 == parts.0)
            && parts.0 == fullName[..BoundaryIndex(traits, fullName)]
  {
    var b := BoundaryIndex(traits, fullName);
    SplitAtBoundaryIndex(traits, fullName);
    RPartitionRejoins(SplitAtBoundary(traits, fullName).0, Sep(traits));
    assert fullName == fullName[..b] + fullName[b..];
  }

  /** The namespace ends at the LAST separator before the nesting boundary: what lies
      between it and the boundary holds no further separator. Without a namespace, the part
      before the boundary holds no separator at all, or only a leading one. */
  lemma NamespaceAtLastSeparator(traits: Traits, fullName: string)
    ensures var ns := NamespaceAndName(traits, fullName).0;
            var b := BoundaryIndex(traits, fullName);
            ns.Some? ==> |ns.value| + |Sep(traits)| <= b
                         && !Contains(fullName[|ns.value| + |Sep(traits)|..b], Sep(traits))
    ensures var b := BoundaryIndex(traits, fullName);
            HasSeparator(traits) && NamespaceAndName(traits, fullName).0.None? ==>
              !Contains(fullName[..b], Sep(traits))
              || (StartsWith(fullName[..b], Sep(traits)) && !Contains(fullName[|Sep(traits)|..b], Sep(traits)))
  {
    if HasSeparator(traits) {
      var b := BoundaryIndex(traits, fullName);
      var sep := Sep(traits);
      NamespaceAndNameParts(traits, fullName);
      var before := fullName[..b];
      match FindLast(before, sep)
      case Some(i) =>
        NothingAfterLast(before, sep, i);
        assert fullName[i + |sep|..b] == before[i + |sep|..];
      case None =>
    }
  }

  /** Nothing follows the last occurrence of a non-empty pattern. */
  lemma NothingAfterLast(s: string, p: string, i: nat)
    requires |p| > 0 && FindLast(s, p) == Some(i)
    ensures !Contains(s[i + |p|..], p)
  {
    var t := s[i + |p|..];
    forall j | 0 <= j <= |t| ensures !OccursAt(t, p, j) {
      if OccursAt(t, p, j) {
        assert s[i + |p| + j..i + |p| + j + |p|] == t[j..j + |p|];
        assert OccursAt(s, p, i + |p| + j);
      }
    }
  }

  /** With a separator, the short name is the whole name exactly when no separator comes
      before the nesting boundary; then there is no namespace either. */
  lemma ShortNameIsFullName(traits: Traits, fullName: string)
    requires HasSeparator(traits)
    ensures NamespaceAndName(traits, fullName).1 == fullName
            <==> !Contains(fullName[..BoundaryIndex(traits, fullName)], Sep(traits))
    ensures !Contains(fullName[..BoundaryIndex(traits, fullName)], Sep(traits))
            ==> NamespaceAndName(traits, fullName).0.None?
  {
    NamespaceAndNameParts(traits, fullName);
    var parts := SplitAtBoundary(traits, fullName);
    var cut := RPartition(parts.0, Sep(traits));
    if Contains(parts.0, Sep(traits)) {
      assert |cut.2| < |parts.0|;
      assert |NamespaceAndName(traits, fullName).1| < |fullName|;
    }
  }

  /** Without a namespace the short name is the tail of the full name: at most a leading
      separator is dropped. */
  lemma NoNamespaceKeepsTail(traits: Traits, fullName: string)
    ensures NamespaceAndName(traits, fullName).0.None?
            ==> EndsWith(fullName, NamespaceAndName(traits, fullName).1)
  {
    if !HasSeparator(traits) {
      assert fullName[|fullName| - |fullName|..] == fullName;
    } else {
      NamespaceAndNameParts(traits, fullName);
      var parts := SplitAtBoundary(traits, fullName);
      var cut := RPartition(parts.0, Sep(traits));
      if cut.0 == "" {
        TailAfterCut(fullName, parts.0, parts.1, parts.2, cut.1, cut.2);
      }
    }
  }

  /** A name cut as `cut1 + cut2` before the boundary ends with `cut2` and all after it. */
  lemma TailAfterCut(fullName: string, before: string, boundary: string, after: string,
                     cut1: string, cut2: string)
    requires fullName == before + (boundary + after) && before == "" + cut1 + cut2
    ensures EndsWith(fullName, cut2 + boundary + after)
  {
    var tail := cut2 + boundary + after;
    assert fullName == cut1 + tail;
    assert fullName[|cut1|..] == tail;
  }

  /** `short_name`: the name without its namespace. */
  function ShortName(traits: Traits, name: string): string
  {
    NamespaceAndName(traits, name).1
  }

  /** `namespace`: the namespace of a full name, if any. */
  function Namespace(traits: Traits, fullName: string): Option<string>
  {
    NamespaceAndName(traits, fullName).0
  }

  /** `names`: the short name, full name and namespace of a raw name from the XML input,
      qualified with the name of its parent. */
  function Names(traits: Traits, rawName: string, parentName: string): (r: (string, string, Option<string>))
    ensures r.1 == FullName(traits, CleanupName(traits, rawName), parentName)
    ensures r.2.Some? ==> r.2.value + Sep(traits) + r.0 == r.1
    ensures r.2.None? ==> EndsWith(r.1, r.0)
  {
    var name := CleanupName(traits, rawName);
    var fullName := FullName(traits, name, parentName);
    NamespaceAndNameSplit(traits, fullName);
    NoNamespaceKeepsTail(traits, fullName);
    var (namespace, shortName) := NamespaceAndName(traits, fullName);
    (shortName, fullName, namespace)
  }

  /** `str.replace("__", "-")`: replace non-overlapping occurrences from left to right. */
  function ReplaceDoubleUnderscore(s: string): (r: string)
    ensures |r| <= |s|
  {
    if |s| >= 2 && s[0] == '_' && s[1] == '_' then "-" + ReplaceDoubleUnderscore(s[2..])
    else if |s| == 0 then ""
    else [s[0]] + ReplaceDoubleUnderscore(s[1..])
  }

  /** No two adjacent underscores. */
  predicate NoDoubleUnderscore(r: string)
  {
    forall i | 0 <= i < |r| - 1 :: r[i] != '_' || r[i + 1] != '_'
  }

  lemma NoDoubleUnderscoreMeansNoOccurrence(r: string)
    requires NoDoubleUnderscore(r)
    ensures !Contains(r, "__")
  {
    forall i | 0 <= i <= |r| ensures !OccursAt(r, "__", i) {
      if i + 2 <= |r| {
        assert r[i..i + 2][0] == r[i] && r[i..i + 2][1] == r[i + 1];
      }
    }
  }

  /** The replacement leaves no two adjacent underscores, and its result starts with an
      underscore only if the input starts with a single one. */
  lemma {:induction false} ReplacementLeavesNoDouble(s: string)
    ensures NoDoubleUnderscore(ReplaceDoubleUnderscore(s))
    ensures |ReplaceDoubleUnderscore(s)| > 0 && ReplaceDoubleUnderscore(s)[0] == '_'
            ==> |s| > 0 && s[0] == '_' && (|s| == 1 || s[1] != '_')
  {
    var r := ReplaceDoubleUnderscore(s);
    if |s| >= 2 && s[0] == '_' && s[1] == '_' {
      ReplacementLeavesNoDouble(s[2..]);
      var rest := ReplaceDoubleUnderscore(s[2..]);
      assert r == "-" + rest;
      forall i | 0 <= i < |r| - 1 ensures r[i] != '_' || r[i + 1] != '_' {
        if i >= 1 {
          assert r[i] == rest[i - 1] && r[i + 1] == rest[i];
        }
      }
    } else if |s| > 0 {
      ReplacementLeavesNoDouble(s[1..]);
      var rest := ReplaceDoubleUnderscore(s[1..]);
      assert r == [s[0]] + rest;
      forall i | 0 <= i < |r| - 1 ensures r[i] != '_' || r[i + 1] != '_' {
        if i >= 1 {
          assert r[i] == rest[i - 1] && r[i + 1] == rest[i];
        } else if s[0] == '_' {
          assert s[1..][0] != '_';
          assert r[1] == rest[0];
        }
      }
    }
  }

  /** Whatever was passed in, the result of the replacement contains no "__". */
  lemma NoDoubleUnderscoreLeft(s: string)
    ensures !Contains(ReplaceDoubleUnderscore(s), "__")
  {
    ReplacementLeavesNoDouble(s);
    NoDoubleUnderscoreMeansNoOccurrence(ReplaceDoubleUnderscore(s));
  }

  /** An id without two adjacent underscores comes through the replacement unchanged. */
  lemma {:induction false} ReplaceKeepsCleanId(s: string)
    requires NoDoubleUnderscore(s)
    ensures ReplaceDoubleUnderscore(s) == s
  {
    if |s| > 0 {
      assert NoDoubleUnderscore(s[1..]) by {
        forall i | 0 <= i < |s[1..]| - 1 ensures s[1..][i] != '_' || s[1..][i + 1] != '_' {
          assert s[1..][i] == s[i + 1] && s[1..][i + 1] == s[i + 2];
        }
      }
      ReplaceKeepsCleanId(s[1..]);
      assert [s[0]] + s[1..] == s;
    }
  }

  /** The replacement works piece by piece: a string cut after a character other than an
      underscore is replaced as its two parts are. */
  lemma {:induction false} ReplaceSplits(a: string, b: string)
    requires |a| == 0 || a[|a| - 1] != '_'
    ensures ReplaceDoubleUnderscore(a + b) == ReplaceDoubleUnderscore(a) + ReplaceDoubleUnderscore(b)
    decreases |a|
  {
    if |a| == 0 {
      assert a + b == b;
    } else {
      var k := if |a| >= 2 && a[0] == '_' && a[1] == '_' then 2 else 1;
      var head := if k == 2 then "-" else [a[0]];
      ReplaceHead(a, b, k, head);
      var rest := a[k..];
      assert |rest| == 0 || rest[|rest| - 1] == a[|a| - 1];
      ReplaceSplits(rest, b);
      var rr, rb := ReplaceDoubleUnderscore(rest), ReplaceDoubleUnderscore(b);
      assert head + (rr + rb) == (head + rr) + rb;
    }
  }

  /** One step of `ReplaceSplits`: `a` and `a + b` begin alike, with a pair of
      underscores (k = 2) or with a single character (k = 1). */
  lemma ReplaceHead(a: string, b: string, k: nat, head: string)
    requires |a| > 0 && a[|a| - 1] != '_'
    requires k == (if |a| >= 2 && a[0] == '_' && a[1] == '_' then 2 else 1)
    requires head == (if k == 2 then "-" else [a[0]])
    ensures k <= |a| && (a + b)[k..] == a[k..] + b
    ensures ReplaceDoubleUnderscore(a) == head + ReplaceDoubleUnderscore(a[k..])
    ensures ReplaceDoubleUnderscore(a + b) == head + ReplaceDoubleUnderscore(a[k..] + b)
  {
    var ab := a + b;
    assert ab[0] == a[0];
    if |a| >= 2 {
      assert ab[1] == a[1];
    }
    assert ab[k..] == a[k..] + b;
  }

  /** A leading "__" becomes a single "-"; with `ReplaceSplits`, so does every "__" that
      follows a character other than an underscore. */
  lemma ReplaceLeadingPair(b: string)
    ensures ReplaceDoubleUnderscore("__" + b) == "-" + ReplaceDoubleUnderscore(b)
  {
    assert ("__" + b)[2..] == b;
  }

  /** The module-level `unique_id`: None stays None, an empty id stays empty, and any
      other id is prefixed with the language tag after its "__" are replaced. */
  function UniqueId(tag: string, id: Option<string>): (r: Option<string>)
    ensures id.None? <==> r.None?
    ensures id == Some("") ==> r == Some("")
    ensures Truthy(id) ==> r == Some(tag + "-" + ReplaceDoubleUnderscore(id.value))
  {
    if id.None? then None
    else if id.value == "" then Some("")
    else Some(tag + "-" + ReplaceDoubleUnderscore(id.value))
  }

  /** An id without "__" keeps its text: the unique id is the tag, "-" and the id itself. */
  lemma UniqueIdKeepsCleanId(tag: string, id: string)
    requires id != "" && NoDoubleUnderscore(id)
    ensures UniqueId(tag, Some(id)) == Some(tag + "-" + id)
  {
    ReplaceKeepsCleanId(id);
  }

  /** The identifier part of a unique id never contains "__", and ids of different
      languages cannot collide when neither tag contains "-". */
  lemma UniqueIdShape(tag: string, other: string, id: string, otherId: string)
    requires id != "" && otherId != ""
    requires !Contains(tag, "-") && !Contains(other, "-") && tag != other
    ensures var r := UniqueId(tag, Some(id)).value;
            StartsWith(r, tag + "-") && !Contains(r[|tag| + 1..], "__")
    ensures UniqueId(tag, Some(id)) != UniqueId(other, Some(otherId))
  {
    var r := UniqueId(tag, Some(id)).value;
    NoDoubleUnderscoreLeft(id);
    assert r[|tag| + 1..] == ReplaceDoubleUnderscore(id);
    var q := UniqueId(other, Some(otherId)).value;
    if |tag| < |other| {
      assert !OccursAt(other, "-", |tag|);
      assert other[|tag|..|tag| + 1] == [other[|tag|]];
      assert r[|tag|] != q[|tag|];
    } else if |other| < |tag| {
      assert !OccursAt(tag, "-", |other|);
      assert tag[|other|..|other| + 1] == [tag[|other|]];
      assert r[|other|] != q[|other|];
    } else {
      var k :| 0 <= k < |tag| && tag[k] != other[k];
      assert r[k] != q[k];
    }
  }

  /** `LanguageTraits.unique_id`: the module-level function with the language's own tag. */
  function TraitsUniqueId(traits: Traits, id: Option<string>): (r: Option<string>)
    ensures Truthy(id) ==> r.Some? && StartsWith(r.value, traits.tag + "-")
    ensures id.None? <==> r.None?
  {
    UniqueId(traits.tag, id)
  }
}
