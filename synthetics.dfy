/** The special wrapper schemas (dates and references) put in front of the sorted types.
    The namespaces come from sets whose iteration order is not fixed; here they are
    given in the order of iteration. The schema built for a namespace is a parameter,
    since the wrapper types are not part of this model. */
module Synthetics {
  import opened Schema

  /** Inserts, for each namespace in turn, its schema at the front of `list`. The last
      namespace met ends up first. */
  method PrependEach(list: seq<Option<NamedType>>, namespaces: seq<string>, schema: string -> NamedType)
    returns (r: seq<Option<NamedType>>)
    ensures |r| == |namespaces| + |list|
    ensures forall k :: 0 <= k < |namespaces| ==> r[k] == Some(schema(namespaces[|namespaces| - 1 - k]))
    ensures r[|namespaces|..] == list
  {
    r := list;
    var i := 0;
    while i < |namespaces|
      invariant 0 <= i <= |namespaces|
      invariant |r| == i + |list|
      invariant forall k :: 0 <= k < i ==> r[k] == Some(schema(namespaces[i - 1 - k]))
      invariant r[i..] == list
    {
      r := [Some(schema(namespaces[i]))] + r;
      i := i + 1;
    }
  }

  /** Adds the date wrappers, then the reference wrappers, each at index 0. The result
      opens with the reference wrappers (in reverse iteration order), then the date
      wrappers (in reverse iteration order), then the sorted types unchanged. */
  method InjectSpecialTypes(ordered: seq<Option<NamedType>>, dateNamespaces: seq<string>,
                            referenceNamespaces: seq<string>,
                            dateSchema: string -> NamedType, referenceSchema: string -> NamedType)
    returns (types: seq<Option<NamedType>>)
    ensures |types| == |referenceNamespaces| + |dateNamespaces| + |ordered|
    ensures forall k :: 0 <= k < |referenceNamespaces| ==>
      types[k] == Some(referenceSchema(referenceNamespaces[|referenceNamespaces| - 1 - k]))
    ensures forall k :: |referenceNamespaces| <= k < |referenceNamespaces| + |dateNamespaces| ==>
      types[k] == Some(dateSchema(dateNamespaces[|referenceNamespaces| + |dateNamespaces| - 1 - k]))
    ensures types[|referenceNamespaces| + |dateNamespaces|..] == ordered
  {
    var withDates := PrependEach(ordered, dateNamespaces, dateSchema);
    types := PrependEach(withDates, referenceNamespaces, referenceSchema);
    forall k | |referenceNamespaces| <= k < |referenceNamespaces| + |dateNamespaces|
      ensures types[k] == Some(dateSchema(dateNamespaces[|referenceNamespaces| + |dateNamespaces| - 1 - k]))
    {
      assert types[k] == types[|referenceNamespaces|..][k - |referenceNamespaces|];
    }
    assert types[|referenceNamespaces| + |dateNamespaces|..] == types[|referenceNamespaces|..][|dateNamespaces|..];
  }
}
