/** Data model shared by the schema generator's ordering and emitting core. */
module Schema {

  datatype Option<+T> = None | Some(value: T)

  datatype Result<+R, +E> = Success(value: R) | Failure(error: E)

  /** A generated named Avro type: its short name, its dotted namespace, the fully
      qualified names (`namespace.name`) of the named types it references, and the rest
      of the schema, which only the serializer looks at. */
  datatype NamedType = NamedType(name: string, namespace: string, dependencies: seq<string>, body: string)

  /** The two ways the emission can abort. A serializer failure is wrapped in a
      SchemagenException that keeps its cause; an entry that is null (a stub of the
      dependency graph) is dereferenced when its file name is built. */
  datatype Error = SchemagenException(cause: string) | NullPointerException

  /** The key of a type in the dependency graph: namespace, a dot, short name. */
  function Key(t: NamedType): (k: string)
    ensures |k| == |t.namespace| + 1 + |t.name|
    ensures k[|t.namespace|] == '.' && k[..|t.namespace|] == t.namespace && k[|t.namespace| + 1..] == t.name
  {
    t.namespace + "." + t.name
  }

  /** What follows the last '.' of a text (all of it when it holds no '.'). */
  function AfterLastDot(s: string): string
  {
    if |s| == 0 then s
    else if s[|s| - 1] == '.' then []
    else AfterLastDot(s[..|s| - 1]) + [s[|s| - 1]]
  }

  /** Short names hold no '.', so a key's short name is what follows its last '.'. */
  lemma {:induction false} NameAfterLastDot(t: NamedType)
    requires forall i :: 0 <= i < |t.name| ==> t.name[i] != '.'
    ensures AfterLastDot(Key(t)) == t.name
    decreases |t.name|
  {
    if |t.name| > 0 {
      var shorter := t.(name := t.name[..|t.name| - 1]);
      assert Key(t)[..|Key(t)| - 1] == Key(shorter);
      NameAfterLastDot(shorter);
      assert shorter.name + [t.name[|t.name| - 1]] == t.name;
    }
  }

  /** Two types whose short names hold no '.' share a key only when they share both
      namespace and short name. */
  lemma KeyInjective(a: NamedType, b: NamedType)
    requires forall i :: 0 <= i < |a.name| ==> a.name[i] != '.'
    requires forall i :: 0 <= i < |b.name| ==> b.name[i] != '.'
    requires Key(a) == Key(b)
    ensures a.namespace == b.namespace && a.name == b.name
  {
    NameAfterLastDot(a);
    NameAfterLastDot(b);
  }
}
