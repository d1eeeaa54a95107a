/** The schema writer and the whole generation step. Each entry of the final list is
    written twice: under the ordered directory with a zero-padded counter in front of its
    name, and under the plain directory in the sub-directory of its namespace; then a
    manifest holds every entry's JSON text in list order. Output files are records of the
    package path they are added to (the chain of sub-package names from the root), their
    name and their contents. */
module Emitter {
  import opened Schema
  import opened Collisions
  import opened DependencyGraph
  import opened Synthetics
  import opened Numbering
  import opened JsonText

  const OutputDirectoryOrdered := "avro-schemas-ordered"
  const OutputDirectory := "avro-schemas"
  const ManifestName := "avro-schemas.avsc"

  datatype ResourceFile = ResourceFile(package: seq<string>, name: string, contents: string)

  /** The file of an entry under the ordered directory, holding its JSON text. */
  function OrderedFile(id: string, t: NamedType, json: string): (f: ResourceFile)
    ensures f.package == [OutputDirectoryOrdered] && f.contents == json
    ensures |f.name| == |id| + 1 + |t.name| + 5
  {
    ResourceFile([OutputDirectoryOrdered], id + "_" + t.name + ".avsc", json)
  }

  /** The file of an entry under the directory of its namespace, holding its JSON text:
      one sub-directory whose path has a '/' wherever the namespace has a '.', and no '.'
      left. */
  function NamespaceFile(t: NamedType, json: string): (f: ResourceFile)
    ensures |f.package| == 2 && f.package[0] == OutputDirectory && f.contents == json
    ensures f.package[1] == NamespacePath(t.namespace)
    ensures |f.name| == |t.name| + 5
  {
    ResourceFile([OutputDirectory, NamespacePath(t.namespace)], t.name + ".avsc", json)
  }

  /** The ordered file name starts with the id and a '_', so that file names sort by id;
      both file names end with the schema extension after the short name. */
  lemma FileNames(id: string, t: NamedType, json: string)
    ensures OrderedFile(id, t, json).name[..|id|] == id && OrderedFile(id, t, json).name[|id|] == '_'
    ensures OrderedFile(id, t, json).name[|id| + 1..|id| + 1 + |t.name|] == t.name
    ensures OrderedFile(id, t, json).name[|id| + 1 + |t.name|..] == ".avsc"
    ensures NamespaceFile(t, json).name[..|t.name|] == t.name && NamespaceFile(t, json).name[|t.name|..] == ".avsc"
  {
  }

  /** What goes wrong when writing one entry: the serializer's failure, or else, for a
      stub entry, the null dereference of reading its name. */
  function EntryError(serialize: Option<NamedType> -> Result<string, string>, entry: Option<NamedType>): (e: Option<Error>)
    ensures e.None? <==> entry.Some? && serialize(entry).Success?
  {
    match GetJson(serialize, entry)
    case Failure(error) => Some(error)
    case Success(_) => if entry.None? then Some(NullPointerException) else None
  }

  /** Writes the schema files of `types` in list order, counting from 1. It fails with
      the error of the first entry that goes wrong; otherwise entry `i` yields files
      `2 * i` (ordered) and `2 * i + 1` (by namespace), both holding its JSON text, and
      the ordered names sort by filename in list order. */
  method OutputSchema(types: seq<Option<NamedType>>, serialize: Option<NamedType> -> Result<string, string>)
    returns (r: Result<seq<ResourceFile>, Error>)
    ensures r.Success? <==> forall i :: 0 <= i < |types| ==> EntryError(serialize, types[i]).None?
    ensures r.Failure? ==> exists i :: (0 <= i < |types| && Some(r.error) == EntryError(serialize, types[i]) &&
      forall j :: 0 <= j < i ==> EntryError(serialize, types[j]).None?)
    ensures r.Success? ==> |r.value| == 2 * |types|
    ensures r.Success? ==> forall i :: 0 <= i < |types| ==>
      r.value[2 * i] == OrderedFile(FormatId(|Decimal(|types|)|, i + 1), types[i].value, ReplaceValues(serialize(types[i]).value)) &&
      r.value[2 * i + 1] == NamespaceFile(types[i].value, ReplaceValues(serialize(types[i]).value))
    ensures r.Success? ==> forall i, j :: 0 <= i < j < |types| ==> LexLess(r.value[2 * i].name, r.value[2 * j].name)
  {
    var digits := ZeroPattern(|types|);
    var counter := 1;
    var files := [];
    var i := 0;
    while i < |types|
      invariant 0 <= i <= |types| && counter == i + 1
      invariant forall j :: 0 <= j < i ==> EntryError(serialize, types[j]).None?
      invariant |files| == 2 * i
      invariant forall j :: 0 <= j < i ==>
        files[2 * j] == OrderedFile(FormatId(|digits|, j + 1), types[j].value, ReplaceValues(serialize(types[j]).value)) &&
        files[2 * j + 1] == NamespaceFile(types[j].value, ReplaceValues(serialize(types[j]).value))
    {
      var id := FormatId(|digits|, counter);
      counter := counter + 1;
      var json := GetJson(serialize, types[i]);
      if json.Failure? {
        return Failure(json.error);
      }
      if types[i].None? {
        return Failure(NullPointerException);
      }
      var entry := types[i].value;
      files := files + [OrderedFile(id, entry, json.value), NamespaceFile(entry, json.value)];
      i := i + 1;
    }
    r := Success(files);
    forall i, j | 0 <= i < j < |types| ensures LexLess(files[2 * i].name, files[2 * j].name) {
      OrderedNames(|types|, i, j, types[i].value.name, types[j].value.name);
    }
  }

  /** The pieces joined in order. */
  function Concat(pieces: seq<string>): string
  {
    if |pieces| == 0 then "" else Concat(pieces[..|pieces| - 1]) + pieces[|pieces| - 1]
  }

  /** Joining is in order: the join of two lists is the join of the first followed by the
      join of the second. */
  lemma {:induction false} ConcatAppend(a: seq<string>, b: seq<string>)
    ensures Concat(a + b) == Concat(a) + Concat(b)
  {
    if |b| > 0 {
      ConcatAppend(a, b[..|b| - 1]);
      assert (a + b)[..|a + b| - 1] == a + b[..|b| - 1];
    } else {
      assert a + b == a;
    }
  }

  /** The JSON text of each entry ("" where the serializer fails). */
  function Texts(types: seq<Option<NamedType>>, serialize: Option<NamedType> -> Result<string, string>): (r: seq<string>)
    ensures |r| == |types|
    ensures forall i :: 0 <= i < |types| && serialize(types[i]).Success? ==> r[i] == ReplaceValues(serialize(types[i]).value)
  {
    seq(|types|, i requires 0 <= i < |types| => match GetJson(serialize, types[i]) case Success(json) => json case Failure(_) => "")
  }

  /** The manifest text: every entry's JSON text appended in list order, failing with the
      first serializer failure. */
  method BuildManifest(types: seq<Option<NamedType>>, serialize: Option<NamedType> -> Result<string, string>)
    returns (r: Result<string, Error>)
    ensures r.Success? <==> forall i :: 0 <= i < |types| ==> serialize(types[i]).Success?
    ensures r.Failure? ==> exists i :: (0 <= i < |types| && serialize(types[i]).Failure? &&
      r.error == SchemagenException(serialize(types[i]).error) &&
      forall j :: 0 <= j < i ==> serialize(types[j]).Success?)
    ensures r.Success? ==> r.value == Concat(Texts(types, serialize))
  {
    var sb := "";
    var i := 0;
    while i < |types|
      invariant 0 <= i <= |types|
      invariant forall j :: 0 <= j < i ==> serialize(types[j]).Success?
      invariant sb == Concat(Texts(types, serialize)[..i])
    {
      var json := GetJson(serialize, types[i]);
      if json.Failure? {
        return Failure(json.error);
      }
      assert Texts(types, serialize)[..i + 1][..i] == Texts(types, serialize)[..i];
      sb := sb + json.value;
      i := i + 1;
    }
    assert Texts(types, serialize)[..i] == Texts(types, serialize);
    r := Success(sb);
  }

  /** The JSON texts of the ordered files, in order. */
  function OrderedContents(files: seq<ResourceFile>): (r: seq<string>)
    ensures |r| == |files| / 2
    ensures forall i :: 0 <= i < |r| ==> r[i] == files[2 * i].contents
  {
    seq(|files| / 2, i requires 0 <= i < |files| / 2 => files[2 * i].contents)
  }

  /** Some surviving type depends on a name that no surviving type declares. */
  ghost predicate HasDanglingDependency(types: seq<NamedType>)
  {
    exists t, d :: t in types && d in t.dependencies && !Declared(types, d)
  }

  /** The whole generation step: drop colliding names, sort by dependency, put the
      reference and date wrappers in front, write the schema files, then the manifest.
      A dependency on a name no surviving type declares leaves a stub entry in the list,
      and writing it fails. */
  method GenerateAvroSchemas(avroTypes: seq<NamedType>, dateNamespaces: seq<string>, referenceNamespaces: seq<string>,
                             dateSchema: string -> NamedType, referenceSchema: string -> NamedType,
                             serialize: Option<NamedType> -> Result<string, string>)
    returns (r: Result<seq<ResourceFile>, Error>)
    requires NoDependencyCycle(Survivors(avroTypes))
    ensures HasDanglingDependency(Survivors(avroTypes)) ==> r.Failure?
    ensures r.Success? ==>
      |r.value| == 2 * (|referenceNamespaces| + |dateNamespaces| + |NodeKeys(Survivors(avroTypes))|) + 1
    ensures r.Success? ==> (r.value[|r.value| - 1] ==
      ResourceFile([], ManifestName, Concat(OrderedContents(r.value[..|r.value| - 1]))))
    ensures r.Success? ==> forall i :: 0 <= i < |referenceNamespaces| ==>
      r.value[2 * i].name == FormatId(|Decimal(|r.value| / 2)|, i + 1) + "_" +
        referenceSchema(referenceNamespaces[|referenceNamespaces| - 1 - i]).name + ".avsc"
    ensures r.Success? ==> forall i :: |referenceNamespaces| <= i < |referenceNamespaces| + |dateNamespaces| ==>
      r.value[2 * i].name == FormatId(|Decimal(|r.value| / 2)|, i + 1) + "_" +
        dateSchema(dateNamespaces[|referenceNamespaces| + |dateNamespaces| - 1 - i]).name + ".avsc"
  {
    var orderedTypes, order := SortedTypes(avroTypes);
    var types := InjectSpecialTypes(orderedTypes, dateNamespaces, referenceNamespaces, dateSchema, referenceSchema);
    r := WriteSchemas(types, serialize);
    if None in orderedTypes {
      var i :| 0 <= i < |orderedTypes| && orderedTypes[i] == None;
      assert types[|referenceNamespaces| + |dateNamespaces| + i] == None by {
        assert types[|referenceNamespaces| + |dateNamespaces|..][i] == orderedTypes[i];
      }
    }
    if r.Success? {
      WrappersWrittenFirst(r.value, types, dateNamespaces, referenceNamespaces, dateSchema, referenceSchema);
    }
  }

  /** The collision filter followed by the dependency sort. The sorted list follows an
      order of the survivors' node keys in which every name comes after the names it
      depends on, and carries the type declared under each key. It holds a stub entry
      exactly when some surviving type depends on a name no surviving type declares. */
  method SortedTypes(avroTypes: seq<NamedType>) returns (orderedTypes: seq<Option<NamedType>>, ghost order: seq<string>)
    requires NoDependencyCycle(Survivors(avroTypes))
    ensures |orderedTypes| == |order| == |NodeKeys(Survivors(avroTypes))|
    ensures Distinct(order) && forall k :: k in NodeKeys(Survivors(avroTypes)) <==> k in order
    ensures forall i :: 0 <= i < |order| ==> orderedTypes[i] == Attached(Survivors(avroTypes), order[i])
    ensures forall i, j :: 0 <= i < |order| && 0 <= j < |order| && DependsOn(Survivors(avroTypes), order[i], order[j]) ==> j < i
    ensures None in orderedTypes <==> HasDanglingDependency(Survivors(avroTypes))
  {
    var kept := CheckForCollisions(avroTypes);
    orderedTypes, order := TopologicalSort(kept);
    StubIffDangling(kept, orderedTypes, order);
  }

  /** Carries the names of the wrappers' ordered files over from the entry list to the
      written list: given per-entry names numbered with the width of the entry list, the
      first ordered files (reference wrappers, then date wrappers, each in reverse
      iteration order) are numbered with the width of half the written list. That the
      wrappers come first is proved by `InjectSpecialTypes` and `WriteSchemas`. */
  lemma WrappersWrittenFirst(files: seq<ResourceFile>, types: seq<Option<NamedType>>,
                             dateNamespaces: seq<string>, referenceNamespaces: seq<string>,
                             dateSchema: string -> NamedType, referenceSchema: string -> NamedType)
    requires |files| == 2 * |types| + 1 && |referenceNamespaces| + |dateNamespaces| <= |types|
    requires forall i :: 0 <= i < |types| ==> types[i].Some?
    requires forall i :: 0 <= i < |types| ==>
      files[2 * i].name == FormatId(|Decimal(|types|)|, i + 1) + "_" + types[i].value.name + ".avsc"
    requires forall k :: 0 <= k < |referenceNamespaces| ==>
      types[k] == Some(referenceSchema(referenceNamespaces[|referenceNamespaces| - 1 - k]))
    requires forall k :: |referenceNamespaces| <= k < |referenceNamespaces| + |dateNamespaces| ==>
      types[k] == Some(dateSchema(dateNamespaces[|referenceNamespaces| + |dateNamespaces| - 1 - k]))
    ensures forall i :: 0 <= i < |referenceNamespaces| ==>
      files[2 * i].name == FormatId(|Decimal(|files| / 2)|, i + 1) + "_" +
        referenceSchema(referenceNamespaces[|referenceNamespaces| - 1 - i]).name + ".avsc"
    ensures forall i :: |referenceNamespaces| <= i < |referenceNamespaces| + |dateNamespaces| ==>
      files[2 * i].name == FormatId(|Decimal(|files| / 2)|, i + 1) + "_" +
        dateSchema(dateNamespaces[|referenceNamespaces| + |dateNamespaces| - 1 - i]).name + ".avsc"
  {
    assert |files| / 2 == |types|;
  }

  /** The writing half of the generation step: the schema files of every entry, then
      the manifest of their JSON texts in list order. It succeeds exactly when no entry
      goes wrong, and fails with the error of the first entry that does. */
  method WriteSchemas(types: seq<Option<NamedType>>, serialize: Option<NamedType> -> Result<string, string>)
    returns (r: Result<seq<ResourceFile>, Error>)
    ensures r.Success? <==> forall i :: 0 <= i < |types| ==> EntryError(serialize, types[i]).None?
    ensures r.Failure? ==> exists i :: (0 <= i < |types| && Some(r.error) == EntryError(serialize, types[i]) &&
      forall j :: 0 <= j < i ==> EntryError(serialize, types[j]).None?)
    ensures r.Success? ==> |r.value| == 2 * |types| + 1
    ensures r.Success? ==> forall i :: 0 <= i < |types| ==>
      r.value[2 * i] == OrderedFile(FormatId(|Decimal(|types|)|, i + 1), types[i].value, ReplaceValues(serialize(types[i]).value)) &&
      r.value[2 * i + 1] == NamespaceFile(types[i].value, ReplaceValues(serialize(types[i]).value))
    ensures r.Success? ==> (r.value[|r.value| - 1] ==
      ResourceFile([], ManifestName, Concat(OrderedContents(r.value[..|r.value| - 1]))))
  {
    var written := OutputSchema(types, serialize);
    if written.Failure? {
      return Failure(written.error);
    }
    var manifest := BuildManifest(types, serialize);
    if manifest.Failure? {
      return Failure(manifest.error);
    }
    var files := written.value;
    assert OrderedContents(files) == Texts(types, serialize);
    r := Success(files + [ResourceFile([], ManifestName, manifest.value)]);
    assert r.value[..|r.value| - 1] == files;
  }

  /** A sorted list of the table of `kept` holds a stub entry exactly when a dependency
      of some type is declared by none. */
  lemma StubIffDangling(kept: seq<NamedType>, orderedTypes: seq<Option<NamedType>>, order: seq<string>)
    requires |orderedTypes| == |order| && (forall k :: k in NodeKeys(kept) <==> k in order)
    requires forall i :: 0 <= i < |order| ==> orderedTypes[i] == Attached(kept, order[i])
    ensures None in orderedTypes <==> HasDanglingDependency(kept)
  {
    if None in orderedTypes {
      var i :| 0 <= i < |orderedTypes| && orderedTypes[i] == None;
      assert order[i] in NodeKeys(kept);
      assert !Declared(kept, order[i]);
      var t, d :| t in kept && d in t.dependencies && d == order[i];
    }
    if HasDanglingDependency(kept) {
      var t, d :| t in kept && d in t.dependencies && !Declared(kept, d);
      assert d in NodeKeys(kept);
      var i :| 0 <= i < |order| && order[i] == d;
      assert orderedTypes[i] == None;
    }
  }
}
