# Avro schema generation pipeline — a Dafny model

This project models the ordered-output pipeline of the XJC plugin `AvroSchemagenPlugin`.
The plugin receives the set of named Avro types generated from a JAXB code model and does
five things, each modelled here:

- **Collision filter** (`checkForCollisions`, module `Collisions`). It walks the type set and
  drops every type whose short name was already seen. Names are compared across namespaces.
- **Dependency sort** (`topologicalSort` and `Node`, module `DependencyGraph`). It fills a
  node table keyed by `namespace + "." + name`. A referenced name that no type declares gets
  a stub node with no type. Then a Kahn-style loop emits, pass after pass, every remaining
  node that has no parent left.
- **Synthetic prepend** (in `generateAvroSchemas`, module `Synthetics`). It inserts a date
  wrapper schema at index 0 for each date namespace, then a reference wrapper schema at
  index 0 for each reference namespace.
- **Numbering and file naming** (`outputSchema`, modules `Numbering` and `Emitter`). A pattern
  of as many zeros as the list size has digits sets the id width. Each entry is written as
  `id_name.avsc` under `avro-schemas-ordered`, and as `name.avsc` under `avro-schemas` in the
  sub-package of its namespace, with '.' replaced by '/'.
- **Manifest and text clean-up** (the summary loop, `getJson`, `replaceValues`, modules
  `JsonText` and `Emitter`). The JSON text of every entry has two literal replace-alls
  applied to it. The manifest `avro-schemas.avsc` is these texts joined in list order.

`Emitter.GenerateAvroSchemas` puts the five steps together.

Modelling choices:

- The iteration order of Java's hash sets is unspecified, so the type set and the namespace
  sets are given as sequences in iteration order. Within one pass of the ordering loop, the
  next node visited is a nondeterministic choice.
- The `Node` objects are an arena: a map from key to node, holding parent and child keys.
  The table holds exactly one node per key, so a set of node references and a set of keys
  say the same thing.
- A stub puts its null type into the sorted list, as the code does (`Option.None`).
- A dependency cycle makes the ordering loop run forever. So `OrderNodes` requires an
  acyclic table, and `TopologicalSort` and `GenerateAvroSchemas` require the types to have
  no dependency cycle. `DependencyGraph.CycleNeverEmitted` shows that no key on a cycle is
  ever emitted, so the set of remaining nodes never becomes empty.
- The JSON serializer is a parameter: a function from an entry (None for a stub) to the
  text or a failure message. The date and reference wrapper schemas are parameters too:
  functions from a namespace to a named type. A thrown exception ends the run, so it is a
  `Failure` result.

Behaviour of the code that the model keeps as written:

- Stubs. Line 237 appends a stub's null type to the sequence. `outputSchema` serializes it,
  and then reading `type.name` at line 271 fails with a null dereference. So any dependency
  on a name no surviving type declares makes the whole run fail (`GenerateAvroSchemas`,
  first ensures).
- Cycles. On a dependency cycle, including a type that depends on itself, no node of the
  cycle ever loses its last parent, so the loop at line 232 never ends.
- Wrapper order. Each wrapper is inserted at index 0 and the reference wrappers are
  inserted after the date wrappers, so the reference wrappers come first
  (`Synthetics.InjectSpecialTypes`).
- Idempotence. Applying the two clean-ups again can change a text further
  (`JsonText.ReplaceValuesNotIdempotent`).

## Model

All source paths are under `SchemaCompiler/schemagen-core/src/main/java/com/nokia/util/avro/schemagen/`;
the table writes them in full.

| member | source | states |
|---|---|---|
| Schema.Key | SchemaCompiler/schemagen-core/src/main/java/com/nokia/util/avro/schemagen/AvroSchemagenPlugin.java:200 | the node key of a type is its namespace, a '.', then its name |
| Schema.NameAfterLastDot | SchemaCompiler/schemagen-core/src/main/java/com/nokia/util/avro/schemagen/AvroSchemagenPlugin.java:200 | for a short name without '.', the name is exactly what follows the last '.' of the key |
| Schema.KeyInjective | SchemaCompiler/schemagen-core/src/main/java/com/nokia/util/avro/schemagen/AvroSchemagenPlugin.java:200 | two types whose short names hold no '.' get the same key only when namespace and name are both equal |
| Collisions.CheckForCollisions | SchemaCompiler/schemagen-core/src/main/java/com/nokia/util/avro/schemagen/AvroSchemagenPlugin.java:172-186 | the kept types are the survivors of the seen-names walk; no two share a short name; every short name of the input keeps one; only input types are kept |
| Collisions.SurvivorsFromInput | SchemaCompiler/schemagen-core/src/main/java/com/nokia/util/avro/schemagen/AvroSchemagenPlugin.java:175-185 | the filter only removes: every survivor is an input type |
| Collisions.SurvivorsUnique | SchemaCompiler/schemagen-core/src/main/java/com/nokia/util/avro/schemagen/AvroSchemagenPlugin.java:177-185 | no two survivors share a short name |
| Collisions.SurvivorsNames | SchemaCompiler/schemagen-core/src/main/java/com/nokia/util/avro/schemagen/AvroSchemagenPlugin.java:177-185 | the survivors carry exactly the short names of the input |
| Collisions.SurvivorIffFirst | SchemaCompiler/schemagen-core/src/main/java/com/nokia/util/avro/schemagen/AvroSchemagenPlugin.java:179-185 | for a set of distinct types, a type survives if and only if no type before it in iteration order has its short name |
| DependencyGraph.Attached | SchemaCompiler/schemagen-core/src/main/java/com/nokia/util/avro/schemagen/AvroSchemagenPlugin.java:199-211 | a key holds a type exactly when some type is declared under it, and then it holds the last such type |
| DependencyGraph.AttachType | SchemaCompiler/schemagen-core/src/main/java/com/nokia/util/avro/schemagen/AvroSchemagenPlugin.java:200-211 | fetch-or-create: the key's node gets the type, keeps the edges of an existing stub, and no other node changes |
| DependencyGraph.Link | SchemaCompiler/schemagen-core/src/main/java/com/nokia/util/avro/schemagen/AvroSchemagenPlugin.java:214-224 | the dependency gets a stub node if absent; it becomes a parent of the type's node and the type's node one of its children; nothing else changes |
| DependencyGraph.AddDependencies | SchemaCompiler/schemagen-core/src/main/java/com/nokia/util/avro/schemagen/AvroSchemagenPlugin.java:213-225 | after the dependency loop, the table holds a node for each dependency and exactly the added parent and child edges |
| DependencyGraph.BuildNodeTable | SchemaCompiler/schemagen-core/src/main/java/com/nokia/util/avro/schemagen/AvroSchemagenPlugin.java:197-226 | one node per type key and per dependency name; each holds the last type declared under its key or none; parents and children are exactly the dependency pairs |
| DependencyGraph.DescribedWellLinked | SchemaCompiler/schemagen-core/src/main/java/com/nokia/util/avro/schemagen/AvroSchemagenPlugin.java:223-224 | every edge of the built table is recorded on both ends and names only keys of the table |
| DependencyGraph.DescribedAcyclic | SchemaCompiler/schemagen-core/src/main/java/com/nokia/util/avro/schemagen/AvroSchemagenPlugin.java:189-195 | types without a dependency cycle give a table without a cycle of parent edges |
| DependencyGraph.ReadyNodeExists | SchemaCompiler/schemagen-core/src/main/java/com/nokia/util/avro/schemagen/AvroSchemagenPlugin.java:232-236 | progress: in an acyclic table, a non-empty set of remaining nodes holds one with no parent among them |
| DependencyGraph.ReleaseChildren | SchemaCompiler/schemagen-core/src/main/java/com/nokia/util/avro/schemagen/AvroSchemagenPlugin.java:239-241 | each child of the emitted node loses it as a parent; nothing else changes |
| DependencyGraph.Pass | SchemaCompiler/schemagen-core/src/main/java/com/nokia/util/avro/schemagen/AvroSchemagenPlugin.java:233-245 | one pass emits, in any visiting order, nodes whose parents were all emitted before them, emits every node all of whose parents were emitted before the pass, emits at least one node, and leaves each remaining node with exactly its parents not yet emitted |
| DependencyGraph.EmitNode | SchemaCompiler/schemagen-core/src/main/java/com/nokia/util/avro/schemagen/AvroSchemagenPlugin.java:236-243 | emitting a node with no parent left appends its type (None for a stub) and leaves each remaining node with exactly its parents not yet emitted |
| DependencyGraph.OrderNodes | SchemaCompiler/schemagen-core/src/main/java/com/nokia/util/avro/schemagen/AvroSchemagenPlugin.java:229-250 | on an acyclic table the loop ends and emits every node exactly once (stubs as None), each after all of its parents; the sequence is as long as the table |
| DependencyGraph.TopologicalSort | SchemaCompiler/schemagen-core/src/main/java/com/nokia/util/avro/schemagen/AvroSchemagenPlugin.java:196-251 | without dependency cycles: one entry per type key and dependency name, each the type declared under it or None, every name after the names it depends on |
| DependencyGraph.SortedTable | SchemaCompiler/schemagen-core/src/main/java/com/nokia/util/avro/schemagen/AvroSchemagenPlugin.java:228-250 | an emission order of the whole table covers exactly the type keys and dependency names, gives each the type declared under it, and puts every name after its dependencies |
| DependencyGraph.DependenciesFirst | SchemaCompiler/schemagen-core/src/main/java/com/nokia/util/avro/schemagen/AvroSchemagenPlugin.java:189-192 | in a parents-first order of the table every name comes after its dependencies |
| DependencyGraph.CycleNeverEmitted | SchemaCompiler/schemagen-core/src/main/java/com/nokia/util/avro/schemagen/AvroSchemagenPlugin.java:232-248 | no key on a cycle of parent edges is ever emitted, so the loop cannot end on such a table |
| Synthetics.PrependEach | SchemaCompiler/schemagen-core/src/main/java/com/nokia/util/avro/schemagen/AvroSchemagenPlugin.java:144-146 | inserting each namespace's schema at index 0 gives the schemas in reverse iteration order followed by the old list |
| Synthetics.InjectSpecialTypes | SchemaCompiler/schemagen-core/src/main/java/com/nokia/util/avro/schemagen/AvroSchemagenPlugin.java:143-150 | the list becomes reversed reference wrappers, then reversed date wrappers, then the sorted list unchanged; its length grows by both set sizes |
| Numbering.Decimal | SchemaCompiler/schemagen-core/src/main/java/com/nokia/util/avro/schemagen/AvroSchemagenPlugin.java:260 | the decimal form of a count is a digit string denoting it, with no leading zero |
| Numbering.ZeroPattern | SchemaCompiler/schemagen-core/src/main/java/com/nokia/util/avro/schemagen/AvroSchemagenPlugin.java:259-262 | the format pattern is one '0' per decimal digit of the list size |
| Numbering.FormatId | SchemaCompiler/schemagen-core/src/main/java/com/nokia/util/avro/schemagen/AvroSchemagenPlugin.java:264-268 | a formatted id is a digit string denoting the counter, with at least the pattern's width |
| Numbering.ZerosPrefix | SchemaCompiler/schemagen-core/src/main/java/com/nokia/util/avro/schemagen/AvroSchemagenPlugin.java:264 | zero padding does not change the number an id denotes |
| Numbering.IdWidth | SchemaCompiler/schemagen-core/src/main/java/com/nokia/util/avro/schemagen/AvroSchemagenPlugin.java:259-268 | every counter from 1 to the list size gets an id of exactly the pattern's width |
| Numbering.ValueInjective | SchemaCompiler/schemagen-core/src/main/java/com/nokia/util/avro/schemagen/AvroSchemagenPlugin.java:264-268 | two ids of one width that denote the same number are the same string |
| Numbering.ValueOrderIsLexOrder | SchemaCompiler/schemagen-core/src/main/java/com/nokia/util/avro/schemagen/AvroSchemagenPlugin.java:254-255 | for digit strings of one width, numeric order is character order |
| Numbering.IdsOrdered | SchemaCompiler/schemagen-core/src/main/java/com/nokia/util/avro/schemagen/AvroSchemagenPlugin.java:253-268 | ids of smaller counters sort first by character order, and no two ids are equal |
| Numbering.IdExample | SchemaCompiler/schemagen-core/src/main/java/com/nokia/util/avro/schemagen/AvroSchemagenPlugin.java:259-268 | a list of 137 entries gives its fifth entry the id "005" |
| Numbering.LexLessAt | SchemaCompiler/schemagen-core/src/main/java/com/nokia/util/avro/schemagen/AvroSchemagenPlugin.java:254-255 | two names that agree up to a position where the first has the smaller character sort in that order |
| Numbering.LexLessExtend | SchemaCompiler/schemagen-core/src/main/java/com/nokia/util/avro/schemagen/AvroSchemagenPlugin.java:271 | what follows two names does not change which one sorts first |
| Numbering.OrderedNames | SchemaCompiler/schemagen-core/src/main/java/com/nokia/util/avro/schemagen/AvroSchemagenPlugin.java:268-271 | the ordered file name of an earlier entry sorts before that of a later one, whatever the type names |
| JsonText.ReplaceAbsent | SchemaCompiler/schemagen-core/src/main/java/com/nokia/util/avro/schemagen/AvroSchemagenPlugin.java:296-297 | replacing a target that does not occur returns the text unchanged |
| JsonText.ReplaceAll | SchemaCompiler/schemagen-core/src/main/java/com/nokia/util/avro/schemagen/AvroSchemagenPlugin.java:296-297 | Java's literal replace-all, left to right: a replacement as long as its target keeps the text's length, and a shorter one never lengthens it |
| JsonText.ReplacePresent | SchemaCompiler/schemagen-core/src/main/java/com/nokia/util/avro/schemagen/AvroSchemagenPlugin.java:296-297 | a shorter replacement strictly shortens any text in which its target occurs |
| JsonText.ReplaceChar | SchemaCompiler/schemagen-core/src/main/java/com/nokia/util/avro/schemagen/AvroSchemagenPlugin.java:277 | replacing one character by another changes the text character by character |
| JsonText.ReplaceValues | SchemaCompiler/schemagen-core/src/main/java/com/nokia/util/avro/schemagen/AvroSchemagenPlugin.java:295-298 | the two clean-ups, the quoted empty list first and then the quoted null default; the text never grows |
| JsonText.ReplaceValuesUnchanged | SchemaCompiler/schemagen-core/src/main/java/com/nokia/util/avro/schemagen/AvroSchemagenPlugin.java:295-298 | the clean-up leaves a text unchanged if and only if neither the quoted empty list nor the quoted null default occurs in it |
| JsonText.ReplaceValuesNotIdempotent | SchemaCompiler/schemagen-core/src/main/java/com/nokia/util/avro/schemagen/AvroSchemagenPlugin.java:295-298 | the clean-up is not idempotent: a doubly quoted empty list loses one pair of quotes on each application |
| JsonText.NamespacePath | SchemaCompiler/schemagen-core/src/main/java/com/nokia/util/avro/schemagen/AvroSchemagenPlugin.java:277 | the namespace directory has the same length as the namespace, has '/' wherever the namespace has '.', and contains no '.' |
| JsonText.GetJson | SchemaCompiler/schemagen-core/src/main/java/com/nokia/util/avro/schemagen/AvroSchemagenPlugin.java:287-293 | the JSON text is the cleaned-up serializer output; a serializer failure becomes a schema generation error with its cause |
| Emitter.EntryError | SchemaCompiler/schemagen-core/src/main/java/com/nokia/util/avro/schemagen/AvroSchemagenPlugin.java:269-271 | writing an entry goes wrong exactly when the serializer fails on it or it is a stub |
| Emitter.OrderedFile | SchemaCompiler/schemagen-core/src/main/java/com/nokia/util/avro/schemagen/AvroSchemagenPlugin.java:271-273 | the ordered file lives in the ordered directory, holds the JSON text, and its name is as long as the id, a '_', the short name and '.avsc' |
| Emitter.NamespaceFile | SchemaCompiler/schemagen-core/src/main/java/com/nokia/util/avro/schemagen/AvroSchemagenPlugin.java:275-277 | the namespace file lives in one sub-directory of the plain directory, whose path is the namespace with every '.' made '/' (JsonText.NamespacePath), holds the JSON text, and is named by the short name and '.avsc' |
| Emitter.FileNames | SchemaCompiler/schemagen-core/src/main/java/com/nokia/util/avro/schemagen/AvroSchemagenPlugin.java:271-275 | the ordered file name is the id, a '_', the short name and '.avsc', so ordered names sort by id; the namespace file name is the short name and '.avsc' |
| Emitter.OutputSchema | SchemaCompiler/schemagen-core/src/main/java/com/nokia/util/avro/schemagen/AvroSchemagenPlugin.java:257-279 | fails with the error of the first bad entry; otherwise entry i gives its ordered file, with the 1-based id padded to the width of the list size, and its namespace file, both holding its JSON text; ordered names sort in list order |
| Emitter.ConcatAppend | SchemaCompiler/schemagen-core/src/main/java/com/nokia/util/avro/schemagen/AvroSchemagenPlugin.java:157-163 | appending pieces in order: the join of two lists is the join of the first followed by the join of the second |
| Emitter.BuildManifest | SchemaCompiler/schemagen-core/src/main/java/com/nokia/util/avro/schemagen/AvroSchemagenPlugin.java:156-163 | joins every entry's JSON text in list order with no separator; succeeds exactly when every serializer call does, and otherwise fails with the first failure |
| Emitter.SortedTypes | SchemaCompiler/schemagen-core/src/main/java/com/nokia/util/avro/schemagen/AvroSchemagenPlugin.java:137-141 | after the collision filter and the sort, the list follows an order of the survivors' node keys, each once, carries the type declared under each key (None for a stub), puts every name after the names it depends on, and holds a stub entry exactly when a dependency is undeclared |
| Emitter.WriteSchemas | SchemaCompiler/schemagen-core/src/main/java/com/nokia/util/avro/schemagen/AvroSchemagenPlugin.java:153-164 | succeeds exactly when no entry goes wrong; then two files per entry and a last file, the manifest, joining the ordered files' texts in order |
| Emitter.StubIffDangling | SchemaCompiler/schemagen-core/src/main/java/com/nokia/util/avro/schemagen/AvroSchemagenPlugin.java:216-219 | a sorted list holds a stub entry if and only if some surviving type depends on a name no surviving type declares |
| Emitter.WrappersWrittenFirst | SchemaCompiler/schemagen-core/src/main/java/com/nokia/util/avro/schemagen/AvroSchemagenPlugin.java:144-150 | carries the numbering of the wrappers' ordered files over to the written list: the first ordered files, reference wrappers then date wrappers, carry ids as wide as half the written list |
| Emitter.GenerateAvroSchemas | SchemaCompiler/schemagen-core/src/main/java/com/nokia/util/avro/schemagen/AvroSchemagenPlugin.java:131-165 | a dependency on an undeclared name makes the run fail; on success, two files per wrapper and per table key plus the manifest, the wrappers' ordered files first with ids as wide as the whole list, and the manifest joining the ordered files' texts in order |

## Left out

- The XJC plugin glue is not part of this model: `run`, the type mapping it drives, `getOptionName`, `getUsage` and the static mapper setup. It works on XJC's outline classes.
- The Jackson serializer is a parameter. Its failure becomes `SchemagenException` with the failure as cause. Its output for a stub (null) is whatever the parameter returns.
- `DateAvroType.getSchema` and `ReferenceAvroType.getSchema` are parameters, from a namespace to a named type.
- Output files are records of the chain of sub-package names, the file name and the contents. How the code model turns packages into directories and writes files is not modelled.
- When the run fails part-way, the files added before the failure are not part of the model's result. The model returns only the error, because the exception ends the run.
- The `System.out` diagnostics are left out. They print the output packages and duplicate names and have no effect on the output.
- `getSchemaDirectory` is left out. It only builds a `File` path from an absolute directory.
- `DecimalFormat` is modelled with ASCII digits and no grouping. Locale effects are left out.
- The `AtomicInteger` counter is a plain counter. Nothing runs concurrently.
- Java `int` overflow of the counter and the list size is not modelled. Sizes are unbounded.
- CheckForCollisions: the code removes types from the caller's set in place through the iterator. The model returns the surviving sequence instead.
- OrderNodes: the `Node` objects are values in a map keyed by node key. This loses nothing, since there is one node per key and node identity is the key.
- OrderNodes: requires an acyclic table. On a cycle the source loops forever, and non-terminating runs are not modelled.
- JsonText.ReplaceAll: covers only a non-empty target. Every call in the code uses a non-empty literal, so Java's behaviour for an empty target is not modelled.
- GenerateAvroSchemas: does not restate where each sorted type lands in the written list. `SortedTypes`, `InjectSpecialTypes` and `OutputSchema` state that step by step.
- GenerateAvroSchemas: gives the dangling-dependency failure only one way. A run without dangling dependencies can still fail if the serializer fails.
