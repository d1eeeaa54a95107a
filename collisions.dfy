/** The collision filter: of all generated types sharing a short name, only the first
    one met in the iteration order of the type set survives. Names are compared across
    namespaces. */
module Collisions {
  import opened Schema

  /** The short names of `types`. */
  function Names(types: seq<NamedType>): set<string>
  {
    set t | t in types :: t.name
  }

  /** The types that survive the filter, in iteration order: a type survives when no
      type before it has the same short name. */
  function Survivors(types: seq<NamedType>): seq<NamedType>
  {
    if |types| == 0 then []
    else
      var last := types[|types| - 1];
      Survivors(types[..|types| - 1]) + (if last.name in Names(types[..|types| - 1]) then [] else [last])
  }

  /** No two types of `types` share a short name. */
  predicate UniqueNames(types: seq<NamedType>)
  {
    forall i, j :: 0 <= i < j < |types| ==> types[i].name != types[j].name
  }

  /** `types[i]` is the first of its short name. */
  predicate FirstOfName(types: seq<NamedType>, i: nat)
    requires i < |types|
  {
    forall j :: 0 <= j < i ==> types[j].name != types[i].name
  }

  /** Walks the type set in iteration order with a set of names seen so far and drops
      every type whose name was already seen. */
  method CheckForCollisions(types: seq<NamedType>) returns (kept: seq<NamedType>)
    ensures kept == Survivors(types)
    ensures UniqueNames(kept) && Names(kept) == Names(types)
    ensures forall t :: t in kept ==> t in types
  {
    var names: set<string> := {};
    kept := [];
    var i := 0;
    while i < |types|
      invariant 0 <= i <= |types|
      invariant names == Names(types[..i])
      invariant kept == Survivors(types[..i])
    {
      var t := types[i];
      assert types[..i + 1][..i] == types[..i];
      if t.name in names {
        // duplicate short name: the type is removed from the set
      } else {
        names := names + {t.name};
        kept := kept + [t];
      }
      i := i + 1;
    }
    assert types[..|types|] == types;
    SurvivorsUnique(types);
    SurvivorsNames(types);
    SurvivorsFromInput(types);
  }

  /** Only input types survive. */
  lemma {:induction false} SurvivorsFromInput(types: seq<NamedType>)
    ensures forall t :: t in Survivors(types) ==> t in types
  {
    if |types| > 0 {
      var init := types[..|types| - 1];
      SurvivorsFromInput(init);
      assert forall t :: t in init ==> t in types;
    }
  }

  /** No two survivors share a short name. */
  lemma {:induction false} SurvivorsUnique(types: seq<NamedType>)
    ensures UniqueNames(Survivors(types))
  {
    if |types| > 0 {
      var init := types[..|types| - 1];
      var last := types[|types| - 1];
      SurvivorsUnique(init);
      SurvivorsNames(init);
      if last.name !in Names(init) {
        var s := Survivors(types);
        var s0 := Survivors(init);
        assert s == s0 + [last];
        forall i, j | 0 <= i < j < |s| ensures s[i].name != s[j].name {
          if j == |s| - 1 {
            assert s[i] == s0[i];
            assert s0[i].name in Names(s0);
          }
        }
      }
    }
  }

  /** Every short name of the input keeps a survivor. */
  lemma {:induction false} SurvivorsNames(types: seq<NamedType>)
    ensures Names(Survivors(types)) == Names(types)
  {
    if |types| > 0 {
      var init := types[..|types| - 1];
      var last := types[|types| - 1];
      var extra := if last.name in Names(init) then [] else [last];
      SurvivorsNames(init);
      assert Survivors(types) == Survivors(init) + extra;
      NamesAppend(Survivors(init), extra);
      assert Names(types) == Names(init) + {last.name};
      if extra == [] {
        assert Names(extra) == {};
      } else {
        assert Names(extra) == Names([]) + {last.name};
      }
    }
  }

  lemma NamesAppend(a: seq<NamedType>, b: seq<NamedType>)
    ensures Names(a + b) == Names(a) + Names(b)
  {
  }

  /** A type survives exactly when it is the first of its short name in the iteration
      order (the input, being a set, holds each type once). */
  lemma {:induction false} SurvivorIffFirst(types: seq<NamedType>, i: nat)
    requires i < |types|
    requires forall a, b :: 0 <= a < b < |types| ==> types[a] != types[b]
    ensures types[i] in Survivors(types) <==> FirstOfName(types, i)
  {
    var init := types[..|types| - 1];
    var last := types[|types| - 1];
    var extra := if last.name in Names(init) then [] else [last];
    assert Survivors(types) == Survivors(init) + extra;
    if i < |types| - 1 {
      assert init[i] == types[i];
      assert forall a, b :: 0 <= a < b < |init| ==> init[a] != init[b];
      SurvivorIffFirst(init, i);
      assert types[i] != last;
      assert types[i] in Survivors(types) <==> types[i] in Survivors(init);
      assert FirstOfName(types, i) <==> FirstOfName(init, i) by {
        assert forall j :: 0 <= j < i ==> init[j] == types[j];
      }
    } else {
      SurvivorsFromInput(init);
      assert last !in init by {
        forall a | 0 <= a < |init| ensures init[a] != last {
          assert init[a] == types[a];
        }
      }
      assert last in Survivors(types) <==> last.name !in Names(init);
      if last.name in Names(init) {
        var t :| t in init && t.name == last.name;
        var j :| 0 <= j < |init| && init[j] == t;
        assert types[j].name == types[i].name;
      } else {
        forall j | 0 <= j < i ensures types[j].name != types[i].name {
          assert init[j] in init;
        }
      }
    }
  }
}
