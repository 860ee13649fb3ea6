/** Loading a configuration tree: the provider's values, overlaid with stored ones of the right type. */
module Engine {
  import opened Wrappers
  import ConfigTree

  /** A value of some type, with the metadata the provider gave it. */
  datatype Value = Value(kind: string, val: string, metadata: string)

  type Tree = map<string, Value>

  datatype Answer = Absent | Failed | Present(value: Value)

  /** What the store answers: there is none, it fails, or it has these values. */
  datatype StoreAnswer = NoStore | StoreFails | Stored(values: Tree)

  datatype LoadError = ListFailed | GetFailed(path: string) | InvalidPath(path: string) | StoreUnreadable

  /** The provider's answers for the paths it lists. */
  function Provided(paths: seq<string>, get: string -> Answer): Tree {
    map p | p in paths && get(p).Present? :: get(p).value
  }

  /** A lossless conversion of a value to another type, where there is one. */
  type Conversion = (Value, string) -> Option<string>

  /** A provider's value, overlaid with the stored one if that has the type or can be converted to it. */
  function Overlaid(current: Value, stored: Value, convert: Conversion): Value {
    if stored.kind == current.kind then current.(val := stored.val)
    else
      match convert(stored, current.kind)
      case Some(val) => current.(val := val)
      case None => current
  }

  function Merged(provided: Tree, stored: Tree, convert: Conversion): Tree {
    map p | p in provided :: if p in stored then Overlaid(provided[p], stored[p], convert) else provided[p]
  }

  /**
   The store's word for a value counts when it has the provider's type, or can be converted to it; else, and where the
   store has none, the provider's value stays. Type and metadata are always the provider's.
   */
  ghost predicate IsOverlaid(current: Value, stored: Option<Value>, convert: Conversion, v: Value) {
    && v.kind == current.kind && v.metadata == current.metadata
    && (stored.None? ==> v.val == current.val)
    && (stored.Some? && stored.value.kind == current.kind ==> v.val == stored.value.val)
    && (stored.Some? && stored.value.kind != current.kind && convert(stored.value, current.kind).Some? ==>
          v.val == convert(stored.value, current.kind).value)
    && (stored.Some? && stored.value.kind != current.kind && convert(stored.value, current.kind).None? ==> v.val == current.val)
  }

  function At(tree: Tree, p: string): Option<Value> {
    if p in tree then Some(tree[p]) else None
  }

  /** The stored values, each brought to the type its metadata asks for where that works. */
  function Retyped(values: Tree, retype: Value -> Value): Tree {
    map p | p in values :: retype(values[p])
  }

  /** A store without values counts as no stored tree; a stored path that is not valid is an error. */
  method LoadStoredTree(values: Tree, retype: Value -> Value) returns (r: Result<Tree, LoadError>)
    ensures r.Success? <==> ConfigTree.ValidTree(values)
    ensures r.Success? ==> r.value == Retyped(values, retype)
    ensures r.Success? ==> r.value.Keys == values.Keys && forall p :: p in values ==> r.value[p] == retype(values[p])
  {
    var tree: Tree := map[];
    var todo := values.Keys;
    while todo != {}
      invariant todo <= values.Keys
      invariant forall p :: p in tree <==> p in values && p !in todo
      invariant forall p :: p in tree ==> ConfigTree.ValidPath(p) && tree[p] == retype(values[p])
    {
      var path :| path in todo;
      todo := todo - {path};
      if !ConfigTree.ValidPath(path) {
        return Failure(InvalidPath(path));
      }
      tree := tree[path := retype(values[path])];
    }
    r := Success(tree);
  }

  /** The store's part of loading: its values, none if there is no store, or an error that aborts the load. */
  method StoredValues(store: StoreAnswer, retype: Value -> Value) returns (r: Result<Tree, LoadError>)
    ensures r.Success? <==> store.NoStore? || (store.Stored? && ConfigTree.ValidTree(store.values))
    ensures r.Success? ==> r.value == if store.Stored? then Retyped(store.values, retype) else map[]
  {
    if store.NoStore? {
      return Success(map[]);
    }
    if store.StoreFails? {
      return Failure(StoreUnreadable);
    }
    r := LoadStoredTree(store.values, retype);
  }

  ghost predicate ProviderAnswers(paths: seq<string>, get: string -> Answer) {
    forall p :: p in paths ==> !get(p).Failed? && (get(p).Present? ==> ConfigTree.ValidPath(p))
  }

  ghost predicate StoreAnswers(store: StoreAnswer) {
    store.NoStore? || (store.Stored? && ConfigTree.ValidTree(store.values))
  }

  function StoredPart(store: StoreAnswer, retype: Value -> Value): Tree {
    if store.Stored? then Retyped(store.values, retype) else map[]
  }

  /** Loads exactly if provider and store both answer; a failing store is never taken for an empty one. */
  method LoadTree(paths: Option<seq<string>>, get: string -> Answer, store: StoreAnswer, retype: Value -> Value,
                  convert: Conversion)
    returns (r: Result<Tree, LoadError>)
    ensures r.Success? <==> paths.Some? && ProviderAnswers(paths.value, get) && StoreAnswers(store)
    ensures r.Success? ==> r.value == Merged(Provided(paths.value, get), StoredPart(store, retype), convert)
    ensures r.Success? ==> forall p :: p in r.value <==> p in paths.value && get(p).Present?
    ensures r.Success? ==>
              forall p :: p in r.value ==>
                var stored := if store.Stored? && p in store.values then Some(retype(store.values[p])) else None;
                IsOverlaid(get(p).value, stored, convert, r.value[p])
  {
    if paths.None? {
      return Failure(ListFailed);
    }
    var listed := paths.value;
    var tree: Tree := map[];
    for i := 0 to |listed|
      invariant ProviderAnswers(listed[..i], get) && tree == Provided(listed[..i], get)
    {
      assert listed[..i + 1] == listed[..i] + [listed[i]];
      match get(listed[i])
      case Failed => return Failure(GetFailed(listed[i]));
      case Absent => continue;
      case Present(v) =>
        if !ConfigTree.ValidPath(listed[i]) {
          return Failure(InvalidPath(listed[i]));
        }
        tree := tree[listed[i] := v];
    }
    assert listed[..|listed|] == listed;
    var stored :- StoredValues(store, retype);
    tree := Overlay(tree, stored, convert);
    r := Success(tree);
  }

  /** Puts the stored values over the provider's, path by path in any order. */
  method Overlay(provided: Tree, stored: Tree, convert: Conversion) returns (tree: Tree)
    ensures tree == Merged(provided, stored, convert)
    ensures tree.Keys == provided.Keys && forall p :: p in tree ==> IsOverlaid(provided[p], At(stored, p), convert, tree[p])
  {
    tree := provided;
    var todo := tree.Keys;
    while todo != {}
      invariant todo <= tree.Keys == provided.Keys
      invariant forall p :: p in todo ==> tree[p] == provided[p]
      invariant forall p :: p in tree && p !in todo ==>
        tree[p] == if p in stored then Overlaid(provided[p], stored[p], convert) else provided[p]
    {
      var path :| path in todo;
      todo := todo - {path};
      if path !in stored {
        continue;
      }
      var storedVal := stored[path];
      if storedVal.kind != tree[path].kind {
        var converted := convert(storedVal, tree[path].kind);
        if converted.None? {
          continue;
        }
        storedVal := storedVal.(val := converted.value);
      }
      tree := tree[path := tree[path].(val := storedVal.val)];
    }
  }

  /** A plugin's save transform rewrites the tree in place and may fail, whatever it has rewritten by then. */
  type Transform = Tree -> (Tree, bool)

  /** The tree after the transforms up to the first that fails, and whether none did. */
  function Transformed(transforms: seq<Transform>, tree: Tree): (Tree, bool) {
    if transforms == [] then (tree, true)
    else
      var before := Transformed(transforms[..|transforms| - 1], tree);
      if before.1 then transforms[|transforms| - 1](before.0) else before
  }

  method TransformForSave(transforms: seq<Transform>, tree: Tree) returns (after: Tree, ok: bool)
    ensures (after, ok) == Transformed(transforms, tree)
    ensures exists trees :: IsRun(transforms, tree, trees, ok) && after == trees[|trees| - 1]
  {
    hide Ran, Worked;
    after, ok := tree, true;
    ghost var trees := [tree];
    for i := 0 to |transforms|
      invariant ok && (after, ok) == Transformed(transforms[..i], tree)
      invariant |trees| == i + 1 && trees[0] == tree && after == trees[i]
      invariant forall k :: 0 <= k < i ==> Ran(transforms, trees, k) && Worked(transforms, trees, k)
    {
      var step := transforms[i](after);
      TransformedNext(transforms, tree, i);
      RunGoesOn(transforms, trees, step.0);
      after, ok := step.0, step.1;
      trees := trees + [after];
      if !ok {
        StaysFailed(transforms, tree, i + 1);
        assert IsRun(transforms, tree, trees, ok);
        return;
      }
    }
    assert transforms[..|transforms|] == transforms;
    assert IsRun(transforms, tree, trees, ok);
  }

  /** Each transform gets what the one before it left; only the last that ran may have failed, and then no other ran. */
  ghost predicate IsRun(transforms: seq<Transform>, tree: Tree, trees: seq<Tree>, ok: bool) {
    && 0 < |trees| <= |transforms| + 1 && trees[0] == tree
    && (if ok then |trees| == |transforms| + 1 else |trees| > 1)
    && (forall k :: 0 <= k < |trees| - 1 ==> Ran(transforms, trees, k))
    && (forall k :: 0 <= k < |trees| - 2 ==> Worked(transforms, trees, k))
    && (|trees| > 1 ==> (Worked(transforms, trees, |trees| - 2) <==> ok))
  }

  ghost predicate Ran(transforms: seq<Transform>, trees: seq<Tree>, k: int)
    requires 0 <= k < |trees| - 1 <= |transforms|
  {
    transforms[k](trees[k]).0 == trees[k + 1]
  }

  ghost predicate Worked(transforms: seq<Transform>, trees: seq<Tree>, k: int)
    requires 0 <= k < |trees| - 1 <= |transforms|
  {
    transforms[k](trees[k]).1
  }

  lemma RunGoesOn(transforms: seq<Transform>, before: seq<Tree>, after: Tree)
    requires 0 < |before| <= |transforms|
    requires forall k :: 0 <= k < |before| - 1 ==> Ran(transforms, before, k) && Worked(transforms, before, k)
    requires transforms[|before| - 1](before[|before| - 1]).0 == after
    ensures forall k :: 0 <= k < |before| ==> Ran(transforms, before + [after], k)
    ensures forall k :: 0 <= k < |before| - 1 ==> Worked(transforms, before + [after], k)
    ensures Worked(transforms, before + [after], |before| - 1) <==> transforms[|before| - 1](before[|before| - 1]).1
  {
    var trees := before + [after];
    forall k | 0 <= k < |before| - 1 ensures Ran(transforms, trees, k) && Worked(transforms, trees, k) {
      assert Ran(transforms, before, k) && Worked(transforms, before, k);
    }
    assert trees[|before| - 1] == before[|before| - 1] && trees[|before|] == after;
  }

  lemma TransformedNext(transforms: seq<Transform>, tree: Tree, i: nat)
    requires i < |transforms| && Transformed(transforms[..i], tree).1
    ensures Transformed(transforms[..i + 1], tree) == transforms[i](Transformed(transforms[..i], tree).0)
  {
    assert transforms[..i + 1][..i] == transforms[..i];
  }

  /** After a transform failed, the later ones are not run. */
  lemma {:induction false} StaysFailed(transforms: seq<Transform>, tree: Tree, i: nat)
    requires i <= |transforms| && !Transformed(transforms[..i], tree).1
    ensures Transformed(transforms, tree) == Transformed(transforms[..i], tree)
  {
    if i < |transforms| {
      assert transforms[..|transforms| - 1][..i] == transforms[..i];
      StaysFailed(transforms[..|transforms| - 1], tree, i);
    } else {
      assert transforms[..i] == transforms;
    }
  }

  /** The store adds no path and changes no type or metadata; it only replaces what a value says. */
  lemma StoreOnlyChangesVals(provided: Tree, stored: Tree, convert: Conversion)
    ensures Merged(provided, stored, convert).Keys == provided.Keys
    ensures forall p :: p in provided ==>
              var v := Merged(provided, stored, convert)[p];
              v.kind == provided[p].kind && v.metadata == provided[p].metadata
              && (v.val == provided[p].val || (p in stored && (v.val == stored[p].val || convert(stored[p], v.kind) == Some(v.val))))
  {
  }
}
