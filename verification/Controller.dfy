/** The user interface's cached tree, and what becomes of edits that are not saved yet. */
module Controller {
  import opened Wrappers
  import ConfigTree
  import opened Engine

  datatype Answer = Done | Refused

  /** Edited paths that were not saved yet are dirty. */
  datatype State = State(tree: Option<Tree>, dirty: set<string>)

  const FRESH := State(None, {})

  function PutBack(loaded: Tree, cached: Tree, paths: set<string>): Tree {
    loaded + map p | p in cached && p in paths :: cached[p]
  }

  /** The newly loaded tree with the dirty values of the cached one put back. */
  function Restored(loaded: Tree, s: State): Tree {
    if s.tree.None? then loaded else PutBack(loaded, s.tree.value, s.dirty)
  }

  /** A load: the tree the engine loaded and transformed for display, or a failure, which changes nothing. */
  function Reload(s: State, loaded: Option<Tree>): State {
    if loaded.None? then s else s.(tree := Some(Restored(loaded.value, s)))
  }

  function Edit(s: State, path: string, value: Value): State {
    State(if s.tree.Some? then Some(s.tree.value[path := value]) else None, s.dirty + {path})
  }

  /** A save: the tree as transformed for saving stays cached even when a transform fails or the store refuses it. */
  function Save(s: State, transformed: Tree, stored: bool): State
    requires s.tree.Some?
  {
    State(Some(transformed), if stored then {} else s.dirty)
  }

  /** A path that is cached and not saved yet keeps its value; any other is there exactly if it was loaded, as loaded. */
  ghost predicate IsReloaded(cached: Option<Tree>, dirty: set<string>, loaded: Tree, tree: Tree) {
    forall p ::
      if cached.Some? && p in cached.value && p in dirty then p in tree && tree[p] == cached.value[p]
      else (p in tree <==> p in loaded) && (p in tree ==> tree[p] == loaded[p])
  }

  lemma ReloadedIs(s: State, loaded: Tree)
    ensures IsReloaded(s.tree, s.dirty, loaded, Reload(s, Some(loaded)).tree.value)
  {
  }

  lemma PutBackNothing(loaded: Tree)
    ensures forall cached, paths :: PutBack(loaded, cached, paths - paths) == loaded
    ensures forall cached :: PutBack(loaded, cached, {}) == loaded
  {
  }

  lemma PutBackNext(loaded: Tree, cached: Tree, dirty: set<string>, todo: set<string>, path: string)
    requires path in todo && todo <= dirty
    ensures PutBack(loaded, cached, dirty - (todo - {path})) ==
            if path in cached then PutBack(loaded, cached, dirty - todo)[path := cached[path]]
            else PutBack(loaded, cached, dirty - todo)
  {
  }

  class UIController {
    var tree: Option<Tree>
    var dirtyPaths: set<string>

    function Now(): State
      reads this
    {
      State(tree, dirtyPaths)
    }

    constructor ()
      ensures Now() == FRESH
    {
      tree, dirtyPaths := None, {};
    }

    method LoadTree(loaded: Option<Tree>) returns (r: Option<Tree>)
      modifies this
      ensures Now() == Reload(old(Now()), loaded)
      ensures r == if loaded.Some? then tree else None
      ensures loaded.None? ==> tree == old(tree)
      ensures dirtyPaths == old(dirtyPaths)
      ensures loaded.Some? ==> tree.Some? && IsReloaded(old(tree), old(dirtyPaths), loaded.value, tree.value)
    {
      if loaded.None? {
        return None;
      }
      hide PutBack;
      var restored := loaded.value;
      PutBackNothing(loaded.value);
      if tree.Some? && dirtyPaths != {} {
        var todo := dirtyPaths;
        while todo != {}
          invariant todo <= dirtyPaths
          invariant Now() == old(Now())
          invariant restored == PutBack(loaded.value, tree.value, dirtyPaths - todo)
        {
          var path :| path in todo;
          PutBackNext(loaded.value, tree.value, dirtyPaths, todo, path);
          todo := todo - {path};
          if path in tree.value {
            restored := restored[path := tree.value[path]];
          }
        }
        assert dirtyPaths - todo == dirtyPaths;
      }
      ReloadedIs(Now(), loaded.value);
      tree := Some(restored);
      r := tree;
    }

    /** The provider may refuse a value; then nothing changes. */
    method SetValue(path: string, value: Value, provider: Answer) returns (ok: bool)
      modifies this
      ensures ok <==> ConfigTree.ValidPath(path) && provider.Done?
      ensures Now() == if ok then Edit(old(Now()), path, value) else old(Now())
      ensures ok ==> dirtyPaths == old(dirtyPaths) + {path}
      ensures ok ==> tree == if old(tree).None? then None else Some(old(tree).value[path := value])
      ensures !ok ==> tree == old(tree) && dirtyPaths == old(dirtyPaths)
    {
      if !ConfigTree.ValidPath(path) || provider.Refused? {
        return false;
      }
      if tree.Some? {
        tree := Some(tree.value[path := value]);
      }
      dirtyPaths := dirtyPaths + {path};
      ok := true;
    }

    /** The transforms rewrite the cached tree in place before the store is asked, and also when one of them fails. */
    method SaveTree(transforms: seq<Transform>, store: Answer) returns (ok: bool)
      modifies this
      ensures ok <==> old(tree).Some? && Transformed(transforms, old(tree).value).1 && store.Done?
      ensures Now() == if old(tree).None? then old(Now()) else Save(old(Now()), Transformed(transforms, old(tree).value).0, ok)
      ensures old(tree).Some? ==> tree == Some(Transformed(transforms, old(tree).value).0)
      ensures dirtyPaths == if ok then {} else old(dirtyPaths)
    {
      if tree.None? {
        return false;
      }
      var transformed, done := TransformForSave(transforms, tree.value);
      tree := Some(transformed);
      if !done {
        return false;
      }
      if store.Refused? {
        return false;
      }
      dirtyPaths := {};
      ok := true;
    }
  }

  // --- runs

  datatype Event = Loaded(tree: Tree) | Edited(path: string, value: Value) | Saved(transformed: Tree, stored: bool)

  /** A save is of a loaded tree, and its transforms leave edited paths alone. */
  ghost predicate Allowed(s: State, e: Event) {
    e.Saved? ==> s.tree.Some? &&
                 forall p :: p in s.dirty && p in s.tree.value ==> p in e.transformed && e.transformed[p] == s.tree.value[p]
  }

  ghost function Next(s: State, e: Event): State
    requires Allowed(s, e)
  {
    match e
    case Loaded(tree) => Reload(s, Some(tree))
    case Edited(path, value) => Edit(s, path, value)
    case Saved(transformed, stored) => Save(s, transformed, stored)
  }

  ghost predicate IsRun(states: seq<State>, events: seq<Event>) {
    && |states| == |events| + 1
    && forall i :: 0 <= i < |events| ==> Allowed(states[i], events[i]) && states[i + 1] == Next(states[i], events[i])
  }

  /** The last value given to each path since the last save that the store took. */
  ghost function Unsaved(events: seq<Event>): Tree {
    if events == [] then map[]
    else
      var before := Unsaved(events[..|events| - 1]);
      match events[|events| - 1]
      case Loaded(_) => before
      case Edited(path, value) => before[path := value]
      case Saved(_, stored) => if stored then map[] else before
  }

  /** The cached tree holds every unsaved value, and exactly their paths are dirty. */
  ghost predicate Keeps(s: State, unsaved: Tree) {
    s.tree.Some? && s.dirty == unsaved.Keys && forall p :: p in unsaved ==> p in s.tree.value && s.tree.value[p] == unsaved[p]
  }

  /** Once a tree is loaded, edits survive every reload and every failed save until a save succeeds. */
  lemma {:induction false} EditsSurvive(states: seq<State>, events: seq<Event>, n: nat)
    requires IsRun(states, events) && states[0].tree.Some? && states[0].dirty == {} && n < |states|
    ensures Keeps(states[n], Unsaved(events[..n]))
  {
    if n > 0 {
      EditsSurvive(states, events, n - 1);
      assert events[..n][..n - 1] == events[..n - 1] && events[..n][n - 1] == events[n - 1];
      assert Allowed(states[n - 1], events[n - 1]);
    }
  }

  /** The tree that was loaded or saved last, as it was loaded or as the transforms left it. */
  ghost function Latest(start: Tree, events: seq<Event>): Tree {
    if events == [] then start
    else
      match events[|events| - 1]
      case Loaded(tree) => tree
      case Edited(_, _) => Latest(start, events[..|events| - 1])
      case Saved(transformed, _) => transformed
  }

  /** Over every run from a loaded tree, the cache shows what was loaded or saved last, with the unsaved values over it. */
  lemma {:induction false} CacheIsLatest(states: seq<State>, events: seq<Event>, n: nat)
    requires IsRun(states, events) && states[0].tree.Some? && states[0].dirty == {} && n < |states|
    ensures states[n].tree == Some(Latest(states[0].tree.value, events[..n]) + Unsaved(events[..n]))
  {
    if n > 0 {
      CacheIsLatest(states, events, n - 1);
      EditsSurvive(states, events, n - 1);
      assert events[..n][..n - 1] == events[..n - 1] && events[..n][n - 1] == events[n - 1];
      assert Allowed(states[n - 1], events[n - 1]);
      ShowsLatest(states[n - 1], events[n - 1], states[0].tree.value, events[..n - 1], events[..n]);
    } else {
      assert states[0].tree.value + map[] == states[0].tree.value;
    }
  }

  lemma ShowsLatest(s: State, e: Event, start: Tree, before: seq<Event>, after: seq<Event>)
    requires Allowed(s, e) && Keeps(s, Unsaved(before)) && s.tree == Some(Latest(start, before) + Unsaved(before))
    requires after != [] && after[..|after| - 1] == before && after[|after| - 1] == e
    ensures Next(s, e).tree == Some(Latest(start, after) + Unsaved(after))
  {
    match e
    case Loaded(tree) =>
      assert Next(s, e).tree.value == tree + Unsaved(before);
    case Edited(path, value) =>
      assert Next(s, e).tree.value == Latest(start, before) + Unsaved(before)[path := value];
    case Saved(transformed, stored) =>
      assert transformed == transformed + Unsaved(after);
  }

  /** An edit made before anything was loaded is forgotten by the first load, dirty or not: exactly loaded caches keep edits. */
  lemma EditSurvivesIffLoaded(s: State, path: string, value: Value, loaded: Tree)
    ensures var after := Reload(Edit(s, path, value), Some(loaded));
            && path in after.dirty
            && ((path in after.tree.value && after.tree.value[path] == value) <==>
                s.tree.Some? || (path in loaded && loaded[path] == value))
  {
  }

  /** A saved edit is there again after a load, if the provider still has the path with the same type. */
  lemma SavedEditReloads(s: State, path: string, value: Value, provided: Tree, convert: Conversion)
    requires s.tree.Some? && path in provided && provided[path].kind == value.kind
    ensures var saved := Edit(s, path, value).tree.value;
            var reloaded := Reload(Save(Edit(s, path, value), saved, true), Some(Merged(provided, saved, convert)));
            reloaded.tree.value[path] == value.(metadata := provided[path].metadata)
  {
  }
}
