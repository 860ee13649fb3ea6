/**
 The component manager: construction with validation, enabling, disabling, cascades, and saved state.
 Every operation is specified on the set of enabled components.
 */
module Components {
  import opened Wrappers
  import opened ComponentGraph
  import opened ComponentSteps
  import opened ComponentPaths
  import CycleDetection
  import Strings

  datatype ComponentError =
    | DuplicateName(name: string)
    | UnknownDependency(name: string, dependency: string)
    | CircularDependency
    | OverlappingPaths(first: Ownership, second: Ownership)
    | UnknownComponent(name: string)
    | IsMandatory(name: string)
    | RequiredBy(name: string, dependent: string)
    | RequiredByMandatory(name: string, dependent: string)

  type State = map<string, bool>

  function On(state: State): set<string> {
    set n | n in state && state[n]
  }

  /** What loading a saved map makes of a state: unknown names are ignored and mandatory components forced on. */
  ghost function Loaded(g: Graph, state: State, saved: State): State
    requires state.Keys == g.Keys
  {
    map n | n in state :: if n in saved then g[n].mandatory || saved[n] else state[n]
  }

  ghost predicate HasEnabledDependent(g: Graph, state: State, name: string) {
    exists d :: d in On(state) && Edge(g, d, name)
  }

  ghost predicate HasMandatoryDependent(g: Graph, name: string) {
    exists d :: d in g && g[d].mandatory && Reaches(g, d, name)
  }

  /** What can be asked of a manager after it was built. */
  datatype Op =
    | EnableOp(name: string)
    | DisableOp(name: string)
    | CascadeOp(name: string)
    | LoadOp(saved: State)

  /** The effect of one operation; EnableWithReport has the effect of Enable. */
  ghost predicate Next(g: Graph, s: State, op: Op, s': State) {
    && s.Keys == s'.Keys == g.Keys
    && match op
       case EnableOp(name) =>
         if name in g then EnableOutcome(g, On(s), name, On(s')) else s' == s
       case DisableOp(name) =>
         if name !in g || g[name].mandatory || HasEnabledDependent(g, s, name) then s' == s
         else s' == s[name := false]
       case CascadeOp(name) =>
         if name !in g || g[name].mandatory || HasMandatoryDependent(g, name) then s' == s
         else DisableOutcome(g, On(s), name, On(s'))
       case LoadOp(saved) =>
         s' == Loaded(g, s, saved)
  }

  class ComponentManager {
    const definitions: seq<ComponentDef>
    const defsByName: Graph
    var state: State

    ghost predicate Valid()
      reads this
    {
      && UniqueNames(definitions) && defsByName == ByName(definitions)
      && KnownDeps(defsByName) && Acyclic(defsByName) && OwnersDisjoint(definitions)
      && state.Keys == defsByName.Keys
    }

    constructor (definitions: seq<ComponentDef>, defsByName: Graph)
      ensures this.definitions == definitions && this.defsByName == defsByName && state == map[]
    {
      this.definitions, this.defsByName, state := definitions, defsByName, map[];
    }

    /** Registers every component as disabled, then enables the mandatory ones with their dependencies. */
    method Start()
      requires UniqueNames(definitions) && defsByName == ByName(definitions)
      requires KnownDeps(defsByName) && Acyclic(defsByName) && OwnersDisjoint(definitions)
      requires state == map[]
      modifies this`state
      ensures Valid() && Initial(defsByName, state)
    {
      assert ByName(definitions[..0]) == map[];
      hide OwnersDisjoint, Acyclic, EnableOutcome, UniqueNames, KnownDeps, Closed, MandatoryIn, ByName, Reaches, Edge;
      for i := 0 to |definitions|
        invariant state == map n | n in ByName(definitions[..i]) :: false
      {
        NextName(definitions, i);
        state := state[definitions[i].name := false];
      }
      assert definitions[..|definitions|] == definitions;
      assert On(state) == {};
      EnableMandatory();
    }

    /** Enables every mandatory component with its dependencies. */
    method EnableMandatory()
      requires Valid() && On(state) == {}
      modifies this`state
      ensures Valid() && Initial(defsByName, state)
    {
      assert ByName(definitions[..0]) == map[];
      hide OwnersDisjoint, Acyclic, EnableOutcome, UniqueNames, KnownDeps, Closed, MandatoryIn, ByName, Reaches, Edge;
      NothingIsClosed(defsByName);
      for i := 0 to |definitions|
        invariant Valid() && Closed(defsByName, On(state))
        invariant MandatoryIn(ByName(definitions[..i]), On(state))
        invariant forall t :: Closed(defsByName, t) && MandatoryIn(defsByName, t) ==> On(state) <= t
      {
        NextName(definitions, i);
        ghost var on := On(state);
        if definitions[i].mandatory {
          EnableTransitive(definitions[i].name);
          EnableFromClosed(defsByName, on, definitions[i].name, On(state));
          forall t | Closed(defsByName, t) && MandatoryIn(defsByName, t) ensures definitions[i].name in t {
            MandatoryMember(defsByName, t, definitions[i].name);
          }
        }
        MandatoryNext(definitions, i, on, On(state));
      }
      assert definitions[..|definitions|] == definitions;
    }

    lemma DefinitionKnown(i: nat)
      requires Valid() && i < |definitions|
      ensures definitions[i].name in state
    {
      NextName(definitions, i);
    }

    lemma DependencyKnown(i: nat, j: nat)
      requires Valid() && i < |definitions| && j < |definitions[i].dependencies|
      ensures definitions[i].dependencies[j] in state
    {
      NextName(definitions, i);
      assert Edge(defsByName, definitions[i].name, definitions[i].dependencies[j]);
    }

    lemma AlreadyEnabled(g: Graph, s: set<string>, name: string)
      ensures name in s ==> EnableOutcome(g, s, name, s)
    {
    }

    /** Marks the component, then its dependencies. */
    method EnableTransitive(name: string)
      requires Valid() && name in defsByName
      modifies this`state
      ensures Valid() && EnableOutcome(defsByName, old(On(state)), name, On(state))
      decreases |defsByName.Keys - On(state)|
    {
      hide EnableProgress, EnableOutcome, UniqueNames, Acyclic, OwnersDisjoint, Reaches, ByName;
      AlreadyEnabled(defsByName, On(state), name);
      if state[name] {
        return;
      }
      ghost var s0 := On(state);
      state := state[name := true];
      ghost var base := On(state);
      assert base == s0 + {name};
      assert defsByName.Keys - base == (defsByName.Keys - s0) - {name};
      EnableStart(defsByName, s0, base, name);
      var dependencies := defsByName[name].dependencies;
      for i := 0 to |dependencies|
        invariant Valid() && EnableProgress(defsByName, s0, base, name, i, On(state))
      {
        ghost var on := On(state);
        assert Edge(defsByName, name, dependencies[i]);
        EnableKeepsBase(defsByName, s0, base, name, i, on);
        Shrinks(defsByName.Keys, s0, name, on);
        EnableTransitive(dependencies[i]);
        EnableStep(defsByName, s0, base, name, i, on, On(state));
      }
      EnableDone(defsByName, s0, base, name, On(state));
      EnableKeepsBase(defsByName, s0, base, name, |dependencies|, On(state));
      assert On(state) + {name} == On(state);
    }

    /** Enables the dependencies, then marks the component. Returns the names in the order they were enabled. */
    method EnableReporting(name: string, ghost rank: map<string, nat>) returns (enabled: seq<string>)
      requires Valid() && name in defsByName && Ranked(defsByName, rank)
      modifies this`state
      ensures Valid() && EnableOutcome(defsByName, old(On(state)), name, On(state))
      ensures EnableReport(defsByName, old(On(state)), On(state), enabled)
      decreases rank[name]
    {
      enabled := [];
      if state[name] {
        return;
      }
      ghost var s0 := On(state);
      EnableStart(defsByName, s0, s0, name);
      var dependencies := defsByName[name].dependencies;
      for i := 0 to |dependencies|
        invariant Valid() && EnableProgress(defsByName, s0, s0, name, i, On(state)) && name !in On(state)
        invariant EnableReport(defsByName, s0, On(state), enabled)
      {
        ghost var on := On(state);
        assert Edge(defsByName, name, dependencies[i]);
        var more := EnableReporting(dependencies[i], rank);
        EnableStep(defsByName, s0, s0, name, i, on, On(state));
        DependencySparesName(defsByName, on, name, dependencies[i], On(state));
        EnableReportConcat(defsByName, s0, on, On(state), enabled, more);
        enabled := enabled + more;
      }
      EnableDone(defsByName, s0, s0, name, On(state));
      EnableReportLast(defsByName, s0, On(state), enabled, name);
      ghost var t := On(state);
      state := state[name := true];
      enabled := enabled + [name];
      assert On(state) == t + {name};
    }

    method Enable(name: string) returns (err: Option<ComponentError>)
      requires Valid()
      modifies this`state
      ensures Valid()
      ensures err == if name in defsByName then None else Some(UnknownComponent(name))
      ensures Next(defsByName, old(state), EnableOp(name), state)
    {
      if name !in defsByName {
        return Some(UnknownComponent(name));
      }
      EnableTransitive(name);
      return None;
    }

    /** As Enable, and reports what was enabled. */
    method EnableWithReport(name: string) returns (r: Result<seq<string>, ComponentError>)
      requires Valid()
      modifies this`state
      ensures Valid()
      ensures name !in defsByName ==> r == Failure(UnknownComponent(name))
      ensures name in defsByName ==> r.Success? && EnableReport(defsByName, old(On(state)), On(state), r.value)
      ensures Next(defsByName, old(state), EnableOp(name), state)
    {
      if name !in defsByName {
        return Failure(UnknownComponent(name));
      }
      AcyclicIffRanked(defsByName);
      ghost var rank :| Ranked(defsByName, rank);
      var enabled := EnableReporting(name, rank);
      return Success(enabled);
    }

    /** Refuses mandatory components and components that an enabled one directly depends on. */
    method Disable(name: string) returns (err: Option<ComponentError>)
      requires Valid()
      modifies this`state
      ensures Valid()
      ensures name !in defsByName <==> err == Some(UnknownComponent(name))
      ensures name in defsByName && defsByName[name].mandatory ==> err == Some(IsMandatory(name))
      ensures name in defsByName && !defsByName[name].mandatory ==>
                (err.Some? <==> HasEnabledDependent(defsByName, old(state), name)) && (err.Some? ==> err.value.RequiredBy?)
      ensures err.Some? && err.value.RequiredBy? ==>
                err.value.name == name && err.value.dependent in old(On(state)) && Edge(defsByName, err.value.dependent, name)
      ensures Next(defsByName, old(state), DisableOp(name), state)
    {
      if name !in defsByName {
        return Some(UnknownComponent(name));
      }
      if defsByName[name].mandatory {
        return Some(IsMandatory(name));
      }
      ByNameUnique(definitions);
      for i := 0 to |definitions|
        invariant forall k :: 0 <= k < i ==> definitions[k].name !in On(state) || name !in definitions[k].dependencies
      {
        var d := definitions[i];
        if !state[d.name] {
          continue;
        }
        if name in d.dependencies {
          assert d.name in On(state) && Edge(defsByName, d.name, name);
          return Some(RequiredBy(name, d.name));
        }
      }
      NoneDependsOn(definitions, state, name);
      state := state[name := false];
      return None;
    }

    /** Adds to visited everything that depends on n and was not visited yet. */
    method Walk(n: string, visited: set<string>) returns (v: set<string>)
      requires Valid() && visited <= defsByName.Keys
      ensures v <= defsByName.Keys && WalkOutcome(defsByName, visited, n, v)
      decreases |defsByName.Keys - visited|
    {
      hide WalkOutcome, WalkProgress, WalkCandidate, Reaches, Acyclic, OwnersDisjoint;
      v := visited;
      WalkStart(defsByName, visited, n);
      assert ByName(definitions[..0]).Keys == {};
      for i := 0 to |definitions|
        invariant v <= defsByName.Keys && visited <= v
        invariant WalkProgress(defsByName, visited, n, ByName(definitions[..i]).Keys, v)
      {
        var d := definitions[i];
        NextName(definitions, i);
        if d.name !in v && n in d.dependencies {
          assert Edge(defsByName, d.name, n);
          Shrinks(defsByName.Keys, visited, d.name, v + {d.name});
          var v' := Walk(d.name, v + {d.name});
          WalkStep(defsByName, visited, n, ByName(definitions[..i]).Keys, d.name, v, v');
          v := v';
        } else {
          WalkSkip(defsByName, visited, n, ByName(definitions[..i]).Keys, d.name, v);
        }
      }
      assert definitions[..|definitions|] == definitions;
      WalkDone(defsByName, visited, n, v);
    }

    /** The names of all components that depend on name, directly or transitively, in ascending order. */
    method TransitiveDependents(name: string) returns (names: seq<string>)
      requires Valid()
      ensures Strings.Ascending(names)
      ensures forall x :: x in names <==> Reaches(defsByName, x, name)
    {
      var visited := Walk(name, {});
      WalkFindsDependents(defsByName, name, visited);
      names := Strings.Sorted(visited);
    }

    /** Disables everything enabled that depends on name, then name. Returns the names in that order. */
    method DisableCascadeRecursive(name: string, ghost rank: map<string, nat>) returns (disabled: seq<string>)
      requires Valid() && name in defsByName && Ranked(defsByName, rank)
      requires !HasMandatoryDependent(defsByName, name)
      modifies this`state
      ensures Valid() && DisableOutcome(defsByName, old(On(state)), name, On(state))
      ensures DisableReport(defsByName, old(On(state)), On(state), disabled)
      decreases |defsByName| - rank[name], 1
    {
      hide CascadeProgress, DisableReport, DisableOutcome, Reaches, Acyclic, OwnersDisjoint, HasMandatoryDependent, Ranked;
      hide UniqueNames, KnownDeps;
      disabled := [];
      DisableNothing(defsByName, On(state), name);
      if !state[name] {
        return;
      }
      ghost var s0 := On(state);
      ghost var gone: set<string> := {};
      CascadeStart(defsByName, s0, name);
      assert ByName(definitions[..0]).Keys == {};
      for i := 0 to |definitions|
        invariant Valid() && CascadeProgress(defsByName, s0, name, gone, On(state))
        invariant forall y :: Edge(defsByName, y, name) && y in ByName(definitions[..i]) ==> y in gone
        invariant DisableReport(defsByName, s0, On(state), disabled)
      {
        NextName(definitions, i);
        disabled, gone := CascadeInto(name, definitions[i], disabled, rank, s0, gone);
      }
      assert definitions[..|definitions|] == definitions;
      ghost var t := On(state);
      CascadeDone(defsByName, s0, name, gone, t);
      DisableReportLast(defsByName, s0, t, disabled, name);
      state := state[name := false];
      assert On(state) == t - {name};
      disabled := disabled + [name];
    }

    /** Goes through the dependencies of one component, disabling it with what depends on it if it lists the name. */
    method CascadeInto(name: string, d: ComponentDef, disabled: seq<string>,
                       ghost rank: map<string, nat>, ghost s0: set<string>, ghost gone: set<string>)
      returns (disabled': seq<string>, ghost gone': set<string>)
      requires Valid() && name in defsByName && Ranked(defsByName, rank) && !HasMandatoryDependent(defsByName, name)
      requires d.name in defsByName && defsByName[d.name] == d
      requires CascadeProgress(defsByName, s0, name, gone, On(state)) && DisableReport(defsByName, s0, On(state), disabled)
      modifies this`state
      ensures Valid() && CascadeProgress(defsByName, s0, name, gone', On(state)) && gone <= gone'
      ensures Edge(defsByName, d.name, name) ==> d.name in gone'
      ensures DisableReport(defsByName, s0, On(state), disabled')
      decreases |defsByName| - rank[name], 0
    {
      hide CascadeProgress, DisableReport, DisableOutcome, Reaches, Acyclic, OwnersDisjoint, HasMandatoryDependent, Ranked;
      hide UniqueNames, KnownDeps, ByName;
      disabled', gone' := disabled, gone;
      for j := 0 to |d.dependencies|
        invariant Valid() && CascadeProgress(defsByName, s0, name, gone', On(state)) && gone <= gone'
        invariant name in d.dependencies[..j] ==> d.name in gone'
        invariant DisableReport(defsByName, s0, On(state), disabled')
      {
        if d.dependencies[j] == name {
          assert Edge(defsByName, d.name, name);
          DependentsUp(defsByName, d.name, name);
        }
        if d.dependencies[j] == name && state[d.name] && !d.mandatory {
          ghost var on := On(state);
          RankOrders(defsByName, rank, d.name, name);
          var more := DisableCascadeRecursive(d.name, rank);
          CascadeStep(defsByName, s0, name, gone', d.name, on, On(state));
          DisableReportConcat(defsByName, s0, on, On(state), disabled', more);
          disabled' := disabled' + more;
          gone' := gone' + {d.name};
        } else if d.dependencies[j] == name {
          CascadeSkip(defsByName, s0, name, gone', d.name, On(state));
          gone' := gone' + {d.name};
        }
      }
      assert d.dependencies[..|d.dependencies|] == d.dependencies;
    }

    /** Refuses when the component or anything that depends on it is mandatory; changes nothing in that case. */
    method DisableCascade(name: string) returns (r: Result<seq<string>, ComponentError>)
      requires Valid()
      modifies this`state
      ensures Valid()
      ensures name !in defsByName <==> r == Failure(UnknownComponent(name))
      ensures name in defsByName ==>
                (r.Failure? <==> defsByName[name].mandatory || HasMandatoryDependent(defsByName, name))
      ensures name in defsByName && r.Failure? ==>
                if defsByName[name].mandatory then r.error == IsMandatory(name) else r.error.RequiredByMandatory?
      ensures r.Failure? && r.error.RequiredByMandatory? ==>
                && r.error.name == name && r.error.dependent in defsByName
                && defsByName[r.error.dependent].mandatory && Reaches(defsByName, r.error.dependent, name)
      ensures r.Success? ==> DisableReport(defsByName, old(On(state)), On(state), r.value)
      ensures Next(defsByName, old(state), CascadeOp(name), state)
    {
      if name !in defsByName {
        return Failure(UnknownComponent(name));
      }
      if defsByName[name].mandatory {
        return Failure(IsMandatory(name));
      }
      var dependents := TransitiveDependents(name);
      for i := 0 to |dependents|
        invariant forall k :: 0 <= k < i ==> dependents[k] !in defsByName || !defsByName[dependents[k]].mandatory
      {
        var dep := dependents[i];
        if dep in defsByName && defsByName[dep].mandatory {
          assert dep in dependents;
          return Failure(RequiredByMandatory(name, dep));
        }
      }
      assert !HasMandatoryDependent(defsByName, name);
      AcyclicIffRanked(defsByName);
      ghost var rank :| Ranked(defsByName, rank);
      var disabled := DisableCascadeRecursive(name, rank);
      return Success(disabled);
    }

    /** One pair for each enabled component and disabled dependency of it. */
    method ValidateDependencies() returns (errs: seq<(string, string)>)
      requires Valid()
      ensures forall c, d :: (c, d) in errs <==> c in On(state) && Edge(defsByName, c, d) && d !in On(state)
      ensures errs == [] <==> Closed(defsByName, On(state))
    {
      hide Closed, Listed, On, Acyclic, OwnersDisjoint, KnownDeps, UniqueNames;
      errs := [];
      assert definitions[..0] == [];
      ValidateStart(defsByName, state);
      for i := 0 to |definitions|
        invariant Listed(defsByName, state, ByName(definitions[..i]).Keys, errs)
      {
        var def := definitions[i];
        ghost var before := errs;
        DefinitionKnown(i);
        if !state[def.name] {
          ValidateNext(definitions, state, i, errs, errs);
          continue;
        }
        for j := 0 to |def.dependencies|
          invariant forall v :: v in errs <==> v in before || (v.0 == def.name && MissingDep(def, j, state, v.1))
        {
          var dep := def.dependencies[j];
          assert def.dependencies[..j + 1] == def.dependencies[..j] + [dep];
          DependencyKnown(i, j);
          if !state[dep] {
            errs := errs + [(def.name, dep)];
          }
        }
        ValidateNext(definitions, state, i, before, errs);
      }
      assert definitions[..|definitions|] == definitions;
      ValidateDone(defsByName, state, errs);
    }

    /** Restores saved flags, visiting the saved map in no particular order. */
    method LoadState(saved: State)
      requires Valid()
      modifies this`state
      ensures Valid()
      ensures Next(defsByName, old(state), LoadOp(saved), state)
      ensures forall n :: n in state && n !in saved ==> state[n] == old(state)[n]
      ensures forall n :: n in state && n in saved && defsByName[n].mandatory ==> state[n]
      ensures forall n :: n in state && n in saved && !defsByName[n].mandatory ==> state[n] == saved[n]
    {
      var todo := saved.Keys;
      while todo != {}
        invariant todo <= saved.Keys && state.Keys == defsByName.Keys
        invariant forall n :: n in state ==>
                    state[n] == if n in saved && n !in todo then defsByName[n].mandatory || saved[n] else old(state)[n]
      {
        var name :| name in todo;
        if name in defsByName {
          if defsByName[name].mandatory {
            state := state[name := true];
          } else {
            state := state[name := saved[name]];
          }
        }
        todo := todo - {name};
      }
      assert state == Loaded(defsByName, old(state), saved);
    }

    method SaveState() returns (saved: State)
      ensures saved == state
    {
      saved := state;
    }

    /** Keeps the paths nobody owns and those of enabled components; the tree is listed in no particular order. */
    method FilterTree<V>(tree: map<string, V>) returns (filtered: map<string, V>)
      requires Valid()
      ensures filtered == map p | p in tree && Visible(definitions, On(state), p) :: tree[p]
      ensures forall p :: p in filtered <==>
                p in tree && forall d, prefix :: d in definitions && prefix in d.paths && Under(p, prefix) ==> d.name in state && state[d.name]
    {
      hide Under;
      filtered := map[];
      var todo := tree.Keys;
      while todo != {}
        invariant todo <= tree.Keys
        invariant forall p :: p in filtered <==> p in tree && p !in todo && Visible(definitions, On(state), p)
        invariant forall p :: p in filtered ==> filtered[p] == tree[p]
      {
        var path :| path in todo;
        var owner := PathBelongsToComponent(definitions, path);
        OwnerDecides(definitions, state, path, owner);
        if owner.None? || (owner.value in state && state[owner.value]) {
          filtered := filtered[path := tree[path]];
        }
        todo := todo - {path};
      }
    }
  }

  ghost predicate OccursTwice(defs: seq<ComponentDef>, name: string) {
    exists i, j :: 0 <= i < j < |defs| && defs[i].name == defs[j].name == name
  }

  /** The error names a fault that the definitions have. */
  ghost predicate NamesFault(defs: seq<ComponentDef>, error: ComponentError) {
    match error
    case DuplicateName(name) => OccursTwice(defs, name)
    case UnknownDependency(name, dependency) => Edge(ByName(defs), name, dependency) && dependency !in ByName(defs)
    case OverlappingPaths(a, b) =>
      Claimed(defs, a) && Claimed(defs, b) && a.component != b.component && Overlap(a.prefix, b.prefix)
    case _ => true
  }

  /**
   Validates the definitions in the order names, references, cycles, overlapping paths. On success mandatory
   components and their dependencies, and nothing else, start enabled.
   */
  method NewComponentManager(defs: seq<ComponentDef>) returns (r: Result<ComponentManager, ComponentError>)
    ensures r.Failure? && r.error.DuplicateName? <==> !UniqueNames(defs)
    ensures r.Failure? && r.error.UnknownDependency? <==> UniqueNames(defs) && !KnownDeps(ByName(defs))
    ensures r.Failure? && r.error.CircularDependency? <==>
              UniqueNames(defs) && KnownDeps(ByName(defs)) && !Acyclic(ByName(defs))
    ensures r.Failure? && r.error.OverlappingPaths? <==>
              UniqueNames(defs) && KnownDeps(ByName(defs)) && Acyclic(ByName(defs)) && !OwnersDisjoint(defs)
    ensures r.Success? <==>
              UniqueNames(defs) && KnownDeps(ByName(defs)) && Acyclic(ByName(defs)) && OwnersDisjoint(defs)
    ensures r.Failure? ==> NamesFault(defs, r.error)
    ensures r.Success? ==> fresh(r.value) && r.value.Valid() && r.value.definitions == defs
    ensures r.Success? ==> Initial(ByName(defs), r.value.state)
  {
    hide UniqueNames, KnownDeps, Acyclic, OwnersDisjoint, Reaches, Edge, OccursTwice, Claimed, Overlap;
    var byName :- IndexByName(defs);
    var unknown := FindUnknownDependency(defs, byName);
    if unknown.Some? {
      return Failure(unknown.value);
    }
    var acyclic := CycleDetection.DetectCycles(defs);
    if !acyclic {
      return Failure(CircularDependency);
    }
    var clash := CheckOverlappingPaths(defs);
    if clash.Some? {
      return Failure(OverlappingPaths(clash.value.0, clash.value.1));
    }
    var cm := new ComponentManager(defs, byName);
    cm.Start();
    return Success(cm);
  }

  method IndexByName(defs: seq<ComponentDef>) returns (r: Result<Graph, ComponentError>)
    ensures r == Success(ByName(defs)) || (r.Failure? && r.error.DuplicateName? && OccursTwice(defs, r.error.name))
    ensures r.Success? <==> UniqueNames(defs)
  {
    hide UniqueNames, OccursTwice;
    var byName: Graph := map[];
    NoNames(defs);
    for i := 0 to |defs|
      invariant UniqueNames(defs[..i]) && byName == ByName(defs[..i])
    {
      UniqueNext(defs, i);
      assert defs[..i + 1][..i] == defs[..i];
      if defs[i].name in byName {
        RepeatedName(defs, i);
        return Failure(DuplicateName(defs[i].name));
      }
      byName := byName[defs[i].name := defs[i]];
    }
    assert defs[..|defs|] == defs;
    return Success(byName);
  }

  lemma RepeatedName(defs: seq<ComponentDef>, i: nat)
    requires i < |defs| && defs[i].name in ByName(defs[..i])
    ensures OccursTwice(defs, defs[i].name) && exists k :: 0 <= k < i && defs[k].name == defs[i].name
  {
    ByNameMembers(defs[..i]);
    hide ByName;
    var k :| 0 <= k < i && defs[..i][k].name == defs[i].name;
    assert defs[k].name == defs[i].name;
  }

  lemma NoNames(defs: seq<ComponentDef>)
    ensures UniqueNames(defs[..0])
  {
  }

  lemma UniqueNext(defs: seq<ComponentDef>, i: nat)
    requires i < |defs| && UniqueNames(defs[..i])
    ensures UniqueNames(defs[..i + 1]) <==> defs[i].name !in ByName(defs[..i])
    ensures !UniqueNames(defs[..i + 1]) ==> !UniqueNames(defs)
  {
    if defs[i].name in ByName(defs[..i]) {
      RepeatedName(defs, i);
      var k :| 0 <= k < i && defs[k].name == defs[i].name;
      assert defs[..i + 1][k].name == defs[..i + 1][i].name;
    } else {
      NewName(defs, i);
    }
  }

  lemma NewName(defs: seq<ComponentDef>, i: nat)
    requires i < |defs| && UniqueNames(defs[..i]) && defs[i].name !in ByName(defs[..i])
    ensures UniqueNames(defs[..i + 1])
  {
    ByNameMembers(defs[..i]);
    hide ByName;
    var front, next := defs[..i], defs[..i + 1];
    forall j, k | 0 <= j < k < |next| ensures next[j].name != next[k].name {
      assert next[j] == front[j];
      if k < i { assert next[k] == front[k]; }
    }
  }

  method FindUnknownDependency(defs: seq<ComponentDef>, byName: Graph) returns (err: Option<ComponentError>)
    requires UniqueNames(defs) && byName == ByName(defs)
    ensures err.None? <==> KnownDeps(byName)
    ensures err.Some? ==> && err.value.UnknownDependency? && Edge(byName, err.value.name, err.value.dependency)
                          && err.value.dependency !in byName
  {
    ByNameUnique(defs);
    ByNameMembers(defs);
    for i := 0 to |defs|
      invariant forall k, y :: 0 <= k < i && y in defs[k].dependencies ==> y in byName
    {
      for j := 0 to |defs[i].dependencies|
        invariant forall k :: 0 <= k < j ==> defs[i].dependencies[k] in byName
      {
        if defs[i].dependencies[j] !in byName {
          assert Edge(byName, defs[i].name, defs[i].dependencies[j]);
          return Some(UnknownDependency(defs[i].name, defs[i].dependencies[j]));
        }
      }
    }
    return None;
  }

  /** The state of a new manager: the least closed set that holds every mandatory component. */
  ghost predicate Initial(g: Graph, s: State) {
    && s.Keys == g.Keys
    && Closed(g, On(s)) && MandatoryIn(g, On(s))
    && forall t :: Closed(g, t) && MandatoryIn(g, t) ==> On(s) <= t
  }

  /**
   The states reachable in n steps by managers built from the same definitions: a new manager, or one operation on a
   reachable state, where only maps saved from reachable states are loaded.
   */
  ghost predicate Reachable(g: Graph, s: State, n: nat)
    decreases n
  {
    || Initial(g, s)
    || (n > 0 && exists s0, op ::
          Reachable(g, s0, n - 1) && Next(g, s0, op, s) && (op.LoadOp? ==> Reachable(g, op.saved, n - 1)))
  }

  ghost predicate Safe(g: Graph, s: State) {
    s.Keys == g.Keys && MandatoryIn(g, On(s)) && Closed(g, On(s))
  }

  /** Over every run, mandatory components stay enabled and no enabled component lacks a dependency. */
  lemma {:induction false} RunsAreSafe(g: Graph, s: State, n: nat)
    requires KnownDeps(g) && Reachable(g, s, n)
    ensures Safe(g, s)
    decreases n
  {
    hide Safe, Next, Initial;
    if Initial(g, s) {
      InitialIsSafe(g, s);
    } else {
      var s0, op :| Reachable(g, s0, n - 1) && Next(g, s0, op, s) && (op.LoadOp? ==> Reachable(g, op.saved, n - 1));
      RunsAreSafe(g, s0, n - 1);
      if op.LoadOp? {
        RunsAreSafe(g, op.saved, n - 1);
        LoadSavedIsSafe(g, s0, op.saved, s);
      } else {
        StepIsSafe(g, s0, op, s);
      }
    }
  }

  lemma MandatoryNext(defs: seq<ComponentDef>, i: nat, on: set<string>, on': set<string>)
    requires UniqueNames(defs) && i < |defs|
    requires MandatoryIn(ByName(defs[..i]), on) && on <= on'
    requires defs[i].mandatory ==> defs[i].name in on'
    ensures MandatoryIn(ByName(defs[..i + 1]), on')
  {
    NextName(defs, i);
    assert defs[..i + 1][..i] == defs[..i];
  }

  lemma MandatoryMember(g: Graph, s: set<string>, name: string)
    requires MandatoryIn(g, s) && name in g && g[name].mandatory
    ensures name in s
  {
  }

  lemma NothingIsClosed(g: Graph)
    ensures Closed(g, {}) && MandatoryIn(ByName([]), {})
  {
  }

  lemma InitialIsSafe(g: Graph, s: State)
    requires Initial(g, s)
    ensures Safe(g, s)
  {
  }

  lemma LoadSavedIsSafe(g: Graph, s: State, saved: State, s': State)
    requires Next(g, s, LoadOp(saved), s') && Safe(g, saved)
    ensures s' == saved && Safe(g, s')
  {
    assert s' == saved;
  }

  /** The specification fixes the outcome; in particular Enable and EnableWithReport always end in the same state. */
  lemma NextIsFunctional(g: Graph, s: State, op: Op, s1: State, s2: State)
    requires Next(g, s, op, s1) && Next(g, s, op, s2)
    ensures s1 == s2
  {
    match op
    case EnableOp(name) =>
      if name in g {
        EnableOutcomeUnique(g, On(s), name, On(s1), On(s2));
        SameFlags(s1, s2);
      }
    case DisableOp(name) =>
    case CascadeOp(name) =>
      if name in g && !g[name].mandatory && !HasMandatoryDependent(g, name) {
        assert On(s1) <= On(s2) && On(s2) <= On(s1);
        SameFlags(s1, s2);
      }
    case LoadOp(saved) =>
  }

  lemma SameFlags(s1: State, s2: State)
    requires s1.Keys == s2.Keys && On(s1) == On(s2)
    ensures s1 == s2
  {
    forall n | n in s1 ensures s1[n] == s2[n] {
      assert n in On(s1) <==> s1[n];
      assert n in On(s2) <==> s2[n];
    }
  }

  lemma StepIsSafe(g: Graph, s: State, op: Op, s': State)
    requires KnownDeps(g) && Next(g, s, op, s') && !op.LoadOp? && Safe(g, s)
    ensures Safe(g, s')
  {
    match op
    case EnableOp(name) =>
      if name in g {
        EnableFromClosed(g, On(s), name, On(s'));
      }
    case DisableOp(name) =>
      assert s' != s ==> On(s') == On(s) - {name};
    case CascadeOp(name) =>
      if s' != s && name in g && !g[name].mandatory && !HasMandatoryDependent(g, name) {
        DisableFromClosed(g, On(s), name, On(s'));
        forall x | x in g && g[x].mandatory ensures x in On(s') {
          DisableKeepsUnrelated(g, On(s), name, On(s'), x);
        }
      }
  }

  /** c, one of the given components, is enabled without its dependency d. */
  ghost predicate Violation(g: Graph, state: State, within: set<string>, c: string, d: string) {
    c in within && c in On(state) && Edge(g, c, d) && d !in On(state)
  }

  ghost predicate Listed(g: Graph, state: State, within: set<string>, errs: seq<(string, string)>) {
    forall v :: v in errs <==> Violation(g, state, within, v.0, v.1)
  }

  predicate MissingDep(def: ComponentDef, j: nat, state: State, dep: string)
    requires j <= |def.dependencies|
  {
    dep in def.dependencies[..j] && !(dep in state && state[dep])
  }

  lemma ValidateStart(g: Graph, state: State)
    ensures Listed(g, state, ByName([]).Keys, [])
  {
  }

  lemma ValidateNext(defs: seq<ComponentDef>, state: State, i: nat, before: seq<(string, string)>,
                     errs: seq<(string, string)>)
    requires UniqueNames(defs) && i < |defs|
    requires Listed(ByName(defs), state, ByName(defs[..i]).Keys, before)
    requires defs[i].name in state
    requires !state[defs[i].name] ==> errs == before
    requires state[defs[i].name] ==>
               forall v :: v in errs <==> v in before || (v.0 == defs[i].name && MissingDep(defs[i], |defs[i].dependencies|, state, v.1))
    ensures Listed(ByName(defs), state, ByName(defs[..i + 1]).Keys, errs)
  {
    NextName(defs, i);
    assert defs[i].dependencies[..|defs[i].dependencies|] == defs[i].dependencies;
  }

  lemma ValidateDone(g: Graph, state: State, errs: seq<(string, string)>)
    requires Listed(g, state, g.Keys, errs) && state.Keys == g.Keys
    ensures forall c, d :: (c, d) in errs <==> c in On(state) && Edge(g, c, d) && d !in On(state)
    ensures errs == [] <==> Closed(g, On(state))
  {
    forall c, d ensures (c, d) in errs <==> c in On(state) && Edge(g, c, d) && d !in On(state) {
      assert (c, d) in errs <==> Violation(g, state, g.Keys, (c, d).0, (c, d).1);
    }
    if errs != [] {
      assert (errs[0].0, errs[0].1) in errs;
    }
    if !Closed(g, On(state)) {
      var c, d :| c in On(state) && Edge(g, c, d) && d !in On(state);
      assert (c, d) in errs;
    }
  }

  /** The first owner found decides visibility, because it is the only one. */
  lemma OwnerDecides(defs: seq<ComponentDef>, state: State, path: string, owner: Option<string>)
    requires OwnersDisjoint(defs) && IsOwner(defs, path, owner)
    ensures Visible(defs, On(state), path) <==> owner.None? || owner.value in On(state)
  {
    forall c, d | c in defs && d in defs && Owns(c, path) && Owns(d, path) ensures c.name == d.name {
      AtMostOneOwner(defs, c, d, path);
    }
  }

  lemma NoneDependsOn(defs: seq<ComponentDef>, state: State, name: string)
    requires UniqueNames(defs)
    requires forall k :: 0 <= k < |defs| ==> defs[k].name !in On(state) || name !in defs[k].dependencies
    ensures !HasEnabledDependent(ByName(defs), state, name)
  {
    ByNameMembers(defs);
  }

  lemma NextName(defs: seq<ComponentDef>, i: nat)
    requires UniqueNames(defs) && i < |defs|
    ensures ByName(defs[..i + 1]).Keys == ByName(defs[..i]).Keys + {defs[i].name}
    ensures defs[i].name in ByName(defs) && ByName(defs)[defs[i].name] == defs[i]
  {
    ByNameUnique(defs);
    assert defs[..i + 1][..i] == defs[..i];
  }

  lemma RankOrders(g: Graph, rank: map<string, nat>, x: string, y: string)
    requires Ranked(g, rank) && Edge(g, x, y)
    ensures x in rank && y in rank && rank[y] < rank[x] < |g|
  {
  }

  /** No dependent of name has a mandatory dependent when name has none. */
  lemma DependentsUp(g: Graph, d: string, name: string)
    requires Edge(g, d, name) && !HasMandatoryDependent(g, name)
    ensures !HasMandatoryDependent(g, d) && !g[d].mandatory
  {
    EdgeReaches(g, d, name);
    forall x | x in g && Reaches(g, x, d) ensures !g[x].mandatory {
      ReachesExtend(g, x, d, name);
    }
  }

  lemma Shrinks(all: set<string>, s0: set<string>, name: string, on: set<string>)
    requires name in all && name !in s0 && s0 + {name} <= on
    ensures |all - on| < |all - s0|
  {
    assert all - on <= (all - s0) - {name};
    SubsetSize(all - on, (all - s0) - {name});
  }

  lemma {:induction false} SubsetSize(a: set<string>, b: set<string>)
    requires a <= b
    ensures |a| <= |b|
  {
    if x :| x in a {
      SubsetSize(a - {x}, b - {x});
    }
  }

  /** Enabling a dependency of name never enables name itself. */
  lemma DependencySparesName(g: Graph, s: set<string>, name: string, dep: string, t: set<string>)
    requires KnownDeps(g) && Acyclic(g) && Edge(g, name, dep) && name !in s
    requires EnableOutcome(g, s, dep, t)
    ensures name !in t
  {
    if name in t {
      EnableAddsDependencies(g, s, dep, t, name);
      EdgeReaches(g, name, dep);
      if name != dep {
        ReachesStep(g, name, dep, name);
      }
    }
  }
}
