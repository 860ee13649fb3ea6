/** Exporting a tree to files, and undoing a whole export. */
module ExportRun {
  import opened Wrappers
  import opened ConfigTree
  import opened Disk
  import opened Rollback
  import Paths
  import Strings

  datatype RunConfig = RunConfig(
    templatePath: string,
    format: string,
    outputPath: string,
    prefix: string,
    dryRun: bool,
    iterate: string,
    outputPattern: string,
    workspaceDir: string)

  /** What a template sees of a child: the value at any path of its tree, and which paths are listed. */
  datatype View<V> = View(tree: Tree<V>, listed: set<string>)

  /** Rendering: what the templates make of a tree. Nothing stands for an error. */
  datatype Templates<!V> = Templates(
    render: (RunConfig, Tree<V>) -> Option<string>,
    renderChild: (RunConfig, string, View<V>) -> Option<string>,
    parses: string -> bool,
    pattern: (string, string, View<V>) -> Option<string>,
    isAbsolute: string -> bool)

  datatype ExportResult = ExportResult(content: string, outputPath: string)

  /** Standard output and unset paths are not written. */
  predicate IsFilePath(path: string) {
    path != "" && path != "-"
  }

  /** The path a pattern gives a child, relative to the workspace. */
  function ChildPath<V>(t: Templates<V>, cfg: RunConfig, key: string, view: View<V>): Option<string> {
    match t.pattern(cfg.outputPattern, key, view)
    case None => None
    case Some(path) =>
      if path != "" && !t.isAbsolute(path) && cfg.workspaceDir != "" then Some(Paths.Join(cfg.workspaceDir, path))
      else Some(path)
  }

  /** The paths a tree lists when it is confined to a prefix; an empty prefix does not confine it. */
  function ListedBelow<V>(tree: Tree<V>, prefix: string): set<string> {
    if prefix == "" then tree.Keys else set p | p in tree && (Slashed(prefix) <= p || p == prefix)
  }

  /** A prefix confines a tree to the paths that start with its segments. */
  lemma ListedBySegments<V>(tree: Tree<V>, prefix: string, path: string)
    requires prefix != "" && !Strings.HasSuffix(prefix, "/")
    ensures path in ListedBelow(tree, prefix) <==> path in tree && Strings.Split(prefix, '/') <= Strings.Split(path, '/')
  {
    hide Strings.Split;
    Strings.SplitPrefix(prefix, path, '/');
  }

  /**
   The path that a pattern's result leads to: with a workspace, a result that is not absolute is taken from there and
   cleaned, so that it lies within the workspace unless it has a `..` segment; any other is the path as it is.
   */
  ghost predicate LeadsTo<V>(t: Templates<V>, cfg: RunConfig, named: Option<string>, path: string) {
    && named.Some?
    && var name, ws := named.value, cfg.workspaceDir;
    if name == "" || t.isAbsolute(name) || ws == "" then path == name
    else
      && Paths.Rooted(path) == Paths.Rooted(ws) && Paths.Clean(path) == path
      && Paths.Segments(path) == Paths.WalkAll(Paths.Rooted(ws), Paths.Segments(ws), Strings.Split(name, '/'))
      && (".." !in Strings.Split(name, '/') ==> Paths.Within(ws, path))
      && (IsShort(ws) && IsShort(name) && !Paths.Rooted(name) && ".." !in Strings.Split(name, '/') ==> path == ws + "/" + name)
  }

  /** A clean path that leads somewhere. */
  predicate IsShort(path: string) {
    Paths.Clean(path) == path && Paths.Segments(path) != []
  }

  lemma ChildPathLeads<V>(t: Templates<V>, cfg: RunConfig, key: string, view: View<V>)
    ensures ChildPath(t, cfg, key, view).Some? <==> t.pattern(cfg.outputPattern, key, view).Some?
    ensures ChildPath(t, cfg, key, view).Some? ==>
              LeadsTo(t, cfg, t.pattern(cfg.outputPattern, key, view), ChildPath(t, cfg, key, view).value)
  {
    hide Strings.Split, Paths.Segments, Paths.WalkAll, Paths.Clean, Paths.Within, Paths.Join;
    var named := t.pattern(cfg.outputPattern, key, view);
    if named.Some? && named.value != "" && !t.isAbsolute(named.value) && cfg.workspaceDir != "" {
      var name, ws := named.value, cfg.workspaceDir;
      Paths.JoinedSegments(ws, name);
      JoinIsClean(ws, name);
      if ".." !in Strings.Split(name, '/') {
        Paths.JoinedIsWithin(ws, name);
        if IsShort(ws) && IsShort(name) && !Paths.Rooted(name) { Paths.JoinOfClean(ws, name); }
      }
    }
  }

  lemma JoinIsClean(dir: string, name: string)
    requires dir != "" && name != ""
    ensures Paths.Clean(Paths.Join(dir, name)) == Paths.Join(dir, name)
  {
    hide Paths.Clean;
    Paths.CleanIsClean(dir + "/" + name);
  }

  function ViewOf<V>(tree: Tree<V>, prefix: string): View<V> {
    View(tree, ListedBelow(tree, prefix))
  }

  function Keys<V>(tree: Tree<V>, cfg: RunConfig): seq<string> {
    SortedChildren(tree, cfg.iterate)
  }

  /** The path under which the snapshot lists a child, and the one under which the export writes it. */
  function ListedPath<V>(t: Templates<V>, tree: Tree<V>, cfg: RunConfig, key: string): Option<string> {
    ChildPath(t, cfg, key, ViewOf(ChildTree(tree, cfg.iterate, key), ""))
  }

  function WrittenPath<V>(t: Templates<V>, tree: Tree<V>, cfg: RunConfig, key: string): Option<string> {
    ChildPath(t, cfg, key, ViewOf(ChildTree(tree, cfg.iterate, key), cfg.prefix))
  }

  /** Both computations of the output paths agree. */
  ghost predicate PathsAgree<V>(t: Templates<V>, tree: Tree<V>, cfg: RunConfig) {
    forall key :: key in Keys(tree, cfg) ==> ListedPath(t, tree, cfg, key) == WrittenPath(t, tree, cfg, key)
  }

  /** Every path of every child lies at or below the prefix, if there is one. */
  ghost predicate PrefixCovers<V>(tree: Tree<V>, cfg: RunConfig) {
    forall key :: key in Keys(tree, cfg) ==> ChildCovered(ChildTree(tree, cfg.iterate, key), cfg.prefix)
  }

  ghost predicate ChildCovered<V>(child: Tree<V>, prefix: string) {
    prefix == "" || forall p :: p in child ==> Slashed(prefix) <= p || p == prefix
  }

  lemma CoveredIffAllListed<V>(child: Tree<V>, prefix: string)
    ensures ChildCovered(child, prefix) <==> ListedBelow(child, prefix) == child.Keys
    ensures !ChildCovered(child, prefix) ==> |ListedBelow(child, prefix)| < |child.Keys|
  {
    hide Slashed;
    assert ListedBelow(child, prefix) <= child.Keys;
    if !ChildCovered(child, prefix) {
      var p :| p in child && !(Slashed(prefix) <= p || p == prefix);
      assert p !in ListedBelow(child, prefix);
      ProperSubset(ListedBelow(child, prefix), child.Keys, p);
    }
  }

  lemma {:induction false} ProperSubset(a: set<string>, b: set<string>, x: string)
    requires a <= b && x in b && x !in a
    ensures |a| < |b|
  {
    if a != {} {
      var y :| y in a;
      ProperSubset(a - {y}, b - {y}, x);
    }
  }

  /** The pattern gives each child the number of its listed paths, as does `{{ len .Value.All }}`. */
  ghost predicate Counts<V(!new)>(t: Templates<V>, pattern: string) {
    forall key, view: View<V> :: t.pattern(pattern, key, view) == Some(Digits(|view.listed|))
  }

  /** A pattern that counts the listed paths tells both views apart exactly if the prefix leaves out some child's path. */
  lemma CountsAgreeIffPrefixCovers<V(!new)>(t: Templates<V>, tree: Tree<V>, cfg: RunConfig)
    requires Counts(t, cfg.outputPattern)
    ensures PathsAgree(t, tree, cfg) <==> PrefixCovers(tree, cfg)
  {
    hide Keys, ChildTree, ListedBelow, Paths.Join, Digits, ChildCovered;
    forall key | key in Keys(tree, cfg)
      ensures ListedPath(t, tree, cfg, key) == WrittenPath(t, tree, cfg, key) <==> ChildCovered(ChildTree(tree, cfg.iterate, key), cfg.prefix)
    {
      var child := ChildTree(tree, cfg.iterate, key);
      CoveredIffAllListed(child, "");
      CoveredIffAllListed(child, cfg.prefix);
      assert ListedBelow(child, "") == child.Keys by { AllListed(child); }
      CountsDiffer(t, cfg, key, ViewOf(child, ""), ViewOf(child, cfg.prefix));
    }
  }

  lemma AllListed<V>(child: Tree<V>)
    ensures ListedBelow(child, "") == child.Keys
  {
  }

  lemma CountsDiffer<V(!new)>(t: Templates<V>, cfg: RunConfig, key: string, u: View<V>, v: View<V>)
    requires Counts(t, cfg.outputPattern)
    ensures ChildPath(t, cfg, key, u) == ChildPath(t, cfg, key, v) ==> |u.listed| == |v.listed|
  {
    var m, n := Digits(|u.listed|), Digits(|v.listed|);
    DigitsValue(|u.listed|);
    DigitsValue(|v.listed|);
    DigitsArePlain(|u.listed|);
    DigitsArePlain(|v.listed|);
    hide Digits, Paths.Join;
    if cfg.workspaceDir != "" {
      JoinTells(cfg.workspaceDir, m, n);
    }
  }

  lemma JoinTells(dir: string, m: string, n: string)
    requires dir != "" && Paths.Plain(m) && Paths.Plain(n)
    ensures Paths.Join(dir, m) == Paths.Join(dir, n) ==> m == n
    ensures Paths.Join(dir, m) == n ==> m == n
    ensures Paths.Join(dir, n) == m ==> m == n
  {
    hide Paths.Join, Paths.Segments, Paths.Plain;
    Paths.JoinedName(dir, m);
    Paths.JoinedName(dir, n);
    Paths.PlainSegments(m);
    Paths.PlainSegments(n);
    var up := Paths.Segments(dir);
    assert (up + [m])[|up|] == m && (up + [n])[|up|] == n;
  }

  lemma DigitsArePlain(n: nat)
    ensures Paths.Plain(Digits(n))
  {
    NoSlashInDigits(n);
    NoDotInDigits(n);
    hide Digits;
    assert Digits(n)[0] in Digits(n);
  }

  /**
   Whatever the output patterns and the rest of the environment are, both computations of the paths agree, if and only
   if the prefix covers every path of every child.
   */
  lemma PathsAgreeIffPrefixCovers<V(!new)>(tree: Tree<V>, cfg: RunConfig)
    ensures (forall t: Templates<V> :: PathsAgree(t, tree, cfg)) <==> PrefixCovers(tree, cfg)
  {
    hide Keys, ChildTree;
    if PrefixCovers(tree, cfg) {
      forall t: Templates<V> ensures PathsAgree(t, tree, cfg) {
        forall key | key in Keys(tree, cfg) ensures ListedPath(t, tree, cfg, key) == WrittenPath(t, tree, cfg, key) {
          CoveredIffAllListed(ChildTree(tree, cfg.iterate, key), cfg.prefix);
        }
      }
    } else {
      var t := CountingTemplates<V>();
      CountsAgreeIffPrefixCovers(t, tree, cfg);
      assert !PathsAgree(t, tree, cfg);
    }
  }

  ghost function CountingTemplates<V(!new)>(): (t: Templates<V>)
    ensures forall pattern :: Counts(t, pattern)
  {
    Templates((cfg: RunConfig, tree: Tree<V>) => None, (cfg: RunConfig, key: string, view: View<V>) => None, text => true,
              (text: string, key: string, view: View<V>) => Some(Digits(|view.listed|)), path => "/" <= path)
  }

  /** For a pattern that looks at the key only they agree under any prefix. */
  lemma KeyPatternsAgree<V(!new)>(t: Templates<V>, tree: Tree<V>, cfg: RunConfig)
    requires forall key, u, v :: t.pattern(cfg.outputPattern, key, u) == t.pattern(cfg.outputPattern, key, v)
    ensures PathsAgree(t, tree, cfg)
  {
    hide Keys, ChildTree, ListedBelow, Paths.Join;
    forall key | key in Keys(tree, cfg) ensures ListedPath(t, tree, cfg, key) == WrittenPath(t, tree, cfg, key) {
      var sub := ChildTree(tree, cfg.iterate, key);
      assert t.pattern(cfg.outputPattern, key, ViewOf(sub, "")) == t.pattern(cfg.outputPattern, key, ViewOf(sub, cfg.prefix));
    }
  }

  const SAMPLE: Tree<int> := map["g/a/x" := 1]

  lemma SampleIsValid()
    ensures ValidTree(SAMPLE)
  {
    hide Strings.Split;
    assert "g/a/x" == "g" + ['/'] + "a/x" && "a/x" == "a" + ['/'] + "x";
    Strings.SplitConcat("g", "a/x", '/');
    Strings.SplitConcat("a", "x", '/');
    Strings.SplitWhole("g", '/');
    Strings.SplitWhole("a", '/');
    Strings.SplitWhole("x", '/');
    assert Strings.Split("g/a/x", '/') == ["g", "a", "x"];
    SampleSegments();
  }

  lemma SampleSegments()
    ensures ValidSegment("g") && ValidSegment("a") && ValidSegment("x")
  {
  }

  lemma SampleHasChild(cfg: RunConfig)
    requires cfg.iterate == "g"
    ensures "a" in Keys(SAMPLE, cfg)
  {
    hide Keys, FirstSegment, Slashed, Strings.Split;
    SampleCut();
    FirstOf("a", "x");
    InKeys(SAMPLE, cfg, "g/a/x");
  }

  lemma SampleCut()
    ensures Slashed("g") == "g/" && "g/" <= "g/a/x" && "g/a/x"[2..] == "a" + "/" + "x"
  {
    SlashedName('g');
    Cut("g/", "a/x");
    assert "g/a/x" == "g/" + "a/x" && "a" + "/" + "x" == "a/x";
  }

  lemma SlashedName(c: char)
    requires c != '/'
    ensures Slashed([c]) == [c, '/']
  {
    assert [c][0..] == [c] && [c] + "/" == [c, '/'];
  }

  lemma Cut(prefix: string, rest: string)
    ensures prefix <= prefix + rest && (prefix + rest)[|prefix|..] == rest
  {
  }

  lemma InKeys<V>(tree: Tree<V>, cfg: RunConfig, path: string)
    requires path in tree && Slashed(cfg.iterate) <= path && path != Slashed(cfg.iterate)
    ensures FirstSegment(path[|Slashed(cfg.iterate)|..]) in Keys(tree, cfg)
  {
    hide FirstSegment, Slashed;
    assert FirstSegment(path[|Slashed(cfg.iterate)|..]) in ChildNames(tree, cfg.iterate);
  }

  /** The child `a` of `g/a/x` lists one path, and none below the prefix `p`: a counting pattern writes elsewhere. */
  lemma CountsMayDisagree(t: Templates<int>, cfg: RunConfig)
    requires cfg.iterate == "g" && cfg.prefix == "p" && Counts(t, cfg.outputPattern)
    ensures ValidTree(SAMPLE) && !PathsAgree(t, SAMPLE, cfg)
  {
    hide Keys, ChildTree, Strings.Split;
    SampleIsValid();
    SampleHasChild(cfg);
    SampleChild();
    assert !("p" + "/" <= "x") && "x" != "p";
    assert Slashed("p") == "p/" by { SlashedName('p'); }
    assert !ChildCovered(ChildTree(SAMPLE, "g", "a"), "p");
    CountsAgreeIffPrefixCovers(t, SAMPLE, cfg);
  }

  lemma SampleChild()
    ensures "x" in ChildTree(SAMPLE, "g", "a")
  {
    hide Strings.Split, ValidPath;
    assert ChildPrefix("g", "a") == "g/a/" && "g/a/" + "x" == "g/a/x";
    Cut("g/a/", "x");
    assert "x" in Below(SAMPLE, "g/a/");
    assert ValidPath("x") by { XIsValid(); }
  }

  lemma XIsValid()
    ensures ValidPath("x")
  {
    Strings.SplitWhole("x", '/');
  }

  /** Writes atomically; a failure may come after the file is in place, when its access rights are applied. */
  method WriteExportFile(fs: FileSystem, path: string, content: string) returns (ok: bool)
    modifies fs
    ensures ok ==> fs.files == old(fs.files)[fs.os.File(path) := Raw(content)]
    ensures fs.files == old(fs.files) || fs.files == old(fs.files)[fs.os.File(path) := Raw(content)]
    ensures Paths.HasTraversal(path) ==> !ok && fs.files == old(fs.files)
    ensures fs.ops >= old(fs.ops) && (!ok ==> Paths.HasTraversal(path) || fs.FaultSince(old(fs.ops)))
  {
    if Paths.HasTraversal(path) {
      return false;
    }
    var failed, _ := fs.Next();
    if failed {
      return false;
    }
    fs.files := fs.files[fs.os.File(path) := Raw(content)];
    var late, _ := fs.Next();
    return !late;
  }

  function Rendered<V>(t: Templates<V>, tree: Tree<V>, cfg: RunConfig): Option<string> {
    t.render(cfg, tree)
  }

  function RenderChild<V>(t: Templates<V>, cfg: RunConfig, key: string, view: View<V>): Option<string> {
    t.renderChild(cfg, key, view)
  }

  function ChildRendered<V>(t: Templates<V>, tree: Tree<V>, cfg: RunConfig, key: string): Option<string> {
    RenderChild(t, cfg, key, ViewOf(ChildTree(tree, cfg.iterate, key), cfg.prefix))
  }

  predicate MayWrite(cfg: RunConfig, path: string) {
    cfg.dryRun || !IsFilePath(path) || !Paths.HasTraversal(path)
  }

  predicate ChildExportable<V>(t: Templates<V>, tree: Tree<V>, cfg: RunConfig, key: string) {
    && ChildRendered(t, tree, cfg, key).Some?
    && WrittenPath(t, tree, cfg, key).Some? && MayWrite(cfg, WrittenPath(t, tree, cfg, key).value)
  }

  /** Nothing about the configuration itself keeps it from being exported. */
  ghost predicate Exportable<V>(t: Templates<V>, tree: Tree<V>, cfg: RunConfig) {
    if cfg.iterate == "" then
      (cfg.format != "" || cfg.templatePath != "") && Rendered(t, tree, cfg).Some? && MayWrite(cfg, cfg.outputPath)
    else
      && cfg.templatePath != "" && cfg.outputPattern != ""
      && (Keys(tree, cfg) == [] ||
          (t.parses(cfg.outputPattern) && forall key :: key in Keys(tree, cfg) ==> ChildExportable(t, tree, cfg, key)))
  }

  /** What an export yields: one result, or one for each child in key order. */
  ghost predicate IsResults<V>(t: Templates<V>, tree: Tree<V>, cfg: RunConfig, results: seq<ExportResult>) {
    if cfg.iterate == "" then
      |results| == 1 && Rendered(t, tree, cfg) == Some(results[0].content) && results[0].outputPath == cfg.outputPath
    else
      |results| == |Keys(tree, cfg)| &&
      forall k :: 0 <= k < |results| ==> IsChildResult(t, tree, cfg, Keys(tree, cfg)[k], results[k])
  }

  ghost predicate IsChildResult<V>(t: Templates<V>, tree: Tree<V>, cfg: RunConfig, key: string, r: ExportResult) {
    ChildRendered(t, tree, cfg, key) == Some(r.content) && WrittenPath(t, tree, cfg, key) == Some(r.outputPath)
  }

  /** The files after the results were written in order. */
  ghost function AfterWriting(os: OS, files: Files, results: seq<ExportResult>): Files {
    if results == [] then files
    else
      var r := results[|results| - 1];
      var before := AfterWriting(os, files, results[..|results| - 1]);
      if IsFilePath(r.outputPath) then before[os.File(r.outputPath) := Raw(r.content)] else before
  }

  /** Nothing but files of the listed paths changed. */
  ghost predicate OnlyWrote(os: OS, paths: seq<string>, before: Files, files: Files) {
    forall f :: !ListedFile(os, paths, f) ==> SameFile(f, before, files)
  }

  lemma WroteOneMore(os: OS, paths: seq<string>, before: Files, mid: Files, files: Files, path: string, content: Content)
    requires OnlyWrote(os, paths, before, mid) && IsListed(paths, path)
    requires files == mid || files == mid[os.File(path) := content]
    ensures OnlyWrote(os, paths, before, files)
  {
    forall f | !ListedFile(os, paths, f) ensures SameFile(f, before, files) {
      assert f != os.File(path);
    }
  }

  lemma WroteNothing(os: OS, paths: seq<string>, files: Files)
    ensures OnlyWrote(os, paths, files, files)
  {
  }

  lemma WroteChain(os: OS, paths: seq<string>, a: Files, b: Files, c: Files)
    requires OnlyWrote(os, paths, a, b) && OnlyWrote(os, paths, b, c)
    ensures OnlyWrote(os, paths, a, c)
  {
    forall f | !ListedFile(os, paths, f) ensures SameFile(f, a, c) {
      assert SameFile(f, a, b) && SameFile(f, b, c);
    }
  }

  /** Renders one template or format, and writes it unless it goes to standard output or the run is dry. */
  method Export<V>(fs: FileSystem, t: Templates<V>, tree: Tree<V>, cfg: RunConfig) returns (r: Option<ExportResult>)
    requires cfg.iterate == ""
    modifies fs
    ensures r.Some? ==> Exportable(t, tree, cfg) && IsResults(t, tree, cfg, [r.value])
    ensures fs.ops >= old(fs.ops) && (r.None? ==> !Exportable(t, tree, cfg) || fs.FaultSince(old(fs.ops)))
    ensures r.Some? ==> fs.files == if cfg.dryRun then old(fs.files) else AfterWriting(fs.os, old(fs.files), [r.value])
    ensures cfg.format == "" && cfg.templatePath == "" ==> r.None?
    ensures r.Some? ==> t.render(cfg, tree) == Some(r.value.content) && r.value.outputPath == cfg.outputPath
    ensures r.Some? && !cfg.dryRun && cfg.outputPath != "" && cfg.outputPath != "-" ==>
              && ".." !in Strings.Split(cfg.outputPath, '/')
              && fs.files == old(fs.files)[fs.os.File(cfg.outputPath) := Raw(r.value.content)]
    ensures cfg.dryRun || cfg.outputPath == "" || cfg.outputPath == "-" ==> fs.files == old(fs.files)
    ensures cfg.dryRun || !IsFilePath(cfg.outputPath) ==> fs.files == old(fs.files)
    ensures OnlyWrote(fs.os, [cfg.outputPath], old(fs.files), fs.files)
  {
    WroteNothing(fs.os, [cfg.outputPath], fs.files);
    if cfg.format == "" && cfg.templatePath == "" {
      return None;
    }
    var content := Rendered(t, tree, cfg);
    if content.None? {
      return None;
    }
    var result := ExportResult(content.value, cfg.outputPath);
    assert [result][..0] == [];
    if !cfg.dryRun && IsFilePath(cfg.outputPath) {
      ghost var before := fs.files;
      var ok := WriteExportFile(fs, cfg.outputPath, content.value);
      WroteOneMore(fs.os, [cfg.outputPath], before, before, fs.files, cfg.outputPath, Raw(content.value));
      if !ok {
        return None;
      }
    }
    return Some(result);
  }

  /** The paths of an iterate export, in the order of the children. */
  ghost function PathsWritten<V>(t: Templates<V>, tree: Tree<V>, cfg: RunConfig): seq<string> {
    seq(|Keys(tree, cfg)|, i requires 0 <= i < |Keys(tree, cfg)| => ChildOutput(t, tree, cfg, Keys(tree, cfg)[i]))
  }

  /** The child was rendered as its template says, and its path is the one that its pattern leads to. */
  ghost predicate IsLed<V>(t: Templates<V>, tree: Tree<V>, cfg: RunConfig, key: string, r: ExportResult) {
    var view := ViewOf(ChildTree(tree, cfg.iterate, key), cfg.prefix);
    && t.renderChild(cfg, key, view) == Some(r.content)
    && LeadsTo(t, cfg, t.pattern(cfg.outputPattern, key, view), r.outputPath)
  }

  /** Renders one child and writes it unless it goes to standard output or the run is dry. */
  method ExportChild<V>(fs: FileSystem, t: Templates<V>, tree: Tree<V>, cfg: RunConfig, key: string)
    returns (r: Option<ExportResult>)
    modifies fs
    ensures r.Some? ==> ChildExportable(t, tree, cfg, key) && IsChildResult(t, tree, cfg, key, r.value)
    ensures r.Some? ==> IsLed(t, tree, cfg, key, r.value)
    ensures r.Some? && !cfg.dryRun && r.value.outputPath != "" && r.value.outputPath != "-" ==>
              && ".." !in Strings.Split(r.value.outputPath, '/')
              && fs.files == old(fs.files)[fs.os.File(r.value.outputPath) := Raw(r.value.content)]
    ensures r.Some? && (r.value.outputPath == "" || r.value.outputPath == "-") ==> fs.files == old(fs.files)
    ensures fs.ops >= old(fs.ops) && (r.None? ==> !ChildExportable(t, tree, cfg, key) || fs.FaultSince(old(fs.ops)))
    ensures r.Some? ==> fs.files == if cfg.dryRun || !IsFilePath(r.value.outputPath) then old(fs.files)
                                    else old(fs.files)[fs.os.File(r.value.outputPath) := Raw(r.value.content)]
    ensures cfg.dryRun ==> fs.files == old(fs.files)
    ensures fs.files == old(fs.files) ||
            (IsFilePath(ChildOutput(t, tree, cfg, key)) && ChildRendered(t, tree, cfg, key).Some?
             && fs.files == old(fs.files)[fs.os.File(ChildOutput(t, tree, cfg, key)) := Raw(ChildRendered(t, tree, cfg, key).value)])
  {
    hide ChildTree, ChildPath, LeadsTo, Strings.Split;
    var child := MaterializeChildTree(tree, cfg.iterate, key);
    ChildPathLeads(t, cfg, key, ViewOf(child, cfg.prefix));
    var path := ChildPath(t, cfg, key, ViewOf(child, cfg.prefix));
    assert WrittenPath(t, tree, cfg, key) == path;
    if path.None? {
      return None;
    }
    var content := RenderChild(t, cfg, key, ViewOf(child, cfg.prefix));
    if content.None? {
      return None;
    }
    if !cfg.dryRun && IsFilePath(path.value) {
      var wrote := WriteExportFile(fs, path.value, content.value);
      if !wrote {
        return None;
      }
    }
    return Some(ExportResult(content.value, path.value));
  }

  /** Renders and writes each child, in key order; the first that fails ends the export without results. */
  method ExportIterate<V>(fs: FileSystem, t: Templates<V>, tree: Tree<V>, cfg: RunConfig)
    returns (ok: bool, results: seq<ExportResult>)
    requires cfg.iterate != ""
    modifies fs
    ensures ok ==> Exportable(t, tree, cfg) && IsResults(t, tree, cfg, results)
    ensures !ok ==> results == [] && (!Exportable(t, tree, cfg) || fs.FaultSince(old(fs.ops)))
    ensures fs.ops >= old(fs.ops)
    ensures ok ==>
              && |results| == |Keys(tree, cfg)|
              && forall k :: 0 <= k < |results| ==> IsLed(t, tree, cfg, Keys(tree, cfg)[k], results[k])
    ensures cfg.templatePath == "" || cfg.outputPattern == "" ==> !ok && fs.files == old(fs.files)
    ensures cfg.dryRun ==> fs.files == old(fs.files)
    ensures OnlyWrote(fs.os, PathsWritten(t, tree, cfg), old(fs.files), fs.files)
    ensures ok && !cfg.dryRun ==> fs.files == AfterWriting(fs.os, old(fs.files), results)
  {
    hide OnlyWrote, AfterWriting, SortedChildren, ChildTree, IsLed, WrittenPath, ChildExportable, ChildRendered, IsChildResult;
    ghost var paths := PathsWritten(t, tree, cfg);
    WroteNoResults(fs.os, fs.files);
    WroteNothing(fs.os, paths, fs.files);
    results := [];
    if cfg.templatePath == "" || cfg.outputPattern == "" {
      return false, [];
    }
    var children := DirectChildren(tree, cfg.iterate);
    if |children| == 0 {
      return true, [];
    }
    if !t.parses(cfg.outputPattern) {
      return false, [];
    }
    for i := 0 to |children|
      invariant |results| == i && OnlyWrote(fs.os, paths, old(fs.files), fs.files) && fs.ops >= old(fs.ops)
      invariant cfg.dryRun ==> fs.files == old(fs.files)
      invariant !cfg.dryRun ==> fs.files == AfterWriting(fs.os, old(fs.files), results)
      invariant forall k :: 0 <= k < i ==> IsChildResult(t, tree, cfg, children[k], results[k])
      invariant forall k :: 0 <= k < i ==> IsLed(t, tree, cfg, children[k], results[k])
      invariant forall k :: 0 <= k < i ==> ChildExportable(t, tree, cfg, children[k])
    {
      ghost var before := fs.files;
      var r := ExportChild(fs, t, tree, cfg, children[i]);
      WroteChild(fs.os, t, tree, cfg, i, old(fs.files), before, fs.files);
      assert children[i] in children;
      if r.None? {
        return false, [];
      }
      WroteResult(fs.os, old(fs.files), results, r.value);
      results := results + [r.value];
    }
    return true, results;
  }

  /** Where a child is written, if its path can be computed. */
  ghost function ChildOutput<V>(t: Templates<V>, tree: Tree<V>, cfg: RunConfig, key: string): string {
    match WrittenPath(t, tree, cfg, key) case Some(p) => p case None => ""
  }

  lemma WroteChild<V>(os: OS, t: Templates<V>, tree: Tree<V>, cfg: RunConfig, i: nat, start: Files, before: Files, files: Files)
    requires i < |Keys(tree, cfg)| && OnlyWrote(os, PathsWritten(t, tree, cfg), start, before)
    requires files == before ||
             (IsFilePath(ChildOutput(t, tree, cfg, Keys(tree, cfg)[i])) && ChildRendered(t, tree, cfg, Keys(tree, cfg)[i]).Some?
              && files == before[os.File(ChildOutput(t, tree, cfg, Keys(tree, cfg)[i])) :=
                                   Raw(ChildRendered(t, tree, cfg, Keys(tree, cfg)[i]).value)])
    ensures OnlyWrote(os, PathsWritten(t, tree, cfg), start, files)
  {
    hide OnlyWrote, SortedChildren, WrittenPath, ChildRendered;
    var key := Keys(tree, cfg)[i];
    var path := ChildOutput(t, tree, cfg, key);
    if files != before {
      assert PathsWritten(t, tree, cfg)[i] == path;
      WroteOneMore(os, PathsWritten(t, tree, cfg), start, before, files, path, Raw(ChildRendered(t, tree, cfg, key).value));
    }
  }

  lemma WroteNoResults(os: OS, files: Files)
    ensures AfterWriting(os, files, []) == files
  {
  }

  lemma WroteResult(os: OS, files: Files, results: seq<ExportResult>, r: ExportResult)
    ensures AfterWriting(os, files, results + [r]) ==
      var before := AfterWriting(os, files, results);
      if IsFilePath(r.outputPath) then before[os.File(r.outputPath) := Raw(r.content)] else before
  {
    assert (results + [r])[..|results|] == results;
  }

  /** The output paths of a configuration can be computed beforehand. */
  ghost predicate Listable<V>(t: Templates<V>, tree: Tree<V>, cfg: RunConfig) {
    cfg.iterate != "" && cfg.templatePath != "" && cfg.outputPattern != "" && Keys(tree, cfg) != [] ==>
      t.parses(cfg.outputPattern) && forall key :: key in Keys(tree, cfg) ==> ListedPath(t, tree, cfg, key).Some?
  }

  /** The path is one the configuration writes a file to, as computed beforehand. */
  ghost predicate IsOutput<V>(t: Templates<V>, tree: Tree<V>, cfg: RunConfig, path: string) {
    IsFilePath(path) &&
    if cfg.iterate == "" then path == cfg.outputPath
    else
      && cfg.templatePath != "" && cfg.outputPattern != ""
      && exists key :: key in Keys(tree, cfg) && ListedPath(t, tree, cfg, key) == Some(path)
  }

  /** Computes beforehand the paths that ExportIterate will write. */
  method IterateOutputPaths<V>(t: Templates<V>, tree: Tree<V>, cfg: RunConfig) returns (r: Option<seq<string>>)
    requires cfg.iterate != ""
    ensures r.Some? <==> Listable(t, tree, cfg)
    ensures cfg.templatePath == "" || cfg.outputPattern == "" ==> r == Some([])
    ensures r.Some? && cfg.templatePath != "" && cfg.outputPattern != "" ==>
              && |r.value| == |Keys(tree, cfg)|
              && (forall k :: 0 <= k < |r.value| ==> ListedPath(t, tree, cfg, Keys(tree, cfg)[k]) == Some(r.value[k]))
              && forall k :: 0 <= k < |r.value| ==>
                   var key := Keys(tree, cfg)[k];
                   LeadsTo(t, cfg, t.pattern(cfg.outputPattern, key, ViewOf(ChildTree(tree, cfg.iterate, key), "")), r.value[k])
  {
    hide SortedChildren, ChildTree, ChildPath, LeadsTo;
    if cfg.templatePath == "" || cfg.outputPattern == "" {
      return Some([]);
    }
    var children := DirectChildren(tree, cfg.iterate);
    if |children| == 0 {
      return Some([]);
    }
    if !t.parses(cfg.outputPattern) {
      return None;
    }
    var paths: seq<string> := [];
    for i := 0 to |children|
      invariant |paths| == i
      invariant forall k :: 0 <= k < i ==> ListedPath(t, tree, cfg, children[k]) == Some(paths[k])
      invariant forall k :: 0 <= k < i ==>
                  LeadsTo(t, cfg, t.pattern(cfg.outputPattern, children[k], ViewOf(ChildTree(tree, cfg.iterate, children[k]), "")), paths[k])
    {
      var child := MaterializeChildTree(tree, cfg.iterate, children[i]);
      ChildPathLeads(t, cfg, children[i], ViewOf(child, ""));
      var path := ChildPath(t, cfg, children[i], ViewOf(child, ""));
      assert children[i] in children && ListedPath(t, tree, cfg, children[i]) == path;
      if path.None? {
        return None;
      }
      paths := paths + [path.value];
    }
    return Some(paths);
  }

  /** The output of one configuration as the snapshot should list it. */
  ghost predicate Lists<V>(t: Templates<V>, tree: Tree<V>, cfg: RunConfig, listed: seq<string>) {
    if cfg.iterate == "" then IsFilePath(cfg.outputPath) ==> cfg.outputPath in listed
    else
      cfg.templatePath != "" && cfg.outputPattern != "" ==>
        forall key :: key in Keys(tree, cfg) ==>
          ListedPath(t, tree, cfg, key).Some?
          && (IsFilePath(ListedPath(t, tree, cfg, key).value) ==> ListedPath(t, tree, cfg, key).value in listed)
  }

  lemma ListsMore<V>(t: Templates<V>, tree: Tree<V>, cfg: RunConfig, listed: seq<string>, more: seq<string>)
    requires Lists(t, tree, cfg, listed)
    ensures Lists(t, tree, cfg, listed + more)
  {
  }

  /** The outputs of one configuration that are files. */
  method OutputsOf<V>(t: Templates<V>, tree: Tree<V>, cfg: RunConfig) returns (r: Option<seq<string>>)
    ensures r.Some? <==> Listable(t, tree, cfg)
    ensures r.Some? ==> Lists(t, tree, cfg, r.value) && forall p :: p in r.value ==> IsOutput(t, tree, cfg, p)
  {
    hide Lists, Keys, ListedPath, IsOutput, LeadsTo, ChildTree;
    if cfg.iterate != "" {
      var paths := IterateOutputPaths(t, tree, cfg);
      if paths.None? {
        return None;
      }
      var more: seq<string> := [];
      for j := 0 to |paths.value|
        invariant forall p :: p in more <==> p in paths.value[..j] && IsFilePath(p)
      {
        assert paths.value[..j + 1] == paths.value[..j] + [paths.value[j]];
        if IsFilePath(paths.value[j]) {
          more := more + [paths.value[j]];
        }
      }
      assert paths.value[..|paths.value|] == paths.value;
      ListsIterate(t, tree, cfg, paths.value, more);
      return Some(more);
    }
    var single := if IsFilePath(cfg.outputPath) then [cfg.outputPath] else [];
    SingleIsOutput(t, tree, cfg);
    ListsSingle(t, tree, cfg, single);
    return Some(single);
  }

  /** The workspace of the first configuration that writes and has one. */
  function FirstWorkspace(configs: seq<RunConfig>): string {
    if configs == [] then ""
    else if !configs[0].dryRun && configs[0].workspaceDir != "" then configs[0].workspaceDir
    else FirstWorkspace(configs[1..])
  }

  /** It belongs to a configuration that is no dry run, and no earlier one has another. */
  lemma {:induction false} FirstWorkspaceIs(configs: seq<RunConfig>)
    ensures FirstWorkspace(configs) == "" ==> forall cfg :: cfg in configs ==> cfg.dryRun || cfg.workspaceDir == ""
    ensures FirstWorkspace(configs) != "" ==>
              exists i :: 0 <= i < |configs| && !configs[i].dryRun && configs[i].workspaceDir == FirstWorkspace(configs)
                          && forall j :: 0 <= j < i ==> configs[j].dryRun || configs[j].workspaceDir == ""
  {
    if configs != [] && (configs[0].dryRun || configs[0].workspaceDir == "") {
      FirstWorkspaceIs(configs[1..]);
      if FirstWorkspace(configs) != "" {
        var i :| 0 <= i < |configs[1..]| && !configs[1..][i].dryRun && configs[1..][i].workspaceDir == FirstWorkspace(configs[1..])
                 && forall j :: 0 <= j < i ==> configs[1..][j].dryRun || configs[1..][j].workspaceDir == "";
        forall j | 0 <= j < i + 1 ensures configs[j].dryRun || configs[j].workspaceDir == "" {
          if j > 0 { assert configs[j] == configs[1..][j - 1]; }
        }
        assert configs[i + 1] == configs[1..][i];
      }
    }
  }

  lemma {:induction false} FirstWorkspaceNext(configs: seq<RunConfig>, cfg: RunConfig)
    ensures FirstWorkspace(configs + [cfg]) ==
            if FirstWorkspace(configs) != "" then FirstWorkspace(configs) else if cfg.dryRun then "" else cfg.workspaceDir
  {
    if configs == [] {
      assert [cfg][1..] == [];
    } else {
      assert (configs + [cfg])[1..] == configs[1..] + [cfg];
      FirstWorkspaceNext(configs[1..], cfg);
    }
  }

  ghost predicate IsOutputOf<V>(t: Templates<V>, tree: Tree<V>, configs: seq<RunConfig>, path: string) {
    exists cfg :: cfg in configs && !cfg.dryRun && IsOutput(t, tree, cfg, path)
  }

  lemma ListsOutputs<V>(t: Templates<V>, tree: Tree<V>, cfg: RunConfig, listed: seq<string>)
    requires Lists(t, tree, cfg, listed)
    ensures forall p :: IsOutput(t, tree, cfg, p) ==> p in listed
  {
  }

  /** The output of a configuration is where it says, or, iterated, where its pattern leads for some child. */
  ghost predicate GoesTo<V>(t: Templates<V>, tree: Tree<V>, cfg: RunConfig, path: string) {
    if cfg.iterate == "" then path == cfg.outputPath
    else
      && cfg.templatePath != "" && cfg.outputPattern != ""
      && exists key :: key in Keys(tree, cfg)
                       && LeadsTo(t, cfg, t.pattern(cfg.outputPattern, key, ViewOf(ChildTree(tree, cfg.iterate, key), "")), path)
  }

  /** What is listed are files that configurations write, dry runs aside; no plain output is missing. */
  ghost predicate IsCollected<V>(t: Templates<V>, tree: Tree<V>, configs: seq<RunConfig>, listed: seq<string>) {
    && (forall p :: p in listed ==> p != "" && p != "-" && exists cfg :: cfg in configs && !cfg.dryRun && GoesTo(t, tree, cfg, p))
    && forall cfg :: cfg in configs && !cfg.dryRun && cfg.iterate == "" && cfg.outputPath != "" && cfg.outputPath != "-" ==>
         cfg.outputPath in listed
  }

  lemma OutputGoesTo<V>(t: Templates<V>, tree: Tree<V>, cfg: RunConfig, path: string)
    requires IsOutput(t, tree, cfg, path)
    ensures path != "" && path != "-" && GoesTo(t, tree, cfg, path)
  {
    hide ChildPath, ChildTree, Keys, LeadsTo;
    if cfg.iterate != "" {
      var key :| key in Keys(tree, cfg) && ListedPath(t, tree, cfg, key) == Some(path);
      ChildPathLeads(t, cfg, key, ViewOf(ChildTree(tree, cfg.iterate, key), ""));
    }
  }

  lemma OutputsAreCollected<V>(t: Templates<V>, tree: Tree<V>, configs: seq<RunConfig>, listed: seq<string>)
    requires forall p :: p in listed <==> IsOutputOf(t, tree, configs, p)
    ensures IsCollected(t, tree, configs, listed)
  {
    hide GoesTo, Keys, ListedPath;
    forall p | p in listed ensures p != "" && p != "-" && exists cfg :: cfg in configs && !cfg.dryRun && GoesTo(t, tree, cfg, p) {
      var cfg :| cfg in configs && !cfg.dryRun && IsOutput(t, tree, cfg, p);
      OutputGoesTo(t, tree, cfg, p);
    }
    forall cfg | cfg in configs && !cfg.dryRun && cfg.iterate == "" && cfg.outputPath != "" && cfg.outputPath != "-"
      ensures cfg.outputPath in listed
    {
      assert IsOutput(t, tree, cfg, cfg.outputPath);
    }
  }

  /** Collects exactly what a whole export is going to write, and where its snapshot belongs. */
  method CollectOutputs<V>(t: Templates<V>, tree: Tree<V>, configs: seq<RunConfig>)
    returns (ok: bool, workspace: string, listed: seq<string>)
    ensures ok <==> forall cfg :: cfg in configs && !cfg.dryRun ==> Listable(t, tree, cfg)
    ensures ok ==> forall k :: 0 <= k < |configs| && !configs[k].dryRun ==> Lists(t, tree, configs[k], listed)
    ensures forall p :: p in listed ==> IsOutputOf(t, tree, configs, p)
    ensures ok ==> forall p :: IsOutputOf(t, tree, configs, p) ==> p in listed
    ensures ok ==> workspace == FirstWorkspace(configs)
    ensures ok ==> IsCollected(t, tree, configs, listed)
  {
    hide Lists, IsOutput, Listable, IsCollected;
    workspace, listed := "", [];
    for i := 0 to |configs|
      invariant forall k :: 0 <= k < i && !configs[k].dryRun ==> Lists(t, tree, configs[k], listed)
      invariant forall k :: 0 <= k < i && !configs[k].dryRun ==> Listable(t, tree, configs[k])
      invariant forall p :: p in listed ==> IsOutputOf(t, tree, configs, p)
      invariant workspace == FirstWorkspace(configs[..i])
    {
      var cfg := configs[i];
      assert configs[..i + 1] == configs[..i] + [cfg] && cfg in configs;
      FirstWorkspaceNext(configs[..i], cfg);
      if cfg.dryRun {
        continue;
      }
      if cfg.workspaceDir != "" && workspace == "" {
        workspace := cfg.workspaceDir;
      }
      var more := OutputsOf(t, tree, cfg);
      if more.None? {
        return false, workspace, listed;
      }
      forall k | 0 <= k < i && !configs[k].dryRun ensures Lists(t, tree, configs[k], listed + more.value) {
        ListsMore(t, tree, configs[k], listed, more.value);
      }
      ListsAfter(t, tree, cfg, listed, more.value);
      listed := listed + more.value;
    }
    assert configs[..|configs|] == configs;
    forall p | IsOutputOf(t, tree, configs, p) ensures p in listed {
      var cfg :| cfg in configs && !cfg.dryRun && IsOutput(t, tree, cfg, p);
      var k :| 0 <= k < |configs| && configs[k] == cfg;
      ListsOutputs(t, tree, cfg, listed);
    }
    OutputsAreCollected(t, tree, configs, listed);
    return true, workspace, listed;
  }

  lemma ListsIterate<V>(t: Templates<V>, tree: Tree<V>, cfg: RunConfig, paths: seq<string>, more: seq<string>)
    requires cfg.iterate != "" && forall p :: p in more <==> p in paths && IsFilePath(p)
    requires cfg.templatePath != "" && cfg.outputPattern != "" ==>
              && |paths| == |Keys(tree, cfg)|
              && forall k :: 0 <= k < |paths| ==> ListedPath(t, tree, cfg, Keys(tree, cfg)[k]) == Some(paths[k])
    requires cfg.templatePath == "" || cfg.outputPattern == "" ==> paths == []
    ensures Lists(t, tree, cfg, more) && forall p :: p in more ==> IsOutput(t, tree, cfg, p)
  {
    forall p | p in more ensures IsOutput(t, tree, cfg, p) {
      var k :| 0 <= k < |paths| && paths[k] == p;
      assert Keys(tree, cfg)[k] in Keys(tree, cfg);
    }
    if cfg.templatePath != "" && cfg.outputPattern != "" {
      forall key | key in Keys(tree, cfg)
        ensures ListedPath(t, tree, cfg, key).Some?
        ensures IsFilePath(ListedPath(t, tree, cfg, key).value) ==> ListedPath(t, tree, cfg, key).value in more
      {
        var k :| 0 <= k < |Keys(tree, cfg)| && Keys(tree, cfg)[k] == key;
        assert paths[k] in paths;
      }
    }
  }

  lemma SingleIsOutput<V>(t: Templates<V>, tree: Tree<V>, cfg: RunConfig)
    ensures cfg.iterate == "" && IsFilePath(cfg.outputPath) ==> IsOutput(t, tree, cfg, cfg.outputPath)
  {
  }

  lemma ListsSingle<V>(t: Templates<V>, tree: Tree<V>, cfg: RunConfig, more: seq<string>)
    requires cfg.iterate == "" && (IsFilePath(cfg.outputPath) ==> more == [cfg.outputPath])
    ensures Lists(t, tree, cfg, more)
  {
  }

  lemma ListsAfter<V>(t: Templates<V>, tree: Tree<V>, cfg: RunConfig, before: seq<string>, more: seq<string>)
    requires Lists(t, tree, cfg, more)
    ensures Lists(t, tree, cfg, before + more)
  {
  }

  /** Files written for listed paths are listed files. */
  lemma IterateStaysListed<V>(os: OS, t: Templates<V>, tree: Tree<V>, cfg: RunConfig, listed: seq<string>, before: Files, files: Files)
    requires cfg.iterate != "" && cfg.templatePath != "" && cfg.outputPattern != ""
    requires PathsAgree(t, tree, cfg) && Lists(t, tree, cfg, listed)
    requires OnlyWrote(os, PathsWritten(t, tree, cfg), before, files)
    ensures OnlyWrote(os, listed, before, files)
  {
    var paths := PathsWritten(t, tree, cfg);
    forall p | IsListed(paths, p) ensures IsListed(listed, p) {
      var k :| 0 <= k < |paths| && paths[k] == p;
      var key := Keys(tree, cfg)[k];
      assert key in Keys(tree, cfg);
      assert ListedPath(t, tree, cfg, key) == WrittenPath(t, tree, cfg, key);
    }
    ListedGrows(os, paths, listed, before, files);
  }

  lemma ListedGrows(os: OS, paths: seq<string>, listed: seq<string>, before: Files, files: Files)
    requires forall p :: IsListed(paths, p) ==> IsListed(listed, p)
    requires OnlyWrote(os, paths, before, files)
    ensures OnlyWrote(os, listed, before, files)
  {
    forall f | !ListedFile(os, listed, f) ensures SameFile(f, before, files) {
      assert !ListedFile(os, paths, f);
    }
  }

  /** The results of all configurations, in order. */
  function Concat(parts: seq<seq<ExportResult>>): seq<ExportResult> {
    if parts == [] then [] else Concat(parts[..|parts| - 1]) + parts[|parts| - 1]
  }

  /** The results of those that are not dry runs. */
  function Written(configs: seq<RunConfig>, parts: seq<seq<ExportResult>>): seq<ExportResult>
    requires |parts| <= |configs|
  {
    if parts == [] then []
    else
      var n := |parts| - 1;
      Written(configs, parts[..n]) + if configs[n].dryRun then [] else parts[n]
  }

  lemma {:induction false} AfterWritingBoth(os: OS, files: Files, a: seq<ExportResult>, b: seq<ExportResult>)
    ensures AfterWriting(os, files, a + b) == AfterWriting(os, AfterWriting(os, files, a), b)
  {
    if b == [] {
      assert a + b == a;
    } else {
      var n := |b| - 1;
      assert (a + b)[..|a| + n] == a + b[..n];
      AfterWritingBoth(os, files, a, b[..n]);
    }
  }

  lemma PartDone(os: OS, configs: seq<RunConfig>, parts: seq<seq<ExportResult>>, part: seq<ExportResult>,
                 start: Files, before: Files, files: Files)
    requires |parts| < |configs| && before == AfterWriting(os, start, Written(configs, parts))
    requires files == if configs[|parts|].dryRun then before else AfterWriting(os, before, part)
    ensures Concat(parts + [part]) == Concat(parts) + part
    ensures files == AfterWriting(os, start, Written(configs, parts + [part]))
  {
    hide AfterWriting;
    assert (parts + [part])[..|parts|] == parts;
    var written := Written(configs, parts);
    if configs[|parts|].dryRun {
      assert written + [] == written;
    } else {
      AfterWritingBoth(os, start, written, part);
    }
  }

  /** Every part holds the results of its configuration. */
  ghost predicate AreResults<V>(t: Templates<V>, tree: Tree<V>, configs: seq<RunConfig>, parts: seq<seq<ExportResult>>) {
    |parts| <= |configs| && forall k :: 0 <= k < |parts| ==> PartFits(t, tree, configs[k], parts[k])
  }

  ghost predicate PartFits<V>(t: Templates<V>, tree: Tree<V>, cfg: RunConfig, part: seq<ExportResult>) {
    Exportable(t, tree, cfg) && IsResults(t, tree, cfg, part)
  }

  lemma PartAdded<V>(t: Templates<V>, tree: Tree<V>, configs: seq<RunConfig>, parts: seq<seq<ExportResult>>, part: seq<ExportResult>)
    requires AreResults(t, tree, configs, parts) && |parts| < |configs|
    requires Exportable(t, tree, configs[|parts|]) && IsResults(t, tree, configs[|parts|], part)
    ensures AreResults(t, tree, configs, parts + [part])
  {
    hide Exportable, IsResults;
  }

  lemma NoParts<V>(t: Templates<V>, tree: Tree<V>, configs: seq<RunConfig>)
    ensures AreResults(t, tree, configs, []) && Written(configs, []) == [] && Concat([]) == []
  {
  }

  ghost predicate AllListable<V>(t: Templates<V>, tree: Tree<V>, configs: seq<RunConfig>) {
    forall cfg :: cfg in configs && !cfg.dryRun ==> Listable(t, tree, cfg)
  }

  /** Every iterate export that writes gives the same paths as were computed beforehand. */
  ghost predicate AllPathsAgree<V>(t: Templates<V>, tree: Tree<V>, configs: seq<RunConfig>) {
    forall cfg :: cfg in configs && !cfg.dryRun && cfg.iterate != "" ==> PathsAgree(t, tree, cfg)
  }

  ghost predicate AllDry(configs: seq<RunConfig>) {
    forall cfg :: cfg in configs ==> cfg.dryRun
  }

  /**
   Runs every export after a snapshot of all files they are going to write. A failed snapshot is no reason to stop.
   After a successful one, the file system can be rolled back to what it was, however the exports end, as long as the
   outputs lie outside the rollback directory and iterate patterns give the listed paths. Start is the file system
   after the snapshot.
   */
  method ExportAll<V>(fs: FileSystem, t: Templates<V>, tree: Tree<V>, configs: seq<RunConfig>)
    returns (ok: bool, results: seq<ExportResult>, ghost parts: seq<seq<ExportResult>>,
             ghost snapped: bool, ghost listed: seq<string>, ghost start: Files)
    requires SoundDir(fs.os, RollbackDir(FirstWorkspace(configs)))
    modifies fs
    ensures snapped && SoundPaths(fs.os, RollbackDir(FirstWorkspace(configs)), listed) && AllPathsAgree(t, tree, configs) ==>
              Recoverable(fs.os, RollbackDir(FirstWorkspace(configs)), listed, fs.files, old(fs.files))
    ensures !snapped ==>
              || (forall p :: !IsOutputOf(t, tree, configs, p)) || FirstWorkspace(configs) == ""
              || !AllListable(t, tree, configs) || fs.FaultSince(old(fs.ops))
    ensures AllListable(t, tree, configs) ==> forall p :: p in listed <==> IsOutputOf(t, tree, configs, p)
    ensures AllListable(t, tree, configs) ==> IsCollected(t, tree, configs, listed)
    ensures SoundPaths(fs.os, RollbackDir(FirstWorkspace(configs)), listed) ==>
              SameOutside(fs.os, RollbackDir(FirstWorkspace(configs)), old(fs.files), start)
    ensures AreResults(t, tree, configs, parts) && results == Concat(parts) && (ok ==> |parts| == |configs|)
    ensures ok ==> fs.files == AfterWriting(fs.os, start, Written(configs, parts))
    ensures !ok ==>
              || !AllListable(t, tree, configs) || fs.FaultSince(old(fs.ops))
              || (|parts| < |configs| && !Exportable(t, tree, configs[|parts|]))
    ensures fs.ops >= old(fs.ops)
    ensures !AllListable(t, tree, configs) || AllDry(configs) ==> fs.files == old(fs.files)
  {
    hide Lists, OnlyWrote, Recoverable, SoundPaths, SoundDir, SameOutside, PathsAgree, AfterWriting, Exportable, Listable, IsResults;
    hide IsOutput, IsCollected;
    snapped, parts, results, start := false, [], [], fs.files;
    var collected, wsDir, outputs := CollectOutputs(t, tree, configs);
    listed := outputs;
    ghost var workspace := FirstWorkspace(configs);
    SameOutsideItself(fs.os, RollbackDir(workspace), fs.files);
    if !collected {
      return false, [], parts, snapped, listed, start;
    }
    assert |outputs| > 0 ==> outputs[0] in listed && IsOutputOf(t, tree, configs, outputs[0]);
    if |outputs| > 0 && wsDir != "" {
      var saved := SaveRollbackSnapshot(fs, wsDir, outputs);
      snapped := saved;
    }
    start := fs.files;
    ok, results, parts := RunExports(fs, t, tree, configs, listed);
    if snapped && SoundPaths(fs.os, RollbackDir(workspace), listed) && AllPathsAgree(t, tree, configs) {
      OnlyListedWritten(fs.os, listed, start, fs.files);
      ListedWritesKeepRecoverable(fs.os, RollbackDir(workspace), listed, start, fs.files, old(fs.files));
    }
  }

  /** Runs every export in order, up to the first that fails. */
  method RunExports<V>(fs: FileSystem, t: Templates<V>, tree: Tree<V>, configs: seq<RunConfig>, ghost listed: seq<string>)
    returns (ok: bool, results: seq<ExportResult>, ghost parts: seq<seq<ExportResult>>)
    requires forall k :: 0 <= k < |configs| && !configs[k].dryRun ==> Lists(t, tree, configs[k], listed)
    modifies fs
    ensures AreResults(t, tree, configs, parts) && results == Concat(parts) && (ok ==> |parts| == |configs|)
    ensures ok ==> fs.files == AfterWriting(fs.os, old(fs.files), Written(configs, parts))
    ensures !ok ==> |parts| < |configs| && (!Exportable(t, tree, configs[|parts|]) || fs.FaultSince(old(fs.ops)))
    ensures fs.ops >= old(fs.ops)
    ensures AllPathsAgree(t, tree, configs) ==> OnlyWrote(fs.os, listed, old(fs.files), fs.files)
    ensures AllDry(configs) ==> fs.files == old(fs.files)
  {
    hide Lists, OnlyWrote, PathsAgree, AfterWriting, Exportable, IsResults, PathsWritten, Keys, IsFilePath, Listable, Strings.Split;
    hide AreResults, PartFits, Written, Concat;
    ghost var start := fs.files;
    parts, results := [], [];
    WroteNothing(fs.os, listed, start);
    WroteNoResults(fs.os, start);
    NoParts(t, tree, configs);
    ghost var agree := AllPathsAgree(t, tree, configs);
    for i := 0 to |configs|
      invariant agree ==> OnlyWrote(fs.os, listed, start, fs.files)
      invariant |parts| == i && AreResults(t, tree, configs, parts) && results == Concat(parts)
      invariant fs.files == AfterWriting(fs.os, start, Written(configs, parts))
      invariant AllDry(configs) ==> fs.files == old(fs.files)
      invariant fs.ops >= old(fs.ops)
    {
      var cfg := configs[i];
      ghost var before := fs.files;
      var fine, part := ExportConfig(fs, t, tree, cfg);
      if agree {
        ConfigStaysListed(fs.os, t, tree, cfg, listed, before, fs.files);
        WroteChain(fs.os, listed, start, before, fs.files);
      }
      if !fine {
        return false, results, parts;
      }
      PartDone(fs.os, configs, parts, part, start, before, fs.files);
      PartAdded(t, tree, configs, parts, part);
      results, parts := results + part, parts + [part];
    }
    return true, results, parts;
  }

  /** One configuration, iterated or not: its results, and the files after writing them unless the run is dry. */
  method ExportConfig<V>(fs: FileSystem, t: Templates<V>, tree: Tree<V>, cfg: RunConfig)
    returns (ok: bool, part: seq<ExportResult>)
    modifies fs
    ensures fs.ops >= old(fs.ops) && (!ok ==> !Exportable(t, tree, cfg) || fs.FaultSince(old(fs.ops)))
    ensures ok ==> Exportable(t, tree, cfg) && IsResults(t, tree, cfg, part)
    ensures ok && !cfg.dryRun ==> fs.files == AfterWriting(fs.os, old(fs.files), part)
    ensures cfg.dryRun ==> fs.files == old(fs.files)
    ensures OnlyWrote(fs.os, if cfg.iterate != "" then PathsWritten(t, tree, cfg) else [cfg.outputPath], old(fs.files), fs.files)
    ensures cfg.iterate != "" && (cfg.templatePath == "" || cfg.outputPattern == "") ==> fs.files == old(fs.files)
    ensures cfg.iterate == "" && !IsFilePath(cfg.outputPath) ==> fs.files == old(fs.files)
  {
    hide OnlyWrote, AfterWriting, Exportable, IsResults, PathsWritten, Keys, IsLed, Strings.Split;
    if cfg.iterate != "" {
      ok, part := ExportIterate(fs, t, tree, cfg);
    } else {
      var r := Export(fs, t, tree, cfg);
      ok := r.Some?;
      part := if r.Some? then [r.value] else [];
    }
  }

  lemma SameOutsideItself(os: OS, dir: string, files: Files)
    ensures SameOutside(os, dir, files, files)
  {
  }

  lemma OnlyListedWritten(os: OS, listed: seq<string>, before: Files, files: Files)
    requires OnlyWrote(os, listed, before, files)
    ensures forall f :: !ListedFile(os, listed, f) ==> SameFile(f, before, files)
  {
  }

  lemma ConfigStaysListed<V>(os: OS, t: Templates<V>, tree: Tree<V>, cfg: RunConfig, listed: seq<string>, before: Files, files: Files)
    requires cfg.dryRun ==> files == before
    requires !cfg.dryRun ==> Lists(t, tree, cfg, listed)
    requires !cfg.dryRun && cfg.iterate != "" ==> PathsAgree(t, tree, cfg)
    requires cfg.iterate != "" ==> OnlyWrote(os, PathsWritten(t, tree, cfg), before, files)
    requires cfg.iterate != "" && (cfg.templatePath == "" || cfg.outputPattern == "") ==> files == before
    requires cfg.iterate == "" ==> OnlyWrote(os, [cfg.outputPath], before, files)
    ensures OnlyWrote(os, listed, before, files)
  {
    if files == before {
      WroteNothing(os, listed, files);
    } else if cfg.iterate != "" {
      IterateStaysListed(os, t, tree, cfg, listed, before, files);
    } else {
      ListedGrows(os, [cfg.outputPath], listed, before, files);
    }
  }

  /**
   An export followed by a rollback in the workspace of the snapshot. Whatever the exports did and however they ended,
   the rollback fails for a disk fault only, and one that succeeds leaves every file outside the rollback directory as
   it was before the export.
   */
  method ExportThenRollback<V>(fs: FileSystem, t: Templates<V>, tree: Tree<V>, configs: seq<RunConfig>)
    returns (ok: bool, err: Option<RollbackError>, ghost snapped: bool, ghost listed: seq<string>)
    requires SoundDir(fs.os, RollbackDir(FirstWorkspace(configs)))
    modifies fs
    ensures AllListable(t, tree, configs) ==> forall p :: p in listed <==> IsOutputOf(t, tree, configs, p)
    ensures !snapped ==>
              || (forall p :: !IsOutputOf(t, tree, configs, p)) || FirstWorkspace(configs) == ""
              || !AllListable(t, tree, configs) || fs.FaultSince(old(fs.ops))
    ensures snapped && SoundPaths(fs.os, RollbackDir(FirstWorkspace(configs)), listed) && AllPathsAgree(t, tree, configs) ==>
              && (err.None? ==> SameOutside(fs.os, RollbackDir(FirstWorkspace(configs)), fs.files, old(fs.files)))
              && (err.Some? ==> fs.FaultSince(old(fs.ops)))
              && (err.Some? ==> Recoverable(fs.os, RollbackDir(FirstWorkspace(configs)), listed, fs.files, old(fs.files)))
  {
    hide Recoverable, SameOutside, SoundPaths, SoundDir, AllPathsAgree, AllListable, IsOutputOf;
    var results;
    ghost var parts, start;
    ok, results, parts, snapped, listed, start := ExportAll(fs, t, tree, configs);
    err := Rollback.Rollback(fs, FirstWorkspace(configs), listed, old(fs.files));
  }
}
