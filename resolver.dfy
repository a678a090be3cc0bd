/** `getFileInformation` of src/utils.js: for a Component or Container file,
    find its counterpart of the opposite role on disk, or the directories
    where one could be created.

    The file system is the set of paths that exist; `existsSync(p)` is
    `p in fs`. */
module Resolver {
  import opened Wrappers
  import opened NodePath
  import opened Tables
  import opened Classifier

  /** The two values of the `errors` module the resolver returns. */
  datatype ErrorKind = CouldNotDetermine | CouldNotFind

  /** The object `getFileInformation` returns: either the bare
      `{error: ...}` object, or the filled-in `info` object. `otherPath`
      is None where the source stores ''. */
  datatype FileInfo =
    | Failed(kind: ErrorKind)
    | Info(path: Path, extension: string, name: string,
           fileType: FileType, otherType: FileType, isStandalone: bool,
           otherParentPaths: seq<Path>, otherPath: Option<Path>,
           error: Option<ErrorKind>)

  /** What the resolver infers about the file before it probes the disk:
      the entity's name, the role folder it was found under
      (`thisFolderPath`), its layout, and the position of that role
      folder's name in its table (`thatPathIndex`). */
  datatype Layout = Layout(name: string, thisFolderPath: Path, isStandalone: bool, thatPathIndex: nat)

  /** Name and layout, decided in the source's order: a file directly in a
      role folder is named by its stem; otherwise an `index` file whose
      grandparent is a role folder is named by its parent directory. */
  function Locate(filePath: Path, thisFolders: seq<string>): (r: Option<Layout>)
    ensures r.Some? <==>
              ParentName(filePath) in thisFolders ||
              (Stem(Basename(filePath)) == "index" && GrandParentName(filePath) in thisFolders)
    ensures r.Some? ==>
              r.value.thisFolderPath == (if ParentName(filePath) in thisFolders then Parent(filePath) else Parent(Parent(filePath)))
    ensures r.Some? ==> (r.value.isStandalone <==> ParentName(filePath) !in thisFolders)
    ensures r.Some? ==> r.value.thatPathIndex < |thisFolders|
    ensures r.Some? ==> r.value.thatPathIndex == IndexOf(thisFolders, Basename(r.value.thisFolderPath))
    ensures r.Some? ==> thisFolders[r.value.thatPathIndex] == Basename(r.value.thisFolderPath)
  {
    var fileName := Stem(Basename(filePath));
    if ParentName(filePath) in thisFolders then
      Some(Layout(fileName, Parent(filePath), false, IndexOf(thisFolders, ParentName(filePath))))
    else if fileName == "index" && GrandParentName(filePath) in thisFolders then
      Some(Layout(ParentName(filePath), Parent(Parent(filePath)), true, IndexOf(thisFolders, GrandParentName(filePath))))
    else None
  }

  /** One iteration of the nested loops: an extension and a folder name of
      the opposite role. */
  datatype Probe = Probe(ext: string, folder: string)

  /** The probes for one extension, in folder order. */
  function Row(ext: string, folders: seq<string>): (r: seq<Probe>)
    ensures folders != [] ==> r != [] && r[0] == Probe(ext, folders[0])
  {
    if folders == [] then []
    else Row(ext, folders[..|folders| - 1]) + [Probe(ext, folders[|folders| - 1])]
  }

  /** All probes, extension by extension (the outer loop) and folder by
      folder (the inner loop). */
  function Pairs(exts: seq<string>, folders: seq<string>): (r: seq<Probe>)
    ensures exts != [] && folders != [] ==> r != [] && r[0] == Probe(exts[0], folders[0])
  {
    if exts == [] then []
    else Pairs(exts[..|exts| - 1], folders) + Row(exts[|exts| - 1], folders)
  }

  /** The probe lists of lines 211-215: own extension first, then the
      suggested folder name of the opposite role first. */
  function ProbePairs(extension: string, thatFolders: seq<string>, l: Layout): (r: seq<Probe>)
    requires l.thatPathIndex < |thatFolders|
    ensures r != [] && r[0] == Probe(extension, thatFolders[l.thatPathIndex])
  {
    Pairs(Reordered(extension, ValidExtensions), Reordered(thatFolders[l.thatPathIndex], thatFolders))
  }

  /** `path.resolve(path.join(thisFolderPath, '..', thatFolderName))`. */
  function ThatParentPath(l: Layout, folder: string): (r: Path)
    ensures Basename(r) == folder && Parent(r) == Parent(l.thisFolderPath)
  {
    Parent(l.thisFolderPath) + [folder]
  }

  /** The counterpart in folder layout: `<dir>/<name>/index<ext>`. */
  function FolderPath(l: Layout, p: Probe): (r: Path)
    ensures Parent(Parent(r)) == ThatParentPath(l, p.folder)
    ensures Basename(Parent(r)) == l.name && Basename(r) == "index" + p.ext
  {
    ThatParentPath(l, p.folder) + [l.name, "index" + p.ext]
  }

  /** The counterpart as a file by itself: `<dir>/<name><ext>`. */
  function StandalonePath(l: Layout, p: Probe): (r: Path)
    ensures Parent(r) == ThatParentPath(l, p.folder) && Basename(r) == l.name + p.ext
  {
    ThatParentPath(l, p.folder) + [l.name + p.ext]
  }

  /** The layout tried first: folder layout when the file is `isStandalone`,
      the standalone file otherwise. */
  function FirstCandidate(l: Layout, p: Probe): (r: Path)
    ensures r == FolderPath(l, p) || r == StandalonePath(l, p)
    ensures Parent(r) == ThatParentPath(l, p.folder) <==> !l.isStandalone
  {
    if l.isStandalone then FolderPath(l, p) else StandalonePath(l, p)
  }

  /** The other layout. */
  function SecondCandidate(l: Layout, p: Probe): (r: Path)
    ensures r == FolderPath(l, p) || r == StandalonePath(l, p)
    ensures r != FirstCandidate(l, p)
  {
    if l.isStandalone then StandalonePath(l, p) else FolderPath(l, p)
  }

  /** A probe succeeds when its directory exists and one of its two
      candidates exists. */
  predicate Hit(fs: set<Path>, l: Layout, p: Probe)
  {
    ThatParentPath(l, p.folder) in fs && (FirstCandidate(l, p) in fs || SecondCandidate(l, p) in fs)
  }

  /** The candidate a successful probe returns. */
  function Chosen(fs: set<Path>, l: Layout, p: Probe): Path
  {
    if FirstCandidate(l, p) in fs then FirstCandidate(l, p) else SecondCandidate(l, p)
  }

  /** Position of the first successful probe, or the number of probes. */
  function FirstHit(fs: set<Path>, l: Layout, pairs: seq<Probe>): (k: nat)
    ensures k <= |pairs|
    ensures forall j | 0 <= j < k :: !Hit(fs, l, pairs[j])
    ensures k < |pairs| ==> Hit(fs, l, pairs[k])
  {
    if pairs == [] then 0
    else if Hit(fs, l, pairs[0]) then 0
    else
      var k := FirstHit(fs, l, pairs[1..]);
      assert forall j | 0 <= j < k :: pairs[1..][j] == pairs[j + 1];
      1 + k
  }

  /** Whether `paths` already holds `q` up to case: the negation of the
      `filter(...).length === 0` test. */
  predicate HasIgnoringCase(paths: seq<Path>, q: Path)
  {
    paths != [] && (HasIgnoringCase(paths[..|paths| - 1], q) || SameIgnoringCase(paths[|paths| - 1], q))
  }

  lemma {:induction false} HasIgnoringCaseIff(paths: seq<Path>, q: Path)
    ensures HasIgnoringCase(paths, q) <==> exists p | p in paths :: SameIgnoringCase(p, q)
  {
    if paths != [] {
      var init := paths[..|paths| - 1];
      HasIgnoringCaseIff(init, q);
      assert paths == init + [paths[|paths| - 1]];
    }
  }

  /** The directories `otherParentPaths` holds after the probes `pairs`:
      each probe's directory is appended when it exists and no directory
      equal to it up to case is there yet. */
  function Recorded(fs: set<Path>, l: Layout, pairs: seq<Probe>): (r: seq<Path>)
    ensures |r| <= |pairs|
  {
    if pairs == [] then []
    else
      var kept := Recorded(fs, l, pairs[..|pairs| - 1]);
      var dir := ThatParentPath(l, pairs[|pairs| - 1].folder);
      if dir in fs && !HasIgnoringCase(kept, dir) then kept + [dir] else kept
  }

  /** Every recorded directory exists and is the directory of one of the
      probes. */
  lemma {:induction false} RecordedSound(fs: set<Path>, l: Layout, pairs: seq<Probe>)
    ensures forall q | q in Recorded(fs, l, pairs) ::
              q in fs && exists k | 0 <= k < |pairs| :: q == ThatParentPath(l, pairs[k].folder)
  {
    if pairs != [] {
      var n := |pairs| - 1;
      var init := pairs[..n];
      RecordedSound(fs, l, init);
      forall q | q in Recorded(fs, l, pairs)
        ensures q in fs && exists k | 0 <= k < |pairs| :: q == ThatParentPath(l, pairs[k].folder)
      {
        if q in Recorded(fs, l, init) {
          var k :| 0 <= k < |init| && q == ThatParentPath(l, init[k].folder);
          assert pairs[k] == init[k];
        } else {
          assert q == ThatParentPath(l, pairs[n].folder);
        }
      }
    }
  }

  /** Every probe directory that exists is recorded, up to case. */
  lemma {:induction false} RecordedCovers(fs: set<Path>, l: Layout, pairs: seq<Probe>)
    ensures forall k | 0 <= k < |pairs| && ThatParentPath(l, pairs[k].folder) in fs ::
              exists q | q in Recorded(fs, l, pairs) :: SameIgnoringCase(q, ThatParentPath(l, pairs[k].folder))
  {
    if pairs != [] {
      var n := |pairs| - 1;
      var init := pairs[..n];
      var kept := Recorded(fs, l, init);
      var dir := ThatParentPath(l, pairs[n].folder);
      var all := Recorded(fs, l, pairs);
      assert kept <= all;
      RecordedCovers(fs, l, init);
      HasIgnoringCaseIff(kept, dir);
      forall k | 0 <= k < |pairs| && ThatParentPath(l, pairs[k].folder) in fs
        ensures exists q | q in all :: SameIgnoringCase(q, ThatParentPath(l, pairs[k].folder))
      {
        if k < n {
          assert pairs[k] == init[k];
          var q :| q in kept && SameIgnoringCase(q, ThatParentPath(l, init[k].folder));
          assert q in all;
        } else if HasIgnoringCase(kept, dir) {
          var q :| q in kept && SameIgnoringCase(q, dir);
          assert q in all;
        } else {
          assert dir in all;
        }
      }
    }
  }

  /** No two of `paths` are equal up to case. */
  predicate DistinctIgnoringCase(paths: seq<Path>)
  {
    forall i, j | 0 <= i < j < |paths| :: !SameIgnoringCase(paths[i], paths[j])
  }

  /** No two recorded directories are equal up to case. */
  lemma {:induction false} RecordedDistinct(fs: set<Path>, l: Layout, pairs: seq<Probe>)
    ensures DistinctIgnoringCase(Recorded(fs, l, pairs))
  {
    if pairs != [] {
      var init := pairs[..|pairs| - 1];
      var kept := Recorded(fs, l, init);
      var dir := ThatParentPath(l, pairs[|pairs| - 1].folder);
      RecordedDistinct(fs, l, init);
      HasIgnoringCaseIff(kept, dir);
      if dir in fs && !HasIgnoringCase(kept, dir) {
        var r := kept + [dir];
        assert Recorded(fs, l, pairs) == r;
        forall i, j | 0 <= i < j < |r| ensures !SameIgnoringCase(r[i], r[j]) {
          assert r[i] == kept[i];
          if j == |kept| {
            assert r[j] == dir;
          } else {
            assert r[j] == kept[j];
          }
        }
      } else {
        assert Recorded(fs, l, pairs) == kept;
      }
    }
  }

  /** The positions of the probes whose directories `Recorded` keeps, one
      per recorded directory. */
  function RecordedAt(fs: set<Path>, l: Layout, pairs: seq<Probe>): (m: seq<nat>)
    ensures |m| == |Recorded(fs, l, pairs)|
  {
    if pairs == [] then []
    else
      var kept := Recorded(fs, l, pairs[..|pairs| - 1]);
      var dir := ThatParentPath(l, pairs[|pairs| - 1].folder);
      var before := RecordedAt(fs, l, pairs[..|pairs| - 1]);
      if dir in fs && !HasIgnoringCase(kept, dir) then before + [|pairs| - 1] else before
  }

  /** `dirs` lists directories of the probes `pairs` in the order they were
      first found: `dirs[i]` is the directory of probe `at[i]`, the probes
      `at` come in increasing order, and every existing directory probed
      before `at[i]` is already among `dirs[..i]` up to case. */
  predicate InDiscoveryOrder(fs: set<Path>, l: Layout, pairs: seq<Probe>, dirs: seq<Path>, at: seq<nat>)
  {
    && |at| == |dirs|
    && (forall i | 0 <= i < |dirs| :: at[i] < |pairs| && dirs[i] == ThatParentPath(l, pairs[at[i]].folder))
    && (forall i, j | 0 <= i < j < |dirs| :: at[i] < at[j])
    && (forall i | 0 <= i < |dirs| ::
          forall k | 0 <= k < at[i] && k < |pairs| && ThatParentPath(l, pairs[k].folder) in fs ::
            HasIgnoringCase(dirs[..i], ThatParentPath(l, pairs[k].folder)))
  }

  /** The recorded directories are in the order their probes were made. */
  lemma {:induction false} RecordedInOrder(fs: set<Path>, l: Layout, pairs: seq<Probe>)
    ensures InDiscoveryOrder(fs, l, pairs, Recorded(fs, l, pairs), RecordedAt(fs, l, pairs))
  {
    if pairs != [] {
      var n := |pairs| - 1;
      var init := pairs[..n];
      var kept, before := Recorded(fs, l, init), RecordedAt(fs, l, init);
      var dir := ThatParentPath(l, pairs[n].folder);
      RecordedInOrder(fs, l, init);
      if dir in fs && !HasIgnoringCase(kept, dir) {
        RecordedCovers(fs, l, init);
        forall k | 0 <= k < n ensures pairs[k] == init[k] { }
        AppendInOrder(fs, l, pairs, kept, before);
      } else {
        assert Recorded(fs, l, pairs) == kept && RecordedAt(fs, l, pairs) == before;
        KeepInOrder(fs, l, pairs, kept, before);
      }
    }
  }

  /** The last probe records nothing: the order is kept. */
  lemma KeepInOrder(fs: set<Path>, l: Layout, pairs: seq<Probe>, dirs: seq<Path>, at: seq<nat>)
    requires pairs != []
    requires InDiscoveryOrder(fs, l, pairs[..|pairs| - 1], dirs, at)
    ensures InDiscoveryOrder(fs, l, pairs, dirs, at)
  {
    var init := pairs[..|pairs| - 1];
    forall k | 0 <= k < |init| ensures pairs[k] == init[k] { }
  }

  /** The last probe records its directory, which is new up to case. */
  lemma AppendInOrder(fs: set<Path>, l: Layout, pairs: seq<Probe>, dirs: seq<Path>, at: seq<nat>)
    requires pairs != []
    requires InDiscoveryOrder(fs, l, pairs[..|pairs| - 1], dirs, at)
    requires forall k | 0 <= k < |pairs| - 1 && ThatParentPath(l, pairs[k].folder) in fs ::
               exists q | q in dirs :: SameIgnoringCase(q, ThatParentPath(l, pairs[k].folder))
    ensures InDiscoveryOrder(fs, l, pairs, dirs + [ThatParentPath(l, pairs[|pairs| - 1].folder)], at + [|pairs| - 1])
  {
    var n := |pairs| - 1;
    var init := pairs[..n];
    var r, m := dirs + [ThatParentPath(l, pairs[n].folder)], at + [n];
    forall k | 0 <= k < n ensures pairs[k] == init[k] { }
    forall i | 0 <= i < |r| ensures m[i] < |pairs| && r[i] == ThatParentPath(l, pairs[m[i]].folder) {
      if i < |dirs| {
        assert r[i] == dirs[i] && m[i] == at[i];
      }
    }
    forall i, k | 0 <= i < |r| && 0 <= k < m[i] && k < |pairs| && ThatParentPath(l, pairs[k].folder) in fs
      ensures HasIgnoringCase(r[..i], ThatParentPath(l, pairs[k].folder))
    {
      var q := ThatParentPath(l, pairs[k].folder);
      if i < |dirs| {
        assert r[..i] == dirs[..i] && m[i] == at[i];
      } else {
        assert r[..i] == dirs;
        HasIgnoringCaseIff(dirs, q);
      }
    }
  }

  /** The specification of `getFileInformation` against the file system
      `fs`. */
  function InfoOf(fs: set<Path>, filePath: Path): (r: FileInfo)
    ensures r.Info? ==> r.path == filePath && r.name != "" && r.fileType == DetectFileType(filePath) != Indeterminate
    ensures r.Info? ==> r.otherType == Opposite(r.fileType) && (r.otherPath.Some? <==> r.error.None?)
  {
    var t := DetectFileType(filePath);
    if t == Indeterminate then Failed(CouldNotDetermine)
    else
      match Locate(filePath, FoldersOf(t))
      case None => Failed(CouldNotFind)
      case Some(l) =>
        if l.name == "" then Failed(CouldNotFind)
        else
          var extension := ExtName(Basename(filePath));
          Outcome(fs, filePath, extension, t, l, ProbePairs(extension, FoldersOf(Opposite(t)), l))
  }

  /** What the nested loops leave behind: the directories recorded and
      the counterpart found, if any. */
  datatype Search = Search(dirs: seq<Path>, found: Option<Path>)

  /** The loops stop at the first successful probe, having recorded the
      directories up to and including it; without one, they record the
      directories of all the probes. */
  function SearchResult(fs: set<Path>, l: Layout, pairs: seq<Probe>): Search
  {
    var k := FirstHit(fs, l, pairs);
    if k < |pairs| then Search(Recorded(fs, l, pairs[..k + 1]), Some(Chosen(fs, l, pairs[k])))
    else Search(Recorded(fs, l, pairs), None)
  }

  /** The result once the file is located. */
  function Outcome(fs: set<Path>, filePath: Path, extension: string, t: FileType, l: Layout, pairs: seq<Probe>): FileInfo
  {
    var r := SearchResult(fs, l, pairs);
    Info(filePath, extension, l.name, t, Opposite(t), l.isStandalone,
         r.dirs, r.found, if r.found.Some? then None else Some(CouldNotFind))
  }

  /** `getFileInformation(filePath)`, as the source computes it: field by
      field, then the nested loops over extensions and folder names with an
      early return on the first counterpart that exists. */
  method GetFileInformation(fs: set<Path>, filePath: Path) returns (info: FileInfo)
    ensures info == InfoOf(fs, filePath)
  {
    var extension := ExtName(Basename(filePath));
    var fileName := Stem(Basename(filePath));
    var parentPath := Parent(filePath);
    var parentName := Basename(parentPath);
    var grandParentPath := Parent(parentPath);
    var grandParentName := Basename(grandParentPath);

    var fileType := DetectFileType(filePath);
    var thisFolders, thatFolders, otherType;
    match fileType {
      case Component =>
        thisFolders, thatFolders, otherType := ValidComponentFolders, ValidContainerFolders, Container;
      case Container =>
        thisFolders, thatFolders, otherType := ValidContainerFolders, ValidComponentFolders, Component;
      case Indeterminate =>
        return Failed(CouldNotDetermine);
    }

    var name := "";
    var thisFolderPath: Option<Path> := None;
    var isStandalone := false;
    var thatPathIndex := IndexOf(thisFolders, parentName);
    if thatPathIndex != -1 {
      name := fileName;
      thisFolderPath := Some(parentPath);
      isStandalone := false;
    } else {
      thatPathIndex := IndexOf(thisFolders, grandParentName);
      if fileName == "index" && thatPathIndex != -1 {
        name := parentName;
        thisFolderPath := Some(grandParentPath);
        isStandalone := true;
      }
    }
    if name == "" || thisFolderPath == None {
      return Failed(CouldNotFind);
    }

    var anchor := thisFolderPath.value;
    var suggestedFolderName := thatFolders[thatPathIndex];
    var exts := Reordered(extension, ValidExtensions);
    var folders := Reordered(suggestedFolderName, thatFolders);
    var l := Layout(name, anchor, isStandalone, thatPathIndex as nat);
    assert Locate(filePath, FoldersOf(fileType)) == Some(l);
    assert thatFolders == FoldersOf(Opposite(fileType));
    InfoOfLocated(fs, filePath, l);

    var otherParentPaths, otherPath := SearchCounterpart(fs, l, exts, folders);
    if otherPath.Some? {
      return Info(filePath, extension, name, fileType, otherType, isStandalone,
                  otherParentPaths, otherPath, None);
    }
    return Info(filePath, extension, name, fileType, otherType, isStandalone,
                otherParentPaths, None, Some(CouldNotFind));
  }

  /** The nested loops of lines 217-285: for each extension and each folder
      name of the opposite role, record the folder if it exists (once, up to
      case) and probe the two layouts inside it in the order the file's own
      layout dictates, stopping at the first file that exists. */
  method SearchCounterpart(fs: set<Path>, l: Layout, exts: seq<string>, folders: seq<string>)
    returns (otherParentPaths: seq<Path>, otherPath: Option<Path>)
    ensures Search(otherParentPaths, otherPath) == SearchResult(fs, l, Pairs(exts, folders))
  {
    ghost var all := Pairs(exts, folders);
    otherParentPaths := [];
    ghost var done: seq<Probe> := [];
    for i := 0 to |exts|
      invariant done == Pairs(exts[..i], folders)
      invariant done <= all
      invariant NoHit(fs, l, done)
      invariant otherParentPaths == Recorded(fs, l, done)
    {
      var ext := exts[i];
      for j := 0 to |folders|
        invariant done == Pairs(exts[..i], folders) + Row(ext, folders[..j])
        invariant NoHit(fs, l, done)
        invariant otherParentPaths == Recorded(fs, l, done)
      {
        var thatFolderName := folders[j];
        ghost var probe := Probe(ext, thatFolderName);
        ghost var next := done + [probe];
        assert next <= all && next == Pairs(exts[..i], folders) + Row(ext, folders[..j + 1]) by {
          StepPrefix(exts, folders, i, j);
        }
        var thatParentPath := Parent(l.thisFolderPath) + [thatFolderName];
        if thatParentPath in fs {
          otherParentPaths := RecordParent(otherParentPaths, thatParentPath);
          assert otherParentPaths == Recorded(fs, l, next) by {
            RecordStep(fs, l, done, probe);
          }
          var thatPathFolder := thatParentPath + [l.name, "index" + ext];
          var thatPathStandalone := thatParentPath + [l.name + ext];
          // the layout of this file decides which of the two is tried first
          var first, second := thatPathStandalone, thatPathFolder;
          if l.isStandalone {
            first, second := thatPathFolder, thatPathStandalone;
          }
          assert first == FirstCandidate(l, probe) && second == SecondCandidate(l, probe);
          otherPath := Some(first);
          if first in fs {
            FoundAt(fs, l, all, done, probe);
            return;
          }
          otherPath := Some(second);
          if second in fs {
            FoundAt(fs, l, all, done, probe);
            return;
          }
        } else {
          assert otherParentPaths == Recorded(fs, l, next) by {
            RecordStep(fs, l, done, probe);
          }
        }
        assert NoHit(fs, l, next) by {
          NoHitStep(fs, l, done, probe);
        }
        done := next;
      }
      assert done == Pairs(exts[..i + 1], folders) && done <= all by {
        PairsStep(exts, folders, i);
        assert folders[..|folders|] == folders;
        PairsPrefix(exts, folders, i + 1);
      }
    }
    assert done == all by {
      assert exts[..|exts|] == exts;
    }
    NotFound(fs, l, all);
    otherPath := None;
  }

  /** Appends `dir` to the recorded directories unless it is there
      already, with the same spelling or with another case. */
  method RecordParent(paths: seq<Path>, dir: Path) returns (r: seq<Path>)
    ensures r == if HasIgnoringCase(paths, dir) then paths else paths + [dir]
  {
    r := paths;
    HasIgnoringCaseIff(paths, dir);
    if dir !in paths {
      if forall p | p in paths :: !SameIgnoringCase(p, dir) {
        r := paths + [dir];
      }
    } else {
      assert SameIgnoringCase(dir, dir);
    }
  }

  /** No probe of `pairs` succeeds. */
  predicate NoHit(fs: set<Path>, l: Layout, pairs: seq<Probe>)
  {
    forall k | 0 <= k < |pairs| :: !Hit(fs, l, pairs[k])
  }

  lemma NoHitStep(fs: set<Path>, l: Layout, done: seq<Probe>, p: Probe)
    requires NoHit(fs, l, done) && !Hit(fs, l, p)
    ensures NoHit(fs, l, done + [p])
  {
    var s := done + [p];
    forall k | 0 <= k < |s| ensures !Hit(fs, l, s[k]) {
      if k < |done| { assert s[k] == done[k]; } else { assert s[k] == p; }
    }
  }

  lemma NotFound(fs: set<Path>, l: Layout, all: seq<Probe>)
    requires NoHit(fs, l, all)
    ensures SearchResult(fs, l, all) == Search(Recorded(fs, l, all), None)
  {
  }

  /** Once the file is located, the result is the outcome of its probes. */
  lemma InfoOfLocated(fs: set<Path>, filePath: Path, l: Layout)
    requires DetectFileType(filePath) != Indeterminate
    requires Locate(filePath, FoldersOf(DetectFileType(filePath))) == Some(l)
    requires l.name != ""
    ensures var t := DetectFileType(filePath);
            var extension := ExtName(Basename(filePath));
            InfoOf(fs, filePath) == Outcome(fs, filePath, extension, t, l, ProbePairs(extension, FoldersOf(Opposite(t)), l))
  {
  }

  /** Recording one more probe's directory. */
  lemma RecordStep(fs: set<Path>, l: Layout, done: seq<Probe>, p: Probe)
    ensures var dir := ThatParentPath(l, p.folder);
            var kept := Recorded(fs, l, done);
            Recorded(fs, l, done + [p]) ==
              if dir in fs && !HasIgnoringCase(kept, dir) then kept + [dir] else kept
  {
    assert (done + [p])[..|done|] == done;
  }

  /** The probes of one more extension follow those of the ones before. */
  lemma PairsStep(exts: seq<string>, folders: seq<string>, i: nat)
    requires i < |exts|
    ensures Pairs(exts[..i + 1], folders) == Pairs(exts[..i], folders) + Row(exts[i], folders)
  {
    assert exts[..i + 1][..i] == exts[..i];
  }

  /** When every probe before `p` failed and `p` succeeds, `p` is the first
      successful probe. */
  lemma FoundAt(fs: set<Path>, l: Layout, all: seq<Probe>, done: seq<Probe>, p: Probe)
    requires done + [p] <= all
    requires NoHit(fs, l, done)
    requires Hit(fs, l, p)
    ensures SearchResult(fs, l, all) == Search(Recorded(fs, l, done + [p]), Some(Chosen(fs, l, p)))
  {
    var n := |done|;
    assert all[..n + 1] == done + [p];
    assert forall j | 0 <= j < n :: all[j] == done[j];
    FirstHitAt(fs, l, all, n);
  }

  /** A successful probe with only failed probes before it is the first. */
  lemma FirstHitAt(fs: set<Path>, l: Layout, pairs: seq<Probe>, k: nat)
    requires k < |pairs| && Hit(fs, l, pairs[k])
    requires forall j | 0 <= j < k :: !Hit(fs, l, pairs[j])
    ensures FirstHit(fs, l, pairs) == k
  {
  }

  /** The probe for folder `j` of extension `i` continues the probes made
      before it, and these are a prefix of all the probes. */
  lemma StepPrefix(exts: seq<string>, folders: seq<string>, i: nat, j: nat)
    requires i < |exts| && j < |folders|
    ensures Pairs(exts[..i], folders) + Row(exts[i], folders[..j + 1]) ==
            Pairs(exts[..i], folders) + Row(exts[i], folders[..j]) + [Probe(exts[i], folders[j])]
    ensures Pairs(exts[..i], folders) + Row(exts[i], folders[..j]) + [Probe(exts[i], folders[j])] <= Pairs(exts, folders)
  {
    assert folders[..j + 1][..j] == folders[..j];
    RowPrefix(exts[i], folders, j + 1);
    PairsStep(exts, folders, i);
    PairsPrefix(exts, folders, i + 1);
    PrefixOfPrefix(Pairs(exts[..i], folders), Row(exts[i], folders[..j + 1]), Row(exts[i], folders), Pairs(exts, folders));
  }

  /** A prefix of a prefix is a prefix. */
  lemma PrefixOfPrefix<T>(a: seq<T>, r: seq<T>, row: seq<T>, c: seq<T>)
    requires r <= row && a + row <= c
    ensures a + r <= c
  {
    assert a + r == (a + row)[..|a + r|];
  }

  /** The probes for the first `j` folders come first in a row. */
  lemma {:induction false} RowPrefix(ext: string, folders: seq<string>, j: nat)
    requires j <= |folders|
    ensures Row(ext, folders[..j]) <= Row(ext, folders)
  {
    if j < |folders| {
      var init := folders[..|folders| - 1];
      assert init[..j] == folders[..j];
      RowPrefix(ext, init, j);
    } else {
      assert folders[..j] == folders;
    }
  }

  /** The probes of the first `i` extensions come first among all probes. */
  lemma {:induction false} PairsPrefix(exts: seq<string>, folders: seq<string>, i: nat)
    requires i <= |exts|
    ensures Pairs(exts[..i], folders) <= Pairs(exts, folders)
  {
    if i < |exts| {
      var init := exts[..|exts| - 1];
      assert init[..i] == exts[..i];
      PairsPrefix(init, folders, i);
    } else {
      assert exts[..i] == exts;
    }
  }

}
