/** What `getFileInformation` promises, proved about its specification
    `InfoOf`: the shape of the probe lists, the order of the probes, the
    counterpart found and the directories recorded. */
module ResolverProperties {
  import opened Wrappers
  import opened NodePath
  import opened Tables
  import opened Classifier
  import opened Resolver

  // ---------------------------------------------------------------------
  // The probe lists

  lemma {:induction false} RowLength(ext: string, folders: seq<string>)
    ensures |Row(ext, folders)| == |folders|
  {
    if folders != [] {
      RowLength(ext, folders[..|folders| - 1]);
    }
  }

  lemma {:induction false} RowAt(ext: string, folders: seq<string>, j: nat)
    requires j < |folders|
    ensures |Row(ext, folders)| == |folders| && Row(ext, folders)[j] == Probe(ext, folders[j])
  {
    var init := folders[..|folders| - 1];
    RowLength(ext, folders);
    RowLength(ext, init);
    if j < |init| {
      RowAt(ext, init, j);
    }
  }

  /** The search makes one probe per extension and folder name. */
  lemma {:induction false} PairsLength(exts: seq<string>, folders: seq<string>)
    ensures |Pairs(exts, folders)| == |exts| * |folders|
  {
    if exts != [] {
      var init := exts[..|exts| - 1];
      PairsLength(init, folders);
      RowLength(exts[|exts| - 1], folders);
      assert |exts| * |folders| == |init| * |folders| + |folders|;
    }
  }

  /** The probes run extension by extension and, for each extension, folder
      by folder: the probe of extension `i` and folder `j` is number
      `i * |folders| + j`. */
  lemma {:induction false} PairsAt(exts: seq<string>, folders: seq<string>, i: nat, j: nat)
    requires i < |exts| && j < |folders|
    ensures i * |folders| + j < |Pairs(exts, folders)|
    ensures Pairs(exts, folders)[i * |folders| + j] == Probe(exts[i], folders[j])
  {
    var n := |exts| - 1;
    var init := exts[..n];
    var f := |folders|;
    PairsLength(exts, folders);
    PairsLength(init, folders);
    RowLength(exts[n], folders);
    assert Pairs(exts, folders) == Pairs(init, folders) + Row(exts[n], folders);
    if i < n {
      PairsAt(init, folders, i, j);
      EarlierRowFirst(i, n, f, j);
      assert init[i] == exts[i];
    } else {
      RowAt(exts[n], folders, j);
    }
  }

  /** Probe `j` of row `i` comes before row `n` when `i < n`. */
  lemma {:induction false} EarlierRowFirst(i: nat, n: nat, f: nat, j: nat)
    requires i < n && j < f
    ensures i * f + j < n * f
    decreases n - i
  {
    if i + 1 < n {
      EarlierRowFirst(i + 1, n, f, j);
    }
  }

  /** The outer loop runs over extensions and the inner one over folder
      names: every probe of an earlier extension comes before every probe of
      a later one, and for one extension the folder names come in list
      order. */
  lemma ProbeOrder(exts: seq<string>, folders: seq<string>, i: nat, j: nat, n: nat, j2: nat)
    requires i < |exts| && n < |exts| && j < |folders| && j2 < |folders|
    requires i < n || (i == n && j < j2)
    ensures var a, b := i * |folders| + j, n * |folders| + j2;
            && a < b < |Pairs(exts, folders)|
            && Pairs(exts, folders)[a] == Probe(exts[i], folders[j])
            && Pairs(exts, folders)[b] == Probe(exts[n], folders[j2])
  {
    PairsAt(exts, folders, i, j);
    PairsAt(exts, folders, n, j2);
    if i < n {
      EarlierRowFirst(i, n, |folders|, j);
    }
  }

  /** Every probe pairs a listed extension with a listed folder name. */
  lemma {:induction false} PairsMembers(exts: seq<string>, folders: seq<string>)
    ensures forall k | 0 <= k < |Pairs(exts, folders)| ::
              Pairs(exts, folders)[k].ext in exts && Pairs(exts, folders)[k].folder in folders
  {
    if exts != [] {
      var n := |exts| - 1;
      var init := exts[..n];
      var ps := Pairs(exts, folders);
      var front := Pairs(init, folders);
      PairsMembers(init, folders);
      RowLength(exts[n], folders);
      forall k | 0 <= k < |ps| ensures ps[k].ext in exts && ps[k].folder in folders {
        if k < |front| {
          assert ps[k] == front[k];
          assert front[k].ext in init;
        } else {
          RowAt(exts[n], folders, k - |front|);
          assert ps[k] == Row(exts[n], folders)[k - |front|];
        }
      }
    }
  }

  /** The extension list of line 214 starts with the file's own extension
      and holds every valid extension once; when the own extension is a
      valid one it is a reordering of the table. */
  lemma ExtensionList(extension: string)
    ensures Reordered(extension, ValidExtensions)[0] == extension
    ensures Distinct(Reordered(extension, ValidExtensions))
    ensures forall e :: e in Reordered(extension, ValidExtensions) <==> e == extension || e in ValidExtensions
    ensures extension in ValidExtensions ==> multiset(Reordered(extension, ValidExtensions)) == multiset(ValidExtensions)
    ensures |Reordered(extension, ValidExtensions)| == if extension in ValidExtensions then 4 else 5
  {
    assert |ValidExtensions| == 4;
    TablesDistinct();
    ReorderedIsPermutation(extension, ValidExtensions);
  }

  /** After the own extension the others follow in the table's order: the
      whole table for an unlisted extension, the table without the own
      extension otherwise. */
  lemma ExtensionListOrder(extension: string)
    ensures extension !in ValidExtensions ==> Reordered(extension, ValidExtensions) == [extension] + ValidExtensions
    ensures extension in ValidExtensions ==>
              var i := IndexOf(ValidExtensions, extension);
              Reordered(extension, ValidExtensions) == [extension] + ValidExtensions[..i] + ValidExtensions[i + 1..]
  {
    TablesDistinct();
    ReorderedOrder(extension, ValidExtensions);
  }

  /** The folder list of line 215 starts with the opposite-role name at the
      position of the file's own role folder and is a reordering of the
      opposite table. */
  lemma FolderList(t: FileType, index: nat)
    requires t != Indeterminate && index < |FoldersOf(t)|
    ensures var that := FoldersOf(Opposite(t));
            var folders := Reordered(that[index], that);
            && folders[0] == that[index] && Distinct(folders)
            && multiset(folders) == multiset(that) && |folders| == 4
  {
    TablesDistinct();
    var that := FoldersOf(Opposite(t));
    assert that == ValidComponentFolders || that == ValidContainerFolders;
    ReorderedIsPermutation(that[index], that);
  }

  /** After the suggested folder name the other names of the opposite
      table follow in the table's order. */
  lemma FolderListOrder(t: FileType, index: nat)
    requires t != Indeterminate && index < |FoldersOf(t)|
    ensures var that := FoldersOf(Opposite(t));
            Reordered(that[index], that) == [that[index]] + that[..index] + that[index + 1..]
  {
    TablesDistinct();
    var that := FoldersOf(Opposite(t));
    assert Distinct(that) by {
      assert that == ValidComponentFolders || that == ValidContainerFolders;
    }
    ReorderedAt(that, index);
  }

  /** With a valid extension the search makes 16 probes, two file checks
      each; with any other extension, 20. */
  lemma ProbeCount(extension: string, t: FileType, l: Layout)
    requires t != Indeterminate && l.thatPathIndex < |FoldersOf(t)|
    ensures |ProbePairs(extension, FoldersOf(Opposite(t)), l)| == if extension in ValidExtensions then 16 else 20
  {
    var that := FoldersOf(Opposite(t));
    ExtensionList(extension);
    FolderList(t, l.thatPathIndex);
    PairsLength(Reordered(extension, ValidExtensions), Reordered(that[l.thatPathIndex], that));
  }

  /** The opposite-role name suggested first is spelled like the file's own
      role folder: capitalised alike and plural alike. */
  lemma SuggestedFolderSpelledAlike(t: FileType, index: nat)
    requires t != Indeterminate && index < |FoldersOf(t)|
    ensures var own := FoldersOf(t)[index];
            var suggested := FoldersOf(Opposite(t))[index];
            && ('A' <= own[0] <= 'Z' <==> 'A' <= suggested[0] <= 'Z')
            && (own[|own| - 1] == 's' <==> suggested[|suggested| - 1] == 's')
  {
  }

  // ---------------------------------------------------------------------
  // The search

  /** When the loops find a counterpart, it is the one of the first
      successful probe: its directory exists, the counterpart exists, it is
      the folder-layout or the standalone path of that probe, the layout
      tried first wins when both exist, no earlier probe succeeded, and the
      directories recorded are those of the probes up to it. */
  lemma SearchFound(fs: set<Path>, l: Layout, pairs: seq<Probe>)
    requires SearchResult(fs, l, pairs).found.Some?
    ensures FirstHit(fs, l, pairs) < |pairs|
    ensures forall j | 0 <= j < FirstHit(fs, l, pairs) :: !Hit(fs, l, pairs[j])
    ensures var k := FirstHit(fs, l, pairs);
            k < |pairs| && SearchResult(fs, l, pairs).dirs == Recorded(fs, l, pairs[..k + 1])
    ensures var k := FirstHit(fs, l, pairs);
            var q := SearchResult(fs, l, pairs).found.value;
            && k < |pairs|
            && q in fs && ThatParentPath(l, pairs[k].folder) in fs
            && (q == FolderPath(l, pairs[k]) || q == StandalonePath(l, pairs[k]))
            && (FirstCandidate(l, pairs[k]) in fs ==> q == FirstCandidate(l, pairs[k]))
  {
    var k := FirstHit(fs, l, pairs);
    assert k < |pairs|;
    assert SearchResult(fs, l, pairs).found.value == Chosen(fs, l, pairs[k]);
  }

  /** The loops find nothing exactly when no probe succeeds; they have then
      recorded, up to case, every directory of the opposite role that
      exists, and none at all exactly when none exists. */
  lemma SearchNotFound(fs: set<Path>, l: Layout, pairs: seq<Probe>)
    ensures SearchResult(fs, l, pairs).found.None? <==> forall k | 0 <= k < |pairs| :: !Hit(fs, l, pairs[k])
    ensures var d := SearchResult(fs, l, pairs).dirs;
            SearchResult(fs, l, pairs).found.None? ==>
              && (forall k | 0 <= k < |pairs| && ThatParentPath(l, pairs[k].folder) in fs ::
                    exists q | q in d :: SameIgnoringCase(q, ThatParentPath(l, pairs[k].folder)))
              && (d == [] <==> forall k | 0 <= k < |pairs| :: ThatParentPath(l, pairs[k].folder) !in fs)
  {
    var r := SearchResult(fs, l, pairs);
    if r.found.None? {
      assert r.dirs == Recorded(fs, l, pairs);
      RecordedCovers(fs, l, pairs);
      RecordedEmpty(fs, l, pairs);
    } else {
      var k := FirstHit(fs, l, pairs);
      assert Hit(fs, l, pairs[k]);
    }
  }

  /** No directory is recorded exactly when no probe's directory exists. */
  lemma {:induction false} RecordedEmpty(fs: set<Path>, l: Layout, pairs: seq<Probe>)
    ensures Recorded(fs, l, pairs) == [] <==> forall k | 0 <= k < |pairs| :: ThatParentPath(l, pairs[k].folder) !in fs
  {
    if pairs != [] {
      var n := |pairs| - 1;
      var init := pairs[..n];
      RecordedEmpty(fs, l, init);
      assert !HasIgnoringCase([], ThatParentPath(l, pairs[n].folder));
      assert forall k | 0 <= k < n :: pairs[k] == init[k];
    }
  }

  /** When no folder of the listed names exists beside the anchor, the
      search finds nothing and records nothing. */
  lemma NoSiblingFolders(fs: set<Path>, l: Layout, exts: seq<string>, folders: seq<string>)
    requires forall f | f in folders :: ThatParentPath(l, f) !in fs
    ensures SearchResult(fs, l, Pairs(exts, folders)) == Search([], None)
  {
    var pairs := Pairs(exts, folders);
    PairsMembers(exts, folders);
    assert forall k | 0 <= k < |pairs| :: ThatParentPath(l, pairs[k].folder) !in fs;
    SearchNotFound(fs, l, pairs);
  }

  /** When no folder of the opposite role exists beside the anchor, the
      resolver's search finds nothing and records nothing. */
  lemma NoOppositeRoleFolder(fs: set<Path>, l: Layout, extension: string, t: FileType)
    requires t != Indeterminate && l.thatPathIndex < |FoldersOf(t)|
    requires forall f | f in FoldersOf(Opposite(t)) :: ThatParentPath(l, f) !in fs
    ensures SearchResult(fs, l, ProbePairs(extension, FoldersOf(Opposite(t)), l)) == Search([], None)
  {
    var that := FoldersOf(Opposite(t));
    var folders := Reordered(that[l.thatPathIndex], that);
    FolderList(t, l.thatPathIndex);
    forall f | f in folders ensures ThatParentPath(l, f) !in fs {
      assert multiset(folders)[f] > 0;
    }
    NoSiblingFolders(fs, l, Reordered(extension, ValidExtensions), folders);
  }

  /** The recorded directories, found or not: each exists and is the
      directory of a probe, no two are equal up to case, and they come in
      the order first discovered, that is, a search stopped early has
      recorded the beginning of what a full search records. */
  lemma SearchDirs(fs: set<Path>, l: Layout, pairs: seq<Probe>)
    ensures DistinctIgnoringCase(SearchResult(fs, l, pairs).dirs)
    ensures forall q | q in SearchResult(fs, l, pairs).dirs ::
              q in fs && exists k | 0 <= k < |pairs| :: q == ThatParentPath(l, pairs[k].folder)
    ensures SearchResult(fs, l, pairs).dirs <= Recorded(fs, l, pairs)
  {
    var k := FirstHit(fs, l, pairs);
    var probed := if k < |pairs| then pairs[..k + 1] else pairs;
    var d := Recorded(fs, l, probed);
    assert SearchResult(fs, l, pairs).dirs == d;
    assert probed <= pairs;
    RecordedDistinct(fs, l, probed);
    RecordedSound(fs, l, probed);
    RecordedGrows(fs, l, probed, pairs);
    forall q | q in d
      ensures exists k | 0 <= k < |pairs| :: q == ThatParentPath(l, pairs[k].folder)
    {
      var j :| 0 <= j < |probed| && q == ThatParentPath(l, probed[j].folder);
      assert probed[j] == pairs[j];
    }
  }

  /** No existing directory probed before `dirs[i]` was found is equal to
      it up to case: of the spellings of one directory, the first one probed
      is the one kept. */
  predicate KeepsFirstSpelling(fs: set<Path>, l: Layout, pairs: seq<Probe>, dirs: seq<Path>, at: seq<nat>)
    requires |at| == |dirs|
  {
    forall i | 0 <= i < |dirs| ::
      forall k | 0 <= k < at[i] && k < |pairs| && ThatParentPath(l, pairs[k].folder) in fs ::
        !SameIgnoringCase(ThatParentPath(l, pairs[k].folder), dirs[i])
  }

  /** The directories in discovery order, none equal to another up to case,
      keep the first spelling found. */
  lemma FirstSpellingKept(fs: set<Path>, l: Layout, pairs: seq<Probe>, dirs: seq<Path>, at: seq<nat>)
    requires InDiscoveryOrder(fs, l, pairs, dirs, at) && DistinctIgnoringCase(dirs)
    ensures KeepsFirstSpelling(fs, l, pairs, dirs, at)
  {
    forall i, k | 0 <= i < |dirs| && 0 <= k < at[i] && k < |pairs| && ThatParentPath(l, pairs[k].folder) in fs
      ensures !SameIgnoringCase(ThatParentPath(l, pairs[k].folder), dirs[i])
    {
      NoCaseTwinBefore(dirs, i, i, ThatParentPath(l, pairs[k].folder));
    }
  }

  /** A path equal up to case to one of the first `m` directories is not
      equal up to case to a later one. */
  lemma {:induction false} NoCaseTwinBefore(dirs: seq<Path>, m: nat, i: nat, d: Path)
    requires DistinctIgnoringCase(dirs) && m <= i < |dirs| && HasIgnoringCase(dirs[..m], d)
    ensures !SameIgnoringCase(d, dirs[i])
  {
    assert dirs[..m][..m - 1] == dirs[..m - 1];
    if !SameIgnoringCase(dirs[m - 1], d) {
      NoCaseTwinBefore(dirs, m - 1, i, d);
    }
  }

  /** Discovery order over the probes made is discovery order over the whole
      probe list. */
  lemma InOrderOfPrefix(fs: set<Path>, l: Layout, probed: seq<Probe>, pairs: seq<Probe>, dirs: seq<Path>, at: seq<nat>)
    requires probed <= pairs && InDiscoveryOrder(fs, l, probed, dirs, at)
    ensures InDiscoveryOrder(fs, l, pairs, dirs, at)
  {
    forall k | 0 <= k < |probed| ensures pairs[k] == probed[k] { }
  }

  /** The directories a search leaves are in the order first found, and each
      is the first spelling of itself that the search came upon. */
  lemma SearchDirsOrder(fs: set<Path>, l: Layout, pairs: seq<Probe>)
    ensures exists at :: && InDiscoveryOrder(fs, l, pairs, SearchResult(fs, l, pairs).dirs, at)
                         && KeepsFirstSpelling(fs, l, pairs, SearchResult(fs, l, pairs).dirs, at)
  {
    var k := FirstHit(fs, l, pairs);
    var probed := if k < |pairs| then pairs[..k + 1] else pairs;
    var d, at := Recorded(fs, l, probed), RecordedAt(fs, l, probed);
    assert SearchResult(fs, l, pairs).dirs == d;
    RecordedInOrder(fs, l, probed);
    RecordedDistinct(fs, l, probed);
    InOrderOfPrefix(fs, l, probed, pairs, d, at);
    FirstSpellingKept(fs, l, pairs, d, at);
  }

  /** Two directories equal up to case, such as `Containers` and
      `containers` on a disk that reports both, are never both recorded. */
  lemma CaseVariantsRecordedOnce(fs: set<Path>, l: Layout, pairs: seq<Probe>, a: Path, b: Path)
    requires SameIgnoringCase(a, b) && a != b
    ensures a in SearchResult(fs, l, pairs).dirs ==> b !in SearchResult(fs, l, pairs).dirs
  {
    var d := SearchResult(fs, l, pairs).dirs;
    SearchDirs(fs, l, pairs);
    if a in d {
      var i :| 0 <= i < |d| && d[i] == a;
      forall j | 0 <= j < |d| ensures d[j] != b {
        if j < i {
          assert !SameIgnoringCase(d[j], d[i]);
        } else if i < j {
          assert !SameIgnoringCase(d[i], d[j]);
        }
      }
    }
  }

  /** Probing more only appends directories. */
  lemma {:induction false} RecordedGrows(fs: set<Path>, l: Layout, a: seq<Probe>, b: seq<Probe>)
    requires a <= b
    ensures Recorded(fs, l, a) <= Recorded(fs, l, b)
  {
    if |a| < |b| {
      var init := b[..|b| - 1];
      assert a <= init;
      RecordedGrows(fs, l, a, init);
    } else {
      assert a == b;
    }
  }

  /** A file system that holds the parent of each path it holds. */
  predicate PrefixClosed(fs: set<Path>)
  {
    forall p | p in fs && p != [] :: Parent(p) in fs
  }

  /** On such a file system the source's test that the directory exists
      changes nothing: a probe succeeds exactly when one of its two
      candidate files exists. */
  lemma HitWhenPrefixClosed(fs: set<Path>, l: Layout, p: Probe)
    requires PrefixClosed(fs)
    ensures Hit(fs, l, p) <==> StandalonePath(l, p) in fs || FolderPath(l, p) in fs
  {
    var dir := ThatParentPath(l, p.folder);
    assert Parent(StandalonePath(l, p)) == dir;
    assert Parent(FolderPath(l, p)) == dir + [l.name];
    assert Parent(dir + [l.name]) == dir;
  }

  // ---------------------------------------------------------------------
  // getFileInformation

  /** An unclassified file gives the bare `CouldNotDetermine` result,
      whatever exists on disk, and no other file does. */
  lemma IndeterminateIsCouldNotDetermine(fs: set<Path>, filePath: Path)
    ensures InfoOf(fs, filePath) == Failed(CouldNotDetermine) <==> DetectFileType(filePath) == Indeterminate
  {
  }

  /** The name of a located file is never empty when the path is well
      formed: the guard of lines 201-206 does not fire. */
  lemma LocatedNameNonEmpty(filePath: Path, thisFolders: seq<string>)
    requires WellFormed(filePath)
    requires "" !in thisFolders
    ensures Locate(filePath, thisFolders).Some? ==> Locate(filePath, thisFolders).value.name != ""
  {
    if ParentName(filePath) in thisFolders {
      var name := Basename(filePath);
      assert filePath != [];
      assert name == filePath[|filePath| - 1] != "";
      assert Stem(name) + ExtName(name) == name;
    } else if Stem(Basename(filePath)) == "index" && GrandParentName(filePath) in thisFolders {
      assert Parent(filePath) != [];
      assert ParentName(filePath) == filePath[|filePath| - 2];
    }
  }

  /** The entity name and layout, decided in the source's order: a file
      directly in a role folder is named by its stem and is not standalone;
      otherwise an `index` file two levels under a role folder is named by
      its directory and is standalone; any other classified file gives the
      bare `CouldNotFind` result. */
  lemma NameAndLayout(fs: set<Path>, filePath: Path)
    requires WellFormed(filePath)
    requires DetectFileType(filePath) != Indeterminate
    ensures var t := DetectFileType(filePath);
            var info := InfoOf(fs, filePath);
            var located := Locate(filePath, FoldersOf(t));
            if ParentName(filePath) in FoldersOf(t) then
              && located == Some(Layout(Stem(Basename(filePath)), Parent(filePath), false,
                                        IndexOf(FoldersOf(t), ParentName(filePath))))
              && info.Info? && info.name == Stem(Basename(filePath)) && !info.isStandalone
            else if Stem(Basename(filePath)) == "index" && GrandParentName(filePath) in FoldersOf(t) then
              && located == Some(Layout(ParentName(filePath), Parent(Parent(filePath)), true,
                                        IndexOf(FoldersOf(t), GrandParentName(filePath))))
              && info.Info? && info.name == ParentName(filePath) && info.isStandalone
            else
              located == None && info == Failed(CouldNotFind)
  {
    var t := DetectFileType(filePath);
    var info := InfoOf(fs, filePath);
    var located := Locate(filePath, FoldersOf(t));
    LocatedNameNonEmpty(filePath, FoldersOf(t));
    if located.Some? {
      var l := located.value;
      assert info.Info? && info.name == l.name && info.isStandalone == l.isStandalone by {
        InfoOfLocated(fs, filePath, l);
      }
    } else {
      assert info == Failed(CouldNotFind);
    }
  }

  /** A classified, located and named file gives the result its search
      leaves behind. */
  lemma InfoOfSearch(fs: set<Path>, filePath: Path, t: FileType, l: Layout, r: Search)
    requires DetectFileType(filePath) == t != Indeterminate
    requires Locate(filePath, FoldersOf(t)) == Some(l) && l.name != ""
    requires SearchResult(fs, l, ProbePairs(ExtName(Basename(filePath)), FoldersOf(Opposite(t)), l)) == r
    ensures InfoOf(fs, filePath) ==
              Info(filePath, ExtName(Basename(filePath)), l.name, t, Opposite(t), l.isStandalone,
                   r.dirs, r.found, if r.found.Some? then None else Some(CouldNotFind))
  {
    InfoOfLocated(fs, filePath, l);
  }

  /** A result that is not an error object comes from a classified and
      located file, and is the outcome of that file's probes. */
  lemma InfoIsOutcome(fs: set<Path>, filePath: Path)
    requires InfoOf(fs, filePath).Info?
    ensures var t := DetectFileType(filePath);
            && t != Indeterminate
            && Locate(filePath, FoldersOf(t)).Some?
            && var l := Locate(filePath, FoldersOf(t)).value;
               var extension := ExtName(Basename(filePath));
               InfoOf(fs, filePath) == Outcome(fs, filePath, extension, t, l, ProbePairs(extension, FoldersOf(Opposite(t)), l))
  {
  }

  /** A result that is not an error object has opposite roles, and either
      names an existing counterpart and no error, or names none and the
      error `CouldNotFind`. */
  lemma InfoRoles(fs: set<Path>, filePath: Path)
    requires InfoOf(fs, filePath).Info?
    ensures var info := InfoOf(fs, filePath);
            && info.path == filePath && info.extension == ExtName(Basename(filePath))
            && info.fileType == DetectFileType(filePath) != Indeterminate
            && info.otherType == Opposite(info.fileType) != info.fileType
            && (info.otherPath.Some? <==> info.error.None?)
            && (info.error.Some? ==> info.error == Some(CouldNotFind))
            && (info.otherPath.Some? ==> info.otherPath.value in fs)
  {
    InfoIsOutcome(fs, filePath);
    var t := DetectFileType(filePath);
    var l := Locate(filePath, FoldersOf(t)).value;
    var extension := ExtName(Basename(filePath));
    var pairs := ProbePairs(extension, FoldersOf(Opposite(t)), l);
    if SearchResult(fs, l, pairs).found.Some? {
      SearchFound(fs, l, pairs);
    }
  }

  /** Every recorded directory is a folder of the listed names beside the
      anchor folder. */
  lemma DirsBesideAnchor(fs: set<Path>, l: Layout, exts: seq<string>, folders: seq<string>)
    ensures forall q | q in SearchResult(fs, l, Pairs(exts, folders)).dirs ::
              q in fs && q == Parent(l.thisFolderPath) + [Basename(q)] && Basename(q) in folders
  {
    var pairs := Pairs(exts, folders);
    SearchDirs(fs, l, pairs);
    PairsMembers(exts, folders);
    forall q | q in SearchResult(fs, l, pairs).dirs
      ensures q == Parent(l.thisFolderPath) + [Basename(q)] && Basename(q) in folders
    {
      var k :| 0 <= k < |pairs| && q == ThatParentPath(l, pairs[k].folder);
      assert pairs[k].folder in folders;
    }
  }

  /** The directories of a result that is not an error object all exist,
      differ up to case and sit beside the anchor folder, each named after
      the opposite role. */
  lemma InfoDirs(fs: set<Path>, filePath: Path)
    requires InfoOf(fs, filePath).Info?
    ensures var info := InfoOf(fs, filePath);
            var anchor := Locate(filePath, FoldersOf(info.fileType)).value.thisFolderPath;
            && DistinctIgnoringCase(info.otherParentPaths)
            && forall q | q in info.otherParentPaths ::
                 q in fs && q == Parent(anchor) + [Basename(q)] && Basename(q) in FoldersOf(info.otherType)
  {
    InfoIsOutcome(fs, filePath);
    InfoRoles(fs, filePath);
    var t := DetectFileType(filePath);
    var l := Locate(filePath, FoldersOf(t)).value;
    var extension := ExtName(Basename(filePath));
    var that := FoldersOf(Opposite(t));
    var exts := Reordered(extension, ValidExtensions);
    var folders := Reordered(that[l.thatPathIndex], that);
    var dirs := SearchResult(fs, l, Pairs(exts, folders)).dirs;
    assert InfoOf(fs, filePath).otherParentPaths == dirs;
    SearchDirs(fs, l, Pairs(exts, folders));
    DirsBesideAnchor(fs, l, exts, folders);
    FolderList(t, l.thatPathIndex);
    forall f | f in folders ensures f in that {
      assert multiset(folders)[f] > 0;
    }
  }

  /** `otherParentPaths` lists the directories in the order the probes of
      lines 211-221 first found them, keeping the first spelling found. */
  lemma InfoDirsOrder(fs: set<Path>, filePath: Path)
    requires InfoOf(fs, filePath).Info?
    ensures var info := InfoOf(fs, filePath);
            var l := Locate(filePath, FoldersOf(info.fileType)).value;
            var pairs := ProbePairs(info.extension, FoldersOf(info.otherType), l);
            exists at :: && InDiscoveryOrder(fs, l, pairs, info.otherParentPaths, at)
                         && KeepsFirstSpelling(fs, l, pairs, info.otherParentPaths, at)
  {
    InfoIsOutcome(fs, filePath);
    InfoRoles(fs, filePath);
    var info := InfoOf(fs, filePath);
    var l := Locate(filePath, FoldersOf(info.fileType)).value;
    var pairs := ProbePairs(info.extension, FoldersOf(info.otherType), l);
    assert info.otherParentPaths == SearchResult(fs, l, pairs).dirs;
    SearchDirsOrder(fs, l, pairs);
  }

  /** The counterpart `getFileInformation` returns exists, is the folder
      layout or the standalone file of the first successful probe, and
      follows the probe order of lines 217-279; when none is returned no
      probe succeeds and every existing opposite-role directory is among
      `otherParentPaths`, up to case. */
  lemma InfoCounterpart(fs: set<Path>, filePath: Path)
    requires InfoOf(fs, filePath).Info?
    ensures var info := InfoOf(fs, filePath);
            var t := info.fileType;
            var l := Locate(filePath, FoldersOf(t)).value;
            var pairs := ProbePairs(info.extension, FoldersOf(info.otherType), l);
            var k := FirstHit(fs, l, pairs);
            && (info.otherPath.Some? ==>
                  && k < |pairs|
                  && (info.otherPath.value == FolderPath(l, pairs[k]) || info.otherPath.value == StandalonePath(l, pairs[k]))
                  && (forall j | 0 <= j < k :: !Hit(fs, l, pairs[j])))
            && (info.otherPath.None? ==>
                  && (forall j | 0 <= j < |pairs| :: !Hit(fs, l, pairs[j]))
                  && (forall j | 0 <= j < |pairs| && ThatParentPath(l, pairs[j].folder) in fs ::
                        exists q | q in info.otherParentPaths :: SameIgnoringCase(q, ThatParentPath(l, pairs[j].folder))))
  {
    var t := DetectFileType(filePath);
    var l := Locate(filePath, FoldersOf(t)).value;
    var extension := ExtName(Basename(filePath));
    var pairs := ProbePairs(extension, FoldersOf(Opposite(t)), l);
    SearchNotFound(fs, l, pairs);
    if SearchResult(fs, l, pairs).found.Some? {
      SearchFound(fs, l, pairs);
    }
  }

}
