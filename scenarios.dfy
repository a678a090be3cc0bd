/** Concrete resolutions on small file systems. */
module Scenarios {
  import opened Wrappers
  import opened NodePath
  import opened Tables
  import opened Classifier
  import opened Resolver
  import opened ResolverProperties

  /** /proj/src/Containers/UserList.js, a Container directly in its role
      folder: not standalone, so its Component is looked for as a file by
      itself first. */
  const UserListContainer: Path := ["proj", "src", "Containers", "UserList.js"]

  /** /proj/src/Components/UserList/index.js, its Component in folder
      layout. */
  const UserListComponent: Path := ["proj", "src", "Components", "UserList", "index.js"]

  const UserListDisk: set<Path> :=
    {["proj"], ["proj", "src"], ["proj", "src", "Containers"], UserListContainer,
     ["proj", "src", "Components"], ["proj", "src", "Components", "UserList"], UserListComponent}

  const UserListLayout: Layout := Layout("UserList", ["proj", "src", "Containers"], false, 3)

  const UserListProbe: Probe := Probe(".js", "Components")

  lemma UserListLocated()
    ensures DetectFileType(UserListContainer) == Container
    ensures ExtName(Basename(UserListContainer)) == ".js"
    ensures Locate(UserListContainer, FoldersOf(Container)) == Some(UserListLayout)
  {
    assert Parent(UserListContainer) == ["proj", "src", "Containers"];
    assert ParentName(UserListContainer) == "Containers";
    assert IsExtension(".js");
    assert "UserList" + ".js" == "UserList.js";
    ExtNameOfAppended("UserList", ".js");
    assert IndexOf(ValidContainerFolders, "Containers") == 3;
  }

  /** The first probe is the own extension and the Component folder named
      like the Container's own. */
  lemma UserListFirstProbe()
    ensures var pairs := ProbePairs(".js", FoldersOf(Opposite(Container)), UserListLayout);
            0 < |pairs| && pairs[0] == UserListProbe
  {
  }

  /** On this disk the first probe succeeds with the folder layout, the
      standalone file being absent, and records `Components`. */
  lemma UserListProbeHits()
    ensures Hit(UserListDisk, UserListLayout, UserListProbe)
    ensures Chosen(UserListDisk, UserListLayout, UserListProbe) == UserListComponent
    ensures Recorded(UserListDisk, UserListLayout, [UserListProbe]) == [["proj", "src", "Components"]]
  {
    var dir := ["proj", "src", "Components"];
    assert Parent(UserListLayout.thisFolderPath) == ["proj", "src"];
    assert ThatParentPath(UserListLayout, "Components") == dir;
    assert "UserList" + ".js" == "UserList.js";
    assert "index" + ".js" == "index.js";
    var standalone := StandalonePath(UserListLayout, UserListProbe);
    assert standalone == dir + ["UserList.js"];
    assert standalone != UserListContainer by {
      assert standalone[2][2] != UserListContainer[2][2];
    }
    assert standalone != ["proj", "src", "Components", "UserList"] by {
      assert |standalone[3]| != |"UserList"|;
    }
    assert FolderPath(UserListLayout, UserListProbe) == dir + ["UserList", "index.js"] == UserListComponent;
  }

  /** A search whose first probe succeeds stops there. */
  lemma FirstProbeWins(fs: set<Path>, l: Layout, pairs: seq<Probe>)
    requires 0 < |pairs| && Hit(fs, l, pairs[0])
    ensures SearchResult(fs, l, pairs) == Search(Recorded(fs, l, [pairs[0]]), Some(Chosen(fs, l, pairs[0])))
  {
    FirstHitAt(fs, l, pairs, 0);
    assert pairs[..1] == [pairs[0]];
  }

  /** The search stops at the first probe. */
  lemma UserListSearch()
    ensures SearchResult(UserListDisk, UserListLayout, ProbePairs(".js", FoldersOf(Opposite(Container)), UserListLayout)) ==
            Search([["proj", "src", "Components"]], Some(UserListComponent))
  {
    UserListFirstProbe();
    UserListProbeHits();
    FirstProbeWins(UserListDisk, UserListLayout, ProbePairs(".js", FoldersOf(Opposite(Container)), UserListLayout));
  }

  /** The Container resolves to the Component in folder layout, and records
      the one Component folder it saw. */
  lemma ContainerFindsFolderComponent()
    ensures InfoOf(UserListDisk, UserListContainer) ==
              Info(UserListContainer, ".js", "UserList", Container, Component, false,
                   [["proj", "src", "Components"]], Some(UserListComponent), None)
  {
    UserListLocated();
    UserListSearch();
    InfoOfSearch(UserListDisk, UserListContainer, Container, UserListLayout,
                 Search([["proj", "src", "Components"]], Some(UserListComponent)));
  }

  /** /proj/src/Component/Foo/index.js: a Component in folder layout,
      with no Container folder anywhere beside `Component`. */
  const FooComponent: Path := ["proj", "src", "Component", "Foo", "index.js"]

  const FooDisk: set<Path> :=
    {["proj"], ["proj", "src"], ["proj", "src", "Component"], ["proj", "src", "Component", "Foo"], FooComponent}

  const FooLayout: Layout := Layout("Foo", ["proj", "src", "Component"], true, 1)

  lemma FooLocated()
    ensures DetectFileType(FooComponent) == Component
    ensures ExtName(Basename(FooComponent)) == ".js"
    ensures Locate(FooComponent, FoldersOf(Component)) == Some(FooLayout)
  {
    assert Parent(FooComponent) == ["proj", "src", "Component", "Foo"];
    assert Parent(Parent(FooComponent)) == ["proj", "src", "Component"];
    assert ParentName(FooComponent) == "Foo";
    assert GrandParentName(FooComponent) == "Component";
    assert IsExtension(".js");
    assert "index" + ".js" == "index.js";
    ExtNameOfAppended("index", ".js");
    assert IndexOf(ValidComponentFolders, "Component") == 1;
  }

  /** No Container folder exists beside `Component`. */
  lemma FooHasNoSiblings()
    ensures forall f | f in ValidContainerFolders :: ThatParentPath(FooLayout, f) !in FooDisk
  {
    assert Parent(FooLayout.thisFolderPath) == ["proj", "src"];
    forall f | f in ValidContainerFolders ensures ThatParentPath(FooLayout, f) !in FooDisk {
      assert ThatParentPath(FooLayout, f) == ["proj", "src", f];
      assert f != "Component";
    }
  }

  /** The Component resolves to nothing and records no directory: the
      result is `CouldNotFind` with an empty `otherParentPaths`. */
  lemma ComponentWithoutContainerFolder()
    ensures InfoOf(FooDisk, FooComponent) ==
              Info(FooComponent, ".js", "Foo", Component, Container, true, [], None, Some(CouldNotFind))
  {
    FooLocated();
    FooHasNoSiblings();
    NoOppositeRoleFolder(FooDisk, FooLayout, ".js", Component);
    InfoOfSearch(FooDisk, FooComponent, Component, FooLayout, Search([], None));
  }

  /** A Container in folder layout, /p/Containers/Bar/index.js, and its
      Component as a file by itself, /p/Components/Bar.js: each resolves to
      the other, the one standalone and the other not. */
  const BarContainer: Path := ["p", "Containers", "Bar", "index.js"]
  const BarComponent: Path := ["p", "Components", "Bar.js"]

  const BarDisk: set<Path> :=
    {["p"], ["p", "Containers"], ["p", "Containers", "Bar"], BarContainer, ["p", "Components"], BarComponent}

  const BarContainerLayout: Layout := Layout("Bar", ["p", "Containers"], true, 3)
  const BarComponentLayout: Layout := Layout("Bar", ["p", "Components"], false, 3)

  lemma BarContainerLocated()
    ensures DetectFileType(BarContainer) == Container
    ensures ExtName(Basename(BarContainer)) == ".js"
    ensures Locate(BarContainer, FoldersOf(Container)) == Some(BarContainerLayout)
  {
    assert Parent(BarContainer) == ["p", "Containers", "Bar"];
    assert Parent(Parent(BarContainer)) == ["p", "Containers"];
    assert ParentName(BarContainer) == "Bar" && GrandParentName(BarContainer) == "Containers";
    assert "Bar" !in ValidComponentFolders + ValidContainerFolders;
    assert "Containers" !in ValidComponentFolders by {
      assert "Containers"[2] != "Components"[2] && "Containers"[0] != "components"[0];
    }
    assert IsExtension(".js");
    assert "index" + ".js" == "index.js";
    ExtNameOfAppended("index", ".js");
    assert IndexOf(ValidContainerFolders, "Containers") == 3;
  }

  lemma BarComponentLocated()
    ensures DetectFileType(BarComponent) == Component
    ensures ExtName(Basename(BarComponent)) == ".js"
    ensures Locate(BarComponent, FoldersOf(Component)) == Some(BarComponentLayout)
  {
    assert Parent(BarComponent) == ["p", "Components"];
    assert ParentName(BarComponent) == "Components";
    assert IsExtension(".js");
    assert "Bar" + ".js" == "Bar.js";
    ExtNameOfAppended("Bar", ".js");
    assert IndexOf(ValidComponentFolders, "Components") == 3;
  }

  /** The Container's first probe succeeds: being standalone, it tries the
      folder layout first and falls back to the Component file. */
  lemma BarContainerProbeHits()
    ensures Hit(BarDisk, BarContainerLayout, Probe(".js", "Components"))
    ensures Chosen(BarDisk, BarContainerLayout, Probe(".js", "Components")) == BarComponent
    ensures Recorded(BarDisk, BarContainerLayout, [Probe(".js", "Components")]) == [["p", "Components"]]
  {
    assert Parent(["p", "Containers"]) == ["p"];
    assert "index" + ".js" == "index.js" && "Bar" + ".js" == "Bar.js";
    var toComponent := Probe(".js", "Components");
    assert ThatParentPath(BarContainerLayout, "Components") == ["p", "Components"];
    var folderGuess := FolderPath(BarContainerLayout, toComponent);
    assert folderGuess == ["p", "Components", "Bar", "index.js"];
    assert folderGuess != BarContainer by {
      assert folderGuess[1][2] != BarContainer[1][2];
    }
    assert StandalonePath(BarContainerLayout, toComponent) == BarComponent;
  }

  /** The Component's first probe succeeds: not being standalone, it tries
      the file first and falls back to the Container's folder. */
  lemma BarComponentProbeHits()
    ensures Hit(BarDisk, BarComponentLayout, Probe(".js", "Containers"))
    ensures Chosen(BarDisk, BarComponentLayout, Probe(".js", "Containers")) == BarContainer
    ensures Recorded(BarDisk, BarComponentLayout, [Probe(".js", "Containers")]) == [["p", "Containers"]]
  {
    assert Parent(["p", "Components"]) == ["p"];
    assert "index" + ".js" == "index.js" && "Bar" + ".js" == "Bar.js";
    var toContainer := Probe(".js", "Containers");
    assert ThatParentPath(BarComponentLayout, "Containers") == ["p", "Containers"];
    var fileGuess := StandalonePath(BarComponentLayout, toContainer);
    assert fileGuess == ["p", "Containers", "Bar.js"];
    assert fileGuess != BarComponent by {
      assert fileGuess[1][2] != BarComponent[1][2];
    }
    assert fileGuess != ["p", "Containers", "Bar"] by {
      assert |fileGuess[2]| != |"Bar"|;
    }
    assert FolderPath(BarComponentLayout, toContainer) == BarContainer;
  }

  lemma BarFirstProbes()
    ensures var pairs := ProbePairs(".js", FoldersOf(Opposite(Container)), BarContainerLayout);
            0 < |pairs| && pairs[0] == Probe(".js", "Components")
    ensures var pairs := ProbePairs(".js", FoldersOf(Opposite(Component)), BarComponentLayout);
            0 < |pairs| && pairs[0] == Probe(".js", "Containers")
  {
  }

  lemma BarSearches()
    ensures SearchResult(BarDisk, BarContainerLayout, ProbePairs(".js", FoldersOf(Opposite(Container)), BarContainerLayout)) ==
            Search([["p", "Components"]], Some(BarComponent))
    ensures SearchResult(BarDisk, BarComponentLayout, ProbePairs(".js", FoldersOf(Opposite(Component)), BarComponentLayout)) ==
            Search([["p", "Containers"]], Some(BarContainer))
  {
    BarFirstProbes();
    BarContainerProbeHits();
    BarComponentProbeHits();
    FirstProbeWins(BarDisk, BarContainerLayout, ProbePairs(".js", FoldersOf(Opposite(Container)), BarContainerLayout));
    FirstProbeWins(BarDisk, BarComponentLayout, ProbePairs(".js", FoldersOf(Opposite(Component)), BarComponentLayout));
  }

  /** The pair resolves both ways, with `isStandalone` true for the
      Container in folder layout and false for the Component file. */
  lemma PairResolvesBothWays()
    ensures InfoOf(BarDisk, BarContainer) ==
              Info(BarContainer, ".js", "Bar", Container, Component, true, [["p", "Components"]], Some(BarComponent), None)
    ensures InfoOf(BarDisk, BarComponent) ==
              Info(BarComponent, ".js", "Bar", Component, Container, false, [["p", "Containers"]], Some(BarContainer), None)
  {
    BarContainerLocated();
    BarComponentLocated();
    BarSearches();
    InfoOfSearch(BarDisk, BarContainer, Container, BarContainerLayout, Search([["p", "Components"]], Some(BarComponent)));
    InfoOfSearch(BarDisk, BarComponent, Component, BarComponentLayout, Search([["p", "Containers"]], Some(BarContainer)));
  }

  /** `Containers` and `containers` beside each other are the same folder
      on a disk that ignores case, so a search records at most one of them. */
  lemma ContainerSpellingsRecordedOnce(fs: set<Path>, l: Layout, pairs: seq<Probe>, parent: Path)
    ensures parent + ["Containers"] in SearchResult(fs, l, pairs).dirs ==>
              parent + ["containers"] !in SearchResult(fs, l, pairs).dirs
  {
    var a, b := parent + ["Containers"], parent + ["containers"];
    LowerOfCapitalised("Containers", "containers");
    SameIgnoringCaseOfLast(parent, "Containers", "containers");
    assert a != b by {
      assert a[|parent|][0] != b[|parent|][0];
    }
    CaseVariantsRecordedOnce(fs, l, pairs, a, b);
  }

  /** A `.ts` file's counterpart is looked for as `.ts` first, then in the
      table's order `.js`, `.jsx`, `.tsx`. */
  lemma TypeScriptTriesTableOrderNext()
    ensures Reordered(".ts", ValidExtensions) == [".ts", ".js", ".jsx", ".tsx"]
  {
    TablesDistinct();
    ReorderedSecondOfFour(ValidExtensions);
  }

  lemma ReorderedSecondOfFour(s: seq<string>)
    requires Distinct(s) && |s| == 4
    ensures Reordered(s[1], s) == [s[1], s[0], s[2], s[3]]
  {
    ReorderedAt(s, 1);
  }

  /** A Component under `Components` probes the Container folders
      `Containers`, `container`, `Container`, `containers` in that order. */
  lemma PluralCapitalisedFolderFirst()
    ensures Reordered(ValidContainerFolders[3], ValidContainerFolders) ==
            ["Containers", "container", "Container", "containers"]
  {
    TablesDistinct();
    ReorderedLastOfFour(ValidContainerFolders);
  }

  lemma ReorderedLastOfFour(s: seq<string>)
    requires Distinct(s) && |s| == 4
    ensures Reordered(s[3], s) == [s[3], s[0], s[1], s[2]]
  {
    ReorderedAt(s, 3);
  }

}
