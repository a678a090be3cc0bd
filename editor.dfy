/** The two small decisions of src/utils.js that face the editor: which
    documents the switcher accepts (`getPath`) and in which column the
    counterpart opens (`getColumnToOpenIn`). The setting
    `rccs.alwaysOpenContainersToTheLeft` is a parameter instead of a read
    of the workspace configuration. */
module Editor {
  import opened Wrappers
  import opened NodePath
  import opened Tables
  import opened Resolver
  import opened ResolverProperties

  /** The parts of a document `Uri` the switcher reads; a document that was
      never saved has an empty `fsPath`. */
  datatype Uri = Uri(scheme: string, fsPath: string)

  /** `path.extname` of a whole path string: the extension of its last
      segment. */
  function PathExtName(fsPath: string): string
  {
    ExtName(Basename(Segments(fsPath)))
  }

  /** `getPath(uri)`: the file path of a saved local document with a
      recognised extension, and nothing otherwise. */
  function GetPath(uri: Uri): (r: Option<string>)
    ensures r.Some? <==> uri.fsPath != "" && uri.scheme == "file" && PathExtName(uri.fsPath) in ValidExtensions
    ensures r.Some? ==> r.value == uri.fsPath
  {
    if uri.fsPath == "" || uri.scheme != "file" then None
    else if IndexOf(ValidExtensions, PathExtName(uri.fsPath)) == -1 then None
    else Some(uri.fsPath)
  }

  /** A path `getPath` accepts has one of the four extensions, so the
      resolver's extension list is a reordering of the table and a search
      from it makes 16 probes, that is 32 file checks at most. */
  lemma AcceptedPathProbes(uri: Uri, t: FileType, l: Layout)
    requires GetPath(uri).Some?
    requires t != Indeterminate && l.thatPathIndex < |FoldersOf(t)|
    ensures var extension := ExtName(Basename(Segments(uri.fsPath)));
            && extension in ValidExtensions
            && multiset(Reordered(extension, ValidExtensions)) == multiset(ValidExtensions)
            && |ProbePairs(extension, FoldersOf(Opposite(t)), l)| == 16
  {
    var extension := ExtName(Basename(Segments(uri.fsPath)));
    ExtensionList(extension);
    ProbeCount(extension, t, l);
  }

  /** The file of a document path is named: whatever role folder it is
      located under, the entity name the resolver derives is not empty, so
      the guard of src/utils.js:201-206 never fires for it. */
  lemma DocumentNamed(fsPath: string, t: FileType)
    requires t != Indeterminate
    ensures Locate(Segments(fsPath), FoldersOf(t)).Some? ==> Locate(Segments(fsPath), FoldersOf(t)).value.name != ""
  {
    LocatedNameNonEmpty(Segments(fsPath), FoldersOf(t));
  }

  /** `vscode.ViewColumn`: the active column, the first (left) column and
      the second (right) column. */
  datatype ViewColumn = Active | One | Two

  /** The `ColumnPosition` table looked up by key; keys other than its
      three yield `undefined`. */
  function ColumnPosition(key: string): (c: Option<ViewColumn>)
    ensures c.Some? <==> key in ["Same", "Left", "Right"]
  {
    if key == "Same" then Some(Active)
    else if key == "Left" then Some(One)
    else if key == "Right" then Some(Two)
    else None
  }

  /** `getColumnToOpenIn(type)` with the setting's value as a parameter
      (None when the setting is unset); None is the `undefined` the source
      returns for a Container and a value outside the table. */
  function GetColumnToOpenIn(t: FileType, positionConfig: Option<string>): (c: Option<ViewColumn>)
    ensures positionConfig == Some("Same") ==> c == Some(Active)
    ensures c.None? <==> t == Container && positionConfig !in {Some("Same"), Some("Left"), Some("Right")}
    ensures t != Container && positionConfig != Some("Same") ==> c.Some? && c.value != Active
    ensures t != Container && positionConfig !in {Some("Same"), Some("Left")} ==> c == Some(One)
    ensures t != Container && positionConfig == Some("Left") ==> c == Some(Two)
    ensures t == Container && positionConfig.Some? && positionConfig != Some("Same") ==> c == ColumnPosition(positionConfig.value)
    ensures t == Container && positionConfig.None? ==> c.None?
  {
    if positionConfig == Some("Same") then ColumnPosition("Same")
    else if t == Container then
      if positionConfig.Some? then ColumnPosition(positionConfig.value) else None
    else if positionConfig == Some("Left") then ColumnPosition("Right")
    else ColumnPosition("Left")
  }

  /** With "Left" or "Right", a Container opens on the named side and its
      Component on the other one; an unclassified file opens like a
      Component. */
  lemma ContainersAndComponentsOppositeSides(side: string)
    requires side == "Left" || side == "Right"
    ensures GetColumnToOpenIn(Container, Some(side)) == ColumnPosition(side)
    ensures GetColumnToOpenIn(Component, Some(side)).Some? && GetColumnToOpenIn(Container, Some(side)).Some?
    ensures GetColumnToOpenIn(Component, Some(side)).value != GetColumnToOpenIn(Container, Some(side)).value
    ensures {GetColumnToOpenIn(Component, Some(side)).value, GetColumnToOpenIn(Container, Some(side)).value} == {One, Two}
    ensures GetColumnToOpenIn(Indeterminate, Some(side)) == GetColumnToOpenIn(Component, Some(side))
  {
  }

}
