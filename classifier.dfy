/** `detectFileType` of src/utils.js: a file is a Component or a Container
    according to the names of its parent and grandparent directories. */
module Classifier {
  import opened NodePath
  import opened Tables

  /** Name of the directory that holds the file. */
  function ParentName(filePath: Path): (r: string)
    ensures |filePath| >= 2 ==> r == filePath[|filePath| - 2]
    ensures |filePath| < 2 ==> r == ""
  {
    Basename(Parent(filePath))
  }

  /** Name of the directory one level further up. */
  function GrandParentName(filePath: Path): (r: string)
    ensures |filePath| >= 3 ==> r == filePath[|filePath| - 3]
    ensures |filePath| < 3 ==> r == ""
  {
    Basename(Parent(Parent(filePath)))
  }

  /** The nested `indexOf(...) === -1` tests, in the order the source makes
      them: parent against the Component folders, parent against the
      Container folders, grandparent against the Component folders,
      grandparent against the Container folders. The first table that
      holds the name decides. */
  function DetectFileType(filePath: Path): (t: FileType)
    ensures t == Component <==>
      ParentName(filePath) in ValidComponentFolders ||
      (ParentName(filePath) !in ValidContainerFolders && GrandParentName(filePath) in ValidComponentFolders)
    ensures t == Container <==>
      (ParentName(filePath) !in ValidComponentFolders && ParentName(filePath) in ValidContainerFolders) ||
      (ParentName(filePath) !in ValidComponentFolders && ParentName(filePath) !in ValidContainerFolders &&
       GrandParentName(filePath) !in ValidComponentFolders && GrandParentName(filePath) in ValidContainerFolders)
    ensures t == Indeterminate <==>
      ParentName(filePath) !in ValidComponentFolders + ValidContainerFolders &&
      GrandParentName(filePath) !in ValidComponentFolders + ValidContainerFolders
  {
    var parentName := ParentName(filePath);
    var grandParentName := GrandParentName(filePath);
    if IndexOf(ValidComponentFolders, parentName) == -1 then
      if IndexOf(ValidContainerFolders, parentName) == -1 then
        if IndexOf(ValidComponentFolders, grandParentName) == -1 then
          if IndexOf(ValidContainerFolders, grandParentName) == -1 then
            Indeterminate
          else Container
        else Component
      else Container
    else Component
  }

  /** The same decision written as data: an ordered list of rules "the
      ancestor this many levels up is named after this role", of which the
      first that applies decides. */
  datatype Rule = Rule(levelsUp: nat, role: FileType)

  const Rules: seq<Rule> := [Rule(1, Component), Rule(1, Container), Rule(2, Component), Rule(2, Container)]

  function Ancestor(p: Path, levelsUp: nat): Path
  {
    if levelsUp == 0 then p else Ancestor(Parent(p), levelsUp - 1)
  }

  predicate Applies(filePath: Path, rule: Rule)
  {
    Basename(Ancestor(filePath, rule.levelsUp)) in FoldersOf(rule.role)
  }

  function FirstApplicable(filePath: Path, rules: seq<Rule>): FileType
  {
    if rules == [] then Indeterminate
    else if Applies(filePath, rules[0]) then rules[0].role
    else FirstApplicable(filePath, rules[1..])
  }

  /** The nested conditionals and the rule table classify every path alike:
      the priority order of the source is exactly the order of `Rules`. */
  lemma {:induction false} DetectFileTypeFollowsRules(filePath: Path)
    ensures DetectFileType(filePath) == FirstApplicable(filePath, Rules)
  {
    var r1, r2, r3 := Rules[1..], Rules[2..], Rules[3..];
    assert Ancestor(filePath, 1) == Ancestor(Parent(filePath), 0) == Parent(filePath);
    assert Ancestor(filePath, 2) == Ancestor(Parent(filePath), 1) == Ancestor(Parent(Parent(filePath)), 0);
    assert r1[1..] == r2 && r2[1..] == r3 && r3[1..] == [];
    assert FirstApplicable(filePath, r3) ==
      if Applies(filePath, Rule(2, Container)) then Container else FirstApplicable(filePath, []);
    assert FirstApplicable(filePath, r2) ==
      if Applies(filePath, Rule(2, Component)) then Component else FirstApplicable(filePath, r3);
    assert FirstApplicable(filePath, r1) ==
      if Applies(filePath, Rule(1, Container)) then Container else FirstApplicable(filePath, r2);
  }

}
