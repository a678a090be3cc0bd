/** The parts of Node's `path` module (POSIX flavour) and of
    `String.prototype.toLowerCase` that the resolver relies on.

    A path is absolute and already resolved; it is kept as its list of
    segments: "/proj/src/a.js" is ["proj", "src", "a.js"] and the root "/"
    is []. */
module NodePath {

  type Path = seq<string>

  /** A path as `path.resolve` yields it: no segment is empty or holds a
      separator. */
  predicate WellFormed(p: Path)
  {
    forall i | 0 <= i < |p| :: p[i] != "" && '/' !in p[i]
  }

  /** `path.basename(p)`: the last segment; the root has none (""). */
  function Basename(p: Path): string
  {
    if p == [] then "" else p[|p| - 1]
  }

  /** `path.resolve(p, '..')`: the directory that holds `p`; the root is
      its own parent. */
  function Parent(p: Path): (r: Path)
    ensures p == [] ==> r == []
    ensures p != [] ==> r + [Basename(p)] == p
  {
    if p == [] then [] else p[..|p| - 1]
  }

  /** Index of the last `c` in `s`, or -1 when there is none. */
  function LastIndexOf(s: string, c: char): (k: int)
    ensures -1 <= k < |s|
    ensures k >= 0 ==> s[k] == c
    ensures forall i | k < i < |s| :: s[i] != c
  {
    if s == [] then -1
    else if s[|s| - 1] == c then |s| - 1
    else LastIndexOf(s[..|s| - 1], c)
  }

  /** The segments of a POSIX path string: the pieces between the '/'
      separators, without the empty pieces that a leading, doubled or
      trailing '/' leaves. */
  function Segments(s: string): (p: Path)
    ensures WellFormed(p)
  {
    if s == [] then []
    else if s[|s| - 1] == '/' then Segments(s[..|s| - 1])
    else
      var k := LastIndexOf(s, '/');
      (if k < 0 then [] else Segments(s[..k])) + [s[k + 1..]]
  }

  /** The string form of an absolute path, as `path.resolve` prints it:
      "/" for the root, otherwise each segment preceded by '/'. */
  function PathString(p: Path): string
  {
    if p == [] then "/" else Joined(p)
  }

  function Joined(p: Path): string
  {
    if p == [] then "" else Joined(p[..|p| - 1]) + "/" + p[|p| - 1]
  }

  /** Splitting the string form of a path whose segments are non-empty and
      free of '/' gives the path back. */
  lemma {:induction false} SegmentsOfPathString(p: Path)
    requires WellFormed(p)
    ensures Segments(PathString(p)) == p
  {
    if p == [] {
      assert Segments("/") == Segments("");
    } else {
      SegmentsOfJoined(p);
    }
  }

  lemma {:induction false} SegmentsOfJoined(p: Path)
    requires WellFormed(p)
    ensures Segments(Joined(p)) == p
  {
    if p != [] {
      var init, last := Parent(p), Basename(p);
      var s := Joined(p);
      var k := |Joined(init)|;
      LastSeparator(Joined(init), last);
      SegmentsOfJoined(init);
      if init == [] {
        assert Segments(s[..k]) == [];
      }
      assert Segments(s) == Segments(s[..k]) + [s[k + 1..]];
    }
  }

  /** In `head + "/" + last`, with `last` non-empty and free of '/', the
      separator before `last` is the last one. */
  lemma LastSeparator(head: string, last: string)
    requires last != "" && '/' !in last
    ensures var s := head + "/" + last;
            s[|s| - 1] != '/' && LastIndexOf(s, '/') == |head| && s[..|head|] == head && s[|head| + 1..] == last
  {
    var s := head + "/" + last;
    assert s[|s| - 1] == last[|last| - 1];
    forall i | |head| < i < |s| ensures s[i] != '/' {
      assert s[i] == last[i - |head| - 1];
    }
    assert s[|head|] == '/';
    assert s[|head| + 1..] == last;
  }

  /** `path.extname` of a file name: from its last '.' to the end, except
      that a name whose only dot is its first character (".js"), a name
      without a dot, and the name ".." have no extension. */
  function ExtName(name: string): (e: string)
    ensures e == "" || (|e| < |name| && e == name[|name| - |e|..] && e[0] == '.')
    ensures forall i | 0 < i < |e| :: e[i] != '.'
    ensures e == "" <==> name == ".." || forall i | 0 < i < |name| :: name[i] != '.'
  {
    var k := LastIndexOf(name, '.');
    if k <= 0 || name == ".." then "" else name[k..]
  }

  /** `path.basename(p, path.extname(p))` for a file name: the name without
      its extension. */
  function Stem(name: string): (s: string)
    ensures s + ExtName(name) == name
  {
    name[..|name| - |ExtName(name)|]
  }

  /** An extension as the resolver appends it to a name: a dot followed by
      at least one character that is not a dot. */
  predicate IsExtension(ext: string)
  {
    |ext| >= 2 && ext[0] == '.' && forall i | 0 < i < |ext| :: ext[i] != '.'
  }

  /** Appending an extension to a non-empty stem is undone by `ExtName` and
      `Stem`: the file `name + ext` that the resolver probes for has exactly
      the extension `ext` and the stem `name`. */
  lemma ExtNameOfAppended(stem: string, ext: string)
    requires stem != "" && IsExtension(ext)
    ensures ExtName(stem + ext) == ext
    ensures Stem(stem + ext) == stem
  {
    var s := stem + ext;
    var k := LastIndexOf(s, '.');
    assert s[|stem|] == '.';
    assert forall i | |stem| < i < |s| :: s[i] == ext[i - |stem|];
    assert k == |stem|;
    assert s[k..] == ext;
  }

  /** ASCII case folding, the part of `toLowerCase` that matters for the
      folder names of the convention. */
  function LowerChar(c: char): char
  {
    if 'A' <= c <= 'Z' then (c as int + 32) as char else c
  }

  function Lower(s: string): string
  {
    if s == [] then [] else [LowerChar(s[0])] + Lower(s[1..])
  }

  function LowerPath(p: Path): Path
  {
    if p == [] then [] else [Lower(p[0])] + LowerPath(p[1..])
  }

  /** Two paths whose `toLowerCase()` strings are equal. */
  predicate SameIgnoringCase(a: Path, b: Path)
  {
    LowerPath(a) == LowerPath(b)
  }

  /** A capitalised word and its lower-case spelling fold alike. */
  lemma LowerOfCapitalised(s: string, t: string)
    requires s != [] && t != [] && 'A' <= s[0] <= 'Z'
    requires t[0] == LowerChar(s[0]) && s[1..] == t[1..]
    ensures Lower(s) == Lower(t)
  {
  }

  /** Paths that differ only in the case of their last segment are the same
      path ignoring case. */
  lemma {:induction false} SameIgnoringCaseOfLast(p: Path, a: string, b: string)
    requires Lower(a) == Lower(b)
    ensures SameIgnoringCase(p + [a], p + [b])
  {
    if p != [] {
      assert (p + [a])[1..] == p[1..] + [a];
      assert (p + [b])[1..] == p[1..] + [b];
      SameIgnoringCaseOfLast(p[1..], a, b);
    } else {
      assert LowerPath([a]) == [Lower(a)] + LowerPath([]);
      assert LowerPath([b]) == [Lower(b)] + LowerPath([]);
    }
  }

}
