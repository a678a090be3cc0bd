/** The fixed tables of src/utils.js (recognised extensions, the two
    role-folder tables, the file types) and the array operations the
    resolver applies to them: `indexOf`, `filter(x => x !== v)` and the
    "own value first" reordering. */
module Tables {

  const ValidExtensions: seq<string> := [".js", ".ts", ".jsx", ".tsx"]
  const ValidContainerFolders: seq<string> := ["container", "Container", "containers", "Containers"]
  const ValidComponentFolders: seq<string> := ["component", "Component", "components", "Components"]

  /** `FileType`; `Indeterminate` is the empty string in the source. */
  datatype FileType = Indeterminate | Component | Container

  /** The complementary role: a Component's counterpart is a Container and
      the other way round. */
  function Opposite(t: FileType): (o: FileType)
    ensures t != Indeterminate ==> o != Indeterminate && o != t
  {
    match t
    case Component => Container
    case Container => Component
    case Indeterminate => Indeterminate
  }

  /** The folder-name table of a role (`thisFolders` for the file's own role,
      `thatFolders` for the opposite one). */
  function FoldersOf(t: FileType): (r: seq<string>)
    ensures "" !in r
  {
    match t
    case Component => ValidComponentFolders
    case Container => ValidContainerFolders
    case Indeterminate => []
  }

  /** `Array.prototype.indexOf`: the first position of `x`, or -1. */
  function IndexOf<T(==)>(s: seq<T>, x: T): (r: int)
    ensures -1 <= r < |s|
    ensures r == -1 <==> x !in s
    ensures r >= 0 ==> s[r] == x && x !in s[..r]
  {
    if s == [] then -1
    else if s[0] == x then 0
    else
      var r := IndexOf(s[1..], x);
      if r == -1 then -1
      else
        assert s[..r + 1] == [s[0]] + s[1..][..r];
        r + 1
  }

  /** `s.filter((y) => y !== x)`: `s` in its own order with every `x` taken
      out. */
  function Without<T(==)>(s: seq<T>, x: T): (r: seq<T>)
    ensures x !in r
    ensures multiset(r) == multiset(s)[x := 0]
    ensures |r| <= |s|
  {
    if s == [] then []
    else
      var rest := Without(s[1..], x);
      assert s == [s[0]] + s[1..];
      if s[0] == x then rest else [s[0]] + rest
  }

  /** `[x, ...s.filter((y) => y !== x)]`: the probe order that tries `x`
      first and the rest of `s` in its default order. */
  function Reordered<T(==)>(x: T, s: seq<T>): (r: seq<T>)
    ensures r != [] && r[0] == x && x !in r[1..]
    ensures |r| <= |s| + 1
  {
    [x] + Without(s, x)
  }

  /** No value occurs twice. */
  predicate Distinct<T(==)>(s: seq<T>)
  {
    forall i, j | 0 <= i < j < |s| :: s[i] != s[j]
  }

  /** No table holds a value twice. */
  lemma TablesDistinct()
    ensures Distinct(ValidExtensions)
    ensures Distinct(ValidComponentFolders)
    ensures Distinct(ValidContainerFolders)
  {
  }

  /** The reordered list starts with `x`, holds no value twice when `s`
      holds none, and holds exactly `x` and the values of `s`; when `x` is
      in `s` it is a permutation of `s`, otherwise it is one longer. */
  lemma ReorderedIsPermutation<T>(x: T, s: seq<T>)
    requires Distinct(s)
    ensures Reordered(x, s)[0] == x
    ensures Distinct(Reordered(x, s))
    ensures forall y :: y in Reordered(x, s) <==> y == x || y in s
    ensures x in s ==> multiset(Reordered(x, s)) == multiset(s)
    ensures |Reordered(x, s)| == if x in s then |s| else |s| + 1
  {
    var r := Reordered(x, s);
    var w := Without(s, x);
    assert r[1..] == w;
    DistinctMultiset(s);
    forall y ensures multiset(w)[y] <= 1 {
      assert multiset(w)[y] <= multiset(s)[y];
    }
    MultisetDistinct(w);
    assert multiset(r) == multiset{x} + multiset(w);
    if x in s {
      assert multiset(s)[x] == 1;
      assert multiset(r) == multiset(s);
    } else {
      assert multiset(s)[x] == 0;
      assert multiset(r) == multiset(s) + multiset{x};
    }
    assert |r| == |multiset(r)|;
    assert |s| == |multiset(s)|;
    forall y ensures y in r <==> y == x || y in s {
      assert y in r <==> multiset(r)[y] > 0;
      assert y in s <==> multiset(s)[y] > 0;
    }
  }

  /** Filtering out a value the list does not hold changes nothing. */
  lemma {:induction false} WithoutAbsent<T>(s: seq<T>, x: T)
    ensures x !in s ==> Without(s, x) == s
  {
    if s != [] && x !in s {
      assert s == [s[0]] + s[1..];
      WithoutAbsent(s[1..], x);
    }
  }

  /** Filtering out a value the list holds once takes out exactly that
      entry and keeps the others in their order. */
  lemma WithoutOnce<T>(s: seq<T>, x: T)
    requires Distinct(s)
    ensures x in s ==> Without(s, x) == s[..IndexOf(s, x)] + s[IndexOf(s, x) + 1..]
  {
    if x in s {
      var k := IndexOf(s, x);
      assert x !in s[k + 1..] by {
        forall j | k + 1 <= j < |s| ensures s[j] != x {
          assert s[k] == x;
        }
      }
      WithoutSplit(s, x, k);
    }
  }

  lemma {:induction false} WithoutSplit<T>(s: seq<T>, x: T, i: nat)
    requires i < |s| && s[i] == x && x !in s[..i] && x !in s[i + 1..]
    ensures Without(s, x) == s[..i] + s[i + 1..]
  {
    var t := s[1..];
    assert s == [s[0]] + t;
    if i == 0 {
      WithoutAbsent(t, x);
    } else {
      assert t[..i - 1] == s[1..i];
      assert t[i..] == s[i + 1..];
      WithoutSplit(t, x, i - 1);
      assert s[..i] == [s[0]] + t[..i - 1];
    }
  }

  /** The reordered list is `x` followed by the rest of `s` in its default
      order: all of `s` when `x` is not in it, `s` without the one entry `x`
      otherwise. */
  lemma ReorderedOrder<T>(x: T, s: seq<T>)
    requires Distinct(s)
    ensures x !in s ==> Reordered(x, s) == [x] + s
    ensures x in s ==> Reordered(x, s) == [x] + s[..IndexOf(s, x)] + s[IndexOf(s, x) + 1..]
  {
    WithoutAbsent(s, x);
    WithoutOnce(s, x);
  }

  /** In a list without repeats, the first position of an entry is its
      position. */
  lemma FirstIndexOfDistinct<T>(s: seq<T>, i: nat)
    requires Distinct(s) && i < |s|
    ensures IndexOf(s, s[i]) == i
  {
    assert s[i] in s;
    forall j | 0 <= j < i ensures s[j] != s[i] {
    }
  }

  /** Putting the entry at position `i` first moves it out of its place
      and leaves the others in their order. */
  lemma ReorderedAt<T>(s: seq<T>, i: nat)
    requires Distinct(s) && i < |s|
    ensures Reordered(s[i], s) == [s[i]] + s[..i] + s[i + 1..]
  {
    FirstIndexOfDistinct(s, i);
    ReorderedOrder(s[i], s);
  }

  /** Every value of a list without repeats occurs once. */
  lemma {:induction false} DistinctMultiset<T>(s: seq<T>)
    requires Distinct(s)
    ensures forall y :: multiset(s)[y] <= 1
  {
    if s != [] {
      var t := s[1..];
      assert s == [s[0]] + t;
      assert Distinct(t);
      DistinctMultiset(t);
      assert s[0] !in t;
      assert multiset(t)[s[0]] == 0;
    }
  }

  /** A list in which no value occurs twice has no repeats. */
  lemma {:induction false} MultisetDistinct<T>(s: seq<T>)
    requires forall y :: multiset(s)[y] <= 1
    ensures Distinct(s)
  {
    if s != [] {
      var t := s[1..];
      assert s == [s[0]] + t;
      assert multiset(s) == multiset{s[0]} + multiset(t);
      forall y ensures multiset(t)[y] <= 1 {
        assert multiset(t)[y] <= multiset(s)[y];
      }
      MultisetDistinct(t);
      assert multiset(s)[s[0]] <= 1;
      assert multiset(t)[s[0]] == 0;
      assert s[0] !in t;
      forall i, j | 0 <= i < j < |s| ensures s[i] != s[j] {
        if i == 0 { assert s[j] == t[j - 1]; } else { assert s[i] == t[i - 1] && s[j] == t[j - 1]; }
      }
    }
  }

}
