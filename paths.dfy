/** Paths as sequences of components (`PathBuf`), compared the way `Ord` on
    `Path` compares them: component by component, each component byte by
    byte. */
module Paths {
  import opened Base
  import opened Sorting

  /** One path component: the bytes of an `OsStr`. */
  type Component = seq<byte>

  type Path = seq<Component>

  /** Lexicographic order on byte strings (a proper prefix comes first). */
  predicate BytesLe(a: seq<byte>, b: seq<byte>)
    decreases |a|
  {
    a == [] || (b != [] && (a[0] < b[0] || (a[0] == b[0] && BytesLe(a[1..], b[1..]))))
  }

  /** Ascending path order: lexicographic on components. */
  predicate PathLe(a: Path, b: Path)
    decreases |a|
  {
    a == [] || (b != [] && ((BytesLe(a[0], b[0]) && a[0] != b[0]) || (a[0] == b[0] && PathLe(a[1..], b[1..]))))
  }

  /** `Path::parent`: drop the last component; the empty path has none. */
  function Parent(p: Path): (r: Option<Path>)
    ensures r.Some? <==> p != []
    ensures r.Some? ==> p == r.value + [p[|p| - 1]]
  {
    if p == [] then None else Some(p[..|p| - 1])
  }

  /** `PathBuf::join` with a single component. */
  function Child(dir: Path, name: Component): (r: Path)
    ensures Parent(r) == Some(dir)
  {
    dir + [name]
  }

  /** `dir` is the directory that lists `p`. */
  predicate IsChildOf(p: Path, dir: Path) {
    |p| == |dir| + 1 && dir <= p
  }

  lemma {:induction false} BytesLeTotal(a: seq<byte>, b: seq<byte>)
    ensures BytesLe(a, b) || BytesLe(b, a)
    decreases |a|
  {
    if a != [] && b != [] && a[0] == b[0] {
      BytesLeTotal(a[1..], b[1..]);
    }
  }

  lemma {:induction false} BytesLeTransitive(a: seq<byte>, b: seq<byte>, c: seq<byte>)
    requires BytesLe(a, b) && BytesLe(b, c)
    ensures BytesLe(a, c)
    decreases |a|
  {
    if a != [] && a[0] == b[0] && b[0] == c[0] {
      BytesLeTransitive(a[1..], b[1..], c[1..]);
    }
  }

  lemma {:induction false} BytesLeAntisymmetric(a: seq<byte>, b: seq<byte>)
    requires BytesLe(a, b) && BytesLe(b, a)
    ensures a == b
    decreases |a|
  {
    if a != [] {
      BytesLeAntisymmetric(a[1..], b[1..]);
      assert a == [a[0]] + a[1..] && b == [b[0]] + b[1..];
    }
  }

  lemma {:induction false} PathLeTotal(a: Path, b: Path)
    ensures PathLe(a, b) || PathLe(b, a)
    decreases |a|
  {
    if a != [] && b != [] {
      if a[0] == b[0] {
        PathLeTotal(a[1..], b[1..]);
      } else {
        BytesLeTotal(a[0], b[0]);
      }
    }
  }

  lemma {:induction false} PathLeTransitive(a: Path, b: Path, c: Path)
    requires PathLe(a, b) && PathLe(b, c)
    ensures PathLe(a, c)
    decreases |a|
  {
    if a != [] {
      if a[0] == b[0] && b[0] == c[0] {
        PathLeTransitive(a[1..], b[1..], c[1..]);
      } else if a[0] != b[0] && b[0] != c[0] {
        BytesLeTransitive(a[0], b[0], c[0]);
        if a[0] == c[0] {
          BytesLeAntisymmetric(a[0], b[0]);
        }
      }
    }
  }

  lemma {:induction false} PathLeAntisymmetric(a: Path, b: Path)
    requires PathLe(a, b) && PathLe(b, a)
    ensures a == b
    decreases |a|
  {
    if a != [] {
      if a[0] == b[0] {
        PathLeAntisymmetric(a[1..], b[1..]);
        assert a == [a[0]] + a[1..] && b == [b[0]] + b[1..];
      } else {
        BytesLeAntisymmetric(a[0], b[0]);
      }
    }
  }

  /** The path order is a total order: a total preorder in which only equal
      paths are equivalent. */
  lemma PathOrder()
    ensures TotalPreorder(PathLe)
    ensures forall a, b :: PathLe(a, b) && PathLe(b, a) ==> a == b
  {
    forall a, b ensures PathLe(a, b) || PathLe(b, a) {
      PathLeTotal(a, b);
    }
    forall a, b, c | PathLe(a, b) && PathLe(b, c) ensures PathLe(a, c) {
      PathLeTransitive(a, b, c);
    }
    forall a, b | PathLe(a, b) && PathLe(b, a) ensures a == b {
      PathLeAntisymmetric(a, b);
    }
  }
}
