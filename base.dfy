/** Shared vocabulary: bytes, the option/result wrappers the program's
    `Option`, `Result` and `io::Error` stand for, and first-match search. */
module Base {

  /** An unsigned 8-bit value (Rust `u8`). */
  newtype byte = x: int | 0 <= x < 0x100

  /** Rust `u16`, used for the viewer's scroll offset. */
  newtype u16 = x: int | 0 <= x < 0x1_0000

  datatype Option<+T> = None | Some(value: T)

  datatype Result<+T, +E> = Success(value: T) | Failure(error: E)

  /** A `Result<(), E>`. */
  datatype Outcome<+E> = Pass | Fail(error: E)

  /** The `io::Error` values the program produces or propagates. */
  datatype IoError =
    | NotADirectory      // read_dir on a path that is not a readable directory
    | NotAFile           // read / remove_file on a path that is not a regular file
    | CannotCreate       // File::create on a path held by a directory or a special file
    | NotCreatedInSession  // deleting a file this session did not write
    | FolderNotDeletable   // deleting a folder
    | ActionNotDeletable   // deleting a Back or Root entry
    | InvalidKey           // a key shorter than five bytes

  /** Position of the first occurrence of `x` in `s` (`iter().position`). */
  function IndexOf<T(==)>(s: seq<T>, x: T): (r: Option<nat>)
    ensures r.None? <==> x !in s
    ensures r.Some? ==> r.value < |s| && s[r.value] == x && x !in s[..r.value]
  {
    if s == [] then None
    else if s[0] == x then Some(0)
    else
      match IndexOf(s[1..], x)
      case None => None
      case Some(i) =>
        assert s[1..][..i] == s[1..i + 1];
        Some(i + 1)
  }

  /** An occurrence with no earlier one is the first occurrence. */
  lemma {:induction false} IndexOfFirst<T>(s: seq<T>, x: T, k: nat)
    requires k < |s| && s[k] == x && x !in s[..k]
    ensures IndexOf(s, x) == Some(k)
  {
    if k > 0 {
      assert s[..k] == [s[0]] + s[1..][..k - 1];
      IndexOfFirst(s[1..], x, k - 1);
    }
  }

  /** `Vec::remove(i)`: the sequence without its `i`-th element. */
  function RemoveAt<T>(s: seq<T>, i: nat): (r: seq<T>)
    requires i < |s|
    ensures |r| == |s| - 1
    ensures multiset(r) == multiset(s) - multiset{s[i]}
  {
    assert s == s[..i] + [s[i]] + s[i + 1..];
    s[..i] + s[i + 1..]
  }
}
