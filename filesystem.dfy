/** The filesystem the manager works on, as a value: a map from paths to
    entries. It stands in for `read_dir`, `is_dir`, `is_file`, `metadata`,
    `read_to_string`/`read`, `File::create` + `write_all` and `remove_file`;
    each call fails exactly when the entry it needs is missing or of the
    wrong kind. */
module FileSystem {
  import opened Base
  import opened Paths

  /** What `metadata()` says about a file's modification time. */
  datatype Stamp =
    | NoMetadata          // metadata() fails
    | NoModified          // metadata() succeeds, modified() fails
    | Modified(time: int) // the modification time, in the clock's full resolution

  /** A directory lists its entries' names in the order `read_dir` yields
      them; anything that is neither a directory nor a regular file (a
      socket, a dangling link, ...) is `Special`. */
  datatype Entry =
    | Dir(names: seq<Component>)
    | File(stamp: Stamp, content: seq<byte>)
    | Special

  datatype Disk = Disk(nodes: map<Path, Entry>)

  /** `Path::is_dir` */
  predicate IsDir(disk: Disk, p: Path) {
    p in disk.nodes && disk.nodes[p].Dir?
  }

  /** `Path::is_file` */
  predicate IsFile(disk: Disk, p: Path) {
    p in disk.nodes && disk.nodes[p].File?
  }

  /** `read_dir(dir)` collected into the paths of its entries. */
  function ReadDir(disk: Disk, dir: Path): (r: Result<seq<Path>, IoError>)
    ensures r.Success? <==> IsDir(disk, dir)
    ensures r.Failure? ==> r.error == NotADirectory
    ensures r.Success? ==> |r.value| == |disk.nodes[dir].names|
    ensures r.Success? ==> forall i :: 0 <= i < |r.value| ==>
      IsChildOf(r.value[i], dir) && r.value[i][|dir|] == disk.nodes[dir].names[i]
  {
    if IsDir(disk, dir) then
      var names := disk.nodes[dir].names;
      Success(seq(|names|, i requires 0 <= i < |names| => Child(dir, names[i])))
    else Failure(NotADirectory)
  }

  /** The key files are sorted by, before it is reversed: no key when the
      metadata cannot be read, the Unix epoch (0) when the metadata holds no
      modification time, and that time otherwise. */
  function ModifiedKey(disk: Disk, p: Path): (r: Option<int>)
    ensures IsFile(disk, p) && disk.nodes[p].stamp.NoModified? ==> r == Some(0)
  {
    if IsFile(disk, p) then
      match disk.nodes[p].stamp
      case NoMetadata => None
      case NoModified => Some(0)
      case Modified(t) => Some(t)
    else None
  }

  /** `read(path)` */
  function ReadFile(disk: Disk, p: Path): (r: Result<seq<byte>, IoError>)
    ensures r.Success? <==> IsFile(disk, p)
  {
    if IsFile(disk, p) then Success(disk.nodes[p].content) else Failure(NotAFile)
  }

  /** `names` without any occurrence of `name`. */
  function Without(names: seq<Component>, name: Component): (r: seq<Component>)
    ensures name !in r
    ensures forall n :: n in r <==> n in names && n != name
  {
    if names == [] then []
    else (if names[0] == name then [] else [names[0]]) + Without(names[1..], name)
  }

  /** `File::create(dir/name)` followed by `write_all(data)`: the file is
      created or truncated, holds `data` and is stamped `now`; the directory
      lists it once. */
  function WriteFile(disk: Disk, dir: Path, name: Component, data: seq<byte>, now: int): (r: Result<Disk, IoError>)
    ensures r.Success? <==> IsDir(disk, dir) && (Child(dir, name) in disk.nodes ==> IsFile(disk, Child(dir, name)))
    ensures r.Failure? ==> r.error == CannotCreate
    ensures r.Success? ==>
      && ReadFile(r.value, Child(dir, name)) == Success(data)
      && IsDir(r.value, dir)
      && Child(dir, name) in ReadDir(r.value, dir).value
    ensures r.Success? ==> forall c :: c in ReadDir(disk, dir).value ==> c in ReadDir(r.value, dir).value
  {
    var path := Child(dir, name);
    if IsDir(disk, dir) && (path in disk.nodes ==> IsFile(disk, path)) then
      var names := disk.nodes[dir].names;
      var listed := if name in names then names else names + [name];
      var r := Disk(disk.nodes[dir := Dir(listed)][path := File(Modified(now), data)]);
      assert name in r.nodes[dir].names;
      var k :| 0 <= k < |listed| && listed[k] == name;
      assert ReadDir(r, dir).value[k] == path;
      assert forall j :: 0 <= j < |names| ==> ReadDir(disk, dir).value[j] == ReadDir(r, dir).value[j];
      Success(r)
    else Failure(CannotCreate)
  }

  /** `remove_file(path)`: the file disappears, and so does its name from the
      directory that listed it. */
  function RemoveFile(disk: Disk, p: Path): (r: Result<Disk, IoError>)
    ensures r.Success? <==> IsFile(disk, p)
    ensures r.Failure? ==> r.error == NotAFile
    ensures r.Success? ==> p !in r.value.nodes
    ensures r.Success? ==> forall q :: q in disk.nodes && q != p && !(Parent(p) == Some(q)) ==>
      q in r.value.nodes && r.value.nodes[q] == disk.nodes[q]
  {
    if IsFile(disk, p) then
      var rest := disk.nodes - {p};
      match Parent(p)
      case Some(dir) =>
        if IsDir(disk, dir) then
          Success(Disk(rest[dir := Dir(Without(disk.nodes[dir].names, p[|p| - 1]))]))
        else Success(Disk(rest))
      case None => Success(Disk(rest))
    else Failure(NotAFile)
  }

  /** Writing a file leaves every other entry as it was. */
  lemma WriteFileFrame(disk: Disk, dir: Path, name: Component, data: seq<byte>, now: int, q: Path)
    requires WriteFile(disk, dir, name, data, now).Success?
    requires q != dir && q != Child(dir, name)
    ensures var d := WriteFile(disk, dir, name, data, now).value;
      (q in d.nodes <==> q in disk.nodes) && (q in disk.nodes ==> d.nodes[q] == disk.nodes[q])
  {
  }

  /** A file just written can be removed: afterwards reading it fails and
      its directory, still a directory, no longer lists it. */
  lemma RemoveAfterWrite(disk: Disk, dir: Path, name: Component, data: seq<byte>, now: int)
    requires WriteFile(disk, dir, name, data, now).Success?
    ensures var d := WriteFile(disk, dir, name, data, now).value;
      && RemoveFile(d, Child(dir, name)).Success?
      && ReadFile(RemoveFile(d, Child(dir, name)).value, Child(dir, name)).Failure?
      && IsDir(RemoveFile(d, Child(dir, name)).value, dir)
      && Child(dir, name) !in ReadDir(RemoveFile(d, Child(dir, name)).value, dir).value
  {
    var d := WriteFile(disk, dir, name, data, now).value;
    var p := Child(dir, name);
    assert p[|p| - 1] == name && p[..|p| - 1] == dir;
  }
}
