/** The file manager: the typed listing of the current directory, the
    selection cursor over it, navigation, and the bookkeeping that lets a
    session delete only the files it wrote itself. */
module Manage {
  import opened Base
  import opened Utf8
  import opened Sorting
  import opened Paths
  import opened FileSystem

  /** The two virtual entries shown below the listing outside the root. */
  datatype Nav = Back | Root

  /** `ManagerEntity` */
  datatype Entity = TextFile(path: Path) | Folder(path: Path) | Action(nav: Nav)

  /** What `action` hands back: a file's content, or nothing. */
  datatype Respond = Text(text: Str) | Bin(bytes: seq<byte>) | Empty

  // ---------------------------------------------------------------------
  // The listing (`create_entities`)
  // ---------------------------------------------------------------------

  /** The paths among `files` that are directories. The contract counts
      them; that they keep the order of `files` comes from the body, which
      filters left to right, and is what `ListingStable` builds on. */
  function Dirs(disk: Disk, files: seq<Path>): (r: seq<Path>)
    ensures forall p :: multiset(r)[p] == if IsDir(disk, p) then multiset(files)[p] else 0
  {
    if files == [] then []
    else
      assert files == [files[0]] + files[1..];
      (if IsDir(disk, files[0]) then [files[0]] else []) + Dirs(disk, files[1..])
  }

  /** The paths among `files` that are regular files. The contract counts
      them; that they keep the order of `files` comes from the body, which
      filters left to right, and is what `ListingStable` builds on. */
  function Regular(disk: Disk, files: seq<Path>): (r: seq<Path>)
    ensures forall p :: multiset(r)[p] == if IsFile(disk, p) then multiset(files)[p] else 0
  {
    if files == [] then []
    else
      assert files == [files[0]] + files[1..];
      (if IsFile(disk, files[0]) then [files[0]] else []) + Regular(disk, files[1..])
  }

  /** `Reverse` of `Option`'s order: a later time before an earlier one, and
      any time before no time at all. */
  predicate NewerOrSame(a: Option<int>, b: Option<int>) {
    match (a, b)
    case (Some(s), Some(t)) => s >= t
    case (Some(_), None) => true
    case (None, Some(_)) => false
    case (None, None) => true
  }

  /** The order files are listed in: newest modification time first. */
  function NewestFirst(disk: Disk): (Path, Path) -> bool {
    (a: Path, b: Path) => NewerOrSame(ModifiedKey(disk, a), ModifiedKey(disk, b))
  }

  function FoldersOf(ps: seq<Path>): (r: seq<Entity>)
    ensures |r| == |ps| && forall i :: 0 <= i < |r| ==> r[i] == Folder(ps[i])
  {
    seq(|ps|, i requires 0 <= i < |ps| => Folder(ps[i]))
  }

  function TextFilesOf(ps: seq<Path>): (r: seq<Entity>)
    ensures |r| == |ps| && forall i :: 0 <= i < |r| ==> r[i] == TextFile(ps[i])
  {
    seq(|ps|, i requires 0 <= i < |ps| => TextFile(ps[i]))
  }

  /** The paths of the entries of `es`, skipping Back and Root. */
  function PathsOf(es: seq<Entity>): seq<Path> {
    if es == [] then []
    else (if es[0].Action? then [] else [es[0].path]) + PathsOf(es[1..])
  }

  lemma {:induction false} PathsOfFolders(ps: seq<Path>)
    ensures PathsOf(FoldersOf(ps)) == ps
  {
    if ps != [] {
      assert FoldersOf(ps)[1..] == FoldersOf(ps[1..]);
      PathsOfFolders(ps[1..]);
    }
  }

  lemma {:induction false} PathsOfTextFiles(ps: seq<Path>)
    ensures PathsOf(TextFilesOf(ps)) == ps
  {
    if ps != [] {
      assert TextFilesOf(ps)[1..] == TextFilesOf(ps[1..]);
      PathsOfTextFiles(ps[1..]);
    }
  }

  /** `create_entities`: folders by ascending path, then files newest first,
      then Back and Root unless this is the root directory. */
  function CreateEntities(disk: Disk, files: seq<Path>, isRoot: bool): seq<Entity> {
    FoldersOf(SortBy(Dirs(disk, files), PathLe))
      + TextFilesOf(SortBy(Regular(disk, files), NewestFirst(disk)))
      + (if isRoot then [] else [Action(Back), Action(Root)])
  }

  /** The listing `goto_dir` builds for `dir`. */
  function Listing(disk: Disk, dir: Path, root: Path): seq<Entity>
    requires IsDir(disk, dir)
  {
    CreateEntities(disk, ReadDir(disk, dir).value, dir == root)
  }

  lemma NewestFirstOrder(disk: Disk)
    ensures TotalPreorder(NewestFirst(disk))
    ensures forall a, b :: Equivalent(NewestFirst(disk), a, b) <==> ModifiedKey(disk, a) == ModifiedKey(disk, b)
  {
  }

  /** The three runs of a listing, before any property of the sort. */
  lemma CreateEntitiesParts(disk: Disk, files: seq<Path>, isRoot: bool)
    ensures var ds := SortBy(Dirs(disk, files), PathLe);
      var fs := SortBy(Regular(disk, files), NewestFirst(disk));
      var r := CreateEntities(disk, files, isRoot);
      && |r| == |ds| + |fs| + (if isRoot then 0 else 2)
      && r[..|ds|] == FoldersOf(ds)
      && r[|ds|..|ds| + |fs|] == TextFilesOf(fs)
      && r[|ds| + |fs|..] == (if isRoot then [] else [Action(Back), Action(Root)])
  {
    var ds := SortBy(Dirs(disk, files), PathLe);
    var fs := SortBy(Regular(disk, files), NewestFirst(disk));
    var a := FoldersOf(ds);
    var b := TextFilesOf(fs);
    var c: seq<Entity> := if isRoot then [] else [Action(Back), Action(Root)];
    assert CreateEntities(disk, files, isRoot) == a + b + c;
    ConcatParts(a, b, c);
  }

  lemma ConcatParts<T>(a: seq<T>, b: seq<T>, c: seq<T>)
    ensures |a + b + c| == |a| + |b| + |c|
    ensures (a + b + c)[..|a|] == a
    ensures (a + b + c)[|a|..|a| + |b|] == b
    ensures (a + b + c)[|a| + |b|..] == c
  {
  }

  /** The folder run of a listing: ascending by path, exactly the
      directories among `files`. */
  lemma FolderRun(disk: Disk, files: seq<Path>)
    ensures SortedBy(SortBy(Dirs(disk, files), PathLe), PathLe)
  {
    PathOrder();
    SortBySorted(Dirs(disk, files), PathLe);
  }

  lemma FileRunSorted(disk: Disk, files: seq<Path>)
    ensures SortedBy(SortBy(Regular(disk, files), NewestFirst(disk)), NewestFirst(disk))
  {
    NewestFirstOrder(disk);
    SortBySorted(Regular(disk, files), NewestFirst(disk));
  }

  lemma FileRunStable(disk: Disk, files: seq<Path>, x: Path)
    ensures Equivalents(SortBy(Regular(disk, files), NewestFirst(disk)), NewestFirst(disk), x)
         == Equivalents(Regular(disk, files), NewestFirst(disk), x)
  {
    NewestFirstOrder(disk);
    SortByStable(Regular(disk, files), NewestFirst(disk), x);
  }

  /** Sorting a run keeps its length. */
  lemma RunLengths(disk: Disk, files: seq<Path>)
    ensures |SortBy(Dirs(disk, files), PathLe)| == |Dirs(disk, files)|
    ensures |SortBy(Regular(disk, files), NewestFirst(disk))| == |Regular(disk, files)|
  {
    assert |multiset(SortBy(Dirs(disk, files), PathLe))| == |multiset(Dirs(disk, files))|;
    assert |multiset(SortBy(Regular(disk, files), NewestFirst(disk)))| == |multiset(Regular(disk, files))|;
  }

  /** Folders, then text files, then `c`, index by index. */
  lemma RunKinds(ds: seq<Path>, fs: seq<Path>, c: seq<Entity>)
    ensures var r := FoldersOf(ds) + TextFilesOf(fs) + c;
      && |r| == |ds| + |fs| + |c|
      && (forall i :: 0 <= i < |ds| ==> r[i].Folder?)
      && (forall i :: |ds| <= i < |ds| + |fs| ==> r[i].TextFile?)
      && r[|ds| + |fs|..] == c
  {
    var r := FoldersOf(ds) + TextFilesOf(fs) + c;
    forall i | |ds| <= i < |ds| + |fs| ensures r[i].TextFile? {
      assert r[i] == TextFilesOf(fs)[i - |ds|];
    }
    assert r[|ds| + |fs|..] == c;
  }

  /** The layout of a listing: the folders, then the files, then Back and
      Root exactly when this is not the root directory. */
  lemma ListingLayout(disk: Disk, files: seq<Path>, isRoot: bool)
    ensures var r := CreateEntities(disk, files, isRoot);
      var nd := |Dirs(disk, files)|;
      var nf := |Regular(disk, files)|;
      && |r| == nd + nf + (if isRoot then 0 else 2)
      && (forall i :: 0 <= i < nd ==> r[i].Folder?)
      && (forall i :: nd <= i < nd + nf ==> r[i].TextFile?)
      && r[nd + nf..] == (if isRoot then [] else [Action(Back), Action(Root)])
  {
    RunLengths(disk, files);
    RunKinds(SortBy(Dirs(disk, files), PathLe), SortBy(Regular(disk, files), NewestFirst(disk)),
             if isRoot then [] else [Action(Back), Action(Root)]);
  }

  /** The folder run of a listing: ascending by path, and exactly the
      directories among `files`. */
  lemma ListingFolders(disk: Disk, files: seq<Path>, isRoot: bool)
    ensures var r := CreateEntities(disk, files, isRoot);
      var nd := |Dirs(disk, files)|;
      && nd <= |r|
      && SortedBy(PathsOf(r[..nd]), PathLe)
      && multiset(PathsOf(r[..nd])) == multiset(Dirs(disk, files))
  {
    var ds := SortBy(Dirs(disk, files), PathLe);
    CreateEntitiesParts(disk, files, isRoot);
    RunLengths(disk, files);
    PathsOfFolders(ds);
    FolderRun(disk, files);
  }

  /** The file run of a listing: newest first, and exactly the regular files
      among `files`. */
  lemma ListingFiles(disk: Disk, files: seq<Path>, isRoot: bool)
    ensures var r := CreateEntities(disk, files, isRoot);
      var nd := |Dirs(disk, files)|;
      var nf := |Regular(disk, files)|;
      && nd + nf <= |r|
      && SortedBy(PathsOf(r[nd..nd + nf]), NewestFirst(disk))
      && multiset(PathsOf(r[nd..nd + nf])) == multiset(Regular(disk, files))
  {
    var ds := SortBy(Dirs(disk, files), PathLe);
    var fs := SortBy(Regular(disk, files), NewestFirst(disk));
    CreateEntitiesParts(disk, files, isRoot);
    RunLengths(disk, files);
    PathsOfTextFiles(fs);
    FileRunSorted(disk, files);
  }

  /** In a run sorted newest first, files whose metadata cannot be read come
      after every file that has a modification key; `ListingFiles` says the
      file run of a listing is such a run. */
  lemma NoMetadataLast(disk: Disk, run: seq<Path>, i: nat, j: nat)
    requires SortedBy(run, NewestFirst(disk))
    requires i < j < |run|
    ensures ModifiedKey(disk, run[i]).None? ==> ModifiedKey(disk, run[j]).None?
  {
    assert NewestFirst(disk)(run[i], run[j]);
  }

  /** Files with the same modification key as `x` appear in the listing in
      the order `read_dir` gave them. */
  lemma ListingStable(disk: Disk, files: seq<Path>, isRoot: bool, x: Path)
    ensures var r := CreateEntities(disk, files, isRoot);
      var nd := |Dirs(disk, files)|;
      var nf := |Regular(disk, files)|;
      nd + nf <= |r| &&
      Equivalents(PathsOf(r[nd..nd + nf]), NewestFirst(disk), x)
        == Equivalents(Regular(disk, files), NewestFirst(disk), x)
  {
    var ds := SortBy(Dirs(disk, files), PathLe);
    var fs := SortBy(Regular(disk, files), NewestFirst(disk));
    CreateEntitiesParts(disk, files, isRoot);
    RunLengths(disk, files);
    PathsOfTextFiles(fs);
    FileRunStable(disk, files, x);
  }

  lemma FoldersOfMember(ps: seq<Path>, e: Entity)
    ensures e in FoldersOf(ps) <==> e.Folder? && e.path in ps
  {
    if e.Folder? && e.path in ps {
      var i :| 0 <= i < |ps| && ps[i] == e.path;
      assert FoldersOf(ps)[i] == e;
    }
  }

  lemma TextFilesOfMember(ps: seq<Path>, e: Entity)
    ensures e in TextFilesOf(ps) <==> e.TextFile? && e.path in ps
  {
    if e.TextFile? && e.path in ps {
      var i :| 0 <= i < |ps| && ps[i] == e.path;
      assert TextFilesOf(ps)[i] == e;
    }
  }

  /** Sorting keeps exactly the members of what it sorts. */
  lemma SortedMember<T>(s: seq<T>, le: (T, T) -> bool, x: T)
    ensures x in SortBy(s, le) <==> x in s
  {
    assert x in SortBy(s, le) <==> multiset(SortBy(s, le))[x] > 0;
    assert x in s <==> multiset(s)[x] > 0;
  }

  lemma DirsMember(disk: Disk, files: seq<Path>, p: Path)
    ensures p in Dirs(disk, files) <==> p in files && IsDir(disk, p)
  {
    assert p in Dirs(disk, files) <==> multiset(Dirs(disk, files))[p] > 0;
    assert p in files <==> multiset(files)[p] > 0;
  }

  lemma RegularMember(disk: Disk, files: seq<Path>, p: Path)
    ensures p in Regular(disk, files) <==> p in files && IsFile(disk, p)
  {
    assert p in Regular(disk, files) <==> multiset(Regular(disk, files))[p] > 0;
    assert p in files <==> multiset(files)[p] > 0;
  }

  /** What folders, then text files, then `c` hold. */
  lemma RunMember(ds: seq<Path>, fs: seq<Path>, c: seq<Entity>, e: Entity)
    ensures e in FoldersOf(ds) + TextFilesOf(fs) + c <==>
      || (e.Folder? && e.path in ds)
      || (e.TextFile? && e.path in fs)
      || e in c
  {
    FoldersOfMember(ds, e);
    TextFilesOfMember(fs, e);
  }

  /** Exactly what a listing holds: a folder for each directory among
      `files`, a text file for each regular file among them, and Back and
      Root outside the root directory. */
  lemma ListingMembers(disk: Disk, files: seq<Path>, isRoot: bool)
    ensures forall e :: e in CreateEntities(disk, files, isRoot) <==>
      || (e.Folder? && e.path in files && IsDir(disk, e.path))
      || (e.TextFile? && e.path in files && IsFile(disk, e.path))
      || (e.Action? && !isRoot)
  {
    var ds := SortBy(Dirs(disk, files), PathLe);
    var fs := SortBy(Regular(disk, files), NewestFirst(disk));
    var c: seq<Entity> := if isRoot then [] else [Action(Back), Action(Root)];
    forall e
      ensures e in CreateEntities(disk, files, isRoot) <==>
        || (e.Folder? && e.path in files && IsDir(disk, e.path))
        || (e.TextFile? && e.path in files && IsFile(disk, e.path))
        || (e.Action? && !isRoot)
    {
      RunMember(ds, fs, c, e);
      match e {
        case Folder(p) =>
          SortedMember(Dirs(disk, files), PathLe, p);
          DirsMember(disk, files, p);
        case TextFile(p) =>
          SortedMember(Regular(disk, files), NewestFirst(disk), p);
          RegularMember(disk, files, p);
        case Action(nav) =>
          assert nav.Back? || nav.Root?;
      }
    }
  }

  /** A listing of `dir` holds children of `dir` besides Back and Root, and
      offers Back only when `dir` is not the root. */
  lemma ListingInDir(disk: Disk, dir: Path, root: Path)
    requires IsDir(disk, dir)
    ensures forall e | e in Listing(disk, dir, root) :: !e.Action? ==> IsChildOf(e.path, dir)
    ensures Action(Back) in Listing(disk, dir, root) ==> dir != root
  {
    var files := ReadDir(disk, dir).value;
    ListingMembers(disk, files, dir == root);
    forall p | p in files ensures IsChildOf(p, dir) {
      var k :| 0 <= k < |files| && files[k] == p;
    }
  }

  // ---------------------------------------------------------------------
  // The cursor (`next`, `previous`)
  // ---------------------------------------------------------------------

  /** `next`: the first entry from no selection, then one down, wrapping
      from the last entry to the first. */
  function NextIndex(sel: Option<nat>, n: nat): (r: Option<nat>)
    requires sel.Some? ==> sel.value < n
    ensures n == 0 ==> r == None
    ensures n > 0 ==> r.Some? && r.value < n
    ensures n > 0 && sel.None? ==> r == Some(0)
    ensures sel.Some? ==> r == Some(if sel.value + 1 == n then 0 else sel.value + 1)
  {
    if n == 0 then None
    else match sel
      case Some(v) => Some((v + 1) % n)
      case None => Some(0)
  }

  /** `previous`: the last entry from no selection, then one up, wrapping
      from the first entry to the last. */
  function PrevIndex(sel: Option<nat>, n: nat): (r: Option<nat>)
    requires sel.Some? ==> sel.value < n
    ensures n == 0 ==> r == None
    ensures n > 0 ==> r.Some? && r.value < n
    ensures n > 0 && sel.None? ==> r == Some(n - 1)
    ensures sel.Some? ==> r == Some(if sel.value == 0 then n - 1 else sel.value - 1)
  {
    if n == 0 then None
    else match sel
      case Some(0) => Some(n - 1)
      case Some(v) => Some(v - 1)
      case None => Some(n - 1)
  }

  /** Moving down then up, or up then down, returns to the same entry. */
  lemma NextPrevInverse(i: nat, n: nat)
    requires i < n
    ensures PrevIndex(NextIndex(Some(i), n), n) == Some(i)
    ensures NextIndex(PrevIndex(Some(i), n), n) == Some(i)
  {
  }

  /** `next` called `k` times. */
  function NextTimes(sel: Option<nat>, n: nat, k: nat): (r: Option<nat>)
    requires sel.Some? ==> sel.value < n
    ensures r.Some? ==> r.value < n
    decreases k
  {
    if k == 0 then sel else NextIndex(NextTimes(sel, n, k - 1), n)
  }

  /** From entry `i`, `k <= n` calls of `next` walk down `k` entries, wrapping
      past the last; in particular `n` calls come back to `i`. */
  lemma {:induction false} NextTimesFrom(i: nat, n: nat, k: nat)
    requires i < n && k <= n
    ensures NextTimes(Some(i), n, k) == Some(if i + k < n then i + k else i + k - n)
    ensures k == n ==> NextTimes(Some(i), n, k) == Some(i)
  {
    if k > 0 {
      NextTimesFrom(i, n, k - 1);
    }
  }

  /** From no selection, `k + 1` calls of `next` (for `k < n`) land on entry
      `k`: `n` calls end on the last entry and the `n + 1`-th returns to the
      first. */
  lemma {:induction false} NextTimesFromNone(n: nat, k: nat)
    requires k < n
    ensures NextTimes(None, n, k + 1) == Some(k)
    ensures k + 1 == n ==> NextTimes(None, n, n + 1) == Some(0)
  {
    if k > 0 {
      NextTimesFromNone(n, k - 1);
    }
  }

  /** `refresh` re-selects the old index only if it is still in range. */
  function KeepSelection(sel: Option<nat>, n: nat): (r: Option<nat>)
    ensures r.Some? ==> r.value < n
    ensures r.Some? ==> r == sel
    ensures sel.Some? && sel.value < n ==> r == sel
  {
    if sel.Some? && sel.value < n then sel else None
  }

  // ---------------------------------------------------------------------
  // Opening and deleting the selected entry
  // ---------------------------------------------------------------------

  /** `action` on a text file: `read_to_string`, falling back to `read` when
      the bytes are not UTF-8. */
  function ReadEntity(disk: Disk, p: Path): (r: Result<Respond, IoError>)
    ensures r.Success? <==> IsFile(disk, p)
    ensures r.Failure? ==> r.error == NotAFile
    ensures r.Success? ==> r.value.Text? || r.value.Bin?
    ensures r.Success? && r.value.Text? ==> ValidUtf8(disk.nodes[p].content) && r.value.text == disk.nodes[p].content
    ensures r.Success? && r.value.Bin? ==> !ValidUtf8(disk.nodes[p].content) && r.value.bytes == disk.nodes[p].content
  {
    match ReadFile(disk, p)
    case Failure(e) => Failure(e)
    case Success(bytes) => if ValidUtf8(bytes) then Success(Text(bytes)) else Success(Bin(bytes))
  }

  /** Where `action` navigates for an entry: a folder's path, the parent of
      `current` for Back (nowhere without one), `root` for Root. */
  function Destination(e: Entity, current: Path, root: Path): (r: Option<Path>)
    ensures e.Folder? ==> r == Some(e.path)
    ensures e.TextFile? ==> r == None
    ensures e == Action(Back) ==> (r.Some? <==> current != []) && (r.Some? ==> current == r.value + [current[|current| - 1]])
    ensures e == Action(Root) ==> r == Some(root)
  {
    match e
    case TextFile(_) => None
    case Folder(p) => Some(p)
    case Action(Back) => Parent(current)
    case Action(Root) => Some(root)
  }

  /** What `delete_selected` does to the session's created files and to the
      disk before it refreshes, or the error it stops with. */
  function DeleteEffect(sel: Option<Entity>, created: seq<Entity>, disk: Disk): (r: Result<(seq<Entity>, Disk), IoError>)
    ensures sel.None? ==> r == Success((created, disk))
    ensures sel.Some? && r.Success? ==> sel.value.TextFile? && sel.value in created && sel.value.path !in r.value.1.nodes
  {
    match sel
    case None => Success((created, disk))
    case Some(TextFile(p)) =>
      (match IndexOf(created, TextFile(p))
       case None => Failure(NotCreatedInSession)
       case Some(i) =>
         match RemoveFile(disk, p)
         case Failure(e) => Failure(e)
         case Success(d) => Success((RemoveAt(created, i), d)))
    case Some(Folder(_)) => Failure(FolderNotDeletable)
    case Some(Action(_)) => Failure(ActionNotDeletable)
  }

  /** Only a file this session created, and still on disk, can be deleted;
      folders and Back/Root never can. Deleting takes out exactly the first
      matching record and removes the file. */
  lemma DeleteGate(e: Entity, created: seq<Entity>, disk: Disk)
    ensures var r := DeleteEffect(Some(e), created, disk);
      && (r.Success? <==> e.TextFile? && e in created && IsFile(disk, e.path))
      && (e.Folder? ==> r == Failure(FolderNotDeletable))
      && (e.Action? ==> r == Failure(ActionNotDeletable))
      && (e.TextFile? && e !in created ==> r == Failure(NotCreatedInSession))
      && (r.Success? ==>
            && r.value.0 == RemoveAt(created, IndexOf(created, e).value)
            && multiset(r.value.0) == multiset(created) - multiset{e}
            && e.path !in r.value.1.nodes)
  {
  }

  /** A file written into `dir` and recorded as created can be deleted exactly
      once: the first deletion restores the previous records and a second one
      is refused. */
  lemma {:induction false} DeletableExactlyOnce(created: seq<Entity>, disk: Disk, dir: Path, name: Component, data: seq<byte>, now: int)
    requires WriteFile(disk, dir, name, data, now).Success?
    requires TextFile(Child(dir, name)) !in created
    ensures var e := TextFile(Child(dir, name));
      var first := DeleteEffect(Some(e), created + [e], WriteFile(disk, dir, name, data, now).value);
      && first.Success?
      && first.value.0 == created
      && DeleteEffect(Some(e), first.value.0, first.value.1) == Failure(NotCreatedInSession)
  {
    var e := TextFile(Child(dir, name));
    var d := WriteFile(disk, dir, name, data, now).value;
    var idx := IndexOf(created + [e], e);
    assert forall j :: 0 <= j < |created| ==> (created + [e])[j] == created[j];
    assert (created + [e])[|created|] == e;
    assert RemoveAt(created + [e], |created|) == created;
  }

  /** The display name of an entry: the last component of its path when that
      is UTF-8; Back and Root have none. */
  function NameOf(e: Entity): (r: Option<Str>)
    ensures r.Some? <==> !e.Action? && e.path != [] && ValidUtf8(e.path[|e.path| - 1])
    ensures r.Some? ==> r.value == e.path[|e.path| - 1]
  {
    match e
    case Action(_) => None
    case _ =>
      if e.path != [] && ValidUtf8(e.path[|e.path| - 1]) then Some(e.path[|e.path| - 1]) else None
  }

  // ---------------------------------------------------------------------
  // `FileManager`
  // ---------------------------------------------------------------------

  /** The fields of a `FileManager` that its methods update, as one value. */
  datatype Snapshot = Snapshot(current: Path, entities: seq<Entity>, selected: Option<nat>, created: seq<Entity>)

  class FileManager {
    const root: Path
    var current: Path
    var entities: seq<Entity>
    var selected: Option<nat>
    /** `created_entities`: one record per file this session wrote, in order,
        duplicates kept. */
    var created: seq<Entity>

    /** The cursor points into the listing; the listing holds children of
        `current`; `current` lies inside `root`, strictly below it whenever
        Back is offered; only file records are kept as created. */
    ghost predicate Valid()
      reads this
    {
      && (selected.Some? ==> selected.value < |entities|)
      && root <= current
      && (forall e | e in entities :: !e.Action? ==> IsChildOf(e.path, current))
      && (Entity.Action(Back) in entities ==> current != root)
      && (forall e | e in created :: e.TextFile?)
    }

    constructor Init(root: Path, entities: seq<Entity>)
      requires forall e | e in entities :: !e.Action? ==> IsChildOf(e.path, root)
      requires Entity.Action(Back) !in entities
      ensures Valid()
      ensures this.root == root && current == root && this.entities == entities
      ensures selected == None && created == []
    {
      this.root := root;
      current := root;
      this.entities := entities;
      selected := None;
      created := [];
    }

    /** `FileManager::new`: list `root` as the root directory. */
    static method Open(disk: Disk, root: Path) returns (r: Result<FileManager, IoError>)
      ensures r.Failure? <==> !IsDir(disk, root)
      ensures r.Failure? ==> r.error == NotADirectory
      ensures r.Success? ==> fresh(r.value) && r.value.Valid()
      ensures r.Success? ==> r.value.root == root && r.value.current == root
      ensures r.Success? ==> r.value.entities == Listing(disk, root, root)
      ensures r.Success? ==> r.value.selected == None && r.value.created == []
    {
      var files := ReadDir(disk, root);
      if files.Failure? {
        return Failure(files.error);
      }
      ListingInDir(disk, root, root);
      var m := new FileManager.Init(root, Listing(disk, root, root));
      r := Success(m);
    }

    function State(): Snapshot
      reads this
    {
      Snapshot(current, entities, selected, created)
    }

    /** `get_selected_entity` */
    function SelectedEntity(): (r: Option<Entity>)
      reads this
      requires Valid()
      ensures r.Some? <==> selected.Some?
      ensures r.Some? ==> r.value == entities[selected.value]
    {
      match selected
      case None => None
      case Some(id) => Some(entities[id])
    }

    /** `get_selected_entity_name` */
    function SelectedEntityName(): (r: Option<Str>)
      reads this
      requires Valid()
      ensures r.Some? ==> selected.Some? && r == NameOf(entities[selected.value])
      ensures selected.Some? ==> r == NameOf(entities[selected.value])
    {
      match selected
      case None => None
      case Some(id) => NameOf(entities[id])
    }

    /** `goto_dir`: list `dir`, clear the cursor and move there. */
    method GotoDir(disk: Disk, dir: Path) returns (r: Outcome<IoError>)
      requires Valid() && root <= dir
      modifies this`entities, this`selected, this`current
      ensures Valid()
      ensures r.Fail? <==> !IsDir(disk, dir)
      ensures r.Fail? ==> r.error == NotADirectory
      ensures r.Fail? ==> current == old(current) && entities == old(entities) && selected == old(selected)
      ensures r.Pass? ==> current == dir && entities == Listing(disk, dir, root) && selected == None
    {
      var files := ReadDir(disk, dir);
      if files.Failure? {
        return Fail(files.error);
      }
      ListingInDir(disk, dir, root);
      entities := Listing(disk, dir, root);
      selected := None;
      current := dir;
      r := Pass;
    }

    method Next()
      requires Valid()
      modifies this`selected
      ensures Valid()
      ensures selected == NextIndex(old(selected), |entities|)
    {
      if |entities| != 0 {
        selected := match selected
          case Some(value) => Some((value + 1) % |entities|)
          case None => Some(0);
      }
    }

    method Previous()
      requires Valid()
      modifies this`selected
      ensures Valid()
      ensures selected == PrevIndex(old(selected), |entities|)
    {
      if |entities| != 0 {
        selected := match selected
          case Some(0) => Some(|entities| - 1)
          case Some(value) => Some(value - 1)
          case None => Some(|entities| - 1);
      }
    }

    method Select(id: nat) returns (ok: bool)
      requires Valid()
      modifies this`selected
      ensures Valid()
      ensures ok <==> id < |entities|
      ensures selected == if ok then Some(id) else old(selected)
    {
      if id < |entities| {
        selected := Some(id);
        ok := true;
      } else {
        ok := false;
      }
    }

    /** `refresh`: list `current` again, keeping the cursor if it still fits. */
    method Refresh(disk: Disk) returns (r: Outcome<IoError>)
      requires Valid()
      modifies this`entities, this`selected, this`current
      ensures Valid() && current == old(current)
      ensures r.Fail? <==> !IsDir(disk, current)
      ensures r.Fail? ==> r.error == NotADirectory && entities == old(entities) && selected == old(selected)
      ensures r.Pass? ==> entities == Listing(disk, current, root)
      ensures r.Pass? ==> selected == KeepSelection(old(selected), |entities|)
    {
      var saved := selected;
      r := GotoDir(disk, current);
      if r.Fail? {
        return;
      }
      if saved.Some? {
        var _ := Select(saved.value);
      }
    }

    /** `create_file`: write `data` as `current/name`, record it as created by
        this session, then refresh. `name` stands for the timestamp the
        program derives from the clock, `now` for the new file's time. */
    method CreateFile(disk: Disk, data: seq<byte>, name: Component, now: int) returns (disk': Disk, r: Outcome<IoError>)
      requires Valid()
      modifies this`entities, this`selected, this`current, this`created
      ensures Valid() && current == old(current)
      ensures var w := WriteFile(disk, old(current), name, data, now);
        && (w.Failure? ==> disk' == disk && r == Fail(w.error) && created == old(created)
                            && entities == old(entities) && selected == old(selected))
        && (w.Success? ==> disk' == w.value && r == Pass
                            && created == old(created) + [TextFile(Child(old(current), name))]
                            && entities == Listing(disk', current, root)
                            && selected == KeepSelection(old(selected), |entities|))
    {
      var w := WriteFile(disk, current, name, data, now);
      if w.Failure? {
        return disk, Fail(w.error);
      }
      disk' := w.value;
      created := created + [TextFile(Child(current, name))];
      r := Refresh(disk');
    }

    /** `delete_selected`: refuse anything but a file this session created;
        otherwise remove the file and its first record, then refresh. */
    method DeleteSelected(disk: Disk) returns (disk': Disk, r: Outcome<IoError>)
      requires Valid()
      modifies this`entities, this`selected, this`current, this`created
      ensures Valid() && current == old(current)
      ensures var eff := DeleteEffect(old(SelectedEntity()), old(created), disk);
        && (eff.Failure? ==> disk' == disk && r == Fail(eff.error) && created == old(created)
                              && entities == old(entities) && selected == old(selected))
        && (eff.Success? ==> disk' == eff.value.1 && created == eff.value.0
                              && (r.Fail? <==> !IsDir(disk', current))
                              && (r.Fail? ==> r.error == NotADirectory && entities == old(entities) && selected == old(selected))
                              && (r.Pass? ==> entities == Listing(disk', current, root)
                                              && selected == KeepSelection(old(selected), |entities|)))
    {
      disk' := disk;
      if selected.Some? {
        match entities[selected.value]
        case TextFile(path) =>
          var item := IndexOf(created, TextFile(path));
          if item.None? {
            return disk, Fail(NotCreatedInSession);
          }
          var removed := RemoveFile(disk, path);
          if removed.Failure? {
            return disk, Fail(removed.error);
          }
          disk' := removed.value;
          created := RemoveAt(created, item.value);
        case Folder(_) =>
          return disk, Fail(FolderNotDeletable);
        case Action(_) =>
          return disk, Fail(ActionNotDeletable);
      }
      r := Refresh(disk');
    }

    /** `action`: open the selected file, or navigate for a folder, Back or
        Root. Opening a file changes nothing in the manager. */
    method Action(disk: Disk) returns (r: Result<Respond, IoError>)
      requires Valid()
      modifies this`entities, this`selected, this`current
      ensures Valid()
      ensures old(selected).None? ==> r == Success(Empty)
      ensures old(selected).Some? && old(entities)[old(selected).value].TextFile? ==>
        r == ReadEntity(disk, old(entities)[old(selected).value].path)
      ensures var dest := if old(selected).Some? then Destination(old(entities)[old(selected).value], old(current), root) else None;
        && (dest.None? ==> current == old(current) && entities == old(entities) && selected == old(selected))
        && (dest.Some? && IsDir(disk, dest.value) ==>
              r == Success(Empty) && current == dest.value && entities == Listing(disk, current, root) && selected == None)
        && (dest.Some? && !IsDir(disk, dest.value) ==>
              r == Failure(NotADirectory) && current == old(current) && entities == old(entities) && selected == old(selected))
        && (old(selected).Some? && !old(entities)[old(selected).value].TextFile? && dest.None? ==> r == Success(Empty))
    {
      if selected.None? {
        return Success(Empty);
      }
      match entities[selected.value]
      case TextFile(path) =>
        r := ReadEntity(disk, path);
      case Folder(path) =>
        var g := GotoDir(disk, path);
        r := if g.Fail? then Failure(g.error) else Success(Empty);
      case Action(act) =>
        match act {
          case Back =>
            match Parent(current) {
              case Some(path) =>
                var g := GotoDir(disk, path);
                r := if g.Fail? then Failure(g.error) else Success(Empty);
              case None =>
                r := Success(Empty);
            }
          case Root =>
            var g := GotoDir(disk, root);
            r := if g.Fail? then Failure(g.error) else Success(Empty);
        }
    }
  }

  /** Inside the tree Back always has a parent to go to, and that parent is
      still inside `root`: navigation never leaves the tree. */
  lemma BackStaysInTree(m: FileManager)
    requires m.Valid() && Action(Back) in m.entities
    ensures Destination(Action(Back), m.current, m.root).Some?
    ensures m.root <= Destination(Action(Back), m.current, m.root).value
  {
  }
}
