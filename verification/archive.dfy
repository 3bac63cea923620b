/** The archive façade: one of three archive representations, the logical
    version it was built for, the compression choice, and the rules for
    placing files into it. */
module Bsa {
  import opened Wrappers
  import opened FsPath

  /** `ArchiveVersion`, oldest first. */
  datatype ArchiveVersion = Tes3 | Tes4 | Fo3 | Sse | Fo4 | Fo4dx

  /** Which alternative of the archive (or file) variant is active. */
  datatype Kind = Tes3Kind | Tes4Kind | Fo4Kind

  /** The native version token types `get_version<T>` can be asked for:
      `std::uint32_t`, `tes4::version` and `fo4::format`. */
  datatype TokenType = UInt32 | Tes4Version | Fo4Format

  /** The archive-level flags the constructor sets on a tes4 archive. */
  datatype Tes4Flag = DirectoryStrings | FileStrings | Compressed

  /** A file's payload as the codec holds it, and whether the codec is asked
      to compress it. */
  datatype Blob = Blob(data: seq<bv8>, compress: bool)

  /** `UnderlyingFile` */
  datatype UnderlyingFile = Tes3File(blob: Blob) | Tes4File(blob: Blob) | Fo4File(blob: Blob)

  type Directory = map<string, Blob>

  /** `UnderlyingArchive`: flat for tes3 and fo4, directories of files for tes4. */
  datatype UnderlyingArchive =
    | Tes3Archive(files: map<string, Blob>)
    | Tes4Archive(flags: set<Tes4Flag>, dirs: map<string, Directory>)
    | Fo4Archive(files: map<string, Blob>)

  /** `Archive`; the mutex guarding `add_file` has no counterpart here. */
  datatype Archive = Archive(version: ArchiveVersion, compressed: bool, archive: UnderlyingArchive)

  /** The two exceptions the façade throws. */
  datatype ArchiveError =
    | KindMismatch     // "Trying to add x type file to y type bsa"
    | VersionMismatch  // "Mismatch between requested version and variant type"

  /** The value `get_version<T>` returns: the version's underlying number
      reinterpreted as `T`, kept here as the version it came from. */
  datatype NativeToken = NativeToken(tokenType: TokenType, version: ArchiveVersion)

  /** Version table: the representation each version family uses. */
  function RepresentationOf(v: ArchiveVersion): Kind
  {
    match v
    case Tes3 => Tes3Kind
    case Tes4 | Fo3 | Sse => Tes4Kind
    case Fo4 | Fo4dx => Fo4Kind
  }

  /** Version table: the native token type each version family is read and
      written with. */
  function TokenTypeOf(v: ArchiveVersion): TokenType
  {
    match v
    case Tes3 => UInt32
    case Tes4 | Fo3 | Sse => Tes4Version
    case Fo4 | Fo4dx => Fo4Format
  }

  function KindOf(u: UnderlyingArchive): Kind
  {
    match u
    case Tes3Archive(_) => Tes3Kind
    case Tes4Archive(_, _) => Tes4Kind
    case Fo4Archive(_) => Fo4Kind
  }

  function FileKindOf(f: UnderlyingFile): Kind
  {
    match f
    case Tes3File(_) => Tes3Kind
    case Tes4File(_) => Tes4Kind
    case Fo4File(_) => Fo4Kind
  }

  /** The façade's invariant: the active representation is the one the
      logical version calls for. */
  predicate Consistent(a: Archive)
  {
    KindOf(a.archive) == RepresentationOf(a.version)
  }

  /** The keys at the top level of the archive: file keys for the flat
      representations, directory keys for tes4. */
  function TopKeys(u: UnderlyingArchive): set<string>
  {
    match u
    case Tes3Archive(files) => files.Keys
    case Tes4Archive(_, dirs) => dirs.Keys
    case Fo4Archive(files) => files.Keys
  }

  /** Every tes4 directory holds at least one file: directories come into
      being only through `add_file`, together with their first file. */
  predicate NoEmptyDirs(u: UnderlyingArchive)
  {
    u.Tes4Archive? ==> forall d :: d in u.dirs ==> |u.dirs[d]| > 0
  }

  /** The slots that hold a file. */
  function Occupied(u: UnderlyingArchive): (r: set<Slot>)
    ensures forall s :: s in r <==> Lookup(u, s).Some?
  {
    match u
    case Tes3Archive(files) => set k | k in files :: FlatSlot(k)
    case Tes4Archive(_, dirs) => set d, m | d in dirs && m in dirs[d] :: NestedSlot(d, m)
    case Fo4Archive(files) => set k | k in files :: FlatSlot(k)
  }

  /** The top-level key a slot sits under: the file key, or the tes4 directory. */
  function TopOf(s: Slot): string
  {
    match s
    case FlatSlot(key) => key
    case NestedSlot(dir, _) => dir
  }

  /** Without empty directories, the top-level keys are exactly the keys
      some stored file sits under. */
  lemma OccupiedTops(u: UnderlyingArchive)
    ensures NoEmptyDirs(u) ==> (set s | s in Occupied(u) :: TopOf(s)) == TopKeys(u)
  {
    if NoEmptyDirs(u) {
      forall t | t in TopKeys(u)
        ensures t in (set s | s in Occupied(u) :: TopOf(s))
      {
        if u.Tes4Archive? {
          var m :| m in u.dirs[t];
          assert NestedSlot(t, m) in Occupied(u);
        } else {
          assert FlatSlot(t) in Occupied(u);
        }
      }
    }
  }

  /** `file_count()`: the size of the top-level map. For the flat
      representations that is the number of stored files; for tes4 it is
      the number of directories holding a file, not the number of files. */
  function FileCount(a: Archive): (n: nat)
    ensures NoEmptyDirs(a.archive) ==> n == |set s | s in Occupied(a.archive) :: TopOf(s)|
    ensures !a.archive.Tes4Archive? ==> n == |Occupied(a.archive)|
  {
    OccupiedTops(a.archive);
    match a.archive
    case Tes3Archive(files) =>
      FlatOccupied(files);
      |files|
    case Tes4Archive(_, dirs) => |dirs|
    case Fo4Archive(files) =>
      FlatOccupied(files);
      |files|
  }

  /** A flat map has one occupied slot per key. */
  lemma FlatOccupied(files: map<string, Blob>)
    ensures |set k | k in files :: FlatSlot(k)| == |files|
  {
    SlotsOfKeys(files.Keys);
  }

  /** Distinct keys give distinct flat slots. */
  lemma {:induction false} SlotsOfKeys(keys: set<string>)
    ensures |set k | k in keys :: FlatSlot(k)| == |keys|
    decreases |keys|
  {
    if keys != {} {
      var k :| k in keys;
      var rest := keys - {k};
      SlotsOfKeys(rest);
      assert (set x | x in keys :: FlatSlot(x)) == (set x | x in rest :: FlatSlot(x)) + {FlatSlot(k)};
    }
  }

  /** `Archive(version, compressed)` */
  function NewArchive(version: ArchiveVersion, compressed: bool): (r: Archive)
    ensures r.version == version && r.compressed == compressed
    ensures r.archive.Tes3Archive? <==> version == Tes3
    ensures r.archive.Tes4Archive? <==> version == Tes4 || version == Fo3 || version == Sse
    ensures r.archive.Fo4Archive? <==> version == Fo4 || version == Fo4dx
    ensures FileCount(r) == 0
    ensures NoEmptyDirs(r.archive)
    ensures r.archive.Tes4Archive? ==>
      && DirectoryStrings in r.archive.flags
      && FileStrings in r.archive.flags
      && (Compressed in r.archive.flags <==> compressed)
  {
    match version
    case Tes3 => Archive(version, compressed, Tes3Archive(map[]))
    case Tes4 | Fo3 | Sse =>
      var flags := {DirectoryStrings, FileStrings} + (if compressed then {Compressed} else {});
      Archive(version, compressed, Tes4Archive(flags, map[]))
    case Fo4 | Fo4dx => Archive(version, compressed, Fo4Archive(map[]))
  }

  /** A freshly built archive satisfies the invariant. */
  lemma NewArchiveConsistent(version: ArchiveVersion, compressed: bool)
    ensures Consistent(NewArchive(version, compressed))
  {
  }

  /** `get_version<T>()`: the version as a `T`, provided `T` is the token type
      of the version's family and the variant holds that family's archive. */
  function GetVersion(a: Archive, t: TokenType): (r: Result<NativeToken, ArchiveError>)
    ensures r.Ok? <==> t == TokenTypeOf(a.version) && Consistent(a)
    ensures r.Ok? ==> r.value.tokenType == t && r.value.version == a.version
    ensures r.Err? ==> r.error == VersionMismatch
  {
    var correct :=
      match a.version
      case Tes3 => t == UInt32 && a.archive.Tes3Archive?
      case Tes4 | Fo3 | Sse => t == Tes4Version && a.archive.Tes4Archive?
      case Fo4 | Fo4dx => t == Fo4Format && a.archive.Fo4Archive?;
    if correct then Ok(NativeToken(t, a.version)) else Err(VersionMismatch)
  }

  /** On an archive fresh from the constructor `get_version` succeeds with
      the family's own token type and fails with either of the other two. */
  lemma FreshGetVersion(version: ArchiveVersion, compressed: bool, t: TokenType)
    ensures GetVersion(NewArchive(version, compressed), t).Ok? <==> t == TokenTypeOf(version)
  {
  }

  // ----- placement -----

  /** Where a file lands: a single key, or a directory key and a file key. */
  datatype Slot = FlatSlot(key: string) | NestedSlot(dir: string, name: string)

  /** tes3 key: the raw generic string, not normalised. */
  function Tes3Key(p: Path): string
  {
    GenericString(p)
  }

  /** fo4 key: the lexically normal generic string. */
  function Fo4Key(p: Path): string
  {
    GenericString(LexicallyNormal(p))
  }

  /** tes4 directory key: the normalised parent path. */
  function DirKey(p: Path): string
  {
    GenericString(LexicallyNormal(ParentPath(p)))
  }

  /** tes4 file key: the normalised filename. */
  function NameKey(p: Path): string
  {
    GenericString(LexicallyNormal(Filename(p)))
  }

  function SlotOf(k: Kind, p: Path): Slot
  {
    match k
    case Tes3Kind => FlatSlot(Tes3Key(p))
    case Tes4Kind => NestedSlot(DirKey(p), NameKey(p))
    case Fo4Kind => FlatSlot(Fo4Key(p))
  }

  /** The file stored at a slot, if any. */
  function Lookup(u: UnderlyingArchive, s: Slot): Option<Blob>
  {
    match (u, s)
    case (Tes3Archive(files), FlatSlot(k)) => if k in files then Some(files[k]) else None
    case (Fo4Archive(files), FlatSlot(k)) => if k in files then Some(files[k]) else None
    case (Tes4Archive(_, dirs), NestedSlot(d, n)) =>
      if d in dirs && n in dirs[d] then Some(dirs[d][n]) else None
    case _ => None
  }

  /** Files `f` as `n` inside directory `d`, creating the directory when it
      is missing; every other directory and every other name is untouched. */
  function PutInDir(dirs: map<string, Directory>, d: string, n: string, f: Blob)
    : (r: map<string, Directory>)
    ensures r.Keys == dirs.Keys + {d}
    ensures n in r[d] && r[d][n] == f
    ensures forall m :: m in r[d] && m != n ==> d in dirs && m in dirs[d] && r[d][m] == dirs[d][m]
    ensures forall m :: d in dirs && m in dirs[d] ==> m in r[d]
    ensures forall e :: e in dirs && e != d ==> r[e] == dirs[e]
  {
    var withDir := if d !in dirs then dirs[d := map[]] else dirs;
    var dir := withDir[d];
    withDir[d := dir[n := f]]
  }

  /** `add_file(relative, file)`: stores the file at its slot, overwriting
      what was there and creating a missing tes4 directory; a file of another
      kind than the archive's is refused. */
  function AddFile(a: Archive, relative: Path, file: UnderlyingFile): (r: Result<Archive, ArchiveError>)
    ensures r.Err? <==> FileKindOf(file) != KindOf(a.archive)
    ensures r.Err? ==> r.error == KindMismatch
    ensures r.Ok? ==> r.value.version == a.version && r.value.compressed == a.compressed
    ensures r.Ok? ==> KindOf(r.value.archive) == KindOf(a.archive)
    ensures r.Ok? ==> Lookup(r.value.archive, SlotOf(KindOf(a.archive), relative)) == Some(file.blob)
    ensures r.Ok? && a.archive.Tes4Archive? ==>
      && r.value.archive.flags == a.archive.flags
      && r.value.archive.dirs.Keys == a.archive.dirs.Keys + {DirKey(relative)}
      && (forall d :: d in a.archive.dirs && d != DirKey(relative) ==>
            r.value.archive.dirs[d] == a.archive.dirs[d])
    ensures r.Ok? && !a.archive.Tes4Archive? ==>
      r.value.archive.files.Keys == a.archive.files.Keys + {SlotOf(KindOf(a.archive), relative).key}
  {
    match (a.archive, file)
    case (Tes3Archive(files), Tes3File(f)) =>
      Ok(a.(archive := Tes3Archive(files[Tes3Key(relative) := f])))
    case (Tes4Archive(flags, dirs), Tes4File(f)) =>
      Ok(a.(archive := Tes4Archive(flags, PutInDir(dirs, DirKey(relative), NameKey(relative), f))))
    case (Fo4Archive(files), Fo4File(f)) =>
      Ok(a.(archive := Fo4Archive(files[Fo4Key(relative) := f])))
    case _ => Err(KindMismatch)
  }

  /** `add_file` touches one slot only: every other slot holds what it held. */
  lemma AddFileKeepsOtherSlots(a: Archive, relative: Path, file: UnderlyingFile)
    requires AddFile(a, relative, file).Ok?
    ensures forall s :: s != SlotOf(KindOf(a.archive), relative) ==>
      Lookup(AddFile(a, relative, file).value.archive, s) == Lookup(a.archive, s)
  {
    forall s | s != SlotOf(KindOf(a.archive), relative)
      ensures Lookup(AddFile(a, relative, file).value.archive, s) == Lookup(a.archive, s)
    {
      match s
      case FlatSlot(k) =>
        if !a.archive.Tes4Archive? {
          assert k != SlotOf(KindOf(a.archive), relative).key;
        }
      case NestedSlot(d, n) =>
        if a.archive.Tes4Archive? && d == DirKey(relative) {
          assert n != NameKey(relative);
        }
    }
  }

  /** `add_file` never leaves an empty tes4 directory behind. */
  lemma AddFileKeepsNoEmptyDirs(a: Archive, relative: Path, file: UnderlyingFile)
    requires AddFile(a, relative, file).Ok?
    ensures NoEmptyDirs(a.archive) ==> NoEmptyDirs(AddFile(a, relative, file).value.archive)
  {
    var r := AddFile(a, relative, file).value.archive;
    if NoEmptyDirs(a.archive) && r.Tes4Archive? {
      forall d | d in r.dirs
        ensures |r.dirs[d]| > 0
      {
        if d == DirKey(relative) {
          assert NameKey(relative) in r.dirs[d];
        }
      }
    }
  }

  /** The top-level key a path is filed under. */
  function TopKeyOf(k: Kind, p: Path): string
  {
    TopOf(SlotOf(k, p))
  }

  /** `file_count` grows by one exactly when the file opens a new top-level
      entry (a new key, or for tes4 a new directory), and is unchanged otherwise. */
  lemma FileCountAfterAdd(a: Archive, relative: Path, file: UnderlyingFile)
    requires AddFile(a, relative, file).Ok?
    ensures TopKeys(AddFile(a, relative, file).value.archive) ==
      TopKeys(a.archive) + {TopKeyOf(KindOf(a.archive), relative)}
    ensures var k := TopKeyOf(KindOf(a.archive), relative);
      FileCount(AddFile(a, relative, file).value) == FileCount(a) + (if k in TopKeys(a.archive) then 0 else 1)
  {
    var r := AddFile(a, relative, file).value;
    var k := TopKeyOf(KindOf(a.archive), relative);
    assert TopKeys(r.archive) == TopKeys(a.archive) + {k};
  }

  /** Adding the same tes4 path twice leaves one file there, the second, and
      does not change the directory count. */
  lemma Tes4LastWriteWins(a: Archive, relative: Path, first: Blob, second: Blob)
    requires a.archive.Tes4Archive?
    ensures var r1 := AddFile(a, relative, Tes4File(first));
      && r1.Ok?
      && var r2 := AddFile(r1.value, relative, Tes4File(second));
      && r2.Ok?
      && Lookup(r2.value.archive, NestedSlot(DirKey(relative), NameKey(relative))) == Some(second)
      && FileCount(r2.value) == FileCount(r1.value)
  {
    var r1 := AddFile(a, relative, Tes4File(first)).value;
    FileCountAfterAdd(r1, relative, Tes4File(second));
  }

  /** `add_file(relative, bytes)`: builds the file of the archive's kind,
      marked for compression when the archive was built compressed, except
      for tes3 which has none; tes4 and fo4 first resolve their version. */
  function AddData(a: Archive, relative: Path, bytes: seq<bv8>): (r: Result<Archive, ArchiveError>)
    ensures r.Ok? <==> a.archive.Tes3Archive? || Consistent(a)
    ensures r.Err? ==> r.error == VersionMismatch
    ensures r.Ok? ==> r.value.version == a.version && r.value.compressed == a.compressed
    ensures r.Ok? ==> KindOf(r.value.archive) == KindOf(a.archive)
    ensures r.Ok? ==>
      Lookup(r.value.archive, SlotOf(KindOf(a.archive), relative)) ==
      Some(Blob(bytes, a.compressed && !a.archive.Tes3Archive?))
    ensures r.Ok? ==> forall s :: s != SlotOf(KindOf(a.archive), relative) ==>
      Lookup(r.value.archive, s) == Lookup(a.archive, s)
    ensures r.Ok? ==>
      TopKeys(r.value.archive) == TopKeys(a.archive) + {TopKeyOf(KindOf(a.archive), relative)}
    ensures r.Ok? && NoEmptyDirs(a.archive) ==> NoEmptyDirs(r.value.archive)
  {
    match a.archive
    case Tes3Archive(_) =>
      Store(a, relative, Tes3File(Blob(bytes, false)))
    case Tes4Archive(_, _) =>
      var _ :- GetVersion(a, Tes4Version);
      Store(a, relative, Tes4File(Blob(bytes, a.compressed)))
    case Fo4Archive(_) =>
      var _ :- GetVersion(a, Fo4Format);
      Store(a, relative, Fo4File(Blob(bytes, a.compressed)))
  }

  /** `add_file` with a file of the archive's own kind, which cannot be
      refused: the stored archive, with what `add_file` keeps. */
  function Store(a: Archive, relative: Path, file: UnderlyingFile): (r: Result<Archive, ArchiveError>)
    requires FileKindOf(file) == KindOf(a.archive)
    ensures r.Ok? && r == AddFile(a, relative, file)
    ensures forall s :: s != SlotOf(KindOf(a.archive), relative) ==>
      Lookup(r.value.archive, s) == Lookup(a.archive, s)
    ensures TopKeys(r.value.archive) == TopKeys(a.archive) + {TopKeyOf(KindOf(a.archive), relative)}
    ensures NoEmptyDirs(a.archive) ==> NoEmptyDirs(r.value.archive)
  {
    AddFileKeepsNoEmptyDirs(a, relative, file);
    AddFileKeepsOtherSlots(a, relative, file);
    FileCountAfterAdd(a, relative, file);
    AddFile(a, relative, file)
  }

  /** `add_file(root, path)`: the file at `path` on disk, whose bytes are
      `contents`, stored under its normalised path relative to `root`. */
  function AddFromDisk(a: Archive, root: Path, path: Path, contents: seq<bv8>): (r: Result<Archive, ArchiveError>)
    ensures r.Ok? <==> a.archive.Tes3Archive? || Consistent(a)
    ensures r.Ok? ==>
      var relative := LexicallyNormal(LexicallyRelative(path, root));
      Lookup(r.value.archive, SlotOf(KindOf(a.archive), relative)) ==
      Some(Blob(contents, a.compressed && !a.archive.Tes3Archive?))
  {
    var relative := LexicallyNormal(LexicallyRelative(path, root));
    match a.archive
    case Tes3Archive(_) =>
      AddFile(a, relative, Tes3File(Blob(contents, false)))
    case Tes4Archive(_, _) =>
      var _ :- GetVersion(a, Tes4Version);
      AddFile(a, relative, Tes4File(Blob(contents, a.compressed)))
    case Fo4Archive(_) =>
      var _ :- GetVersion(a, Fo4Format);
      AddFile(a, relative, Fo4File(Blob(contents, a.compressed)))
  }

  /** Both overloads make the same compression choice: adding from disk is
      adding the file's bytes under the normalised relative path. */
  lemma AddFromDiskIsAddData(a: Archive, root: Path, path: Path, contents: seq<bv8>)
    ensures AddFromDisk(a, root, path, contents) ==
      AddData(a, LexicallyNormal(LexicallyRelative(path, root)), contents)
  {
  }

  /** In a flat archive a file added from disk is keyed by the generic string
      of its normalised relative path: the second normalisation inside
      `add_file` changes nothing. */
  lemma FromDiskFlatKey(a: Archive, root: Path, path: Path, contents: seq<bv8>)
    requires !a.archive.Tes4Archive? && AddFromDisk(a, root, path, contents).Ok?
    ensures var key := GenericString(LexicallyNormal(LexicallyRelative(path, root)));
      Lookup(AddFromDisk(a, root, path, contents).value.archive, FlatSlot(key)) ==
      Some(Blob(contents, a.compressed && !a.archive.Tes3Archive?))
  {
    LexicallyNormalIdempotent(LexicallyRelative(path, root));
  }

  /** Successful additions keep the façade's invariant. */
  lemma AddDataKeepsConsistent(a: Archive, relative: Path, bytes: seq<bv8>)
    requires Consistent(a)
    ensures AddData(a, relative, bytes).Ok?
    ensures Consistent(AddData(a, relative, bytes).value)
  {
  }

  /** The tes3 key is the path as given, the fo4 key its normal form. */
  lemma Tes3KeyNotNormalised()
    ensures Tes3Key(Path([".", "a.dds"])) == "./a.dds"
    ensures Fo4Key(Path([".", "a.dds"])) == "a.dds"
  {
    assert NormalizeFrom([], [".", "a.dds"]) == ["a.dds"] by {
      assert NormalizeFrom([], [".", "a.dds"]) == NormalizeFrom([], ["a.dds"]);
      assert NormalizeFrom([], ["a.dds"]) == NormalizeFrom(["a.dds"], []);
    }
  }

  /** A tes4 path ending in a separator files an empty name under the
      directory it names. */
  lemma TrailingSeparatorKeys(p: Path)
    requires p == Path(["textures", ""])
    ensures DirKey(p) == "textures" && NameKey(p) == ""
  {
    assert ParentPath(p).elements == ["textures"];
    PlainPathKeysAgree(ParentPath(p));
  }

  /** For a path made only of names the two flat keys coincide. */
  lemma PlainPathKeysAgree(p: Path)
    requires forall i :: 0 <= i < |p.elements| ==>
      p.elements[i] != "" && p.elements[i] != Dot && p.elements[i] != DotDot
    ensures Tes3Key(p) == Fo4Key(p)
  {
    NormalizeNormal([], p.elements);
    assert [] + p.elements == p.elements;
  }

  /** A tes4 archive built uncompressed, given `"hello"` at `sub/dir/file.txt`,
      holds one directory, `sub/dir`, with the file `file.txt` in it. */
  lemma HelloScenario(hello: seq<bv8>)
    requires hello == [0x68, 0x65, 0x6c, 0x6c, 0x6f]
    ensures var r := AddData(NewArchive(Tes4, false), Path(["sub", "dir", "file.txt"]), hello);
      && r.Ok?
      && FileCount(r.value) == 1
      && Lookup(r.value.archive, NestedSlot("sub/dir", "file.txt")) == Some(Blob(hello, false))
  {
    var p := Path(["sub", "dir", "file.txt"]);
    var a := NewArchive(Tes4, false);
    HelloKeys(p);
    var b := Blob(hello, false);
    assert a.archive == Tes4Archive({DirectoryStrings, FileStrings}, map[]);
    assert GetVersion(a, Tes4Version).Ok?;
    var dirs := PutInDir(map[], "sub/dir", "file.txt", b);
    assert dirs == map["sub/dir" := map["file.txt" := b]];
    assert AddData(a, p, hello) == Ok(a.(archive := Tes4Archive(a.archive.flags, dirs)));
    assert |dirs| == 1;
  }

  /** The tes4 keys of `sub/dir/file.txt`. */
  lemma HelloKeys(p: Path)
    requires p == Path(["sub", "dir", "file.txt"])
    ensures DirKey(p) == "sub/dir" && NameKey(p) == "file.txt"
  {
    PlainPathKeysAgree(ParentPath(p));
    PlainPathKeysAgree(Filename(p));
    assert ParentPath(p).elements == ["sub", "dir"];
    assert Join(["sub", "dir"]) == "sub/dir";
  }
}
