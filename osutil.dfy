/** The buffer, string and integer logic of the native `osutil` module:
    directory listing (search pattern, entry kinds, the filtering rule of
    the listing loop), `statfiles`, `setprocname`'s argv rewrite, the
    Windows `posixfile` mode decoding and the FILETIME conversion. The
    operating system's answers (`readdir`, `lstat`, the argv buffer) are
    inputs. */
module OsUtil {
  import opened Wrappers

  // ---------------------------------------------------------------------
  // File kinds
  // ---------------------------------------------------------------------

  const S_IFMT: bv32 := 0xF000
  const S_IFSOCK: int := 0xC000
  const S_IFLNK: int := 0xA000
  const S_IFREG: int := 0x8000
  const S_IFBLK: int := 0x6000
  const S_IFDIR: int := 0x4000
  const S_IFCHR: int := 0x2000
  const S_IFIFO: int := 0x1000

  /** `d_type` values of a directory entry. */
  const DT_FIFO: int := 1
  const DT_CHR: int := 2
  const DT_DIR: int := 4
  const DT_BLK: int := 6
  const DT_REG: int := 8
  const DT_LNK: int := 10
  const DT_SOCK: int := 12

  /** `obj_type` values of a `getattrlistbulk` entry (vnode types). */
  const VREG: int := 1
  const VDIR: int := 2
  const VBLK: int := 3
  const VCHR: int := 4
  const VLNK: int := 5
  const VSOCK: int := 6
  const VFIFO: int := 7

  /** The seven file types a kind can be. */
  predicate IsFileType(kind: int) {
    kind == S_IFREG || kind == S_IFDIR || kind == S_IFLNK || kind == S_IFBLK
    || kind == S_IFCHR || kind == S_IFIFO || kind == S_IFSOCK
  }

  /** The file-type bits of a mode: `st_mode & S_IFMT`. */
  function KindOfMode(mode: bv32): int {
    (mode & S_IFMT) as int
  }

  /** `entkind`: the kind a directory entry's `d_type` names, or `-1` when
      the type is unknown and the caller has to `lstat` the entry. A known
      kind is the `d_type` shifted into the file-type bits, as `DTTOIF`
      computes it. */
  function EntKind(dtype: int): (kind: int)
    ensures kind == -1 || IsFileType(kind)
    ensures kind != -1 ==> kind == dtype * 0x1000
    ensures kind == -1 <==> dtype !in {DT_REG, DT_DIR, DT_LNK, DT_BLK, DT_CHR, DT_FIFO, DT_SOCK}
  {
    if dtype == DT_REG then S_IFREG
    else if dtype == DT_DIR then S_IFDIR
    else if dtype == DT_LNK then S_IFLNK
    else if dtype == DT_BLK then S_IFBLK
    else if dtype == DT_CHR then S_IFCHR
    else if dtype == DT_FIFO then S_IFIFO
    else if dtype == DT_SOCK then S_IFSOCK
    else -1
  }

  /** `attrkind`: the same for a vnode type. */
  function AttrKind(objType: int): (kind: int)
    ensures kind == -1 || IsFileType(kind)
    ensures kind == -1 <==> objType !in {VREG, VDIR, VLNK, VBLK, VCHR, VFIFO, VSOCK}
  {
    if objType == VREG then S_IFREG
    else if objType == VDIR then S_IFDIR
    else if objType == VLNK then S_IFLNK
    else if objType == VBLK then S_IFBLK
    else if objType == VCHR then S_IFCHR
    else if objType == VFIFO then S_IFIFO
    else if objType == VSOCK then S_IFSOCK
    else -1
  }

  /** `entkind` is one-to-one on the types it knows. */
  lemma EntKindInjective(d1: int, d2: int)
    requires EntKind(d1) != -1 && EntKind(d1) == EntKind(d2)
    ensures d1 == d2
  {
  }

  /** `attrkind` is one-to-one on the types it knows. */
  lemma AttrKindInjective(v1: int, v2: int)
    requires AttrKind(v1) != -1 && AttrKind(v1) == AttrKind(v2)
    ensures v1 == v2
  {
  }

  /** Both mappings reach every one of the seven file types, so the two
      listing back ends report the same kinds. */
  lemma KindsCovered(kind: int) returns (d: int, v: int)
    requires IsFileType(kind)
    ensures EntKind(d) == kind && AttrKind(v) == kind
  {
    if kind == S_IFREG {
      d, v := DT_REG, VREG;
    } else if kind == S_IFDIR {
      d, v := DT_DIR, VDIR;
    } else if kind == S_IFLNK {
      d, v := DT_LNK, VLNK;
    } else if kind == S_IFBLK {
      d, v := DT_BLK, VBLK;
    } else if kind == S_IFCHR {
      d, v := DT_CHR, VCHR;
    } else if kind == S_IFIFO {
      d, v := DT_FIFO, VFIFO;
    } else {
      d, v := DT_SOCK, VSOCK;
    }
  }

  /** A file type is exactly its own file-type bits, so a kind taken from
      `entkind` and one taken from `st_mode & S_IFMT` compare alike. */
  lemma KindIsTypeBits(kind: int) returns (mode: bv32)
    requires IsFileType(kind)
    ensures mode as int == kind && KindOfMode(mode) == kind
  {
    if kind == S_IFREG {
      mode := 0x8000;
    } else if kind == S_IFDIR {
      mode := 0x4000;
    } else if kind == S_IFLNK {
      mode := 0xA000;
    } else if kind == S_IFBLK {
      mode := 0x6000;
    } else if kind == S_IFCHR {
      mode := 0x2000;
    } else if kind == S_IFIFO {
      mode := 0x1000;
    } else {
      mode := 0xC000;
    }
  }

  // ---------------------------------------------------------------------
  // The listing loop of _listdir_stat
  // ---------------------------------------------------------------------

  const ENOENT: int := 2
  const ENAMETOOLONG: int := 36
  const PATH_MAX: int := 4096

  /** The fields of a `stat` the listing carries along. */
  datatype Stat = Stat(mode: bv32, size: int, mtime: int)

  /** What `lstat`/`fstatat` gives for an entry: a stat or an errno. */
  datatype LstatResult = StatOk(st: Stat) | StatErr(errno: int)

  /** One `readdir` entry, with what `lstat` would say about it. */
  datatype DirEntry = DirEntry(name: string, dtype: int, lstat: LstatResult)

  /** One element of the returned list: name, kind and, when asked for,
      the stat. */
  datatype Item = Item(name: string, kind: int, stat: Option<Stat>)

  /** An `OSError`: the errno and the file name it names. */
  datatype OsError = OsError(errno: int, name: string)

  /** The `fullpath` a failed `lstat` is reported with: the directory, a
      `/`, then the entry's name, cut at `PATH_MAX` characters. */
  function FullPath(path: string, name: string): (full: string)
    ensures |full| == if |path| + 1 + |name| <= PATH_MAX then |path| + 1 + |name| else PATH_MAX
    ensures |path| < PATH_MAX ==> full[..|path|] == path && full[|path|] == '/'
    ensures |path| + 1 + |name| <= PATH_MAX ==> full == path + "/" + name
    ensures |path| < PATH_MAX ==> full[|path| + 1..] == name[..|full| - |path| - 1]
  {
    var whole := path + "/" + name;
    if |whole| <= PATH_MAX then whole else whole[..PATH_MAX]
  }

  /** What the loop does with one entry. */
  datatype EntryStep = Drop | Quit | Fail(err: OsError) | Keep(item: Item)

  /** Whether the entry is `lstat`ed: when its type is unknown or the stat
      is wanted. */
  predicate NeedsLstat(e: DirEntry, keepStat: bool) {
    EntKind(e.dtype) == -1 || keepStat
  }

  /** The kind an entry ends up with, once `lstat` succeeded if it was
      needed. */
  function EntryKind(e: DirEntry, keepStat: bool): int
    requires NeedsLstat(e, keepStat) ==> e.lstat.StatOk?
  {
    if NeedsLstat(e, keepStat) then KindOfMode(e.lstat.st.mode) else EntKind(e.dtype)
  }

  predicate IsDots(name: string) { name == "." || name == ".." }

  /** One iteration of the loop: `.` and `..` are dropped; an entry that
      vanished before its `lstat` is dropped; another `lstat` failure aborts;
      the directory named `skip` ends the listing; anything else is kept. */
  function Step(path: string, e: DirEntry, keepStat: bool, skip: Option<string>): (s: EntryStep)
    ensures s.Drop? <==> IsDots(e.name) || (NeedsLstat(e, keepStat) && e.lstat == StatErr(ENOENT))
    ensures s.Fail? <==> !IsDots(e.name) && NeedsLstat(e, keepStat) && e.lstat.StatErr? && e.lstat.errno != ENOENT
    ensures s.Fail? ==> s.err == OsError(e.lstat.errno, FullPath(path, e.name))
    ensures s.Quit? <==>
      && !IsDots(e.name) && (NeedsLstat(e, keepStat) ==> e.lstat.StatOk?)
      && skip == Some(e.name) && EntryKind(e, keepStat) == S_IFDIR
    ensures s.Keep? ==> && !IsDots(e.name) && s.item.name == e.name && s.item.kind == EntryKind(e, keepStat)
                        && (s.item.stat.Some? <==> keepStat)
                        && (keepStat ==> s.item.stat == Some(e.lstat.st))
  {
    if IsDots(e.name) then Drop
    else
      var kind := EntKind(e.dtype);
      if kind == -1 || keepStat then
        match e.lstat
        case StatErr(errno) => if errno == ENOENT then Drop else Fail(OsError(errno, FullPath(path, e.name)))
        case StatOk(st) => Decide(e.name, KindOfMode(st.mode), if keepStat then Some(st) else None, skip)
      else Decide(e.name, kind, None, skip)
  }

  function Decide(name: string, kind: int, stat: Option<Stat>, skip: Option<string>): EntryStep {
    if skip == Some(name) && kind == S_IFDIR then Quit else Keep(Item(name, kind, stat))
  }

  datatype Outcome = Listed(items: seq<Item>) | Skipped | Failed(err: OsError)

  /** The state of the listing after the given entries. */
  function ListOutcome(path: string, entries: seq<DirEntry>, keepStat: bool, skip: Option<string>): Outcome {
    if entries == [] then Listed([])
    else
      match ListOutcome(path, entries[..|entries| - 1], keepStat, skip)
      case Listed(items) =>
        (match Step(path, entries[|entries| - 1], keepStat, skip)
         case Drop => Listed(items)
         case Quit => Skipped
         case Fail(err) => Failed(err)
         case Keep(item) => Listed(items + [item]))
      case other => other
  }

  /** The items of the kept entries, in `readdir` order. */
  function Kept(path: string, entries: seq<DirEntry>, keepStat: bool, skip: Option<string>): seq<Item> {
    if entries == [] then []
    else
      var s := Step(path, entries[|entries| - 1], keepStat, skip);
      Kept(path, entries[..|entries| - 1], keepStat, skip) + (if s.Keep? then [s.item] else [])
  }

  predicate Continues(s: EntryStep) { s.Drop? || s.Keep? }

  /** The listing completes exactly when no entry quits or fails, and then
      lists the kept entries in order; otherwise the first entry that quits
      or fails decides the outcome. */
  lemma {:induction false} ListOutcomeMeaning(path: string, entries: seq<DirEntry>, keepStat: bool, skip: Option<string>)
    returns (stop: int)
    ensures ListOutcome(path, entries, keepStat, skip).Listed? <==>
      forall j :: 0 <= j < |entries| ==> Continues(Step(path, entries[j], keepStat, skip))
    ensures ListOutcome(path, entries, keepStat, skip).Listed? ==>
      ListOutcome(path, entries, keepStat, skip).items == Kept(path, entries, keepStat, skip)
    ensures !ListOutcome(path, entries, keepStat, skip).Listed? ==>
      && 0 <= stop < |entries|
      && (forall j :: 0 <= j < stop ==> Continues(Step(path, entries[j], keepStat, skip)))
      && (ListOutcome(path, entries, keepStat, skip).Skipped? <==> Step(path, entries[stop], keepStat, skip).Quit?)
      && (ListOutcome(path, entries, keepStat, skip).Failed? ==>
           Step(path, entries[stop], keepStat, skip) == Fail(ListOutcome(path, entries, keepStat, skip).err))
  {
    stop := -1;
    if entries != [] {
      var n := |entries| - 1;
      var init := entries[..n];
      assert forall j :: 0 <= j < n ==> init[j] == entries[j];
      var stop' := ListOutcomeMeaning(path, init, keepStat, skip);
      if ListOutcome(path, init, keepStat, skip).Listed? {
        stop := n;
      } else {
        stop := stop';
      }
    }
  }

  /** No kept item is `.` or `..`. */
  lemma {:induction false} KeptHasNoDots(path: string, entries: seq<DirEntry>, keepStat: bool, skip: Option<string>)
    ensures forall k :: 0 <= k < |Kept(path, entries, keepStat, skip)| ==> !IsDots(Kept(path, entries, keepStat, skip)[k].name)
  {
    if entries != [] {
      KeptHasNoDots(path, entries[..|entries| - 1], keepStat, skip);
    }
  }

  /** What `_listdir_stat` returns: the listing, an empty list when the
      `skip` directory was met, or the error. */
  function ListResult(o: Outcome): Result<seq<Item>, OsError> {
    match o
    case Listed(items) => Ok(items)
    case Skipped => Ok([])
    case Failed(err) => Err(err)
  }

  /** `_listdir_stat` over the entries `readdir` returns for `path`: a
      path of `PATH_MAX` characters or more is refused before the loop. */
  method ListdirStat(path: string, entries: seq<DirEntry>, keepStat: bool, skip: Option<string>) returns (r: Result<seq<Item>, OsError>)
    ensures |path| >= PATH_MAX ==> r == Err(OsError(ENAMETOOLONG, path))
    ensures |path| < PATH_MAX ==> r == ListResult(ListOutcome(path, entries, keepStat, skip))
  {
    if |path| >= PATH_MAX {
      return Err(OsError(ENAMETOOLONG, path));
    }
    var list: seq<Item> := [];
    for i := 0 to |entries|
      invariant ListOutcome(path, entries[..i], keepStat, skip) == Listed(list)
    {
      assert entries[..i + 1][..i] == entries[..i];
      var e := entries[i];
      if e.name == "." || e.name == ".." {
        continue;
      }
      var kind := EntKind(e.dtype);
      var st: Option<Stat> := None;
      if kind == -1 || keepStat {
        if e.lstat.StatErr? {
          if e.lstat.errno == ENOENT {
            continue;
          }
          assert ListOutcome(path, entries[..i + 1], keepStat, skip) == Failed(OsError(e.lstat.errno, FullPath(path, e.name)));
          ListOutcomeStops(path, entries, keepStat, skip, i + 1);
          return Err(OsError(e.lstat.errno, FullPath(path, e.name)));
        }
        st := Some(e.lstat.st);
        kind := KindOfMode(e.lstat.st.mode);
      }
      if skip == Some(e.name) && kind == S_IFDIR {
        assert ListOutcome(path, entries[..i + 1], keepStat, skip) == Skipped;
        ListOutcomeStops(path, entries, keepStat, skip, i + 1);
        return Ok([]);
      }
      list := list + [Item(e.name, kind, if keepStat then st else None)];
    }
    assert entries[..|entries|] == entries;
    r := Ok(list);
  }

  /** Once the listing stopped, later entries change nothing. */
  lemma {:induction false} ListOutcomeStops(path: string, entries: seq<DirEntry>, keepStat: bool, skip: Option<string>, k: nat)
    requires k <= |entries| && !ListOutcome(path, entries[..k], keepStat, skip).Listed?
    ensures ListOutcome(path, entries, keepStat, skip) == ListOutcome(path, entries[..k], keepStat, skip)
    decreases |entries| - k
  {
    if k < |entries| {
      assert entries[..k + 1][..k] == entries[..k];
      ListOutcomeStops(path, entries, keepStat, skip, k + 1);
    } else {
      assert entries[..k] == entries;
    }
  }

  // ---------------------------------------------------------------------
  // statfiles
  // ---------------------------------------------------------------------

  /** The slot `statfiles` fills for one name: its stat only for a regular
      file or a symlink, `None` for anything else or a failed `lstat`. */
  function StatSlot(res: LstatResult): (slot: Option<Stat>)
    ensures slot.Some? <==> res.StatOk? && (KindOfMode(res.st.mode) == S_IFREG || KindOfMode(res.st.mode) == S_IFLNK)
    ensures slot.Some? ==> slot.value == res.st
  {
    if res.StatOk? && (KindOfMode(res.st.mode) == S_IFREG || KindOfMode(res.st.mode) == S_IFLNK) then Some(res.st) else None
  }

  /** `statfiles`: one slot per name, in order. */
  method StatFiles(names: seq<string>, lstat: string -> LstatResult) returns (stats: seq<Option<Stat>>)
    ensures |stats| == |names|
    ensures forall i :: 0 <= i < |names| ==> stats[i] == StatSlot(lstat(names[i]))
  {
    var slots := new Option<Stat>[|names|](_ => None);
    for i := 0 to |names|
      invariant forall j :: 0 <= j < i ==> slots[j] == StatSlot(lstat(names[j]))
    {
      var res := lstat(names[i]);
      if res.StatOk? && (KindOfMode(res.st.mode) == S_IFREG || KindOfMode(res.st.mode) == S_IFLNK) {
        slots[i] := Some(res.st);
      } else {
        slots[i] := None;
      }
    }
    stats := slots[..];
  }

  // ---------------------------------------------------------------------
  // The search pattern of the Windows _listdir
  // ---------------------------------------------------------------------

  predicate IsPathSeparator(c: char) { c == ':' || c == '/' || c == '\\' }

  /** A `\` goes between the path and `*` unless the path is empty or
      already ends in `:`, `/` or `\`. */
  predicate NeedsSeparator(path: string) {
    |path| > 0 && !IsPathSeparator(path[|path| - 1])
  }

  function SearchPattern(path: string): string {
    path + (if NeedsSeparator(path) then "\\" else "") + "*"
  }

  /** The pattern starts with the path, ends in `*`, has a separator right
      before the `*` whenever the path is non-empty, and with its NUL fits
      the `plen + 3` buffer. */
  lemma SearchPatternShape(path: string)
    ensures var p := SearchPattern(path);
      && p[..|path|] == path
      && p[|p| - 1] == '*'
      && (|path| > 0 ==> IsPathSeparator(p[|p| - 2]))
      && |p| == |path| + (if NeedsSeparator(path) then 2 else 1)
      && |p| + 1 <= |path| + 3
  {
    var p := SearchPattern(path);
    if |path| > 0 && !NeedsSeparator(path) {
      assert p[|p| - 2] == path[|path| - 1];
    }
  }

  /** Builds the pattern in a fresh buffer of `plen + 3` characters, as
      `_listdir` does; `plen` ends at the terminating NUL. */
  method BuildPattern(path: string) returns (pattern: array<char>, plen: nat)
    ensures fresh(pattern) && pattern.Length == |path| + 3
    ensures plen < pattern.Length && pattern[..plen] == SearchPattern(path) && pattern[plen] == '\0'
  {
    pattern := new char[|path| + 3];
    plen := |path|;
    forall i | 0 <= i < plen {
      pattern[i] := path[i];
    }
    if plen > 0 {
      var c := path[plen - 1];
      if c != ':' && c != '/' && c != '\\' {
        pattern[plen] := '\\';
        plen := plen + 1;
      }
    }
    pattern[plen] := '*';
    plen := plen + 1;
    pattern[plen] := '\0';
  }

  // ---------------------------------------------------------------------
  // posixfile mode decoding
  // ---------------------------------------------------------------------

  const O_RDONLY: bv32 := 0x0000
  const O_RDWR: bv32 := 0x0002
  const O_APPEND: bv32 := 0x0008
  const O_TEXT: bv32 := 0x4000
  const O_BINARY: bv32 := 0x8000
  const GENERIC_READ: bv32 := 0x8000_0000
  const GENERIC_WRITE: bv32 := 0x4000_0000

  datatype Creation = CreateAlways | OpenExisting | OpenAlways

  /** The `CreateFile` creation disposition values. */
  function CreationValue(c: Creation): int {
    match c
    case CreateAlways => 2
    case OpenExisting => 3
    case OpenAlways => 4
  }

  /** The decoded mode: C runtime flags, access rights, creation
      disposition, and the mode string handed to `fdopen` (without its
      NUL). */
  datatype OpenMode = OpenMode(flags: bv32, access: bv32, creation: Creation, fpmode: string)

  datatype ModeError = ValueError(first: char)

  /** Character `i` of the NUL-terminated mode string; reading at most its
      terminator. */
  function CharAt(mode: string, i: nat): char
    requires i <= |mode|
  {
    if i < |mode| then mode[i] else '\0'
  }

  /** The three mode characters as the decoding reads them: each one only
      when the previous one is not the terminator. */
  function ModeChars(mode: string): (string, bool, bool)
    requires '\0' !in mode
  {
    var m0 := CharAt(mode, 0);
    var m1 := if m0 != '\0' then CharAt(mode, 1) else '\0';
    var m2 := if m1 != '\0' then CharAt(mode, 2) else '\0';
    ([m0, m1, m2], m1 == '+' || m2 == '+', m1 == 'b' || m2 == 'b')
  }

  /** The decoded mode, read off the mode's first three characters. */
  function DecodedMode(mode: string): Result<OpenMode, ModeError>
    requires '\0' !in mode
  {
    var (m, plus, binary) := ModeChars(mode);
    var readOnly := m[0] == 'r' && !plus;
    if m[0] != 'r' && m[0] != 'w' && m[0] != 'a' then Err(ValueError(m[0]))
    else
      var base := (if binary then O_BINARY else O_TEXT) | (if readOnly then O_RDONLY else O_RDWR);
      Ok(OpenMode(
        if m[0] == 'a' then base | O_APPEND else base,
        if readOnly then GENERIC_READ else GENERIC_READ | GENERIC_WRITE,
        if m[0] == 'r' then OpenExisting else if m[0] == 'w' then CreateAlways else OpenAlways,
        [m[0]] + (if binary then "b" else "") + (if readOnly then "" else "+")))
  }

  /** What a decoded mode means. A mode is read only or read/write (`w` and
      `a` always get read/write, and a `+` is added to the `fdopen` mode);
      `b` selects binary, anything else text; `a` appends; the first
      character selects the creation disposition and must be `r`, `w` or
      `a`; the `fdopen` mode and its NUL fit the four-byte buffer. */
  ghost predicate ModeMeaning(mode: string, r: Result<OpenMode, ModeError>)
    requires '\0' !in mode
  {
    var (m, plus, binary) := ModeChars(mode);
    var readOnly := m[0] == 'r' && !plus;
    && (r.Err? <==> m[0] != 'r' && m[0] != 'w' && m[0] != 'a')
    && (r.Err? ==> r.error == ValueError(m[0]))
    && (r.Ok? ==>
        && (r.value.flags & O_BINARY != 0 <==> binary)
        && (r.value.flags & O_TEXT != 0 <==> !binary)
        && (r.value.flags & O_RDWR != 0 <==> !readOnly)
        && (r.value.access == if readOnly then GENERIC_READ else GENERIC_READ | GENERIC_WRITE)
        && (r.value.flags & O_APPEND != 0 <==> m[0] == 'a')
        && (r.value.creation == if m[0] == 'r' then OpenExisting else if m[0] == 'w' then CreateAlways else OpenAlways)
        && r.value.fpmode == [m[0]] + (if binary then "b" else "") + (if readOnly then "" else "+")
        && |r.value.fpmode| + 1 <= 4)
  }

  /** The flag bits the decoding composes, each read back. */
  lemma ModeFlagBits(binary: bool, readOnly: bool, append: bool)
    ensures var base := (if binary then O_BINARY else O_TEXT) | (if readOnly then O_RDONLY else O_RDWR);
      var f := if append then base | O_APPEND else base;
      && (f & O_BINARY != 0 <==> binary)
      && (f & O_TEXT != 0 <==> !binary)
      && (f & O_RDWR != 0 <==> !readOnly)
      && (f & O_APPEND != 0 <==> append)
  {
    if binary {
      if readOnly { assert O_BINARY | O_RDONLY == 0x8000; } else { assert O_BINARY | O_RDWR == 0x8002; }
    } else {
      if readOnly { assert O_TEXT | O_RDONLY == 0x4000; } else { assert O_TEXT | O_RDWR == 0x4002; }
    }
  }

  lemma DecodedModeMeaning(mode: string)
    requires '\0' !in mode
    ensures ModeMeaning(mode, DecodedMode(mode))
  {
    var (m, plus, binary) := ModeChars(mode);
    ModeFlagBits(binary, m[0] == 'r' && !plus, m[0] == 'a');
  }

  /** Decoding the `mode` argument of `posixfile` into `DecodedMode`,
      whose meaning `DecodedModeMeaning` states. */
  method DecodeMode(mode: string) returns (r: Result<OpenMode, ModeError>)
    requires '\0' !in mode
    ensures r == DecodedMode(mode)
  {
    var m0 := CharAt(mode, 0);
    var m1 := if m0 != '\0' then CharAt(mode, 1) else '\0';
    var m2 := if m1 != '\0' then CharAt(mode, 2) else '\0';
    var plus := m1 == '+' || m2 == '+';

    var fpmode := new char[4];
    var fppos := 0;
    var flags: bv32;
    var access: bv32;
    ghost var written: string := [m0];
    fpmode[fppos] := m0;
    fppos := fppos + 1;
    assert fpmode[..fppos] == written;
    if m1 == 'b' || m2 == 'b' {
      flags := O_BINARY;
      fpmode[fppos] := 'b';
      written := written + "b";
      fppos := fppos + 1;
    } else {
      flags := O_TEXT;
    }
    assert fpmode[..fppos] == written;
    if m0 == 'r' && !plus {
      flags := flags | O_RDONLY;
      access := GENERIC_READ;
    } else {
      flags := flags | O_RDWR;
      access := GENERIC_READ | GENERIC_WRITE;
      fpmode[fppos] := '+';
      written := written + "+";
      fppos := fppos + 1;
    }
    assert fpmode[..fppos] == written;
    fpmode[fppos] := '\0';
    var fp := fpmode[..fppos];
    fppos := fppos + 1;

    var creation: Creation;
    if m0 == 'r' {
      creation := OpenExisting;
    } else if m0 == 'w' {
      creation := CreateAlways;
    } else if m0 == 'a' {
      creation := OpenAlways;
      flags := flags | O_APPEND;
    } else {
      return Err(ValueError(m0));
    }
    ghost var d := DecodedMode(mode);
    assert d.Ok?;
    assert d.value.flags == flags;
    assert d.value.access == access;
    assert d.value.creation == creation;
    assert d.value.fpmode == fp;
    return Ok(OpenMode(flags, access, creation, fp));
  }

  // ---------------------------------------------------------------------
  // to_python_time
  // ---------------------------------------------------------------------

  const TWO_32: int := 0x1_0000_0000
  const TWO_31: int := 0x8000_0000
  const TWO_64: int := 0x1_0000_0000_0000_0000
  const TWO_63: int := 0x8000_0000_0000_0000

  /** Seconds from 1 January 1601 to the Unix epoch. */
  const A0: int := 134774 * 24 * 3600
  /** FILETIME ticks (100 ns) per second. */
  const A1: int := 10000000

  /** Two's-complement wrap-around to 64 and to 32 bits. */
  function Wrap64(x: int): (w: int)
    ensures -TWO_63 <= w < TWO_63 && (w - x) % TWO_64 == 0
  {
    (x + TWO_63) % TWO_64 - TWO_63
  }

  function Wrap32(x: int): (w: int)
    ensures -TWO_31 <= w < TWO_31 && (w - x) % TWO_32 == 0
  {
    (x + TWO_31) % TWO_32 - TWO_31
  }

  /** C division, truncating toward zero. */
  function TruncDiv(a: int, b: int): int
    requires b > 0
  {
    if a >= 0 then a / b else -((-a) / b)
  }

  /** A Windows `DWORD`: an unsigned 32-bit word. */
  newtype DWord = x: int | 0 <= x < 0x1_0000_0000

  /** The seconds a signed 64-bit FILETIME tick count stands for: divided
      (truncating) into seconds, moved to the Unix epoch, and cast to a
      32-bit `int`. */
  function FiletimeSeconds(ticks: int): int {
    Wrap32(TruncDiv(Wrap64(ticks), A1) - A0)
  }

  /** `to_python_time`: the tick count `high << 32 | low`, read as a signed
      64-bit value, in seconds. */
  function ToPythonTime(high: DWord, low: DWord): int {
    FiletimeSeconds(high as int * TWO_32 + low as int)
  }

  /** Whole seconds plus sub-second ticks, divided back into seconds. */
  lemma TicksToSeconds(s: int, t: int)
    requires 0 <= t < A1
    ensures (s * A1 + t) / A1 == s
  {
  }

  /** A tick count that fits a signed 64-bit value is its own wrap. */
  lemma Wrap64InRange(x: int)
    requires -TWO_63 <= x < TWO_63
    ensures Wrap64(x) == x
  {
  }

  /** A tick count split into its two `DWORD` halves and put back together. */
  lemma SplitFiletime(ft: int) returns (high: DWord, low: DWord)
    requires 0 <= ft < TWO_64
    ensures high as int * TWO_32 + low as int == ft
  {
    high := (ft / TWO_32) as DWord;
    low := (ft % TWO_32) as DWord;
  }

  /** The tick count of a Unix time (not before 1601, with any sub-second
      ticks) converts back to that time. */
  lemma FiletimeSecondsRoundTrip(seconds: int, ticks: int)
    requires -TWO_31 <= seconds < TWO_31 && seconds + A0 >= 0 && 0 <= ticks < A1
    ensures FiletimeSeconds((seconds + A0) * A1 + ticks) == seconds
  {
    var ft := (seconds + A0) * A1 + ticks;
    Wrap64InRange(ft);
    TicksToSeconds(seconds + A0, ticks);
    assert TruncDiv(ft, A1) == seconds + A0;
  }

  /** Any Unix time that fits an `int` and is not before 1601 survives the
      trip through the two halves of a FILETIME. */
  lemma ToPythonTimeRoundTrip(seconds: int, ticks: int) returns (high: DWord, low: DWord)
    requires -TWO_31 <= seconds < TWO_31 && seconds + A0 >= 0 && 0 <= ticks < A1
    ensures high as int * TWO_32 + low as int == (seconds + A0) * A1 + ticks
    ensures ToPythonTime(high, low) == seconds
  {
    var ft := (seconds + A0) * A1 + ticks;
    high, low := SplitFiletime(ft);
    FiletimeSecondsRoundTrip(seconds, ticks);
  }

  // ---------------------------------------------------------------------
  // setprocname
  // ---------------------------------------------------------------------

  /** The name as `setprocname` receives it: the UTF-8 bytes of the Python
      string, which `snprintf` and `memset` count. */
  type Byte = bv8

  /** The text of a NUL-terminated buffer: everything before the first NUL. */
  function CString(buffer: seq<Byte>): seq<Byte> {
    if buffer == [] || buffer[0] == 0 then [] else [buffer[0]] + CString(buffer[1..])
  }

  /** The argv area after `setprocname`: `snprintf` writes as many bytes of
      the name as fit with a NUL; when the whole name fit, the rest is
      zeroed. */
  function ArgvImage(name: seq<Byte>, size: nat): (image: seq<Byte>)
    requires size >= 1
    ensures |image| == size
  {
    if |name| < size then name + seq(size - |name|, i => 0)
    else name[..size - 1] + [0]
  }

  /** Reading the process name back gives the name, cut to the area. */
  lemma {:induction false} ArgvImageName(name: seq<Byte>, size: nat)
    requires size >= 1 && 0 !in name
    ensures CString(ArgvImage(name, size)) == if |name| < size then name else name[..size - 1]
  {
    var kept := if |name| < size then name else name[..size - 1];
    var image := ArgvImage(name, size);
    assert image[..|kept|] == kept && image[|kept|] == 0;
    CStringPrefix(image, |kept|);
  }

  lemma {:induction false} CStringPrefix(buffer: seq<Byte>, k: nat)
    requires k < |buffer| && buffer[k] == 0 && 0 !in buffer[..k]
    ensures CString(buffer) == buffer[..k]
  {
    if k > 0 {
      assert buffer[0] == buffer[..k][0];
      assert buffer[1..][..k - 1] == buffer[1..k];
      CStringPrefix(buffer[1..], k - 1);
    }
  }

  /** `setprocname` on the argv area. A name with an embedded NUL is
      refused by the `"s"` argument format and changes nothing; otherwise
      the area is rewritten only when it holds more than one byte. */
  method SetProcName(argv: array<Byte>, name: seq<Byte>) returns (ok: bool)
    modifies argv
    ensures ok <==> 0 !in name
    ensures ok && argv.Length > 1 ==> argv[..] == ArgvImage(name, argv.Length)
    ensures !ok || argv.Length <= 1 ==> argv[..] == old(argv[..])
  {
    if 0 in name {
      return false;
    }
    ok := true;
    var size := argv.Length;
    if size > 1 {
      var n := |name|;
      var written := if n < size - 1 then n else size - 1;
      for i := 0 to written
        invariant argv[..i] == name[..i]
      {
        argv[i] := name[i];
      }
      argv[written] := 0;
      if n < size {
        for i := n to size
          invariant argv[..n] == name
          invariant forall j :: n <= j < i ==> argv[j] == 0
        {
          argv[i] := 0;
        }
        assert argv[..] == name + seq(size - n, i => 0);
      } else {
        assert argv[..] == name[..size - 1] + [0];
      }
    }
  }
}
