/** The file table: slots that form a tree of directories, and byte files with a cursor. */
module Fs {

  const MAX_FILES := 64
  const MAX_FILENAME_LEN := 32
  const MAX_FILE_SIZE := 8192
  const BLOCK_SIZE := 512
  const WORD := 0x1_0000_0000  // size_t and inode numbers have 32 bits

  const PERM_READ: bv8 := 1
  const PERM_WRITE: bv8 := 2
  const PERM_EXEC: bv8 := 4

  datatype Code =
    | Success | Full | NameTooLong | Exists | NotFound | NoMemory
    | FileOpen | NotOpen | NotEmpty | InvalidPath | SeekBounds

  // A byte of a buffer; what malloc and realloc add is not written yet.
  datatype Cell = Unwritten | Byte(value: bv8)

  // parent is the index of a slot, or -1 for none.
  datatype File = File(name: string, data: seq<Cell>, size: nat, allocatedSize: nat, isOpen: bool, position: nat,
                       isDir: bool, permissions: bv8, inode: nat, parent: int, createdTime: nat, modifiedTime: nat)

  const ZERO := File("", [], 0, 0, false, 0, false, 0, 0, -1, 0, 0)

  // ---------- names ----------

  predicate ValidPathChar(c: char) {
    'a' <= c <= 'z' || 'A' <= c <= 'Z' || '0' <= c <= '9' || c == '-' || c == '_' || c == '.'
  }

  predicate ValidName(name: string) {
    0 < |name| < MAX_FILENAME_LEN && (forall i | 0 <= i < |name| :: ValidPathChar(name[i])) && name != "." &&
      name != ".."
  }

  // The codes of the characters: '-', '.', '_', the digits and the letters of either case.
  lemma ValidCodes(c: char)
    ensures var n := c as int;
            ValidPathChar(c) <==> n in {45, 46, 95} || 48 <= n <= 57 || 65 <= n <= 90 || 97 <= n <= 122
  {
  }

  // A name is valid exactly if it has one to 31 of these characters and is neither of the two that stand for
  // directories.
  lemma ValidNames(name: string)
    ensures ValidName(name) <==>
            1 <= |name| <= 31 && name !in {[46 as char], [46 as char, 46 as char]} &&
              forall i | 0 <= i < |name| :: var n := name[i] as int;
                n in {45, 46, 95} || 48 <= n <= 57 || 65 <= n <= 90 || 97 <= n <= 122
  {
    forall i | 0 <= i < |name|
      ensures var n := name[i] as int;
              ValidPathChar(name[i]) <==> n in {45, 46, 95} || 48 <= n <= 57 || 65 <= n <= 90 || 97 <= n <= 122
    {
      ValidCodes(name[i]);
    }
  }

  // Such as these.
  lemma SomeNames()
    ensures ValidName("notes.txt") && ValidName("a_b-C9") && ValidName("...") && ValidName(".hidden")
    ensures !ValidName("") && !ValidName(".") && !ValidName("..") && !ValidName("a/b") && !ValidName("a b")
  {
    assert "a/b"[1] == '/' && "a b"[1] == ' ';
  }

  method ValidateFilename(name: string) returns (r: Code)
    ensures r == Success <==> ValidName(name)
    ensures r == NameTooLong <==> |name| >= MAX_FILENAME_LEN
    ensures r == Success || r == NameTooLong || r == InvalidPath
    ensures ValidName(name) ==> |name| < MAX_FILENAME_LEN
  {
    if |name| == 0 {
      return InvalidPath;
    }
    if |name| >= MAX_FILENAME_LEN {
      return NameTooLong;
    }
    for i := 0 to |name|
      invariant forall k | 0 <= k < i :: ValidPathChar(name[k])
    {
      if !ValidPathChar(name[i]) {
        return InvalidPath;
      }
    }
    if name == "." || name == ".." {
      return InvalidPath;
    }
    return Success;
  }

  // ---------- the tree of slots ----------

  // Slot i is in use.
  predicate Live(free: seq<bool>, i: int) {
    0 <= i < |free| && !free[i]
  }

  // Slot 0 is the root; every other live slot hangs under a live directory with a smaller inode number.
  ghost predicate Tree(files: seq<File>, free: seq<bool>, next: nat) {
    && |files| == |free| == MAX_FILES
    && Live(free, 0) && files[0].isDir && files[0].parent == -1
    && (forall i | 0 < i < MAX_FILES && Live(free, i) :: Hangs(files, free, i))
    && (forall i | 0 <= i < MAX_FILES && Live(free, i) :: files[i].inode < next)
  }

  ghost predicate Hangs(files: seq<File>, free: seq<bool>, i: nat)
    requires |files| == |free| && i < |files|
  {
    var p := files[i].parent;
    Live(free, p) && files[p].isDir && files[p].inode < files[i].inode
  }

  // A file's cursor and size stay within its buffer, and every byte below its size was written.
  predicate Sound(f: File) {
    && f.position <= f.size <= f.allocatedSize <= MAX_FILE_SIZE && f.allocatedSize % BLOCK_SIZE == 0
    && |f.data| == f.allocatedSize && (forall k | 0 <= k < f.size :: f.data[k].Byte?)
    && (f.isDir ==> f.size == 0 && !f.isOpen)
  }

  function Used(free: seq<bool>): (n: nat)
    ensures n <= |free|
  {
    if free == [] then 0 else Used(free[..|free| - 1]) + if free[|free| - 1] then 0 else 1
  }

  lemma {:induction false} UsedSet(free: seq<bool>, i: nat, b: bool)
    requires i < |free|
    ensures Used(free[i := b]) == Used(free) + (if free[i] then 1 else 0) - if b then 1 else 0
  {
    var n := |free| - 1;
    if i < n {
      UsedSet(free[..n], i, b);
      assert free[i := b][..n] == free[..n][i := b];
    } else {
      assert free[i := b][..n] == free[..n];
    }
  }

  // The first live slot below bound with this name and parent, or -1.
  function FindFrom(files: seq<File>, free: seq<bool>, name: string, dir: int, i: nat, bound: nat): (r: int)
    requires i <= bound <= |files| == |free|
    ensures r == -1 || (i <= r < bound && Live(free, r) && files[r].parent == dir && files[r].name == name)
    ensures forall k | i <= k < (if r == -1 then bound else r) ::
              !(Live(free, k) && files[k].parent == dir && files[k].name == name)
    decreases bound - i
  {
    if i == bound then -1
    else if Live(free, i) && files[i].parent == dir && files[i].name == name then i
    else FindFrom(files, free, name, dir, i + 1, bound)
  }

  // The lowest free slot, or MAX_FILES.
  function FreeSlot(free: seq<bool>, i: nat): (r: nat)
    requires i <= |free|
    ensures i <= r <= |free| && (forall k | i <= k < r :: !free[k]) && (r < |free| ==> free[r])
    decreases |free| - i
  {
    if i == |free| || free[i] then i else FreeSlot(free, i + 1)
  }

  // A new entry in a free slot under a live directory keeps the tree.
  lemma TreeGrows(files: seq<File>, free: seq<bool>, next: nat, slot: nat, f: File)
    requires Tree(files, free, next) && slot < MAX_FILES && free[slot]
    requires f.inode == next && Live(free, f.parent) && files[f.parent].isDir
    ensures Tree(files[slot := f], free[slot := false], next + 1)
  {
    var files', free' := files[slot := f], free[slot := false];
    forall i | 0 < i < MAX_FILES && Live(free', i)
      ensures Hangs(files', free', i)
    {
      if i != slot {
        assert Hangs(files, free, i);
      }
    }
  }

  // Removing an entry that no other hangs under keeps the tree.
  lemma TreeShrinks(files: seq<File>, free: seq<bool>, next: nat, slot: nat)
    requires Tree(files, free, next) && 0 < slot < MAX_FILES
    requires forall i | 0 <= i < MAX_FILES && Live(free, i) :: files[i].parent != slot
    ensures Tree(files[slot := ZERO], free[slot := true], next)
  {
    var files', free' := files[slot := ZERO], free[slot := true];
    forall i | 0 < i < MAX_FILES && Live(free', i)
      ensures Hangs(files', free', i)
    {
      assert Hangs(files, free, i);
    }
  }

  // Changing what is not part of the tree keeps the tree.
  lemma TreeSame(files: seq<File>, free: seq<bool>, next: nat, slot: nat, f: File)
    requires Tree(files, free, next) && slot < MAX_FILES
    requires f.isDir == files[slot].isDir && f.parent == files[slot].parent && f.inode == files[slot].inode
    ensures Tree(files[slot := f], free, next)
  {
    forall i | 0 < i < MAX_FILES && Live(free, i)
      ensures Hangs(files[slot := f], free, i)
    {
      assert Hangs(files, free, i);
    }
  }

  // ---------- the whole state ----------

  datatype Table = Table(files: seq<File>, free: seq<bool>, count: nat, next: nat, cwd: int)

  // What every operation keeps.
  ghost predicate Kept(t: Table) {
    && Tree(t.files, t.free, t.next) && t.count == Used(t.free) && t.next < WORD
    && Live(t.free, t.cwd) && t.files[t.cwd].isDir
    && (forall i | 0 <= i < MAX_FILES && Live(t.free, i) :: Sound(t.files[i]))
  }

  ghost function Added(t: Table, slot: nat, f: File): Table
    requires slot < |t.files| && slot < |t.free|
  {
    Table(t.files[slot := f], t.free[slot := false], t.count + 1, (t.next + 1) % WORD, t.cwd)
  }

  ghost function Removed(t: Table, slot: nat): Table
    requires slot < |t.files| && slot < |t.free| && t.count > 0
  {
    Table(t.files[slot := ZERO], t.free[slot := true], t.count - 1, t.next, t.cwd)
  }

  ghost function Changed(t: Table, slot: nat, f: File): Table
    requires slot < |t.files|
  {
    t.(files := t.files[slot := f])
  }

  // Adding an entry keeps everything exactly until the inode numbers run out.
  lemma AddedKept(t: Table, slot: nat, f: File)
    requires Kept(t) && slot < MAX_FILES && t.free[slot] && Sound(f) && f.inode == t.next && f.parent == t.cwd
    ensures Kept(Added(t, slot, f)) <==> t.next + 1 < WORD
  {
    hide Sound;
    TreeGrows(t.files, t.free, t.next, slot, f);
    UsedSet(t.free, slot, false);
    assert Live(t.free[slot := false], t.cwd);
  }

  lemma RemovedKept(t: Table, slot: nat)
    requires Kept(t) && 0 < slot < MAX_FILES && Live(t.free, slot) && slot != t.cwd
    requires forall i | 0 <= i < MAX_FILES && Live(t.free, i) :: t.files[i].parent != slot
    ensures t.count > 0 && Kept(Removed(t, slot))
  {
    hide Sound;
    TreeShrinks(t.files, t.free, t.next, slot);
    UsedSet(t.free, slot, true);
  }

  lemma ChangedKept(t: Table, slot: nat, f: File)
    requires Kept(t) && slot < MAX_FILES && Sound(f)
    requires f.isDir == t.files[slot].isDir && f.parent == t.files[slot].parent && f.inode == t.files[slot].inode
    ensures Kept(Changed(t, slot, f))
  {
    hide Sound;
    TreeSame(t.files, t.free, t.next, slot, f);
  }

  // What fs_find_file finds in the current directory: it scans only as many slots as there are files.
  ghost function Find(t: Table, name: string): int
    requires Kept(t)
  {
    FindFrom(t.files, t.free, name, t.cwd, 0, t.count)
  }

  // An entry of the current directory is found by its name exactly if its slot is below the number of files:
  // once slots have been freed, the scan can end before it gets there.
  lemma FindSees(t: Table, i: nat)
    requires Kept(t) && Live(t.free, i) && t.files[i].parent == t.cwd
    requires forall k | 0 <= k < MAX_FILES && k != i && Live(t.free, k) &&
      t.files[k].parent == t.cwd :: t.files[k].name != t.files[i].name
    ensures Find(t, t.files[i].name) == if i < t.count then i else -1
  {
    hide Sound, Hangs;
    var r := Find(t, t.files[i].name);
    assert r != -1 ==> r == i;
  }

  // An entry found in a directory is not that directory, and is not the root.
  lemma FoundBelow(t: Table, name: string)
    requires Kept(t) && Find(t, name) != -1
    ensures Find(t, name) != t.cwd && Find(t, name) != 0
  {
    var i := Find(t, name);
    assert i > 0 ==> Hangs(t.files, t.free, i);
  }

  // ---------- file contents ----------

  // The bytes of a file.
  ghost function Contents(f: File): seq<bv8>
    requires Sound(f)
  {
    seq(f.size, k requires 0 <= k < f.size => f.data[k].value)
  }

  // Writing at pos: overwrites, and extends where the old bytes end.
  function Overwrite(s: seq<bv8>, pos: nat, b: seq<bv8>): seq<bv8>
    requires pos <= |s|
  {
    s[..pos] + b + if pos + |b| <= |s| then s[pos + |b|..] else []
  }

  // memcpy into a buffer.
  function Paste(data: seq<Cell>, pos: nat, b: seq<bv8>): (r: seq<Cell>)
    requires pos + |b| <= |data|
    ensures |r| == |data|
    ensures forall k | 0 <= k < |data| :: r[k] == if pos <= k < pos + |b| then Byte(b[k - pos]) else data[k]
  {
    data[..pos] + seq(|b|, k requires 0 <= k < |b| => Byte(b[k])) + data[pos + |b|..]
  }

  function Fresh(n: nat): (r: seq<Cell>)
    ensures |r| == n
  {
    seq(n, _ => Unwritten)
  }

  // A size rounded up to whole blocks.
  function Blocks(size: nat): (r: nat)
    ensures r % BLOCK_SIZE == 0 && size <= r < size + BLOCK_SIZE
  {
    var k := (size + BLOCK_SIZE - 1) / BLOCK_SIZE;
    k * BLOCK_SIZE
  }

  // A write of b at the cursor into a buffer that begins with the old one.
  lemma WrittenContents(f: File, data: seq<Cell>, b: seq<bv8>, g: File)
    requires Sound(f) && !f.isDir && |f.data| <= |data| <= MAX_FILE_SIZE && |data| % BLOCK_SIZE == 0
    requires data[..|f.data|] == f.data && f.position + |b| <= |data|
    requires g.data == Paste(data, f.position, b) && g.allocatedSize == |data| && g.position == f.position + |b|
    requires g.size == (if g.position > f.size then g.position else f.size) && !g.isDir
    ensures Sound(g) && Contents(g) == Overwrite(Contents(f), f.position, b)
  {
    forall k | 0 <= k < g.size
      ensures g.data[k].Byte? && g.data[k].value == Overwrite(Contents(f), f.position, b)[k]
    {
      if !(f.position <= k < f.position + |b|) {
        assert data[k] == data[..|f.data|][k];
      }
    }
  }

  // ---------- the file system ----------

  class FileSystem {
    const files: array<File>
    const freeList: array<bool>
    var fileCount: nat
    var nextInode: nat
    var currentDir: int

    ghost function Now(): Table
      reads this, files, freeList
    {
      Table(files[..], freeList[..], fileCount, nextInode, currentDir)
    }

    ghost predicate Valid()
      reads this, files, freeList
    {
      Kept(Now())
    }

    // fs_init
    constructor (now: nat)
      ensures Valid() && fresh(files) && fresh(freeList)
      ensures Used(freeList[..]) == 1 && currentDir == 0 && files[0].name == "/"
    {
      files := new File[MAX_FILES](_ => ZERO);
      freeList := new bool[MAX_FILES](_ => true);
      fileCount, nextInode, currentDir := 0, 1, 0;
      new;
      freeList[0] := false;
      files[0] := File("/", [], 0, 0, false, 0, true, PERM_READ | PERM_WRITE | PERM_EXEC, nextInode, -1, now, now);
      nextInode := nextInode + 1;
      fileCount := 1;
      RootOnly(Now());
    }

    // fs_find_free_slot
    method FindFreeSlot() returns (slot: nat)
      requires Valid()
      ensures slot == FreeSlot(freeList[..], 0)
    {
      slot := 0;
      while slot < MAX_FILES
        invariant slot <= MAX_FILES && FreeSlot(freeList[..], 0) >= slot
      {
        if freeList[slot] {
          return;
        }
        slot := slot + 1;
      }
    }

    // fs_find_file
    method FindFile(name: string) returns (r: int)
      requires Valid()
      ensures r == Find(Now(), name)
    {
      for i := 0 to fileCount
        invariant Find(Now(), name) == FindFrom(files[..], freeList[..], name, currentDir, i, fileCount)
      {
        if !freeList[i] && files[i].parent == currentDir && files[i].name == name {
          return i;
        }
      }
      return -1;
    }

    // fs_create_with_perms; room says whether malloc succeeds.
    method CreateWithPerms(filename: string, permissions: bv8, room: bool, now: nat) returns (r: Code)
      requires Valid()
      modifies this, files, freeList
      ensures Valid() <==> r != Success || old(nextInode) + 1 < WORD
      ensures r == Success <==>
        ValidName(filename) && old(Find(Now(), filename)) == -1 && old(FreeSlot(freeList[..], 0)) < MAX_FILES && room
      ensures r == NameTooLong <==> |filename| >= MAX_FILENAME_LEN
      ensures r == InvalidPath <==> |filename| < MAX_FILENAME_LEN && !ValidName(filename)
      ensures r == Exists <==> ValidName(filename) && old(Find(Now(), filename)) != -1
      ensures r == NoMemory <==>
        ValidName(filename) && old(Find(Now(), filename)) == -1 && old(FreeSlot(freeList[..], 0)) < MAX_FILES && !room
      ensures r == Full <==>
        ValidName(filename) && old(Find(Now(), filename)) == -1 && old(FreeSlot(freeList[..], 0)) == MAX_FILES
      ensures r == Success ==>
        Now() == Added(old(Now()), old(FreeSlot(freeList[..], 0)),
          File(filename, Fresh(BLOCK_SIZE), 0, BLOCK_SIZE, false, 0, false, permissions, old(nextInode),
               old(currentDir), now, now))
      ensures r == NoMemory ==>
        var slot := old(FreeSlot(freeList[..], 0));
        && slot < MAX_FILES
        && Now() ==
           Changed(old(Now()), slot, old(files[slot]).(name := filename, allocatedSize := BLOCK_SIZE, data := []))
      ensures r != Success && r != NoMemory ==> Now() == old(Now())
    {
      hide Sound, Hangs, ValidName, Used, FindFrom, FreeSlot;
      var res := ValidateFilename(filename);
      if res != Success {
        return res;
      }
      var found := FindFile(filename);
      if found != -1 {
        return Exists;
      }
      var slot := FindFreeSlot();
      if slot == MAX_FILES {
        return Full;
      }
      ghost var t := Now();
      freeList[slot] := false;
      files[slot] := files[slot].(name := filename, allocatedSize := BLOCK_SIZE);
      if !room {
        files[slot] := files[slot].(data := []);
        freeList[slot] := true;
        assert files[..] == t.files[slot := files[slot]];
        ChangedFree(t, slot, files[slot]);
        assert freeList[..] == t.free;
        assert Now() == Changed(t, slot, t.files[slot].(name := filename, allocatedSize := BLOCK_SIZE, data := []));
        return NoMemory;
      }
      FillFile(slot, permissions, now);
      assert freeList[..] == t.free[slot := false];
      ghost var f := File(filename, Fresh(BLOCK_SIZE), 0, BLOCK_SIZE, false, 0, false, permissions, t.next, t.cwd,
        now, now);
      assert files[..] == t.files[slot := f];
      assert Now() == Added(t, slot, f);
      EmptySound(f);
      AddedKept(t, slot, f);
      return Success;
    }

    // The fields of a new file, but for its name and allocated size.
    method FillFile(slot: nat, permissions: bv8, now: nat)
      requires slot < files.Length
      modifies this`fileCount, this`nextInode, files
      ensures files[..] == old(files[..])[slot :=
        File(old(files[slot].name), Fresh(BLOCK_SIZE), 0, old(files[slot].allocatedSize), false, 0, false,
             permissions, old(nextInode), currentDir, now, now)]
      ensures fileCount == old(fileCount) + 1 && nextInode == (old(nextInode) + 1) % WORD
    {
      files[slot] := files[slot].(data := Fresh(BLOCK_SIZE), size := 0, isOpen := false, isDir := false,
        parent := currentDir,
        position := 0, permissions := permissions, inode := nextInode, createdTime := now, modifiedTime := now);
      nextInode := (nextInode + 1) % WORD;
      fileCount := fileCount + 1;
    }

    // fs_mkdir
    method Mkdir(dirname: string, now: nat) returns (r: Code)
      requires Valid()
      modifies this, files, freeList
      ensures Valid() <==> r != Success || old(nextInode) + 1 < WORD
      ensures r == Success <==>
        ValidName(dirname) && old(Find(Now(), dirname)) == -1 && old(FreeSlot(freeList[..], 0)) < MAX_FILES
      ensures r == NameTooLong <==> |dirname| >= MAX_FILENAME_LEN
      ensures r == InvalidPath <==> |dirname| < MAX_FILENAME_LEN && !ValidName(dirname)
      ensures r == Exists <==> ValidName(dirname) && old(Find(Now(), dirname)) != -1
      ensures r == Full <==>
        ValidName(dirname) && old(Find(Now(), dirname)) == -1 && old(FreeSlot(freeList[..], 0)) == MAX_FILES
      ensures r == Success ==>
        Now() == Added(old(Now()), old(FreeSlot(freeList[..], 0)),
          File(dirname, [], 0, 0, false, 0, true, PERM_READ | PERM_WRITE | PERM_EXEC, old(nextInode),
            old(currentDir), now, now))
      ensures r != Success ==> Now() == old(Now())
    {
      var res := ValidateFilename(dirname);
      if res != Success {
        return res;
      }
      var found := FindFile(dirname);
      if found != -1 {
        return Exists;
      }
      var slot := FindFreeSlot();
      if slot == MAX_FILES {
        return Full;
      }
      ghost var t := Now();
      freeList[slot] := false;
      files[slot] := files[slot].(name := dirname, isDir := true, data := [], size := 0, allocatedSize := 0,
        isOpen := false,
        position := 0, parent := currentDir, permissions := PERM_READ | PERM_WRITE | PERM_EXEC, inode := nextInode,
        createdTime := now, modifiedTime := now);
      nextInode := (nextInode + 1) % WORD;
      fileCount := fileCount + 1;
      assert Now() == Added(t, slot, files[slot]);
      AddedKept(t, slot, files[slot]);
      return Success;
    }

    // Whether some live slot hangs under the given one.
    method HasEntries(dir: nat) returns (r: bool)
      requires Valid()
      ensures r == Busy(files[..], freeList[..], dir)
    {
      for i := 0 to MAX_FILES
        invariant forall k | 0 <= k < i && Live(freeList[..], k) :: files[k].parent != dir
      {
        if !freeList[i] && files[i].parent == dir {
          assert Live(freeList[..], i);
          return true;
        }
      }
      return false;
    }

    // fs_delete
    method Delete(filename: string) returns (r: Code)
      requires Valid()
      modifies this, files, freeList
      ensures Valid()
      ensures var i := old(Find(Now(), filename));
              r == if i == -1 then NotFound
                   else if old(files[i].isOpen) then FileOpen
                   else if old(files[i].isDir && Busy(files[..], freeList[..], i)) then NotEmpty
                   else Success
      ensures r == Success ==> old(Now().count) > 0 && Now() == Removed(old(Now()), old(Find(Now(), filename)))
      ensures r != Success ==> Now() == old(Now())
    {
      var file := FindFile(filename);
      if file == -1 {
        return NotFound;
      }
      if files[file].isOpen {
        return FileOpen;
      }
      FoundBelow(Now(), filename);
      ghost var t := Now();
      if file == 0 {
        return InvalidPath;
      }
      var parent := files[file].parent;
      if files[file].isDir {
        var busy := HasEntries(file);
        if busy {
          return NotEmpty;
        }
        currentDir := if currentDir == file then parent else currentDir;
      } else {
        NothingBelow(t, file);
        files[file] := files[file].(data := []);
      }
      RemovedKept(t, file);
      freeList[file] := true;
      files[file] := ZERO;
      fileCount := fileCount - 1;
      assert Now() == Removed(t, file);
      return Success;
    }

    // fs_open
    method Open(filename: string) returns (r: Code)
      requires Valid()
      modifies files
      ensures Valid()
      ensures var i := old(Find(Now(), filename));
              && r == (if i == -1 then NotFound else if old(files[i].isDir) then InvalidPath
                       else if old(files[i].isOpen) then FileOpen else Success)
              && Now() == if r == Success then Changed(old(Now()), i, old(files[i]).(isOpen := true,
                position := 0)) else old(Now())
    {
      var file := FindFile(filename);
      if file == -1 {
        return NotFound;
      }
      if files[file].isDir {
        return InvalidPath;
      }
      if files[file].isOpen {
        return FileOpen;
      }
      ChangedKept(Now(), file, files[file].(isOpen := true, position := 0));
      files[file] := files[file].(isOpen := true, position := 0);
      return Success;
    }

    // fs_close
    method Close(filename: string) returns (r: Code)
      requires Valid()
      modifies files
      ensures Valid()
      ensures var i := old(Find(Now(), filename));
              && r == (if i == -1 then NotFound else if !old(files[i].isOpen) then NotOpen else Success)
              && Now() == if r == Success then Changed(old(Now()), i, old(files[i]).(isOpen := false)) else old(Now())
    {
      var file := FindFile(filename);
      if file == -1 {
        return NotFound;
      }
      if !files[file].isOpen {
        return NotOpen;
      }
      ChangedKept(Now(), file, files[file].(isOpen := false));
      files[file] := files[file].(isOpen := false);
      return Success;
    }

    // fs_seek
    method Seek(filename: string, offset: nat) returns (r: Code)
      requires Valid()
      modifies files
      ensures Valid()
      ensures var i := old(Find(Now(), filename));
              && r == (if i == -1 then NotFound else if !old(files[i].isOpen) then NotOpen
                       else if offset > |Contents(old(files[i]))| then SeekBounds else Success)
              && Now() == if r == Success then Changed(old(Now()), i, old(files[i]).(position := offset))
                else old(Now())
    {
      var file := FindFile(filename);
      if file == -1 {
        return NotFound;
      }
      if !files[file].isOpen {
        return NotOpen;
      }
      if offset > files[file].size {
        return SeekBounds;
      }
      ChangedKept(Now(), file, files[file].(position := offset));
      files[file] := files[file].(position := offset);
      return Success;
    }

    // The slot whose bytes can be accessed under this name, or -1.
    ghost function Accessible(name: string, perm: bv8): int
      requires Valid()
      reads this, files, freeList
    {
      var i := Find(Now(), name);
      if i != -1 && files[i].isOpen && !files[i].isDir && files[i].permissions & perm == perm then i else -1
    }

    // fs_read: the bytes from the cursor on, at most size of them.
    method Read(filename: string, size: nat) returns (r: seq<bv8>)
      requires Valid()
      modifies files
      ensures Valid()
      ensures var i := old(Accessible(filename, PERM_READ));
              if i == -1 then r == [] && Now() == old(Now())
              else var f := old(files[i]);
                var end := if f.position + size < f.size then f.position + size else f.size;
                r == Contents(f)[f.position..end] && Now() == Changed(old(Now()), i, f.(position := end))
    {
      hide Sound, Hangs;
      if size == 0 {
        NothingRead(Now(), filename);
        return [];
      }
      var file := FindFile(filename);
      if file == -1 || !files[file].isOpen || files[file].isDir {
        return [];
      }
      if files[file].permissions & PERM_READ == 0 {
        return [];
      }
      SoundAt(Now(), file);
      r := ReadSlot(file, size);
    }

    method ReadSlot(file: nat, size: nat) returns (r: seq<bv8>)
      requires Valid() && Live(freeList[..], file) && Sound(files[file])
      modifies files
      ensures Valid()
      ensures var f := old(files[file]);
              var end := if f.position + size < f.size then f.position + size else f.size;
              r == Contents(f)[f.position..end] && Now() == Changed(old(Now()), file, f.(position := end))
    {
      hide Hangs;
      var f := files[file];
      var available := if f.size > f.position then f.size - f.position else 0;
      var n := if size < available then size else available;
      r := [];
      SameFile(Now(), file);
      if n > 0 {
        r := Bytes(f, f.position, n);
        ChangedKept(Now(), file, f.(position := f.position + n));
        files[file] := f.(position := f.position + n);
      }
    }

    // fs_resize_file; room says whether realloc succeeds.
    method ResizeFile(file: nat, newSize: nat, room: bool, now: nat) returns (r: Code)
      requires file < files.Length && |files[file].data| == files[file].allocatedSize
      modifies files
      ensures var f, n := old(files[file]), if newSize > MAX_FILE_SIZE then MAX_FILE_SIZE else newSize;
              && r == (if f.isDir then InvalidPath else if n > f.allocatedSize && !room then NoMemory else Success)
              && files[..] == old(files[..])[file := files[file]]
              && files[file] == if r != Success then f else Stretched(f, n, now)
    {
      if files[file].isDir {
        return InvalidPath;
      }
      var n := newSize;
      if n > MAX_FILE_SIZE {
        n := MAX_FILE_SIZE;
      }
      if n > files[file].allocatedSize {
        var newAllocated := Blocks(n);
        if !room {
          return NoMemory;
        }
        var newData := files[file].data + Fresh(newAllocated - files[file].allocatedSize);
        files[file] := files[file].(data := newData);
        files[file] := files[file].(allocatedSize := newAllocated);
      }
      files[file] := files[file].(size := n);
      files[file] := files[file].(modifiedTime := now);
      return Success;
    }

    // fs_write: n bytes of b overwrite or extend the contents at the cursor. Only a failed realloc cuts the write
    // short, to what the buffer still holds. The resize stops at the largest size but the copy does not, and there is
    // no resize if the sum of cursor and length wraps around: overrun says that the copy would leave the buffer, which
    // C leaves undefined, and says exactly when.
    method Write(filename: string, b: seq<bv8>, room: bool, now: nat) returns (n: nat, overrun: bool)
      requires Valid() && |b| < WORD
      modifies files
      ensures overrun <==> var i := old(Accessible(filename, PERM_WRITE));
                           i != -1 && b != [] && Overruns(old(files[i]), |b|, room)
      ensures !overrun ==> Valid()
      ensures var i := old(Accessible(filename, PERM_WRITE));
              if i == -1 then n == 0 && Now() == old(Now())
              else var f := old(files[i]);
                !overrun ==>
                  && n == (if room || f.position + |b| <= f.allocatedSize then |b| else f.allocatedSize - f.position)
                  && Written(f, files[i], b[..n]) && Now() == Changed(old(Now()), i, files[i])
                  && files[i].modifiedTime == (if n > 0 then now else f.modifiedTime)
                  && files[i].allocatedSize == Room(f, |b|, room)
    {
      hide Sound, Hangs, Written, Overruns;
      if |b| == 0 {
        NothingWritten(Now(), filename, b);
        return 0, false;
      }
      var file := FindFile(filename);
      if file == -1 || !files[file].isOpen || files[file].isDir {
        return 0, false;
      }
      if files[file].permissions & PERM_WRITE != PERM_WRITE {
        return 0, false;
      }
      SoundAt(Now(), file);
      n, overrun := WriteSlot(file, b, room, now);
    }

    method WriteSlot(file: nat, b: seq<bv8>, room: bool, now: nat) returns (n: nat, overrun: bool)
      requires Valid() && Live(freeList[..], file) && Sound(files[file]) && !files[file].isDir && 0 < |b| < WORD
      modifies files
      ensures overrun <==> Overruns(old(files[file]), |b|, room)
      ensures !overrun ==> Valid()
      ensures var f := old(files[file]);
              !overrun ==>
              && n == (if room || f.position + |b| <= f.allocatedSize then |b| else f.allocatedSize - f.position)
              && Written(f, files[file], b[..n]) && Now() == Changed(old(Now()), file, files[file])
              && files[file].modifiedTime == (if n > 0 then now else f.modifiedTime)
              && files[file].allocatedSize == Room(f, |b|, room)
    {
      hide Hangs, Used, FindFrom, Contents, Overwrite, Paste;
      ghost var t, f := Now(), files[file];
      SameFile(t, file);
      n := |b|;
      SumWraps(f, n);
      var required := (files[file].position + n) % WORD;
      if required > files[file].size {
        var res := ResizeFile(file, required, room, now);
        if res != Success {
          var available := if files[file].allocatedSize > files[file].position
          then files[file].allocatedSize - files[file].position else 0;
          if available == 0 {
            NoneWritten(f, b);
            return 0, false;
          }
          var count: int := if n < available then n else available;
          n := count;
        }
      }
      overrun := files[file].position + n > files[file].allocatedSize;
      if overrun {
        return;
      }
      Copy(file, f, b[..n], now);
      ChangedKept(t, file, files[file]);
      assert files[..] == t.files[file := files[file]];
    }

    // The end of fs_write: copies to the cursor and moves it. f is the file before its buffer was stretched.
    method Copy(file: nat, ghost f: File, b: seq<bv8>, now: nat)
      requires file < files.Length && Sound(f) && !f.isDir && f.position + |b| <= |files[file].data| <= MAX_FILE_SIZE
      requires |f.data| <= |files[file].data| && files[file].data[..|f.data|] == f.data
      requires files[file].size == (if f.position + |b| > f.size then f.position + |b|
        else f.size) || files[file].size == f.size
      requires |files[file].data| == files[file].allocatedSize && files[file].allocatedSize % BLOCK_SIZE == 0
      requires files[file] ==
        f.(data := files[file].data, size := files[file].size, allocatedSize := files[file].allocatedSize,
           modifiedTime := files[file].modifiedTime)
      modifies files
      ensures Written(f, files[file], b) && files[..] == old(files[..])[file := files[file]]
      ensures files[file].modifiedTime == now && files[file].allocatedSize == old(files[file].allocatedSize)
    {
      hide Sound, Contents, Paste;
      ghost var data := files[file].data;
      files[file] := files[file].(data := Paste(files[file].data, files[file].position, b));
      files[file] := files[file].(position := files[file].position + |b|);
      if files[file].position > files[file].size {
        files[file] := files[file].(size := files[file].position);
      }
      files[file] := files[file].(modifiedTime := now);
      WrittenContents(f, data, b, files[file]);
    }

    // fs_chdir
    method Chdir(dirname: string) returns (r: Code)
      requires Valid()
      modifies this`currentDir
      ensures Valid()
      ensures dirname == ".." ==> var p := old(files[currentDir].parent);
                if p == -1 then r == InvalidPath && Now() == old(Now()) && currentDir == 0
                else r == Success && Now() == old(Now()).(cwd := p)
      ensures dirname != ".." ==> var i := old(Find(Now(), dirname));
                if i == -1 then r == NotFound && Now() == old(Now())
                else if !files[i].isDir then r == InvalidPath && Now() == old(Now())
                else r == Success && Now() == old(Now()).(cwd := i)
    {
      hide Sound;
      assert currentDir > 0 ==> Hangs(files[..], freeList[..], currentDir);
      if dirname == ".." {
        if files[currentDir].parent != -1 {
          currentDir := files[currentDir].parent;
          return Success;
        }
        return InvalidPath;
      }
      var target := FindFile(dirname);
      if target == -1 {
        return NotFound;
      }
      if !files[target].isDir {
        return InvalidPath;
      }
      currentDir := target;
      return Success;
    }

    // The walk of fs_getcwd from the current directory up; it ends at the root before its guard cuts it short.
    method Ancestors() returns (dirs: seq<int>)
      requires Valid()
      ensures 0 < |dirs| <= MAX_FILES && dirs[0] == currentDir && dirs[|dirs| - 1] == 0
      ensures PathUp(files[..], freeList[..], currentDir, dirs)
    {
      hide Sound, Hangs, PathUp;
      dirs := [];
      var dir := currentDir;
      StartUp(files[..], freeList[..], currentDir);
      while dir != -1
        invariant Climb(files[..], freeList[..], currentDir, dirs, dir)
        decreases MAX_FILES - |dirs|, dir
      {
        ClimbMore(files[..], freeList[..], nextInode, currentDir, dirs, dir);
        dirs := dirs + [dir];
        dir := files[dir].parent;
        if |dirs| == MAX_FILES {
          break;
        }
      }
    }

    // What a write put in comes back from a read at the same place.
    method WriteReadBack(filename: string, b: seq<bv8>, now: nat) returns (r: seq<bv8>)
      requires Valid()
      requires var i := Accessible(filename, PERM_WRITE);
               i != -1 && i == Accessible(filename, PERM_READ) && files[i].position + |b| <= MAX_FILE_SIZE
      modifies files
      ensures Valid() && r == b
    {
      hide Sound, Hangs, Used, FindFrom;
      var file := FindFile(filename);
      SoundAt(Now(), file);
      ghost var f, t := files[file], Now();
      var start := files[file].position;
      var n, overrun := Write(filename, b, true, now);
      assert !overrun;
      FindSame(t, file, files[file], filename);
      OverwriteAt(Contents(f), start, b);
      assert b[..n] == b;
      ghost var g, u := files[file], Now();
      var sought := Seek(filename, start);
      assert sought == Success;
      FindSame(u, file, files[file], filename);
      r := Read(filename, |b|);
    }
  }

  // s leads up from start, from parent to parent.
  ghost predicate PathUp(files: seq<File>, free: seq<bool>, start: int, s: seq<int>)
    requires |files| == |free|
  {
    && s != [] && s[0] == start
    && (forall k | 0 <= k < |s| :: Live(free, s[k]) && files[s[k]].isDir)
    && (forall k | 0 < k < |s| :: s[k] == files[s[k - 1]].parent)
  }

  // Going up, the inode numbers fall.
  lemma {:induction false} PathFalls(files: seq<File>, free: seq<bool>, next: nat, start: int, s: seq<int>, j: nat,
        k: nat)
    requires Tree(files, free, next) && PathUp(files, free, start, s) && j < k < |s|
    ensures files[s[k]].inode < files[s[j]].inode
    decreases k - j
  {
    assert s[j + 1] == files[s[j]].parent;
    assert s[j] > 0 ==> Hangs(files, free, s[j]);
    if j + 1 < k {
      PathFalls(files, free, next, start, s, j + 1, k);
    }
  }

  // So no slot comes twice, and the path is short.
  lemma PathShort(files: seq<File>, free: seq<bool>, next: nat, start: int, s: seq<int>)
    requires Tree(files, free, next) && PathUp(files, free, start, s)
    ensures |s| <= MAX_FILES
  {
    forall j, k | 0 <= j < k < |s|
      ensures s[j] != s[k]
    {
      PathFalls(files, free, next, start, s, j, k);
    }
    Distinct(s, MAX_FILES);
  }

  // The state of the walk: dirs are behind it, and dir, if there is one, comes next.
  ghost predicate Climb(files: seq<File>, free: seq<bool>, start: int, dirs: seq<int>, dir: int)
    requires |files| == |free|
  {
    if dir != -1 then PathUp(files, free, start, dirs + [dir]) && |dirs| < MAX_FILES
    else PathUp(files, free, start, dirs) && 0 < |dirs| <= MAX_FILES && dirs[0] == start && dirs[|dirs| - 1] == 0
  }

  lemma StartUp(files: seq<File>, free: seq<bool>, start: int)
    requires |files| == |free| && Live(free, start) && files[start].isDir
    ensures PathUp(files, free, start, [] + [start])
  {
  }

  lemma ClimbMore(files: seq<File>, free: seq<bool>, next: nat, start: int, dirs: seq<int>, dir: int)
    requires Tree(files, free, next) && Climb(files, free, start, dirs, dir) && dir != -1
    ensures Live(free, dir) && Climb(files, free, start, dirs + [dir], files[dir].parent)
  {
    var s := dirs + [dir];
    assert Live(free, s[|dirs|]);
    assert dir > 0 ==> Hangs(files, free, dir);
    var up := files[dir].parent;
    if up != -1 {
      PathShort(files, free, next, start, s + [up]);
    }
  }

  // Different numbers below n are at most n.
  lemma {:induction false} Distinct(s: seq<int>, n: nat)
    requires forall k | 0 <= k < |s| :: 0 <= s[k] < n
    requires forall j, k | 0 <= j < k < |s| :: s[j] != s[k]
    ensures |s| <= n
  {
    var first := if s != [] then s[0] else -1;
    if n == 0 {
    } else {
      if k :| 0 <= k < |s| && s[k] == n - 1 {
        Distinct(s[..k] + s[k + 1..], n - 1);
        assert |s[..k] + s[k + 1..]| == |s| - 1;
      } else {
        Distinct(s, n - 1);
      }
    }
  }

  // Overwriting puts the new bytes in their place and keeps the others.
  lemma OverwriteAt(s: seq<bv8>, pos: nat, b: seq<bv8>)
    requires pos <= |s|
    ensures var r := Overwrite(s, pos, b);
            && |r| == (if pos + |b| > |s| then pos + |b| else |s|) && r[pos..pos + |b|] == b
            && forall k | 0 <= k < |s| && !(pos <= k < pos + |b|) :: r[k] == s[k]
  {
  }

  // A file is found as before when only its contents and cursor changed.
  lemma FindSame(t: Table, i: nat, f: File, name: string)
    requires Kept(t) && i < |t.files| && Kept(Changed(t, i, f)) && f.name == t.files[i].name &&
      f.parent == t.files[i].parent
    ensures Find(Changed(t, i, f), name) == Find(t, name)
  {
    hide Sound, Hangs;
    FindFromSame(t.files, t.files[i := f], t.free, name, t.cwd, 0, t.count);
  }

  lemma {:induction false} FindFromSame(a: seq<File>, b: seq<File>, free: seq<bool>, name: string, dir: int,
        i: nat, bound: nat)
    requires i <= bound <= |a| == |b| == |free|
    requires forall k | 0 <= k < |a| :: a[k].name == b[k].name && a[k].parent == b[k].parent
    ensures FindFrom(a, free, name, dir, i, bound) == FindFrom(b, free, name, dir, i, bound)
    decreases bound - i
  {
    if i >= bound {
    } else {
      FindFromSame(a, b, free, name, dir, i + 1, bound);
    }
  }

  // The buffer that a write of n bytes at the cursor leaves: it grows, to whole blocks, only if it must and can.
  function Room(f: File, n: nat, room: bool): nat {
    if room && f.position + n > f.allocatedSize then Blocks(f.position + n) else f.allocatedSize
  }

  // A write of n bytes at the cursor ends past the largest size, and no failed realloc stops it before.
  predicate Overruns(f: File, n: nat, room: bool) {
    f.position + n > MAX_FILE_SIZE && (room || f.allocatedSize == MAX_FILE_SIZE || f.position + n >= WORD)
  }

  // A sum that wraps around lies below the cursor.
  lemma SumWraps(f: File, n: nat)
    requires Sound(f) && !f.isDir && n < WORD
    ensures f.position + n < WORD ==> (f.position + n) % WORD == f.position + n
    ensures f.position + n >= WORD ==> (f.position + n) % WORD < f.position
  {
  }

  // The file with size n, in a buffer of whole blocks that holds it.
  function Stretched(f: File, n: nat, now: nat): File
    requires |f.data| == f.allocatedSize
  {
    if n <= f.allocatedSize then f.(size := n, modifiedTime := now)
    else f.(data := f.data + Fresh(Blocks(n) - f.allocatedSize), allocatedSize := Blocks(n), size := n,
      modifiedTime := now)
  }

  // The effect of a write of b on a file: its contents and cursor; all but the buffer and the time stays.
  ghost predicate Written(f: File, g: File, b: seq<bv8>) {
    && Sound(f) && Sound(g) && Contents(g) == Overwrite(Contents(f), f.position, b) && g.position == f.position + |b|
    && g == f.(data := g.data, size := g.size, allocatedSize := g.allocatedSize, position := g.position,
               modifiedTime := g.modifiedTime)
  }

  lemma NoneWritten(f: File, b: seq<bv8>)
    requires Sound(f)
    ensures Written(f, f, b[..0])
  {
  }

  lemma NothingWritten(t: Table, name: string, b: seq<bv8>)
    requires Kept(t)
    ensures var i := Find(t, name);
            i != -1 ==> t.files[i].position <= t.files[i].allocatedSize && Written(t.files[i], t.files[i], b[..0]) &&
                        Changed(t, i, t.files[i]) == t
  {
    var i := Find(t, name);
    if i != -1 {
      SoundAt(t, i);
      SameFile(t, i);
      NoneWritten(t.files[i], b);
    }
  }

  // A new file.
  lemma EmptySound(f: File)
    requires f.size == 0 && f.position == 0 && f.allocatedSize == |f.data| == BLOCK_SIZE && !f.isDir
    ensures Sound(f)
  {
  }

  lemma SoundAt(t: Table, i: nat)
    requires Kept(t) && Live(t.free, i)
    ensures Sound(t.files[i])
  {
  }

  lemma SameFile(t: Table, i: nat)
    requires i < |t.files|
    ensures Changed(t, i, t.files[i]) == t
  {
  }

  // Reading no bytes changes nothing.
  lemma NothingRead(t: Table, name: string)
    requires Kept(t)
    ensures var i := Find(t, name);
            i != -1 ==>
              var f := t.files[i];
              && Sound(f) && f.position <= f.size && Contents(f)[f.position..f.position] == []
              && Changed(t, i, f.(position := f.position)) == t
  {
    var i := Find(t, name);
    if i != -1 {
      SoundAt(t, i);
      SameFile(t, i);
    }
  }

  // n bytes of a buffer from pos on.
  function Bytes(f: File, pos: nat, n: nat): (r: seq<bv8>)
    requires Sound(f) && pos + n <= f.size
    ensures r == Contents(f)[pos..pos + n]
  {
    seq(n, k requires 0 <= k < n => f.data[pos + k].value)
  }

  lemma {:induction false} NoneUsed(free: seq<bool>)
    requires forall i | 0 <= i < |free| :: free[i]
    ensures Used(free) == 0
  {
    if free == [] {
    } else {
      NoneUsed(free[..|free| - 1]);
    }
  }

  // The table after fs_init.
  lemma RootOnly(t: Table)
    requires |t.files| == |t.free| == MAX_FILES && !t.free[0] && forall i | 0 < i < MAX_FILES :: t.free[i]
    requires t.files[0].isDir && t.files[0].parent == -1 && Sound(t.files[0]) && t.files[0].inode < t.next < WORD
    requires t.count == 1 && t.cwd == 0
    ensures Kept(t) && Used(t.free) == 1
  {
    NoneUsed(t.free[0 := true]);
    UsedSet(t.free, 0, true);
  }

  // Some live slot hangs under the given one.
  ghost predicate Busy(files: seq<File>, free: seq<bool>, dir: int)
    requires |files| == |free|
  {
    exists i :: 0 <= i < |free| && Live(free, i) && files[i].parent == dir
  }

  // What is in a free slot does not matter.
  lemma ChangedFree(t: Table, slot: nat, f: File)
    requires Kept(t) && slot < MAX_FILES && t.free[slot]
    ensures Kept(Changed(t, slot, f))
  {
    hide Sound;
    forall i | 0 < i < MAX_FILES && Live(t.free, i)
      ensures Hangs(t.files[slot := f], t.free, i)
    {
      assert Hangs(t.files, t.free, i);
    }
  }

  lemma NothingBelow(t: Table, slot: nat)
    requires Kept(t) && slot < MAX_FILES && !t.files[slot].isDir
    ensures forall i | 0 <= i < MAX_FILES && Live(t.free, i) :: t.files[i].parent != slot
  {
    forall i | 0 <= i < MAX_FILES && Live(t.free, i)
      ensures t.files[i].parent != slot
    {
      assert i > 0 ==> Hangs(t.files, t.free, i);
    }
  }
}
