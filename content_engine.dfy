/** The content engine: creation of directories (`wvfs_mkdir`) and files (`wvfs_touch`)
    in the current directory, and writing and reading a file of the current directory
    (`wvfs_write_file`, `wvfs_read_file`), which either goes through the node's device
    hooks or replaces and returns the stored content. */
module ContentEngine {
  import opened Wrappers
  import opened TreeStore
  import Navigator

  /** Size of the buffer `wvfs_read_file` hands to a read hook. */
  const READ_BUFFER: nat := 1024

  // ---------------------------------------------------------------- creation

  /** `wvfs_mkdir`: -2 for the reserved name `dev` (checked first, in every directory),
      then -1 when the current directory is full, then -2 when the name is taken;
      otherwise a new directory is appended and the result is 0. */
  function Mkdir(s: Store, name: string): (r: Step)
    requires Valid(s) && |name| < MAX_NAME
    ensures name == "dev" ==> r.rc == -2
    ensures r.rc == -1 <==> name != "dev" && |s.nodes[s.cwd].children| >= MAX_CHILDREN
    ensures r.rc == -2 <==>
      name == "dev" || (|s.nodes[s.cwd].children| < MAX_CHILDREN && NameTaken(s.nodes, s.cwd, name))
    ensures r.rc == 0 || r.rc == -1 || r.rc == -2
    ensures r.rc != 0 ==> r.store == s
    ensures r.rc == 0 ==> r.store == AddChild(s, name, Dir)
  {
    if name == "dev" then Step(s, -2)
    else if |s.nodes[s.cwd].children| >= MAX_CHILDREN then Step(s, -1)
    else if Find(s.nodes, s.nodes[s.cwd].children, name).Some? then Step(s, -2)
    else Step(AddChild(s, name, Dir), 0)
  }

  /** `wvfs_touch`: -1 when the current directory is full, then -2 when the name is
      taken; otherwise a new empty file is appended and the result is 0. There is no
      reserved name. */
  function Touch(s: Store, name: string): (r: Step)
    requires Valid(s) && |name| < MAX_NAME
    ensures r.rc == -1 <==> |s.nodes[s.cwd].children| >= MAX_CHILDREN
    ensures r.rc == -2 <==> |s.nodes[s.cwd].children| < MAX_CHILDREN && NameTaken(s.nodes, s.cwd, name)
    ensures r.rc == 0 || r.rc == -1 || r.rc == -2
    ensures r.rc != 0 ==> r.store == s
    ensures r.rc == 0 ==> r.store == AddChild(s, name, File)
  {
    if |s.nodes[s.cwd].children| >= MAX_CHILDREN then Step(s, -1)
    else if Find(s.nodes, s.nodes[s.cwd].children, name).Some? then Step(s, -2)
    else Step(AddChild(s, name, File), 0)
  }

  lemma MkdirKeepsValid(s: Store, name: string)
    requires Valid(s) && |name| < MAX_NAME
    ensures Valid(Mkdir(s, name).store)
  {
    if Mkdir(s, name).rc == 0 {
      AddChildValid(s, name, Dir);
    }
  }

  lemma TouchKeepsValid(s: Store, name: string)
    requires Valid(s) && |name| < MAX_NAME
    ensures Valid(Touch(s, name).store)
  {
    if Touch(s, name).rc == 0 {
      AddChildValid(s, name, File);
    }
  }

  /** A successful creation adds exactly one node: the last child of the current
      directory, with the given name, `parent = cwd`, no children, no hooks, not
      protected (and empty content); no other node changes. */
  lemma CreatedNode(s: Store, name: string, kind: Kind)
    requires Valid(s) && |name| < MAX_NAME
    requires if kind == Dir then Mkdir(s, name).rc == 0 else Touch(s, name).rc == 0
    ensures var r := (if kind == Dir then Mkdir(s, name) else Touch(s, name)).store;
      var id := |s.nodes|;
      |r.nodes| == id + 1 && r.cwd == s.cwd &&
      r.nodes[s.cwd].children == s.nodes[s.cwd].children + [id] &&
      r.nodes[id].name == name && r.nodes[id].kind == kind && r.nodes[id].parent == Some(s.cwd) &&
      r.nodes[id].children == [] && r.nodes[id].content == "" &&
      !r.nodes[id].protected && !r.nodes[id].writeHook && !r.nodes[id].readHook &&
      (forall i :: 0 <= i < id && i != s.cwd ==> r.nodes[i] == s.nodes[i])
  {
  }

  /** Uniqueness: after a name was created in a directory, creating it again there,
      as a directory or as a file, fails and changes nothing. The code is -2, except
      that when the first creation filled the directory the capacity check answers
      first with -1 (a second `mkdir dev` is -2 in any case). */
  lemma {:induction false} CreateTwiceFails(s: Store, name: string, kind: Kind, again: Kind)
    requires Valid(s) && |name| < MAX_NAME
    requires if kind == Dir then Mkdir(s, name).rc == 0 else Touch(s, name).rc == 0
    ensures var t := (if kind == Dir then Mkdir(s, name) else Touch(s, name)).store;
      Valid(t) &&
      var r := if again == Dir then Mkdir(t, name) else Touch(t, name);
      r.store == t &&
      r.rc == (if (again == Dir && name == "dev") || |s.nodes[s.cwd].children| + 1 < MAX_CHILDREN
               then -2 else -1)
  {
    var t := AddChild(s, name, kind);
    AddChildValid(s, name, kind);
    var d := s.cwd;
    var n := |s.nodes|;
    assert t.nodes[d].children[|s.nodes[d].children|] == n;
    assert NameTaken(t.nodes, d, name);
  }

  /** Listing after a creation: the old entries, in order, then the new one. */
  lemma ListingAfterCreate(s: Store, name: string, kind: Kind)
    requires Valid(s) && |name| < MAX_NAME
    requires if kind == Dir then Mkdir(s, name).rc == 0 else Touch(s, name).rc == 0
    ensures var t := (if kind == Dir then Mkdir(s, name) else Touch(s, name)).store;
      Valid(t) &&
      Navigator.Listing(t) == Navigator.Listing(s) + [if kind == Dir then name + "/" else name]
  {
    var t := AddChild(s, name, kind);
    AddChildValid(s, name, kind);
    var kids := s.nodes[s.cwd].children;
    var a := Navigator.Listing(t);
    var b := Navigator.Listing(s) + [if kind == Dir then name + "/" else name];
    assert |a| == |b|;
    forall k | 0 <= k < |a|
      ensures a[k] == b[k]
    {
      if k < |kids| {
        assert t.nodes[s.cwd].children[k] == kids[k];
        assert kids[k] < |s.nodes| && t.nodes[kids[k]].name == s.nodes[kids[k]].name;
        assert t.nodes[kids[k]].kind == s.nodes[kids[k]].kind;
      }
    }
  }

  /** Creating an entry does not move the current directory: its path is unchanged. */
  lemma PathAfterCreate(s: Store, name: string, kind: Kind)
    requires Valid(s) && |name| < MAX_NAME
    requires if kind == Dir then Mkdir(s, name).rc == 0 else Touch(s, name).rc == 0
    ensures var t := (if kind == Dir then Mkdir(s, name) else Touch(s, name)).store;
      Valid(t) && Navigator.Path(t) == Navigator.Path(s)
  {
    var t := AddChild(s, name, kind);
    AddChildValid(s, name, kind);
    Navigator.PathByLinksOnly(t.nodes, s.nodes, s.cwd);
  }

  /** `mkdir x` followed by `cd x` enters the new, empty directory, and the rendered
      path grows by `/x`. */
  lemma MkdirThenCd(s: Store, name: string)
    requires Valid(s) && |name| < MAX_NAME && name != "/" && name != ".."
    requires Mkdir(s, name).rc == 0
    ensures Valid(Mkdir(s, name).store)
    ensures var t := Navigator.Cd(Mkdir(s, name).store, name);
      t.rc == 0 && Valid(t.store) && t.store.cwd == |s.nodes| &&
      t.store.nodes[t.store.cwd].children == [] &&
      Navigator.Path(t.store) == Navigator.Path(s) + "/" + name
  {
    var m := AddChild(s, name, Dir);
    MkdirKeepsValid(s, name);
    PathAfterCreate(s, name, Dir);
    var k := |s.nodes[s.cwd].children|;
    assert m.nodes[m.cwd].children[k] == |s.nodes|;
    Navigator.CdToChild(m, name, k);
    Navigator.PathAfterCd(m, name);
  }

  // ---------------------------------------------------------------- write and read

  /** The named child of the current directory is a file (the condition under which
      writing and reading reach it). */
  predicate IsFile(s: Store, name: string)
    requires Valid(s)
  {
    var f := Find(s.nodes, s.nodes[s.cwd].children, name);
    f.Some? && s.nodes[f.value].kind == File
  }

  /** `wvfs_write_file`: -1 when no child has the name or it is a directory; through a
      write hook, nothing is stored and the length of the data is returned whatever the
      hook answers; otherwise the file's content is replaced by the data and its length
      is returned. */
  function Write(s: Store, name: string, data: string): (r: Step)
    requires Valid(s)
    ensures r.rc == -1 <==> !IsFile(s, name)
    ensures r.rc == -1 || r.rc == |data|
    ensures r.store.cwd == s.cwd && |r.store.nodes| == |s.nodes|
    ensures r.rc == -1 ==> r.store == s
    ensures IsFile(s, name) ==>
      var f := Find(s.nodes, s.nodes[s.cwd].children, name).value;
      if s.nodes[f].writeHook then r.store == s
      else r.store.nodes[f] == s.nodes[f].(content := data) &&
           forall i :: 0 <= i < |s.nodes| && i != f ==> r.store.nodes[i] == s.nodes[i]
  {
    match Find(s.nodes, s.nodes[s.cwd].children, name)
    case None => Step(s, -1)
    case Some(f) =>
      if s.nodes[f].kind != File then Step(s, -1)
      else if s.nodes[f].writeHook then Step(s, |data|)
      else Step(s.(nodes := s.nodes[f := s.nodes[f].(content := data)]), |data|)
  }

  /** What `wvfs_read_file` outputs: the "File not found" message, the bytes a read hook
      produced, or the stored text of the file. */
  datatype ReadOutput = FileNotFound | DeviceBytes(bytes: seq<char>) | Text(text: string)

  /** `wvfs_read_file`. `hookBytes` is what the node's read hook puts in the 1024-byte
      buffer and reports (the hook is outside the model). */
  function Read(s: Store, name: string, hookBytes: seq<char>): (r: ReadOutput)
    requires Valid(s) && |hookBytes| <= READ_BUFFER
    ensures r == FileNotFound <==> !IsFile(s, name)
    ensures r.DeviceBytes? ==> r.bytes == hookBytes && |r.bytes| <= READ_BUFFER
    ensures IsFile(s, name) ==>
      var f := s.nodes[Find(s.nodes, s.nodes[s.cwd].children, name).value];
      r == if f.readHook then DeviceBytes(hookBytes) else Text(f.content)
  {
    match Find(s.nodes, s.nodes[s.cwd].children, name)
    case None => FileNotFound
    case Some(f) =>
      if s.nodes[f].kind != File then FileNotFound
      else if s.nodes[f].readHook then DeviceBytes(hookBytes)
      else Text(s.nodes[f].content)
  }

  lemma WriteKeepsValid(s: Store, name: string, data: string)
    requires Valid(s)
    ensures Valid(Write(s, name, data).store)
  {
    if IsFile(s, name) {
      var f := Find(s.nodes, s.nodes[s.cwd].children, name).value;
      if !s.nodes[f].writeHook {
        SetContentValid(s, f, data);
      }
    }
  }

  /** A read after a write yields exactly the written data (or the device's bytes for a
      hooked file, whose content the write left alone). */
  lemma WriteThenRead(s: Store, name: string, data: string, hookBytes: seq<char>)
    requires Valid(s) && |hookBytes| <= READ_BUFFER
    requires IsFile(s, name)
    ensures Valid(Write(s, name, data).store)
    ensures var f := s.nodes[Find(s.nodes, s.nodes[s.cwd].children, name).value];
      Read(Write(s, name, data).store, name, hookBytes) ==
        if f.readHook then DeviceBytes(hookBytes) else Text(data)
  {
    WriteKeepsValid(s, name, data);
    var t := Write(s, name, data).store;
    FindByNamesOnly(s.nodes, t.nodes, s.nodes[s.cwd].children, name);
  }

  /** Writing replaces rather than appends: of two writes to the same name, only the
      last one is visible in the resulting state. */
  lemma WriteOverwrites(s: Store, name: string, first: string, second: string)
    requires Valid(s)
    ensures Valid(Write(s, name, first).store)
    ensures Write(Write(s, name, first).store, name, second) == Write(s, name, second)
  {
    WriteKeepsValid(s, name, first);
    var t := Write(s, name, first).store;
    FindByNamesOnly(s.nodes, t.nodes, s.nodes[s.cwd].children, name);
  }

  /** A freshly touched file reads as the empty text. */
  lemma TouchThenRead(s: Store, name: string, hookBytes: seq<char>)
    requires Valid(s) && |name| < MAX_NAME && |hookBytes| <= READ_BUFFER
    requires Touch(s, name).rc == 0
    ensures Valid(Touch(s, name).store)
    ensures Read(Touch(s, name).store, name, hookBytes) == Text("")
  {
    TouchKeepsValid(s, name);
    var t := Touch(s, name).store;
    var kids := s.nodes[s.cwd].children;
    var id := |s.nodes|;
    FindByNamesOnly(s.nodes, t.nodes, kids, name);
    FindAppended(t.nodes, kids, id, name);
  }
}
