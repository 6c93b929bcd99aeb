/** The filesystem as the C program runs it: one object holding the global state (the
    node table reached from `root`, and `cwd`) and one method per exported function,
    each updating that state in place and proved to behave as the corresponding
    transition of the tree store, navigator and content engine. */
module Filesystem {
  import opened Wrappers
  import opened TreeStore
  import Navigator
  import ContentEngine

  class Wvfs {
    /** Every node; index `ROOT` is the global `root`. */
    var nodes: seq<Node>
    /** The global `cwd`. */
    var cwd: nat

    function State(): Store
      reads this
    {
      Store(nodes, cwd)
    }

    predicate Valid()
      reads this
    {
      TreeStore.Valid(State())
    }

    /** `wvfs_init`. */
    constructor Init()
      ensures Valid() && Bootstrapped(State())
    {
      nodes := [CreateNode("/", Dir, None)];
      cwd := ROOT;
      new;
      var dev := Attach(ROOT, CreateNode("dev", Dir, Some(ROOT)).(protected := true));
      var devNull := Attach(dev, CreateNode("null", File, Some(dev)).(writeHook := true, readHook := true));
      BootstrapValid(State());
    }

    /** Stores `node` and links it as the last child of `dir`
        (`dir->children[dir->child_count++] = node`); returns its index. */
    method Attach(dir: nat, node: Node) returns (id: nat)
      requires dir < |nodes|
      modifies this
      ensures id == old(|nodes|) && cwd == old(cwd)
      ensures nodes == old(nodes[dir := nodes[dir].(children := nodes[dir].children + [|nodes|])]) + [node]
    {
      id := |nodes|;
      nodes := nodes[dir := nodes[dir].(children := nodes[dir].children + [id])] + [node];
    }

    /** `wvfs_find_child`: scans the children of `dir` in order for an exact name match. */
    method FindChild(dir: nat, name: string) returns (r: Option<nat>)
      requires Valid() && dir < |nodes|
      ensures r == Find(nodes, nodes[dir].children, name)
      ensures r.None? <==> !NameTaken(nodes, dir, name)
      ensures r.Some? ==>
        exists k :: 0 <= k < |nodes[dir].children| && nodes[dir].children[k] == r.value &&
          nodes[r.value].name == name &&
          forall j :: 0 <= j < k ==> nodes[nodes[dir].children[j]].name != name
    {
      var kids := nodes[dir].children;
      var i := 0;
      while i < |kids|
        invariant 0 <= i <= |kids|
        invariant forall j :: 0 <= j < i ==> nodes[kids[j]].name != name
      {
        if nodes[kids[i]].name == name {
          FindFirst(nodes, kids, name, i);
          return Some(kids[i]);
        }
        i := i + 1;
      }
      return None;
    }

    /** `wvfs_mkdir`. */
    method Mkdir(name: string) returns (rc: int)
      requires Valid() && |name| < MAX_NAME
      modifies this
      ensures Valid()
      ensures Step(State(), rc) == ContentEngine.Mkdir(old(State()), name)
    {
      if name == "dev" {
        return -2;
      }
      if |nodes[cwd].children| >= MAX_CHILDREN {
        return -1;
      }
      var existing := FindChild(cwd, name);
      if existing.Some? {
        return -2;
      }
      ghost var before := State();
      var id := Attach(cwd, CreateNode(name, Dir, Some(cwd)));
      AddChildValid(before, name, Dir);
      return 0;
    }

    /** `wvfs_touch`. */
    method Touch(name: string) returns (rc: int)
      requires Valid() && |name| < MAX_NAME
      modifies this
      ensures Valid()
      ensures Step(State(), rc) == ContentEngine.Touch(old(State()), name)
    {
      if |nodes[cwd].children| >= MAX_CHILDREN {
        return -1;
      }
      var existing := FindChild(cwd, name);
      if existing.Some? {
        return -2;
      }
      ghost var before := State();
      var id := Attach(cwd, CreateNode(name, File, Some(cwd)));
      AddChildValid(before, name, File);
      return 0;
    }

    /** `wvfs_cd`. */
    method Cd(name: string) returns (rc: int)
      requires Valid()
      modifies this
      ensures Valid() && nodes == old(nodes)
      ensures Step(State(), rc) == Navigator.Cd(old(State()), name)
    {
      ghost var before := State();
      Navigator.CdKeepsValid(before, name);
      if name == "/" {
        cwd := ROOT;
        return 0;
      } else if name == ".." {
        if nodes[cwd].parent.Some? {
          cwd := nodes[cwd].parent.value;
        }
        return 0;
      } else {
        var dir := FindChild(cwd, name);
        if dir.None? || nodes[dir.value].kind != Dir {
          return -1;
        }
        cwd := dir.value;
        return 0;
      }
    }

    /** `wvfs_ls`: one entry per child of the current directory, in insertion order,
        a directory's name followed by `/`. */
    method Ls() returns (entries: seq<string>)
      requires Valid()
      ensures |entries| == |nodes[cwd].children|
      ensures forall k :: 0 <= k < |entries| ==>
        entries[k] == nodes[nodes[cwd].children[k]].name +
          (if nodes[nodes[cwd].children[k]].kind == Dir then "/" else "")
      ensures entries == Navigator.Listing(State())
    {
      var kids := nodes[cwd].children;
      entries := [];
      for i := 0 to |kids|
        invariant |entries| == i
        invariant forall k :: 0 <= k < i ==> entries[k] == Navigator.Entry(nodes[kids[k]])
      {
        entries := entries + [Navigator.Entry(nodes[kids[i]])];
      }
    }

    /** `wvfs_pwd`: walks the parent links from `cwd` up to the root, each step putting
        `/` and the node's name (none for the root) in front of the path so far. The
        path must fit the 1024-byte buffer. */
    method Pwd() returns (rendered: string)
      requires Valid() && |Navigator.Path(State())| < Navigator.PATH_BUFFER
      ensures rendered == Navigator.Path(State())
    {
      var tmp: Option<nat> := Some(cwd);
      var path := "";
      while tmp.Some?
        invariant tmp.Some? ==> tmp.value < |nodes|
        invariant Navigator.Walk(nodes, tmp, path) == Navigator.Walk(nodes, Some(cwd), "")
        decreases if tmp.Some? then tmp.value + 1 else 0
      {
        var n := nodes[tmp.value];
        path := "/" + (if n.parent.Some? then n.name else "") + path;
        tmp := n.parent;
      }
      Navigator.WalkIsPath(nodes, cwd, "");
      assert path == Navigator.PathTo(nodes, cwd) + "";
      rendered := if path == "" then "/" else path;
    }

    /** `wvfs_write_file`. A write hook receives the data but its answer is not used. */
    method WriteFile(name: string, data: string) returns (rc: int)
      requires Valid()
      modifies this
      ensures Valid()
      ensures Step(State(), rc) == ContentEngine.Write(old(State()), name, data)
    {
      var file := FindChild(cwd, name);
      if file.None? || nodes[file.value].kind != File {
        return -1;
      }
      if nodes[file.value].writeHook {
        return |data|;
      }
      ghost var before := State();
      nodes := nodes[file.value := nodes[file.value].(content := data)];
      SetContentValid(before, file.value, data);
      return |data|;
    }

    /** `wvfs_read_file`; `hookBytes` is what the read hook of a device node produces. */
    method ReadFile(name: string, hookBytes: seq<char>) returns (out: ContentEngine.ReadOutput)
      requires Valid() && |hookBytes| <= ContentEngine.READ_BUFFER
      ensures out == ContentEngine.Read(State(), name, hookBytes)
    {
      var file := FindChild(cwd, name);
      if file.None? || nodes[file.value].kind != File {
        return ContentEngine.FileNotFound;
      }
      if nodes[file.value].readHook {
        return ContentEngine.DeviceBytes(hookBytes);
      }
      return ContentEngine.Text(nodes[file.value].content);
    }
  }

  // ---------------------------------------------------------------- clients

  /** The states of the overwrite example: `touch f`, write `abc`, write `xy` from a
      fresh filesystem; `f` then reads as `xy`. */
  lemma OverwriteScenario(s0: Store)
    requires Bootstrapped(s0)
    ensures Valid(s0)
    ensures var s1 := ContentEngine.Touch(s0, "f");
      s1.rc == 0 && Valid(s1.store) && var s2 := ContentEngine.Write(s1.store, "f", "abc");
      s2.rc == 3 && Valid(s2.store) && var s3 := ContentEngine.Write(s2.store, "f", "xy");
      s3.rc == 2 && Valid(s3.store) && ContentEngine.Read(s3.store, "f", []) == ContentEngine.Text("xy")
  {
    BootstrapValid(s0);
    assert !NameTaken(s0.nodes, ROOT, "f") by {
      assert s0.nodes[ROOT].children == [1] && s0.nodes[1].name == "dev";
    }
    var s1 := ContentEngine.Touch(s0, "f").store;
    ContentEngine.TouchThenRead(s0, "f", []);
    ContentEngine.WriteKeepsValid(s1, "f", "abc");
    ContentEngine.WriteOverwrites(s1, "f", "abc", "xy");
    ContentEngine.WriteKeepsValid(s1, "f", "xy");
    ContentEngine.WriteThenRead(s1, "f", "xy", []);
  }

  /** The states of the null device example: after `cd dev`, every write to `null`
      reports the length of its data and changes nothing, and a read yields the bytes
      the device hook produced. */
  lemma NullDeviceScenario(s0: Store, data: string, hookBytes: seq<char>)
    requires Bootstrapped(s0) && |hookBytes| <= ContentEngine.READ_BUFFER
    ensures Valid(s0)
    ensures var s1 := Navigator.Cd(s0, "dev");
      s1.rc == 0 && Valid(s1.store) &&
      ContentEngine.Write(s1.store, "null", data) == Step(s1.store, |data|) &&
      ContentEngine.Read(s1.store, "null", hookBytes) == ContentEngine.DeviceBytes(hookBytes)
  {
    BootstrapValid(s0);
    Navigator.CdToChild(s0, "dev", 0);
    Navigator.CdKeepsValid(s0, "dev");
    var s1 := Navigator.Cd(s0, "dev").store;
    FindFirst(s1.nodes, s1.nodes[1].children, "null", 0);
  }

  /** The path rendered in `PathExample`, spelled out. It states no property of the
      filesystem; it only spares the solver an expensive string-literal comparison,
      which as an inline assertion in `PathExample` does not fit the resource limit. */
  lemma SpelledPath(p: string)
    requires p == "/" + "/" + "a" + "/" + "b"
    ensures p == "//a/b"
  {
  }

  /** From a fresh filesystem: `mkdir a`, `cd a`, `mkdir b`, `cd b`, `pwd`. */
  method PathExample() returns (path: string)
    ensures path == "//a/b"
  {
    var fs := new Wvfs.Init();
    ghost var s0 := fs.State();
    assert !NameTaken(s0.nodes, ROOT, "a") by {
      assert s0.nodes[ROOT].children == [1] && s0.nodes[1].name == "dev";
    }
    ContentEngine.MkdirThenCd(s0, "a");
    var rc := fs.Mkdir("a");
    rc := fs.Cd("a");
    ghost var s2 := fs.State();
    assert !NameTaken(s2.nodes, s2.cwd, "b");
    ContentEngine.MkdirThenCd(s2, "b");
    rc := fs.Mkdir("b");
    rc := fs.Cd("b");
    path := fs.Pwd();
    SpelledPath(path);
  }

  /** From a fresh filesystem: `ls`, `mkdir dev`, `cd dev`, `ls`. */
  method BootstrapExample() returns (top: seq<string>, rc: int, inDev: seq<string>)
    ensures top == ["dev/"] && rc == -2 && inDev == ["null"]
  {
    var fs := new Wvfs.Init();
    ghost var s0 := fs.State();
    top := fs.Ls();
    assert |top| == 1 && top[0] == "dev" + "/" == "dev/";
    rc := fs.Mkdir("dev");
    Navigator.CdToChild(s0, "dev", 0);
    var moved := fs.Cd("dev");
    assert fs.cwd == 1 && fs.nodes == s0.nodes;
    inDev := fs.Ls();
    assert |inDev| == 1 && inDev[0] == "null" + "" == "null";
  }

  /** From a fresh filesystem: `touch f`, write `abc`, write `xy`, read `f`. */
  method OverwriteExample() returns (first: int, second: int, out: ContentEngine.ReadOutput)
    ensures first == 3 && second == 2 && out == ContentEngine.Text("xy")
  {
    var fs := new Wvfs.Init();
    OverwriteScenario(fs.State());
    var rc := fs.Touch("f");
    first := fs.WriteFile("f", "abc");
    second := fs.WriteFile("f", "xy");
    out := fs.ReadFile("f", []);
  }

  /** From a fresh filesystem: `cd dev`, two writes to `null`, a read of `null`. */
  method NullDeviceExample(data: string, again: string, hookBytes: seq<char>)
    returns (first: int, second: int, out: ContentEngine.ReadOutput)
    requires |hookBytes| <= ContentEngine.READ_BUFFER
    ensures first == |data| && second == |again|
    ensures out == ContentEngine.DeviceBytes(hookBytes)
  {
    var fs := new Wvfs.Init();
    NullDeviceScenario(fs.State(), data, hookBytes);
    NullDeviceScenario(fs.State(), again, hookBytes);
    var rc := fs.Cd("dev");
    first := fs.WriteFile("null", data);
    second := fs.WriteFile("null", again);
    out := fs.ReadFile("null", hookBytes);
  }
}
