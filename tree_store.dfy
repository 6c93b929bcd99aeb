/** The tree store of the in-memory filesystem: nodes, the structural invariants of the
    tree, node creation, lookup of a child by name and the fixed bootstrap of `/`, `/dev`
    and `/dev/null`.

    The C program links nodes by pointers. Here every node lives in one sequence and is
    named by its index: the root is index 0, a parent link is `Some(index)`, and a
    directory's `children` is the sequence of its children's indices in insertion order. */
module TreeStore {
  import opened Wrappers

  /** Size of the `name` buffer of a node; a name must fit with its terminator. */
  const MAX_NAME: nat := 256
  /** Capacity of a directory's `children` array. */
  const MAX_CHILDREN: nat := 128
  /** Index of the root directory `/`. */
  const ROOT: nat := 0

  datatype Kind = Dir | File

  /** One filesystem entry. `content` is meaningful for files only (a directory's is
      the NULL pointer in C and the empty string here). The two hook flags record
      whether the device write and read hooks are attached. */
  datatype Node = Node(
    name: string,
    kind: Kind,
    parent: Option<nat>,
    children: seq<nat>,
    content: string,
    protected: bool,
    writeHook: bool,
    readHook: bool)

  /** The global state: every node, and the current directory `cwd`. */
  datatype Store = Store(nodes: seq<Node>, cwd: nat)

  /** The new state after an operation, with the integer code the C function returns. */
  datatype Step = Step(store: Store, rc: int)

  // ---------------------------------------------------------------- invariants

  /** Every child index names a node. */
  predicate InRange(nodes: seq<Node>)
  {
    forall i, k :: 0 <= i < |nodes| && 0 <= k < |nodes[i].children| ==> nodes[i].children[k] < |nodes|
  }

  /** Only the root lacks a parent; every other node's parent was created before it
      and lists it among its children. */
  predicate ParentLinks(nodes: seq<Node>)
  {
    (forall i :: 0 <= i < |nodes| ==> (nodes[i].parent.None? <==> i == ROOT)) &&
    (forall i, p :: 0 <= i < |nodes| && 0 <= p < |nodes| && nodes[i].parent == Some(p) ==>
      p < i && i in nodes[p].children) &&
    (forall i :: 0 <= i < |nodes| && nodes[i].parent.Some? ==> nodes[i].parent.value < |nodes|)
  }

  /** Every node listed in `d.children` has `d` as its parent. */
  predicate ChildLinks(nodes: seq<Node>)
    requires InRange(nodes)
  {
    forall i, k :: 0 <= i < |nodes| && 0 <= k < |nodes[i].children| ==>
      nodes[nodes[i].children[k]].parent == Some(i)
  }

  /** No directory holds more than `MAX_CHILDREN` children and every name fits its buffer. */
  predicate Bounded(nodes: seq<Node>)
  {
    forall i :: 0 <= i < |nodes| ==>
      |nodes[i].children| <= MAX_CHILDREN && |nodes[i].name| < MAX_NAME
  }

  /** Only directories have children. */
  predicate FilesAreLeaves(nodes: seq<Node>)
  {
    forall i :: 0 <= i < |nodes| && nodes[i].kind == File ==> nodes[i].children == []
  }

  /** Hooks come as a pair and sit only on files, whose stored content then stays the
      empty string. */
  predicate HooksOnFiles(nodes: seq<Node>)
  {
    forall i :: 0 <= i < |nodes| ==>
      nodes[i].writeHook == nodes[i].readHook &&
      (nodes[i].writeHook ==> nodes[i].kind == File && nodes[i].content == "")
  }

  /** Sibling names are pairwise distinct. */
  predicate UniqueNames(nodes: seq<Node>)
    requires InRange(nodes)
  {
    forall i, j, k :: 0 <= i < |nodes| && 0 <= j < k < |nodes[i].children| ==>
      nodes[nodes[i].children[j]].name != nodes[nodes[i].children[k]].name
  }

  predicate WellFormed(nodes: seq<Node>)
  {
    |nodes| > 0 && nodes[ROOT].kind == Dir &&
    InRange(nodes) && ParentLinks(nodes) && ChildLinks(nodes) && Bounded(nodes) &&
    FilesAreLeaves(nodes) && HooksOnFiles(nodes) && UniqueNames(nodes)
  }

  /** The invariant every operation keeps: a well-formed tree whose current
      directory is a directory. */
  predicate Valid(s: Store)
  {
    WellFormed(s.nodes) && s.cwd < |s.nodes| && s.nodes[s.cwd].kind == Dir
  }

  /** Directory `dir` has a child called `name`. */
  predicate NameTaken(nodes: seq<Node>, dir: nat, name: string)
    requires InRange(nodes) && dir < |nodes|
  {
    exists k :: 0 <= k < |nodes[dir].children| && nodes[nodes[dir].children[k]].name == name
  }

  // ---------------------------------------------------------------- operations

  /** `wvfs_create_node`: a node with the given name, type and parent, no children,
      empty content, no hooks and not protected. */
  function CreateNode(name: string, kind: Kind, parent: Option<nat>): (n: Node)
    ensures n.name == name && n.kind == kind && n.parent == parent
    ensures n.children == [] && n.content == ""
    ensures !n.protected && !n.writeHook && !n.readHook
  {
    Node(name, kind, parent, [], "", false, false, false)
  }

  /** `wvfs_find_child`: the first of `kids`, in order, whose name is exactly `name`. */
  function Find(nodes: seq<Node>, kids: seq<nat>, name: string): (r: Option<nat>)
    requires forall k :: 0 <= k < |kids| ==> kids[k] < |nodes|
    ensures r.Some? ==> r.value in kids && r.value < |nodes| && nodes[r.value].name == name
    ensures r.None? <==> forall k :: 0 <= k < |kids| ==> nodes[kids[k]].name != name
  {
    if |kids| == 0 then None
    else if nodes[kids[0]].name == name then Some(kids[0])
    else Find(nodes, kids[1..], name)
  }

  /** Lookup returns the FIRST match: if position `k` is the first whose name is
      `name`, the result is `kids[k]`. */
  lemma {:induction false} FindFirst(nodes: seq<Node>, kids: seq<nat>, name: string, k: nat)
    requires forall j :: 0 <= j < |kids| ==> kids[j] < |nodes|
    requires k < |kids| && nodes[kids[k]].name == name
    requires forall j :: 0 <= j < k ==> nodes[kids[j]].name != name
    ensures Find(nodes, kids, name) == Some(kids[k])
  {
    if k > 0 {
      assert nodes[kids[0]].name != name;
      FindFirst(nodes, kids[1..], name, k - 1);
    }
  }

  /** Lookup reads names only: two node tables that agree on the names of `kids`
      give the same answer. */
  lemma {:induction false} FindByNamesOnly(a: seq<Node>, b: seq<Node>, kids: seq<nat>, name: string)
    requires forall k :: 0 <= k < |kids| ==> kids[k] < |a| && kids[k] < |b|
    requires forall k :: 0 <= k < |kids| ==> a[kids[k]].name == b[kids[k]].name
    ensures Find(a, kids, name) == Find(b, kids, name)
  {
    if |kids| > 0 {
      FindByNamesOnly(a, b, kids[1..], name);
    }
  }

  /** Appending a child whose name is new makes lookup of that name find it. */
  lemma {:induction false} FindAppended(nodes: seq<Node>, kids: seq<nat>, x: nat, name: string)
    requires forall k :: 0 <= k < |kids| ==> kids[k] < |nodes|
    requires x < |nodes| && nodes[x].name == name
    requires Find(nodes, kids, name).None?
    ensures Find(nodes, kids + [x], name) == Some(x)
  {
    var all := kids + [x];
    forall j | 0 <= j < |kids|
      ensures nodes[all[j]].name != name
    {
      assert all[j] == kids[j];
    }
    FindFirst(nodes, all, name, |kids|);
  }

  /** In a valid tree, lookup in a directory finds a child whose parent is that directory. */
  lemma FindIsChild(nodes: seq<Node>, dir: nat, name: string)
    requires WellFormed(nodes) && dir < |nodes|
    requires Find(nodes, nodes[dir].children, name).Some?
    ensures nodes[Find(nodes, nodes[dir].children, name).value].parent == Some(dir)
  {
    var c := Find(nodes, nodes[dir].children, name).value;
    var k :| 0 <= k < |nodes[dir].children| && nodes[dir].children[k] == c;
  }

  /** Attaches a fresh node called `name` of the given kind at the end of the current
      directory's children (`children[child_count++] = node`). */
  function AddChild(s: Store, name: string, kind: Kind): (r: Store)
    requires Valid(s)
    ensures |r.nodes| == |s.nodes| + 1 && r.cwd == s.cwd
    ensures r.nodes[s.cwd] == s.nodes[s.cwd].(children := s.nodes[s.cwd].children + [|s.nodes|])
    ensures r.nodes[|s.nodes|] == CreateNode(name, kind, Some(s.cwd))
    ensures forall i :: 0 <= i < |s.nodes| && i != s.cwd ==> r.nodes[i] == s.nodes[i]
  {
    var dir := s.nodes[s.cwd];
    s.(nodes := s.nodes[s.cwd := dir.(children := dir.children + [|s.nodes|])]
                + [CreateNode(name, kind, Some(s.cwd))])
  }

  /** Creating a child where there is room and the name is free keeps every invariant. */
  lemma AddChildValid(s: Store, name: string, kind: Kind)
    requires Valid(s) && |name| < MAX_NAME
    requires |s.nodes[s.cwd].children| < MAX_CHILDREN
    requires !NameTaken(s.nodes, s.cwd, name)
    ensures Valid(AddChild(s, name, kind))
  {
    var r := AddChild(s, name, kind).nodes;
    AddChildInRange(s, name, kind);
    AddChildParentLinks(s, name, kind);
    AddChildChildLinks(s, name, kind);
    AddChildUniqueNames(s, name, kind);
    assert Bounded(r) by {
      forall i | 0 <= i < |r|
        ensures |r[i].children| <= MAX_CHILDREN && |r[i].name| < MAX_NAME
      {
      }
    }
    assert FilesAreLeaves(r);
    assert HooksOnFiles(r);
  }

  lemma AddChildInRange(s: Store, name: string, kind: Kind)
    requires Valid(s)
    ensures InRange(AddChild(s, name, kind).nodes)
  {
    var r := AddChild(s, name, kind).nodes;
    var n, d := |s.nodes|, s.cwd;
    forall i, k | 0 <= i < |r| && 0 <= k < |r[i].children|
      ensures r[i].children[k] < |r|
    {
      if i != d && i < n {
        assert r[i].children[k] == s.nodes[i].children[k];
      } else if i == d && k < |s.nodes[d].children| {
        assert r[i].children[k] == s.nodes[d].children[k];
      }
    }
  }

  lemma AddChildParentLinks(s: Store, name: string, kind: Kind)
    requires Valid(s)
    ensures ParentLinks(AddChild(s, name, kind).nodes)
  {
    var r := AddChild(s, name, kind).nodes;
    var n := |s.nodes|;
    forall i | 0 <= i < |r|
      ensures (r[i].parent.None? <==> i == ROOT)
      ensures r[i].parent.Some? ==> r[i].parent.value < i && i in r[r[i].parent.value].children
    {
      if i < n {
        assert r[i].parent == s.nodes[i].parent;
        if r[i].parent.Some? {
          var p := r[i].parent.value;
          assert i in s.nodes[p].children;
          assert i in r[p].children;
        }
      }
    }
  }

  lemma AddChildChildLinks(s: Store, name: string, kind: Kind)
    requires Valid(s)
    ensures InRange(AddChild(s, name, kind).nodes)
    ensures ChildLinks(AddChild(s, name, kind).nodes)
  {
    AddChildInRange(s, name, kind);
    var r := AddChild(s, name, kind).nodes;
    var n, d := |s.nodes|, s.cwd;
    forall i, k | 0 <= i < |r| && 0 <= k < |r[i].children|
      ensures r[r[i].children[k]].parent == Some(i)
    {
      if i != d && i < n {
        var c := s.nodes[i].children[k];
        assert r[i].children[k] == c;
        assert c < n && r[c].parent == s.nodes[c].parent;
      } else if i == d && k < |s.nodes[d].children| {
        var c := s.nodes[d].children[k];
        assert r[i].children[k] == c;
        assert c < n && r[c].parent == s.nodes[c].parent;
      }
    }
  }

  lemma AddChildUniqueNames(s: Store, name: string, kind: Kind)
    requires Valid(s)
    requires !NameTaken(s.nodes, s.cwd, name)
    ensures InRange(AddChild(s, name, kind).nodes)
    ensures UniqueNames(AddChild(s, name, kind).nodes)
  {
    AddChildInRange(s, name, kind);
    var r := AddChild(s, name, kind).nodes;
    var n, d := |s.nodes|, s.cwd;
    forall i, j, k | 0 <= i < |r| && 0 <= j < k < |r[i].children|
      ensures r[r[i].children[j]].name != r[r[i].children[k]].name
    {
      if i == d {
        var cj := s.nodes[d].children[j];
        assert r[i].children[j] == cj && cj < n && r[cj].name == s.nodes[cj].name;
        if k < |s.nodes[d].children| {
          var ck := s.nodes[d].children[k];
          assert r[i].children[k] == ck && ck < n && r[ck].name == s.nodes[ck].name;
        } else {
          assert r[i].children[k] == n;
        }
      } else if i < n {
        var cj, ck := s.nodes[i].children[j], s.nodes[i].children[k];
        assert r[i].children[j] == cj && cj < n && r[cj].name == s.nodes[cj].name;
        assert r[i].children[k] == ck && ck < n && r[ck].name == s.nodes[ck].name;
      }
    }
  }

  /** Replacing the content of a hook-less file keeps every invariant. */
  lemma SetContentValid(s: Store, f: nat, data: string)
    requires Valid(s) && f < |s.nodes|
    requires s.nodes[f].kind == File && !s.nodes[f].writeHook
    ensures Valid(s.(nodes := s.nodes[f := s.nodes[f].(content := data)]))
  {
    var r := s.nodes[f := s.nodes[f].(content := data)];
    SameLinksWellFormed(s.nodes, r);
    assert HooksOnFiles(r) by {
      forall i | 0 <= i < |r|
        ensures r[i].writeHook == r[i].readHook
        ensures r[i].writeHook ==> r[i].kind == File && r[i].content == ""
      {
        assert i != f ==> r[i] == s.nodes[i];
      }
    }
  }

  /** Two node tables with the same names, kinds, parent links and children. */
  predicate SameLinks(a: seq<Node>, b: seq<Node>)
  {
    |a| == |b| &&
    forall i :: 0 <= i < |a| ==>
      a[i].name == b[i].name && a[i].kind == b[i].kind &&
      a[i].parent == b[i].parent && a[i].children == b[i].children
  }

  /** Every invariant except the one about hooks reads only names, kinds and links. */
  lemma SameLinksWellFormed(a: seq<Node>, b: seq<Node>)
    requires WellFormed(a) && SameLinks(a, b)
    ensures InRange(b) && ParentLinks(b) && ChildLinks(b) && Bounded(b)
    ensures FilesAreLeaves(b) && UniqueNames(b)
    ensures HooksOnFiles(b) ==> WellFormed(b)
  {
    assert InRange(b) by {
      forall i, k | 0 <= i < |b| && 0 <= k < |b[i].children|
        ensures b[i].children[k] < |b|
      {
        assert b[i].children == a[i].children;
      }
    }
    assert ParentLinks(b) by {
      forall i, p | 0 <= i < |b| && 0 <= p < |b| && b[i].parent == Some(p)
        ensures p < i && i in b[p].children
      {
        assert a[i].parent == Some(p) && a[p].children == b[p].children;
      }
      forall i | 0 <= i < |b|
        ensures (b[i].parent.None? <==> i == ROOT)
        ensures b[i].parent.Some? ==> b[i].parent.value < |b|
      {
        assert a[i].parent == b[i].parent;
      }
    }
    assert ChildLinks(b) by {
      forall i, k | 0 <= i < |b| && 0 <= k < |b[i].children|
        ensures b[b[i].children[k]].parent == Some(i)
      {
        var c := a[i].children[k];
        assert b[i].children[k] == c && b[c].parent == a[c].parent;
      }
    }
    assert UniqueNames(b) by {
      forall i, j, k | 0 <= i < |b| && 0 <= j < k < |b[i].children|
        ensures b[b[i].children[j]].name != b[b[i].children[k]].name
      {
        var cj, ck := a[i].children[j], a[i].children[k];
        assert b[i].children[j] == cj && b[cj].name == a[cj].name;
        assert b[i].children[k] == ck && b[ck].name == a[ck].name;
      }
    }
  }

  /** The state `wvfs_init` leaves: the root `/`, whose only child is the protected
      directory `dev` (node 1), whose only child is the file `null` (node 2) carrying
      both hooks; the current directory is the root. `dev` is the only protected node
      and `null` the only hooked one. */
  predicate Bootstrapped(s: Store)
    ensures Bootstrapped(s) ==>
      forall i :: 0 <= i < |s.nodes| ==> (s.nodes[i].protected <==> i == 1)
    ensures Bootstrapped(s) ==>
      forall i :: 0 <= i < |s.nodes| ==> (s.nodes[i].readHook <==> i == 2)
  {
    s.cwd == ROOT && |s.nodes| == 3 &&
    s.nodes[ROOT] == Node("/", Dir, None, [1], "", false, false, false) &&
    s.nodes[1] == Node("dev", Dir, Some(ROOT), [2], "", true, false, false) &&
    s.nodes[2] == Node("null", File, Some(1), [], "", false, true, true)
  }

  /** The bootstrap tree satisfies every invariant. */
  lemma BootstrapValid(s: Store)
    requires Bootstrapped(s)
    ensures Valid(s)
  {
    var n := s.nodes;
    assert InRange(n) by {
      forall i, k | 0 <= i < |n| && 0 <= k < |n[i].children|
        ensures n[i].children[k] < |n|
      {
        assert i == 0 || i == 1;
      }
    }
    assert ParentLinks(n) by {
      forall i, p | 0 <= i < |n| && 0 <= p < |n| && n[i].parent == Some(p)
        ensures p < i && i in n[p].children
      {
        assert (i == 1 && p == 0) || (i == 2 && p == 1);
      }
    }
    assert ChildLinks(n) by {
      forall i, k | 0 <= i < |n| && 0 <= k < |n[i].children|
        ensures n[n[i].children[k]].parent == Some(i)
      {
        assert (i == 0 || i == 1) && k == 0;
      }
    }
    assert UniqueNames(n);
    assert FilesAreLeaves(n) by {
      forall i | 0 <= i < |n| && n[i].kind == File
        ensures n[i].children == []
      {
        assert i == 2;
      }
    }
    assert HooksOnFiles(n) by {
      forall i | 0 <= i < |n|
        ensures n[i].writeHook == n[i].readHook
        ensures n[i].writeHook ==> n[i].kind == File && n[i].content == ""
      {
        assert i == 0 || i == 1 || i == 2;
      }
    }
    assert Bounded(n) by {
      assert |n[0].name| == 1 && |n[1].name| == 3 && |n[2].name| == 4;
    }
  }
}
