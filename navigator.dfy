/** The navigator: the current directory and its movement (`wvfs_cd`), the listing of
    the current directory (`wvfs_ls`) and the rendering of its path (`wvfs_pwd`).
    Listing and path are returned as values; the C functions print them. */
module Navigator {
  import opened Wrappers
  import opened TreeStore

  /** Size of the `path` buffer in `wvfs_pwd`. */
  const PATH_BUFFER: nat := 1024

  // ---------------------------------------------------------------- cd

  /** `wvfs_cd`: `"/"` goes to the root, `".."` to the parent when there is one, and any
      other name to the child directory of that name; -1 when there is none. */
  function Cd(s: Store, name: string): (r: Step)
    requires Valid(s)
    ensures r.store.nodes == s.nodes
    ensures r.rc == 0 || r.rc == -1
    ensures r.rc == -1 ==> r.store == s
    ensures name == "/" ==> r == Step(s.(cwd := ROOT), 0)
    ensures name == ".." ==> r.rc == 0
    ensures name == ".." && s.cwd == ROOT ==> r.store == s
    ensures name == ".." && s.nodes[s.cwd].parent.Some? ==>
      r == Step(s.(cwd := s.nodes[s.cwd].parent.value), 0)
  {
    if name == "/" then Step(s.(cwd := ROOT), 0)
    else if name == ".." then
      match s.nodes[s.cwd].parent
      case Some(p) => Step(s.(cwd := p), 0)
      case None => Step(s, 0)
    else
      match Find(s.nodes, s.nodes[s.cwd].children, name)
      case Some(d) => if s.nodes[d].kind == Dir then Step(s.(cwd := d), 0) else Step(s, -1)
      case None => Step(s, -1)
  }

  /** A move to a named child succeeds exactly when the current directory has a child
      directory of that name, and then lands on it. */
  lemma CdToChild(s: Store, name: string, k: nat)
    requires Valid(s) && name != "/" && name != ".."
    requires k < |s.nodes[s.cwd].children|
    requires s.nodes[s.nodes[s.cwd].children[k]].name == name
    ensures Cd(s, name).rc == 0 <==> s.nodes[s.nodes[s.cwd].children[k]].kind == Dir
    ensures Cd(s, name).rc == 0 ==> Cd(s, name).store.cwd == s.nodes[s.cwd].children[k]
  {
    var kids := s.nodes[s.cwd].children;
    forall j | 0 <= j < k
      ensures s.nodes[kids[j]].name != name
    {
      assert s.nodes[kids[j]].name != s.nodes[kids[k]].name;
    }
    FindFirst(s.nodes, kids, name, k);
  }

  /** A move to a name that no child carries fails and changes nothing. */
  lemma CdToMissing(s: Store, name: string)
    requires Valid(s) && name != "/" && name != ".."
    requires !NameTaken(s.nodes, s.cwd, name)
    ensures Cd(s, name) == Step(s, -1)
  {
  }

  /** Every move keeps the invariants. */
  lemma CdKeepsValid(s: Store, name: string)
    requires Valid(s)
    ensures Valid(Cd(s, name).store)
  {
    var p := s.nodes[s.cwd].parent;
    if name == ".." && p.Some? {
      assert s.cwd in s.nodes[p.value].children;
      var k :| 0 <= k < |s.nodes[p.value].children| && s.nodes[p.value].children[k] == s.cwd;
    }
  }

  /** Navigation round trip: entering a child directory and then going to `..`
      returns to the directory one started from. */
  lemma CdChildThenParent(s: Store, name: string)
    requires Valid(s) && name != "/" && name != ".."
    requires Cd(s, name).rc == 0
    ensures Cd(Cd(s, name).store, "..").store == s
  {
    FindIsChild(s.nodes, s.cwd, name);
  }

  // ---------------------------------------------------------------- ls

  /** One line of `wvfs_ls`: the name, with a trailing `/` for a directory. */
  function Entry(n: Node): string
  {
    n.name + (if n.kind == Dir then "/" else "")
  }

  /** The entries of `kids`, in order. */
  function Entries(nodes: seq<Node>, kids: seq<nat>): (r: seq<string>)
    requires forall k :: 0 <= k < |kids| ==> kids[k] < |nodes|
    ensures |r| == |kids|
    ensures forall k :: 0 <= k < |kids| ==> r[k] == Entry(nodes[kids[k]])
  {
    if |kids| == 0 then [] else [Entry(nodes[kids[0]])] + Entries(nodes, kids[1..])
  }

  /** `wvfs_ls`: the current directory's children in insertion order. */
  function Listing(s: Store): (r: seq<string>)
    requires Valid(s)
    ensures |r| == |s.nodes[s.cwd].children|
    ensures forall k :: 0 <= k < |r| ==> r[k] == Entry(s.nodes[s.nodes[s.cwd].children[k]])
  {
    Entries(s.nodes, s.nodes[s.cwd].children)
  }

  // ---------------------------------------------------------------- pwd

  /** The path `wvfs_pwd` builds for node `id`: each step up prepends `/` and the node's
      name, the root contributing `/` with no name. Hence the root renders as `/` and a
      node below it gets a doubled leading slash, `//a/b`. */
  function PathTo(nodes: seq<Node>, id: nat): (p: string)
    requires WellFormed(nodes) && id < |nodes|
    ensures |p| > 0 && p[0] == '/'
    decreases id
  {
    match nodes[id].parent
    case None => "/"
    case Some(q) => PathTo(nodes, q) + "/" + nodes[id].name
  }

  /** What the loop of `wvfs_pwd` yields from the node `tmp` (none past the root) with
      `acc` built so far: each node puts `/` and its name (none for the root) in front. */
  function Walk(nodes: seq<Node>, tmp: Option<nat>, acc: string): (r: string)
    requires WellFormed(nodes) && (tmp.Some? ==> tmp.value < |nodes|)
    ensures |r| >= |acc|
    ensures tmp.Some? ==> |r| > |acc| && r[0] == '/'
    decreases if tmp.Some? then tmp.value + 1 else 0
  {
    match tmp
    case None => acc
    case Some(t) =>
      Walk(nodes, nodes[t].parent, "/" + (if nodes[t].parent.Some? then nodes[t].name else "") + acc)
  }

  /** The walk from `id` is the path of `id` followed by what was already built. */
  lemma {:induction false} WalkIsPath(nodes: seq<Node>, id: nat, acc: string)
    requires WellFormed(nodes) && id < |nodes|
    ensures Walk(nodes, Some(id), acc) == PathTo(nodes, id) + acc
    decreases id
  {
    match nodes[id].parent
    case None =>
      assert Walk(nodes, Some(id), acc) == "/" + "" + acc;
    case Some(q) =>
      var step := "/" + nodes[id].name + acc;
      assert Walk(nodes, Some(id), acc) == Walk(nodes, Some(q), step);
      WalkIsPath(nodes, q, step);
      assert PathTo(nodes, q) + step == PathTo(nodes, q) + "/" + nodes[id].name + acc;
  }

  /** `wvfs_pwd`: the path of the current directory; it is the single `/` exactly
      at the root. */
  function Path(s: Store): (r: string)
    requires Valid(s)
    ensures |r| > 0 && r[0] == '/'
    ensures r == "/" <==> s.cwd == ROOT
  {
    PathTo(s.nodes, s.cwd)
  }

  /** The names on the way from the root (excluded) down to `id` (included). */
  function Names(nodes: seq<Node>, id: nat): (r: seq<string>)
    requires WellFormed(nodes) && id < |nodes|
    decreases id
  {
    match nodes[id].parent
    case None => []
    case Some(q) => Names(nodes, q) + [nodes[id].name]
  }

  /** The conventional rendering of a list of names: `/a/b` for `["a", "b"]`. */
  function Joined(names: seq<string>): string
  {
    if |names| == 0 then "" else "/" + names[0] + Joined(names[1..])
  }

  lemma {:induction false} JoinedSnoc(names: seq<string>, last: string)
    ensures Joined(names + [last]) == Joined(names) + "/" + last
  {
    if |names| > 0 {
      assert (names + [last])[1..] == names[1..] + [last];
      JoinedSnoc(names[1..], last);
    } else {
      assert names + [last] == [last];
    }
  }

  /** The rendered path is one `/` (from the root step) followed by the conventional
      path of the ancestor names: `/` at the root, `//a/b` for `/a/b`. */
  lemma {:induction false} PathIsSlashThenJoined(nodes: seq<Node>, id: nat)
    requires WellFormed(nodes) && id < |nodes|
    ensures PathTo(nodes, id) == "/" + Joined(Names(nodes, id))
    decreases id
  {
    match nodes[id].parent
    case None =>
    case Some(q) =>
      var above := Names(nodes, q);
      PathIsSlashThenJoined(nodes, q);
      JoinedSnoc(above, nodes[id].name);
      calc {
        PathTo(nodes, id);
        PathTo(nodes, q) + "/" + nodes[id].name;
        ("/" + Joined(above)) + "/" + nodes[id].name;
        "/" + (Joined(above) + "/" + nodes[id].name);
        "/" + Joined(above + [nodes[id].name]);
        "/" + Joined(Names(nodes, id));
      }
  }

  /** The rendered path depends only on names and parent links: two node tables that
      agree on them for every node up to `id` render the same path for `id`. */
  lemma {:induction false} PathByLinksOnly(a: seq<Node>, b: seq<Node>, id: nat)
    requires WellFormed(a) && WellFormed(b) && id < |a| && id < |b|
    requires forall i :: 0 <= i <= id ==> a[i].parent == b[i].parent && a[i].name == b[i].name
    ensures PathTo(a, id) == PathTo(b, id)
    decreases id
  {
    match a[id].parent
    case None =>
    case Some(q) =>
      PathByLinksOnly(a, b, q);
  }

  /** Entering a child directory extends the rendered path by `/` and the child's name. */
  lemma PathAfterCd(s: Store, name: string)
    requires Valid(s) && name != "/" && name != ".."
    requires Cd(s, name).rc == 0
    ensures Valid(Cd(s, name).store)
    ensures Path(Cd(s, name).store) == Path(s) + "/" + name
  {
    CdKeepsValid(s, name);
    FindIsChild(s.nodes, s.cwd, name);
  }
}
