# WVFS in Dafny

A model of the in-memory hierarchical filesystem of WVFS (`src/filesystem.c`), with
proofs about it. The C program keeps a tree of nodes reached from the global `root`
pointer, plus a current directory `cwd`. Its exported functions create directories
and files, move `cwd`, list and render the current directory, and write and read
files. The device file `/dev/null` is handled by hooks.

The model has the same three parts as the C file. Every part is a set of pure
transition functions over a `Store` value. A class then runs the same operations
in place.

- `wrappers.dfy`: the `Option` type.
- `tree_store.dfy` (module `TreeStore`): the node record and `Store`, the
  structural invariants (`Valid`), node creation, the lookup `Find`, the append of a
  child, and the bootstrap state.
  - The C pointers become indices into one node sequence. The root is index 0, a
    parent link is `Some(index)`, and `children` lists indices in insertion order.
- `navigator.dfy` (module `Navigator`): `cd`, `ls` and `pwd`. The listing and the
  path are returned as values.
- `content_engine.dfy` (module `ContentEngine`): `mkdir`, `touch`, `write_file` and
  `read_file`, and the lemmas relating them.
- `filesystem.dfy` (module `Filesystem`): the class `Wvfs`, whose fields `nodes` and
  `cwd` are the global state.
  - `Init` builds the bootstrap state and is proved to reach the state described
    by `Bootstrapped`.
  - `Mkdir`, `Touch`, `Cd` and `WriteFile` update the fields in place. Each is
    proved to produce exactly the state and code of the matching transition
    function.
  - `FindChild`, `Ls`, `Pwd` and `ReadFile` change nothing. Each is proved to
    return what the matching function computes.
  - `wvfs_create_node` has no method of its own; it is the function `CreateNode`.
  - `FindChild`, `Ls` and `Pwd` keep the C loops, with their invariants.
  - Example clients at the end run short command sequences on a fresh filesystem.

Return codes are the C ones: 0 for success, -1 and -2 for the failures. A write
returns the length of its data.

### Behaviour of the C code worth noting

- `mkdir` rejects the name `dev` with -2 in every directory, not only in the root.
  It does so before the capacity check, so even in a full directory.
- `pwd` prepends a bare `/` for the root step. A directory `/a/b` therefore renders
  as `//a/b`, while the root itself renders as `/`.
- The capacity check comes before the duplicate check. Suppose a creation has just
  filled a directory. Creating the same name again there then returns -1, not -2.
- `cd` returns the same code, -1, for a missing name and for a name that is a file.
- A write through a hook returns the length of the data whatever the hook answers.
- Names such as `/` and `..` can be created as children. `cd` never reaches them,
  because it treats those two names specially first.

## Model

| member | source | states |
|---|---|---|
| TreeStore.CreateNode | src/filesystem.c:52-63 | a created node has the given name, type and parent, no children, empty content, no hooks and is not protected |
| TreeStore.Find | src/filesystem.c:66-71 | the lookup returns a child of the directory carrying exactly that name, and returns none if and only if no child carries it |
| TreeStore.FindFirst | src/filesystem.c:66-71 | when the k-th child is the first one with the name, the lookup returns it: the scan stops at the first match in insertion order |
| TreeStore.FindByNamesOnly | src/filesystem.c:66-71 | the lookup reads only the children's names, so two node tables that agree on those names give the same answer |
| TreeStore.FindIsChild | src/filesystem.c:66-71 | a found node has the searched directory as its parent |
| TreeStore.AddChild | src/filesystem.c:95-96 | the created node is appended as the last child of the current directory; `cwd` and every other node are unchanged |
| TreeStore.AddChildValid | src/filesystem.c:93-96 | appending a child keeps every invariant when the directory has room and the name is free: links stay consistent, sibling names stay distinct and the capacity bound holds |
| TreeStore.SetContentValid | src/filesystem.c:150-151 | replacing the content of a file without hooks keeps every invariant |
| TreeStore.Bootstrapped | src/filesystem.c:74-88 | the state `wvfs_init` leaves; in it `dev` (node 1) is the only protected node and `null` (node 2) the only one with a read hook |
| TreeStore.BootstrapValid | src/filesystem.c:74-88 | the bootstrap tree (`/`, protected `dev`, hooked file `null`, `cwd` at the root) satisfies every invariant |
| Navigator.Cd | src/filesystem.c:100-113 | `/` goes to the root; `..` always returns 0, moving `cwd` to its parent when there is one and staying put at the root; the result is 0 or -1; a -1 changes nothing; the node table never changes |
| Navigator.CdToChild | src/filesystem.c:107-111 | a named move succeeds if and only if the child of that name is a directory, and then `cwd` becomes that child |
| Navigator.CdToMissing | src/filesystem.c:108-109 | a move to a name no child carries returns -1 and changes nothing |
| Navigator.CdKeepsValid | src/filesystem.c:100-113 | every move leaves a valid state whose `cwd` is a directory |
| Navigator.CdChildThenParent | src/filesystem.c:104-111 | entering a child directory and then `..` restores the original state |
| Navigator.Entries | src/filesystem.c:115-120 | one entry per child in insertion order; the entry is the child's name, with `/` appended for a directory |
| Navigator.Listing | src/filesystem.c:115-120 | the listing of the current directory has one entry per child, in insertion order, each the child's name with `/` for a directory |
| Navigator.PathTo | src/filesystem.c:122-132 | the rendered path is never empty and starts with `/` |
| Navigator.Walk | src/filesystem.c:125-130 | each step of the `while (tmp)` loop puts text in front of the path built so far: the result is at least as long, and strictly longer and starting with `/` when the walk starts at a node |
| Navigator.Path | src/filesystem.c:122-132 | the output of `pwd` starts with `/`, and is the single `/` exactly when `cwd` is the root |
| Navigator.WalkIsPath | src/filesystem.c:125-130 | the loop's walk up the parent links from a node yields that node's recursive path followed by what was already built |
| Navigator.PathIsSlashThenJoined | src/filesystem.c:127 | the rendered path is `/` followed by the conventional `/a1/.../ak` of the ancestor names: `/` at the root, `//a/b` below it |
| Navigator.PathByLinksOnly | src/filesystem.c:122-132 | the path depends only on names and parent links: node tables that agree on them up to a node render the same path for it |
| Navigator.PathAfterCd | src/filesystem.c:108-110 | entering a child directory extends the rendered path by `/` and the child's name |
| ContentEngine.Mkdir | src/filesystem.c:91-98 | checks run in order: -2 for `dev` (even in a full directory), -1 if and only if the directory is full, -2 if and only if the name is taken; every failure leaves the state unchanged; 0 appends a new directory |
| ContentEngine.Touch | src/filesystem.c:135-141 | -1 if and only if the directory is full, then -2 if and only if the name is taken, with no reserved name; every failure leaves the state unchanged; 0 appends a new file |
| ContentEngine.MkdirKeepsValid | src/filesystem.c:91-98 | `mkdir` keeps every invariant |
| ContentEngine.TouchKeepsValid | src/filesystem.c:135-141 | `touch` keeps every invariant |
| ContentEngine.CreatedNode | src/filesystem.c:52-63 | a successful creation adds exactly one node, at the end of `cwd.children`, with the name and kind given, `parent = cwd`, no children, empty content, no hooks and not protected; no other node changes |
| ContentEngine.CreateTwiceFails | src/filesystem.c:93-94 | creating a just-created name again changes nothing; it returns -2, or -1 when the first creation filled the directory (a second `mkdir dev` is always -2) |
| ContentEngine.ListingAfterCreate | src/filesystem.c:115-120 | after a creation the listing is the old listing followed by the new entry |
| ContentEngine.PathAfterCreate | src/filesystem.c:122-132 | a creation does not change the rendered path of the current directory |
| ContentEngine.MkdirThenCd | src/filesystem.c:100-113 | `mkdir x` then `cd x` enters the new empty directory, and the path grows by `/x` |
| ContentEngine.Write | src/filesystem.c:143-153 | -1 if and only if the name is not a file, and then nothing changes; through a hook nothing is stored and `strlen(data)` is returned; otherwise that file's content becomes the data, its name, kind, links and flags stay as they were, no other node changes, and the data's length is returned |
| ContentEngine.Read | src/filesystem.c:155-168 | "File not found" if and only if the name is not a file; a hooked file yields exactly the hook's bytes (at most 1024); otherwise the stored content |
| ContentEngine.WriteKeepsValid | src/filesystem.c:143-153 | `write_file` keeps every invariant |
| ContentEngine.WriteThenRead | src/filesystem.c:143-168 | a read after a write yields exactly the written data, or the hook's bytes for a hooked file |
| ContentEngine.WriteOverwrites | src/filesystem.c:150-151 | writing replaces and does not append: two writes in a row leave the same state as the second write alone |
| ContentEngine.TouchThenRead | src/filesystem.c:58 | a freshly touched file reads as the empty text |
| Filesystem.Wvfs.Init | src/filesystem.c:74-88 | initialisation leaves the bootstrap state, and the state is valid |
| Filesystem.Wvfs.Attach | src/filesystem.c:81 | `children[child_count++] = node` appends the node's index to the directory and stores the node last |
| Filesystem.Wvfs.FindChild | src/filesystem.c:66-71 | the index loop returns the first child with the name, and none if and only if no child has it |
| Filesystem.Wvfs.Mkdir | src/filesystem.c:91-98 | the in-place update produces exactly the state and code of `ContentEngine.Mkdir` and stays valid |
| Filesystem.Wvfs.Touch | src/filesystem.c:135-141 | the in-place update produces exactly the state and code of `ContentEngine.Touch` and stays valid |
| Filesystem.Wvfs.Cd | src/filesystem.c:100-113 | only `cwd` is reassigned, exactly as `Navigator.Cd` says, and the state stays valid |
| Filesystem.Wvfs.Ls | src/filesystem.c:115-120 | the loop yields each child's name, with `/` for a directory, in insertion order |
| Filesystem.Wvfs.Pwd | src/filesystem.c:122-132 | the `while (tmp)` loop over parent links yields the rendered path of `cwd` |
| Filesystem.Wvfs.WriteFile | src/filesystem.c:143-153 | the in-place update produces exactly the state and code of `ContentEngine.Write` and stays valid |
| Filesystem.Wvfs.ReadFile | src/filesystem.c:155-168 | the output is exactly `ContentEngine.Read` of the current state |
| Filesystem.OverwriteScenario | src/filesystem.c:135-168 | from the bootstrap state, `touch f`, write `abc` (3) and write `xy` (2) succeed, and `f` then reads as `xy` |
| Filesystem.NullDeviceScenario | src/filesystem.c:143-165 | from the bootstrap state, `cd dev` succeeds; a write to `null` returns the data's length and changes nothing; a read yields the hook's bytes |
| Filesystem.PathExample | src/filesystem.c:127 | after `mkdir a`, `cd a`, `mkdir b`, `cd b` on a fresh filesystem, `pwd` renders `//a/b` |
| Filesystem.BootstrapExample | src/filesystem.c:74-98 | a fresh filesystem lists `dev/`, refuses `mkdir dev` with -2, and `dev` lists `null` |
| Filesystem.OverwriteExample | src/filesystem.c:143-153 | on a fresh filesystem, writes of `abc` and `xy` return 3 and 2, and the file then reads `xy` |
| Filesystem.NullDeviceExample | src/filesystem.c:146-148 | writes to `/dev/null` return their data's length whatever the data, and a read yields the hook's bytes |

## Left out

- Console output: `ls`, `pwd` and `read_file` print with `printf` and `fwrite`. Here
  they return their output, without the trailing newline, and "File not found" is
  the `FileNotFound` outcome.
- Device hooks: `dev_null_write` and `dev_null_read` are declared in `wvfs.h`, which
  is not part of this model.
  - Each node carries two flags, one per hook.
  - A write hook's effect beyond being called is not modelled.
  - What a read hook puts in the buffer is the parameter `hookBytes`, bounded by the
    1024-byte buffer.
- Memory management: `malloc`, `free` and `strdup` have no counterpart. The case of
  `malloc` failing, which the C code does not check, is not modelled.
- C string limits. Names must be shorter than 256 characters, a precondition of
  `ContentEngine.Mkdir`, `ContentEngine.Touch` and the matching methods. That rules
  out the `strncpy` truncation, which would leave an unterminated name.
- Filesystem.Wvfs.Pwd: requires the rendered path to fit the 1024-byte buffer. The
  truncation of a longer path by `snprintf`/`strncpy` is not modelled.
- Strings are character sequences. Data containing a NUL character, which C would
  cut short, is not modelled.
- Bytes versus characters. The C code measures names, data and buffers in bytes:
  `strlen`, the 256-byte name buffer, and the 1024-byte path and read buffers. The
  model measures them in Dafny characters, which are Unicode scalar values. For
  ASCII text the two agree. For other text they do not:
  - the value `write_file` returns (`ContentEngine.Write`, `Filesystem.Wvfs.WriteFile`)
    is the character count, not the byte count of the UTF-8 encoding;
  - the bounds `MAX_NAME`, `PATH_BUFFER` and `READ_BUFFER` admit strings whose
    encoding is longer than the C buffer, which C would truncate.
- ContentEngine.Write: returns the length of the data as an unbounded integer. The
  conversion of `strlen` to a C `int` is not modelled, so data of 2^31 bytes or more
  is treated as if it fit.
- The `protected` flag is set on `dev` at initialisation and read by nothing. It is
  kept as a field with no behaviour.
- A directory's content is the NULL pointer in C and the empty string here. Nothing
  reads a directory's content.
- Calling an operation before `wvfs_init` would dereference a NULL `cwd`, so every
  operation requires a valid state. A repeated `wvfs_init` leaks the old tree; here
  it is the construction of a new `Wvfs`.
- The command-line dispatcher and `wvfs.h` (`NodeType`, `DIR_NODE`, `FILE_NODE`) are
  not part of this model. The node type is the two-valued `Kind`.
