# filefs: a verified model of the namespace tree and its query layer

filefs is a FUSE file system that mounts a read-only tree described by a listing
file. Each line of the listing is a path; its segments become the nodes of an
n-ary tree rooted at "/". A node with a child is a directory, and any other node
is a read-only regular file. A file's content is the text
"`<path> is in <listing file>`".

This project models three parts of that program.

- **The tree** (n_tree.c, n_tree.h) is in `ntree.dfy`, module `NTree`.
  - Nodes are heap objects with a name and two mutable links, `child` and `next`.
  - The class `Tree` owns them. A ghost `Shape` gives each node's children in
    sibling order, and `Tree.Valid()` ties the links to that shape.
  - `add_sibling` and `add_child` are methods proved to hang a fresh node where
    `Shape.Hang` prescribes. `add_sibling` walks the sibling chain in a loop, and
    `add_child` has no loop.
  - `get_child` and `get_node` are loops proved equal to the specification
    functions `Child` and `Walk`.
- **Path segmentation** is in `paths.dfy`, module `Paths`.
  - `strtok_r(path, "/", &saveptr)` is modelled one call at a time (`Strtok`), and
    as the sequence of tokens it yields (`Segments`).
  - Both are proved equal to an independent reference: the non-empty pieces of a
    naive split on '/'.
- **The query and ingestion layer** (filefs.c) is in `filefs.dfy`, module `FileFs`.
  - `create_entities`, `file_exists`, `dir_exists` and the line trimming of
    `parse_listing_file` are methods of the class `FileSystem`, as are the logic of
    `ffs_getattr`, `ffs_readdir`, `ffs_open` and `ffs_read`.
  - Each callback returns what the C function returns (0, a count, or a negated
    errno). `ffs_getattr` and `ffs_readdir` also return the `stat` they fill and
    the entries they pass to `filler`; for a `stat` buffer, the fields a callback
    does not set keep what the buffer held before. `ffs_read` writes into the
    buffer FUSE passes in, an array it modifies in place.

Strings are sequences of `char`, and each `char` stands for one byte of a C
string. So every length in the model, such as the size `ffs_getattr` reports or
the count `ffs_read` returns, is a `strlen` byte count. No character encoding is
decoded.

## Model

| member | source | states |
|---|---|---|
| NTree.Node.constructor | n_tree.c:3-13 | a new node has the given name and neither child nor sibling |
| NTree.Position | n_tree.c:40-44 | the index of the first node with the given name; every earlier node has another name |
| NTree.FirstNamed | n_tree.c:35-47 | null exactly when no node in the list has the name; otherwise a member of the list with that name |
| NTree.Child | n_tree.c:35-47 | a child is found exactly when the node is non-NULL, in the tree, and has a child of that name; the one found is one of its children and has that name |
| NTree.Walk | n_tree.c:49-60 | no segment leads to the start node itself; a resolved path ends at a node named by its last segment, and that node is a child of some node of the tree |
| NTree.FirstNamedPrefix | n_tree.c:15-23 | appending nodes after a list does not change which node a name finds in it |
| NTree.FirstNamedAppend | n_tree.c:15-23 | a node appended under a name no earlier sibling has is the one that name finds |
| NTree.FirstNamedUnique | n_tree.c:40-44 | when sibling names are distinct, looking up the i-th sibling's name finds that sibling |
| NTree.WalkNull | n_tree.c:55-56 | resolution that has hit NULL stays NULL for any remaining segments |
| NTree.WalkAppend | n_tree.c:53-58 | resolving segments a then b is resolving b from the node a leads to |
| NTree.WalkPrefix | n_tree.c:53-58 | if a path resolves, so does every prefix of its segments |
| NTree.WalkExtends | n_tree.c:25-33 | appending children never changes the node an already resolving path leads to |
| NTree.HangOwns | n_tree.h:7-17 | appending a new node to a child list keeps one parent, one position and a depth one greater for every node |
| NTree.HangLinks | n_tree.c:15-33 | appending changes the prescribed links of two nodes only: the parent's `child` or the last sibling's `next`, and the new node's |
| NTree.HangFirstValid | n_tree.c:29-32 | setting `child` of a childless node to a fresh node keeps the tree valid |
| NTree.HangLastValid | n_tree.c:19-22 | setting `next` of the last sibling to a fresh node keeps the tree valid |
| NTree.Tree.constructor | filefs.c:270 | a tree of one root with the given name and no children |
| NTree.Tree.AddSibling | n_tree.c:15-23 | NULL gives NULL and changes nothing; otherwise a fresh node with that name is appended as the last child of the owner, and nothing else changes |
| NTree.Tree.AddChild | n_tree.c:25-33 | NULL gives NULL and changes nothing; otherwise a fresh node with that name becomes the node's last child (its only child if it had none), and nothing else changes |
| NTree.Tree.GetChild | n_tree.c:35-47 | returns the first child in sibling order whose name equals the string, or NULL for a NULL node, no children or no match; reads only |
| NTree.Tree.GetNode | n_tree.c:49-60 | returns the node reached by following children by name for each strtok segment: the start itself for no segment, NULL once a segment has no child; reads only |
| NTree.Tree.SiblingNext | n_tree.h:28-29 | the `next` of the i-th child is the (i+1)-th child, and NULL after the last |
| NTree.Tree.FollowSiblings | n_tree.h:10 | following m `next` links from the i-th child reaches the (i+m)-th child, or NULL just past the end |
| NTree.Tree.ChildrenAreChain | n_tree.h:7-17 | a node's children are exactly the nodes of the `next` chain from its `child`, in order, and the chain ends in NULL |
| NTree.Tree.ChildLink | n_tree.h:28 | a `child` link leads to a node's first child, one level deeper |
| NTree.Tree.NextLink | n_tree.h:29 | a `next` link leads to the following sibling, on the same level; the root has none |
| NTree.Tree.OneIncomingLink | n_tree.h:7-17 | the root is the target of no link, and every other node is the target of exactly one `child` or `next` link |
| Paths.Strtok | n_tree.c:52 | one `strtok_r` call: NULL exactly when only '/' remain; otherwise a non-empty token without '/', and a save position past the resume position that is the end of the string or follows a '/' |
| Paths.StrtokLocates | n_tree.c:52 | where a `strtok_r` token sits: it is the run of the string that ends at the '/' just before the save position (or at the end of the string), preceded only by '/'s back to the resume position |
| Paths.SegmentsFrom | n_tree.c:52-58 | the tokens `strtok_r` yields from a position: each is non-empty and free of '/', and there are at most as many as characters left |
| Paths.Segments | n_tree.c:52-58 | the tokens of a whole path: non-empty and free of '/', at most one per character |
| Paths.AfterStrtok | n_tree.c:52 | what the caller's string reads as after the first `strtok_r` call: a prefix of it that is either all of it or ends just before a '/' |
| Paths.SegmentsFromIsNonEmptySplit | n_tree.c:52-58 | the tokens `strtok_r` yields from any position are the non-empty pieces of the naive split on '/' of the rest |
| Paths.SegmentsIsNonEmptySplit | n_tree.c:52-58 | the segments of a path are the non-empty pieces of its naive split on '/' |
| Paths.SplitJoin | n_tree.c:52 | the naive split of a + "/" + b is the split of a followed by the split of b |
| Paths.SegmentsJoin | n_tree.c:52-57 | the segments of a + "/" + b are those of a followed by those of b |
| Paths.SegmentsOfSegment | filefs.c:118 | a node name used as the last segment of a path segments to itself |
| Paths.DoubleSlashIgnored | n_tree.c:57 | a doubled '/' gives the same segments as a single one |
| Paths.LeadingSlashIgnored | n_tree.c:52 | a leading '/' does not change the segments |
| Paths.TrailingSlashIgnored | n_tree.c:57 | a trailing '/' does not change the segments |
| Paths.SegmentsOfAbsPath | n_tree.c:52-58 | round trip: the absolute path "/s1/s2/..." built from segments has exactly those segments |
| Paths.AfterStrtokFirstSegment | n_tree.c:52 | after the first `strtok_r` call, the caller's string reads as its leading slashes and first segment, so it segments to the first segment alone |
| FileFs.Content | filefs.c:144-145 | a file's content is the path, then " is in ", then the listing file's name, and its length is the sum of the three lengths |
| FileFs.ReadSlice | filefs.c:150-155 | nothing when the offset is negative or at or past the end; otherwise min(size, len - offset) characters, each the content's character at offset plus its index |
| FileFs.ReadSliceChunks | filefs.c:150-153 | reading a bytes and then b bytes from where the first read stopped yields the same as one read of a + b bytes |
| FileFs.ReadSliceWhole | filefs.c:150-153 | a read from offset 0 of at least the content length yields the whole content |
| FileFs.TrimNewline | filefs.c:212-213 | the line loses exactly one trailing '\n' when it ends in one, and is unchanged otherwise |
| FileFs.CString | filefs.c:214 | a line read as a C string: a NUL-free prefix of it that is either all of it or ends just before its first NUL |
| FileFs.ListedPath | filefs.c:211-214 | the path a listing line inserts is a NUL-free prefix of the line |
| FileFs.EmbeddedNulEndsPath | filefs.c:212-214 | the line "/a\0/b\n" inserts the path "/a" alone, whose only segment is "a" |
| FileFs.HangStep | filefs.c:192-193 | adding a child under a name no sibling has keeps unique segment names, and the extended path resolves to the new node |
| FileFs.PathStep | filefs.c:195 | the segments consumed so far plus the next token and what follows it are the path's segments |
| FileFs.WalkStep | filefs.c:189 | the path extended by one segment resolves to the child of that name of the node reached so far |
| FileFs.OnPathGrow | filefs.c:188-193 | a node on a prefix of the path stays on the path as the tree grows and the prefix lengthens |
| FileFs.OnPathLast | filefs.c:193 | the node a whole path resolves to lies on that path |
| FileFs.OnPathKeep | filefs.c:193 | a node on a path stays on it as the tree grows |
| FileFs.ChildPathResolves | filefs.c:118 | the path "dir/name" of the i-th child of the node `dir` resolves to that child |
| FileFs.AllResolveGrow | filefs.c:209-214 | growing the tree keeps earlier listing paths resolving, and a newly inserted path joins them |
| FileFs.OnSomePathGrow | filefs.c:209-214 | a node on an earlier listing path or on the new one lies on one of the paths so far |
| FileFs.ListingGrows | filefs.c:209-214 | one listing line inserted: all paths so far resolve, and every added node lies on one of them |
| FileFs.AppendPointwise | filefs.c:212-214 | the inserted paths are the listing lines, in order, each with one trailing '\n' removed and then cut at its first NUL |
| FileFs.ListingDone | filefs.c:209-215 | when every line is inserted, the path of every line resolves and every added node lies on one of those paths |
| FileFs.FileSystem.constructor | filefs.c:270 | start-up: the tree is a root named "/" with no children, for the given listing file |
| FileFs.FileSystem.CreateEntities | filefs.c:182-197 | afterwards the path resolves; the old tree is extended and never reordered; sibling names stay unique; new nodes lie only on the path; a path that already resolved adds no node |
| FileFs.FileSystem.FileExists | filefs.c:169-171 | true exactly when the path resolves: files, directories and the root alike |
| FileFs.FileSystem.DirExists | filefs.c:173-180 | true exactly when the path resolves to a node with at least one child |
| FileFs.FileSystem.Open | filefs.c:128-134 | 0 exactly when the path resolves (directories included), -ENOENT otherwise |
| FileFs.FileSystem.Filled | filefs.c:83-96 | the `stat` buffer after `ffs_getattr` fills it for a node: mode S_IFDIR/0755 exactly for a node with a child, whose size stays what the buffer held; otherwise S_IFREG/0444 with the length of "path is in listing" |
| FileFs.FileSystem.AttrOf | filefs.c:83-96 | the attributes FUSE reports, filling a buffer libfuse has zeroed: a node with a child is a directory of size 0, any other node a file |
| FileFs.FileSystem.FilledAgrees | filefs.c:83-96 | whatever the buffer held, the filled type is the reported one, and for a file all the filled attributes are the reported ones |
| FileFs.FileSystem.Getattr | filefs.c:73-99 | -ENOENT exactly when the path does not resolve, and the buffer is then left as it was; otherwise the buffer filled for the node it resolves to |
| FileFs.FileSystem.DescribesAppend | filefs.c:117-121 | an entry that describes the next child, with the buffer the previous entry left, extends a list of entries that each describe their child |
| FileFs.FileSystem.Readdir | filefs.c:101-126 | -ENOTDIR and no entry exactly when the path does not resolve or has no child. Otherwise there is one entry per child, in sibling order. Each entry has the child's name and the buffer filled for the child's own path, which resolves to it. The buffer carries over from the previous entry, or holds `stale` for the first. So each type is the reported one, a file's attributes are exactly the reported ones, and a directory keeps the size the buffer held. Names are distinct |
| FileFs.FileSystem.Memcpy | filefs.c:153 | the first `count` cells of the destination receive the source's run from `from` on, and the other cells keep their contents |
| FileFs.FileSystem.Read | filefs.c:136-159 | -ENOENT and an untouched buffer when the path does not resolve; otherwise min(size, len - offset) characters of "path is in listing" from offset (none at or past the end) land at the front of the buffer, their count is returned, and the rest of the buffer is untouched |
| FileFs.FileSystem.SizeMatchesRead | filefs.c:95 | for a file, the size getattr reports is the content length: a read of that size from offset 0 yields the whole content, and a read from that offset yields nothing |
| FileFs.FileSystem.InsertLine | filefs.c:211-214 | one pass of the loop: the line's path (one trailing '\n' removed, cut at the first NUL) is inserted; the reading state gains that path and the new children map, and only fresh nodes join the tree |
| FileFs.FileSystem.ParseListing | filefs.c:199-220 | each line is inserted less one trailing '\n' and up to its first NUL, in order: a record holds the children map before each line and after the last, and line i takes map i to map i+1: map i+1 extends map i and is a whole tree (every child it lists has an entry of its own), the line's path resolves in it, and each node it has that map i lacks lies on that path. Afterwards the path of every line resolves, the old tree is only extended, and every added node lies on some listed path |
| FileFs.StepsExtend | filefs.c:209-215 | along a sequence of children maps each extending the one before, as the record of a listing is, every map extends all earlier ones |
| FileFs.LaterLineLaterSibling | filefs.c:209-215 | insertion order is sibling order: a child a node has once line i is inserted precedes, in the final tree, a child of that node that a later line j created (absent from map j, present in map j+1) |
| FileFs.ListingOrderExample | filefs.c:209-215 | for a listing "/d/u", "/d/v" of one-character names, such as "/a/x", "/a/y", read into a tree holding only its root, any record meeting the guarantees of `ParseListing` ends with u before v among the children of d |
| FileFs.TwoLinesOrder | filefs.c:209-215 | when "d/u" resolves in a whole tree that has no node named v, and an extension of it makes "d/v" resolve, the child for v comes after the child for u under d |
| FileFs.InsertedNames | filefs.c:214 | inserting a path adds only nodes named by its segments, so a name that is neither in the tree nor in the path stays absent |
| FileFs.OnPathNamed | n_tree.c:49-60 | a node on a path is named by one of the path's segments |
| FileFs.OrderedIn | n_tree.c:15-23 | an element of a shorter prefix precedes an element that only a longer prefix of the same list has |
| FileFs.CreatedInserted | filefs.c:214 | the contract of `create_entities`, read over the children maps: one line's insertion extends the tree into a whole tree, makes its path resolve and adds only nodes on that path |
| FileFs.InsertedInOrderAppend | filefs.c:209-215 | one more insertion extends the record of insertions by that path and the new map |
| FileFs.LineInserted | filefs.c:209-215 | one inserted line extends both the summary since start-up and the record of insertions |
| FileFs.InsertedLines | filefs.c:209-215 | once every line is inserted, the record speaks of each line's own path |
| FileFs.ListingRead | filefs.c:209-215 | the whole listing read: the tree is extended, every line's path resolves, every added node lies on one of them, and the record runs from the start map to the final one |
| FileFs.ReaddirStatPathAsWritten | filefs.c:112-118 | the path built for a child as written segments to the directory's first segment (none for the root) followed by the child's segments |
| FileFs.ReaddirStatPathLosesSegments | filefs.c:118 | as written, the path passed to getattr for a child has only the directory's first segment, then the child's name |
| FileFs.ReaddirStatPathCounterexample | filefs.c:112-119 | in a hand-built tree of the shape the listing "/a/c/e.dat" gives, readdir of "/a/c" as written stats "/a/e.dat", which does not resolve, while "/a/c/e.dat" resolves to the child |
| FileFs.ExampleKidsShape | filefs.c:182-197 | the hand-built example tree's sibling names are unique segments, as `create_entities` guarantees |

## Left out

- The FUSE glue is not modelled: `main`, option parsing and `show_help`, `ffs_init`'s timeouts, mounting and the `fuse_loop` session. These are library calls and process plumbing. The constructor of `FileSystem` stands for the two lines of `main` that create the root.
- `parse_listing_file` is not modelled as file I/O: `fopen` (and `exit` when it fails), `getline`, `fclose` and the debug `printf` are left out. `ParseListing` takes the lines `getline` would return, each non-empty as `getline` guarantees. A line may hold NUL bytes; `create_entities` sees it only up to the first one.
- `malloc` and `strdup` failure in `new_node` is not modelled: allocation always succeeds.
- The fixed 2048-byte `sprintf` buffers are not modelled: strings are unbounded, so a path that would overflow them has no counterpart.
- `strtok_r` overwriting the caller's path is not modelled in `GetNode`: segmentation is a pure function of an immutable string. Its one observable effect is modelled apart, as the finding below (`AfterStrtok`).
- FileFs.FileSystem.FileExists: returns a bool. The C returns the node pointer converted to `int`, and a pointer whose low 32 bits are zero would read as false.
- FileFs.FileSystem.DirExists: returns a bool, with the same pointer-to-`int` conversion left out as for `FileExists`.
- FileFs.FileSystem.Getattr: only `st_mode` and `st_size` are modelled. `st_ino` and `st_nlink` carry no logic. The buffer's earlier content is a parameter. When FUSE calls `ffs_getattr`, libfuse has zeroed it, and `AttrOf` is the result.
- FileFs.FileSystem.Readdir: the uninitialised `file_stat` is modelled as the parameter `stale`. It is an arbitrary `Stat` value, not an indeterminate one.
- Lengths count `char`s, and a `char` stands for one byte. Multi-byte encodings are not decoded, so a name's length is its byte count, as `strlen` gives it.
- FileFs.FileSystem.Readdir: `offset`, `flags` and the `filler` ABI are left out. The entries are returned as a sequence, and `filler`'s return value is ignored, as the C does.
- FileFs.FileSystem.Readdir: the attributes of each entry are those of the child's own path. That is the intended behaviour, not the code as written; the as-written path is under Findings.
- FileFs.FileSystem.Read: `offset + size` is not reduced modulo 2^64. It cannot wrap for the sizes FUSE passes.
- FileFs.FileSystem.Read: the destination buffer is required to hold `size` characters, as FUSE guarantees.
- NTree.Tree.AddSibling: requires that the node is not the root. The root has no siblings in this tree ("Root -> NULL" in n_tree.h), and `add_child` only calls it on a child.
- The `reads only` promise of `GetChild` and `GetNode` comes from their frames: neither has a `modifies` clause, so neither can change the heap.

## Findings

| source | as written | input that shows it | evidently intended | confidence | as-written member | corrected member |
|---|---|---|---|---|---|---|
| filefs.c:112-119 | `get_node` tokenises `path` in place, ending it after its first segment; `sprintf` then builds each child's path from what is left | listing "/a/c/e.dat", readdir "/a/c": the child "e.dat" is statted as "/a/e.dat", which does not resolve, so its entry gets whatever `file_stat` held | the attributes of the child's own path "/a/c/e.dat", as `ffs_getattr` does by measuring the path before the lookup (filefs.c:76) | high, not executed | FileFs.ReaddirStatPathCounterexample | FileFs.FileSystem.Readdir |
