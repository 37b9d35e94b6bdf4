/**
 Replacing the managed program and the managed asset tree on a file system where every rename, copy and
 removal may fail, and where a failed copy or removal may stop half way. `history` records the file
 system after every step, so that safety is about each of them, not only about the last.
 */
module Upgrade {
  import opened Wrappers

  type Path = seq<string>

  /** Sockets, pipes and devices are `Special`. */
  datatype Node = File(data: seq<int>) | Directory | Symlink | Special

  type Files = map<Path, Node>

  function Look(files: Files, path: Path): Option<Node> {
    if path in files then Some(files[path]) else None
  }

  /** Neither path lies in the other. */
  predicate Apart(a: Path, b: Path) {
    !(a <= b) && !(b <= a)
  }

  ghost predicate Gone(files: Files, root: Path) {
    forall path :: root <= path ==> Look(files, path).None?
  }

  /** Nothing outside `root` differs. */
  ghost predicate Elsewhere(f: Files, g: Files, root: Path) {
    forall path :: !(root <= path) ==> Look(f, path) == Look(g, path)
  }

  /** What `f` has at `p`, with everything below it, is what `g` has at `q`. */
  ghost predicate SameTree(f: Files, p: Path, g: Files, q: Path) {
    forall rest :: Look(f, p + rest) == Look(g, q + rest)
  }

  function Kept(node: Option<Node>): Option<Node> {
    if node == Some(Special) then None else node
  }

  /** There is no symbolic link at or below `root`. */
  ghost predicate NoLinks(files: Files, root: Path) {
    forall rest :: Look(files, root + rest) != Some(Symlink)
  }

  /** What an operation adds to the failures. */
  function Failed(ok: bool): nat {
    if ok then 0 else 1
  }

  /** What `f` has at `p` is a copy of what `g` has at `q`: everything but the special files. */
  ghost predicate CopyOf(f: Files, p: Path, g: Files, q: Path) {
    forall rest :: Look(f, p + rest) == Kept(Look(g, q + rest))
  }

  /** Below `root`, only directories contain anything. */
  ghost predicate IsTree(files: Files, root: Path) {
    forall path :: root < path && path in files ==>
      path[..|path| - 1] in files && files[path[..|path| - 1]] == Directory
  }

  lemma Below(root: Path, path: Path)
    requires root <= path
    ensures path == root + path[|root|..]
  {
  }

  lemma PrefixesMeet(a: Path, b: Path, path: Path)
    requires a <= path && b <= path
    ensures a <= b || b <= a
  {
    if |a| <= |b| { assert a == path[..|a|] == b[..|a|]; } else { assert b == path[..|b|] == a[..|b|]; }
  }

  lemma ApartBelow(a: Path, b: Path, rest: Path)
    requires Apart(a, b)
    ensures !(a <= b + rest)
  {
    if a <= b + rest { PrefixesMeet(a, b, b + rest); }
  }

  /** What lies below a root makes the root a directory. */
  lemma {:induction false} RootIsDirectory(files: Files, root: Path, path: Path)
    requires IsTree(files, root) && root < path && path in files
    ensures Look(files, root) == Some(Directory)
    decreases |path|
  {
    var parent := path[..|path| - 1];
    if parent != root { RootIsDirectory(files, root, parent); }
  }

  lemma OnlyTheRoot(files: Files, root: Path)
    requires IsTree(files, root) && Look(files, root) != Some(Directory)
    ensures Gone(files - {root}, root)
  {
    forall path | root <= path ensures Look(files - {root}, path).None? {
      if |path| == |root| {
        assert path == root;
      } else if path in files {
        RootIsDirectory(files, root, path);
      }
    }
  }

  /** A change under one root leaves the trees apart from it as they are. */
  lemma ElsewhereKeepsTree(f: Files, g: Files, root: Path, other: Path)
    requires Elsewhere(f, g, root) && Apart(root, other)
    ensures SameTree(f, other, g, other)
  {
    forall rest ensures Look(f, other + rest) == Look(g, other + rest) {
      ApartBelow(root, other, rest);
    }
  }

  lemma ElsewhereKeepsIsTree(f: Files, g: Files, root: Path, other: Path)
    requires Elsewhere(f, g, root) && Apart(root, other) && IsTree(f, other)
    ensures IsTree(g, other)
  {
    forall path | other < path && path in g
      ensures path[..|path| - 1] in g && g[path[..|path| - 1]] == Directory
    {
      var parent := path[..|path| - 1];
      Below(other, path);
      Below(other, parent);
      ApartBelow(root, other, path[|other|..]);
      ApartBelow(root, other, parent[|other|..]);
      assert Look(f, path) == Look(g, path) && Look(f, parent) == Look(g, parent);
    }
  }

  /** The paths at and below `root`. */
  function Inside(files: Files, root: Path): set<Path> {
    set path | path in files && root <= path
  }

  function Children(files: Files, root: Path): set<string> {
    set path | path in files && root < path && |path| == |root| + 1 :: path[|root|]
  }

  function Destinations(files: Files, from: Path, to: Path): set<Path> {
    (set path | path in files && from <= path :: to + path[|from|..]) +
    (set path | path in files && !(from <= path) && !(to <= path))
  }

  lemma DestinationsExact(files: Files, from: Path, to: Path)
    ensures forall path :: path in Destinations(files, from, to) <==>
              if to <= path then from + path[|to|..] in files else path in files && !(from <= path)
  {
    forall path | to <= path ensures path in Destinations(files, from, to) <==> from + path[|to|..] in files {
      var source := from + path[|to|..];
      assert source[|from|..] == path[|to|..] && path == to + source[|from|..];
      if path in Destinations(files, from, to) {
        var other :| other in files && from <= other && path == to + other[|from|..];
        assert path[|to|..] == other[|from|..];
        assert other == source;
      }
    }
  }

  /** The file system after `from`, with all below it, has become `to`. */
  function Moved(files: Files, from: Path, to: Path): Files {
    DestinationsExact(files, from, to);
    map path | path in Destinations(files, from, to) ::
      if to <= path then files[from + path[|to|..]] else files[path]
  }

  lemma MovedTree(files: Files, from: Path, to: Path)
    requires Apart(from, to)
    ensures SameTree(Moved(files, from, to), to, files, from)
    ensures Gone(Moved(files, from, to), from)
    ensures forall path :: !(from <= path) && !(to <= path) ==> Look(Moved(files, from, to), path) == Look(files, path)
  {
    var moved := Moved(files, from, to);
    DestinationsExact(files, from, to);
    forall rest ensures Look(moved, to + rest) == Look(files, from + rest) {
      assert (to + rest)[|to|..] == rest;
    }
    forall path | from <= path ensures Look(moved, path).None? {
      Below(from, path);
      ApartBelow(to, from, path[|from|..]);
    }
  }

  /** When the operating system may carry out a rename at all. */
  predicate MayMove(files: Files, from: Path, to: Path) {
    && from in files
    && Apart(from, to)
    && (Inside(files, to) == {} ||
        (to in files && Inside(files, to) == {to} &&
         ((files[from] == Directory && files[to] == Directory) || (files[from].File? && files[to].File?))))
  }

  // ---------------------------------------------------------------- copying a tree

  lemma ChildExists(files: Files, root: Path, path: Path)
    requires IsTree(files, root) && root < path && path in files
    ensures path[..|root| + 1] in files && path[|root|] in Children(files, root)
    decreases |path|
  {
    if |path| > |root| + 1 {
      var parent := path[..|path| - 1];
      ChildExists(files, root, parent);
      assert parent[..|root| + 1] == path[..|root| + 1];
    } else {
      assert path[..|root| + 1] == path;
    }
  }

  lemma Deeper(root: Path, name: string, rest: Path)
    ensures (root + [name]) + rest == root + ([name] + rest)
  {
  }

  lemma StartsWithName(root: Path, name: string, rest: Path)
    ensures root + [name] <= root + rest <==> rest != [] && rest[0] == name
  {
    assert rest != [] ==> (root + rest)[|root|] == rest[0];
    assert (root + [name])[|root|] == name;
    assert rest != [] ==> (root + rest)[..|root| + 1] == root + [rest[0]];
  }

  lemma ApartDeeper(a: Path, b: Path, name: string)
    requires Apart(a, b)
    ensures Apart(a + [name], b + [name]) && Apart(a, b + [name])
  {
    ApartBelow(a, b, [name]);
    ApartBelow(b, a, [name]);
    assert a + [name] <= b + [name] ==> a <= b + [name];
    assert b + [name] <= a + [name] ==> b <= a + [name];
  }

  /** A copy in progress: the directory is there, the entries not in `todo` are copied, the others not begun. */
  ghost predicate CopiedBut(f: Files, dest: Path, start: Files, source: Path, todo: set<string>) {
    forall rest :: Look(f, dest + rest) ==
      if rest == [] then Some(Directory)
      else if rest[0] in todo then None
      else Kept(Look(start, source + rest))
  }

  lemma CopyBegins(f: Files, dest: Path, start: Files, source: Path)
    requires IsTree(start, source) && Gone(start, dest) && f == start[dest := Directory]
    ensures CopiedBut(f, dest, start, source, Children(start, source))
  {
    forall rest: Path | rest != [] ensures source + rest in start ==> rest[0] in Children(start, source) {
      if source + rest in start {
        ChildExists(start, source, source + rest);
        assert (source + rest)[|source|] == rest[0];
      }
    }
    assert dest + [] == dest;
    forall rest: Path | rest != [] ensures dest + rest !in f {
      assert dest <= dest + rest && Look(start, dest + rest).None?;
    }
  }

  lemma CopyGoesOn(f: Files, g: Files, dest: Path, start: Files, source: Path, todo: set<string>, name: string)
    requires CopiedBut(f, dest, start, source, todo) && name in todo
    requires Elsewhere(f, g, dest + [name]) && CopyOf(g, dest + [name], start, source + [name])
    ensures CopiedBut(g, dest, start, source, todo - {name})
  {
    forall rest: Path
      ensures Look(g, dest + rest) ==
              if rest == [] then Some(Directory)
              else if rest[0] in todo - {name} then None
              else Kept(Look(start, source + rest))
    {
      if rest != [] && rest[0] == name {
        assert rest == [name] + rest[1..];
        Deeper(dest, name, rest[1..]);
        Deeper(source, name, rest[1..]);
      } else {
        StartsWithName(dest, name, rest);
      }
    }
  }

  lemma CopyEnds(f: Files, dest: Path, start: Files, source: Path)
    requires CopiedBut(f, dest, start, source, {}) && Look(start, source) == Some(Directory)
    ensures CopyOf(f, dest, start, source)
  {
    assert source + [] == source;
    forall rest: Path ensures Look(f, dest + rest) == Kept(Look(start, source + rest)) {
      assert rest == [] ==> source + rest == source;
    }
  }

  /** Neither a file nor a special file has anything below it, so copying or skipping it alone is a copy. */
  lemma LeafCopied(f: Files, g: Files, target: Path, start: Files, entry: Path)
    requires Gone(f, target) && IsTree(start, entry) && entry in start
    requires (start[entry].File? && g == f[target := start[entry]]) || (start[entry] == Special && g == f)
    ensures CopyOf(g, target, start, entry) && NoLinks(start, entry)
  {
    forall rest: Path
      ensures Look(g, target + rest) == Kept(Look(start, entry + rest)) && Look(start, entry + rest) != Some(Symlink)
    {
      assert target <= target + rest && Look(f, target + rest).None?;
      if rest == [] {
        assert target + rest == target && entry + rest == entry;
      } else {
        assert entry < entry + rest && target + rest != target;
        if entry + rest in start { RootIsDirectory(start, entry, entry + rest); }
      }
    }
  }

  lemma SameTreeCopy(g: Files, p: Path, f: Files, start: Files, q: Path)
    requires CopyOf(g, p, f, q) && SameTree(f, q, start, q)
    ensures CopyOf(g, p, start, q)
  {
    forall rest: Path ensures Look(g, p + rest) == Kept(Look(start, q + rest)) {
      assert Look(f, q + rest) == Look(start, q + rest);
    }
  }

  lemma CopyKept(g: Files, p: Path, f: Files, start: Files, q: Path)
    requires CopyOf(f, p, start, q) && SameTree(f, p, g, p)
    ensures CopyOf(g, p, start, q)
  {
    forall rest: Path ensures Look(g, p + rest) == Kept(Look(start, q + rest)) {
      assert Look(f, p + rest) == Look(g, p + rest);
    }
  }

  /** An empty directory. */
  const EMPTY: Files := map[[] := Directory]

  function Parent(path: Path): Path
    requires path != []
  {
    path[..|path| - 1]
  }

  /** What lies above something that exists is a directory. */
  lemma AboveIsDirectory(files: Files, above: Path, path: Path)
    requires IsTree(files, []) && above < path && path in files
    ensures Look(files, above) == Some(Directory)
    decreases |path|
  {
    assert Parent(path) in files && files[Parent(path)] == Directory;
    if above != Parent(path) { AboveIsDirectory(files, above, Parent(path)); }
  }

  /** Where everything under a root is gone, the rest is still a tree. */
  lemma RestIsTree(f: Files, g: Files, root: Path)
    requires IsTree(f, []) && Elsewhere(f, g, root) && Gone(g, root)
    ensures IsTree(g, [])
  {
    forall path | [] < path && path in g ensures Parent(path) in g && g[Parent(path)] == Directory {
      assert root <= path ==> Look(g, path).None?;
      assert root <= Parent(path) ==> root <= path;
      assert Look(f, path) == Look(g, path) && Look(f, Parent(path)) == Look(g, Parent(path));
    }
  }

  /** A copy put where nothing was, in a directory, leaves a tree. */
  lemma CopyIsTree(f: Files, g: Files, target: Path, start: Files, entry: Path)
    requires IsTree(f, []) && Elsewhere(f, g, target) && CopyOf(g, target, start, entry) && IsTree(start, entry)
    requires target != [] && Look(f, Parent(target)) == Some(Directory)
    ensures IsTree(g, [])
  {
    forall path | [] < path && path in g ensures Parent(path) in g && g[Parent(path)] == Directory {
      var above := Parent(path);
      if target < path {
        var rest := path[|target|..];
        assert path == target + rest && above == target + Parent(rest);
        assert Look(g, target + rest) == Kept(Look(start, entry + rest));
        assert entry + rest in start && Parent(entry + rest) == entry + Parent(rest);
        assert Look(g, target + Parent(rest)) == Kept(Look(start, entry + Parent(rest)));
      } else if path == target {
        assert !(target <= above) && Look(g, above) == Look(f, above);
      } else {
        assert target <= above ==> target <= path;
        assert Look(f, path) == Look(g, path) && Look(f, above) == Look(g, above);
      }
    }
  }

  /** A finished copy: of the source, or of the directory just made when the source is the target itself. */
  ghost predicate Copied(f: Files, g: Files, source: Path, dest: Path) {
    if source == dest then CopyOf(g, dest, EMPTY, [])
    else
      && Apart(source, dest) && Look(f, source) == Some(Directory) && CopyOf(g, dest, f, source)
      && NoLinks(f, source)
  }

  /** The entries that are done with hold no symbolic link. */
  ghost predicate NoLinksBut(start: Files, source: Path, todo: set<string>) {
    forall rest: Path :: rest != [] && rest[0] !in todo ==> Look(start, source + rest) != Some(Symlink)
  }

  lemma NoLinksAtFirst(start: Files, source: Path)
    requires IsTree(start, source)
    ensures NoLinksBut(start, source, Children(start, source))
  {
    forall rest: Path | rest != [] ensures source + rest in start ==> rest[0] in Children(start, source) {
      if source + rest in start {
        ChildExists(start, source, source + rest);
        assert (source + rest)[|source|] == rest[0];
      }
    }
  }

  lemma NoLinksGoOn(f: Files, start: Files, source: Path, todo: set<string>, name: string)
    requires NoLinksBut(start, source, todo) && NoLinks(f, source + [name])
    requires SameTree(f, source + [name], start, source + [name])
    ensures NoLinksBut(start, source, todo - {name})
  {
    forall rest: Path | rest != [] && rest[0] !in todo - {name} ensures Look(start, source + rest) != Some(Symlink) {
      if rest[0] == name {
        assert rest == [name] + rest[1..];
        Deeper(source, name, rest[1..]);
        assert Look(f, source + [name] + rest[1..]) == Look(start, source + [name] + rest[1..]);
      }
    }
  }

  lemma NoLinksAtLast(start: Files, source: Path)
    requires NoLinksBut(start, source, {}) && Look(start, source) == Some(Directory)
    ensures NoLinks(start, source)
  {
    forall rest: Path ensures Look(start, source + rest) != Some(Symlink) {
      assert rest == [] ==> source + rest == source;
    }
  }

  /** In the middle of copying a directory, wherever its source lies. */
  ghost predicate Progress(f: Files, dest: Path, start: Files, source: Path, todo: set<string>) {
    && IsTree(f, []) && Elsewhere(start, f, dest) && IsTree(start, source)
    && Look(f, dest) == Some(Directory) && Look(f, source) == Some(Directory)
    && (forall n :: n in todo ==> source + [n] in f && Gone(f, dest + [n]))
    && (Apart(source, dest) ==> CopiedBut(f, dest, start, source, todo) && Look(start, source) == Some(Directory))
    && (Apart(source, dest) ==> NoLinksBut(start, source, todo))
    && (source < dest ==> dest[|source|] in todo)
    && (source == dest ==> todo == {} && CopyOf(f, dest, EMPTY, []))
    && !(dest < source)
  }

  lemma MadeIsTree(start: Files, dest: Path)
    requires IsTree(start, []) && dest != [] && Look(start, Parent(dest)) == Some(Directory) && Gone(start, dest)
    ensures IsTree(start[dest := Directory], []) && Elsewhere(start, start[dest := Directory], dest)
    ensures CopyOf(start[dest := Directory], dest, EMPTY, [])
  {
    MadeIsEmpty(start, dest, start[dest := Directory]);
    EmptyIsTree();
    CopyIsTree(start, start[dest := Directory], dest, EMPTY, []);
  }

  lemma EmptyIsTree()
    ensures IsTree(EMPTY, [])
  {
  }

  lemma MadeIsEmpty(start: Files, dest: Path, f: Files)
    requires Gone(start, dest) && f == start[dest := Directory]
    ensures CopyOf(f, dest, EMPTY, []) && Elsewhere(start, f, dest)
  {
    forall rest: Path ensures Look(f, dest + rest) == Kept(Look(EMPTY, [] + rest)) {
      assert [] + rest == rest;
      if rest == [] {
        assert dest + rest == dest;
      } else {
        assert dest <= dest + rest && Look(start, dest + rest).None? && dest + rest != dest;
      }
    }
  }

  lemma IsChild(files: Files, root: Path, name: string)
    ensures name in Children(files, root) <==> root + [name] in files
  {
    if name in Children(files, root) {
      var path :| path in files && root < path && |path| == |root| + 1 && path[|root|] == name;
      assert path == root + [name];
    }
    if root + [name] in files { assert (root + [name])[|root|] == name; }
  }

  /** The children of what is not under the new directory are what they were. */
  lemma ChildrenKept(start: Files, f: Files, dest: Path, source: Path)
    requires Elsewhere(start, f, dest) && Apart(source, dest)
    ensures Look(f, source) == Look(start, source) && Children(f, source) == Children(start, source)
  {
    ElsewhereKeepsTree(start, f, dest, source);
    assert source + [] == source;
    assert Look(f, source + []) == Look(start, source + []);
    forall n ensures n in Children(f, source) <==> n in Children(start, source) {
      IsChild(f, source, n);
      IsChild(start, source, n);
      assert Look(f, source + [n]) == Look(start, source + [n]);
    }
  }

  lemma ProgressBegins(start: Files, dest: Path, source: Path)
    requires IsTree(start, []) && dest != [] && Look(start, Parent(dest)) == Some(Directory) && Gone(start, dest)
    requires var f := start[dest := Directory]; source in f && f[source] == Directory
    ensures var f := start[dest := Directory]; Progress(f, dest, start, source, Children(f, source))
  {
    var f := start[dest := Directory];
    var todo := Children(f, source);
    MadeIsTree(start, dest);
    assert dest < source ==> Look(start, source).None?;
    forall n | n in todo ensures source + [n] in f && Gone(f, dest + [n]) {
      IsChild(f, source, n);
      forall path | dest + [n] <= path ensures Look(f, path).None? {
        assert dest <= dest + [n] <= path && path != dest && Look(start, path).None?;
      }
    }
    if Apart(source, dest) {
      ChildrenKept(start, f, dest, source);
      CopyBegins(f, dest, start, source);
      NoLinksAtFirst(start, source);
    } else if source < dest {
      FirstStepIsChild(f, source, dest);
    } else {
      NoChildren(start, f, dest);
    }
  }

  lemma FirstStepIsChild(f: Files, source: Path, dest: Path)
    requires IsTree(f, []) && source < dest && dest in f
    ensures dest[|source|] in Children(f, source)
  {
    var step := dest[..|source| + 1];
    assert step == source + [dest[|source|]];
    if step != dest { AboveIsDirectory(f, step, dest); }
    IsChild(f, source, dest[|source|]);
  }

  lemma NoChildren(start: Files, f: Files, dest: Path)
    requires Gone(start, dest) && f == start[dest := Directory]
    ensures Children(f, dest) == {}
  {
    forall n ensures n !in Children(f, dest) {
      IsChild(f, dest, n);
      assert dest <= dest + [n] && dest + [n] != dest && Look(start, dest + [n]).None?;
    }
  }

  /** What copying one entry needs. */
  lemma EntryReady(f: Files, dest: Path, start: Files, source: Path, todo: set<string>, name: string)
    requires Progress(f, dest, start, source, todo) && name in todo
    ensures source + [name] in f && Gone(f, dest + [name]) && Parent(dest + [name]) == dest
    ensures !(dest + [name] <= source + [name])
    ensures IsTree(f, source + [name])
    ensures Apart(source, dest) ==> SameTree(f, source + [name], start, source + [name])
  {
    if Apart(source, dest) {
      ApartDeeper(source, dest, name);
      ElsewhereKeepsTree(start, f, dest, source);
      forall rest ensures Look(f, source + [name] + rest) == Look(start, source + [name] + rest) {
        Deeper(source, name, rest);
        assert Look(f, source + ([name] + rest)) == Look(start, source + ([name] + rest));
      }
    }
  }

  /** A copied entry leaves the others as they were; the entry the target lies in is never copied. */
  lemma ProgressGoesOn(f: Files, g: Files, dest: Path, start: Files, source: Path, todo: set<string>, name: string)
    requires Progress(f, dest, start, source, todo) && name in todo
    requires Elsewhere(f, g, dest + [name]) && IsTree(g, [])
    requires Apart(source + [name], dest + [name]) && CopyOf(g, dest + [name], f, source + [name])
    requires NoLinks(f, source + [name])
    ensures Progress(g, dest, start, source, todo - {name})
  {
    EntryReady(f, dest, start, source, todo, name);
    assert dest <= dest + [name] && !(dest + [name] <= dest) && !(dest + [name] <= source);
    assert Look(g, dest) == Look(f, dest) && Look(g, source) == Look(f, source);
    forall n | n in todo - {name} ensures source + [n] in g && Gone(g, dest + [n]) {
      OtherEntry(f, g, dest, source, name, n);
    }
    if Apart(source, dest) {
      SameTreeCopy(g, dest + [name], f, start, source + [name]);
      CopyGoesOn(f, g, dest, start, source, todo, name);
      NoLinksGoOn(f, start, source, todo, name);
    } else if source < dest {
      assert dest[|source|] == name ==> source + [name] <= dest <= dest + [name];
    }
  }

  lemma NotBelowOther(dest: Path, source: Path, name: string, n: string)
    ensures dest + [name] <= source + [n] ==> dest <= source
  {
    if dest + [name] <= source + [n] { assert dest == (source + [n])[..|dest|] == source[..|dest|]; }
  }

  lemma OtherEntry(f: Files, g: Files, dest: Path, source: Path, name: string, n: string)
    requires Elsewhere(f, g, dest + [name]) && n != name && !(dest < source) && source != dest
    requires source + [n] in f && Gone(f, dest + [n])
    ensures source + [n] in g && Gone(g, dest + [n])
  {
    SiblingsApart(dest, name, n);
    NotBelowOther(dest, source, name, n);
    assert Look(g, source + [n]) == Look(f, source + [n]);
    forall path | dest + [n] <= path ensures Look(g, path).None? {
      Below(dest + [n], path);
      ApartBelow(dest + [name], dest + [n], path[|dest + [n]|..]);
      assert Look(g, path) == Look(f, path);
    }
  }

  lemma ProgressEnds(f: Files, dest: Path, start: Files, source: Path)
    requires Progress(f, dest, start, source, {})
    ensures Copied(start, f, source, dest)
  {
    if Apart(source, dest) {
      CopyEnds(f, dest, start, source);
      NoLinksAtLast(start, source);
    }
  }

  // ---------------------------------------------------------------- replacing

  /** The three paths a replacement may touch. */
  datatype Slots = Slots(dest: Path, staged: Path, backup: Path)

  predicate SlotsApart(s: Slots) {
    Apart(s.dest, s.staged) && Apart(s.dest, s.backup) && Apart(s.staged, s.backup)
  }

  ghost predicate OnlySlots(f: Files, g: Files, s: Slots) {
    forall path :: !(s.dest <= path) && !(s.staged <= path) && !(s.backup <= path) ==> Look(f, path) == Look(g, path)
  }

  /** The destination is as it was. */
  ghost predicate Untouched(start: Files, h: Files, s: Slots) {
    OnlySlots(start, h, s) && SameTree(h, s.dest, start, s.dest)
  }

  /** The old content is whole, at the destination or in the backup. */
  ghost predicate OldIsWhole(start: Files, h: Files, s: Slots) {
    s.dest in start ==> SameTree(h, s.dest, start, s.dest) || SameTree(h, s.backup, start, s.dest)
  }

  /** A tree of some file system, as what a destination is to hold. */
  datatype Content = Content(files: Files, at: Path)

  ghost predicate Holds(h: Files, path: Path, c: Content) {
    CopyOf(h, path, c.files, c.at)
  }

  /** What every step of a replacement keeps. */
  ghost predicate Safe(start: Files, h: Files, s: Slots, c: Content) {
    OnlySlots(start, h, s) && (OldIsWhole(start, h, s) || Holds(h, s.dest, c))
  }

  /** Work on the staged copy or on a leftover backup does not touch the destination. */
  lemma StaysUntouched(start: Files, f: Files, h: Files, s: Slots, root: Path)
    requires SlotsApart(s) && Untouched(start, f, s) && Elsewhere(f, h, root) && (root == s.staged || root == s.backup)
    ensures Untouched(start, h, s)
  {
    ElsewhereKeepsTree(f, h, root, s.dest);
    forall rest ensures Look(h, s.dest + rest) == Look(start, s.dest + rest) {
      assert Look(f, s.dest + rest) == Look(h, s.dest + rest);
    }
  }

  lemma UntouchedIsSafe(start: Files, h: Files, s: Slots, c: Content)
    requires Untouched(start, h, s)
    ensures Safe(start, h, s, c) && OldIsWhole(start, h, s)
  {
  }

  /** What a swap from `f` keeps. */
  ghost predicate Swapping(f: Files, h: Files, s: Slots) {
    OnlySlots(f, h, s) && OldIsWhole(f, h, s)
  }

  lemma SwappingIsSafe(start: Files, f: Files, h: Files, s: Slots, c: Content)
    requires Untouched(start, f, s) && Swapping(f, h, s)
    ensures Safe(start, h, s, c) && OldIsWhole(start, h, s)
  {
    assert s.dest + [] == s.dest;
    assert Look(f, s.dest + []) == Look(start, s.dest + []);
    if SameTree(h, s.dest, f, s.dest) {
      TreeOf(h, s.dest, f, s.dest, start, s.dest);
    }
    if SameTree(h, s.backup, f, s.dest) {
      TreeOf(h, s.backup, f, s.dest, start, s.dest);
    }
  }

  /** The old content has stepped aside, if there was any; the staged copy is as it was. */
  ghost predicate Aside(f: Files, g: Files, s: Slots) {
    && OnlySlots(f, g, s)
    && SameTree(g, s.staged, f, s.staged)
    && (s.dest in f ==> SameTree(g, s.backup, f, s.dest))
  }

  lemma OldStepsAside(f: Files, s: Slots)
    requires SlotsApart(s)
    ensures Aside(f, Moved(f, s.dest, s.backup), s) && Gone(Moved(f, s.dest, s.backup), s.dest)
  {
    var g := Moved(f, s.dest, s.backup);
    MovedTree(f, s.dest, s.backup);
    forall rest ensures Look(g, s.staged + rest) == Look(f, s.staged + rest) {
      ApartBelow(s.dest, s.staged, rest);
      ApartBelow(s.backup, s.staged, rest);
    }
  }

  lemma StagedStepsIn(f: Files, g: Files, s: Slots)
    requires SlotsApart(s) && Aside(f, g, s)
    ensures var h := Moved(g, s.staged, s.dest);
            Swapping(f, h, s) && SameTree(h, s.dest, f, s.staged) && SameTree(h, s.backup, g, s.backup) &&
            Gone(h, s.staged)
  {
    var h := Moved(g, s.staged, s.dest);
    MovedTree(g, s.staged, s.dest);
    TreeOf(h, s.dest, g, s.staged, f, s.staged);
    forall rest ensures Look(h, s.backup + rest) == Look(g, s.backup + rest) {
      ApartBelow(s.dest, s.backup, rest);
      ApartBelow(s.staged, s.backup, rest);
    }
    if s.dest in f { TreeOf(h, s.backup, g, s.backup, f, s.dest); }
  }

  lemma OldComesBack(f: Files, g: Files, s: Slots)
    requires SlotsApart(s) && Aside(f, g, s) && s.dest in f
    ensures var h := Moved(g, s.backup, s.dest); Swapping(f, h, s) && SameTree(h, s.dest, f, s.dest)
  {
    var h := Moved(g, s.backup, s.dest);
    MovedTree(g, s.backup, s.dest);
    TreeOf(h, s.dest, g, s.backup, f, s.dest);
  }

  lemma TreeOf(h: Files, p: Path, f: Files, q: Path, g: Files, r: Path)
    requires SameTree(h, p, f, q) && SameTree(f, q, g, r)
    ensures SameTree(h, p, g, r)
  {
    forall rest ensures Look(h, p + rest) == Look(g, r + rest) {
      assert Look(f, q + rest) == Look(g, r + rest);
    }
  }

  /** One attempt to rename. */
  datatype Move = Move(from: Path, to: Path, done: bool)

  /**
   How far a replacement gets: it may have no place to work in, not be made ready, fail to put the old
   content aside, or fail to put the new content in; then the old content is restored or not. In place at
   last, the backup is cleaned away or not.
   */
  datatype Outcome =
    | NoParent
    | NotStaged
    | NotAside
    | NotIn(restored: bool)
    | Placed(cleaned: bool)

  /** The renames that lead to an outcome. Only an old content that is there steps aside and comes back. */
  function Moves(outcome: Outcome, s: Slots, hadOld: bool): seq<Move> {
    var aside := if hadOld then [Move(s.dest, s.backup, true)] else [];
    match outcome
    case NoParent => []
    case NotStaged => []
    case NotAside => [Move(s.dest, s.backup, false)]
    case NotIn(restored) =>
      aside + [Move(s.staged, s.dest, false)] + (if hadOld then [Move(s.backup, s.dest, restored)] else [])
    case Placed(_) => aside + [Move(s.staged, s.dest, true)]
  }

  /**
   Where the contents are after each outcome. A replacement that fails leaves the old content at the
   destination itself, unless the rename back fails as well.
   */
  ghost predicate EndsWell(outcome: Outcome, start: Files, g: Files, s: Slots, c: Content) {
    match outcome
    case NotIn(false) => s.dest in start && SameTree(g, s.backup, start, s.dest) && Gone(g, s.dest)
    case Placed(cleaned) => Holds(g, s.dest, c) && Gone(g, s.staged) && (cleaned ==> Gone(g, s.backup))
    case _ => Untouched(start, g, s)
  }

  /** What a swap leaves behind besides. */
  ghost predicate Swapped(outcome: Outcome, f: Files, g: Files, s: Slots) {
    match outcome
    case NotAside => g == f
    case NotIn(false) => s.dest in f && SameTree(g, s.backup, f, s.dest) && Gone(g, s.dest)
    case NotIn(true) => SameTree(g, s.dest, f, s.dest)
    case Placed(_) =>
      && SameTree(g, s.dest, f, s.staged) && Gone(g, s.staged)
      && (if s.dest in f then SameTree(g, s.backup, f, s.dest) else Gone(g, s.backup))
    case _ => false
  }

  lemma TreeStaysTree(f: Files, p: Path, g: Files, q: Path)
    requires SameTree(f, p, g, q) && IsTree(g, q)
    ensures IsTree(f, p)
  {
    forall path | p < path && path in f ensures path[..|path| - 1] in f && f[path[..|path| - 1]] == Directory {
      var rest := path[|p|..];
      assert path == p + rest && path[..|path| - 1] == p + Parent(rest);
      assert Look(f, p + rest) == Look(g, q + rest) && Look(f, p + Parent(rest)) == Look(g, q + Parent(rest));
      assert q < q + rest && (q + rest)[..|q + rest| - 1] == q + Parent(rest);
    }
  }

  lemma GoneIsTree(f: Files, root: Path)
    requires Gone(f, root)
    ensures IsTree(f, root)
  {
    forall path | root < path ensures path !in f { assert Look(f, path).None?; }
  }

  /** Seen from before the staging, when nothing had happened to the destination yet. */
  lemma SwappedWell(outcome: Outcome, start: Files, f: Files, g: Files, s: Slots, c: Content)
    requires Untouched(start, f, s) && OnlySlots(f, g, s) && Swapped(outcome, f, g, s) && Holds(f, s.staged, c)
    requires IsTree(start, []) && !(outcome.Placed? && outcome.cleaned)
    ensures EndsWell(outcome, start, g, s, c) && (s.dest in start <==> s.dest in f)
    ensures outcome.Placed? ==> IsTree(g, s.backup)
  {
    assert s.dest + [] == s.dest;
    assert Look(f, s.dest + []) == Look(start, s.dest + []);
    match outcome {
      case Placed(_) =>
        forall rest: Path ensures Look(g, s.dest + rest) == Kept(Look(c.files, c.at + rest)) {
          assert Look(g, s.dest + rest) == Look(f, s.staged + rest);
        }
        if s.dest in f {
          TreeOf(g, s.backup, f, s.dest, start, s.dest);
          TreeStaysTree(g, s.backup, start, s.dest);
        } else {
          GoneIsTree(g, s.backup);
        }
      case NotIn(true) => TreeOf(g, s.dest, f, s.dest, start, s.dest);
      case NotIn(false) => TreeOf(g, s.backup, f, s.dest, start, s.dest);
      case _ =>
    }
  }

  /** Work on the backup leaves the new content in place and the staged path empty. */
  lemma CleaningKeeps(start: Files, g: Files, h: Files, s: Slots, c: Content)
    requires SlotsApart(s) && EndsWell(Placed(false), start, g, s, c) && Elsewhere(g, h, s.backup)
    ensures EndsWell(Placed(false), start, h, s, c)
  {
    ElsewhereKeepsTree(g, h, s.backup, s.dest);
    CopyKept(h, s.dest, g, c.files, c.at);
    ElsewhereKeepsTree(g, h, s.backup, s.staged);
    GoneStays(g, h, s.staged);
  }

  /** The name up to its last dot; a leading dot does not count. */
  function Stem(name: string, n: nat): string
    requires n <= |name|
  {
    if n <= 1 then name else if name[n - 1] == '.' then name[..n - 1] else Stem(name, n - 1)
  }

  function WithExtension(path: Path, extension: string): Path {
    if path == [] || path[|path| - 1] == ".." then path
    else
      var name := path[|path| - 1];
      path[..|path| - 1] + [Stem(name, |name|) + ("." + extension)]
  }

  function ProgramSlots(dest: Path): Slots {
    Slots(dest, WithExtension(dest, "new"), WithExtension(dest, "old"))
  }

  function AssetSlots(dest: Path): Slots
    requires dest != []
  {
    var parent := dest[..|dest| - 1];
    Slots(dest, parent + [".base.new"], parent + [".base.old"])
  }

  lemma SiblingsApart(parent: Path, a: string, b: string)
    requires a != b
    ensures Apart(parent + [a], parent + [b])
  {
    assert (parent + [a])[|parent|] == a && (parent + [b])[|parent|] == b;
  }

  /** The program's two other names: the text up to its last dot, then `.new` and `.old`. */
  lemma ProgramNames(parent: Path, stem: string, extension: string)
    requires stem != "" && stem != "." && '.' !in extension
    ensures ProgramSlots(parent + [stem + "." + extension]) ==
            Slots(parent + [stem + "." + extension], parent + [stem + ".new"], parent + [stem + ".old"])
    ensures '.' !in stem ==>
              ProgramSlots(parent + [stem]) ==
              Slots(parent + [stem], parent + [stem + ".new"], parent + [stem + ".old"])
  {
    var name := stem + "." + extension;
    StemOf(stem, extension, |name|);
    if '.' !in stem { NoDotStem(stem, |stem|); }
    assert name[0] == stem[0];
    SuffixJoined(stem);
    OneName(parent, name);
    OneName(parent, stem);
  }

  /** A dot in front of a name is part of it. */
  lemma HiddenNames(parent: Path, plain: string)
    requires plain != "" && '.' !in plain
    ensures var name := "." + plain;
            ProgramSlots(parent + [name]) == Slots(parent + [name], parent + [name + ".new"], parent + [name + ".old"])
  {
    var name := "." + plain;
    assert |name| >= 2 && forall i :: 1 <= i < |name| ==> name[i] == plain[i - 1];
    StemOfHidden(name, |name|);
    SuffixJoined(name);
    OneName(parent, name);
  }

  lemma {:induction false} StemOfHidden(name: string, n: nat)
    requires 1 <= n <= |name| && forall i :: 1 <= i < |name| ==> name[i] != '.'
    ensures Stem(name, n) == name
  {
    if n > 1 { StemOfHidden(name, n - 1); }
  }

  lemma OneName(parent: Path, name: string)
    ensures var path := parent + [name]; path[|path| - 1] == name && path[..|path| - 1] == parent
  {
  }

  lemma SuffixJoined(stem: string)
    ensures stem + ("." + "new") == stem + ".new" && stem + ("." + "old") == stem + ".old"
  {
  }

  lemma {:induction false} StemOf(stem: string, extension: string, n: nat)
    requires stem != "" && '.' !in extension && |stem| < n <= |stem| + 1 + |extension|
    ensures Stem(stem + "." + extension, n) == stem
  {
    var name := stem + "." + extension;
    if n == |stem| + 1 {
      assert name[|stem|] == '.' && name[..|stem|] == stem;
    } else {
      assert name[n - 1] == extension[n - 2 - |stem|];
      StemOf(stem, extension, n - 1);
    }
  }

  lemma {:induction false} NoDotStem(name: string, n: nat)
    requires '.' !in name && n <= |name|
    ensures Stem(name, n) == name
  {
    if n > 1 { NoDotStem(name, n - 1); }
  }

  /** The three paths are apart exactly when the program's own extension is neither of the two. */
  lemma ProgramSlotsApart(dest: Path)
    ensures SlotsApart(ProgramSlots(dest)) <==>
            WithExtension(dest, "new") != dest && WithExtension(dest, "old") != dest
  {
    if dest != [] && dest[|dest| - 1] != ".." {
      var name := dest[|dest| - 1];
      var parent := dest[..|dest| - 1];
      var stem := Stem(name, |name|);
      assert dest == parent + [name];
      assert (stem + ("." + "new"))[|stem| + 1] == 'n' && (stem + ("." + "old"))[|stem| + 1] == 'o';
      SiblingsApart(parent, stem + ("." + "new"), stem + ("." + "old"));
      if name != stem + ("." + "new") { SiblingsApart(parent, name, stem + ("." + "new")); }
      if name != stem + ("." + "old") { SiblingsApart(parent, name, stem + ("." + "old")); }
    }
  }

  lemma IsTreeEverywhere(files: Files, roots: seq<Path>)
    requires IsTree(files, [])
    ensures forall root :: root in roots ==> IsTree(files, root)
  {
  }

  /** With the new content in place, work on the backup changes nothing that matters. */
  lemma StaysInPlace(start: Files, f: Files, h: Files, s: Slots, c: Content)
    requires SlotsApart(s) && OnlySlots(start, f, s) && Holds(f, s.dest, c)
    requires Elsewhere(f, h, s.backup)
    ensures Holds(h, s.dest, c) && Safe(start, h, s, c)
  {
    ElsewhereKeepsTree(f, h, s.backup, s.dest);
    CopyKept(h, s.dest, f, c.files, c.at);
  }

  lemma AssetSlotsApart(dest: Path)
    requires dest != [] && dest[|dest| - 1] != ".base.new" && dest[|dest| - 1] != ".base.old"
    ensures SlotsApart(AssetSlots(dest))
  {
    var parent := dest[..|dest| - 1];
    assert dest == parent + [dest[|dest| - 1]];
    var a, b := ".base.new", ".base.old";
    assert a[6] == 'n' && b[6] == 'o';
    SiblingsApart(parent, a, b);
    SiblingsApart(parent, dest[|dest| - 1], a);
    SiblingsApart(parent, dest[|dest| - 1], b);
  }

  /** What lies above one of two siblings, without being it, lies above the other. */
  lemma SourceAboveSibling(source: Path, parent: Path, a: string, b: string)
    ensures Apart(source, parent + [a]) ==> Apart(source, parent + [b]) || parent + [b] <= source
  {
    if |source| <= |parent| { ShortPrefix(source, parent, a); ShortPrefix(source, parent, b); }
  }

  lemma ShortPrefix(source: Path, parent: Path, a: string)
    requires |source| <= |parent|
    ensures source <= parent + [a] <==> source == parent[..|source|]
  {
    assert (parent + [a])[..|source|] == parent[..|source|];
  }

  /** What the destination is to hold: a copy of the source, or nothing when the source is the staged path. */
  function NewContent(start: Files, source: Path, s: Slots): Content {
    if source == s.staged then Content(EMPTY, []) else Content(start, source)
  }

  /** An empty directory is a copy of exactly what copies to an empty directory. */
  lemma EmptyCopies(f: Files, p: Path, start: Files, source: Path)
    requires CopyOf(f, p, EMPTY, [])
    ensures CopyOf(f, p, start, source) <==> CopyOf(EMPTY, [], start, source)
  {
    forall rest: Path ensures Look(f, p + rest) == Look(EMPTY, [] + rest) {
      assert Look(f, p + rest) == Kept(Look(EMPTY, [] + rest));
    }
    if CopyOf(f, p, start, source) {
      forall rest: Path ensures Look(EMPTY, [] + rest) == Kept(Look(start, source + rest)) {
        assert Look(f, p + rest) == Kept(Look(start, source + rest));
      }
    }
    if CopyOf(EMPTY, [], start, source) {
      forall rest: Path ensures Look(f, p + rest) == Kept(Look(start, source + rest)) {
        assert Look(EMPTY, [] + rest) == Kept(Look(start, source + rest));
      }
    }
  }

  /** A directory that contains special files at most. */
  ghost predicate HoldsSpecialsOnly(files: Files, root: Path) {
    Look(files, root) == Some(Directory) && forall path :: root < path && path in files ==> files[path] == Special
  }

  /** An empty directory is a copy of a directory that contains special files alone, and of nothing else. */
  lemma EmptyCopiesExactly(start: Files, source: Path)
    ensures CopyOf(EMPTY, [], start, source) <==> HoldsSpecialsOnly(start, source)
  {
    if CopyOf(EMPTY, [], start, source) {
      var none: Path := [];
      assert source + none == source && none + none == none;
      assert Look(EMPTY, none + none) == Kept(Look(start, source + none));
      forall path | source < path && path in start ensures start[path] == Special {
        var rest := path[|source|..];
        assert path == source + rest && [] + rest == rest && rest != [];
        assert Look(EMPTY, [] + rest) == Kept(Look(start, source + rest));
      }
    }
    if HoldsSpecialsOnly(start, source) { SpecialsCopyToNothing(start, source, []); }
  }

  lemma SpecialsCopyToNothing(start: Files, source: Path, top: Path)
    requires HoldsSpecialsOnly(start, source) && top == []
    ensures CopyOf(EMPTY, top, start, source)
  {
    forall rest: Path ensures Look(EMPTY, top + rest) == Kept(Look(start, source + rest)) {
      assert top + rest == rest;
      if rest == [] { assert source + rest == source; } else { assert source < source + rest; }
    }
  }

  /** A staged path that is itself the source: one file in it, and the copy that replaces the assets has none. */
  lemma StagedSourceLosesFiles()
    ensures var start: Files := map[[] := Directory, ["d"] := Directory, ["d", "base"] := Directory,
                                    ["d", ".base.new"] := Directory, ["d", ".base.new", "a"] := File([1])];
            var s := AssetSlots(["d", "base"]);
            s.staged == ["d", ".base.new"] && !CopyOf(EMPTY, [], start, s.staged)
  {
    var start: Files := map[[] := Directory, ["d"] := Directory, ["d", "base"] := Directory,
                            ["d", ".base.new"] := Directory, ["d", ".base.new", "a"] := File([1])];
    assert ["d", "base"][..1] + [".base.new"] == ["d", ".base.new"];
    EmptyCopiesExactly(start, ["d", ".base.new"]);
    assert ["d", ".base.new"] < ["d", ".base.new", "a"] && start[["d", ".base.new", "a"]] != Special;
  }

  lemma GoneStays(f: Files, g: Files, root: Path)
    requires Gone(f, root) && SameTree(f, root, g, root)
    ensures Gone(g, root)
  {
    forall path | root <= path ensures Look(g, path).None? {
      Below(root, path);
      assert Look(f, root + path[|root|..]) == Look(g, root + path[|root|..]);
    }
  }

  /** A source still there after the clearing, and apart from what was cleared, is as it was. */
  lemma SourceIsReady(start: Files, cleared: Files, ready: Files, s: Slots, source: Path)
    requires SlotsApart(s) && Elsewhere(start, cleared, s.staged) && Elsewhere(cleared, ready, s.backup)
    requires Gone(ready, s.backup)
    ensures source in ready && Apart(source, s.staged) && Apart(source, s.backup) ==>
              SameTree(ready, source, start, source)
    ensures s.backup <= source ==> source !in ready
  {
    if Apart(source, s.staged) && Apart(source, s.backup) {
      ElsewhereKeepsTree(start, cleared, s.staged, source);
      ElsewhereKeepsTree(cleared, ready, s.backup, source);
      forall rest ensures Look(ready, source + rest) == Look(start, source + rest) {
        assert Look(start, source + rest) == Look(cleared, source + rest) == Look(ready, source + rest);
      }
    }
    if s.backup <= source { assert Look(ready, source).None?; }
  }

  /** Only a directory contains the target that an entry is to be copied to. */
  lemma EntryAbove(files: Files, entry: Path, target: Path)
    requires IsTree(files, []) && entry in files && !(target <= entry)
    requires target != [] && Look(files, Parent(target)) == Some(Directory)
    ensures Apart(entry, target) || files[entry] == Directory
    ensures Apart(entry, target) || entry < target
  {
    if entry < target && entry != Parent(target) {
      assert entry <= Parent(target);
      AboveIsDirectory(files, entry, Parent(target));
    }
  }

  class FileSystem {
    var files: Files
    ghost var history: seq<Files>

    /** Every rename that was tried. */
    ghost var moves: seq<Move>

    /** How many operations have failed, or have met a symbolic link to copy. */
    ghost var failures: nat

    /** A path of more names than this is too long. */
    const maxPath: nat

    constructor (files: Files, maxPath: nat)
      ensures this.files == files && history == [files] && moves == [] && failures == 0
      ensures this.maxPath == maxPath
    {
      this.files, this.maxPath := files, maxPath;
      history, moves, failures := [files], [], 0;
    }

    /** Every state since the first `n` differs from `start` under `root` at most. */
    ghost predicate OnlySince(n: nat, start: Files, root: Path)
      reads this
    {
      n <= |history| && forall i :: n <= i < |history| ==> Elsewhere(start, history[i], root)
    }

    method RemoveFile(path: Path) returns (ok: bool)
      modifies `files, `history, `failures
      ensures history == old(history) + [files] && failures == old(failures) + Failed(ok)
      ensures if ok then path in old(files) && old(files)[path] != Directory && files == old(files) - {path}
              else files == old(files)
    {
      ok := *;
      ok := ok && path in files && files[path] != Directory;
      if ok { files := files - {path}; }
      history, failures := history + [files], failures + Failed(ok);
    }

    /** Entries go one at a time, in any order, until all are gone or one removal fails. */
    method RemoveDirAll(root: Path) returns (ok: bool)
      modifies `files, `history, `failures
      ensures old(history) <= history && OnlySince(|old(history)|, old(files), root)
      ensures Elsewhere(old(files), files, root)
      ensures if ok then Gone(files, root) && failures == old(failures) else failures == old(failures) + 1
    {
      while Inside(files, root) != {}
        invariant failures == old(failures)
        invariant old(history) <= history && OnlySince(|old(history)|, old(files), root)
        invariant Elsewhere(old(files), files, root)
        decreases |Inside(files, root)|
      {
        var fails: bool := *;
        if fails { failures := failures + 1; return false; }
        var path :| path in Inside(files, root);
        ghost var was := Inside(files, root);
        files := files - {path};
        history := history + [files];
        assert Inside(files, root) == was - {path};
      }
      assert forall path :: root <= path && path in files ==> path in Inside(files, root);
      return true;
    }

    method RemovePathIfExists(path: Path) returns (ok: bool)
      modifies `files, `history, `failures
      ensures old(history) <= history && OnlySince(|old(history)|, old(files), path)
      ensures Elsewhere(old(files), files, path)
      ensures ok && IsTree(old(files), path) ==> Gone(files, path)
      ensures failures == old(failures) + Failed(ok)
    {
      if path in files && files[path] == Directory {
        ok := RemoveDirAll(path);
      } else {
        ok := true;
        if path in files { ok := RemoveFile(path); }
        if IsTree(old(files), path) { OnlyTheRoot(old(files), path); }
        assert ok ==> files == old(files) - {path};
      }
    }

    /** A rename is one step: it moves everything or nothing. */
    method Rename(from: Path, to: Path) returns (ok: bool)
      modifies this
      ensures history == old(history) + [files] && moves == old(moves) + [Move(from, to, ok)]
      ensures failures == old(failures) + Failed(ok)
      ensures if ok then MayMove(old(files), from, to) && files == Moved(old(files), from, to)
              else files == old(files)
    {
      ok := *;
      ok := ok && MayMove(files, from, to);
      if ok { files := Moved(files, from, to); }
      history, moves, failures := history + [files], moves + [Move(from, to, ok)], failures + Failed(ok);
    }

    /** The target is created first and filled after, and may be left with any part of the data. */
    method CopyFile(from: Path, to: Path) returns (ok: bool)
      modifies `files, `history, `failures
      ensures old(history) <= history && OnlySince(|old(history)|, old(files), to)
      ensures Elsewhere(old(files), files, to)
      ensures ok ==> from in old(files) && old(files)[from].File? && files == old(files)[to := old(files)[from]]
      ensures failures == old(failures) + Failed(ok)
    {
      ok := *;
      if !ok || from !in files || !files[from].File? || (to in files && !files[to].File?) {
        failures := failures + 1;
        return false;
      }
      var whole := files[from];
      var part: seq<int> := *;
      files := files[to := File(part)];
      history := history + [files];
      ok := *;
      if ok {
        files := files[to := whole];
        history := history + [files];
      } else {
        failures := failures + 1;
      }
    }

    /** A directory in a directory that is there, if its path is not too long. */
    method CreateDirAll(path: Path) returns (ok: bool)
      modifies `files, `history, `failures
      ensures old(history) <= history && OnlySince(|old(history)|, old(files), path)
      ensures Elsewhere(old(files), files, path)
      ensures ok ==> files == old(files)[path := Directory] && |path| <= maxPath &&
                     path != [] && Look(old(files), Parent(path)) == Some(Directory)
      ensures failures == old(failures) + Failed(ok)
    {
      ok := *;
      ok := ok && |path| <= maxPath && (path in files ==> files[path] == Directory);
      ok := ok && path != [] && Look(files, Parent(path)) == Some(Directory);
      if !ok { failures := failures + 1; return; }
      files := files[path := Directory];
      history := history + [files];
    }

    /** How many names may still be added to a path. */
    function Room(path: Path): nat {
      if |path| > maxPath then 0 else maxPath + 1 - |path|
    }

    /** One entry of a directory. */
    method CopyEntry(entry: Path, target: Path) returns (ok: bool)
      requires IsTree(files, []) && entry in files && Gone(files, target) && !(target <= entry)
      requires target != [] && Look(files, Parent(target)) == Some(Directory)
      modifies `files, `history, `failures
      ensures old(history) <= history && OnlySince(|old(history)|, old(files), target)
      ensures Elsewhere(old(files), files, target)
      ensures ok ==> IsTree(files, []) && Apart(entry, target) && CopyOf(files, target, old(files), entry)
      ensures ok ==> NoLinks(old(files), entry)
      ensures failures == old(failures) + Failed(ok)
      decreases Room(target), 3
    {
      EntryAbove(files, entry, target);
      match files[entry] {
        case Symlink => ok, failures := false, failures + 1;
        case Directory => ok := CopyTree(entry, target);
        case File(_) =>
          ok := CopyFile(entry, target);
          if ok {
            LeafCopied(old(files), files, target, old(files), entry);
            CopyIsTree(old(files), files, target, old(files), entry);
          }
        case Special =>
          ok := true;
          LeafCopied(files, files, target, files, entry);
      }
    }

    /** The next entry of a directory whose copy is in progress. */
    method CopyNext(ghost start: Files, source: Path, dest: Path, ghost todo: set<string>, name: string)
      returns (ok: bool)
      requires Progress(files, dest, start, source, todo) && name in todo && |dest| <= maxPath
      modifies `files, `history, `failures
      ensures old(history) <= history && OnlySince(|old(history)|, start, dest)
      ensures Elsewhere(start, files, dest)
      ensures ok ==> Progress(files, dest, start, source, todo - {name})
      ensures failures == old(failures) + Failed(ok)
      decreases Room(dest), 0
    {
      EntryReady(files, dest, start, source, todo, name);
      ok := CopyEntry(source + [name], dest + [name]);
      assert dest <= dest + [name];
      if ok { ProgressGoesOn(old(files), files, dest, start, source, todo, name); }
    }

    /**
     Copying a tree. When the source contains the target, the copy runs into itself until a path is too
     long to be made: it never finishes well. When the source is the target, it finds the directory it
     has just made, which is empty.
     */
    method CopyTree(source: Path, dest: Path) returns (ok: bool)
      requires IsTree(files, []) && Gone(files, dest)
      modifies `files, `history, `failures
      ensures old(history) <= history && OnlySince(|old(history)|, old(files), dest)
      ensures Elsewhere(old(files), files, dest)
      ensures ok ==> IsTree(files, []) && Copied(old(files), files, source, dest)
      ensures failures == old(failures) + Failed(ok)
      decreases Room(dest), 2
    {
      ghost var start := files;
      ok := CreateDirAll(dest);
      if !ok { return; }
      ok := *;
      if !ok || source !in files || files[source] != Directory { failures := failures + 1; return false; }
      var todo := Children(files, source);
      ProgressBegins(start, dest, source);
      ok := CopyEntries(start, source, dest, todo);
      if ok { ProgressEnds(files, dest, start, source); }
    }

    /** The entries come in no particular order. */
    method CopyEntries(ghost start: Files, source: Path, dest: Path, names: set<string>) returns (ok: bool)
      requires Progress(files, dest, start, source, names) && |dest| <= maxPath
      modifies `files, `history, `failures
      ensures old(history) <= history && OnlySince(|old(history)|, start, dest)
      ensures Elsewhere(start, files, dest)
      ensures ok ==> Progress(files, dest, start, source, {})
      ensures failures == old(failures) + Failed(ok)
      decreases Room(dest), 1
    {
      var todo := names;
      while todo != {}
        invariant old(history) <= history && OnlySince(|old(history)|, start, dest)
        invariant Progress(files, dest, start, source, todo) && failures == old(failures)
        decreases todo
      {
        var fails: bool := *;
        if fails { failures := failures + 1; return false; }
        var name :| name in todo;
        ok := CopyNext(start, source, dest, todo, name);
        if !ok { return; }
        todo := todo - {name};
      }
      return true;
    }

    /** Every state since the first `n` is one a swap from `f` may pass through. */
    ghost predicate SwappingSince(n: nat, f: Files, s: Slots)
      reads this
    {
      n <= |history| && forall i :: n <= i < |history| ==> Swapping(f, history[i], s)
    }

    method StepAside(s: Slots) returns (ok: bool)
      requires SlotsApart(s)
      modifies this
      ensures old(history) <= history && SwappingSince(|old(history)|, old(files), s)
      ensures Swapping(old(files), files, s) && moves == old(moves) + [Move(s.dest, s.backup, ok)]
      ensures failures == old(failures) + Failed(ok)
      ensures if ok then Aside(old(files), files, s) && Gone(files, s.dest) && s.dest in old(files)
              else files == old(files)
    {
      OldStepsAside(files, s);
      ok := Rename(s.dest, s.backup);
    }

    method StepIn(ghost f: Files, s: Slots) returns (ok: bool)
      requires SlotsApart(s) && Aside(f, files, s) && Swapping(f, files, s)
      modifies this
      ensures old(history) <= history && SwappingSince(|old(history)|, f, s)
      ensures Swapping(f, files, s) && moves == old(moves) + [Move(s.staged, s.dest, ok)]
      ensures failures == old(failures) + Failed(ok)
      ensures if ok then SameTree(files, s.dest, f, s.staged) && SameTree(files, s.backup, old(files), s.backup) &&
                         Gone(files, s.staged)
              else files == old(files)
    {
      StagedStepsIn(f, files, s);
      ok := Rename(s.staged, s.dest);
    }

    method StepBack(ghost f: Files, s: Slots) returns (ok: bool)
      requires SlotsApart(s) && Aside(f, files, s) && Swapping(f, files, s) && s.dest in f
      modifies this
      ensures old(history) <= history && SwappingSince(|old(history)|, f, s)
      ensures Swapping(f, files, s) && moves == old(moves) + [Move(s.backup, s.dest, ok)]
      ensures failures == old(failures) + Failed(ok)
      ensures if ok then SameTree(files, s.dest, f, s.dest) else files == old(files)
    {
      OldComesBack(f, files, s);
      ok := Rename(s.backup, s.dest);
    }

    /** The old content steps aside, the staged one steps in, and the old one comes back if that fails. */
    method SwapIn(s: Slots) returns (outcome: Outcome)
      requires SlotsApart(s) && Gone(files, s.backup)
      modifies this
      ensures old(history) <= history && SwappingSince(|old(history)|, old(files), s)
      ensures Swapping(old(files), files, s) && Swapped(outcome, old(files), files, s)
      ensures moves == old(moves) + Moves(outcome, s, s.dest in old(files)) && outcome != Placed(true)
      ensures outcome.Placed? <==> failures == old(failures)
    {
      ghost var start := files;
      assert Look(files, s.backup).None?;
      if s.dest in files {
        var aside := StepAside(s);
        if !aside { return NotAside; }
        BackupIsThere(start, files, s);
      }
      ghost var before := files;
      var entered := StepIn(start, s);
      if entered {
        if s.dest in start { TreeOf(files, s.backup, before, s.backup, start, s.dest); }
        else { GoneStays(before, files, s.backup); }
        return Placed(false);
      }
      outcome := NotIn(true);
      if s.backup in files && s.dest !in files {
        var restored := StepBack(start, s);
        outcome := NotIn(restored);
      }
    }

    /** What has stepped aside is in the backup, and nowhere else. */
    lemma BackupIsThere(f: Files, g: Files, s: Slots)
      requires s.dest in f && SameTree(g, s.backup, f, s.dest) && Gone(g, s.dest)
      ensures s.backup in g && s.dest !in g
    {
      assert s.backup + [] == s.backup && s.dest + [] == s.dest;
      assert Look(g, s.backup + []) == Look(f, s.dest + []) && Look(g, s.dest).None?;
    }

    ghost predicate UntouchedSince(n: nat, start: Files, s: Slots)
      reads this
    {
      n <= |history| && forall i :: n <= i < |history| ==> Untouched(start, history[i], s)
    }

    ghost predicate SafeSince(n: nat, start: Files, s: Slots, c: Content)
      reads this
    {
      n <= |history| && forall i :: n <= i < |history| ==> Safe(start, history[i], s, c)
    }

    lemma SinceUntouched(n: nat, start: Files, f: Files, s: Slots, root: Path)
      requires SlotsApart(s) && Untouched(start, f, s) && (root == s.staged || root == s.backup)
      requires OnlySince(n, f, root)
      ensures UntouchedSince(n, start, s)
    {
      forall i | n <= i < |history| ensures Untouched(start, history[i], s) {
        StaysUntouched(start, f, history[i], s, root);
      }
    }

    method ClearFile(path: Path, ghost start: Files, ghost s: Slots) returns (ok: bool)
      requires SlotsApart(s) && Untouched(start, files, s) && (path == s.staged || path == s.backup)
      requires IsTree(files, path)
      modifies `files, `history, `failures
      ensures old(history) <= history && UntouchedSince(|old(history)|, start, s)
      ensures Untouched(start, files, s) && Elsewhere(old(files), files, path)
      ensures failures == old(failures) + Failed(ok)
      ensures ok ==> Gone(files, path)
    {
      ok := true;
      if path in files { ok := RemoveFile(path); }
      StaysUntouched(start, old(files), files, s, path);
      if ok {
        assert files == old(files) - {path};
        OnlyTheRoot(old(files), path);
      }
    }

    method CopyStaged(source: Path, ghost start: Files, s: Slots) returns (ok: bool)
      requires SlotsApart(s) && Untouched(start, files, s) && Gone(files, s.staged) && IsTree(start, source)
      requires source in files ==> Look(files, source) == Look(start, source)
      modifies `files, `history, `failures
      ensures old(history) <= history && UntouchedSince(|old(history)|, start, s)
      ensures Untouched(start, files, s) && Elsewhere(old(files), files, s.staged)
      ensures failures == old(failures) + Failed(ok)
      ensures ok ==> CopyOf(files, s.staged, start, source)
    {
      ok := CopyFile(source, s.staged);
      SinceUntouched(|old(history)|, start, old(files), s, s.staged);
      StaysUntouched(start, old(files), files, s, s.staged);
      if ok { LeafCopied(old(files), files, s.staged, start, source); }
    }

    method StageFile(source: Path, s: Slots) returns (ok: bool)
      requires SlotsApart(s) && IsTree(files, source) && IsTree(files, s.staged) && IsTree(files, s.backup)
      modifies `files, `history, `failures
      ensures old(history) <= history && UntouchedSince(|old(history)|, old(files), s)
      ensures Untouched(old(files), files, s)
      ensures ok ==> CopyOf(files, s.staged, old(files), source) && Gone(files, s.backup)
      ensures failures == old(failures) + Failed(ok)
    {
      ghost var start := files;
      ok := ClearFile(s.staged, start, s);
      if !ok { return; }
      ghost var cleared := files;
      assert source in files ==> Look(files, source) == Look(start, source) by {
        assert s.staged <= source && source in files ==> Look(files, source).None?;
      }
      ok := CopyStaged(source, start, s);
      if !ok { return; }
      ghost var staged := files;
      ElsewhereKeepsIsTree(start, cleared, s.staged, s.backup);
      ElsewhereKeepsIsTree(cleared, staged, s.staged, s.backup);
      ok := ClearFile(s.backup, start, s);
      ElsewhereKeepsTree(staged, files, s.backup, s.staged);
      if ok { CopyKept(files, s.staged, staged, start, source); }
    }

    /** The swap, seen from the start of the whole replacement. */
    method SwapSafely(ghost start: Files, s: Slots, ghost c: Content) returns (outcome: Outcome)
      requires SlotsApart(s) && Untouched(start, files, s) && Gone(files, s.backup)
      requires Holds(files, s.staged, c) && IsTree(start, [])
      modifies this
      ensures old(history) <= history && SafeSince(|old(history)|, start, s, c)
      ensures Safe(start, files, s, c) && EndsWell(outcome, start, files, s, c)
      ensures moves == old(moves) + Moves(outcome, s, s.dest in start)
      ensures outcome.NotAside? || outcome.NotIn? || outcome == Placed(false)
      ensures outcome.Placed? <==> failures == old(failures)
      ensures outcome.Placed? ==> IsTree(files, s.backup)
    {
      outcome := SwapIn(s);
      forall i | |old(history)| <= i < |history| ensures Safe(start, history[i], s, c) {
        SwappingIsSafe(start, old(files), history[i], s, c);
      }
      SwappingIsSafe(start, old(files), files, s, c);
      SwappedWell(outcome, start, old(files), files, s, c);
    }

    lemma SinceInPlace(n: nat, start: Files, f: Files, s: Slots, c: Content)
      requires SlotsApart(s) && OnlySlots(start, f, s) && Holds(f, s.dest, c)
      requires OnlySince(n, f, s.backup)
      ensures SafeSince(n, start, s, c)
    {
      forall i | n <= i < |history| ensures Safe(start, history[i], s, c) {
        StaysInPlace(start, f, history[i], s, c);
      }
    }

    lemma SinceStaged(n: nat, start: Files, s: Slots, c: Content)
      requires UntouchedSince(n, start, s)
      ensures SafeSince(n, start, s, c)
    {
      forall i | n <= i < |history| ensures Safe(start, history[i], s, c) {
        UntouchedIsSafe(start, history[i], s, c);
      }
    }

    /** The error of the last removal is dropped. */
    method DropBackupFile(ghost start: Files, s: Slots, ghost c: Content) returns (cleaned: bool)
      requires SlotsApart(s) && OnlySlots(start, files, s) && EndsWell(Placed(false), start, files, s, c)
      requires IsTree(files, s.backup)
      modifies `files, `history, `failures
      ensures old(history) <= history && SafeSince(|old(history)|, start, s, c)
      ensures Safe(start, files, s, c) && EndsWell(Placed(cleaned), start, files, s, c)
      ensures (!cleaned ==> files == old(files)) && failures == old(failures) + Failed(cleaned)
    {
      cleaned := true;
      if s.backup in files { cleaned := RemoveFile(s.backup); }
      SinceInPlace(|old(history)|, start, old(files), s, c);
      StaysInPlace(start, old(files), files, s, c);
      CleaningKeeps(start, old(files), files, s, c);
      if cleaned {
        assert files == old(files) - {s.backup};
        OnlyTheRoot(old(files), s.backup);
      }
    }

    method ReplaceWithFile(source: Path, s: Slots) returns (ok: bool, outcome: Outcome)
      requires SlotsApart(s) && IsTree(files, [])
      modifies this
      ensures old(history) <= history && SafeSince(|old(history)|, old(files), s, Content(old(files), source))
      ensures Safe(old(files), files, s, Content(old(files), source))
      ensures EndsWell(outcome, old(files), files, s, Content(old(files), source))
      ensures (ok <==> outcome.Placed?) && (outcome == Placed(true) <==> failures == old(failures))
      ensures moves == old(moves) + Moves(outcome, s, s.dest in old(files)) && outcome != NoParent
    {
      ghost var c := Content(files, source);
      IsTreeEverywhere(files, [source, s.staged, s.backup]);
      ok := StageFile(source, s);
      SinceStaged(|old(history)|, old(files), s, c);
      UntouchedIsSafe(old(files), files, s, c);
      if !ok { return false, NotStaged; }
      outcome := SwapSafely(old(files), s, c);
      ok := outcome.Placed?;
      if ok {
        var cleaned := DropBackupFile(old(files), s, c);
        outcome := Placed(cleaned);
      }
    }

    /**
     The managed program. The old program is whole at every step, or the new one is in place; success
     means the new one is in place and nothing is left of its staged copy, failure that the old one is
     where it was, unless the rename back failed too.
     */
    method ReplaceFile(source: Path, dest: Path) returns (ok: bool, outcome: Outcome)
      requires WithExtension(dest, "new") != dest && WithExtension(dest, "old") != dest
      requires IsTree(files, [])
      modifies this
      ensures old(history) <= history
      ensures SafeSince(|old(history)|, old(files), ProgramSlots(dest), Content(old(files), source))
      ensures Safe(old(files), files, ProgramSlots(dest), Content(old(files), source))
      ensures source == dest ==> ok && files == old(files) && moves == old(moves) && failures == old(failures)
      ensures source != dest ==>
                var s := ProgramSlots(dest);
                && EndsWell(outcome, old(files), files, s, Content(old(files), source))
                && moves == old(moves) + Moves(outcome, s, dest in old(files))
                && (ok <==> outcome.Placed?) && outcome != NoParent
                && (outcome == Placed(true) <==> failures == old(failures))
                && (outcome == NotIn(false) || ok || SameTree(files, dest, old(files), dest))
                && (ok ==> Gone(files, WithExtension(dest, "new")))
    {
      UntouchedIsSafe(files, files, ProgramSlots(dest), Content(files, source));
      if source == dest { return true, NotStaged; }
      ProgramSlotsApart(dest);
      ok, outcome := ReplaceWithFile(source, ProgramSlots(dest));
    }

    method ClearPath(path: Path, ghost start: Files, ghost s: Slots) returns (ok: bool)
      requires SlotsApart(s) && Untouched(start, files, s) && (path == s.staged || path == s.backup)
      requires IsTree(files, path)
      modifies `files, `history, `failures
      ensures old(history) <= history && UntouchedSince(|old(history)|, start, s)
      ensures Untouched(start, files, s) && Elsewhere(old(files), files, path)
      ensures failures == old(failures) + Failed(ok)
      ensures ok ==> Gone(files, path)
    {
      ok := RemovePathIfExists(path);
      SinceUntouched(|old(history)|, start, old(files), s, path);
      StaysUntouched(start, old(files), files, s, path);
    }

    method CopyStagedTree(source: Path, ghost start: Files, s: Slots) returns (ok: bool)
      requires SlotsApart(s) && Untouched(start, files, s) && Gone(files, s.staged) && IsTree(files, [])
      requires source in files && Apart(source, s.staged) ==> SameTree(files, source, start, source)
      modifies `files, `history, `failures
      ensures old(history) <= history && UntouchedSince(|old(history)|, start, s)
      ensures Untouched(start, files, s) && Elsewhere(old(files), files, s.staged)
      ensures failures == old(failures) + Failed(ok)
      ensures ok ==> Copied(start, files, source, s.staged)
    {
      ok := CopyTree(source, s.staged);
      SinceUntouched(|old(history)|, start, old(files), s, s.staged);
      StaysUntouched(start, old(files), files, s, s.staged);
      if ok && source != s.staged {
        assert source + [] == source && Look(old(files), source + []) == Look(start, source + []);
        SameTreeCopy(files, s.staged, old(files), start, source);
      }
    }

    /** Both places are cleared before the copy begins; the source may go with them. */
    method ClearBoth(source: Path, s: Slots) returns (ok: bool)
      requires SlotsApart(s) && IsTree(files, [])
      requires Apart(source, s.staged) ==> Apart(source, s.backup) || s.backup <= source
      modifies `files, `history, `failures
      ensures old(history) <= history && UntouchedSince(|old(history)|, old(files), s)
      ensures Untouched(old(files), files, s)
      ensures ok ==> IsTree(files, []) && Gone(files, s.staged) && Gone(files, s.backup)
      ensures ok && source in files && Apart(source, s.staged) ==> SameTree(files, source, old(files), source)
      ensures failures == old(failures) + Failed(ok)
    {
      ok := ClearPath(s.staged, files, s);
      if !ok { return; }
      ghost var cleared := files;
      RestIsTree(old(files), cleared, s.staged);
      ok := ClearPath(s.backup, old(files), s);
      if !ok { return; }
      RestIsTree(cleared, files, s.backup);
      ElsewhereKeepsTree(cleared, files, s.backup, s.staged);
      GoneStays(cleared, files, s.staged);
      SourceIsReady(old(files), cleared, files, s, source);
    }

    method StageTree(source: Path, s: Slots) returns (ok: bool)
      requires SlotsApart(s) && IsTree(files, [])
      requires Apart(source, s.staged) ==> Apart(source, s.backup) || s.backup <= source
      modifies `files, `history, `failures
      ensures old(history) <= history && UntouchedSince(|old(history)|, old(files), s)
      ensures Untouched(old(files), files, s)
      ensures ok ==> Copied(old(files), files, source, s.staged) && Gone(files, s.backup)
      ensures failures == old(failures) + Failed(ok)
    {
      ok := ClearBoth(source, s);
      if !ok { return; }
      ghost var ready := files;
      ok := CopyStagedTree(source, old(files), s);
      ElsewhereKeepsTree(ready, files, s.staged, s.backup);
      GoneStays(ready, files, s.backup);
    }

    method DropBackupTree(ghost start: Files, s: Slots, ghost c: Content) returns (ok: bool)
      requires SlotsApart(s) && OnlySlots(start, files, s) && EndsWell(Placed(false), start, files, s, c)
      requires IsTree(files, s.backup)
      modifies `files, `history, `failures
      ensures old(history) <= history && SafeSince(|old(history)|, start, s, c)
      ensures Safe(start, files, s, c) && EndsWell(Placed(ok), start, files, s, c)
      ensures failures == old(failures) + Failed(ok)
    {
      ok := RemovePathIfExists(s.backup);
      SinceInPlace(|old(history)|, start, old(files), s, c);
      StaysInPlace(start, old(files), files, s, c);
      CleaningKeeps(start, old(files), files, s, c);
    }

    method ReplaceWithTree(source: Path, s: Slots) returns (outcome: Outcome)
      requires SlotsApart(s) && IsTree(files, [])
      requires Apart(source, s.staged) ==> Apart(source, s.backup) || s.backup <= source
      modifies this
      ensures old(history) <= history && SafeSince(|old(history)|, old(files), s, NewContent(old(files), source, s))
      ensures Safe(old(files), files, s, NewContent(old(files), source, s))
      ensures EndsWell(outcome, old(files), files, s, NewContent(old(files), source, s))
      ensures outcome.Placed? ==> source == s.staged || (Apart(source, s.staged) && NoLinks(old(files), source))
      ensures outcome == Placed(true) <==> failures == old(failures)
      ensures moves == old(moves) + Moves(outcome, s, s.dest in old(files)) && outcome != NoParent
    {
      ghost var c := NewContent(files, source, s);
      var ok := StageTree(source, s);
      SinceStaged(|old(history)|, old(files), s, c);
      UntouchedIsSafe(old(files), files, s, c);
      if !ok { return NotStaged; }
      outcome := SwapSafely(old(files), s, c);
      if outcome.Placed? {
        ok := DropBackupTree(old(files), s, c);
        outcome := Placed(ok);
      }
    }

    /**
     The managed assets, `base` beside `.base.new` and `.base.old`, from any source. As for the program,
     except that a failure to remove the backup is reported although the new tree is in place. A source in
     the staged path is cleared before it is copied, and one that contains it is never copied to the end; a
     new tree in place therefore means a source apart from the staged path, or the staged path itself, and
     in that last case the new tree is empty.
     */
    method ReplaceTree(source: Path, dest: Path) returns (ok: bool, outcome: Outcome)
      requires dest != [] ==> dest[|dest| - 1] != ".base.new" && dest[|dest| - 1] != ".base.old"
      requires IsTree(files, [])
      modifies this
      ensures old(history) <= history
      ensures ok <==> outcome == Placed(true)
      ensures dest == [] <==> outcome == NoParent
      ensures dest == [] ==> files == old(files) && history == old(history) && moves == old(moves)
      ensures dest != [] ==> (ok <==> failures == old(failures))
      ensures ok ==> Gone(files, Parent(dest) + [".base.new"]) && Gone(files, Parent(dest) + [".base.old"])
      ensures outcome.Placed? ==> Gone(files, Parent(dest) + [".base.new"])
      ensures outcome.NotStaged? || outcome.NotAside? || outcome == NotIn(true) ==>
                SameTree(files, dest, old(files), dest)
      ensures outcome == NotIn(false) ==>
                && moves != [] && moves[|moves| - 1] == Move(Parent(dest) + [".base.old"], dest, false)
                && SameTree(files, Parent(dest) + [".base.old"], old(files), dest)
      ensures dest != [] ==>
                var s := AssetSlots(dest);
                var c := NewContent(old(files), source, s);
                && SafeSince(|old(history)|, old(files), s, c)
                && Safe(old(files), files, s, c)
                && EndsWell(outcome, old(files), files, s, c)
                && moves == old(moves) + Moves(outcome, s, dest in old(files))
                && (outcome.Placed? ==> source == s.staged || (Apart(source, s.staged) && NoLinks(old(files), source)))
                && (outcome.Placed? ==> (CopyOf(files, dest, old(files), source) <==>
                                         source != s.staged || HoldsSpecialsOnly(old(files), source)))
    {
      if dest == [] { return false, NoParent; }
      var s := AssetSlots(dest);
      AssetSlotsApart(dest);
      SourceAboveSibling(source, dest[..|dest| - 1], ".base.new", ".base.old");
      outcome := ReplaceWithTree(source, s);
      ok := outcome == Placed(true);
      if outcome.Placed? && source == s.staged {
        EmptyCopies(files, dest, old(files), source);
        EmptyCopiesExactly(old(files), source);
      }
    }
  }
}
