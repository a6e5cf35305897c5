/** Listing what a directory really holds: `collect_regular_files` in
    `collect-diff-context-cli/src/artifacts/cache.rs`. */
module Inventory {
  import opened ByteStrings
  import opened FileTrees
  import CacheEntry

  /** What a directory read gives: names with what they stand for, in any order. A link, a reparse point
      or a special file is unsafe. */
  datatype Node = File | Directory(listing: Listing) | Unsafe

  datatype Listing = Nil | Cons(name: Bytes, node: Node, rest: Listing)

  datatype InventoryError = UnsafeEntry | Unexpected | TooManyFiles

  /** A directory that is still to be read, with its path from the root; the root's path is empty. */
  datatype Pending = Pending(path: Bytes, listing: Listing)

  function PathTo(dir: Bytes, name: Bytes): Bytes {
    if dir == [] then name else dir + [SLASH] + name
  }

  /** The directories above a file. */
  function ParentsOf(path: Bytes): set<Bytes> {
    set i | 0 < i < |path| && path[i] == SLASH :: path[..i]
  }

  ghost function ExpectedDirectories(files: set<Bytes>): set<Bytes> {
    set path, dir | path in files && dir in ParentsOf(path) :: dir
  }

  // ---------------------------------------------------------------- what a listing holds

  function Files(dir: Bytes, listing: Listing): multiset<Bytes>
    decreases listing
  {
    match listing
    case Nil => multiset{}
    case Cons(name, node, rest) =>
      (match node
       case File => multiset{PathTo(dir, name)}
       case Directory(inner) => Files(PathTo(dir, name), inner)
       case Unsafe => multiset{})
      + Files(dir, rest)
  }

  function Directories(dir: Bytes, listing: Listing): set<Bytes>
    decreases listing
  {
    match listing
    case Nil => {}
    case Cons(name, node, rest) =>
      (match node
       case Directory(inner) => {PathTo(dir, name)} + Directories(PathTo(dir, name), inner)
       case _ => {})
      + Directories(dir, rest)
  }

  predicate Safe(listing: Listing) {
    match listing
    case Nil => true
    case Cons(_, node, rest) => !node.Unsafe? && (node.Directory? ==> Safe(node.listing)) && Safe(rest)
  }

  function Size(listing: Listing): nat {
    match listing
    case Nil => 1
    case Cons(_, node, rest) => 1 + (if node.Directory? then Size(node.listing) else 0) + Size(rest)
  }

  /** Nothing unsafe and nothing unexpected, whether a file or a directory. */
  ghost predicate Clean(dir: Bytes, listing: Listing, files: set<Bytes>, dirs: set<Bytes>) {
    && Safe(listing)
    && (forall path :: path in Files(dir, listing) ==> path in files)
    && Directories(dir, listing) <= dirs
  }

  // ---------------------------------------------------------------- the worklist

  function AllFiles(pending: seq<Pending>): multiset<Bytes> {
    if pending == [] then multiset{}
    else AllFiles(pending[..|pending| - 1]) + Files(pending[|pending| - 1].path, pending[|pending| - 1].listing)
  }

  function TotalSize(pending: seq<Pending>): nat {
    if pending == [] then 0 else TotalSize(pending[..|pending| - 1]) + Size(pending[|pending| - 1].listing)
  }

  ghost predicate AllClean(pending: seq<Pending>, files: set<Bytes>, dirs: set<Bytes>) {
    forall i :: 0 <= i < |pending| ==> Clean(pending[i].path, pending[i].listing, files, dirs)
  }

  lemma Pushed(pending: seq<Pending>, p: Pending)
    ensures AllFiles(pending + [p]) == AllFiles(pending) + Files(p.path, p.listing)
    ensures TotalSize(pending + [p]) == TotalSize(pending) + Size(p.listing)
    ensures forall files: set<Bytes>, dirs: set<Bytes> ::
      AllClean(pending + [p], files, dirs) <==> AllClean(pending, files, dirs) && Clean(p.path, p.listing, files, dirs)
  {
    var more := pending + [p];
    assert more[..|pending|] == pending && more[|pending|] == p;
    forall files: set<Bytes>, dirs: set<Bytes>
      ensures AllClean(more, files, dirs) <==> AllClean(pending, files, dirs) && Clean(p.path, p.listing, files, dirs)
    {
      if AllClean(more, files, dirs) {
        assert forall i :: 0 <= i < |pending| ==> more[i] == pending[i];
      }
    }
  }

  lemma CleanCons(dir: Bytes, listing: Listing, files: set<Bytes>, dirs: set<Bytes>)
    requires listing.Cons?
    ensures var path := PathTo(dir, listing.name);
            Clean(dir, listing, files, dirs) <==>
            && Clean(dir, listing.rest, files, dirs)
            && match listing.node
               case File => path in files
               case Directory(inner) => path in dirs && Clean(path, inner, files, dirs)
               case Unsafe => false
  {
  }

  /** What is still to be read: the open directory and the pending ones. */
  ghost predicate Ahead(
    all: multiset<Bytes>, clean: bool, observed: set<Bytes>, pending: seq<Pending>, dir: Bytes, rest: Listing,
    files: set<Bytes>, dirs: set<Bytes>) {
    && all == multiset(observed) + AllFiles(pending) + Files(dir, rest)
    && (clean <==> AllClean(pending, files, dirs) && Clean(dir, rest, files, dirs))
    && |observed| <= CacheEntry.MAX_CACHE_FILES
  }

  ghost predicate NoRepeats(m: multiset<Bytes>) {
    forall path :: path in m ==> m[path] == 1
  }

  lemma FileAhead(
    all: multiset<Bytes>, clean: bool, observed: set<Bytes>, pending: seq<Pending>, dir: Bytes, rest: Listing,
    files: set<Bytes>, dirs: set<Bytes>)
    requires Ahead(all, clean, observed, pending, dir, rest, files, dirs) && rest.Cons? && rest.node.File?
    ensures var path := PathTo(dir, rest.name);
            && (path !in files ==> !clean)
            && (path in observed ==> !NoRepeats(all))
            && (path !in observed ==>
                  && multiset(observed + {path}) == multiset(observed) + multiset{path}
                  && |all| >= |observed| + 1
                  && (path in files && |observed| < CacheEntry.MAX_CACHE_FILES ==>
                        Ahead(all, clean, observed + {path}, pending, dir, rest.rest, files, dirs)))
  {
    var path := PathTo(dir, rest.name);
    CleanCons(dir, rest, files, dirs);
    assert Files(dir, rest) == multiset{path} + Files(dir, rest.rest);
    if path in observed {
      assert all[path] >= 2;
    } else {
      assert multiset(observed + {path}) == multiset(observed) + multiset{path};
      assert |all| == |multiset(observed)| + |AllFiles(pending)| + |Files(dir, rest)|;
    }
  }

  lemma DirectoryAhead(
    all: multiset<Bytes>, clean: bool, observed: set<Bytes>, pending: seq<Pending>, dir: Bytes, rest: Listing,
    files: set<Bytes>, dirs: set<Bytes>)
    requires Ahead(all, clean, observed, pending, dir, rest, files, dirs) && rest.Cons? && rest.node.Directory?
    ensures var path := PathTo(dir, rest.name);
            && (path !in dirs ==> !clean)
            && (path in dirs ==>
                  Ahead(all, clean, observed, pending + [Pending(path, rest.node.listing)], dir, rest.rest,
                        files, dirs))
            && TotalSize(pending + [Pending(path, rest.node.listing)]) + Size(rest.rest)
                 < TotalSize(pending) + Size(rest)
  {
    var path := PathTo(dir, rest.name);
    CleanCons(dir, rest, files, dirs);
    Pushed(pending, Pending(path, rest.node.listing));
  }

  lemma Popped(pending: seq<Pending>)
    requires pending != []
    ensures var last, others := pending[|pending| - 1], pending[..|pending| - 1];
            && AllFiles(pending) == AllFiles(others) + Files(last.path, last.listing)
            && TotalSize(pending) == TotalSize(others) + Size(last.listing)
            && forall files: set<Bytes>, dirs: set<Bytes> ::
                 AllClean(pending, files, dirs) <==>
                 AllClean(others, files, dirs) && Clean(last.path, last.listing, files, dirs)
  {
    var last, others := pending[|pending| - 1], pending[..|pending| - 1];
    Pushed(others, last);
    assert others + [last] == pending;
  }

  lemma Opened(
    all: multiset<Bytes>, clean: bool, observed: set<Bytes>, pending: seq<Pending>, files: set<Bytes>, dirs: set<Bytes>)
    requires Ahead(all, clean, observed, pending, [], Nil, files, dirs) && pending != []
    ensures var last, others := pending[|pending| - 1], pending[..|pending| - 1];
            && Ahead(all, clean, observed, others, last.path, last.listing, files, dirs)
            && TotalSize(others) + Size(last.listing) == TotalSize(pending)
  {
    Popped(pending);
  }

  /** A directory that is read to its end can be forgotten. */
  lemma Closed(
    all: multiset<Bytes>, clean: bool, observed: set<Bytes>, pending: seq<Pending>, dir: Bytes,
    files: set<Bytes>, dirs: set<Bytes>)
    requires Ahead(all, clean, observed, pending, dir, Nil, files, dirs)
    ensures Ahead(all, clean, observed, pending, [], Nil, files, dirs)
    ensures Size(Nil) == 1
  {
  }

  lemma Walked(all: multiset<Bytes>, clean: bool, observed: set<Bytes>, files: set<Bytes>, dirs: set<Bytes>)
    requires Ahead(all, clean, observed, [], [], Nil, files, dirs)
    ensures clean && all == multiset(observed) && NoRepeats(all) && |all| <= CacheEntry.MAX_CACHE_FILES
  {
    SetHasNoRepeats(observed);
  }

  /** One directory read. */
  method ReadDirectory(
    dir: Bytes, listing: Listing, files: set<Bytes>, dirs: set<Bytes>, before: set<Bytes>, waiting: seq<Pending>,
    ghost all: multiset<Bytes>, ghost clean: bool)
    returns (r: Result<(set<Bytes>, seq<Pending>), InventoryError>)
    requires Ahead(all, clean, before, waiting, dir, listing, files, dirs)
    ensures r.Err? ==> !clean || !NoRepeats(all) || |all| > CacheEntry.MAX_CACHE_FILES
    ensures r.Ok? ==> Ahead(all, clean, r.value.0, r.value.1, [], Nil, files, dirs)
    ensures r.Ok? ==> TotalSize(r.value.1) < TotalSize(waiting) + Size(listing)
  {
    var observed, pending, rest := before, waiting, listing;
    while rest.Cons?
      invariant Ahead(all, clean, observed, pending, dir, rest, files, dirs)
      invariant TotalSize(pending) + Size(rest) <= TotalSize(waiting) + Size(listing)
      decreases rest
    {
      var path := PathTo(dir, rest.name);
      if rest.node.Unsafe? {
        CleanCons(dir, rest, files, dirs);
        return Err(UnsafeEntry);
      }
      if rest.node.Directory? {
        DirectoryAhead(all, clean, observed, pending, dir, rest, files, dirs);
        if path !in dirs {
          return Err(Unexpected);
        }
        pending := pending + [Pending(path, rest.node.listing)];
      } else {
        FileAhead(all, clean, observed, pending, dir, rest, files, dirs);
        if path !in files || path in observed {
          return Err(Unexpected);
        }
        observed := observed + {path};
        if |observed| > CacheEntry.MAX_CACHE_FILES {
          return Err(TooManyFiles);
        }
      }
      rest := rest.rest;
    }
    Closed(all, clean, observed, pending, dir, files, dirs);
    r := Ok((observed, pending));
  }

  /** The walk succeeds exactly when everything in the directory is safe and expected, no file appears
      twice, and the files are not too many; it then returns the files. */
  method CollectRegularFiles(root: Listing, files: set<Bytes>) returns (r: Result<set<Bytes>, InventoryError>)
    ensures r.Ok? <==>
            && Clean([], root, files, ExpectedDirectories(files))
            && NoRepeats(Files([], root)) && |Files([], root)| <= CacheEntry.MAX_CACHE_FILES
    ensures r.Ok? ==> multiset(r.value) == Files([], root)
  {
    var dirs := set path, dir | path in files && dir in ParentsOf(path) :: dir;
    var observed: set<Bytes> := {};
    var pending := [Pending([], root)];
    ghost var all, clean := Files([], root), Clean([], root, files, dirs);
    Pushed([], Pending([], root));
    assert [] + [Pending([], root)] == pending;
    while pending != []
      invariant Ahead(all, clean, observed, pending, [], Nil, files, dirs)
      decreases TotalSize(pending)
    {
      Opened(all, clean, observed, pending, files, dirs);
      var last := pending[|pending| - 1];
      var read := ReadDirectory(last.path, last.listing, files, dirs, observed, pending[..|pending| - 1], all, clean);
      if read.Err? {
        return Err(read.error);
      }
      observed, pending := read.value.0, read.value.1;
    }
    Walked(all, clean, observed, files, dirs);
    r := Ok(observed);
  }

  lemma SetHasNoRepeats(s: set<Bytes>)
    ensures NoRepeats(multiset(s)) && |multiset(s)| == |s|
  {
  }

  // ---------------------------------------------------------------- the paths of a listing

  /** The names lead from the listing to a file. */
  predicate FileAt(listing: Listing, names: seq<Bytes>) {
    match listing
    case Nil => false
    case Cons(name, node, rest) =>
      || FileAt(rest, names)
      || (names != [] && names[0] == name
          && match node
             case File => |names| == 1
             case Directory(inner) => |names| > 1 && FileAt(inner, names[1..])
             case Unsafe => false)
  }

  /** The names with slashes between them. */
  function Joined(names: seq<Bytes>): Bytes
    requires names != []
  {
    if |names| == 1 then names[0] else names[0] + [47] + Joined(names[1..])
  }

  function Below(dir: Bytes, path: Bytes): Bytes {
    if dir == [] then path else dir + [47] + path
  }

  /** No name is empty. */
  predicate Named(listing: Listing) {
    match listing
    case Nil => true
    case Cons(name, node, rest) => name != [] && (node.Directory? ==> Named(node.listing)) && Named(rest)
  }

  lemma FurtherBelow(dir: Bytes, name: Bytes, names: seq<Bytes>)
    requires name != [] && names != []
    ensures Below(PathTo(dir, name), Joined(names)) == Below(dir, Joined([name] + names))
  {
    assert ([name] + names)[1..] == names;
  }

  lemma {:induction false} FileHasNames(dir: Bytes, listing: Listing, path: Bytes) returns (names: seq<Bytes>)
    requires Named(listing) && path in Files(dir, listing)
    ensures names != [] && FileAt(listing, names) && path == Below(dir, Joined(names))
    decreases listing
  {
    var name, node := listing.name, listing.node;
    if path in Files(dir, listing.rest) {
      names := FileHasNames(dir, listing.rest, path);
    } else if node.File? {
      names := [name];
    } else {
      var inner := FileHasNames(PathTo(dir, name), node.listing, path);
      names := [name] + inner;
      assert names[1..] == inner;
      FurtherBelow(dir, name, inner);
    }
  }

  lemma {:induction false} NamesGiveFile(dir: Bytes, listing: Listing, names: seq<Bytes>)
    requires Named(listing) && names != [] && FileAt(listing, names)
    ensures Below(dir, Joined(names)) in Files(dir, listing)
    decreases listing
  {
    var name, node := listing.name, listing.node;
    if FileAt(listing.rest, names) {
      NamesGiveFile(dir, listing.rest, names);
    } else if node.Directory? {
      NamesGiveFile(PathTo(dir, name), node.listing, names[1..]);
      assert names == [name] + names[1..];
      FurtherBelow(dir, name, names[1..]);
    } else {
      assert names == [name];
    }
  }

  /** The paths of a listing are the joined names that lead to its files. */
  lemma FilesExactly(root: Listing, path: Bytes)
    requires Named(root)
    ensures path in Files([], root) <==> exists names :: names != [] && FileAt(root, names) && path == Joined(names)
  {
    if path in Files([], root) {
      var names := FileHasNames([], root, path);
    }
    if names: seq<Bytes> :| names != [] && FileAt(root, names) && path == Joined(names) {
      NamesGiveFile([], root, names);
    }
  }

  // ---------------------------------------------------------------- trees without empty directories

  /** Every directory has an entry. */
  predicate NoneEmpty(listing: Listing) {
    match listing
    case Nil => true
    case Cons(_, node, rest) =>
      (node.Directory? ==> node.listing.Cons? && NoneEmpty(node.listing)) && NoneEmpty(rest)
  }

  /** Somewhere below a directory with an entry there is a file. */
  lemma {:induction false} SomeFile(dir: Bytes, listing: Listing) returns (path: Bytes)
    requires dir != [] && listing.Cons? && Safe(listing) && Named(listing) && NoneEmpty(listing)
    ensures path in Files(dir, listing) && dir + [SLASH] <= path
    decreases listing
  {
    var inner := PathTo(dir, listing.name);
    if listing.node.File? {
      path := inner;
    } else {
      path := SomeFile(inner, listing.node.listing);
      assert dir + [SLASH] <= inner <= path;
    }
  }

  lemma ParentOf(dir: Bytes, path: Bytes)
    requires dir != [] && dir + [SLASH] <= path
    ensures dir in ParentsOf(path)
  {
    assert path[|dir|] == SLASH && path[..|dir|] == dir;
  }

  lemma {:induction false} DirectoryIsAParent(dir: Bytes, listing: Listing, d: Bytes) returns (path: Bytes)
    requires Safe(listing) && Named(listing) && NoneEmpty(listing) && d in Directories(dir, listing)
    ensures path in Files(dir, listing) && d in ParentsOf(path)
    decreases listing
  {
    var inner := PathTo(dir, listing.name);
    if d in Directories(dir, listing.rest) {
      path := DirectoryIsAParent(dir, listing.rest, d);
    } else if d == inner {
      path := SomeFile(inner, listing.node.listing);
      ParentOf(inner, path);
    } else {
      path := DirectoryIsAParent(inner, listing.node.listing, d);
    }
  }

  /** A directory that holds exactly the files of a tree, and no empty directories. */
  ghost predicate Holds(root: Listing, tree: Tree) {
    Safe(root) && Named(root) && NoneEmpty(root) && Files([], root) == multiset(tree.Keys)
  }

  lemma DirectoriesAreExpected(root: Listing, tree: Tree)
    requires Holds(root, tree)
    ensures Directories([], root) <= ExpectedDirectories(tree.Keys)
  {
    forall d | d in Directories([], root)
      ensures d in ExpectedDirectories(tree.Keys)
    {
      var path := DirectoryIsAParent([], root, d);
      assert path in multiset(tree.Keys);
    }
  }

  /** For a directory that holds exactly a tree of regular files, the walk followed by the comparison
      with the expected files decides whether the tree has exactly those files, and not too many. */
  lemma WalkDecidesTheInventory(root: Listing, tree: Tree, files: set<Bytes>)
    requires Holds(root, tree)
    ensures (&& Clean([], root, files, ExpectedDirectories(files))
             && NoRepeats(Files([], root)) && |Files([], root)| <= CacheEntry.MAX_CACHE_FILES
             && Files([], root) == multiset(files)) <==>
            tree.Keys == files && |tree.Keys| <= CacheEntry.MAX_CACHE_FILES
  {
    SetHasNoRepeats(tree.Keys);
    DirectoriesAreExpected(root, tree);
    assert tree.Keys == files <==> multiset(tree.Keys) == multiset(files) by {
      if multiset(tree.Keys) == multiset(files) {
        forall path
          ensures path in tree.Keys <==> path in files
        {
          assert path in tree.Keys <==> path in multiset(tree.Keys);
          assert path in files <==> path in multiset(files);
        }
      }
    }
  }
}
