/** Directories as maps from relative paths to contents, and the two ways in which
    `collect-diff-context-cli/src/artifacts/cache.rs` puts a file there: `copy_exact_file` and
    `write_new_file`. Each is a creation that fails when the path is taken, any number of partial
    writes, and a check at the end. */
module FileTrees {
  import opened ByteStrings

  type Tree = map<Bytes, Bytes>

  predicate Beneath(dir: Bytes, path: Bytes) {
    dir + [SLASH] <= path
  }

  /** `create_new` succeeds and so does the creation of the parents: nothing has this path, no file is
      one of its parents, and it is no directory. */
  ghost predicate Free(tree: Tree, path: Bytes) {
    path !in tree && forall other :: other in tree ==> !Beneath(path, other) && !Beneath(other, path)
  }

  /** A copy may read anything from its source; only the final check binds it. */
  datatype Item = Copied(path: Bytes, size: nat, sha256: Bytes) | Written(path: Bytes, bytes: Bytes)

  predicate Complete(hash: Bytes -> Bytes, item: Item, content: Bytes) {
    match item
    case Copied(_, size, sha256) => |content| == size && hash(content) == sha256
    case Written(_, bytes) => content == bytes
  }

  predicate MayHold(item: Item, content: Bytes) {
    item.Written? ==> content <= item.bytes
  }

  /** Which file of a list is next: not yet created, or open for writing. */
  datatype Progress = Creating(next: nat) | Filling(next: nat)

  ghost predicate Create(items: seq<Item>, tree: Tree, p: Progress, tree': Tree, p': Progress) {
    && p.Creating? && p.next < |items|
    && Free(tree, items[p.next].path)
    && tree' == tree[items[p.next].path := []]
    && p' == Filling(p.next)
  }

  ghost predicate Append(items: seq<Item>, tree: Tree, p: Progress, tree': Tree, p': Progress, chunk: Bytes) {
    && p.Filling? && p.next < |items|
    && items[p.next].path in tree
    && MayHold(items[p.next], tree[items[p.next].path] + chunk)
    && tree' == tree[items[p.next].path := tree[items[p.next].path] + chunk]
    && p' == p
  }

  ghost predicate Finish(hash: Bytes -> Bytes, items: seq<Item>, tree: Tree, p: Progress, tree': Tree, p': Progress) {
    && p.Filling? && p.next < |items|
    && items[p.next].path in tree
    && Complete(hash, items[p.next], tree[items[p.next].path])
    && tree' == tree
    && p' == Creating(p.next + 1)
  }

  ghost predicate FileStep(hash: Bytes -> Bytes, items: seq<Item>, tree: Tree, p: Progress, tree': Tree, p': Progress) {
    || Create(items, tree, p, tree', p')
    || (exists chunk: Bytes :: Append(items, tree, p, tree', p', chunk))
    || Finish(hash, items, tree, p, tree', p')
  }

  /** The files that the list has created so far. */
  function Owned(items: seq<Item>, p: Progress): set<Bytes> {
    set i | 0 <= i < |items| && (i < p.next || (p.Filling? && i == p.next)) :: items[i].path
  }

  /** Finished files are complete, and the one being written holds part of what it should. */
  ghost predicate InPlace(hash: Bytes -> Bytes, items: seq<Item>, p: Progress, tree: Tree) {
    && p.next <= |items| && (p.Filling? ==> p.next < |items|)
    && (forall i :: 0 <= i < p.next ==> items[i].path in tree && Complete(hash, items[i], tree[items[i].path]))
    && (p.Filling? ==> items[p.next].path in tree && MayHold(items[p.next], tree[items[p.next].path]))
    && (p.Filling? ==> forall i :: 0 <= i < p.next ==> items[i].path != items[p.next].path)
  }

  /** What one step does: it touches at most the path it owns or newly creates, and keeps the list in
      place. */
  lemma StepKeepsInPlace(hash: Bytes -> Bytes, items: seq<Item>, tree: Tree, p: Progress, tree': Tree, p': Progress)
    requires InPlace(hash, items, p, tree)
    requires FileStep(hash, items, tree, p, tree', p')
    ensures InPlace(hash, items, p', tree')
    ensures Owned(items, p) <= Owned(items, p')
    ensures Owned(items, p') - Owned(items, p) == tree'.Keys - tree.Keys
    ensures tree.Keys <= tree'.Keys
    ensures forall path :: path in tree && path !in Owned(items, p) ==> tree'[path] == tree[path]
  {
    var path := items[p.next].path;
    if Create(items, tree, p, tree', p') {
      assert p' == Filling(p.next);
      assert Owned(items, p') == Owned(items, p) + {path};
      assert path !in Owned(items, p);
      assert tree'.Keys == tree.Keys + {path};
    } else if Finish(hash, items, tree, p, tree', p') {
      assert Owned(items, p') == Owned(items, p);
    } else {
      assert path in Owned(items, p);
      assert tree'.Keys == tree.Keys;
    }
  }

  /** A tree in which other hands touch only other paths stays in place. */
  lemma OthersKeepInPlace(hash: Bytes -> Bytes, items: seq<Item>, p: Progress, tree: Tree, tree': Tree)
    requires InPlace(hash, items, p, tree)
    requires forall path :: path in Owned(items, p) ==> path in tree' && tree'[path] == tree[path]
    ensures InPlace(hash, items, p, tree')
  {
    forall i | 0 <= i < p.next
      ensures items[i].path in tree' && tree'[items[i].path] == tree[items[i].path]
    {
      assert items[i].path in Owned(items, p);
    }
    assert p.Filling? ==> items[p.next].path in Owned(items, p);
  }
}
