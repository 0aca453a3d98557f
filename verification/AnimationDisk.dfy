/**
 The part of a file system that the publication of an animation touches: the output's
 directory (public names) and the private temporary directory beside it. Every operation
 takes effect at once or fails without effect. The disk can be given a promise about its states,
 and remembers whether every state since then has kept it, so that a claim about what holds
 between any two operations can be stated.
 */
module AnimationDisk {
  import opened Options

  /** Text the publication itself writes is kept parsed; everything else is opaque. */
  datatype Content =
    | Bytes(data: string)
    | Manifest(schema: string, video: string)

  datatype Node =
    | File(content: Content)
    | Directory(entries: map<string, Content>)
    | Symlink(destination: string)

  /** The private directory itself, and what is put into it. */
  datatype Item = Root | Frames | Video | Report | Previous(index: nat)

  datatype Path = Public(name: string) | Private(item: Item)

  type Tree = map<Path, Node>

  ghost function Lookup(tree: Tree, path: Path): Option<Node> {
    if path in tree then Some(tree[path]) else None
  }

  /** The tree after renaming source to target, whatever target held before. */
  ghost function Renamed(tree: Tree, source: Path, target: Path): Tree
    requires source in tree
  {
    (tree - {source})[target := tree[source]]
  }

  lemma RenameBack(tree: Tree, source: Path, target: Path)
    requires source in tree && target !in tree
    ensures Renamed(Renamed(tree, source, target), target, source) == tree
  {
  }

  /** The three public paths of one output. */
  datatype Targets = Targets(video: Path, report: Path, frames: Path) {
    predicate Contains(path: Path) { path == video || path == report || path == frames }
  }

  /** What a reader of the three targets sees. */
  datatype Bundle = Bundle(video: Option<Node>, report: Option<Node>, frames: Option<Node>)

  ghost function Visible(tree: Tree, t: Targets): Bundle {
    Bundle(Lookup(tree, t.video), Lookup(tree, t.report), Lookup(tree, t.frames))
  }

  /** A report in place vouches for a complete bundle: all of the previous one or all of the next one. */
  datatype Promise = Promise(targets: Targets, previous: Bundle, next: Bundle) {
    ghost predicate KeptBy(tree: Tree) {
      targets.report in tree ==> Visible(tree, targets) == previous || Visible(tree, targets) == next
    }
  }

  /** Whatever becomes of one path, the promise is kept. */
  ghost predicate KeptWithout(promise: Promise, tree: Tree, path: Path) {
    forall during: Tree :: during - {path} == tree - {path} ==> promise.KeptBy(during)
  }

  lemma StillKept(promise: Promise, tree: Tree, path: Path, during: Tree)
    requires during - {path} == tree - {path}
    ensures KeptWithout(promise, tree, path) ==> promise.KeptBy(during)
  {
  }

  class Disk {
    const healthy: bool  // no operation fails that is possible
    var tree: Tree
    ghost var promise: Promise
    ghost var kept: bool  // every state since the promise was made has kept it

    /** Starts watching every state from now on. */
    ghost method Watch(promise: Promise)
      modifies this`promise, this`kept
      ensures this.promise == promise && kept == promise.KeptBy(tree)
    {
      this.promise := promise;
      kept := promise.KeptBy(tree);
    }

    method Replace(source: Path, target: Path) returns (ok: bool)
      modifies this`tree, this`kept
      ensures ok ==> source in old(tree) && tree == Renamed(old(tree), source, target) && kept == (old(kept) && promise.KeptBy(tree))
      ensures !ok ==> tree == old(tree) && kept == old(kept)
      ensures healthy && source in old(tree) && target !in old(tree) ==> ok
    {
      var lucky: bool := *;
      ok := healthy || lucky;
      if ok && source in tree && (target !in tree || (tree[source].File? && tree[target].File?)) {
        tree := (tree - {source})[target := tree[source]];
        kept := kept && promise.KeptBy(tree);
      } else {
        ok := false;
      }
    }

    /** A rename during rollback: it is assumed to succeed when it is possible at all. */
    method Restore(source: Path, target: Path)
      requires source in tree && target !in tree
      modifies this`tree, this`kept
      ensures tree == Renamed(old(tree), source, target) && kept == (old(kept) && promise.KeptBy(tree))
    {
      tree := (tree - {source})[target := tree[source]];
      kept := kept && promise.KeptBy(tree);
    }

    /** Exclusive directory creation. */
    method MakeDirectory(path: Path) returns (ok: bool)
      modifies this`tree, this`kept
      ensures ok ==> path !in old(tree) && tree == old(tree)[path := Directory(map[])] && kept == (old(kept) && promise.KeptBy(tree))
      ensures !ok ==> tree == old(tree) && kept == old(kept)
      ensures healthy && path !in old(tree) ==> ok
    {
      var lucky: bool := *;
      ok := healthy || lucky;
      if ok && path !in tree {
        tree := tree[path := Directory(map[])];
        kept := kept && promise.KeptBy(tree);
      } else {
        ok := false;
      }
    }

    /** Moves one file from one directory into another. */
    method MoveEntry(source: Path, name: string, target: Path) returns (ok: bool)
      requires source != target
      requires source in tree && tree[source].Directory? && name in tree[source].entries
      requires target in tree && tree[target].Directory?
      modifies this`tree, this`kept
      ensures ok ==>
        && tree == old(tree)[source := Directory(old(tree[source]).entries - {name})]
                            [target := Directory(old(tree[target]).entries[name := old(tree[source]).entries[name]])]
        && kept == (old(kept) && promise.KeptBy(tree))
      ensures !ok ==> tree == old(tree) && kept == old(kept)
      ensures healthy ==> ok
    {
      var lucky: bool := *;
      ok := healthy || lucky;
      if ok {
        tree := tree[source := Directory(tree[source].entries - {name})]
                    [target := Directory(tree[target].entries[name := tree[source].entries[name]])];
        kept := kept && promise.KeptBy(tree);
      }
    }

    /** Hard-link publication: fails when the target exists, and keeps the source. */
    method Link(source: Path, target: Path) returns (ok: bool)
      modifies this`tree, this`kept
      ensures ok ==> source in old(tree) && target !in old(tree)
      ensures ok ==> tree == old(tree)[target := old(tree)[source]] && kept == (old(kept) && promise.KeptBy(tree))
      ensures !ok ==> tree == old(tree) && kept == old(kept)
      ensures healthy && source in old(tree) && target !in old(tree) ==> ok
    {
      var lucky: bool := *;
      ok := healthy || lucky;
      if ok && source in tree && target !in tree {
        tree := tree[target := tree[source]];
        kept := kept && promise.KeptBy(tree);
      } else {
        ok := false;
      }
    }

    method WriteFile(path: Path, content: Content) returns (ok: bool)
      modifies this`tree, this`kept
      ensures ok ==> tree == old(tree)[path := File(content)] && kept == (old(kept) && promise.KeptBy(tree))
      ensures !ok ==> tree == old(tree) && kept == old(kept)
      ensures healthy ==> ok
    {
      var lucky: bool := *;
      ok := healthy || lucky;
      if ok {
        tree := tree[path := File(content)];
        kept := kept && promise.KeptBy(tree);
      }
    }

    method WriteEntry(directory: Path, name: string, content: Content) returns (ok: bool)
      requires directory in tree && tree[directory].Directory?
      modifies this`tree, this`kept
      ensures ok ==> tree == old(tree)[directory := Directory(old(tree[directory]).entries[name := content])]
                     && kept == (old(kept) && promise.KeptBy(tree))
      ensures !ok ==> tree == old(tree) && kept == old(kept)
      ensures healthy ==> ok
    {
      var lucky: bool := *;
      ok := healthy || lucky;
      if ok {
        tree := tree[directory := Directory(tree[directory].entries[name := content])];
        kept := kept && promise.KeptBy(tree);
      }
    }

    /** Exclusive creation of an empty file. */
    method CreateExclusive(path: Path) returns (ok: bool)
      modifies this`tree, this`kept
      ensures ok ==> path !in old(tree) && tree == old(tree)[path := File(Bytes(""))] && kept == (old(kept) && promise.KeptBy(tree))
      ensures !ok ==> tree == old(tree) && kept == old(kept)
      ensures healthy && path !in old(tree) ==> ok
    {
      var lucky: bool := *;
      ok := healthy || lucky;
      if ok && path !in tree {
        tree := tree[path := File(Bytes(""))];
        kept := kept && promise.KeptBy(tree);
      } else {
        ok := false;
      }
    }

    /** Removes a file that exists; assumed to succeed, like every step of a rollback. */
    method Unlink(path: Path)
      requires path in tree
      modifies this`tree, this`kept
      ensures tree == old(tree) - {path} && kept == (old(kept) && promise.KeptBy(tree))
    {
      tree := tree - {path};
      kept := kept && promise.KeptBy(tree);
    }

    /** Cleans up the private directory; on a disk that is not healthy any part of it may be left behind. */
    method RemovePrivate()
      modifies this`tree, this`kept
      ensures healthy ==> forall path <- tree :: path.Public?
      ensures forall path: Path :: path.Public? ==> Lookup(tree, path) == Lookup(old(tree), path)
    {
      var left: set<Path> := *;
      tree := map path | path in tree && (path.Public? || (!healthy && path in left)) :: tree[path];
      kept := kept && promise.KeptBy(tree);
    }

    /** Removes one file of a directory. */
    method RemoveEntry(path: Path, name: string)
      requires path in tree && tree[path].Directory? && name in tree[path].entries
      modifies this`tree, this`kept
      ensures path in tree && tree[path] == Directory(old(tree[path]).entries - {name})
      ensures tree - {path} == old(tree) - {path} && kept == (old(kept) && promise.KeptBy(tree))
    {
      tree := tree[path := Directory(tree[path].entries - {name})];
      kept := kept && promise.KeptBy(tree);
    }

    /** Removes a directory entry by entry; nothing outside it changes meanwhile. */
    method RemoveTree(path: Path)
      requires path in tree && tree[path].Directory?
      modifies this`tree, this`kept
      ensures tree == old(tree) - {path}
      ensures KeptWithout(promise, old(tree), path) ==> kept == old(kept)
    {
      hide KeptWithout, Promise.KeptBy;
      while tree[path].entries.Keys != {}
        invariant path in tree && tree[path].Directory?
        invariant tree - {path} == old(tree) - {path}
        invariant KeptWithout(promise, old(tree), path) ==> kept == old(kept)
        decreases |tree[path].entries.Keys|
      {
        var name :| name in tree[path].entries.Keys;
        ghost var entries := tree[path].entries;
        FewerKeys(entries, name);
        RemoveEntry(path, name);
        StillKept(promise, old(tree), path, tree);
      }
      tree := tree - {path};
      StillKept(promise, old(tree), path, tree);
      kept := kept && promise.KeptBy(tree);
    }
  }

  lemma FewerKeys(entries: map<string, Content>, name: string)
    requires name in entries
    ensures (entries - {name}).Keys == entries.Keys - {name} && |(entries - {name}).Keys| < |entries.Keys|
  {
    assert (entries - {name}).Keys == entries.Keys - {name};
  }
}
