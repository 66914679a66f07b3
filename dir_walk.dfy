/** `search_files`, the file walker shared word for word by the LinkedIn
    profile parser and the JSON-list parser, over an abstract directory
    tree. A directory lists its entries in iteration order; an entry that
    is not a file is a directory. */
module DirWalk {
  import opened Common

  datatype Node = File(name: string) | Dir(name: string, children: seq<Node>)

  /** The entries of `cs` that are files, in order: the reference for a
      walk that does not descend. */
  function DirectFiles(cs: seq<Node>): (r: seq<Node>)
    ensures forall f :: f in r <==> f in cs && f.File?
  {
    if cs == [] then [] else (if cs[0].File? then [cs[0]] else []) + DirectFiles(cs[1..])
  }

  /** What one entry adds to the list: itself if it is a file; if it is a
      directory and the walk is recursive, the files directly inside it,
      because the nested call is made without the recursive flag. */
  function Contribution(c: Node, recursive: bool): seq<Node> {
    if c.File? then [c] else if recursive then DirectFiles(c.children) else []
  }

  function Listing(cs: seq<Node>, recursive: bool): seq<Node> {
    if cs == [] then [] else Listing(cs[..|cs| - 1], recursive) + Contribution(cs[|cs| - 1], recursive)
  }

  /** search_files(directory, recursive): fails (the assertion) unless the
      argument is a directory, and otherwise collects the contributions of
      its entries in iteration order. */
  method SearchFiles(d: Node, recursive: bool) returns (r: Option<seq<Node>>)
    ensures d.File? ==> r.None?
    ensures d.Dir? ==> r == Some(Listing(d.children, recursive))
    decreases d, recursive
  {
    if d.File? {
      return None;
    }
    var fileList: seq<Node> := [];
    for i := 0 to |d.children|
      invariant fileList == Listing(d.children[..i], recursive)
    {
      var x := d.children[i];
      assert d.children[..i + 1][..i] == d.children[..i];
      if x.File? {
        fileList := fileList + [x];
      } else if recursive {
        var nested := SearchFiles(x, false);
        NonRecursiveListing(x.children);
        fileList := fileList + nested.value;
      }
    }
    assert d.children[..|d.children|] == d.children;
    return Some(fileList);
  }

  /** The loop over the command line's root directories: the lists are
      concatenated in argument order, and one root that is not a
      directory stops the script. */
  method SearchRoots(roots: seq<Node>, recursive: bool) returns (r: Option<seq<Node>>)
    ensures r.Some? <==> forall k :: 0 <= k < |roots| ==> roots[k].Dir?
    ensures r.Some? ==> r.value == RootsListing(roots, recursive)
  {
    var fileList: seq<Node> := [];
    for i := 0 to |roots|
      invariant forall k :: 0 <= k < i ==> roots[k].Dir?
      invariant fileList == RootsListing(roots[..i], recursive)
    {
      assert roots[..i + 1][..i] == roots[..i];
      var found := SearchFiles(roots[i], recursive);
      if found.None? {
        return None;
      }
      fileList := fileList + found.value;
    }
    assert roots[..|roots|] == roots;
    return Some(fileList);
  }

  function RootsListing(roots: seq<Node>, recursive: bool): seq<Node>
    requires forall k :: 0 <= k < |roots| ==> roots[k].Dir?
  {
    if roots == [] then []
    else RootsListing(roots[..|roots| - 1], recursive) + Listing(roots[|roots| - 1].children, recursive)
  }

  lemma {:induction false} DirectFilesAppend(a: seq<Node>, b: seq<Node>)
    ensures DirectFiles(a + b) == DirectFiles(a) + DirectFiles(b)
  {
    if a == [] {
      assert a + b == b;
    } else {
      assert (a + b)[1..] == a[1..] + b;
      DirectFilesAppend(a[1..], b);
    }
  }

  /** Without the flag the walk returns exactly the direct children that
      are files, in iteration order. */
  lemma {:induction false} NonRecursiveListing(cs: seq<Node>)
    ensures Listing(cs, false) == DirectFiles(cs)
  {
    if cs != [] {
      var init, last := cs[..|cs| - 1], cs[|cs| - 1];
      NonRecursiveListing(init);
      assert Listing(cs, false) == DirectFiles(init) + Contribution(last, false);
      assert DirectFiles([last]) == Contribution(last, false) by {
        assert [last][1..] == [];
      }
      assert cs == init + [last];
      DirectFilesAppend(init, [last]);
    }
  }

  /** With the flag, a file is listed exactly when it is a direct child or
      a child of a direct subdirectory: nothing deeper is ever reached. */
  lemma {:induction false} RecursiveListingMembers(cs: seq<Node>, f: Node)
    ensures f in Listing(cs, true) <==>
              f.File? && (f in cs || exists c :: c in cs && c.Dir? && f in c.children)
  {
    if cs != [] {
      var init, last := cs[..|cs| - 1], cs[|cs| - 1];
      RecursiveListingMembers(init, f);
      assert cs == init + [last];
      assert forall c :: c in cs <==> c in init || c == last;
    }
  }

  /** The directory tree cut below `depth` levels: deeper directories keep
      their name and lose their entries. */
  function Prune(n: Node, depth: nat): Node
    decreases n
  {
    match n
    case File(_) => n
    case Dir(name, cs) =>
      Dir(name, if depth == 0 then [] else seq(|cs|, i requires 0 <= i < |cs| => Prune(cs[i], depth - 1)))
  }

  lemma PruneKeepsKind(n: Node, depth: nat)
    ensures Prune(n, depth).File? <==> n.File?
    ensures n.File? ==> Prune(n, depth) == n
  {
  }

  lemma {:induction false} DirectFilesPruned(cs: seq<Node>, cs': seq<Node>)
    requires |cs| == |cs'|
    requires forall i :: 0 <= i < |cs| ==> Prune(cs[i], 0) == Prune(cs'[i], 0)
    ensures DirectFiles(cs) == DirectFiles(cs')
  {
    if cs != [] {
      PruneKeepsKind(cs[0], 0);
      PruneKeepsKind(cs'[0], 0);
      DirectFilesPruned(cs[1..], cs'[1..]);
    }
  }

  /** The recursive walk of a directory depends only on its first two
      levels: two trees that agree once everything below the second level
      is cut give the same list. */
  lemma {:induction false} RecursiveWalkDepthTwo(d: Node, d': Node)
    requires d.Dir? && d'.Dir?
    requires Prune(d, 2) == Prune(d', 2)
    ensures Listing(d.children, true) == Listing(d'.children, true)
  {
    var cs, cs' := d.children, d'.children;
    assert |cs| == |cs'| by {
      assert |Prune(d, 2).children| == |cs| && |Prune(d', 2).children| == |cs'|;
    }
    forall i | 0 <= i < |cs| ensures Prune(cs[i], 1) == Prune(cs'[i], 1) {
      assert Prune(d, 2).children[i] == Prune(d', 2).children[i];
    }
    ListingPruned(cs, cs');
  }

  lemma {:induction false} ListingPruned(cs: seq<Node>, cs': seq<Node>)
    requires |cs| == |cs'|
    requires forall i :: 0 <= i < |cs| ==> Prune(cs[i], 1) == Prune(cs'[i], 1)
    ensures Listing(cs, true) == Listing(cs', true)
  {
    if cs != [] {
      var n := |cs| - 1;
      ListingPruned(cs[..n], cs'[..n]);
      var c, c' := cs[n], cs'[n];
      PruneKeepsKind(c, 1);
      PruneKeepsKind(c', 1);
      if c.Dir? {
        var p, p' := Prune(c, 1), Prune(c', 1);
        assert |c.children| == |p.children| == |p'.children| == |c'.children|;
        forall i | 0 <= i < |c.children| ensures Prune(c.children[i], 0) == Prune(c'.children[i], 0) {
          assert p.children[i] == p'.children[i];
        }
        DirectFilesPruned(c.children, c'.children);
      }
    }
  }
}
