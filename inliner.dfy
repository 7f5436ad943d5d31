/** The recursive include inliner shared by both plugins (`inlineNodes`),
    parameterised by the marker tag. `Expand` is its specification, a
    flat-map over a child list; `InlineNodes` is the source's splice loop,
    proved to compute it. */
module Inliner {
  import opened Paths
  import opened Html

  /** The attribute a marker names its file with. */
  const SrcAttr := "src"

  /** `fs.readFileSync` followed by `parseFragment`: the fragment's child list
      for every readable file. A path without an entry cannot be read. */
  type FileSystem = map<Path, seq<Node>>

  /** A value, or the circular-include error with its chain of files. */
  datatype Outcome<T> = Ok(value: T) | Cycle(chain: seq<Path>)

  /** An element with the marker tag and a `src` attribute (of any value). */
  predicate IsMarker(tag: string, n: Node) {
    n.Element? && n.tag == tag && FindAttr(n.attrs, SrcAttr).Some?
  }

  function MarkerSrc(tag: string, n: Node): string
    requires IsMarker(tag, n)
  {
    FindAttr(n.attrs, SrcAttr).value
  }

  /** A tree in which no marker is left, at any depth. */
  predicate Clean(tag: string, n: Node)
    decreases n
  {
    && !IsMarker(tag, n)
    && (n.Element? ==> forall i :: 0 <= i < |n.children| ==> Clean(tag, n.children[i]))
  }

  predicate AllClean(tag: string, ns: seq<Node>) {
    forall i :: 0 <= i < |ns| ==> Clean(tag, ns[i])
  }

  predicate NoDuplicates(ps: seq<Path>) {
    forall i, j :: 0 <= i < j < |ps| ==> ps[i] != ps[j]
  }

  /** Readable files not yet on the include chain: what bounds the depth. */
  function Unread(fs: FileSystem, visited: seq<Path>): nat {
    |fs.Keys - set p | p in visited|
  }

  lemma UnreadShrinks(fs: FileSystem, visited: seq<Path>, p: Path)
    requires p in fs && p !in visited
    ensures Unread(fs, visited + [p]) < Unread(fs, visited)
  {
    var before := fs.Keys - set q | q in visited;
    var after := fs.Keys - set q | q in visited + [p];
    assert before == after + {p};
  }

  /** Sequencing of two results, the first error winning (it is thrown first). */
  function Then(a: Outcome<seq<Node>>, b: Outcome<seq<Node>>): Outcome<seq<Node>> {
    if a.Cycle? then a else if b.Cycle? then b else Ok(a.value + b.value)
  }

  lemma ThenOk(a: seq<Node>, b: seq<Node>, c: Outcome<seq<Node>>)
    ensures Then(Ok(a), Then(Ok(b), c)) == Then(Ok(a + b), c)
  {
    if c.Ok? {
      assert a + (b + c.value) == a + b + c.value;
    }
  }

  /** The expansion of one node found in a file of directory `baseDir`,
      with `visited` the chain of included files above it. A marker becomes
      the expansion of its file's fragment, from the file's own directory and
      with the file added to the chain; it becomes nothing when the file
      cannot be read, and an error when the file is already on the chain.
      Any other element keeps its place with its children expanded; a leaf
      stays as it is. */
  function ExpandNode(tag: string, fs: FileSystem, baseDir: Path, visited: seq<Path>, node: Node): Outcome<seq<Node>>
    decreases Unread(fs, visited), NodeSize(node), 0
  {
    if IsMarker(tag, node) then
      var srcPath := Resolve(baseDir, MarkerSrc(tag, node));
      if srcPath in visited then Cycle(visited + [srcPath])
      else if srcPath !in fs then Ok([])
      else
        UnreadShrinks(fs, visited, srcPath);
        Expand(tag, fs, Dirname(srcPath), visited + [srcPath], fs[srcPath])
    else if node.Element? then
      assert ForestSize(node.children) < NodeSize(node);
      var inner := Expand(tag, fs, baseDir, visited, node.children);
      if inner.Cycle? then inner else Ok([node.(children := inner.value)])
    else
      Ok([node])
  }

  /** The expansion of a child list: the flat-map of ExpandNode over it, the
      first error in document order winning. */
  function Expand(tag: string, fs: FileSystem, baseDir: Path, visited: seq<Path>, nodes: seq<Node>): Outcome<seq<Node>>
    decreases Unread(fs, visited), ForestSize(nodes), 1
  {
    if nodes == [] then Ok([])
    else Then(ExpandNode(tag, fs, baseDir, visited, nodes[0]), Expand(tag, fs, baseDir, visited, nodes[1..]))
  }

  /** `inlineNodes(parent, baseDir, visited)` on `parent.childNodes`: walks the
      list with an index, splicing out unreadable markers (`i--`) and splicing
      in expanded fragments (`i += n - 1`), and returns the new list. */
  method InlineNodes(tag: string, fs: FileSystem, baseDir: Path, visited: seq<Path>, nodes: seq<Node>)
    returns (r: Outcome<seq<Node>>)
    ensures r == Expand(tag, fs, baseDir, visited, nodes)
    decreases Unread(fs, visited), ForestSize(nodes)
  {
    var children := nodes;
    var i: int := 0;
    ghost var k := 0;
    assert children[..0] == [] && nodes[0..] == nodes;
    assert forall v: seq<Node> :: [] + v == v;
    while i < |children|
      invariant 0 <= i <= |children| && 0 <= k <= |nodes|
      invariant children[i..] == nodes[k..]
      invariant Expand(tag, fs, baseDir, visited, nodes)
                == Then(Ok(children[..i]), Expand(tag, fs, baseDir, visited, nodes[k..]))
      decreases |children| - i
    {
      var node := children[i];
      assert nodes[k..][0] == node && nodes[k..][1..] == nodes[k + 1..];
      ghost var rest := Expand(tag, fs, baseDir, visited, nodes[k + 1..]);
      assert Expand(tag, fs, baseDir, visited, nodes[k..])
             == Then(ExpandNode(tag, fs, baseDir, visited, node), rest);
      if IsMarker(tag, node) {
        var srcPath := Resolve(baseDir, MarkerSrc(tag, node));
        if srcPath in visited {
          return Cycle(visited + [srcPath]);
        }
        if srcPath !in fs {
          // could not read: drop the marker and look at the same index again
          ghost var done := children[..i];
          children := children[..i] + children[i + 1..];
          assert children[..i] == done + [] && children[i..] == nodes[k + 1..];
          ThenOk(done, [], rest);
          i := i - 1;
        } else {
          UnreadShrinks(fs, visited, srcPath);
          var frag := InlineNodes(tag, fs, Dirname(srcPath), visited + [srcPath], fs[srcPath]);
          if frag.Cycle? {
            return frag;
          }
          // replace the marker by the expanded fragment and step over it
          ghost var done := children[..i];
          ghost var after := children[i + 1..];
          children := children[..i] + frag.value + children[i + 1..];
          assert children[..i + |frag.value|] == done + frag.value;
          assert children[i + |frag.value|..] == after;
          ThenOk(done, frag.value, rest);
          i := i + |frag.value| - 1;
        }
      } else if node.Element? {
        NodeSizeAt(nodes, k);
        var inner := InlineNodes(tag, fs, baseDir, visited, node.children);
        if inner.Cycle? {
          return inner;
        }
        ghost var done := children[..i];
        children := children[i := node.(children := inner.value)];
        assert children[..i + 1] == done + [node.(children := inner.value)];
        ThenOk(done, [node.(children := inner.value)], rest);
      } else {
        assert children[..i + 1] == children[..i] + [node];
        ThenOk(children[..i], [node], rest);
      }
      i := i + 1;
      k := k + 1;
    }
    assert children[..i] == children && k == |nodes|;
    assert children + [] == children;
    return Ok(children);
  }

  // ---------------------------------------------------------------------------
  // Properties of the expansion

  lemma ThenAssoc(x: Outcome<seq<Node>>, y: Outcome<seq<Node>>, z: Outcome<seq<Node>>)
    ensures Then(x, Then(y, z)) == Then(Then(x, y), z)
  {
    if x.Ok? && y.Ok? && z.Ok? {
      assert x.value + (y.value + z.value) == x.value + y.value + z.value;
    }
  }

  /** The expansion is a flat-map: a list expands piecewise, and the first
      error, in document order, is the one reported. */
  lemma {:induction false} ExpandAppend(tag: string, fs: FileSystem, baseDir: Path, visited: seq<Path>,
                                        a: seq<Node>, b: seq<Node>)
    ensures Expand(tag, fs, baseDir, visited, a + b)
            == Then(Expand(tag, fs, baseDir, visited, a), Expand(tag, fs, baseDir, visited, b))
    decreases |a|
  {
    if a == [] {
      assert a + b == b;
      assert forall v: seq<Node> :: [] + v == v;
    } else {
      assert (a + b)[0] == a[0] && (a + b)[1..] == a[1..] + b;
      ExpandAppend(tag, fs, baseDir, visited, a[1..], b);
      ThenAssoc(ExpandNode(tag, fs, baseDir, visited, a[0]),
                Expand(tag, fs, baseDir, visited, a[1..]), Expand(tag, fs, baseDir, visited, b));
    }
  }

  /** A list without markers comes out as it went in, whatever the files,
      the base directory and the chain. */
  lemma {:induction false} ExpandClean(tag: string, fs: FileSystem, baseDir: Path, visited: seq<Path>, nodes: seq<Node>)
    requires AllClean(tag, nodes)
    ensures Expand(tag, fs, baseDir, visited, nodes) == Ok(nodes)
    decreases ForestSize(nodes)
  {
    if nodes != [] {
      var node := nodes[0];
      assert Clean(tag, node);
      assert AllClean(tag, nodes[1..]) by {
        forall i | 0 <= i < |nodes[1..]| ensures Clean(tag, nodes[1..][i]) {
          assert nodes[1..][i] == nodes[i + 1];
        }
      }
      ExpandClean(tag, fs, baseDir, visited, nodes[1..]);
      if node.Element? {
        assert ForestSize(node.children) < NodeSize(node);
        ExpandClean(tag, fs, baseDir, visited, node.children);
        assert node.(children := node.children) == node;
      }
      assert ExpandNode(tag, fs, baseDir, visited, node) == Ok([node]);
      assert [node] + nodes[1..] == nodes;
    }
  }

  /** What a successful expansion returns holds no marker at any depth. */
  lemma {:induction false} ExpandYieldsClean(tag: string, fs: FileSystem, baseDir: Path, visited: seq<Path>,
                                             nodes: seq<Node>)
    requires Expand(tag, fs, baseDir, visited, nodes).Ok?
    ensures AllClean(tag, Expand(tag, fs, baseDir, visited, nodes).value)
    decreases Unread(fs, visited), ForestSize(nodes)
  {
    if nodes != [] {
      var node := nodes[0];
      var here := ExpandNode(tag, fs, baseDir, visited, node);
      var rest := Expand(tag, fs, baseDir, visited, nodes[1..]);
      ExpandYieldsClean(tag, fs, baseDir, visited, nodes[1..]);
      if IsMarker(tag, node) {
        var srcPath := Resolve(baseDir, MarkerSrc(tag, node));
        if srcPath in fs {
          UnreadShrinks(fs, visited, srcPath);
          ExpandYieldsClean(tag, fs, Dirname(srcPath), visited + [srcPath], fs[srcPath]);
        }
      } else if node.Element? {
        assert ForestSize(node.children) < NodeSize(node);
        var inner := Expand(tag, fs, baseDir, visited, node.children);
        ExpandYieldsClean(tag, fs, baseDir, visited, node.children);
        assert Clean(tag, node.(children := inner.value));
      }
      AllCleanConcat(tag, here.value, rest.value);
    }
  }

  lemma AllCleanConcat(tag: string, a: seq<Node>, b: seq<Node>)
    requires AllClean(tag, a) && AllClean(tag, b)
    ensures AllClean(tag, a + b)
  {
    forall i | 0 <= i < |a + b| ensures Clean(tag, (a + b)[i]) {
      if i < |a| { assert (a + b)[i] == a[i]; } else { assert (a + b)[i] == b[i - |a|]; }
    }
  }

  /** Inlining is idempotent: expanding an expanded list again, with any
      files, base directory and chain, changes nothing. */
  lemma ExpandIdempotent(tag: string, fs: FileSystem, baseDir: Path, visited: seq<Path>, nodes: seq<Node>,
                         fs': FileSystem, baseDir': Path, visited': seq<Path>)
    requires Expand(tag, fs, baseDir, visited, nodes).Ok?
    ensures var out := Expand(tag, fs, baseDir, visited, nodes).value;
            Expand(tag, fs', baseDir', visited', out) == Ok(out)
  {
    ExpandYieldsClean(tag, fs, baseDir, visited, nodes);
    ExpandClean(tag, fs', baseDir', visited', Expand(tag, fs, baseDir, visited, nodes).value);
  }

  /** `c` is a circular-include chain below `visited`: it starts with
      `visited`, lists each file on the include path once, in order, each of
      the added ones readable, and ends with a file already on it. */
  ghost predicate CycleChainBelow(fs: FileSystem, visited: seq<Path>, c: seq<Path>) {
    && visited < c
    && NoDuplicates(c[..|c| - 1])
    && c[|c| - 1] in c[..|c| - 1]
    && forall i :: |visited| <= i < |c| - 1 ==> c[i] in fs
  }

  lemma CycleChainHere(fs: FileSystem, visited: seq<Path>, p: Path)
    requires NoDuplicates(visited) && p in visited
    ensures CycleChainBelow(fs, visited, visited + [p])
  {
    assert (visited + [p])[..|visited|] == visited;
  }

  lemma CycleChainExtend(fs: FileSystem, visited: seq<Path>, p: Path, c: seq<Path>)
    requires p in fs && p !in visited
    requires CycleChainBelow(fs, visited + [p], c)
    ensures CycleChainBelow(fs, visited, c)
  {
    assert c[|visited|] == (visited + [p])[|visited|];
  }

  /** A circular-include error reports a real cycle (see CycleChainBelow);
      with the empty chain of the page this is: no file is ever entered twice
      along one include path. */
  lemma {:induction false} CycleChain(tag: string, fs: FileSystem, baseDir: Path, visited: seq<Path>, nodes: seq<Node>)
    requires NoDuplicates(visited)
    requires Expand(tag, fs, baseDir, visited, nodes).Cycle?
    ensures CycleChainBelow(fs, visited, Expand(tag, fs, baseDir, visited, nodes).chain)
    decreases Unread(fs, visited), ForestSize(nodes)
  {
    var node := nodes[0];
    if ExpandNode(tag, fs, baseDir, visited, node).Ok? {
      CycleChain(tag, fs, baseDir, visited, nodes[1..]);
    } else if IsMarker(tag, node) {
      var srcPath := Resolve(baseDir, MarkerSrc(tag, node));
      if srcPath in visited {
        CycleChainHere(fs, visited, srcPath);
      } else {
        var frag := Expand(tag, fs, Dirname(srcPath), visited + [srcPath], fs[srcPath]);
        UnreadShrinks(fs, visited, srcPath);
        assert NoDuplicates(visited + [srcPath]);
        CycleChain(tag, fs, Dirname(srcPath), visited + [srcPath], fs[srcPath]);
        CycleChainExtend(fs, visited, srcPath, frag.chain);
      }
    } else {
      assert ForestSize(node.children) < NodeSize(node);
      CycleChain(tag, fs, baseDir, visited, node.children);
    }
  }

  // ---------------------------------------------------------------------------
  // One marker, or one other node, among its siblings

  lemma SplitAround(tag: string, fs: FileSystem, baseDir: Path, visited: seq<Path>,
                    before: seq<Node>, n: Node, after: seq<Node>)
    ensures Expand(tag, fs, baseDir, visited, before + [n] + after)
            == Then(Expand(tag, fs, baseDir, visited, before), Expand(tag, fs, baseDir, visited, [n] + after))
  {
    assert before + [n] + after == before + ([n] + after);
    ExpandAppend(tag, fs, baseDir, visited, before, [n] + after);
  }

  /** A marker whose file is already on the chain fails the expansion with
      the chain extended by that file, unless an earlier sibling failed first. */
  lemma MarkerOnChainFails(tag: string, fs: FileSystem, baseDir: Path, visited: seq<Path>,
                           before: seq<Node>, m: Node, after: seq<Node>)
    requires IsMarker(tag, m) && Resolve(baseDir, MarkerSrc(tag, m)) in visited
    ensures Expand(tag, fs, baseDir, visited, before + [m] + after)
            == Then(Expand(tag, fs, baseDir, visited, before),
                    Cycle(visited + [Resolve(baseDir, MarkerSrc(tag, m))]))
  {
    SplitAround(tag, fs, baseDir, visited, before, m, after);
    assert ([m] + after)[0] == m;
  }

  /** A marker whose file cannot be read is removed: the siblings keep their
      order and the one after it is expanded as if the marker never was. */
  lemma UnreadableMarkerDropped(tag: string, fs: FileSystem, baseDir: Path, visited: seq<Path>,
                                before: seq<Node>, m: Node, after: seq<Node>)
    requires IsMarker(tag, m)
    requires Resolve(baseDir, MarkerSrc(tag, m)) !in visited
    requires Resolve(baseDir, MarkerSrc(tag, m)) !in fs
    ensures Expand(tag, fs, baseDir, visited, before + [m] + after)
            == Expand(tag, fs, baseDir, visited, before + after)
  {
    SplitAround(tag, fs, baseDir, visited, before, m, after);
    assert ([m] + after)[0] == m && ([m] + after)[1..] == after;
    assert forall v: seq<Node> :: [] + v == v;
    ExpandAppend(tag, fs, baseDir, visited, before, after);
  }

  /** An empty `src` is not special: it names the base directory itself,
      which is no readable file, so the marker is dropped. */
  lemma EmptySrcDropped(tag: string, fs: FileSystem, baseDir: Path, visited: seq<Path>,
                        before: seq<Node>, m: Node, after: seq<Node>)
    requires Normalized(baseDir) && baseDir !in visited && baseDir !in fs
    requires IsMarker(tag, m) && MarkerSrc(tag, m) == ""
    ensures Expand(tag, fs, baseDir, visited, before + [m] + after)
            == Expand(tag, fs, baseDir, visited, before + after)
  {
    assert Resolve(baseDir, MarkerSrc(tag, m)) == baseDir;
    UnreadableMarkerDropped(tag, fs, baseDir, visited, before, m, after);
  }

  /** A marker whose file can be read is replaced, at its place, by that
      file's fragment expanded from the file's own directory with the file
      added to the chain; the fragment is not expanded again, and the
      expansion goes on with the sibling that followed the marker. */
  lemma ReadableMarkerSpliced(tag: string, fs: FileSystem, baseDir: Path, visited: seq<Path>,
                              before: seq<Node>, m: Node, after: seq<Node>)
    requires IsMarker(tag, m)
    requires Resolve(baseDir, MarkerSrc(tag, m)) !in visited
    requires Resolve(baseDir, MarkerSrc(tag, m)) in fs
    ensures var p := Resolve(baseDir, MarkerSrc(tag, m));
            Expand(tag, fs, baseDir, visited, before + [m] + after)
            == Then(Expand(tag, fs, baseDir, visited, before),
                    Then(Expand(tag, fs, Dirname(p), visited + [p], fs[p]),
                         Expand(tag, fs, baseDir, visited, after)))
  {
    SplitAround(tag, fs, baseDir, visited, before, m, after);
    assert ([m] + after)[0] == m && ([m] + after)[1..] == after;
  }

  /** Any other element (a marker without `src` included) stays at its place
      with its children expanded from the same directory and the same chain. */
  lemma ElementExpandedInPlace(tag: string, fs: FileSystem, baseDir: Path, visited: seq<Path>,
                               before: seq<Node>, e: Node, after: seq<Node>)
    requires e.Element? && !IsMarker(tag, e)
    ensures var inner := Expand(tag, fs, baseDir, visited, e.children);
            Expand(tag, fs, baseDir, visited, before + [e] + after)
            == Then(Expand(tag, fs, baseDir, visited, before),
                    Then(if inner.Cycle? then inner else Ok([Element(e.tag, e.attrs, inner.value)]),
                         Expand(tag, fs, baseDir, visited, after)))
  {
    SplitAround(tag, fs, baseDir, visited, before, e, after);
    assert ([e] + after)[0] == e && ([e] + after)[1..] == after;
  }

  /** A text, comment or doctype node is kept as it is, at its place. */
  lemma LeafKept(tag: string, fs: FileSystem, baseDir: Path, visited: seq<Path>,
                 before: seq<Node>, leaf: Node, after: seq<Node>)
    requires leaf.Leaf?
    ensures Expand(tag, fs, baseDir, visited, before + [leaf] + after)
            == Then(Expand(tag, fs, baseDir, visited, before),
                    Then(Ok([leaf]), Expand(tag, fs, baseDir, visited, after)))
  {
    SplitAround(tag, fs, baseDir, visited, before, leaf, after);
    assert ([leaf] + after)[0] == leaf && ([leaf] + after)[1..] == after;
  }

  /** The chain is per include path, not global: one file included by two
      sibling markers is expanded twice, without error. */
  lemma SiblingReinclusion(tag: string, fs: FileSystem, baseDir: Path, visited: seq<Path>, m1: Node, m2: Node)
    requires IsMarker(tag, m1) && IsMarker(tag, m2)
    requires Resolve(baseDir, MarkerSrc(tag, m1)) == Resolve(baseDir, MarkerSrc(tag, m2))
    requires var p := Resolve(baseDir, MarkerSrc(tag, m1));
             p !in visited && p in fs && Expand(tag, fs, Dirname(p), visited + [p], fs[p]).Ok?
    ensures var p := Resolve(baseDir, MarkerSrc(tag, m1));
            var f := Expand(tag, fs, Dirname(p), visited + [p], fs[p]).value;
            Expand(tag, fs, baseDir, visited, [m1, m2]) == Ok(f + f)
  {
    var p := Resolve(baseDir, MarkerSrc(tag, m1));
    var f := Expand(tag, fs, Dirname(p), visited + [p], fs[p]).value;
    ReadableMarkerSpliced(tag, fs, baseDir, visited, [], m2, []);
    ReadableMarkerSpliced(tag, fs, baseDir, visited, [], m1, [m2]);
    assert [] + [m2] + [] == [m2] && [] + [m1] + [m2] == [m1, m2];
    assert f + [] == f;
  }

  /** A page that includes `a` from its directory, where `a` includes `b` and
      `b` includes `a` again, fails with the chain a, b, a. */
  lemma MutualIncludeCycle(tag: string, dir: Path, a: string, b: string, fs: FileSystem,
                           ma: Node, mb: Node)
    requires Normalized(dir) && IsName(a) && IsName(b) && a != b
    requires IsMarker(tag, ma) && MarkerSrc(tag, ma) == a
    requires IsMarker(tag, mb) && MarkerSrc(tag, mb) == b
    requires Path(dir.segments + [a]) in fs && fs[Path(dir.segments + [a])] == [mb]
    requires Path(dir.segments + [b]) in fs && fs[Path(dir.segments + [b])] == [ma]
    ensures var pa, pb := Path(dir.segments + [a]), Path(dir.segments + [b]);
            Expand(tag, fs, dir, [], [ma]) == Cycle([pa, pb, pa])
  {
    var pa, pb := Path(dir.segments + [a]), Path(dir.segments + [b]);
    ResolveName(dir, a);
    ResolveName(dir, b);
    assert pa != pb by {
      assert pa.segments[|dir.segments|] == a;
    }
    ReadableMarkerSpliced(tag, fs, dir, [pa], [], mb, []);
    MarkerOnChainFails(tag, fs, dir, [pa, pb], [], ma, []);
    assert [pa] + [pb] == [pa, pb] && [] + [ma] + [] == [ma] && [] + [mb] + [] == [mb];
    ReadableMarkerSpliced(tag, fs, dir, [], [], ma, []);
    assert [] + [pa] == [pa];
  }
}
