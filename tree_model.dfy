/**
 * The data model of the file tree: nodes, index paths into a forest, the
 * pre-order list of ids, and the depth-first, pre-order search that every
 * lookup of src/utils/treeUtils.js performs.
 */
module TreeModel {
  import opened Wrappers

  /** A file or a folder. Only folders own children; files are leaves. */
  datatype Node =
    | File(id: string, name: string, content: string)
    | Folder(id: string, name: string, isOpen: bool, children: seq<Node>)

  /** The tree: the ordered sequence of root-level nodes. */
  type Forest = seq<Node>

  /**
   * A position in a forest: p[0] indexes the root sequence, every later entry
   * indexes the children of the folder reached so far. This is what a reference
   * returned by `findNodeById` into the cloned tree stands for.
   */
  type Path = seq<nat>

  /** The node's own fields, without its subtree. */
  function Label(n: Node): Node
  {
    if n.Folder? then n.(children := []) else n
  }

  /** The ids of a forest in depth-first pre-order. */
  function Ids(nodes: seq<Node>): seq<string>
    decreases nodes
  {
    if nodes == [] then []
    else [nodes[0].id] + (if nodes[0].Folder? then Ids(nodes[0].children) else []) + Ids(nodes[1..])
  }

  /** The ids of a node and of all its descendants, in pre-order. */
  function SubtreeIds(n: Node): seq<string>
  {
    [n.id] + (if n.Folder? then Ids(n.children) else [])
  }

  /** No id occurs twice. */
  ghost predicate Distinct(s: seq<string>)
  {
    forall x :: multiset(s)[x] <= 1
  }

  /** The tree invariant: every id is unique across the whole forest. */
  ghost predicate UniqueIds(tree: Forest)
  {
    Distinct(Ids(tree))
  }

  predicate ValidPath(nodes: seq<Node>, p: Path)
    decreases p
  {
    |p| > 0 && p[0] < |nodes| &&
    (|p| > 1 ==> nodes[p[0]].Folder? && ValidPath(nodes[p[0]].children, p[1..]))
  }

  function NodeAt(nodes: seq<Node>, p: Path): Node
    requires ValidPath(nodes, p)
    decreases p
  {
    if |p| == 1 then nodes[p[0]] else NodeAt(nodes[p[0]].children, p[1..])
  }

  /** The node at `p` together with its parent folder (`None` for a root), as the finders report it. */
  function ParentAt(nodes: seq<Node>, p: Path, parent: Option<Node>): Option<Node>
    requires ValidPath(nodes, p)
    decreases p
  {
    if |p| == 1 then parent else ParentAt(nodes[p[0]].children, p[1..], Some(nodes[p[0]]))
  }

  /** The ids met walking from a root down to the node at `p`, both ends included. */
  function IdsAlong(nodes: seq<Node>, p: Path): seq<string>
    requires ValidPath(nodes, p)
    decreases p
  {
    [nodes[p[0]].id] + (if |p| == 1 then [] else IdsAlong(nodes[p[0]].children, p[1..]))
  }

  /** The forest with the node at `p` replaced by `n` (an in-place edit through a found reference). */
  function ReplaceAt(nodes: seq<Node>, p: Path, n: Node): seq<Node>
    requires ValidPath(nodes, p)
    decreases p
  {
    if |p| == 1 then nodes[p[0] := n]
    else nodes[p[0] := nodes[p[0]].(children := ReplaceAt(nodes[p[0]].children, p[1..], n))]
  }

  /** The forest with the node at `p` and its subtree spliced out. */
  function RemoveAt(nodes: seq<Node>, p: Path): seq<Node>
    requires ValidPath(nodes, p)
    decreases p
  {
    if |p| == 1 then nodes[..p[0]] + nodes[p[0] + 1..]
    else nodes[p[0] := nodes[p[0]].(children := RemoveAt(nodes[p[0]].children, p[1..]))]
  }

  /**
   * The depth-first, pre-order search of the finders: scan `nodes` from index
   * `i`; a node whose id matches wins, otherwise a folder's children are
   * searched before its next sibling. Returns the path of the first match.
   */
  function LocateFrom(nodes: seq<Node>, id: string, i: nat): (r: Option<Path>)
    ensures r.Some? ==> ValidPath(nodes, r.value) && i <= r.value[0] && NodeAt(nodes, r.value).id == id
    decreases nodes, |nodes| - i
  {
    if i >= |nodes| then None
    else if nodes[i].id == id then Some([i])
    else
      var inner := if nodes[i].Folder? then LocateFrom(nodes[i].children, id, 0) else None;
      if inner.Some? then Some([i] + inner.value) else LocateFrom(nodes, id, i + 1)
  }

  /** The path of the first node carrying `id` in pre-order, when there is one. */
  function Locate(nodes: seq<Node>, id: string): (r: Option<Path>)
    ensures r.None? <==> id !in Ids(nodes)
    ensures r.Some? ==> ValidPath(nodes, r.value) && NodeAt(nodes, r.value).id == id
    ensures r.Some? ==> FirstMatch(nodes, r.value, id)
  {
    LocateFromSpec(nodes, id, 0);
    assert nodes[0..] == nodes && nodes[..0] == [];
    LocateFrom(nodes, id, 0)
  }

  /**
   * `p` leads to the first node with this id in pre-order: no earlier sibling
   * subtree holds the id and no ancestor on the way carries it.
   */
  predicate FirstMatch(nodes: seq<Node>, p: Path, id: string)
    decreases p
  {
    |p| > 0 && p[0] < |nodes| && id !in Ids(nodes[..p[0]]) &&
    if |p| == 1 then nodes[p[0]].id == id
    else nodes[p[0]].id != id && nodes[p[0]].Folder? && FirstMatch(nodes[p[0]].children, p[1..], id)
  }

  // ---------------------------------------------------------------------------
  // Pre-order ids
  // ---------------------------------------------------------------------------

  lemma {:induction false} IdsConcat(a: seq<Node>, b: seq<Node>)
    ensures Ids(a + b) == Ids(a) + Ids(b)
    decreases a
  {
    if a == [] {
      assert a + b == b;
    } else {
      assert (a + b)[0] == a[0];
      assert (a + b)[1..] == a[1..] + b;
      IdsConcat(a[1..], b);
    }
  }

  /** The ids of a non-empty forest: the first subtree, then the rest. */
  lemma IdsCons(s: seq<Node>)
    requires s != []
    ensures Ids(s) == SubtreeIds(s[0]) + Ids(s[1..])
  {
  }

  /** The ids of a forest are those before `i`, then the subtree at `i`, then those after it. */
  lemma IdsSplit(nodes: seq<Node>, i: nat)
    requires i < |nodes|
    ensures Ids(nodes) == Ids(nodes[..i]) + SubtreeIds(nodes[i]) + Ids(nodes[i + 1..])
    ensures Ids(nodes[i..]) == SubtreeIds(nodes[i]) + Ids(nodes[i + 1..])
  {
    var a, b := nodes[..i], nodes[i..];
    assert nodes == a + b;
    IdsConcat(a, b);
    assert b[0] == nodes[i] && b[1..] == nodes[i + 1..];
    IdsCons(b);
  }

  lemma DistinctSplit(a: seq<string>, b: seq<string>)
    requires Distinct(a + b)
    ensures Distinct(a) && Distinct(b)
    ensures forall x :: x in a ==> x !in b
  {
    assert multiset(a + b) == multiset(a) + multiset(b);
    forall x | x in a ensures x !in b {
      assert multiset(a + b)[x] == multiset(a)[x] + multiset(b)[x];
    }
    forall x ensures multiset(a)[x] <= 1 && multiset(b)[x] <= 1 {
      assert multiset(a + b)[x] == multiset(a)[x] + multiset(b)[x];
    }
  }

  /** The id of the node at a path belongs to the subtree of the root the path starts from. */
  lemma {:induction false} IdAtPathInSubtree(nodes: seq<Node>, p: Path)
    requires ValidPath(nodes, p)
    ensures NodeAt(nodes, p).id in SubtreeIds(nodes[p[0]])
    ensures NodeAt(nodes, p).id in Ids(nodes)
    decreases p
  {
    if |p| > 1 {
      IdAtPathInSubtree(nodes[p[0]].children, p[1..]);
    }
    IdsSplit(nodes, p[0]);
  }

  // ---------------------------------------------------------------------------
  // The pre-order search
  // ---------------------------------------------------------------------------

  /** The ids of a prefix one node longer. */
  lemma IdsPrefixStep(nodes: seq<Node>, i: nat)
    requires i < |nodes|
    ensures Ids(nodes[..i + 1]) == Ids(nodes[..i]) + SubtreeIds(nodes[i])
  {
    assert nodes[..i + 1] == nodes[..i] + [nodes[i]];
    IdsConcat(nodes[..i], [nodes[i]]);
    IdsCons([nodes[i]]);
    assert Ids([nodes[i]]) == SubtreeIds(nodes[i]);
  }

  /** The ids of a non-empty slice: its first node's subtree, then the rest. */
  lemma IdsRangeStep(nodes: seq<Node>, i: nat, j: nat)
    requires i < j <= |nodes|
    ensures Ids(nodes[i..j]) == SubtreeIds(nodes[i]) + Ids(nodes[i + 1..j])
  {
    IdsCons(nodes[i..j]);
    assert nodes[i..j][0] == nodes[i];
    assert nodes[i..j][1..] == nodes[i + 1..j];
  }

  /**
   * The search from index `i` fails exactly when the id does not occur in
   * `nodes[i..]`; when it succeeds, no node it skipped carries the id, so the
   * path it returns is the first pre-order match.
   */
  lemma {:induction false} LocateFromSpec(nodes: seq<Node>, id: string, i: nat)
    requires i <= |nodes|
    ensures LocateFrom(nodes, id, i).None? <==> id !in Ids(nodes[i..])
    ensures LocateFrom(nodes, id, i).Some? ==>
              var p := LocateFrom(nodes, id, i).value;
              |p| > 0 && i <= p[0] < |nodes| && id !in Ids(nodes[i..p[0]]) &&
              (id !in Ids(nodes[..i]) ==> FirstMatch(nodes, p, id))
    decreases nodes, |nodes| - i
  {
    if i == |nodes| {
      assert nodes[i..] == [];
    } else {
      IdsSplit(nodes, i);
      assert nodes[i..i] == [];
      if nodes[i].id == id {
      } else {
        var inner := if nodes[i].Folder? then LocateFrom(nodes[i].children, id, 0) else None;
        if nodes[i].Folder? {
          LocateFromSpec(nodes[i].children, id, 0);
          assert nodes[i].children[0..] == nodes[i].children;
          assert nodes[i].children[..0] == [];
        }
        if inner.Some? {
          var p := [i] + inner.value;
          assert p[0] == i && p[1..] == inner.value;
        } else {
          LocateFromSpec(nodes, id, i + 1);
          IdsPrefixStep(nodes, i);
          if LocateFrom(nodes, id, i + 1).Some? {
            IdsRangeStep(nodes, i, LocateFrom(nodes, id, i + 1).value[0]);
          }
        }
      }
    }
  }

  /** A first match leads to a node carrying the id. */
  lemma {:induction false} FirstMatchValid(nodes: seq<Node>, p: Path, id: string)
    requires FirstMatch(nodes, p, id)
    ensures ValidPath(nodes, p) && NodeAt(nodes, p).id == id
    decreases p
  {
    if |p| > 1 {
      FirstMatchValid(nodes[p[0]].children, p[1..], id);
    }
  }

  /** There is only one first match. */
  lemma {:induction false} FirstMatchUnique(nodes: seq<Node>, p: Path, q: Path, id: string)
    requires FirstMatch(nodes, p, id) && FirstMatch(nodes, q, id)
    ensures p == q
    decreases p
  {
    assert p[0] == q[0] by {
      FirstMatchBefore(nodes, p, q, id);
      FirstMatchBefore(nodes, q, p, id);
    }
    if |p| > 1 && |q| > 1 {
      FirstMatchUnique(nodes[p[0]].children, p[1..], q[1..], id);
      assert p == [p[0]] + p[1..] && q == [q[0]] + q[1..];
    }
  }

  /** A first match does not start in a subtree before another first match's. */
  lemma FirstMatchBefore(nodes: seq<Node>, p: Path, q: Path, id: string)
    requires FirstMatch(nodes, p, id) && FirstMatch(nodes, q, id)
    ensures q[0] <= p[0]
  {
    if p[0] < q[0] {
      FirstMatchValid(nodes, p, id);
      IdAtPathInSubtree(nodes, p);
      IdsSplit(nodes[..q[0]], p[0]);
      assert false;
    }
  }

  lemma DistinctMiddle(a: seq<string>, s: seq<string>, b: seq<string>)
    requires Distinct(a + s + b)
    ensures Distinct(s)
    ensures forall x :: x in s ==> x !in a
  {
    assert a + s + b == a + (s + b);
    DistinctSplit(a, s + b);
    DistinctSplit(s, b);
  }

  /** In a forest with unique ids, every path is the first match of the id it leads to. */
  lemma {:induction false} UniqueFirstMatch(nodes: seq<Node>, q: Path)
    requires Distinct(Ids(nodes)) && ValidPath(nodes, q)
    ensures FirstMatch(nodes, q, NodeAt(nodes, q).id)
    decreases q
  {
    var id := NodeAt(nodes, q).id;
    var root := nodes[q[0]];
    assert id in SubtreeIds(root) by {
      IdAtPathInSubtree(nodes, q);
    }
    assert id !in Ids(nodes[..q[0]]) && Distinct(SubtreeIds(root)) by {
      IdsSplit(nodes, q[0]);
      DistinctMiddle(Ids(nodes[..q[0]]), SubtreeIds(root), Ids(nodes[q[0] + 1..]));
    }
    if |q| > 1 {
      assert id == NodeAt(root.children, q[1..]).id;
      assert Distinct(Ids(root.children)) && root.id != id by {
        DistinctSplit([root.id], Ids(root.children));
        IdAtPathInSubtree(root.children, q[1..]);
      }
      UniqueFirstMatch(root.children, q[1..]);
    }
  }

  /** What the search returns, for the whole forest. */
  lemma LocateSpec(nodes: seq<Node>, id: string)
    ensures Locate(nodes, id).None? <==> id !in Ids(nodes)
    ensures Locate(nodes, id).Some? ==>
              FirstMatch(nodes, Locate(nodes, id).value, id) &&
              ValidPath(nodes, Locate(nodes, id).value) &&
              NodeAt(nodes, Locate(nodes, id).value).id == id
  {
    LocateFromSpec(nodes, id, 0);
    assert nodes[0..] == nodes && nodes[..0] == [];
    if Locate(nodes, id).Some? {
      FirstMatchValid(nodes, Locate(nodes, id).value, id);
    }
  }

  /** With unique ids, searching for the id at a path finds exactly that path. */
  lemma LocateUnique(nodes: seq<Node>, q: Path)
    requires Distinct(Ids(nodes)) && ValidPath(nodes, q)
    ensures Locate(nodes, NodeAt(nodes, q).id) == Some(q)
  {
    var id := NodeAt(nodes, q).id;
    UniqueFirstMatch(nodes, q);
    IdAtPathInSubtree(nodes, q);
    LocateSpec(nodes, id);
    FirstMatchUnique(nodes, Locate(nodes, id).value, q, id);
  }

  // ---------------------------------------------------------------------------
  // Paths
  // ---------------------------------------------------------------------------

  /** The k-th id along a path is the id of the node at the path's prefix of length k + 1. */
  lemma {:induction false} IdsAlongAt(nodes: seq<Node>, q: Path, k: nat)
    requires ValidPath(nodes, q) && k < |q|
    ensures ValidPath(nodes, q[..k + 1])
    ensures |IdsAlong(nodes, q)| == |q|
    ensures IdsAlong(nodes, q)[k] == NodeAt(nodes, q[..k + 1]).id
    decreases q
  {
    if |q| > 1 {
      IdsAlongAt(nodes[q[0]].children, q[1..], if k == 0 then 0 else k - 1);
    }
    if k > 0 {
      assert q[..k + 1][0] == q[0];
      assert q[..k + 1][1..] == q[1..][..k];
    }
  }

  /** Every proper prefix of a path leads to a folder. */
  lemma {:induction false} PrefixIsFolder(nodes: seq<Node>, p: Path, j: nat)
    requires ValidPath(nodes, p) && 0 < j < |p|
    ensures ValidPath(nodes, p[..j]) && NodeAt(nodes, p[..j]).Folder?
    decreases p
  {
    if j > 1 {
      PrefixIsFolder(nodes[p[0]].children, p[1..], j - 1);
      assert p[..j][0] == p[0] && p[..j][1..] == p[1..][..j - 1];
    } else {
      assert p[..j] == [p[0]];
    }
  }

  /** Following `p` and then a path inside the folder found there. */
  lemma {:induction false} PathAppend(nodes: seq<Node>, p: Path, r: Path)
    requires ValidPath(nodes, p) && NodeAt(nodes, p).Folder?
    requires ValidPath(NodeAt(nodes, p).children, r)
    ensures ValidPath(nodes, p + r) && NodeAt(nodes, p + r) == NodeAt(NodeAt(nodes, p).children, r)
    decreases p
  {
    assert (p + r)[0] == p[0];
    if |p| == 1 {
      assert (p + r)[1..] == r;
    } else {
      PathAppend(nodes[p[0]].children, p[1..], r);
      assert (p + r)[1..] == p[1..] + r;
    }
  }

  /** A path that extends `p` goes through the folder at `p` and on inside its children. */
  lemma {:induction false} PathSplit(nodes: seq<Node>, p: Path, q: Path)
    requires ValidPath(nodes, q) && 0 < |p| < |q| && q[..|p|] == p
    ensures ValidPath(nodes, p) && NodeAt(nodes, p).Folder?
    ensures ValidPath(NodeAt(nodes, p).children, q[|p|..])
    ensures NodeAt(nodes, q) == NodeAt(NodeAt(nodes, p).children, q[|p|..])
    decreases p
  {
    assert q[0] == p[0];
    if |p| == 1 {
      assert q[|p|..] == q[1..];
    } else {
      assert q[1..][..|p| - 1] == p[1..] && q[1..][|p| - 1..] == q[|p|..];
      PathSplit(nodes[p[0]].children, p[1..], q[1..]);
    }
  }

  /** The index in `Ids(nodes)` at which the node at `p` is listed. */
  function Pos(nodes: seq<Node>, p: Path): nat
    requires ValidPath(nodes, p)
    decreases p
  {
    |Ids(nodes[..p[0]])| + (if |p| == 1 then 0 else 1 + Pos(nodes[p[0]].children, p[1..]))
  }

  /** The pre-order list names the node at its position; a first match is listed before any other node with its id. */
  lemma PosSpec(nodes: seq<Node>, p: Path)
    requires ValidPath(nodes, p)
    ensures Pos(nodes, p) < |Ids(nodes)| && Ids(nodes)[Pos(nodes, p)] == NodeAt(nodes, p).id
    ensures FirstMatch(nodes, p, NodeAt(nodes, p).id) ==> NodeAt(nodes, p).id !in Ids(nodes)[..Pos(nodes, p)]
  {
    PosIndex(nodes, p);
    if FirstMatch(nodes, p, NodeAt(nodes, p).id) {
      PosFirst(nodes, p);
    }
  }

  lemma {:induction false} PosIndex(nodes: seq<Node>, p: Path)
    requires ValidPath(nodes, p)
    ensures Pos(nodes, p) < |Ids(nodes)| && Ids(nodes)[Pos(nodes, p)] == NodeAt(nodes, p).id
    decreases p
  {
    if |p| == 1 {
      PosIndexRoot(nodes, p[0]);
    } else {
      var kids := nodes[p[0]].children;
      var inner := Pos(kids, p[1..]);
      assert Pos(nodes, p) == |Ids(nodes[..p[0]])| + 1 + inner;
      assert NodeAt(nodes, p) == NodeAt(kids, p[1..]);
      PosIndex(kids, p[1..]);
      PosIndexStep(nodes, p[0], inner);
    }
  }

  lemma PosIndexRoot(nodes: seq<Node>, k: nat)
    requires k < |nodes|
    ensures |Ids(nodes[..k])| < |Ids(nodes)| && Ids(nodes)[|Ids(nodes[..k])|] == nodes[k].id
  {
    IdsSplit(nodes, k);
    var kids := if nodes[k].Folder? then nodes[k].children else [];
    assert SubtreeIds(nodes[k]) == [nodes[k].id] + Ids(kids);
    IndexThroughMiddle(Ids(nodes[..k]), nodes[k].id, Ids(kids), Ids(nodes[k + 1..]), 0);
  }

  lemma PosIndexStep(nodes: seq<Node>, k: nat, inner: nat)
    requires k < |nodes| && nodes[k].Folder? && inner < |Ids(nodes[k].children)|
    ensures |Ids(nodes[..k])| + 1 + inner < |Ids(nodes)|
    ensures Ids(nodes)[|Ids(nodes[..k])| + 1 + inner] == Ids(nodes[k].children)[inner]
  {
    IdsSplit(nodes, k);
    var kids := nodes[k].children;
    assert SubtreeIds(nodes[k]) == [nodes[k].id] + Ids(kids);
    IndexThroughMiddle(Ids(nodes[..k]), nodes[k].id, Ids(kids), Ids(nodes[k + 1..]), inner + 1);
  }

  lemma IndexThroughMiddle<T>(a: seq<T>, x: T, b: seq<T>, c: seq<T>, j: nat)
    requires j <= |b|
    ensures |a| + j < |a + ([x] + b) + c| && (a + ([x] + b) + c)[|a| + j] == ([x] + b)[j]
  {
  }

  lemma {:induction false} PosFirst(nodes: seq<Node>, p: Path)
    requires ValidPath(nodes, p) && FirstMatch(nodes, p, NodeAt(nodes, p).id)
    ensures Pos(nodes, p) < |Ids(nodes)| && NodeAt(nodes, p).id !in Ids(nodes)[..Pos(nodes, p)]
    decreases p
  {
    var k := p[0];
    var before, sub := Ids(nodes[..k]), SubtreeIds(nodes[k]);
    IdsSplit(nodes, k);
    PosIndex(nodes, p);
    if |p| == 1 {
      assert Ids(nodes)[..Pos(nodes, p)] == before;
    } else {
      var kids := nodes[k].children;
      var inner := Pos(kids, p[1..]);
      assert NodeAt(nodes, p) == NodeAt(kids, p[1..]);
      PosFirst(kids, p[1..]);
      PosIndex(kids, p[1..]);
      assert sub == [nodes[k].id] + Ids(kids);
      PrefixThroughMiddle(before, nodes[k].id, Ids(kids), Ids(nodes[k + 1..]), inner);
      assert Ids(nodes)[..Pos(nodes, p)] == before + [nodes[k].id] + Ids(kids)[..inner];
    }
  }

  lemma PrefixThroughMiddle<T>(a: seq<T>, x: T, b: seq<T>, c: seq<T>, j: nat)
    requires j <= |b|
    ensures (a + ([x] + b) + c)[..|a| + 1 + j] == a + [x] + b[..j]
  {
    assert (a + ([x] + b) + c)[..|a| + 1 + j] == (a + [x] + b)[..|a| + 1 + j];
  }

  /** A parent is listed before its child. */
  lemma {:induction false} PosParent(nodes: seq<Node>, p: Path)
    requires ValidPath(nodes, p) && |p| > 1
    ensures ValidPath(nodes, p[..|p| - 1]) && Pos(nodes, p[..|p| - 1]) < Pos(nodes, p)
    decreases p
  {
    PrefixIsFolder(nodes, p, |p| - 1);
    var pre := p[..|p| - 1];
    assert pre[0] == p[0];
    if |p| > 2 {
      PosParent(nodes[p[0]].children, p[1..]);
      assert pre[1..] == p[1..][..|p[1..]| - 1];
    }
  }

  /** The first match of an id is listed no later than any node carrying it. */
  lemma FirstPos(nodes: seq<Node>, p: Path, q: Path, id: string)
    requires ValidPath(nodes, p) && FirstMatch(nodes, p, id) && ValidPath(nodes, q) && NodeAt(nodes, q).id == id
    ensures Pos(nodes, p) <= Pos(nodes, q)
  {
    FirstMatchValid(nodes, p, id);
    PosSpec(nodes, p);
    PosSpec(nodes, q);
  }

  // ---------------------------------------------------------------------------
  // Editing through a path
  // ---------------------------------------------------------------------------

  /** `b` may stand in for `a` without changing the structure: same id, same kind, same children. */
  predicate SameShape(a: Node, b: Node)
  {
    a.id == b.id && a.Folder? == b.Folder? && (a.Folder? ==> a.children == b.children)
  }

  lemma {:induction false} ReplaceAtSpec(nodes: seq<Node>, p: Path, n: Node)
    requires ValidPath(nodes, p)
    ensures ValidPath(ReplaceAt(nodes, p, n), p) && NodeAt(ReplaceAt(nodes, p, n), p) == n
    ensures ReplaceAt(nodes, p, NodeAt(nodes, p)) == nodes
    decreases p
  {
    if |p| > 1 {
      ReplaceAtSpec(nodes[p[0]].children, p[1..], n);
    }
  }

  /** A second replacement at the same path overrides the first. */
  lemma {:induction false} ReplaceTwice(nodes: seq<Node>, p: Path, a: Node, b: Node)
    requires ValidPath(nodes, p)
    ensures ValidPath(ReplaceAt(nodes, p, a), p)
    ensures ReplaceAt(ReplaceAt(nodes, p, a), p, b) == ReplaceAt(nodes, p, b)
    decreases p
  {
    ReplaceAtSpec(nodes, p, a);
    if |p| > 1 {
      ReplaceTwice(nodes[p[0]].children, p[1..], a, b);
    }
  }

  lemma MultisetExchange(mR: multiset<string>, mN: multiset<string>, mK: multiset<string>, mK': multiset<string>,
                         mOld: multiset<string>, mNew: multiset<string>, mId: multiset<string>)
    requires mK' + mOld == mK + mNew
    requires mR + (mId + mK) == mN + (mId + mK')
    ensures mR + mOld == mN + mNew
  {
    forall x ensures (mR + mOld)[x] == (mN + mNew)[x] {
      assert (mK' + mOld)[x] == (mK + mNew)[x];
      assert (mR + (mId + mK))[x] == (mN + (mId + mK'))[x];
    }
  }

  /** Overwriting one entry of a forest trades the ids of the old subtree for those of the new one. */
  lemma IdsUpdate(nodes: seq<Node>, k: nat, x: Node)
    requires k < |nodes|
    ensures multiset(Ids(nodes[k := x])) + multiset(SubtreeIds(nodes[k]))
         == multiset(Ids(nodes)) + multiset(SubtreeIds(x))
  {
    var r := nodes[k := x];
    var a, b := Ids(nodes[..k]), Ids(nodes[k + 1..]);
    assert Ids(r) == a + SubtreeIds(x) + b by {
      IdsSplit(r, k);
      assert r[..k] == nodes[..k] && r[k + 1..] == nodes[k + 1..] && r[k] == x;
    }
    assert Ids(nodes) == a + SubtreeIds(nodes[k]) + b by {
      IdsSplit(nodes, k);
    }
    MultisetSwap(a, SubtreeIds(x), SubtreeIds(nodes[k]), b);
  }

  /** Swapping the middle of a concatenation trades one multiset for the other. */
  lemma MultisetSwap<T>(a: seq<T>, s: seq<T>, t: seq<T>, b: seq<T>)
    ensures multiset(a + s + b) + multiset(t) == multiset(a + t + b) + multiset(s)
  {
    assert multiset(a + s + b) == multiset(a) + multiset(s) + multiset(b);
    assert multiset(a + t + b) == multiset(a) + multiset(t) + multiset(b);
  }

  /** Replacing a node trades the ids of its subtree for those of the new one. */
  lemma {:induction false} ReplaceIds(nodes: seq<Node>, p: Path, n: Node)
    requires ValidPath(nodes, p)
    ensures multiset(Ids(ReplaceAt(nodes, p, n))) + multiset(SubtreeIds(NodeAt(nodes, p)))
         == multiset(Ids(nodes)) + multiset(SubtreeIds(n))
    decreases p
  {
    var k := p[0];
    if |p| == 1 {
      IdsUpdate(nodes, k, n);
    } else {
      var kids := nodes[k].children;
      var kids' := ReplaceAt(kids, p[1..], n);
      ReplaceIds(kids, p[1..], n);
      IdsUpdate(nodes, k, nodes[k].(children := kids'));
      var r := ReplaceAt(nodes, p, n);
      assert r == nodes[k := nodes[k].(children := kids')];
      assert NodeAt(nodes, p) == NodeAt(kids, p[1..]);
      assert SubtreeIds(r[k]) == [nodes[k].id] + Ids(kids');
      assert SubtreeIds(nodes[k]) == [nodes[k].id] + Ids(kids);
      var mR, mN, mK, mK' := multiset(Ids(r)), multiset(Ids(nodes)), multiset(Ids(kids)), multiset(Ids(kids'));
      var mOld, mNew, mId := multiset(SubtreeIds(NodeAt(kids, p[1..]))), multiset(SubtreeIds(n)), multiset([nodes[k].id]);
      assert mK' + mOld == mK + mNew;
      assert mR + (mId + mK) == mN + (mId + mK');
      MultisetExchange(mR, mN, mK, mK', mOld, mNew, mId);
    }
  }

  /** Overwriting an entry with a node of the same subtree ids keeps the pre-order ids. */
  lemma IdsUpdateSame(nodes: seq<Node>, k: nat, x: Node)
    requires k < |nodes| && SubtreeIds(x) == SubtreeIds(nodes[k])
    ensures Ids(nodes[k := x]) == Ids(nodes)
  {
    var r := nodes[k := x];
    IdsSplit(nodes, k);
    IdsSplit(r, k);
    assert r[..k] == nodes[..k] && r[k + 1..] == nodes[k + 1..] && r[k] == x;
  }

  /** A replacement whose subtree carries the same ids, in the same order, keeps the pre-order ids of the forest. */
  lemma {:induction false} ReplaceSameIds(nodes: seq<Node>, p: Path, n: Node)
    requires ValidPath(nodes, p) && SubtreeIds(n) == SubtreeIds(NodeAt(nodes, p))
    ensures Ids(ReplaceAt(nodes, p, n)) == Ids(nodes)
    decreases p
  {
    var k := p[0];
    if |p| == 1 {
      IdsUpdateSame(nodes, k, n);
    } else {
      var kids := nodes[k].children;
      ReplaceSameIds(kids, p[1..], n);
      IdsUpdateSame(nodes, k, nodes[k].(children := ReplaceAt(kids, p[1..], n)));
    }
  }

  lemma MultisetGrow(mR: multiset<string>, mN: multiset<string>, s: multiset<string>, s': multiset<string>,
                     extra: multiset<string>)
    requires mR + s == mN + s' && s' == s + extra
    ensures mR == mN + extra
  {
    forall y ensures mR[y] == (mN + extra)[y] {
      assert (mR + s)[y] == (mN + s')[y];
    }
  }

  /** Overwriting an entry with a node whose subtree ids grow by `extra` makes the forest's ids grow by `extra`. */
  lemma IdsUpdateGrow(nodes: seq<Node>, k: nat, x: Node, extra: multiset<string>)
    requires k < |nodes| && multiset(SubtreeIds(x)) == multiset(SubtreeIds(nodes[k])) + extra
    ensures multiset(Ids(nodes[k := x])) == multiset(Ids(nodes)) + extra
  {
    IdsUpdate(nodes, k, x);
    MultisetGrow(multiset(Ids(nodes[k := x])), multiset(Ids(nodes)), multiset(SubtreeIds(nodes[k])),
                 multiset(SubtreeIds(x)), extra);
  }

  /** A folder whose children's ids grow by `extra` grows by `extra` as a subtree. */
  lemma FolderGrows(f: Node, kids: seq<Node>, extra: multiset<string>)
    requires f.Folder? && multiset(Ids(kids)) == multiset(Ids(f.children)) + extra
    ensures multiset(SubtreeIds(f.(children := kids))) == multiset(SubtreeIds(f)) + extra
  {
  }

  /** A replacement whose subtree ids grow by `extra` makes the forest's ids grow by `extra`. */
  lemma {:induction false} ReplaceGrowIds(nodes: seq<Node>, p: Path, n: Node, extra: multiset<string>)
    requires ValidPath(nodes, p)
    requires multiset(SubtreeIds(n)) == multiset(SubtreeIds(NodeAt(nodes, p))) + extra
    ensures multiset(Ids(ReplaceAt(nodes, p, n))) == multiset(Ids(nodes)) + extra
    decreases p
  {
    var k := p[0];
    if |p| == 1 {
      IdsUpdateGrow(nodes, k, n, extra);
    } else {
      var kids := nodes[k].children;
      var kids' := ReplaceAt(kids, p[1..], n);
      ReplaceGrowIds(kids, p[1..], n, extra);
      var x := nodes[k].(children := kids');
      FolderGrows(nodes[k], kids', extra);
      IdsUpdateGrow(nodes, k, x, extra);
      assert ReplaceAt(nodes, p, n) == nodes[k := x];
    }
  }

  /** A same-shape replacement leaves every search result as it was. */
  lemma {:induction false} LocateFromReplace(nodes: seq<Node>, p: Path, n: Node, id: string, i: nat)
    requires ValidPath(nodes, p) && SameShape(NodeAt(nodes, p), n)
    ensures LocateFrom(ReplaceAt(nodes, p, n), id, i) == LocateFrom(nodes, id, i)
    decreases nodes, |nodes| - i
  {
    if i < |nodes| {
      if i == p[0] && |p| > 1 {
        LocateFromReplace(nodes[i].children, p[1..], n, id, 0);
      }
      LocateFromReplace(nodes, p, n, id, i + 1);
    }
  }

  /**
   * A same-shape replacement keeps the set of paths, and changes the fields of
   * the node at `p` only.
   */
  lemma {:induction false} ReplaceLabels(nodes: seq<Node>, p: Path, n: Node, q: Path)
    requires ValidPath(nodes, p) && SameShape(NodeAt(nodes, p), n)
    ensures ValidPath(ReplaceAt(nodes, p, n), q) <==> ValidPath(nodes, q)
    ensures ValidPath(nodes, q) ==>
              Label(NodeAt(ReplaceAt(nodes, p, n), q)) == if q == p then Label(n) else Label(NodeAt(nodes, q))
    decreases q
  {
    if |q| > 0 && q[0] < |nodes| && q[0] == p[0] && |q| > 1 && |p| > 1 {
      ReplaceLabels(nodes[p[0]].children, p[1..], n, q[1..]);
      assert q == [q[0]] + q[1..] && p == [p[0]] + p[1..];
    }
  }

  /** `q` leads strictly below the node at `p`. */
  predicate Below(p: Path, q: Path)
  {
    |p| < |q| && q[..|p|] == p
  }

  /** `q` leads to the node at `p` or below it. */
  predicate AtOrBelow(p: Path, q: Path)
  {
    |p| <= |q| && q[..|p|] == p
  }

  /**
   * A replacement at `p` leaves every path that does not lead strictly below
   * `p` as it was: valid in the same cases, and with the same fields, except
   * at `p` itself.
   */
  lemma {:induction false} ReplaceFrame(nodes: seq<Node>, p: Path, n: Node, q: Path)
    requires ValidPath(nodes, p) && !Below(p, q)
    ensures ValidPath(ReplaceAt(nodes, p, n), q) <==> ValidPath(nodes, q)
    ensures ValidPath(nodes, q) ==>
              Label(NodeAt(ReplaceAt(nodes, p, n), q)) == if q == p then Label(n) else Label(NodeAt(nodes, q))
    decreases q
  {
    if |q| > 0 && q[0] < |nodes| && q[0] == p[0] && |q| > 1 {
      ReplaceFrame(nodes[p[0]].children, p[1..], n, q[1..]);
      assert q == [q[0]] + q[1..] && p == [p[0]] + p[1..];
    }
  }

  /** A path whose first step lies in `a` leads to the same node in `a + b` as in `a`. */
  lemma AppendedPath(a: seq<Node>, b: seq<Node>, s: Path)
    requires |s| > 0 && s[0] < |a|
    ensures ValidPath(a + b, s) <==> ValidPath(a, s)
    ensures ValidPath(a, s) ==> NodeAt(a + b, s) == NodeAt(a, s)
  {
    assert (a + b)[s[0]] == a[s[0]];
  }

  /** Two paths that start at the same root node and agree after it lead to the same node, through the same ids. */
  lemma SameRootPath(a: seq<Node>, qa: Path, b: seq<Node>, qb: Path)
    requires ValidPath(a, qa) && |qa| == |qb| && qb[0] < |b| && b[qb[0]] == a[qa[0]] && qa[1..] == qb[1..]
    ensures ValidPath(b, qb) && NodeAt(b, qb) == NodeAt(a, qa) && IdsAlong(b, qb) == IdsAlong(a, qa)
  {
  }

  /**
   * Where the node at `q` is found once the subtree at `p` is removed: the
   * later siblings of the removed node, and everything below them, move one
   * place up; every other path stays.
   */
  function Shift(p: Path, q: Path): Path
    requires |p| > 0 && |q| > 0
    decreases p
  {
    if |p| == 1 then (if q[0] > p[0] then [q[0] - 1] + q[1..] else q)
    else if q[0] != p[0] || |q| == 1 then q
    else [q[0]] + Shift(p[1..], q[1..])
  }

  /**
   * Every node outside the removed subtree is still there after the removal,
   * at its shifted path, with its own fields and the same ids from its root
   * down to it.
   */
  lemma {:induction false} RemoveFrame(nodes: seq<Node>, p: Path, q: Path)
    requires ValidPath(nodes, p) && ValidPath(nodes, q) && !AtOrBelow(p, q)
    ensures ValidPath(RemoveAt(nodes, p), Shift(p, q))
    ensures Label(NodeAt(RemoveAt(nodes, p), Shift(p, q))) == Label(NodeAt(nodes, q))
    ensures IdsAlong(RemoveAt(nodes, p), Shift(p, q)) == IdsAlong(nodes, q)
    decreases p
  {
    var k := p[0];
    var r := RemoveAt(nodes, p);
    if |p| == 1 {
      assert q[..1] == [q[0]];
      var q' := Shift(p, q);
      assert q'[1..] == q[1..];
      assert r[q'[0]] == nodes[q[0]];
      SameRootPath(nodes, q, r, q');
    } else if q[0] != k {
      SameRootPath(nodes, q, r, q);
    } else if |q| > 1 {
      RemoveFrame(nodes[k].children, p[1..], q[1..]);
      var s' := Shift(p[1..], q[1..]);
      assert Shift(p, q) == [k] + s';
      assert ([k] + s')[0] == k && ([k] + s')[1..] == s';
    }
  }

  /** The ids of a removed subtree formed one block of the pre-order list, at the removed node's position. */
  lemma {:induction false} RemoveIdsInPlace(nodes: seq<Node>, p: Path)
    requires ValidPath(nodes, p)
    ensures Pos(nodes, p) <= |Ids(RemoveAt(nodes, p))|
    ensures Ids(nodes) == Ids(RemoveAt(nodes, p))[..Pos(nodes, p)] + SubtreeIds(NodeAt(nodes, p))
                          + Ids(RemoveAt(nodes, p))[Pos(nodes, p)..]
    decreases p
  {
    var k := p[0];
    if |p| == 1 {
      RemoveRootInPlace(nodes, k);
    } else {
      var kids := nodes[k].children;
      RemoveIdsInPlace(kids, p[1..]);
      assert NodeAt(nodes, p) == NodeAt(kids, p[1..]);
      assert Pos(nodes, p) == |Ids(nodes[..k])| + 1 + Pos(kids, p[1..]);
      RemoveInsideInPlace(nodes, k, RemoveAt(kids, p[1..]), Pos(kids, p[1..]), SubtreeIds(NodeAt(kids, p[1..])));
    }
  }

  /** Cutting out one root node takes its subtree's ids out at its position. */
  lemma RemoveRootInPlace(nodes: seq<Node>, k: nat)
    requires k < |nodes|
    ensures var r, i := nodes[..k] + nodes[k + 1..], |Ids(nodes[..k])|;
            i <= |Ids(r)| && Ids(nodes) == Ids(r)[..i] + SubtreeIds(nodes[k]) + Ids(r)[i..]
  {
    var a, b := Ids(nodes[..k]), Ids(nodes[k + 1..]);
    IdsSplit(nodes, k);
    IdsConcat(nodes[..k], nodes[k + 1..]);
    assert (a + b)[..|a|] == a && (a + b)[|a|..] == b;
  }

  /** A removal inside the children of root node `k` takes the removed block out at the same offset of the whole list. */
  lemma RemoveInsideInPlace(nodes: seq<Node>, k: nat, kids': seq<Node>, j: nat, block: seq<string>)
    requires k < |nodes| && nodes[k].Folder? && j <= |Ids(kids')|
    requires Ids(nodes[k].children) == Ids(kids')[..j] + block + Ids(kids')[j..]
    ensures var r, i := nodes[k := nodes[k].(children := kids')], |Ids(nodes[..k])| + 1 + j;
            i <= |Ids(r)| && Ids(nodes) == Ids(r)[..i] + block + Ids(r)[i..]
  {
    var a, b := Ids(nodes[..k]), Ids(nodes[k + 1..]);
    var r := nodes[k := nodes[k].(children := kids')];
    IdsAtFolder(nodes, k);
    IdsAtFolder(r, k);
    assert r[..k] == nodes[..k] && r[k + 1..] == nodes[k + 1..];
    assert Ids(r) == a + ([nodes[k].id] + Ids(kids')) + b;
    BlockInside(a, nodes[k].id, Ids(kids'), b, j, block);
  }

  /** The ids of a forest around a root folder: those before it, its own id, its children's, those after it. */
  lemma IdsAtFolder(nodes: seq<Node>, k: nat)
    requires k < |nodes| && nodes[k].Folder?
    ensures Ids(nodes) == Ids(nodes[..k]) + ([nodes[k].id] + Ids(nodes[k].children)) + Ids(nodes[k + 1..])
  {
    IdsSplit(nodes, k);
  }

  /** A block cut into the middle part of a concatenation sits at the same offset of the whole. */
  lemma BlockInside<T>(a: seq<T>, x: T, ks: seq<T>, b: seq<T>, j: nat, block: seq<T>)
    requires j <= |ks|
    ensures var whole := a + ([x] + ks) + b;
            |a| + 1 + j <= |whole| &&
            a + ([x] + (ks[..j] + block + ks[j..])) + b == whole[..|a| + 1 + j] + block + whole[|a| + 1 + j..]
  {
    var whole := a + ([x] + ks) + b;
    assert whole[..|a| + 1 + j] == a + [x] + ks[..j];
    assert whole[|a| + 1 + j..] == ks[j..] + b;
  }

  /** Removing a subtree removes exactly its ids. */
  lemma {:induction false} RemoveIds(nodes: seq<Node>, p: Path)
    requires ValidPath(nodes, p)
    ensures multiset(Ids(RemoveAt(nodes, p))) + multiset(SubtreeIds(NodeAt(nodes, p))) == multiset(Ids(nodes))
    decreases p
  {
    var k := p[0];
    if |p| == 1 {
      RemoveRootIds(nodes, k);
    } else {
      var kids := nodes[k].children;
      var kids' := RemoveAt(kids, p[1..]);
      var x := nodes[k].(children := kids');
      var gone := multiset(SubtreeIds(NodeAt(kids, p[1..])));
      RemoveIds(kids, p[1..]);
      RemoveInsideIds(nodes[k], kids', gone);
      IdsUpdate(nodes, k, x);
      assert RemoveAt(nodes, p) == nodes[k := x];
      assert NodeAt(nodes, p) == NodeAt(kids, p[1..]);
      MultisetCancel(multiset(Ids(nodes[k := x])), multiset(Ids(nodes)), multiset(SubtreeIds(nodes[k])),
                     multiset(SubtreeIds(x)), gone);
    }
  }

  /** Taking `g` from the exchanged part of `b` leaves `a`. */
  lemma MultisetCancel<T>(a: multiset<T>, b: multiset<T>, s: multiset<T>, x: multiset<T>, g: multiset<T>)
    requires a + s == b + x && x + g == s
    ensures a + g == b
  {
    forall e
      ensures (a + g)[e] == b[e]
    {
      assert (a + s)[e] == (b + x)[e];
      assert (x + g)[e] == s[e];
    }
  }

  /** Cutting out one root node takes exactly its subtree's ids. */
  lemma RemoveRootIds(nodes: seq<Node>, k: nat)
    requires k < |nodes|
    ensures multiset(Ids(nodes[..k] + nodes[k + 1..])) + multiset(SubtreeIds(nodes[k])) == multiset(Ids(nodes))
  {
    IdsSplit(nodes, k);
    IdsConcat(nodes[..k], nodes[k + 1..]);
    var a, b := Ids(nodes[..k]), Ids(nodes[k + 1..]);
    assert Ids(nodes[..k] + nodes[k + 1..]) == a + b;
    assert multiset(Ids(nodes)) == multiset(a) + multiset(SubtreeIds(nodes[k])) + multiset(b);
  }

  /** A folder whose children lost the ids `gone` has, as a subtree, lost exactly those ids. */
  lemma RemoveInsideIds(n: Node, kids: seq<Node>, gone: multiset<string>)
    requires n.Folder? && multiset(Ids(kids)) + gone == multiset(Ids(n.children))
    ensures multiset(SubtreeIds(n.(children := kids))) + gone == multiset(SubtreeIds(n))
  {
  }


  /** Every node left after a removal is a node of the original forest outside the removed subtree, shifted. */
  lemma {:induction false} RemoveOrigin(nodes: seq<Node>, p: Path, q': Path) returns (q: Path)
    requires ValidPath(nodes, p) && ValidPath(RemoveAt(nodes, p), q')
    ensures ValidPath(nodes, q) && Label(NodeAt(RemoveAt(nodes, p), q')) == Label(NodeAt(nodes, q))
    ensures !AtOrBelow(p, q) && Shift(p, q) == q'
    decreases p
  {
    var r := RemoveAt(nodes, p);
    if |p| == 1 {
      var j := if q'[0] < p[0] then q'[0] else q'[0] + 1;
      assert r[q'[0]] == nodes[j];
      q := [j] + q'[1..];
      assert q[0] == j && q[1..] == q'[1..];
    } else if q'[0] != p[0] {
      q := q';
    } else if |q'| == 1 {
      q := [p[0]];
    } else {
      var inner := RemoveOrigin(nodes[p[0]].children, p[1..], q'[1..]);
      q := [p[0]] + inner;
      assert q[0] == p[0] && q[1..] == inner;
    }
  }

  /** Two forests with the same paths and the same node fields at every path are equal. */
  lemma {:induction false} LabelsDetermineForest(a: seq<Node>, b: seq<Node>)
    requires forall q :: ValidPath(a, q) <==> ValidPath(b, q)
    requires forall q :: ValidPath(a, q) ==> Label(NodeAt(a, q)) == Label(NodeAt(b, q))
    ensures a == b
    decreases a
  {
    if |a| < |b| {
      assert ValidPath(b, [|a|]);
      assert false;
    } else if |b| < |a| {
      assert ValidPath(a, [|b|]);
      assert false;
    }
    forall i | 0 <= i < |a| ensures a[i] == b[i] {
      assert ValidPath(a, [i]);
      if a[i].Folder? {
        var ka, kb := a[i].children, b[i].children;
        forall q ensures ValidPath(ka, q) <==> ValidPath(kb, q) {
          assert ([i] + q)[0] == i && ([i] + q)[1..] == q;
          assert ValidPath(a, [i] + q) <==> ValidPath(b, [i] + q);
        }
        forall q | ValidPath(ka, q) ensures Label(NodeAt(ka, q)) == Label(NodeAt(kb, q)) {
          assert ([i] + q)[0] == i && ([i] + q)[1..] == q;
          assert ValidPath(a, [i] + q);
        }
        LabelsDetermineForest(ka, kb);
      }
    }
  }

  // ---------------------------------------------------------------------------
  // Parents and chains of ids
  // ---------------------------------------------------------------------------

  /** The parent reported for the node at `p` is the folder at the path one shorter, or the given one for a root. */
  lemma {:induction false} ParentAtSpec(nodes: seq<Node>, p: Path, parent: Option<Node>)
    requires ValidPath(nodes, p)
    ensures |p| == 1 ==> ParentAt(nodes, p, parent) == parent
    ensures |p| > 1 ==>
              ValidPath(nodes, p[..|p| - 1]) &&
              NodeAt(nodes, p[..|p| - 1]).Folder? &&
              p[|p| - 1] < |NodeAt(nodes, p[..|p| - 1]).children| &&
              NodeAt(nodes, p[..|p| - 1]).children[p[|p| - 1]] == NodeAt(nodes, p) &&
              ParentAt(nodes, p, parent) == Some(NodeAt(nodes, p[..|p| - 1]))
    decreases p
  {
    if |p| > 1 {
      var kids := nodes[p[0]].children;
      ParentAtSpec(kids, p[1..], Some(nodes[p[0]]));
      var pre := p[..|p| - 1];
      assert pre[0] == p[0];
      if |p| > 2 {
        assert pre[1..] == p[1..][..|p[1..]| - 1];
      } else {
        assert pre == [p[0]];
      }
    }
  }

  /** `ids` spells a chain from a root down: each id names a child of the folder named by the id before it. */
  ghost predicate IsChain(nodes: seq<Node>, ids: seq<string>)
    decreases ids
  {
    |ids| > 0 &&
    exists i :: 0 <= i < |nodes| && nodes[i].id == ids[0] &&
                (|ids| > 1 ==> nodes[i].Folder? && IsChain(nodes[i].children, ids[1..]))
  }

  lemma {:induction false} IdsAlongChain(nodes: seq<Node>, p: Path)
    requires ValidPath(nodes, p)
    ensures IsChain(nodes, IdsAlong(nodes, p))
    ensures IdsAlong(nodes, p)[|IdsAlong(nodes, p)| - 1] == NodeAt(nodes, p).id
    decreases p
  {
    var ids := IdsAlong(nodes, p);
    if |p| > 1 {
      IdsAlongChain(nodes[p[0]].children, p[1..]);
      assert ids[1..] == IdsAlong(nodes[p[0]].children, p[1..]);
    }
    assert nodes[p[0]].id == ids[0];
  }

  /** The search returns a path exactly when that path is the first match. */
  lemma LocateIsFirstMatch(nodes: seq<Node>, id: string, q: Path)
    ensures FirstMatch(nodes, q, id) <==> Locate(nodes, id) == Some(q)
  {
    LocateSpec(nodes, id);
    if FirstMatch(nodes, q, id) {
      FirstMatchValid(nodes, q, id);
      IdAtPathInSubtree(nodes, q);
      FirstMatchUnique(nodes, Locate(nodes, id).value, q, id);
    }
  }
}
