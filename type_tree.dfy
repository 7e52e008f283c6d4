/**
 * The entities of the conversion: the class-database field tree that goes in,
 * the flat type-tree records and the type tree that come out, and the
 * pre-order walk that relates the two.
 */
module TypeTree {

  type Byte = b: int | 0 <= b < 0x100
  type UInt32 = x: int | 0 <= x < 0x1_0000_0000

  /** The high bit that marks an offset into the common string buffer. */
  const CommonFlag: nat := 0x8000_0000

  /**
   * A field of a class-database type (ClassDatabaseTypeNode), with its field
   * and type names already resolved to text.
   */
  datatype FieldNode = FieldNode(
    fieldName: string,
    typeName: string,
    byteSize: int,
    version: int,
    metaFlag: UInt32,
    typeFlags: int,
    children: seq<FieldNode>)

  /**
   * The part of a class database the conversion reads: its common string
   * list, each entry already resolved to its text.
   */
  datatype ClassDatabaseFile = ClassDatabaseFile(commonStrings: seq<string>)

  /** A class of the database: its id and the field tree chosen for conversion. */
  datatype ClassDatabaseType = ClassDatabaseType(classId: int, node: FieldNode)

  /** One record of the flat type tree (TypeTreeNode). */
  datatype TypeTreeNode = TypeTreeNode(
    level: Byte,
    metaFlags: UInt32,
    index: nat,
    typeFlags: int,
    nameStrOffset: nat,
    byteSize: int,
    typeStrOffset: nat,
    version: int)

  /** A 128-bit hash value, kept as its bytes. */
  datatype Hash128 = Hash128(bytes: seq<Byte>)

  /** The all-zero hash that marks "no hash". */
  function BlankHash(): Hash128
  {
    Hash128(seq(16, _ => 0))
  }

  /** The converted type (TypeTreeType). */
  datatype TypeTreeType = TypeTreeType(
    typeId: int,
    scriptTypeIndex: int,
    isStrippedType: bool,
    scriptIdHash: Hash128,
    typeHash: Hash128,
    typeDependencies: seq<int>,
    stringBuffer: string,
    nodes: seq<TypeTreeNode>)

  /** What a conversion gives its caller. */
  datatype Outcome =
    | NullResult                      // the requested type was not found
    | Converted(tree: TypeTreeType)
    | ArgumentException(key: string)  // a repeated common string made Dictionary.Add throw

  /** A field tree node together with the depth at which the walk meets it. */
  datatype Visit = Visit(node: FieldNode, depth: nat)

  /** The nodes of the tree rooted at `node`, parent first, children left to right. */
  function Preorder(node: FieldNode, depth: nat): seq<Visit>
    decreases node, 1
  {
    [Visit(node, depth)] + PreorderSeq(node.children, depth + 1)
  }

  /** The pre-order walks of `cs`, one after another. */
  function PreorderSeq(cs: seq<FieldNode>, depth: nat): seq<Visit>
    decreases cs, 0
  {
    if cs == [] then [] else PreorderSeq(cs[..|cs| - 1], depth) + Preorder(cs[|cs| - 1], depth)
  }

  /** The number of nodes in the tree rooted at `node`. */
  function Size(node: FieldNode): nat
    decreases node, 1
  {
    1 + SizeSeq(node.children)
  }

  function SizeSeq(cs: seq<FieldNode>): nat
    decreases cs, 0
  {
    if cs == [] then 0 else SizeSeq(cs[..|cs| - 1]) + Size(cs[|cs| - 1])
  }

  /** The walk visits every node exactly once: its length is the size of the tree. */
  lemma {:induction false} PreorderLength(node: FieldNode, depth: nat)
    ensures |Preorder(node, depth)| == Size(node)
    decreases node, 1
  {
    PreorderSeqLength(node.children, depth + 1);
  }

  lemma {:induction false} PreorderSeqLength(cs: seq<FieldNode>, depth: nat)
    ensures |PreorderSeq(cs, depth)| == SizeSeq(cs)
    decreases cs, 0
  {
    if cs != [] {
      PreorderSeqLength(cs[..|cs| - 1], depth);
      PreorderLength(cs[|cs| - 1], depth);
    }
  }

  /**
   * A node comes first in its own walk, at its own depth, and everything after
   * it (its descendants) lies strictly deeper.
   */
  lemma {:induction false} PreorderParentFirst(node: FieldNode, depth: nat)
    ensures Preorder(node, depth)[0] == Visit(node, depth)
    ensures forall k :: 0 < k < |Preorder(node, depth)| ==> Preorder(node, depth)[k].depth > depth
  {
    PreorderSeqDeeper(node.children, depth + 1);
  }

  lemma {:induction false} PreorderSeqDeeper(cs: seq<FieldNode>, depth: nat)
    ensures forall k :: 0 <= k < |PreorderSeq(cs, depth)| ==> PreorderSeq(cs, depth)[k].depth >= depth
    decreases cs
  {
    if cs != [] {
      PreorderSeqDeeper(cs[..|cs| - 1], depth);
      PreorderParentFirst(cs[|cs| - 1], depth);
    }
  }

  /** Walking one more child appends that child's whole walk. */
  lemma PreorderSeqSnoc(cs: seq<FieldNode>, i: nat, depth: nat)
    requires i < |cs|
    ensures PreorderSeq(cs[..i + 1], depth) == PreorderSeq(cs[..i], depth) + Preorder(cs[i], depth)
  {
    assert cs[..i + 1][..i] == cs[..i];
  }

  /** The walk of a node is its own visit, then the walks of all its children. */
  lemma PreorderChildren(node: FieldNode, depth: nat)
    ensures Preorder(node, depth) == [Visit(node, depth)] + PreorderSeq(node.children[..|node.children|], depth + 1)
  {
    assert node.children[..|node.children|] == node.children;
  }

  /**
   * By depths alone, visit `j` is the parent of visit `k`: one level up, and
   * nothing between the two is shallower than `k`. So `j` is the last visit
   * before `k` one level up.
   */
  ghost predicate DepthParent(vs: seq<Visit>, j: nat, k: nat)
  {
    && j < k < |vs|
    && vs[j].depth + 1 == vs[k].depth
    && forall i :: j < i < k ==> vs[i].depth >= vs[k].depth
  }

  /** Visit `j` is the parent of visit `k` by depths, and `k`'s node is among `j`'s children. */
  ghost predicate ParentAt(vs: seq<Visit>, j: nat, k: nat)
  {
    && DepthParent(vs, j, k)
    && vs[k].node in vs[j].node.children
  }

  /** Visit `k` has a parent among the visits before it. */
  ghost predicate HasParent(vs: seq<Visit>, k: nat)
  {
    exists j: nat :: ParentAt(vs, j, k)
  }

  /**
   * The depths of the walk give back the tree's shape: every visit but the
   * first has a parent, the last earlier visit one level up.
   */
  lemma {:induction false} PreorderParent(node: FieldNode, depth: nat)
    ensures forall k :: 0 < k < |Preorder(node, depth)| ==> HasParent(Preorder(node, depth), k)
    decreases node, 1
  {
    var v, s := Visit(node, depth), PreorderSeq(node.children, depth + 1);
    var vs := [v] + s;
    assert vs == Preorder(node, depth);
    PreorderSeqParent(node.children, depth + 1);
    PreorderSeqDeeper(node.children, depth + 1);
    forall k | 0 < k < |vs|
      ensures HasParent(vs, k)
    {
      if s[k - 1].depth == depth + 1 && s[k - 1].node in node.children {
        ParentRoot(v, s, k);
      } else {
        ParentUnder(v, s, k);
      }
    }
  }

  /** A visit one level below the first visit, with nothing shallower between, is its child. */
  lemma ParentRoot(v: Visit, s: seq<Visit>, k: nat)
    requires 0 < k <= |s|
    requires forall i :: 0 <= i < |s| ==> s[i].depth >= v.depth + 1
    requires s[k - 1].depth == v.depth + 1 && s[k - 1].node in v.node.children
    ensures HasParent([v] + s, k)
  {
    var vs := [v] + s;
    forall i | 0 < i < k
      ensures vs[i].depth >= vs[k].depth
    {
      assert vs[i] == s[i - 1];
    }
    assert ParentAt(vs, 0, k);
  }

  /** A parent found after the first visit stays a parent once that visit is put in front. */
  lemma ParentUnder(v: Visit, s: seq<Visit>, k: nat)
    requires 0 < k <= |s|
    requires HasParent(s, k - 1)
    ensures HasParent([v] + s, k)
  {
    var j: nat :| ParentAt(s, j, k - 1);
    ParentShift([v], s, j, k - 1);
    assert ParentAt([v] + s, 1 + j, k);
  }

  /**
   * In the walks of siblings one after another, a visit is either one of the
   * siblings themselves, at the top depth, or has its parent among them.
   */
  lemma {:induction false} PreorderSeqParent(cs: seq<FieldNode>, depth: nat)
    ensures forall k :: 0 <= k < |PreorderSeq(cs, depth)| ==>
      (PreorderSeq(cs, depth)[k].depth == depth && PreorderSeq(cs, depth)[k].node in cs) || HasParent(PreorderSeq(cs, depth), k)
    decreases cs, 0
  {
    if cs != [] {
      var cs', c := cs[..|cs| - 1], cs[|cs| - 1];
      var a, b := PreorderSeq(cs', depth), Preorder(c, depth);
      var s := PreorderSeq(cs, depth);
      assert s == a + b;
      assert cs == cs' + [c];
      PreorderSeqParent(cs', depth);
      PreorderParent(c, depth);
      PreorderParentFirst(c, depth);
      forall k | 0 <= k < |s|
        ensures (s[k].depth == depth && s[k].node in cs) || HasParent(s, k)
      {
        if k < |a| {
          assert s[k] == a[k];
          if !(a[k].depth == depth && a[k].node in cs') {
            assert HasParent(a, k);
            var j: nat :| ParentAt(a, j, k);
            ParentPrefix(a, b, j, k);
          }
        } else if k > |a| {
          assert HasParent(b, k - |a|);
          var j: nat :| ParentAt(b, j, k - |a|);
          ParentShift(a, b, j, k - |a|);
        }
      }
    }
  }

  lemma ParentShift(a: seq<Visit>, b: seq<Visit>, j: nat, k: nat)
    requires ParentAt(b, j, k)
    ensures ParentAt(a + b, |a| + j, |a| + k)
  {
    forall i | |a| + j < i < |a| + k
      ensures (a + b)[i].depth >= (a + b)[|a| + k].depth
    {
      assert (a + b)[i] == b[i - |a|];
    }
  }

  lemma ParentPrefix(a: seq<Visit>, b: seq<Visit>, j: nat, k: nat)
    requires ParentAt(a, j, k)
    ensures ParentAt(a + b, j, k)
  {
    forall i | j < i < k
      ensures (a + b)[i].depth >= (a + b)[k].depth
    {
      assert (a + b)[i] == a[i];
    }
  }

  /** The walks of the first `m` siblings are a prefix of the walks of all of them. */
  lemma {:induction false} PreorderSeqPrefix(cs: seq<FieldNode>, m: nat, depth: nat)
    requires m <= |cs|
    ensures PreorderSeq(cs[..m], depth) <= PreorderSeq(cs, depth)
    decreases |cs|
  {
    if m < |cs| {
      var cs' := cs[..|cs| - 1];
      assert cs'[..m] == cs[..m];
      PreorderSeqPrefix(cs', m, depth);
    } else {
      assert cs[..m] == cs;
    }
  }

  /** Where child `i` of `node` lies in the node's own walk: after the node and the walks of children `0..i-1`. */
  function ChildPos(node: FieldNode, depth: nat, i: nat): nat
    requires i <= |node.children|
  {
    1 + |PreorderSeq(node.children[..i], depth + 1)|
  }

  /**
   * Siblings come in child order: child `i` is visited right after its parent
   * and the whole walks of its earlier siblings, so before child `i + 1`.
   */
  lemma PreorderChildAt(node: FieldNode, depth: nat, i: nat)
    requires i < |node.children|
    ensures ChildPos(node, depth, i) < |Preorder(node, depth)|
    ensures Preorder(node, depth)[ChildPos(node, depth, i)] == Visit(node.children[i], depth + 1)
    ensures i + 1 < |node.children| ==> ChildPos(node, depth, i) < ChildPos(node, depth, i + 1)
  {
    var cs := node.children;
    var a, b := PreorderSeq(cs[..i], depth + 1), Preorder(cs[i], depth + 1);
    PreorderSeqSnoc(cs, i, depth + 1);
    PreorderSeqPrefix(cs, i + 1, depth + 1);
    PreorderParentFirst(cs[i], depth + 1);
    assert (a + b)[|a|] == Visit(cs[i], depth + 1);
  }

  /** Later children lie later in the walk. */
  lemma {:induction false} ChildPosIncreasing(node: FieldNode, depth: nat, i: nat, i': nat)
    requires i < i' < |node.children|
    ensures ChildPos(node, depth, i) < ChildPos(node, depth, i')
    decreases i' - i
  {
    PreorderChildAt(node, depth, i);
    if i + 1 < i' {
      ChildPosIncreasing(node, depth, i + 1, i');
    }
  }

  /** The children's places in a node's walk follow child order. */
  lemma ChildPosOrdered(node: FieldNode, depth: nat)
    ensures forall i: nat, i': nat :: i < i' < |node.children| ==> ChildPos(node, depth, i) < ChildPos(node, depth, i')
  {
    forall i: nat, i': nat | i < i' < |node.children|
      ensures ChildPos(node, depth, i) < ChildPos(node, depth, i')
    {
      ChildPosIncreasing(node, depth, i, i');
    }
  }

  /**
   * The children of a node's first visit, by depths, are exactly its
   * children: child `i` sits at `ChildPos` with the node as its parent, and
   * every visit whose depth-parent is the first visit is one of them.
   */
  lemma WalkChildren(node: FieldNode, depth: nat)
    ensures forall i: nat :: i < |node.children| ==>
      && ChildPos(node, depth, i) < |Preorder(node, depth)|
      && Preorder(node, depth)[ChildPos(node, depth, i)] == Visit(node.children[i], depth + 1)
      && ParentAt(Preorder(node, depth), 0, ChildPos(node, depth, i))
    ensures forall k: nat :: DepthParent(Preorder(node, depth), 0, k) ==>
      exists i: nat :: i < |node.children| && k == ChildPos(node, depth, i)
  {
    forall i: nat | i < |node.children|
      ensures ChildPos(node, depth, i) < |Preorder(node, depth)|
      ensures Preorder(node, depth)[ChildPos(node, depth, i)] == Visit(node.children[i], depth + 1)
      ensures ParentAt(Preorder(node, depth), 0, ChildPos(node, depth, i))
    {
      WalkChildLink(node, depth, i);
    }
    forall k: nat | DepthParent(Preorder(node, depth), 0, k)
      ensures exists i: nat :: i < |node.children| && k == ChildPos(node, depth, i)
    {
      WalkChildOnly(node, depth, k);
    }
  }

  lemma WalkChildLink(node: FieldNode, depth: nat, i: nat)
    requires i < |node.children|
    ensures ChildPos(node, depth, i) < |Preorder(node, depth)|
    ensures Preorder(node, depth)[ChildPos(node, depth, i)] == Visit(node.children[i], depth + 1)
    ensures ParentAt(Preorder(node, depth), 0, ChildPos(node, depth, i))
  {
    PreorderParentFirst(node, depth);
    PreorderChildAt(node, depth, i);
  }

  lemma WalkChildOnly(node: FieldNode, depth: nat, k: nat)
    requires DepthParent(Preorder(node, depth), 0, k)
    ensures exists i: nat :: i < |node.children| && k == ChildPos(node, depth, i)
  {
    var cs, s := node.children, PreorderSeq(node.children, depth + 1);
    assert Preorder(node, depth) == [Visit(node, depth)] + s;
    assert Preorder(node, depth)[k] == s[k - 1];
    SeqTopStarts(cs, depth + 1);
    var i: nat :| i < |cs| && k - 1 == |PreorderSeq(cs[..i], depth + 1)|;
    assert k == ChildPos(node, depth, i);
  }

  /** In the walks of siblings, a visit at the siblings' own depth starts one of their walks. */
  lemma {:induction false} SeqTopStarts(cs: seq<FieldNode>, depth: nat)
    ensures forall k :: 0 <= k < |PreorderSeq(cs, depth)| && PreorderSeq(cs, depth)[k].depth == depth ==>
      exists i: nat :: i < |cs| && k == |PreorderSeq(cs[..i], depth)|
    decreases cs
  {
    if cs != [] {
      var cs', c := cs[..|cs| - 1], cs[|cs| - 1];
      var a, b := PreorderSeq(cs', depth), Preorder(c, depth);
      var s := PreorderSeq(cs, depth);
      assert s == a + b;
      SeqTopStarts(cs', depth);
      PreorderParentFirst(c, depth);
      forall k | 0 <= k < |s| && s[k].depth == depth
        ensures exists i: nat :: i < |cs| && k == |PreorderSeq(cs[..i], depth)|
      {
        if k < |a| {
          assert s[k] == a[k];
          var i: nat :| i < |cs'| && k == |PreorderSeq(cs'[..i], depth)|;
          assert cs'[..i] == cs[..i];
        } else {
          assert s[k] == b[k - |a|];
          assert cs[..|cs| - 1] == cs';
          assert k == |PreorderSeq(cs[..|cs| - 1], depth)|;
        }
      }
    }
  }

  /**
   * The walk of visit `j`'s own node sits in `vs` at `j`, and the visit right
   * after it, if any, is no deeper than `j`.
   */
  ghost predicate SubWalkAt(vs: seq<Visit>, j: nat)
  {
    && j < |vs|
    && j + |Preorder(vs[j].node, vs[j].depth)| <= |vs|
    && vs[j..j + |Preorder(vs[j].node, vs[j].depth)|] == Preorder(vs[j].node, vs[j].depth)
    && (j + |Preorder(vs[j].node, vs[j].depth)| < |vs| ==> vs[j + |Preorder(vs[j].node, vs[j].depth)|].depth <= vs[j].depth)
  }

  /** Every visit of a walk is followed by its own node's whole walk. */
  lemma {:induction false} PreorderSubWalk(node: FieldNode, depth: nat, j: nat)
    requires j < |Preorder(node, depth)|
    ensures SubWalkAt(Preorder(node, depth), j)
    decreases node, 1
  {
    var v, s := Visit(node, depth), PreorderSeq(node.children, depth + 1);
    assert Preorder(node, depth) == [v] + s;
    if j == 0 {
      assert Preorder(node, depth)[0..|Preorder(node, depth)|] == Preorder(node, depth);
    } else {
      PreorderSeqSubWalk(node.children, depth + 1, j - 1);
      SubWalkShift([v], s, j - 1);
    }
  }

  lemma {:induction false} PreorderSeqSubWalk(cs: seq<FieldNode>, depth: nat, j: nat)
    requires j < |PreorderSeq(cs, depth)|
    ensures SubWalkAt(PreorderSeq(cs, depth), j)
    decreases cs, 0
  {
    var cs', c := cs[..|cs| - 1], cs[|cs| - 1];
    var a, b := PreorderSeq(cs', depth), Preorder(c, depth);
    assert PreorderSeq(cs, depth) == a + b;
    if j < |a| {
      PreorderSeqSubWalk(cs', depth, j);
      PreorderSeqDeeper(cs', depth);
      PreorderParentFirst(c, depth);
      SubWalkPrefix(a, b, j);
    } else {
      PreorderSubWalk(c, depth, j - |a|);
      SubWalkShift(a, b, j - |a|);
    }
  }

  lemma SubWalkShift(a: seq<Visit>, b: seq<Visit>, j: nat)
    requires SubWalkAt(b, j)
    ensures SubWalkAt(a + b, |a| + j)
  {
    var w := Preorder(b[j].node, b[j].depth);
    assert (a + b)[|a| + j] == b[j];
    assert (a + b)[|a| + j..|a| + j + |w|] == b[j..j + |w|];
    if j + |w| < |b| {
      assert (a + b)[|a| + j + |w|] == b[j + |w|];
    }
  }

  lemma SubWalkPrefix(a: seq<Visit>, b: seq<Visit>, j: nat)
    requires SubWalkAt(a, j)
    requires b != [] && j + |Preorder(a[j].node, a[j].depth)| == |a| ==> b[0].depth <= a[j].depth
    ensures SubWalkAt(a + b, j)
  {
    var w := Preorder(a[j].node, a[j].depth);
    assert (a + b)[j] == a[j];
    assert (a + b)[j..j + |w|] == a[j..j + |w|];
    if j + |w| < |a| {
      assert (a + b)[j + |w|] == a[j + |w|];
    } else if b != [] {
      assert (a + b)[j + |w|] == b[0];
    }
  }

  /**
   * The children of any visit, by depths, are exactly its node's children, at
   * their places in the node's own walk shifted to `j`.
   */
  lemma SubWalkChildren(vs: seq<Visit>, j: nat)
    requires SubWalkAt(vs, j)
    ensures forall i: nat :: i < |vs[j].node.children| ==>
      && j + ChildPos(vs[j].node, vs[j].depth, i) < |vs|
      && vs[j + ChildPos(vs[j].node, vs[j].depth, i)] == Visit(vs[j].node.children[i], vs[j].depth + 1)
      && ParentAt(vs, j, j + ChildPos(vs[j].node, vs[j].depth, i))
    ensures forall k: nat :: DepthParent(vs, j, k) ==>
      exists i: nat :: i < |vs[j].node.children| && k == j + ChildPos(vs[j].node, vs[j].depth, i)
  {
    forall i: nat | i < |vs[j].node.children|
      ensures j + ChildPos(vs[j].node, vs[j].depth, i) < |vs|
      ensures vs[j + ChildPos(vs[j].node, vs[j].depth, i)] == Visit(vs[j].node.children[i], vs[j].depth + 1)
      ensures ParentAt(vs, j, j + ChildPos(vs[j].node, vs[j].depth, i))
    {
      SubWalkChildLink(vs, j, i);
    }
    forall k: nat | DepthParent(vs, j, k)
      ensures exists i: nat :: i < |vs[j].node.children| && k == j + ChildPos(vs[j].node, vs[j].depth, i)
    {
      SubWalkChildOnly(vs, j, k);
    }
  }

  lemma SubWalkChildLink(vs: seq<Visit>, j: nat, i: nat)
    requires SubWalkAt(vs, j) && i < |vs[j].node.children|
    ensures j + ChildPos(vs[j].node, vs[j].depth, i) < |vs|
    ensures vs[j + ChildPos(vs[j].node, vs[j].depth, i)] == Visit(vs[j].node.children[i], vs[j].depth + 1)
    ensures ParentAt(vs, j, j + ChildPos(vs[j].node, vs[j].depth, i))
  {
    var node, d := vs[j].node, vs[j].depth;
    var w := Preorder(node, d);
    var pre, post := vs[..j], vs[j + |w|..];
    assert vs == pre + w + post;
    var p := ChildPos(node, d, i);
    WalkChildLink(node, d, i);
    assert vs[j + p] == w[p];
    ParentShift(pre, w, 0, p);
    ParentPrefix(pre + w, post, j, j + p);
  }

  lemma SubWalkChildOnly(vs: seq<Visit>, j: nat, k: nat)
    requires SubWalkAt(vs, j) && DepthParent(vs, j, k)
    ensures exists i: nat :: i < |vs[j].node.children| && k == j + ChildPos(vs[j].node, vs[j].depth, i)
  {
    SubWalkEnd(vs, j, k);
    DepthParentIn(vs, j, k);
    WalkChildOnly(vs[j].node, vs[j].depth, k - j);
    var i: nat :| i < |vs[j].node.children| && k - j == ChildPos(vs[j].node, vs[j].depth, i);
  }

  /** A visit whose depth-parent is `j` lies inside `j`'s own walk. */
  lemma SubWalkEnd(vs: seq<Visit>, j: nat, k: nat)
    requires SubWalkAt(vs, j) && DepthParent(vs, j, k)
    ensures k < j + |Preorder(vs[j].node, vs[j].depth)|
  {
  }

  /** Inside `j`'s own walk, depth-parenthood reads the same from that walk. */
  lemma DepthParentIn(vs: seq<Visit>, j: nat, k: nat)
    requires SubWalkAt(vs, j) && DepthParent(vs, j, k)
    requires k < j + |Preorder(vs[j].node, vs[j].depth)|
    ensures DepthParent(Preorder(vs[j].node, vs[j].depth), 0, k - j)
  {
    var w := Preorder(vs[j].node, vs[j].depth);
    assert w == vs[j..j + |w|];
    forall i | 0 < i < k - j
      ensures w[i].depth >= w[k - j].depth
    {
      assert w[i] == vs[j + i];
    }
    assert w[0] == vs[j] && w[k - j] == vs[k];
  }
}
