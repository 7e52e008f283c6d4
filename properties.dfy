/**
 * What a conversion promises, stated on `ConvertSpec` (which the converter's
 * methods compute): when it fails, the shape of the flat node list, the offset
 * scheme and its round trip through the two buffers, the local buffer's
 * contents and the hash input.
 */
module Properties {
  import opened StringBuffer
  import opened CommonTable
  import opened TypeTree
  import opened Flattening
  import opened TypeHash
  import opened Converter

  /** No field or type name of the visits contains '\0'. */
  ghost predicate NamesNoNul(vs: seq<Visit>)
  {
    forall i :: 0 <= i < |vs| ==> NoNul(vs[i].node.fieldName) && NoNul(vs[i].node.typeName)
  }

  /** What the hash sees of one visit when every offset reads back its own name. */
  function VisitBytes(v: Visit): seq<Byte>
  {
    RecordBytes(v.node.typeName, v.node.fieldName, v.node.byteSize, v.node.typeFlags, v.node.version, v.node.metaFlag)
  }

  /** The hash input written in terms of the visited nodes' own names and fields. */
  function NamesInput(vs: seq<Visit>): seq<Byte>
  {
    ConcatMap(vs, VisitBytes)
  }

  /** The walk from empty tables keeps its invariant: the table is laid out and every record resolves. */
  lemma FlattenSpec(common: map<string, nat>, root: FieldNode)
    ensures Valid(common, Flatten(common, root).table)
    ensures Resolves(common, Flatten(common, root).table, Flatten(common, root).nodes, Preorder(root, 0))
  {
    assert [] + Preorder(root, 0) == Preorder(root, 0);
    EmitAllSpec(common, Flat(EmptyTable, []), [], Preorder(root, 0));
  }

  /**
   * A conversion never yields the null result (that is for a failed lookup);
   * it throws exactly when a non-empty common string repeats, and then names
   * a non-empty string that occurs twice in the common list.
   */
  lemma ConvertOutcome(classes: ClassDatabaseFile, classType: ClassDatabaseType, commonBuffer: string,
                       md4: seq<Byte> -> seq<Byte>)
    ensures var r := ConvertSpec(classes, classType, commonBuffer, md4);
      && !r.NullResult?
      && (r.ArgumentException? <==> HasRepeat(classes.commonStrings))
      && (r.ArgumentException? ==>
            && r.key != ""
            && exists i, j :: 0 <= i < j < |classes.commonStrings|
                 && classes.commonStrings[i] == r.key && classes.commonStrings[j] == r.key)
  {
    CommonLayoutSucceeds(classes.commonStrings);
  }

  /**
   * A converted type has the fixed header fields and one record per node of
   * the field tree, in pre-order: record `k` has index `k`, the depth of the
   * `k`-th visited node truncated to a byte as its level, and that node's
   * metadata, type flags, size and version.
   */
  lemma ConvertedNodes(classes: ClassDatabaseFile, classType: ClassDatabaseType, commonBuffer: string,
                       md4: seq<Byte> -> seq<Byte>)
    requires ConvertSpec(classes, classType, commonBuffer, md4).Converted?
    ensures var tree, vs := ConvertSpec(classes, classType, commonBuffer, md4).tree, Preorder(classType.node, 0);
      && tree.typeId == classType.classId
      && tree.scriptTypeIndex == 0xffff
      && !tree.isStrippedType
      && tree.scriptIdHash == BlankHash()
      && tree.typeDependencies == []
      && |tree.nodes| == |vs| == Size(classType.node)
      && forall k :: 0 <= k < |vs| ==>
           && tree.nodes[k].index == k
           && tree.nodes[k].level == vs[k].depth % 256
           && tree.nodes[k].metaFlags == vs[k].node.metaFlag
           && tree.nodes[k].typeFlags == vs[k].node.typeFlags
           && tree.nodes[k].byteSize == vs[k].node.byteSize
           && tree.nodes[k].version == vs[k].node.version
  {
    var common := CommonLookup(classes).value;
    FlattenSpec(common, classType.node);
    PreorderLength(classType.node, 0);
  }

  /**
   * Record `j` is the parent of record `k` by levels alone: one level up, and
   * no record between the two is shallower than `k`, so `j` is the last
   * record before `k` one level up.
   */
  ghost predicate LevelParent(nodes: seq<TypeTreeNode>, j: nat, k: nat)
  {
    && j < k < |nodes|
    && nodes[j].level as int + 1 == nodes[k].level as int
    && forall i :: j < i < k ==> nodes[i].level >= nodes[k].level
  }

  /** Record `j` is the level-parent of record `k`, and visit `j`'s node holds visit `k`'s node among its children. */
  ghost predicate LevelParentAt(nodes: seq<TypeTreeNode>, vs: seq<Visit>, j: nat, k: nat)
  {
    && LevelParent(nodes, j, k)
    && k < |vs|
    && vs[k].node in vs[j].node.children
  }

  /** Record `k` has a parent among the records before it. */
  ghost predicate HasLevelParent(nodes: seq<TypeTreeNode>, vs: seq<Visit>, k: nat)
  {
    exists j: nat :: LevelParentAt(nodes, vs, j, k)
  }

  /**
   * One half of the levels rebuilding the class's field tree: while no field
   * sits 256 or more levels deep, every record but the first has as parent
   * the last earlier record one level up. `ConvertedChildren` is the other
   * half.
   */
  lemma ConvertedParents(classes: ClassDatabaseFile, classType: ClassDatabaseType, commonBuffer: string,
                         md4: seq<Byte> -> seq<Byte>)
    requires ConvertSpec(classes, classType, commonBuffer, md4).Converted?
    requires forall k :: 0 <= k < |Preorder(classType.node, 0)| ==> Preorder(classType.node, 0)[k].depth < 256
    ensures forall k :: 0 < k < |ConvertSpec(classes, classType, commonBuffer, md4).tree.nodes| ==>
      HasLevelParent(ConvertSpec(classes, classType, commonBuffer, md4).tree.nodes, Preorder(classType.node, 0), k)
  {
    ConvertedNodes(classes, classType, commonBuffer, md4);
    PreorderParent(classType.node, 0);
    LevelsGiveParents(ConvertSpec(classes, classType, commonBuffer, md4).tree.nodes, Preorder(classType.node, 0));
  }

  /** Levels that are the depths of visits below 256 keep every visit's parent. */
  lemma LevelsGiveParents(nodes: seq<TypeTreeNode>, vs: seq<Visit>)
    requires |nodes| == |vs|
    requires forall k :: 0 <= k < |vs| ==> vs[k].depth < 256 && nodes[k].level == vs[k].depth % 256
    requires forall k :: 0 < k < |vs| ==> HasParent(vs, k)
    ensures forall k :: 0 < k < |nodes| ==> HasLevelParent(nodes, vs, k)
  {
    forall k | 0 < k < |nodes|
      ensures HasLevelParent(nodes, vs, k)
    {
      assert HasParent(vs, k);
      var j: nat :| ParentAt(vs, j, k);
      forall i | j < i < k
        ensures nodes[i].level >= nodes[k].level
      {
        assert vs[i].depth >= vs[k].depth;
      }
      assert LevelParentAt(nodes, vs, j, k);
    }
  }

  /**
   * The records whose level-parent is record `j` are exactly the records of
   * visit `j`'s children, in child order: child `i` is at `j + ChildPos`, has
   * `j` as level-parent, and later children lie later; no other record has `j`
   * as level-parent.
   */
  ghost predicate LevelChildren(nodes: seq<TypeTreeNode>, vs: seq<Visit>, j: nat)
  {
    && j < |vs|
    && (forall i: nat :: i < |vs[j].node.children| ==>
          && j + ChildPos(vs[j].node, vs[j].depth, i) < |vs|
          && vs[j + ChildPos(vs[j].node, vs[j].depth, i)].node == vs[j].node.children[i]
          && LevelParent(nodes, j, j + ChildPos(vs[j].node, vs[j].depth, i)))
    && (forall i: nat, i': nat :: i < i' < |vs[j].node.children| ==>
          ChildPos(vs[j].node, vs[j].depth, i) < ChildPos(vs[j].node, vs[j].depth, i'))
    && (forall k: nat :: LevelParent(nodes, j, k) ==>
          exists i: nat :: i < |vs[j].node.children| && k == j + ChildPos(vs[j].node, vs[j].depth, i))
  }

  /**
   * The converse of `ConvertedParents`: while no field sits 256 or more levels
   * deep, the records that the levels make children of record `j` are exactly
   * the records of its node's children, in child order.
   */
  lemma ConvertedChildren(classes: ClassDatabaseFile, classType: ClassDatabaseType, commonBuffer: string,
                          md4: seq<Byte> -> seq<Byte>, j: nat)
    requires ConvertSpec(classes, classType, commonBuffer, md4).Converted?
    requires forall k :: 0 <= k < |Preorder(classType.node, 0)| ==> Preorder(classType.node, 0)[k].depth < 256
    requires j < |Preorder(classType.node, 0)|
    ensures LevelChildren(ConvertSpec(classes, classType, commonBuffer, md4).tree.nodes, Preorder(classType.node, 0), j)
  {
    ConvertedNodes(classes, classType, commonBuffer, md4);
    PreorderSubWalk(classType.node, 0, j);
    LevelsGiveChildren(ConvertSpec(classes, classType, commonBuffer, md4).tree.nodes, Preorder(classType.node, 0), j);
  }

  /** Levels that are the depths of visits below 256 give every visit exactly its node's children. */
  lemma LevelsGiveChildren(nodes: seq<TypeTreeNode>, vs: seq<Visit>, j: nat)
    requires |nodes| == |vs|
    requires forall k :: 0 <= k < |vs| ==> vs[k].depth < 256 && nodes[k].level == vs[k].depth % 256
    requires SubWalkAt(vs, j)
    ensures LevelChildren(nodes, vs, j)
  {
    LevelChildLinks(nodes, vs, j);
    ChildPosOrdered(vs[j].node, vs[j].depth);
    LevelChildrenOnly(nodes, vs, j);
  }

  lemma LevelChildLinks(nodes: seq<TypeTreeNode>, vs: seq<Visit>, j: nat)
    requires |nodes| == |vs|
    requires forall k :: 0 <= k < |vs| ==> vs[k].depth < 256 && nodes[k].level == vs[k].depth % 256
    requires SubWalkAt(vs, j)
    ensures forall i: nat :: i < |vs[j].node.children| ==>
      && j + ChildPos(vs[j].node, vs[j].depth, i) < |vs|
      && vs[j + ChildPos(vs[j].node, vs[j].depth, i)].node == vs[j].node.children[i]
      && LevelParent(nodes, j, j + ChildPos(vs[j].node, vs[j].depth, i))
  {
    forall i: nat | i < |vs[j].node.children|
      ensures j + ChildPos(vs[j].node, vs[j].depth, i) < |vs|
      ensures vs[j + ChildPos(vs[j].node, vs[j].depth, i)].node == vs[j].node.children[i]
      ensures LevelParent(nodes, j, j + ChildPos(vs[j].node, vs[j].depth, i))
    {
      LevelChildLink(nodes, vs, j, i);
    }
  }

  lemma LevelChildLink(nodes: seq<TypeTreeNode>, vs: seq<Visit>, j: nat, i: nat)
    requires |nodes| == |vs|
    requires forall k :: 0 <= k < |vs| ==> vs[k].depth < 256 && nodes[k].level == vs[k].depth % 256
    requires SubWalkAt(vs, j) && i < |vs[j].node.children|
    ensures j + ChildPos(vs[j].node, vs[j].depth, i) < |vs|
    ensures vs[j + ChildPos(vs[j].node, vs[j].depth, i)].node == vs[j].node.children[i]
    ensures LevelParent(nodes, j, j + ChildPos(vs[j].node, vs[j].depth, i))
  {
    SubWalkChildLink(vs, j, i);
    LevelsMatchDepths(nodes, vs, j, j + ChildPos(vs[j].node, vs[j].depth, i));
  }

  lemma LevelChildrenOnly(nodes: seq<TypeTreeNode>, vs: seq<Visit>, j: nat)
    requires |nodes| == |vs|
    requires forall k :: 0 <= k < |vs| ==> vs[k].depth < 256 && nodes[k].level == vs[k].depth % 256
    requires SubWalkAt(vs, j)
    ensures forall k: nat :: LevelParent(nodes, j, k) ==>
      exists i: nat :: i < |vs[j].node.children| && k == j + ChildPos(vs[j].node, vs[j].depth, i)
  {
    forall k: nat | LevelParent(nodes, j, k)
      ensures exists i: nat :: i < |vs[j].node.children| && k == j + ChildPos(vs[j].node, vs[j].depth, i)
    {
      LevelsMatchDepths(nodes, vs, j, k);
      SubWalkChildOnly(vs, j, k);
    }
  }

  /** Below 256, a level-parent is a depth-parent and the other way round. */
  lemma LevelsMatchDepths(nodes: seq<TypeTreeNode>, vs: seq<Visit>, j: nat, k: nat)
    requires |nodes| == |vs|
    requires forall k :: 0 <= k < |vs| ==> vs[k].depth < 256 && nodes[k].level == vs[k].depth % 256
    ensures LevelParent(nodes, j, k) <==> DepthParent(vs, j, k)
  {
  }

  /**
   * The same string gets the same offset wherever it occurs, as a field name
   * or as a type name; a name's offset carries the common flag exactly when
   * the common table holds it, and then the rest is its common offset.
   */
  lemma ConvertedOffsets(classes: ClassDatabaseFile, classType: ClassDatabaseType, commonBuffer: string,
                         md4: seq<Byte> -> seq<Byte>)
    requires ConvertSpec(classes, classType, commonBuffer, md4).Converted?
    requires |ConvertSpec(classes, classType, commonBuffer, md4).tree.stringBuffer| <= CommonFlag
    ensures var tree, vs := ConvertSpec(classes, classType, commonBuffer, md4).tree, Preorder(classType.node, 0);
      var common := CommonLookup(classes).value;
      && |tree.nodes| == |vs|
      && (forall i, j :: 0 <= i < |vs| && 0 <= j < |vs| ==>
            && (vs[i].node.fieldName == vs[j].node.fieldName ==> tree.nodes[i].nameStrOffset == tree.nodes[j].nameStrOffset)
            && (vs[i].node.fieldName == vs[j].node.typeName ==> tree.nodes[i].nameStrOffset == tree.nodes[j].typeStrOffset)
            && (vs[i].node.typeName == vs[j].node.typeName ==> tree.nodes[i].typeStrOffset == tree.nodes[j].typeStrOffset))
      && (forall k :: 0 <= k < |vs| ==>
            && (tree.nodes[k].nameStrOffset >= CommonFlag <==> vs[k].node.fieldName in common)
            && (tree.nodes[k].typeStrOffset >= CommonFlag <==> vs[k].node.typeName in common)
            && (vs[k].node.fieldName in common ==> tree.nodes[k].nameStrOffset == common[vs[k].node.fieldName] + CommonFlag)
            && (vs[k].node.typeName in common ==> tree.nodes[k].typeStrOffset == common[vs[k].node.typeName] + CommonFlag))
  {
    var common := CommonLookup(classes).value;
    var flat, vs := Flatten(common, classType.node), Preorder(classType.node, 0);
    FlattenSpec(common, classType.node);
    forall k | 0 <= k < |vs|
      ensures LocalBelowFlag(common, flat.table, vs[k].node.fieldName)
      ensures LocalBelowFlag(common, flat.table, vs[k].node.typeName)
    {
      ResolveLocalBelowFlag(common, flat.table, vs[k].node.fieldName);
      ResolveLocalBelowFlag(common, flat.table, vs[k].node.typeName);
    }
  }

  /** A known string's offset is flagged exactly when it is common, and then holds its common offset. */
  ghost predicate LocalBelowFlag(common: map<string, nat>, t: LocalTable, s: string)
  {
    && (Resolve(common, t, s) >= CommonFlag <==> s in common)
    && (s in common ==> Resolve(common, t, s) == common[s] + CommonFlag)
  }

  lemma ResolveLocalBelowFlag(common: map<string, nat>, t: LocalTable, s: string)
    requires Valid(common, t) && Known(common, t, s) && |Pack(t.order)| <= CommonFlag
    ensures LocalBelowFlag(common, t, s)
  {
    if s in t.lookup {
      LaidOutAt(t.lookup, t.pos, t.order, s);
    }
  }

  /**
   * Offset/buffer round trip: reading a known string's offset back (from the
   * local buffer, or from the common buffer when the flag is set) gives the
   * string itself.
   */
  lemma ResolveReadsBack(xs: seq<string>, t: LocalTable, s: string, commonBuffer: string)
    requires CommonLayout(xs).Ok?
    requires Valid(CommonLayout(xs).value.lookup, t) && Known(CommonLayout(xs).value.lookup, t, s)
    requires NoNul(s)
    requires commonBuffer == Pack(NonEmpty(xs)) && |Pack(t.order)| <= CommonFlag
    ensures StringAt(Pack(t.order), commonBuffer, Resolve(CommonLayout(xs).value.lookup, t, s)) == s
  {
    if s in t.lookup {
      LaidOutAt(t.lookup, t.pos, t.order, s);
      LaidOutReadsBack(t.lookup, t.pos, t.order, s);
    } else {
      CommonReadsBack(xs, s);
    }
  }

  /** A common string reads back from the common buffer at its common offset. */
  lemma CommonReadsBack(xs: seq<string>, s: string)
    requires CommonLayout(xs).Ok? && s in CommonLayout(xs).value.lookup && NoNul(s)
    ensures ReadCString(Pack(NonEmpty(xs)), CommonLayout(xs).value.lookup[s]) == s
  {
    CommonBufferAt(xs, s);
    ReadCStringAt(Pack(NonEmpty(xs)), CommonLayout(xs).value.lookup[s], s);
  }

  /**
   * Every record's name and type offsets read back, through the local buffer
   * or the common buffer, as the names of the node it was made from.
   */
  lemma ConvertedNamesReadBack(classes: ClassDatabaseFile, classType: ClassDatabaseType, commonBuffer: string,
                               md4: seq<Byte> -> seq<Byte>)
    requires ConvertSpec(classes, classType, commonBuffer, md4).Converted?
    requires commonBuffer == Pack(NonEmpty(classes.commonStrings))
    requires NamesNoNul(Preorder(classType.node, 0))
    requires |ConvertSpec(classes, classType, commonBuffer, md4).tree.stringBuffer| <= CommonFlag
    ensures var tree, vs := ConvertSpec(classes, classType, commonBuffer, md4).tree, Preorder(classType.node, 0);
      && |tree.nodes| == |vs|
      && forall k :: 0 <= k < |vs| ==>
           && StringAt(tree.stringBuffer, commonBuffer, tree.nodes[k].nameStrOffset) == vs[k].node.fieldName
           && StringAt(tree.stringBuffer, commonBuffer, tree.nodes[k].typeStrOffset) == vs[k].node.typeName
  {
    var common := CommonLookup(classes).value;
    var flat, vs := Flatten(common, classType.node), Preorder(classType.node, 0);
    FlattenSpec(common, classType.node);
    forall k | 0 <= k < |vs|
      ensures StringAt(Pack(flat.table.order), commonBuffer, flat.nodes[k].nameStrOffset) == vs[k].node.fieldName
      ensures StringAt(Pack(flat.table.order), commonBuffer, flat.nodes[k].typeStrOffset) == vs[k].node.typeName
    {
      ResolveReadsBack(classes.commonStrings, flat.table, vs[k].node.fieldName, commonBuffer);
      ResolveReadsBack(classes.commonStrings, flat.table, vs[k].node.typeName, commonBuffer);
    }
  }

  /**
   * The local buffer holds each name of the tree that the common table lacks,
   * exactly once, and nothing else; its length is the final cursor, the sum
   * of `length + 1` over those strings.
   */
  lemma ConvertedLocalStrings(classes: ClassDatabaseFile, classType: ClassDatabaseType, commonBuffer: string,
                              md4: seq<Byte> -> seq<Byte>)
    requires ConvertSpec(classes, classType, commonBuffer, md4).Converted?
    requires NamesNoNul(Preorder(classType.node, 0))
    ensures var tree, vs := ConvertSpec(classes, classType, commonBuffer, md4).tree, Preorder(classType.node, 0);
      var common := CommonLookup(classes).value;
      var locals := Unpack(tree.stringBuffer, 0);
      && Distinct(locals)
      && (forall k :: k in locals <==> Mentions(vs, k) && k !in common)
      && |tree.stringBuffer| == PackedSize(locals)
  {
    var common := CommonLookup(classes).value;
    var flat, vs := Flatten(common, classType.node), Preorder(classType.node, 0);
    var order := flat.table.order;
    FlattenSpec(common, classType.node);
    EmitAllKeys(common, Flat(EmptyTable, []), vs);
    LocalNamesNoNul(common, flat.table, vs);
    UnpackPack(order);
    PackedSizeIsLength(order);
  }

  /** Local strings are names of visited nodes, so none of them contains '\0'. */
  lemma LocalNamesNoNul(common: map<string, nat>, t: LocalTable, vs: seq<Visit>)
    requires NamesNoNul(vs)
    requires forall k :: k in t.lookup <==> k in t.order
    requires forall k :: k in t.lookup ==> Mentions(vs, k)
    ensures forall i :: 0 <= i < |t.order| ==> NoNul(t.order[i])
  {
    forall i | 0 <= i < |t.order|
      ensures NoNul(t.order[i])
    {
      assert t.order[i] in t.lookup;
      var j :| 0 <= j < |vs| && (vs[j].node.fieldName == t.order[i] || vs[j].node.typeName == t.order[i]);
    }
  }

  lemma NodeBytesOfVisit(n: TypeTreeNode, v: Visit, buffer: string, commonBuffer: string)
    requires StringAt(buffer, commonBuffer, n.typeStrOffset) == v.node.typeName
    requires StringAt(buffer, commonBuffer, n.nameStrOffset) == v.node.fieldName
    requires n.byteSize == v.node.byteSize && n.typeFlags == v.node.typeFlags
    requires n.version == v.node.version && n.metaFlags == v.node.metaFlag
    ensures NodeBytes(n, buffer, commonBuffer) == VisitBytes(v)
  {
  }

  /**
   * When every record reads back the names of its visit and copies its
   * integer fields, the records' hash input is the visits' own.
   */
  lemma TreeHashInput(tree: TypeTreeType, vs: seq<Visit>, commonBuffer: string)
    requires |tree.nodes| == |vs|
    requires forall k :: 0 <= k < |vs| ==>
      && StringAt(tree.stringBuffer, commonBuffer, tree.nodes[k].typeStrOffset) == vs[k].node.typeName
      && StringAt(tree.stringBuffer, commonBuffer, tree.nodes[k].nameStrOffset) == vs[k].node.fieldName
      && tree.nodes[k].byteSize == vs[k].node.byteSize && tree.nodes[k].typeFlags == vs[k].node.typeFlags
      && tree.nodes[k].version == vs[k].node.version && tree.nodes[k].metaFlags == vs[k].node.metaFlag
    ensures HashInput(tree.nodes, tree.stringBuffer, commonBuffer) == NamesInput(vs)
  {
    var f := RecordEncoder(tree.stringBuffer, commonBuffer);
    forall k | 0 <= k < |vs|
      ensures f(tree.nodes[k]) == VisitBytes(vs[k])
    {
      NodeBytesOfVisit(tree.nodes[k], vs[k], tree.stringBuffer, commonBuffer);
    }
    ConcatMapPointwise(tree.nodes, f, vs, VisitBytes);
  }

  /**
   * The type hash is MD4 of, node by node in pre-order: the type name, the
   * field name, then the size, type flags, version and transient bit as
   * 4-byte integers.
   */
  lemma ConvertedHash(classes: ClassDatabaseFile, classType: ClassDatabaseType, commonBuffer: string,
                      md4: seq<Byte> -> seq<Byte>)
    requires ConvertSpec(classes, classType, commonBuffer, md4).Converted?
    requires commonBuffer == Pack(NonEmpty(classes.commonStrings))
    requires NamesNoNul(Preorder(classType.node, 0))
    requires |ConvertSpec(classes, classType, commonBuffer, md4).tree.stringBuffer| <= CommonFlag
    ensures ConvertSpec(classes, classType, commonBuffer, md4).tree.typeHash
         == Hash128(md4(NamesInput(Preorder(classType.node, 0))))
  {
    var tree, vs := ConvertSpec(classes, classType, commonBuffer, md4).tree, Preorder(classType.node, 0);
    ConvertedNodes(classes, classType, commonBuffer, md4);
    ConvertedNamesReadBack(classes, classType, commonBuffer, md4);
    TreeHashInput(tree, vs, commonBuffer);
  }

  /** The field tree of the example below: a root "Base" of type "Base" with one "int" field "m_Value". */
  function ExampleRoot(): FieldNode
  {
    FieldNode("Base", "Base", -1, 1, 0, 0, [ExampleChild()])
  }

  function ExampleChild(): FieldNode
  {
    FieldNode("m_Value", "int", 4, 1, 0, 0, [])
  }

  /** The table after the example's root: "Base" at offset 0. */
  const ExampleTable1: LocalTable := LocalTable(map["Base" := 0], 5, ["Base"])

  /** The table after the example's field: "m_Value" at 5, then "int" at 13. */
  const ExampleTable2: LocalTable := LocalTable(map["Base" := 0, "m_Value" := 5, "int" := 13], 17, ["Base", "m_Value", "int"])

  lemma ExampleFirstRecord()
    ensures EmitOne(map[], Flat(EmptyTable, []), Visit(ExampleRoot(), 0))
         == Flat(ExampleTable1, [Record(Visit(ExampleRoot(), 0), 0, 0, 0)])
  {
  }

  lemma ExampleSecondRecord(nodes: seq<TypeTreeNode>)
    ensures EmitOne(map[], Flat(ExampleTable1, nodes), Visit(ExampleChild(), 1))
         == Flat(ExampleTable2, nodes + [Record(Visit(ExampleChild(), 1), |nodes|, 5, 13)])
  {
    assert ExampleTable1.lookup["m_Value" := 5]["int" := 13] == ExampleTable2.lookup;
  }

  /**
   * With no common strings, the example's field name is interned before its
   * type name, so the buffer holds "Base", "m_Value", "int" in that order, and
   * the two records point at offsets 0/0 and 5/13.
   */
  lemma BaseWithOneInt()
    ensures var flat := Flatten(map[], ExampleRoot());
      && flat.table.order == ["Base", "m_Value", "int"]
      && Pack(flat.table.order) == "Base\0m_Value\0int\0"
      && |flat.nodes| == 2
      && flat.nodes[0].level == 0 && flat.nodes[0].nameStrOffset == 0 && flat.nodes[0].typeStrOffset == 0
      && flat.nodes[1].level == 1 && flat.nodes[1].nameStrOffset == 5 && flat.nodes[1].typeStrOffset == 13
  {
    var v0, v1, st0 := Visit(ExampleRoot(), 0), Visit(ExampleChild(), 1), Flat(EmptyTable, []);
    assert PreorderSeq([ExampleChild()], 1) == [v1] by {
      assert [ExampleChild()][..0] == [];
    }
    assert Preorder(ExampleRoot(), 0) == [v0] + [v1];
    EmitAllAppend(map[], st0, [v0], [v1]);
    EmitAllOne(map[], st0, v0);
    ExampleFirstRecord();
    var st1 := EmitOne(map[], st0, v0);
    EmitAllOne(map[], st1, v1);
    ExampleSecondRecord(st1.nodes);
    assert Pack(["Base", "m_Value", "int"]) == "Base\0m_Value\0int\0" by {
      assert ["Base", "m_Value", "int"][..2] == ["Base", "m_Value"];
      assert ["Base", "m_Value"][..1] == ["Base"];
      assert ["Base"][..0] == [];
    }
  }
}
