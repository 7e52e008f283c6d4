/**
 * The converter itself (ClassDatabaseToTypeTree). One instance performs one
 * conversion: it lays out the common table, walks the field tree interning
 * names and appending records, builds the local string buffer from the local
 * table in offset order and hashes the result.
 *
 * Every method is proved against the value-level definitions of the other
 * modules; `ConvertSpec` is the whole conversion as one function.
 */
module Converter {
  import opened StringBuffer
  import opened CommonTable
  import opened TypeTree
  import opened Flattening
  import opened TypeHash

  datatype Option<T> = None | Some(value: T)

  /** The common lookup the class database yields, or the entry `Dictionary.Add` rejects. */
  function CommonLookup(classes: ClassDatabaseFile): Result<map<string, nat>>
  {
    match CommonLayout(classes.commonStrings)
    case Duplicate(k) => Duplicate(k)
    case Ok(l) => Ok(l.lookup)
  }

  /** The walk of the whole field tree from the root at depth 0, starting with empty tables. */
  function Flatten(common: map<string, nat>, root: FieldNode): Flat
  {
    EmitAll(common, Flat(EmptyTable, []), Preorder(root, 0))
  }

  /** The converted type for a field tree, given its records and string buffer. */
  function Assemble(classType: ClassDatabaseType, buffer: string, nodes: seq<TypeTreeNode>, hash: Hash128): TypeTreeType
  {
    TypeTreeType(
      typeId := classType.classId,
      scriptTypeIndex := 0xffff,
      isStrippedType := false,
      scriptIdHash := BlankHash(),
      typeHash := hash,
      typeDependencies := [],
      stringBuffer := buffer,
      nodes := nodes)
  }

  /**
   * The whole conversion: lay out the common table (failing on a repeated
   * entry), flatten the tree, pack the local strings in offset order and hash.
   */
  function ConvertSpec(classes: ClassDatabaseFile, classType: ClassDatabaseType, commonBuffer: string,
                       md4: seq<Byte> -> seq<Byte>): Outcome
  {
    match CommonLookup(classes)
    case Duplicate(k) => ArgumentException(k)
    case Ok(common) =>
      var flat := Flatten(common, classType.node);
      var buffer := Pack(flat.table.order);
      Converted(Assemble(classType, buffer, flat.nodes, Hash128(md4(HashInput(flat.nodes, buffer, commonBuffer)))))
  }

  class ClassDatabaseToTypeTree {
    var cldbFile: ClassDatabaseFile
    var stringTablePos: nat
    var stringTableLookup: map<string, nat>
    var commonStringTableLookup: map<string, nat>
    var typeTreeNodes: seq<TypeTreeNode>
    /** The local strings in the order they were admitted (for the proofs only). */
    ghost var localOrder: seq<string>

    /** The local string table as a value. */
    ghost function Table(): LocalTable
      reads this
    {
      LocalTable(stringTableLookup, stringTablePos, localOrder)
    }

    /** The walk's state as a value: the local table and the records emitted so far. */
    ghost function State(): Flat
      reads this
    {
      Flat(Table(), typeTreeNodes)
    }

    constructor ()
      ensures stringTablePos == 0 && stringTableLookup == map[] && localOrder == []
      ensures commonStringTableLookup == map[] && typeTreeNodes == []
    {
      cldbFile := ClassDatabaseFile([]);
      stringTablePos := 0;
      stringTableLookup := map[];
      commonStringTableLookup := map[];
      typeTreeNodes := [];
      localOrder := [];
    }

    /**
     * Gives every non-empty common string its offset in the common buffer.
     * Returns the entry that `Dictionary.Add` rejects when a non-empty string
     * repeats; the lookup is then left partly filled.
     */
    method InitializeDefaultStringTableIndices() returns (thrown: Option<string>)
      requires commonStringTableLookup == map[]
      modifies this`commonStringTableLookup
      ensures match CommonLookup(cldbFile)
        case Ok(common) => thrown == None && commonStringTableLookup == common
        case Duplicate(k) => thrown == Some(k)
    {
      var commonStringTablePos: nat := 0;
      var commonStrings := cldbFile.commonStrings;
      for i := 0 to |commonStrings|
        invariant CommonLayout(commonStrings[..i]) == Ok(Layout(commonStringTableLookup, commonStringTablePos))
      {
        var strEntry := commonStrings[i];
        assert commonStrings[..i + 1][..i] == commonStrings[..i];
        if strEntry != "" {
          if strEntry in commonStringTableLookup {
            CommonLayoutDuplicateSticks(commonStrings, i + 1);
            return Some(strEntry);
          }
          commonStringTableLookup := commonStringTableLookup[strEntry := commonStringTablePos];
          commonStringTablePos := commonStringTablePos + |strEntry| + 1;
        }
      }
      assert commonStrings[..|commonStrings|] == commonStrings;
      return None;
    }

    /**
     * The offset of `s`: its local offset, else its common offset with the
     * common flag set, else a fresh local offset at the cursor, which then
     * moves past `s` and its terminator.
     */
    method Internalize(s: string) returns (offset: nat)
      modifies this`stringTableLookup, this`stringTablePos, this`localOrder
      ensures (offset, Table()) == Intern(commonStringTableLookup, old(Table()), s)
    {
      if s in stringTableLookup {
        offset := stringTableLookup[s];
      } else if s in commonStringTableLookup {
        offset := commonStringTableLookup[s] + CommonFlag;
      } else {
        offset := stringTablePos;
        stringTableLookup := stringTableLookup[s := stringTablePos];
        localOrder := localOrder + [s];
        stringTablePos := stringTablePos + |s| + 1;
      }
    }

    /**
     * Appends the record of `node` and then, child by child, the records of
     * its subtrees: the state afterwards is the walk of the pre-order visits
     * of the tree rooted at `node`.
     */
    method ConvertFields(node: FieldNode, depth: nat)
      modifies this`stringTableLookup, this`stringTablePos, this`localOrder, this`typeTreeNodes
      ensures State() == EmitAll(commonStringTableLookup, old(State()), Preorder(node, depth))
      decreases node
    {
      ghost var common, start, self := commonStringTableLookup, State(), [Visit(node, depth)];
      var fieldNamePos := Internalize(node.fieldName);
      var typeNamePos := Internalize(node.typeName);
      typeTreeNodes := typeTreeNodes + [TypeTreeNode(
        level := depth % 256,
        metaFlags := node.metaFlag,
        index := |typeTreeNodes|,
        typeFlags := node.typeFlags,
        nameStrOffset := fieldNamePos,
        byteSize := node.byteSize,
        typeStrOffset := typeNamePos,
        version := node.version)];
      EmitAllOne(common, start, self[0]);
      for i := 0 to |node.children|
        invariant commonStringTableLookup == common
        invariant State() == EmitAll(common, start, self + PreorderSeq(node.children[..i], depth + 1))
      {
        ConvertFields(node.children[i], depth + 1);
        EmitChild(common, start, node, depth, i);
      }
      PreorderChildren(node, depth);
    }

    /** The local strings in increasing order of offset (`OrderBy(n => n.Value)`). */
    static method SortByOffset(m: map<string, nat>) returns (keys: seq<string>)
      ensures Distinct(keys) && SortedBy(keys, m)
      ensures forall k :: k in keys <==> k in m
    {
      keys := [];
      var rest := m.Keys;
      while rest != {}
        invariant rest <= m.Keys
        invariant forall k :: k in m ==> (k in keys <==> k !in rest)
        invariant forall k :: k in keys ==> k in m
        invariant Distinct(keys) && SortedBy(keys, m)
        invariant forall i, k :: 0 <= i < |keys| && k in rest ==> m[keys[i]] <= m[k]
        decreases |rest|
      {
        MinExists(m, rest);
        var next :| next in rest && forall k :: k in rest ==> m[next] <= m[k];
        keys := keys + [next];
        rest := rest - {next};
      }
    }

    /** The local buffer: the strings in the given order, each followed by '\0'. */
    static method BuildStringTable(sorted: seq<string>) returns (buffer: string)
      ensures buffer == Pack(sorted)
    {
      buffer := "";
      for i := 0 to |sorted|
        invariant buffer == Pack(sorted[..i])
      {
        assert sorted[..i + 1][..i] == sorted[..i];
        buffer := buffer + (sorted[i] + "\0");
      }
      assert sorted[..|sorted|] == sorted;
    }

    /** One conversion on this instance; its outcome is `ConvertSpec`. */
    method ConvertInternal(classes: ClassDatabaseFile, classType: ClassDatabaseType, commonBuffer: string,
                           md4: seq<Byte> -> seq<Byte>) returns (r: Outcome)
      modifies this
      ensures r == ConvertSpec(classes, classType, commonBuffer, md4)
    {
      cldbFile := classes;
      stringTablePos := 0;
      stringTableLookup := map[];
      commonStringTableLookup := map[];
      typeTreeNodes := [];
      localOrder := [];
      var thrown := InitializeDefaultStringTableIndices();
      if thrown.Some? {
        return ArgumentException(thrown.value);
      }
      ghost var common := commonStringTableLookup;
      assert State() == Flat(EmptyTable, []);
      ConvertFields(classType.node, 0);
      assert State() == Flatten(common, classType.node);
      EmitAllSpec(common, Flat(EmptyTable, []), [], Preorder(classType.node, 0));
      LaidOutIncreasingBy(stringTableLookup, stringTablePos, localOrder);
      var sorted := SortByOffset(stringTableLookup);
      SortedUnique(sorted, localOrder, stringTableLookup);
      var buffer := BuildStringTable(sorted);
      var tree := Assemble(classType, buffer, typeTreeNodes, BlankHash());
      var hash := ComputeHash(tree, commonBuffer, md4);
      r := Converted(tree.(typeHash := hash));
    }

    /** `Convert(classes, type)`: a fresh converter, one conversion. */
    static method Convert(classes: ClassDatabaseFile, classType: ClassDatabaseType, commonBuffer: string,
                          md4: seq<Byte> -> seq<Byte>) returns (r: Outcome)
      ensures r == ConvertSpec(classes, classType, commonBuffer, md4)
    {
      var converter := new ClassDatabaseToTypeTree();
      r := converter.ConvertInternal(classes, classType, commonBuffer, md4);
    }

    /**
     * `Convert(classes, name)` and `Convert(classes, id)`: `found` is what the
     * lookup by name or id returned; a failed lookup gives no type tree.
     */
    static method ConvertFound(classes: ClassDatabaseFile, found: Option<ClassDatabaseType>, commonBuffer: string,
                               md4: seq<Byte> -> seq<Byte>) returns (r: Outcome)
      ensures found.None? ==> r == NullResult
      ensures found.Some? ==> r == ConvertSpec(classes, found.value, commonBuffer, md4)
    {
      if found.None? {
        return NullResult;
      }
      r := Convert(classes, found.value, commonBuffer, md4);
    }
  }

  /** A non-empty set of strings with offsets has one of least offset. */
  lemma {:induction false} MinExists(m: map<string, nat>, s: set<string>)
    requires s != {} && s <= m.Keys
    ensures exists x :: x in s && forall k :: k in s ==> m[x] <= m[k]
    decreases |s|
  {
    var y :| y in s;
    if s != {y} {
      var rest := s - {y};
      MinExists(m, rest);
      var x :| x in rest && forall k :: k in rest ==> m[x] <= m[k];
      if m[y] < m[x] {
        assert forall k :: k in s ==> m[y] <= m[k];
      } else {
        assert forall k :: k in s ==> m[x] <= m[k];
      }
    } else {
      assert forall k :: k in s ==> m[y] <= m[k];
    }
  }
}
