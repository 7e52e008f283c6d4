/**
 * The two-tier string interning and the pre-order flattening (ConvertFields),
 * stated on values. The walk's state is the local string table and the records
 * emitted so far; one node is emitted per visit, and the visits are the
 * pre-order walk of the field tree.
 */
module Flattening {
  import opened StringBuffer
  import opened TypeTree

  /**
   * The local string table: offset of each local string, the cursor where the
   * next one goes, and (for the proofs) the order in which strings were admitted.
   */
  datatype LocalTable = LocalTable(lookup: map<string, nat>, pos: nat, order: seq<string>)

  /** The state of the walk: the local table and the records emitted so far. */
  datatype Flat = Flat(table: LocalTable, nodes: seq<TypeTreeNode>)

  const EmptyTable: LocalTable := LocalTable(map[], 0, [])

  /**
   * Resolves `s` to its offset: its local offset if it has one, else its common
   * offset with the common flag set, else a fresh local offset at the cursor
   * (admitting `s` and advancing the cursor past it and its terminator).
   */
  function Intern(common: map<string, nat>, t: LocalTable, s: string): (nat, LocalTable)
  {
    if s in t.lookup then (t.lookup[s], t)
    else if s in common then (common[s] + CommonFlag, t)
    else (t.pos, LocalTable(t.lookup[s := t.pos], t.pos + |s| + 1, t.order + [s]))
  }

  /** The record emitted for visit `v` as the `index`-th node. */
  function Record(v: Visit, index: nat, nameOffset: nat, typeOffset: nat): TypeTreeNode
  {
    TypeTreeNode(
      level := v.depth % 256,
      metaFlags := v.node.metaFlag,
      index := index,
      typeFlags := v.node.typeFlags,
      nameStrOffset := nameOffset,
      byteSize := v.node.byteSize,
      typeStrOffset := typeOffset,
      version := v.node.version)
  }

  /** One visit: intern the field name, then the type name, then append the record. */
  function EmitOne(common: map<string, nat>, st: Flat, v: Visit): Flat
  {
    var (nameOffset, t1) := Intern(common, st.table, v.node.fieldName);
    var (typeOffset, t2) := Intern(common, t1, v.node.typeName);
    Flat(t2, st.nodes + [Record(v, |st.nodes|, nameOffset, typeOffset)])
  }

  /** The visits `vs`, one after another. */
  function EmitAll(common: map<string, nat>, st: Flat, vs: seq<Visit>): Flat
  {
    if vs == [] then st else EmitOne(common, EmitAll(common, st, vs[..|vs| - 1]), vs[|vs| - 1])
  }

  /**
   * The local table is laid out as a packed buffer of its strings in admission
   * order, and holds no string of the common table.
   */
  ghost predicate Valid(common: map<string, nat>, t: LocalTable)
  {
    && LaidOut(t.lookup, t.pos, t.order)
    && forall k :: k in t.lookup ==> k !in common
  }

  /** `t'` grew from `t`: no entry was removed or renumbered. */
  ghost predicate Extends(t: LocalTable, t': LocalTable)
  {
    && t.order <= t'.order
    && t.pos <= t'.pos
    && forall k :: k in t.lookup ==> k in t'.lookup && t'.lookup[k] == t.lookup[k]
  }

  /** `s` has an offset: it is local or common. */
  ghost predicate Known(common: map<string, nat>, t: LocalTable, s: string)
  {
    s in t.lookup || s in common
  }

  /** The offset a known string resolves to, read off the tables alone. */
  function Resolve(common: map<string, nat>, t: LocalTable, s: string): nat
  {
    if s in t.lookup then t.lookup[s] else if s in common then common[s] + CommonFlag else 0
  }

  /** The record a visit should have, with both names resolved against `t`. */
  function Expected(common: map<string, nat>, t: LocalTable, v: Visit, index: nat): TypeTreeNode
  {
    Record(v, index, Resolve(common, t, v.node.fieldName), Resolve(common, t, v.node.typeName))
  }

  /** Record `k` of `nodes` is the record of visit `k`, its names resolved against `t`. */
  ghost predicate Resolves(common: map<string, nat>, t: LocalTable, nodes: seq<TypeTreeNode>, vs: seq<Visit>)
  {
    && |nodes| == |vs|
    && forall k :: 0 <= k < |vs| ==>
         && Known(common, t, vs[k].node.fieldName)
         && Known(common, t, vs[k].node.typeName)
         && nodes[k] == Expected(common, t, vs[k], k)
  }

  /**
   * Interning keeps the local table laid out and disjoint from the common one,
   * only ever adds to it, and returns the offset the string now resolves to.
   * A string that is already known leaves the table as it is; an unknown one is
   * admitted at the cursor, which then moves past it and its terminator.
   */
  lemma InternSpec(common: map<string, nat>, t: LocalTable, s: string)
    requires Valid(common, t)
    ensures var (offset, t') := Intern(common, t, s);
      && Valid(common, t')
      && Extends(t, t')
      && Known(common, t', s)
      && offset == Resolve(common, t', s)
      && (Known(common, t, s) ==> t' == t)
      && (!Known(common, t, s) ==> offset == t.pos && t'.pos == t.pos + |s| + 1 && t'.order == t.order + [s])
  {
    if !Known(common, t, s) {
      LaidOutAdmit(t.lookup, t.pos, t.order, s);
    }
  }

  /** Once a string has an offset, a table grown from this one resolves it to the same offset. */
  lemma ResolveStable(common: map<string, nat>, t: LocalTable, t': LocalTable, s: string)
    requires Extends(t, t') && Valid(common, t')
    requires Known(common, t, s)
    ensures Known(common, t', s)
    ensures Resolve(common, t', s) == Resolve(common, t, s)
  {
  }

  lemma ExtendsTrans(t: LocalTable, t': LocalTable, t'': LocalTable)
    requires Extends(t, t') && Extends(t', t'')
    ensures Extends(t, t'')
  {
  }

  /** Growing the table keeps every earlier record resolved. */
  lemma ResolvesStable(common: map<string, nat>, t: LocalTable, t': LocalTable, nodes: seq<TypeTreeNode>, vs: seq<Visit>)
    requires Resolves(common, t, nodes, vs)
    requires Extends(t, t') && Valid(common, t')
    ensures Resolves(common, t', nodes, vs)
  {
    forall k | 0 <= k < |vs|
      ensures Known(common, t', vs[k].node.fieldName) && Known(common, t', vs[k].node.typeName)
      ensures nodes[k] == Expected(common, t', vs[k], k)
    {
      ResolveStable(common, t, t', vs[k].node.fieldName);
      ResolveStable(common, t, t', vs[k].node.typeName);
    }
  }

  /**
   * One visit appends exactly the record of that visit at the next index, with
   * both names resolved against the table it leaves behind, and keeps the table
   * valid and the earlier records resolved.
   */
  lemma EmitOneSpec(common: map<string, nat>, st: Flat, done: seq<Visit>, v: Visit)
    requires Valid(common, st.table) && Resolves(common, st.table, st.nodes, done)
    ensures var r := EmitOne(common, st, v);
      && Valid(common, r.table)
      && Extends(st.table, r.table)
      && Resolves(common, r.table, r.nodes, done + [v])
  {
    var (nameOffset, t1) := Intern(common, st.table, v.node.fieldName);
    InternSpec(common, st.table, v.node.fieldName);
    var (typeOffset, t2) := Intern(common, t1, v.node.typeName);
    InternSpec(common, t1, v.node.typeName);
    ExtendsTrans(st.table, t1, t2);
    ResolveStable(common, t1, t2, v.node.fieldName);
    ResolvesStable(common, st.table, t2, st.nodes, done);
    var r := EmitOne(common, st, v);
    assert r.nodes == st.nodes + [Expected(common, t2, v, |done|)];
    forall k | 0 <= k < |done + [v]|
      ensures Known(common, t2, (done + [v])[k].node.fieldName)
      ensures Known(common, t2, (done + [v])[k].node.typeName)
      ensures r.nodes[k] == Expected(common, t2, (done + [v])[k], k)
    {
      if k < |done| {
        assert (done + [v])[k] == done[k];
      }
    }
  }

  /**
   * The walk over a list of visits keeps the local table valid, only grows it,
   * and leaves record `k` equal to the record of visit `k`, with its names
   * resolved against the final table.
   */
  lemma {:induction false} EmitAllSpec(common: map<string, nat>, st: Flat, done: seq<Visit>, vs: seq<Visit>)
    requires Valid(common, st.table) && Resolves(common, st.table, st.nodes, done)
    ensures Valid(common, EmitAll(common, st, vs).table)
    ensures Extends(st.table, EmitAll(common, st, vs).table)
    ensures Resolves(common, EmitAll(common, st, vs).table, EmitAll(common, st, vs).nodes, done + vs)
    decreases |vs|
  {
    if vs == [] {
      assert done + vs == done;
    } else {
      var p, v := vs[..|vs| - 1], vs[|vs| - 1];
      assert vs == p + [v];
      assert done + vs == (done + p) + [v];
      EmitAllSpec(common, st, done, p);
      var mid := EmitAll(common, st, p);
      EmitAllStep(common, st, mid, done + p, v);
    }
  }

  lemma EmitAllStep(common: map<string, nat>, st: Flat, mid: Flat, done: seq<Visit>, v: Visit)
    requires Valid(common, mid.table) && Resolves(common, mid.table, mid.nodes, done)
    requires Extends(st.table, mid.table)
    ensures Valid(common, EmitOne(common, mid, v).table)
    ensures Extends(st.table, EmitOne(common, mid, v).table)
    ensures Resolves(common, EmitOne(common, mid, v).table, EmitOne(common, mid, v).nodes, done + [v])
  {
    EmitOneSpec(common, mid, done, v);
    ExtendsTrans(st.table, mid.table, EmitOne(common, mid, v).table);
  }

  /** Walking `a` and then `b` is walking `a + b`. */
  lemma {:induction false} EmitAllAppend(common: map<string, nat>, st: Flat, a: seq<Visit>, b: seq<Visit>)
    ensures EmitAll(common, st, a + b) == EmitAll(common, EmitAll(common, st, a), b)
    decreases |b|
  {
    if b == [] {
      assert a + b == a;
    } else {
      var b' := b[..|b| - 1];
      assert (a + b)[..|a + b| - 1] == a + b';
      assert (a + b)[|a + b| - 1] == b[|b| - 1];
      EmitAllAppend(common, st, a, b');
    }
  }

  /** Walking one visit is emitting it. */
  lemma EmitAllOne(common: map<string, nat>, st: Flat, v: Visit)
    ensures EmitAll(common, st, [v]) == EmitOne(common, st, v)
  {
    assert [v][..0] == [];
  }

  /**
   * Walking the subtree of child `i` after the node and its earlier children
   * is walking the node and its children up to `i`.
   */
  lemma EmitChild(common: map<string, nat>, start: Flat, node: FieldNode, depth: nat, i: nat)
    requires i < |node.children|
    ensures var cs, d := node.children, depth + 1;
      EmitAll(common, EmitAll(common, start, [Visit(node, depth)] + PreorderSeq(cs[..i], d)), Preorder(cs[i], d))
      == EmitAll(common, start, [Visit(node, depth)] + PreorderSeq(cs[..i + 1], d))
  {
    var cs, d := node.children, depth + 1;
    var self, done, sub := [Visit(node, depth)], PreorderSeq(cs[..i], d), Preorder(cs[i], d);
    EmitAllAppend(common, start, self + done, sub);
    PreorderSeqSnoc(cs, i, d);
    ConcatAssoc(self, done, sub);
  }

  /**
   * The field name is interned before the type name: when both are unknown and
   * different, the field name gets the cursor and the type name the offset right
   * after it; when they are the same unknown string, the type name finds the
   * entry the field name just made.
   */
  lemma FieldNameFirst(common: map<string, nat>, st: Flat, v: Visit)
    requires Valid(common, st.table)
    requires !Known(common, st.table, v.node.fieldName)
    ensures var r := EmitOne(common, st, v).nodes[|st.nodes|];
      && r.nameStrOffset == st.table.pos
      && (v.node.typeName == v.node.fieldName ==> r.typeStrOffset == st.table.pos)
      && (!Known(common, st.table, v.node.typeName) && v.node.typeName != v.node.fieldName ==>
            r.typeStrOffset == st.table.pos + |v.node.fieldName| + 1)
  {
  }

  /** Some visit of `vs` has `k` as its field name or its type name. */
  ghost predicate Mentions(vs: seq<Visit>, k: string)
  {
    exists i :: 0 <= i < |vs| && (vs[i].node.fieldName == k || vs[i].node.typeName == k)
  }

  /**
   * The walk admits to the local table exactly the names of the visited nodes
   * that the common table does not hold.
   */
  lemma {:induction false} EmitAllKeys(common: map<string, nat>, st: Flat, vs: seq<Visit>)
    ensures forall k :: k in EmitAll(common, st, vs).table.lookup <==>
      k in st.table.lookup || (k !in common && Mentions(vs, k))
    decreases |vs|
  {
    if vs != [] {
      var p, v := vs[..|vs| - 1], vs[|vs| - 1];
      EmitAllKeys(common, st, p);
      var mid := EmitAll(common, st, p);
      var t1 := Intern(common, mid.table, v.node.fieldName).1;
      var t2 := Intern(common, t1, v.node.typeName).1;
      assert EmitAll(common, st, vs).table == t2;
      forall k
        ensures k in t2.lookup <==> k in st.table.lookup || (k !in common && Mentions(vs, k))
      {
        assert k in t2.lookup <==> k in mid.table.lookup || (k !in common && (k == v.node.fieldName || k == v.node.typeName));
        if Mentions(p, k) {
          var i :| 0 <= i < |p| && (p[i].node.fieldName == k || p[i].node.typeName == k);
          assert vs[i] == p[i];
        }
        if Mentions(vs, k) {
          var i :| 0 <= i < |vs| && (vs[i].node.fieldName == k || vs[i].node.typeName == k);
          assert i < |p| ==> p[i] == vs[i];
        }
        if k == v.node.fieldName || k == v.node.typeName {
          assert vs[|vs| - 1] == v;
        }
      }
    }
  }
}
