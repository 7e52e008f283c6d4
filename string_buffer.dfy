/**
 * Null-terminated string buffers.
 *
 * Both string tables of a type tree are laid out the same way: the strings in
 * order, each followed by a single '\0', and a string's offset is the sum of
 * `|x| + 1` over the strings before it. The local buffer built by the converter
 * and the common buffer that the common-table offsets point into are both
 * `Pack` of some list of strings.
 */
module StringBuffer {

  /** The strings of `xs` in order, each followed by one '\0'. */
  function Pack(xs: seq<string>): string
  {
    if xs == [] then "" else Pack(xs[..|xs| - 1]) + xs[|xs| - 1] + "\0"
  }

  /** The sum of `|x| + 1` over `xs`: the cursor after admitting every string of `xs`. */
  function PackedSize(xs: seq<string>): nat
  {
    if xs == [] then 0 else PackedSize(xs[..|xs| - 1]) + |xs[|xs| - 1]| + 1
  }

  /** The characters of `buf` from `o` up to (not including) the next '\0' or the end. */
  function ReadCString(buf: string, o: nat): (r: string)
    ensures o <= |buf| ==> o + |r| <= |buf|
    ensures o <= |buf| ==> r == buf[o..o + |r|]
    ensures '\0' !in r
    decreases |buf| - o
  {
    if o >= |buf| || buf[o] == '\0' then "" else [buf[o]] + ReadCString(buf, o + 1)
  }

  /** Splits a buffer at its terminators, from offset `o` on: the inverse of `Pack`. */
  function Unpack(buf: string, o: nat): seq<string>
    decreases |buf| - o
  {
    if o >= |buf| then [] else [ReadCString(buf, o)] + Unpack(buf, o + |ReadCString(buf, o)| + 1)
  }

  /** A string can be stored in a null-terminated buffer and read back unchanged. */
  predicate NoNul(s: string)
  {
    '\0' !in s
  }

  lemma {:induction false} PackedSizeIsLength(xs: seq<string>)
    ensures |Pack(xs)| == PackedSize(xs)
  {
    if xs != [] {
      PackedSizeIsLength(xs[..|xs| - 1]);
    }
  }

  /** Packing distributes over concatenation. */
  lemma {:induction false} PackAppend(a: seq<string>, b: seq<string>)
    ensures Pack(a + b) == Pack(a) + Pack(b)
    decreases |b|
  {
    if b == [] {
      assert a + b == a;
    } else {
      var b' := b[..|b| - 1];
      assert (a + b)[..|a + b| - 1] == a + b';
      assert (a + b)[|a + b| - 1] == b[|b| - 1];
      PackAppend(a, b');
    }
  }

  /**
   * The string at position `|a|` of a packed list sits at offset
   * `PackedSize(a)` and is followed by its terminator.
   */
  lemma PackAt(a: seq<string>, s: string, b: seq<string>, o: nat)
    requires o == PackedSize(a)
    ensures o + |s| < |Pack(a + [s] + b)|
    ensures Pack(a + [s] + b)[o..o + |s|] == s
    ensures Pack(a + [s] + b)[o + |s|] == '\0'
  {
    PackAppend(a + [s], b);
    assert (a + [s])[..|a + [s]| - 1] == a;
    assert Pack(a + [s]) == Pack(a) + s + "\0";
    PackedSizeIsLength(a);
  }

  /** `PackAt` for the `k`-th string of one list. */
  lemma PackAtIndex(xs: seq<string>, k: nat)
    requires k < |xs|
    ensures PackedSize(xs[..k]) + |xs[k]| < |Pack(xs)|
    ensures Pack(xs)[PackedSize(xs[..k])..PackedSize(xs[..k]) + |xs[k]|] == xs[k]
    ensures Pack(xs)[PackedSize(xs[..k]) + |xs[k]|] == '\0'
  {
    assert xs == xs[..k] + [xs[k]] + xs[k + 1..];
    PackAt(xs[..k], xs[k], xs[k + 1..], PackedSize(xs[..k]));
  }

  /** Offsets of later strings lie beyond the end of earlier ones. */
  lemma {:induction false} PackedSizeGrows(xs: seq<string>, i: nat, j: nat)
    requires i < j <= |xs|
    ensures PackedSize(xs[..i]) + |xs[i]| + 1 <= PackedSize(xs[..j])
    decreases j
  {
    assert xs[..j][..j - 1] == xs[..j - 1];
    if i < j - 1 {
      PackedSizeGrows(xs, i, j - 1);
    } else {
      assert xs[..j][j - 1] == xs[i];
    }
  }

  /** A string stored with its terminator and no '\0' inside reads back unchanged. */
  lemma {:induction false} ReadCStringAt(buf: string, o: nat, s: string)
    requires o + |s| < |buf|
    requires buf[o..o + |s|] == s && buf[o + |s|] == '\0'
    requires NoNul(s)
    ensures ReadCString(buf, o) == s
    decreases |s|
  {
    if s != [] {
      assert buf[o] == s[0];
      assert buf[o + 1..o + 1 + |s[1..]|] == s[1..];
      ReadCStringAt(buf, o + 1, s[1..]);
    }
  }

  lemma {:induction false} UnpackPackFrom(a: seq<string>, b: seq<string>)
    requires forall k :: 0 <= k < |b| ==> NoNul(b[k])
    ensures Unpack(Pack(a + b), PackedSize(a)) == b
    decreases |b|
  {
    PackAppend(a, b);
    PackedSizeIsLength(a);
    if b == [] {
      assert a + b == a;
    } else {
      var s, rest, buf, o := b[0], b[1..], Pack(a + b), PackedSize(a);
      SplitFirst(a, b);
      PackAt(a, s, rest, o);
      ReadCStringAt(buf, o, s);
      assert (a + [s])[..|a + [s]| - 1] == a;
      assert PackedSize(a + [s]) == o + |s| + 1;
      UnpackPackFrom(a + [s], rest);
      assert buf == Pack(a + [s] + rest);
      assert Unpack(buf, o + |s| + 1) == rest;
      UnpackStep(buf, o, s);
      assert b == [s] + rest;
    }
  }

  /** Reading one string at `o` and splitting the rest after its terminator. */
  lemma UnpackStep(buf: string, o: nat, s: string)
    requires o < |buf| && ReadCString(buf, o) == s
    ensures Unpack(buf, o) == [s] + Unpack(buf, o + |s| + 1)
  {
  }

  /**
   * Splitting a packed buffer at its terminators gives back exactly the packed
   * strings, in order, when none of them contains '\0'.
   */
  lemma UnpackPack(xs: seq<string>)
    requires forall k :: 0 <= k < |xs| ==> NoNul(xs[k])
    ensures Unpack(Pack(xs), 0) == xs
  {
    assert [] + xs == xs;
    UnpackPackFrom([], xs);
  }

  /** No string occurs twice in `xs`. */
  predicate Distinct(xs: seq<string>)
  {
    forall i, j :: 0 <= i < j < |xs| ==> xs[i] != xs[j]
  }

  /**
   * `lookup` gives each string of `order` (and nothing else) its offset in
   * `Pack(order)`, and `pos` is the length of that buffer.
   */
  ghost predicate LaidOut(lookup: map<string, nat>, pos: nat, order: seq<string>)
  {
    && Distinct(order)
    && (forall k :: k in lookup <==> k in order)
    && (forall i {:trigger lookup[order[i]]} :: 0 <= i < |order| ==> lookup[order[i]] == PackedSize(order[..i]))
    && pos == PackedSize(order)
  }

  /**
   * Offset/buffer round trip: every string of a laid-out lookup is found,
   * followed by its terminator, at its offset in the packed buffer, whose
   * length is the final position.
   */
  lemma LaidOutAt(lookup: map<string, nat>, pos: nat, order: seq<string>, s: string)
    requires LaidOut(lookup, pos, order) && s in lookup
    ensures |Pack(order)| == pos
    ensures lookup[s] + |s| < pos
    ensures Pack(order)[lookup[s]..lookup[s] + |s|] == s
    ensures Pack(order)[lookup[s] + |s|] == '\0'
  {
    PackedSizeIsLength(order);
    var k :| 0 <= k < |order| && order[k] == s;
    PackAtIndex(order, k);
  }

  /** Every string of a laid-out lookup reads back from the packed buffer at its offset. */
  lemma LaidOutReadsBack(lookup: map<string, nat>, pos: nat, order: seq<string>, s: string)
    requires LaidOut(lookup, pos, order) && s in lookup && NoNul(s)
    ensures ReadCString(Pack(order), lookup[s]) == s
  {
    LaidOutAt(lookup, pos, order, s);
    ReadCStringAt(Pack(order), lookup[s], s);
  }

  /**
   * In a laid-out lookup, strings admitted later get larger offsets, past the
   * end of every earlier string and its terminator: offsets are distinct and
   * increase in allocation order.
   */
  lemma LaidOutIncreasing(lookup: map<string, nat>, pos: nat, order: seq<string>, i: nat, j: nat)
    requires LaidOut(lookup, pos, order)
    requires i < j < |order|
    ensures lookup[order[i]] + |order[i]| + 1 <= lookup[order[j]]
  {
    PackedSizeGrows(order, i, j);
  }

  /** Admitting a fresh string at the current position keeps the lookup laid out. */
  lemma LaidOutAdmit(lookup: map<string, nat>, pos: nat, order: seq<string>, s: string)
    requires LaidOut(lookup, pos, order) && s !in lookup
    ensures LaidOut(lookup[s := pos], pos + |s| + 1, order + [s])
  {
    var order', lookup' := order + [s], lookup[s := pos];
    assert order'[..|order'| - 1] == order;
    assert Distinct(order') by {
      forall i, j | 0 <= i < j < |order'| ensures order'[i] != order'[j] {
        assert order'[i] == order[i] && order[i] in lookup;
        if j < |order| { assert order'[j] == order[j]; }
      }
    }
    assert forall k :: k in lookup' <==> k in order' by {
      forall k ensures k in lookup' <==> k in order' {
        assert k in order' <==> k in order || k == s;
      }
    }
    forall i | 0 <= i < |order'|
      ensures lookup'[order'[i]] == PackedSize(order'[..i])
    {
      if i < |order| {
        assert order'[..i] == order[..i];
        assert order'[i] == order[i] && order[i] in lookup;
      }
    }
  }

  /** Every string of `xs` has an offset, and the offsets never decrease along `xs`. */
  ghost predicate SortedBy(xs: seq<string>, m: map<string, nat>)
  {
    && (forall i :: 0 <= i < |xs| ==> xs[i] in m)
    && (forall i, j :: 0 <= i < j < |xs| ==> m[xs[i]] <= m[xs[j]])
  }

  /** Every string of `xs` has an offset, and the offsets strictly increase along `xs`. */
  ghost predicate IncreasingBy(xs: seq<string>, m: map<string, nat>)
  {
    && (forall i :: 0 <= i < |xs| ==> xs[i] in m)
    && (forall i, j :: 0 <= i < j < |xs| ==> m[xs[i]] < m[xs[j]])
  }

  /** The admission order of a laid-out lookup is its order by offset. */
  lemma LaidOutIncreasingBy(lookup: map<string, nat>, pos: nat, order: seq<string>)
    requires LaidOut(lookup, pos, order)
    ensures IncreasingBy(order, lookup)
  {
    forall i, j | 0 <= i < j < |order|
      ensures lookup[order[i]] < lookup[order[j]]
    {
      LaidOutIncreasing(lookup, pos, order, i, j);
    }
  }

  /**
   * Ordering a set of strings by offset has one outcome when one enumeration
   * increases strictly: any duplicate-free enumeration of the same strings in
   * non-decreasing offset order is that same sequence.
   */
  lemma {:induction false} SortedUnique(a: seq<string>, b: seq<string>, m: map<string, nat>)
    requires Distinct(a) && SortedBy(a, m)
    requires IncreasingBy(b, m)
    requires forall k :: k in a <==> k in b
    ensures a == b
    decreases |a| + |b|
  {
    if a == [] {
      FirstIn(b);
    } else {
      assert a[|a| - 1] in b;
      SortedSameLast(a, b, m);
      var a', b', x := a[..|a| - 1], b[..|b| - 1], a[|a| - 1];
      assert a == a' + [x] && b == b' + [x];
      SortedSameRest(a', b', x, m);
      SortedUnique(a', b', m);
    }
  }

  lemma FirstIn(xs: seq<string>)
    ensures xs == [] || xs[0] in xs
  {
  }

  /** Both enumerations end with the string of the largest offset. */
  lemma SortedSameLast(a: seq<string>, b: seq<string>, m: map<string, nat>)
    requires a != [] && b != []
    requires SortedBy(a, m) && IncreasingBy(b, m)
    requires forall k :: k in a <==> k in b
    ensures a[|a| - 1] == b[|b| - 1]
  {
    var x, y := a[|a| - 1], b[|b| - 1];
    assert y in a && x in b;
    SortedAtMostLast(a, m, y);
    IncreasingBelowLast(b, m, x);
  }

  lemma SortedAtMostLast(xs: seq<string>, m: map<string, nat>, k: string)
    requires SortedBy(xs, m) && k in xs
    ensures m[k] <= m[xs[|xs| - 1]]
  {
    var i :| 0 <= i < |xs| && xs[i] == k;
  }

  lemma IncreasingBelowLast(xs: seq<string>, m: map<string, nat>, k: string)
    requires IncreasingBy(xs, m) && k in xs
    ensures k == xs[|xs| - 1] || m[k] < m[xs[|xs| - 1]]
  {
    var i :| 0 <= i < |xs| && xs[i] == k;
  }

  /** Dropping that last string leaves two enumerations of the same strings, still ordered. */
  lemma SortedSameRest(a: seq<string>, b: seq<string>, x: string, m: map<string, nat>)
    requires Distinct(a + [x]) && SortedBy(a + [x], m) && IncreasingBy(b + [x], m)
    requires forall k :: k in a + [x] <==> k in b + [x]
    ensures Distinct(a) && SortedBy(a, m) && IncreasingBy(b, m)
    ensures forall k :: k in a <==> k in b
  {
    var a1, b1 := a + [x], b + [x];
    forall k
      ensures k in a <==> k in b
    {
      if k in a {
        var i :| 0 <= i < |a| && a[i] == k;
        assert a1[i] == k && a1[|a|] == x;
        assert k != x;
        assert k in b1;
      }
      if k in b {
        var j :| 0 <= j < |b| && b[j] == k;
        assert b1[j] == k && b1[|b|] == x;
        assert k != x;
        assert k in a1;
      }
    }
    assert forall i :: 0 <= i < |a| ==> a[i] == a1[i];
    assert forall i :: 0 <= i < |b| ==> b[i] == b1[i];
  }

  lemma ConcatAssoc<T>(x: seq<T>, y: seq<T>, z: seq<T>)
    ensures (x + y) + z == x + (y + z)
  {
  }

  lemma SplitFirst<T>(a: seq<T>, b: seq<T>)
    requires b != []
    ensures a + b == a + [b[0]] + b[1..]
  {
    assert b == [b[0]] + b[1..];
    ConcatAssoc(a, [b[0]], b[1..]);
  }
}
