/**
 * The common string table: a fixed list of strings shared by all type trees.
 * Its offsets are precomputed once per conversion (InitializeDefaultStringTableIndices):
 * every non-empty entry gets the running sum of `length + 1` over the non-empty
 * entries before it; empty entries get nothing and do not move the position.
 */
module CommonTable {
  import opened StringBuffer

  /** The common lookup built so far and the position of the next entry. */
  datatype Layout = Layout(lookup: map<string, nat>, pos: nat)

  /** `Dictionary.Add` throws an `ArgumentException` when the key is already present. */
  datatype Result<T> = Ok(value: T) | Duplicate(key: string)

  /** The non-empty entries of `xs`, in order: the strings the common buffer holds. */
  function NonEmpty(xs: seq<string>): seq<string>
  {
    if xs == [] then []
    else NonEmpty(xs[..|xs| - 1]) + (if xs[|xs| - 1] == "" then [] else [xs[|xs| - 1]])
  }

  /** The lookup the source builds from the common list, entry by entry, or the first repeated entry. */
  function CommonLayout(xs: seq<string>): Result<Layout>
  {
    if xs == [] then Ok(Layout(map[], 0))
    else
      match CommonLayout(xs[..|xs| - 1])
      case Duplicate(k) => Duplicate(k)
      case Ok(l) =>
        var s := xs[|xs| - 1];
        if s == "" then Ok(l)
        else if s in l.lookup then Duplicate(s)
        else Ok(Layout(l.lookup[s := l.pos], l.pos + |s| + 1))
  }

  /** Some non-empty entry of `xs` occurs twice. */
  ghost predicate HasRepeat(xs: seq<string>)
  {
    exists i, j :: 0 <= i < j < |xs| && xs[i] != "" && xs[i] == xs[j]
  }

  lemma {:induction false} NonEmptyAppend(a: seq<string>, b: seq<string>)
    ensures NonEmpty(a + b) == NonEmpty(a) + NonEmpty(b)
    decreases |b|
  {
    if b == [] {
      assert a + b == a;
    } else {
      var b' := b[..|b| - 1];
      assert (a + b)[..|a + b| - 1] == a + b';
      assert (a + b)[|a + b| - 1] == b[|b| - 1];
      NonEmptyAppend(a, b');
    }
  }

  lemma NonEmptySplit(xs: seq<string>, i: nat)
    requires i < |xs| && xs[i] != ""
    ensures NonEmpty(xs) == NonEmpty(xs[..i]) + [xs[i]] + NonEmpty(xs[i + 1..])
  {
    var a, b := xs[..i], xs[i + 1..];
    assert xs == a + [xs[i]] + b;
    NonEmptyAppend(a + [xs[i]], b);
    NonEmptyAppend(a, [xs[i]]);
    assert [xs[i]][..0] == [];
  }

  /** `k` is a non-empty entry of `xs`. */
  ghost predicate IsEntry(xs: seq<string>, k: string)
  {
    exists i :: 0 <= i < |xs| && xs[i] != "" && xs[i] == k
  }

  /**
   * When the common layout succeeds, its keys are exactly the non-empty
   * entries and the final position is the packed size of all of them.
   */
  lemma {:induction false} CommonLayoutKeys(xs: seq<string>)
    requires CommonLayout(xs).Ok?
    ensures forall k :: k in CommonLayout(xs).value.lookup <==> IsEntry(xs, k)
    ensures CommonLayout(xs).value.pos == PackedSize(NonEmpty(xs))
    decreases |xs|
  {
    if xs != [] {
      var p, s := xs[..|xs| - 1], xs[|xs| - 1];
      assert xs == p + [s];
      assert CommonLayout(p).Ok?;
      CommonLayoutKeys(p);
      var l, r := CommonLayout(p).value, CommonLayout(xs).value;
      assert NonEmpty(xs) == NonEmpty(p) + (if s == "" then [] else [s]);
      assert r == if s == "" then l else Layout(l.lookup[s := l.pos], l.pos + |s| + 1);
      if s != "" {
        var ne := NonEmpty(p) + [s];
        assert ne[..|ne| - 1] == NonEmpty(p);
        assert PackedSize(ne) == PackedSize(NonEmpty(p)) + |s| + 1;
        assert r.pos == l.pos + |s| + 1;
      } else {
        assert NonEmpty(xs) == NonEmpty(p);
        assert r.pos == l.pos;
      }
      forall k ensures k in r.lookup <==> IsEntry(xs, k) {
        if IsEntry(xs, k) {
          var i :| 0 <= i < |xs| && xs[i] != "" && xs[i] == k;
          if i < |p| { assert p[i] == k; assert IsEntry(p, k); }
        }
        if IsEntry(p, k) {
          var i :| 0 <= i < |p| && p[i] != "" && p[i] == k;
          assert xs[i] == k;
        }
      }
    }
  }

  /**
   * When the common layout succeeds, the non-empty entry `i` gets the packed
   * size of the non-empty entries before it.
   */
  lemma {:induction false} CommonLayoutOffset(xs: seq<string>, i: nat)
    requires CommonLayout(xs).Ok?
    requires i < |xs| && xs[i] != ""
    ensures xs[i] in CommonLayout(xs).value.lookup
    ensures CommonLayout(xs).value.lookup[xs[i]] == PackedSize(NonEmpty(xs[..i]))
    decreases |xs|
  {
    var p, s := xs[..|xs| - 1], xs[|xs| - 1];
    assert xs == p + [s];
    assert CommonLayout(p).Ok?;
    var l, r := CommonLayout(p).value, CommonLayout(xs).value;
    CommonLayoutKeys(p);
    if i < |p| {
      CommonLayoutOffset(p, i);
      assert xs[..i] == p[..i];
      assert xs[i] == p[i];
      assert IsEntry(p, p[i]);
      assert r == if s == "" then l else Layout(l.lookup[s := l.pos], l.pos + |s| + 1);
    } else {
      assert xs[..i] == p;
    }
  }

  /**
   * The common layout succeeds exactly when no non-empty entry repeats; a
   * failure names a non-empty entry that occurs twice.
   */
  lemma {:induction false} CommonLayoutSucceeds(xs: seq<string>)
    ensures CommonLayout(xs).Ok? <==> !HasRepeat(xs)
    ensures CommonLayout(xs).Duplicate? ==>
      var k := CommonLayout(xs).key;
      k != "" && exists i, j :: 0 <= i < j < |xs| && xs[i] == k && xs[j] == k
    decreases |xs|
  {
    if xs != [] {
      var p, s := xs[..|xs| - 1], xs[|xs| - 1];
      assert xs == p + [s];
      CommonLayoutSucceeds(p);
      match CommonLayout(p)
      case Duplicate(k) =>
        var i, j :| 0 <= i < j < |p| && p[i] == k && p[j] == k;
        assert xs[i] == k && xs[j] == k;
        assert HasRepeat(xs);
      case Ok(l) =>
        CommonLayoutKeys(p);
        if s != "" && s in l.lookup {
          var i :| 0 <= i < |p| && p[i] != "" && p[i] == s;
          assert xs[i] == s && xs[|p|] == s;
          assert HasRepeat(xs);
        }
    }
  }

  /**
   * Every string of the common lookup is found, followed by its terminator, at
   * its offset in the common buffer: the non-empty entries packed in order.
   */
  lemma CommonBufferAt(xs: seq<string>, s: string)
    requires CommonLayout(xs).Ok? && s in CommonLayout(xs).value.lookup
    ensures var o := CommonLayout(xs).value.lookup[s];
      && o + |s| < |Pack(NonEmpty(xs))|
      && Pack(NonEmpty(xs))[o..o + |s|] == s
      && Pack(NonEmpty(xs))[o + |s|] == '\0'
  {
    var i := EntryIndex(xs, s);
    CommonLayoutOffset(xs, i);
    var a, b, buf := NonEmpty(xs[..i]), NonEmpty(xs[i + 1..]), Pack(NonEmpty(xs));
    NonEmptySplit(xs, i);
    PackAt(a, s, b, CommonLayout(xs).value.lookup[s]);
    assert buf == Pack(a + [s] + b);
  }

  /** A string of the common lookup is a non-empty entry of the list. */
  lemma EntryIndex(xs: seq<string>, s: string) returns (i: nat)
    requires CommonLayout(xs).Ok? && s in CommonLayout(xs).value.lookup
    ensures i < |xs| && xs[i] != "" && xs[i] == s
  {
    CommonLayoutKeys(xs);
    assert IsEntry(xs, s);
    i :| 0 <= i < |xs| && xs[i] != "" && xs[i] == s;
  }

  /** Once an entry repeats, the layout of every longer list fails on that same entry. */
  lemma {:induction false} CommonLayoutDuplicateSticks(xs: seq<string>, n: nat)
    requires n <= |xs| && CommonLayout(xs[..n]).Duplicate?
    ensures CommonLayout(xs) == CommonLayout(xs[..n])
    decreases |xs|
  {
    if n < |xs| {
      var p := xs[..|xs| - 1];
      assert p[..n] == xs[..n];
      CommonLayoutDuplicateSticks(p, n);
    } else {
      assert xs[..n] == xs;
    }
  }
}
