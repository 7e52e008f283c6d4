/**
 * The byte sequence fed to MD4 for a type tree's hash (Update), and the hash
 * itself (ComputeHash). MD4 is a parameter: the model constructs its input and
 * wraps whatever digest it returns.
 */
module TypeHash {
  import opened StringBuffer
  import opened TypeTree

  /** The metadata bit that marks a field as transient; the only metadata the hash sees. */
  const TransientMask: bv32 := 0x4000

  /** `BitConverter.GetBytes` of a 32-bit integer: its two's-complement form, little-endian. */
  function Int32Bytes(x: int): seq<Byte>
  {
    LittleEndian(x % 0x1_0000_0000, 4)
  }

  /** The lowest `count` bytes of `u`, least significant first. */
  function LittleEndian(u: nat, count: nat): seq<Byte>
    decreases count
  {
    if count == 0 then [] else [u % 0x100] + LittleEndian(u / 0x100, count - 1)
  }

  /** 256 to the power `n`: the number of values `n` bytes can hold. */
  function Pow256(n: nat): nat
  {
    if n == 0 then 1 else 0x100 * Pow256(n - 1)
  }

  /** The number whose little-endian bytes are `b`. */
  function FromLittleEndian(b: seq<Byte>): nat
  {
    if b == [] then 0 else b[0] + 0x100 * FromLittleEndian(b[1..])
  }

  /** Reads four little-endian bytes back as a signed 32-bit integer. */
  function Int32FromBytes(b: seq<Byte>): int
    requires |b| == 4
  {
    var u := FromLittleEndian(b);
    if u < 0x8000_0000 then u else u - 0x1_0000_0000
  }

  /** The UTF-8 encoding of one character. */
  function Utf8(c: char): seq<Byte>
  {
    var n := c as int;
    if n < 0x80 then [n]
    else if n < 0x800 then [0xC0 + n / 0x40, 0x80 + n % 0x40]
    else if n < 0x1_0000 then [0xE0 + n / 0x1000, 0x80 + (n / 0x40) % 0x40, 0x80 + n % 0x40]
    else [0xF0 + n / 0x4_0000, 0x80 + (n / 0x1000) % 0x40, 0x80 + (n / 0x40) % 0x40, 0x80 + n % 0x40]
  }

  /** `Encoding.UTF8.GetBytes` of a string. */
  function Utf8String(s: string): seq<Byte>
  {
    if s == "" then [] else Utf8String(s[..|s| - 1]) + Utf8(s[|s| - 1])
  }

  /** `MetaFlags & 0x4000`. */
  function TransientBit(metaFlags: UInt32): UInt32
  {
    if (metaFlags / 0x4000) % 2 == 1 then 0x4000 else 0
  }

  /**
   * The string an offset names (GetTypeString / GetNameString): with the
   * common flag set, the common buffer at the offset without the flag;
   * otherwise the local buffer at the offset.
   */
  function StringAt(buffer: string, commonBuffer: string, offset: nat): string
  {
    if offset >= CommonFlag then ReadCString(commonBuffer, offset - CommonFlag)
    else ReadCString(buffer, offset)
  }

  /** The six pieces one record contributes to the hash input, in order. */
  function RecordBytes(typeName: string, name: string, byteSize: int, typeFlags: int, version: int, metaFlags: UInt32): seq<Byte>
  {
    Utf8String(typeName)
    + Utf8String(name)
    + Int32Bytes(byteSize)
    + Int32Bytes(typeFlags)
    + Int32Bytes(version)
    + Int32Bytes(TransientBit(metaFlags))
  }

  /** What record `n` contributes, its names read through the buffers. */
  function NodeBytes(n: TypeTreeNode, buffer: string, commonBuffer: string): seq<Byte>
  {
    RecordBytes(StringAt(buffer, commonBuffer, n.typeStrOffset), StringAt(buffer, commonBuffer, n.nameStrOffset),
                n.byteSize, n.typeFlags, n.version, n.metaFlags)
  }

  /** The byte strings `f(x)` of the elements of `xs`, one after another, with no separators. */
  function ConcatMap<T>(xs: seq<T>, f: T -> seq<Byte>): seq<Byte>
  {
    if xs == [] then [] else ConcatMap(xs[..|xs| - 1], f) + f(xs[|xs| - 1])
  }

  /** `NodeBytes` with the two buffers fixed, as a function of the record. */
  function RecordEncoder(buffer: string, commonBuffer: string): TypeTreeNode -> seq<Byte>
  {
    n => NodeBytes(n, buffer, commonBuffer)
  }

  /** The whole hash input: the records' pieces in record order. */
  function HashInput(nodes: seq<TypeTreeNode>, buffer: string, commonBuffer: string): seq<Byte>
  {
    ConcatMap(nodes, RecordEncoder(buffer, commonBuffer))
  }

  /**
   * Feeds every record to the hasher, in order: type string, name string, byte
   * size, type flags, version and the transient bit of the metadata.
   */
  method Update(tree: TypeTreeType, commonBuffer: string) returns (fed: seq<Byte>)
    ensures fed == HashInput(tree.nodes, tree.stringBuffer, commonBuffer)
  {
    var nodes, buffer := tree.nodes, tree.stringBuffer;
    fed := [];
    for i := 0 to |nodes|
      invariant fed == HashInput(nodes[..i], buffer, commonBuffer)
    {
      var node := nodes[i];
      ghost var before := fed;
      var typeText := Utf8String(StringAt(buffer, commonBuffer, node.typeStrOffset));
      var nameText := Utf8String(StringAt(buffer, commonBuffer, node.nameStrOffset));
      var size, flags, version, transient :=
        Int32Bytes(node.byteSize), Int32Bytes(node.typeFlags), Int32Bytes(node.version), Int32Bytes(TransientBit(node.metaFlags));
      fed := fed + typeText;
      fed := fed + nameText;
      fed := fed + size;
      fed := fed + flags;
      fed := fed + version;
      fed := fed + transient;
      ConcatSix(before, typeText, nameText, size, flags, version, transient);
      HashInputStep(nodes, i, buffer, commonBuffer);
    }
    assert nodes[..|nodes|] == nodes;
  }

  lemma HashInputStep(nodes: seq<TypeTreeNode>, i: nat, buffer: string, commonBuffer: string)
    requires i < |nodes|
    ensures HashInput(nodes[..i + 1], buffer, commonBuffer)
         == HashInput(nodes[..i], buffer, commonBuffer) + NodeBytes(nodes[i], buffer, commonBuffer)
  {
    ConcatMapStep(nodes, i, RecordEncoder(buffer, commonBuffer));
  }

  lemma ConcatMapStep<T>(xs: seq<T>, i: nat, f: T -> seq<Byte>)
    requires i < |xs|
    ensures ConcatMap(xs[..i + 1], f) == ConcatMap(xs[..i], f) + f(xs[i])
  {
    assert xs[..i + 1][..i] == xs[..i];
  }

  /** Concatenating the pieces of `a + b` is concatenating those of `a`, then those of `b`. */
  lemma {:induction false} ConcatMapAppend<T>(a: seq<T>, b: seq<T>, f: T -> seq<Byte>)
    ensures ConcatMap(a + b, f) == ConcatMap(a, f) + ConcatMap(b, f)
    decreases |b|
  {
    if b == [] {
      assert a + b == a;
    } else {
      var b', x := b[..|b| - 1], b[|b| - 1];
      assert (a + b)[..|a + b| - 1] == a + b';
      ConcatMapAppend(a, b', f);
      ConcatAssoc(ConcatMap(a, f), ConcatMap(b', f), f(x));
    }
  }

  /** Element-wise equal pieces give equal concatenations. */
  lemma {:induction false} ConcatMapPointwise<A, B>(xs: seq<A>, f: A -> seq<Byte>, ys: seq<B>, g: B -> seq<Byte>)
    requires |xs| == |ys|
    requires forall k :: 0 <= k < |xs| ==> f(xs[k]) == g(ys[k])
    ensures ConcatMap(xs, f) == ConcatMap(ys, g)
    decreases |xs|
  {
    if xs != [] {
      ConcatMapPointwise(xs[..|xs| - 1], f, ys[..|ys| - 1], g);
    }
  }

  lemma ConcatSix(a: seq<Byte>, b: seq<Byte>, c: seq<Byte>, d: seq<Byte>, e: seq<Byte>, f: seq<Byte>, g: seq<Byte>)
    ensures a + b + c + d + e + f + g == a + (b + c + d + e + f + g)
  {
  }

  /** MD4 over the hash input, wrapped as a Hash128. */
  method ComputeHash(tree: TypeTreeType, commonBuffer: string, md4: seq<Byte> -> seq<Byte>)
    returns (h: Hash128)
    ensures h == Hash128(md4(HashInput(tree.nodes, tree.stringBuffer, commonBuffer)))
  {
    var fed := Update(tree, commonBuffer);
    h := Hash128(md4(fed));
  }

  /** Hashing more records extends the input of the earlier ones. */
  lemma HashInputAppend(a: seq<TypeTreeNode>, b: seq<TypeTreeNode>, buffer: string, commonBuffer: string)
    ensures HashInput(a + b, buffer, commonBuffer) == HashInput(a, buffer, commonBuffer) + HashInput(b, buffer, commonBuffer)
  {
    ConcatMapAppend(a, b, RecordEncoder(buffer, commonBuffer));
  }

  /** `count` bytes hold any number below `Pow256(count)` and give it back. */
  lemma {:induction false} LittleEndianRoundTrip(u: nat, count: nat)
    requires u < Pow256(count)
    ensures |LittleEndian(u, count)| == count
    ensures FromLittleEndian(LittleEndian(u, count)) == u
  {
    if count > 0 {
      LittleEndianRoundTrip(u / 0x100, count - 1);
      var b := LittleEndian(u, count);
      assert b[1..] == LittleEndian(u / 0x100, count - 1);
    }
  }

  /** The integer encoding is four bytes and loses nothing on the 32-bit signed range. */
  lemma Int32RoundTrip(x: int)
    requires -0x8000_0000 <= x < 0x8000_0000
    ensures |Int32Bytes(x)| == 4
    ensures Int32FromBytes(Int32Bytes(x)) == x
  {
    assert Pow256(4) == 0x1_0000_0000;
    LittleEndianRoundTrip(x % 0x1_0000_0000, 4);
  }

  /** Names made of ASCII characters are hashed as one byte per character, the character's code. */
  lemma {:induction false} Utf8Ascii(s: string)
    requires forall i :: 0 <= i < |s| ==> s[i] as int < 0x80
    ensures |Utf8String(s)| == |s|
    ensures forall i :: 0 <= i < |s| ==> Utf8String(s)[i] == s[i] as int
  {
    if s != "" {
      Utf8Ascii(s[..|s| - 1]);
    }
  }

  /** The transient bit is the only metadata that reaches the hash: it is 0 or 0x4000. */
  lemma TransientBitValues(metaFlags: UInt32)
    ensures TransientBit(metaFlags) == 0 || TransientBit(metaFlags) == 0x4000
    ensures TransientBit(metaFlags) == ((metaFlags as bv32) & TransientMask) as int
  {
  }
}
