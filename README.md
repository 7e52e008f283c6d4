# Class database to type tree (C2T5), modelled in Dafny

AssetTools.NET reads Unity asset files. When a file carries no type tree of its
own, the library builds one from a class database: the converter
`ClassDatabaseToTypeTree` turns one class's field tree into a flat type tree.

A conversion does four things:

- **Common table.** It lays out the database's common strings in a table.
  Each non-empty string gets an offset: the running sum of `length + 1` over
  the non-empty strings before it.
- **Flattening.** It walks the field tree in pre-order. For every node it
  interns the field name, then the type name. A string already in the local
  table keeps its local offset. Otherwise a common string gets its common
  offset with bit 31 (`0x80000000`) set. Otherwise the string is appended to
  the local table at the cursor, and the cursor moves past it and its
  terminator. Each node then becomes one record, with its depth (truncated
  to a byte) as its level and its position as its index.
- **String buffer.** It writes the local strings in order of offset, each
  followed by `'\0'`.
- **Hash.** It hashes the records with MD4. Per record, the hash input is:
  - the UTF-8 bytes of the type string, then of the name string;
  - the size, the type flags, the version and the transient bit of the
    metadata (`MetaFlags & 0x4000`), each as four little-endian bytes.

The project has seven modules:

- `StringBuffer`: packed null-terminated buffers, and reading one string back.
- `CommonTable`: the common-table layout, including the `Dictionary.Add`
  failure on a repeated string.
- `TypeTree`: the entities and the pre-order walk.
- `Flattening`: interning and the walk as functions on values.
- `TypeHash`: the hash input, `Update` and `ComputeHash`.
- `Converter`: the class itself, with its fields and methods. Each method is
  proved against the value-level definitions above. `ConvertSpec` is the
  whole conversion written as one function.
- `Properties`: what a conversion promises, stated on `ConvertSpec`.

Field and type names are interned field name first (lines 102-130). For a
root "Base" of type "Base" with one "int" field "m_Value", the buffer is
"Base\0m_Value\0int\0": the child's field name is interned before its type
name. `Properties.BaseWithOneInt` works this example out.

## Model


| member | source | states |
|---|---|---|
| Converter.ClassDatabaseToTypeTree.ConvertFound | AssetTools.NET/Extra/CldbTypeTreeConverters/C2T5.cs:16-36 | A failed lookup by name or id gives the null result. A found type is converted exactly as `Convert` does. |
| Converter.ClassDatabaseToTypeTree.Convert | AssetTools.NET/Extra/CldbTypeTreeConverters/C2T5.cs:38-42 | A fresh converter's one conversion has outcome `ConvertSpec`. |
| Converter.ClassDatabaseToTypeTree.ConvertInternal | AssetTools.NET/Extra/CldbTypeTreeConverters/C2T5.cs:44-78 | Resetting the tables, laying out the common table, walking the tree, building the buffer in offset order and hashing give exactly `ConvertSpec`. A repeated common string gives the exception. |
| Converter.ClassDatabaseToTypeTree.InitializeDefaultStringTableIndices | AssetTools.NET/Extra/CldbTypeTreeConverters/C2T5.cs:80-93 | On success the common lookup is the running-sum layout of the non-empty strings. On a repeated non-empty string, it reports that string. The loop keeps the layout of the prefix seen so far. |
| Converter.ClassDatabaseToTypeTree.Internalize | AssetTools.NET/Extra/CldbTypeTreeConverters/C2T5.cs:102-130 | The offset and the new local table are those of `Intern`. The order is: local offset, else common offset plus the flag, else a fresh entry at the cursor with the cursor advanced by `length + 1`. |
| Converter.ClassDatabaseToTypeTree.ConvertFields | AssetTools.NET/Extra/CldbTypeTreeConverters/C2T5.cs:95-148 | The recursion leaves the state of the walk over the pre-order visits of the subtree, starting from the old state. The loop keeps this true child by child. |
| Converter.ClassDatabaseToTypeTree.SortByOffset | AssetTools.NET/Extra/CldbTypeTreeConverters/C2T5.cs:68 | Returns every key of the lookup exactly once, in non-decreasing order of offset. |
| Converter.ClassDatabaseToTypeTree.BuildStringTable | AssetTools.NET/Extra/CldbTypeTreeConverters/C2T5.cs:67-74 | The buffer is the strings in the given order, each followed by `'\0'`. |
| TypeHash.Update | AssetTools.NET/Extra/CldbTypeTreeConverters/C2T5.cs:157-170 | The bytes fed to the hasher are `HashInput`: for each record in order, the six pieces listed above. |
| TypeHash.ComputeHash | AssetTools.NET/Extra/CldbTypeTreeConverters/C2T5.cs:150-155 | The hash is the digest of exactly `HashInput`. |
| TypeHash.HashInputAppend | AssetTools.NET/Extra/CldbTypeTreeConverters/C2T5.cs:159-169 | Hashing more records appends to the input of the earlier records. |
| TypeHash.LittleEndianRoundTrip | AssetTools.NET/Extra/CldbTypeTreeConverters/C2T5.cs:165-168 | `count` little-endian bytes hold any value below 256^count and read back to it. |
| TypeHash.Int32RoundTrip | AssetTools.NET/Extra/CldbTypeTreeConverters/C2T5.cs:165-168 | `BitConverter.GetBytes` of a 32-bit signed value is four bytes, and reading them back gives the value. |
| TypeHash.Utf8Ascii | AssetTools.NET/Extra/CldbTypeTreeConverters/C2T5.cs:163-164 | An ASCII name is hashed as one byte per character, equal to the character's code. |
| TypeHash.TransientBitValues | AssetTools.NET/Extra/CldbTypeTreeConverters/C2T5.cs:168 | The metadata reaches the hash only as `MetaFlags & 0x4000`, which is 0 or 0x4000. |
| StringBuffer.ReadCString | AssetTools.NET/Extra/CldbTypeTreeConverters/C2T5.cs:163-164 | A string read at an offset is the slice of the buffer from that offset, and holds no `'\0'`. |
| StringBuffer.PackedSizeIsLength | AssetTools.NET/Extra/CldbTypeTreeConverters/C2T5.cs:67-74 | The buffer's length is the sum of `length + 1` over its strings, i.e. the final cursor. |
| StringBuffer.PackAppend | AssetTools.NET/Extra/CldbTypeTreeConverters/C2T5.cs:69-72 | Appending strings to the builder appends their packed form. |
| StringBuffer.PackAt | AssetTools.NET/Extra/CldbTypeTreeConverters/C2T5.cs:69-72 | The string after a prefix sits at the prefix's packed size, followed by its terminator. |
| StringBuffer.ReadCStringAt | AssetTools.NET/Extra/CldbTypeTreeConverters/C2T5.cs:163-164 | A string without `'\0'`, stored at an offset and followed by a terminator, reads back unchanged. |
| StringBuffer.UnpackPack | AssetTools.NET/Extra/CldbTypeTreeConverters/C2T5.cs:67-74 | Splitting a packed buffer at its terminators gives back exactly the packed strings, in order. |
| StringBuffer.LaidOutAt | AssetTools.NET/Extra/CldbTypeTreeConverters/C2T5.cs:110-114 | Every local string lies inside the buffer at its offset, followed by `'\0'`. The buffer's length is the cursor. |
| StringBuffer.LaidOutReadsBack | AssetTools.NET/Extra/CldbTypeTreeConverters/C2T5.cs:110-114 | Every local string reads back from the buffer at its own offset. |
| StringBuffer.LaidOutIncreasing | AssetTools.NET/Extra/CldbTypeTreeConverters/C2T5.cs:112-114 | A later admission lies past the earlier string and its terminator. |
| StringBuffer.LaidOutAdmit | AssetTools.NET/Extra/CldbTypeTreeConverters/C2T5.cs:110-115 | Admitting a new string at the cursor and advancing the cursor by `length + 1` keeps the table laid out. |
| StringBuffer.LaidOutIncreasingBy | AssetTools.NET/Extra/CldbTypeTreeConverters/C2T5.cs:68 | Offsets strictly increase along the admission order. |
| StringBuffer.SortedUnique | AssetTools.NET/Extra/CldbTypeTreeConverters/C2T5.cs:68 | A duplicate-free list sorted by offset with the same keys as the admission order equals it. Sorting by offset therefore rebuilds the admission order. |
| CommonTable.CommonLayoutKeys | AssetTools.NET/Extra/CldbTypeTreeConverters/C2T5.cs:84-92 | A successful layout's keys are exactly the non-empty entries. Its final position is the packed size of those entries. |
| CommonTable.CommonLayoutOffset | AssetTools.NET/Extra/CldbTypeTreeConverters/C2T5.cs:84-92 | Entry `i` gets the packed size of the non-empty entries before it. |
| CommonTable.CommonLayoutSucceeds | AssetTools.NET/Extra/CldbTypeTreeConverters/C2T5.cs:87-89 | The layout fails exactly when a non-empty entry repeats. The entry it reports is non-empty and occurs twice. |
| CommonTable.CommonBufferAt | AssetTools.NET/Extra/CldbTypeTreeConverters/C2T5.cs:84-92 | Every common string sits at its offset in the packed common strings, followed by `'\0'`. |
| CommonTable.CommonLayoutDuplicateSticks | AssetTools.NET/Extra/CldbTypeTreeConverters/C2T5.cs:89 | Once `Dictionary.Add` has thrown, later entries do not change the outcome. |
| TypeTree.PreorderLength | AssetTools.NET/Extra/CldbTypeTreeConverters/C2T5.cs:144-147 | The walk visits every node once: its length is the tree's size. |
| TypeTree.PreorderParent | AssetTools.NET/Extra/CldbTypeTreeConverters/C2T5.cs:132-147 | Every visit but the first has a parent: the last earlier visit one level up, whose node holds this visit's node among its children, with no shallower visit in between. |
| TypeTree.PreorderSeqParent | AssetTools.NET/Extra/CldbTypeTreeConverters/C2T5.cs:144-147 | In the walks of siblings one after another, each visit is a sibling at the top depth or has its parent as above. |
| TypeTree.PreorderChildAt | AssetTools.NET/Extra/CldbTypeTreeConverters/C2T5.cs:144-147 | Child `i` is visited at `ChildPos`: right after the walks of children `0..i-1`, one level deeper, and before child `i+1`. |
| TypeTree.ChildPosIncreasing | AssetTools.NET/Extra/CldbTypeTreeConverters/C2T5.cs:144-147 | Later children lie later in the walk: siblings keep their order. |
| TypeTree.WalkChildren | AssetTools.NET/Extra/CldbTypeTreeConverters/C2T5.cs:132-147 | In a node's own walk, by depths alone, the first visit's children are exactly the node's children. Child `i` is at `ChildPos` with the node as its parent, and every other visit whose depth-parent is the first visit is one of these. |
| TypeTree.PreorderSubWalk | AssetTools.NET/Extra/CldbTypeTreeConverters/C2T5.cs:144-147 | Each visit of a walk is followed by its own node's whole walk, and the visit after that is no deeper. |
| TypeTree.SubWalkChildren | AssetTools.NET/Extra/CldbTypeTreeConverters/C2T5.cs:132-147 | The previous statement for any visit `j`: by depths, its children are exactly its node's children, at `j + ChildPos`. |
| TypeTree.PreorderParentFirst | AssetTools.NET/Extra/CldbTypeTreeConverters/C2T5.cs:132-147 | A node's record comes before its descendants, which all lie strictly deeper. |
| Flattening.InternSpec | AssetTools.NET/Extra/CldbTypeTreeConverters/C2T5.cs:102-130 | Interning keeps the table laid out and disjoint from the common table, and only grows it. It returns the string's resolved offset. A known string changes nothing. An unknown string is admitted at the cursor. |
| Flattening.ResolveStable | AssetTools.NET/Extra/CldbTypeTreeConverters/C2T5.cs:102-104 | Once a string has an offset, it keeps that offset as the table grows. |
| Flattening.ResolvesStable | AssetTools.NET/Extra/CldbTypeTreeConverters/C2T5.cs:132-142 | Earlier records stay correct as the table grows. |
| Flattening.EmitOneSpec | AssetTools.NET/Extra/CldbTypeTreeConverters/C2T5.cs:95-142 | One node appends exactly its record at the next index, with both names resolved against the new table. |
| Flattening.EmitAllSpec | AssetTools.NET/Extra/CldbTypeTreeConverters/C2T5.cs:95-148 | The walk keeps the table valid. Record `k` is the record of visit `k`, resolved against the final table. |
| Flattening.EmitAllAppend | AssetTools.NET/Extra/CldbTypeTreeConverters/C2T5.cs:144-147 | Walking one list of visits and then another is walking their concatenation. |
| Flattening.EmitChild | AssetTools.NET/Extra/CldbTypeTreeConverters/C2T5.cs:144-147 | Converting child `i` after the node and its earlier children is the walk up to and including child `i`. |
| Flattening.FieldNameFirst | AssetTools.NET/Extra/CldbTypeTreeConverters/C2T5.cs:102-130 | The field name is interned before the type name. Two unknown names get the cursor and the offset right after the field name. A type name equal to the field name shares its offset. |
| Flattening.EmitAllKeys | AssetTools.NET/Extra/CldbTypeTreeConverters/C2T5.cs:110-115 | A string ends up in the local table exactly when it was there already, or some visited node names it and it is not common. |
| Properties.FlattenSpec | AssetTools.NET/Extra/CldbTypeTreeConverters/C2T5.cs:95-148 | The walk from empty tables leaves a valid table, and every record is its node's record. |
| Properties.ConvertOutcome | AssetTools.NET/Extra/CldbTypeTreeConverters/C2T5.cs:44-93 | A conversion never gives the null result. It throws exactly when a non-empty common string repeats, and then names a non-empty string that occurs twice. |
| Properties.ConvertedParents | AssetTools.NET/Extra/CldbTypeTreeConverters/C2T5.cs:132-147 | While no field is 256 or more levels deep, the levels alone give each record but the first its parent: the last earlier record one level up, whose node holds this record's node among its children. |
| Properties.LevelsGiveParents | AssetTools.NET/Extra/CldbTypeTreeConverters/C2T5.cs:134 | Levels equal to depths below 256 keep every parent relation of the visits. |
| Properties.ConvertedChildren | AssetTools.NET/Extra/CldbTypeTreeConverters/C2T5.cs:132-147 | The converse of `ConvertedParents`, while no field is 256 or more levels deep. The records that the levels make children of record `j` are exactly the records of its node's children. Child `i` is at `j + ChildPos`, and later children come later. So the levels rebuild the tree, siblings in order. |
| Properties.LevelsGiveChildren | AssetTools.NET/Extra/CldbTypeTreeConverters/C2T5.cs:134 | Levels equal to depths below 256 give every visit exactly its node's children, in order. |
| Properties.LevelsMatchDepths | AssetTools.NET/Extra/CldbTypeTreeConverters/C2T5.cs:134 | Below 256, a record's level-parent is exactly its visit's depth-parent. |
| Properties.ConvertedNodes | AssetTools.NET/Extra/CldbTypeTreeConverters/C2T5.cs:46-54 | The header fields are fixed. There is one record per tree node, in pre-order. Record `k` has index `k`, level equal to its depth mod 256, and its node's metadata, flags, size and version. |
| Properties.ConvertedOffsets | AssetTools.NET/Extra/CldbTypeTreeConverters/C2T5.cs:102-130 | Equal names get equal offsets, whether used as field or type name. An offset has the flag exactly when the name is common, and is then its common offset plus the flag. |
| Properties.ResolveReadsBack | AssetTools.NET/Extra/CldbTypeTreeConverters/C2T5.cs:102-130 | A known name's offset, read through the local or the common buffer, gives the name back. |
| Properties.CommonReadsBack | AssetTools.NET/Extra/CldbTypeTreeConverters/C2T5.cs:84-92 | A common string reads back from the common buffer at its common offset. |
| Properties.ConvertedNamesReadBack | AssetTools.NET/Extra/CldbTypeTreeConverters/C2T5.cs:132-142 | For field and type names without `'\0'`, every record's name and type offsets read back as the names of its node. |
| Properties.ConvertedLocalStrings | AssetTools.NET/Extra/CldbTypeTreeConverters/C2T5.cs:67-74 | For field and type names without `'\0'`, the buffer holds each non-common name of the tree exactly once, and nothing else. Its length is the final cursor. |
| Properties.TreeHashInput | AssetTools.NET/Extra/CldbTypeTreeConverters/C2T5.cs:157-170 | Records that read back their nodes' names and copy their fields have the nodes' own hash input. |
| Properties.ConvertedHash | AssetTools.NET/Extra/CldbTypeTreeConverters/C2T5.cs:150-170 | For field and type names without `'\0'`, the type hash is MD4 of, node by node in pre-order: type name, field name, then size, type flags, version and transient bit. |
| Properties.BaseWithOneInt | AssetTools.NET/Extra/CldbTypeTreeConverters/C2T5.cs:95-130 | With no common strings, "Base"/"Base" with field "m_Value"/"int" gives the buffer "Base\0m_Value\0int\0". The two records point at 0/0 and 5/13. |

## Left out

- MD4 itself is a parameter `md4`. The model builds its input and wraps whatever digest it returns.
- `GetPreferredNode(preferEditor)` is not part of this model. `ClassDatabaseType.node` is the already chosen field tree.
- `FindAssetClassByName` and `FindAssetClassByID` are not part of this model. Their result is the `found` input of `ConvertFound`.
- `ClassDatabaseFile.GetString` and `StringTable.GetString` are not part of this model. Field, type and common strings arrive already resolved to text.
- `TypeTreeNode.GetTypeString` and `GetNameString` are not part of this model. They are modelled as `StringAt`: a C-string read from the local buffer, or from the common buffer when bit 31 is set.
- The common buffer is a parameter. The read-back and hash theorems assume it is the non-empty common strings packed in order.
- Offsets are unbounded naturals. The `uint` wrap-around of the cursor and of `offset + 0x80000000` is not modelled. `ConvertedOffsets`, `ConvertedNamesReadBack` and `ConvertedHash` assume the local buffer is at most 0x80000000 characters, so local offsets stay below the flag.
- Characters are Dafny `char`s, not UTF-16 code units. `Utf8` encodes each character by its code point and does not combine surrogate pairs.
- `Convert.ToInt32` of the type flags and version is taken as the value itself. `Int32Bytes` reduces it modulo 2^32, and an overflow exception is not modelled. `BitConverter` is taken to be little-endian.
- After an `ArgumentException` the model returns the exception only. The partly filled common lookup is not observable from outside.
- Properties.ConvertedParents: assumes every depth is below 256. The byte cast of the depth wraps at 256, and deeper levels no longer give the parent.
- Properties.ConvertedChildren: assumes every depth is below 256, for the same reason.
- Properties.ConvertedNamesReadBack: assumes no field or type name contains `'\0'`. Such a name would read back cut at its first `'\0'`.
- Properties.ConvertedLocalStrings: assumes no field or type name contains `'\0'`. Splitting the buffer at terminators would otherwise give extra pieces.
- Properties.ConvertedHash: assumes no field or type name contains `'\0'`. The hash would otherwise cover the names cut at their first `'\0'`, as the source's string reads do.
- Recursion depth (stack overflow on a very deep tree) and concurrency are not modelled.
- `ghost localOrder` in the class is proof bookkeeping. It records the order in which local strings were admitted. The source keeps no such list: the offsets encode that order, and line 68 recovers it by sorting on offset.
