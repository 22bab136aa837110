# LocalVariableTable attribute

A model of the part of a Java decompiler that reads the `LocalVariableTable`
attribute of a method (section 4.7.13 of the Java Virtual Machine
Specification, Java SE 8 edition) and answers questions about it. The
attribute is a big-endian `u2` count followed by that many ten-byte entries
`start_pc, length, name_index, descriptor_index, index`. The decompiler
resolves the two index fields to strings through the constant pool. It keeps
the entries as an ordered list. It can append another attribute's list to it,
and it uses the list to name local variables:

- the name and descriptor that slot `index` has at an instruction offset
  (first entry in list order whose half-open range `[start_pc, start_pc + length)`
  holds the offset);
- whether some entry has a given name;
- a slot-to-name map over the entries that start at offset 0 (the method's
  parameters), where a later entry replaces an earlier one for the same slot.

Files and modules:

- `wrappers.dfy` (`Wrappers`): `Option` (`None` stands for Java's `null`) and `Result`.
- `byte_stream.dfy` (`ByteStream`): bytes, `u2`, the big-endian read that
  fails at the end of the stream, and its encoding.
- `local_variables.dfy` (`LocalVariables`): the entry record, the queries as
  functions over a list of entries, two reference definitions (`FirstMatch`,
  `LastParam`) the queries are proved against, and lemmas about the queries
  and merged lists.
- `decoder.dfy` (`Decoder`): the decode as specification functions
  (`DecodeEntry`, `DecodeEntries`, `Decode`), an encoder for the same layout,
  the round trip between them, and the error properties.
- `attribute.dfy` (`Attribute`): the attribute object as a class. Its
  `InitContent` runs the decode loop and is proved equal to `Decode`; one
  iteration of the loop is `ReadEntry`, proved equal to `DecodeEntry`. Its
  `Add` appends in place. The query functions delegate to `LocalVariables`.

The constant pool is a `map<int, string>`; an index missing from it is the
`MissingConstant` error. The input stream is a byte sequence positioned at the
start of the attribute body. Running out of bytes is the `TruncatedInput` error.
On success `InitContent` returns the stream position after the last byte it
read; on failure it returns only the error.

Two behaviours of `initContent` and `add` worth knowing:

- `initContent` assigns a new list to the field before it reads the first
  entry (line 35). So a decode that fails part-way leaves the attribute holding
  the entries read before the failing one (none if the first entry fails), in
  a new growable list. The error still reaches the caller. `InitContent` states this
  state exactly.
- A zero count, and a fresh attribute, hold the immutable `Collections.emptyList()`
  (lines 29 and 50). `add` on such an attribute throws when the other list is
  non-empty, and does nothing when it is empty. So a merge *can* fail. `Add`
  returns `ok == false` in that case and changes nothing.

## Model

| member | source | states |
|---|---|---|
| `ByteStream.ReadU2` | lib-decompiler/src/main/java/org/jetbrains/java/decompiler/struct/attr/StructLocalVariableTableAttribute.java:33 | a read fails exactly when fewer than two bytes are left; otherwise it is the big-endian u2 at the position |
| `LocalVariables.FirstMatch` | lib-decompiler/src/main/java/org/jetbrains/java/decompiler/struct/attr/StructLocalVariableTableAttribute.java:58-64 | reference for "first match": the position of an entry that matches, with no matching entry before it; none only when no entry matches |
| `LocalVariables.MatchingVars` | lib-decompiler/src/main/java/org/jetbrains/java/decompiler/struct/attr/StructLocalVariableTableAttribute.java:76-84 | the result is no longer than the list, empty exactly when nothing matches, and its head is the earliest match (membership, order and duplicates are fixed by the three lemmas below) |
| `LocalVariables.MatchingVarsMembers` | lib-decompiler/src/main/java/org/jetbrains/java/decompiler/struct/attr/StructLocalVariableTableAttribute.java:76-84 | the values kept are exactly the values of the list that match the slot and offset |
| `LocalVariables.MatchingVarsSingle` | lib-decompiler/src/main/java/org/jetbrains/java/decompiler/struct/attr/StructLocalVariableTableAttribute.java:77-83 | on a one-entry list the filter yields that entry exactly when it matches, else nothing |
| `LocalVariables.MatchingVarsAppend` | lib-decompiler/src/main/java/org/jetbrains/java/decompiler/struct/attr/StructLocalVariableTableAttribute.java:77-83 | the filter of a concatenation is the filter of the front part followed by the filter of the back part, so list order and duplicates are kept |
| `LocalVariables.GetName` | lib-decompiler/src/main/java/org/jetbrains/java/decompiler/struct/attr/StructLocalVariableTableAttribute.java:58-65 | null when no entry matches, else the name of the earliest matching entry in list order |
| `LocalVariables.GetDescriptor` | lib-decompiler/src/main/java/org/jetbrains/java/decompiler/struct/attr/StructLocalVariableTableAttribute.java:67-74 | null when no entry matches, else the descriptor of the earliest matching entry in list order |
| `LocalVariables.ContainsName` | lib-decompiler/src/main/java/org/jetbrains/java/decompiler/struct/attr/StructLocalVariableTableAttribute.java:86-93 | true if and only if some entry's name equals the given string |
| `LocalVariables.LastParam` | lib-decompiler/src/main/java/org/jetbrains/java/decompiler/struct/attr/StructLocalVariableTableAttribute.java:117-121 | reference for "last one wins": the position of an entry with start_pc 0 in the slot, with no such entry after it; none only when there is no such entry |
| `LocalVariables.ParamNames` | lib-decompiler/src/main/java/org/jetbrains/java/decompiler/struct/attr/StructLocalVariableTableAttribute.java:95-124 | a slot is a key exactly when some entry with start_pc 0 has it, and it maps to the name of the last such entry |
| `LocalVariables.ParamNamesKeys` | lib-decompiler/src/main/java/org/jetbrains/java/decompiler/struct/attr/StructLocalVariableTableAttribute.java:96-110 | the key set is exactly the set of slots of the entries with start_pc 0 |
| `LocalVariables.EmptyTableQueries` | lib-decompiler/src/main/java/org/jetbrains/java/decompiler/struct/attr/StructLocalVariableTableAttribute.java:49-51 | on the empty list both lookups are null, no name is contained and the parameter map is empty |
| `LocalVariables.SingleEntryVisibility` | lib-decompiler/src/main/java/org/jetbrains/java/decompiler/struct/attr/StructLocalVariableTableAttribute.java:58-84 | on a one-entry table `getName` gives the name exactly at offsets start_pc through start_pc + length - 1 of its slot, and null everywhere when the length is 0 |
| `LocalVariables.LookupsAgree` | lib-decompiler/src/main/java/org/jetbrains/java/decompiler/struct/attr/StructLocalVariableTableAttribute.java:58-84 | the name and descriptor lookups are null together, or return the two fields of one and the same matching entry |
| `LocalVariables.GetNameIsContained` | lib-decompiler/src/main/java/org/jetbrains/java/decompiler/struct/attr/StructLocalVariableTableAttribute.java:58-93 | every name the lookup returns is reported present by containsName |
| `LocalVariables.FirstMatchAppend` | lib-decompiler/src/main/java/org/jetbrains/java/decompiler/struct/attr/StructLocalVariableTableAttribute.java:54-64 | the first match in a concatenation is the first match of the front list, else the shifted first match of the back list |
| `LocalVariables.LookupsAppend` | lib-decompiler/src/main/java/org/jetbrains/java/decompiler/struct/attr/StructLocalVariableTableAttribute.java:54-74 | after a merge, both lookups answer from the original list when it has a match and from the appended list otherwise |
| `LocalVariables.ZeroLengthInvisible` | lib-decompiler/src/main/java/org/jetbrains/java/decompiler/struct/attr/StructLocalVariableTableAttribute.java:81 | inserting an entry of length 0 anywhere changes neither lookup |
| `LocalVariables.ContainsNameAppend` | lib-decompiler/src/main/java/org/jetbrains/java/decompiler/struct/attr/StructLocalVariableTableAttribute.java:54-93 | after a merge a name is present exactly when it was present in either list |
| `LocalVariables.LastParamAppend` | lib-decompiler/src/main/java/org/jetbrains/java/decompiler/struct/attr/StructLocalVariableTableAttribute.java:95-123 | the last parameter entry of a concatenation is in the back list when it has one, else in the front list |
| `LocalVariables.ParamNamesAppend` | lib-decompiler/src/main/java/org/jetbrains/java/decompiler/struct/attr/StructLocalVariableTableAttribute.java:54-124 | the parameter map of a merged list is the front list's map overridden by the appended list's map |
| `Decoder.ResolveEntry` | lib-decompiler/src/main/java/org/jetbrains/java/decompiler/struct/attr/StructLocalVariableTableAttribute.java:43-47 | an entry is built exactly when both indices resolve, keeping the three raw fields and the two pool strings; its only failure is a missing constant |
| `Decoder.DecodeEntry` | lib-decompiler/src/main/java/org/jetbrains/java/decompiler/struct/attr/StructLocalVariableTableAttribute.java:38-47 | one entry fails with truncation exactly when fewer than ten bytes are left; a success is the resolution of the five u2 fields at the position |
| `Decoder.DecodeEntries` | lib-decompiler/src/main/java/org/jetbrains/java/decompiler/struct/attr/StructLocalVariableTableAttribute.java:37-48 | the loop never yields more than n entries, yields exactly n when nothing fails, and fewer when it stops on an error |
| `Decoder.DecodeEntriesLayout` | lib-decompiler/src/main/java/org/jetbrains/java/decompiler/struct/attr/StructLocalVariableTableAttribute.java:37-48 | entry i of the loop's result is decoded from the ten bytes at pos + 10 i, and a failure is the error of the entry right after the decoded ones |
| `Decoder.Decode` | lib-decompiler/src/main/java/org/jetbrains/java/decompiler/struct/attr/StructLocalVariableTableAttribute.java:32-52 | a success has exactly as many entries as the count says and consumed exactly 2 + 10 n bytes, all inside the stream |
| `Decoder.DecodeLayout` | lib-decompiler/src/main/java/org/jetbrains/java/decompiler/struct/attr/StructLocalVariableTableAttribute.java:37-47 | entry i of a successful decode is the one decoded from the i-th ten-byte run after the count |
| `Decoder.FailureIsFinal` | lib-decompiler/src/main/java/org/jetbrains/java/decompiler/struct/attr/StructLocalVariableTableAttribute.java:37-48 | after the first failing entry the loop reads nothing more: the outcome is fixed |
| `Decoder.DecodeStopsAt` | lib-decompiler/src/main/java/org/jetbrains/java/decompiler/struct/attr/StructLocalVariableTableAttribute.java:37-48 | an error in entry i aborts the whole decode with that error, leaving the i entries before it in the list |
| `Decoder.DecodeZeroCount` | lib-decompiler/src/main/java/org/jetbrains/java/decompiler/struct/attr/StructLocalVariableTableAttribute.java:33-51 | a count of 0 decodes to the empty list after exactly the two count bytes, whatever follows |
| `Decoder.DecodeShortFails` | lib-decompiler/src/main/java/org/jetbrains/java/decompiler/struct/attr/StructLocalVariableTableAttribute.java:33-42 | a stream shorter than 2 + 10 n bytes never decodes |
| `Decoder.DecodeTruncated` | lib-decompiler/src/main/java/org/jetbrains/java/decompiler/struct/attr/StructLocalVariableTableAttribute.java:33-47 | when the count is present and every entry lying wholly inside the stream names indices the pool holds, decoding fails exactly on a stream shorter than 2 + 10 n bytes, and then with truncation |
| `Decoder.DecodeMissingConstant` | lib-decompiler/src/main/java/org/jetbrains/java/decompiler/struct/attr/StructLocalVariableTableAttribute.java:43-47 | an entry wholly inside the stream with an index missing from the pool makes the whole decode fail on a missing constant |
| `Decoder.ResolveEntriesMeaning` | lib-decompiler/src/main/java/org/jetbrains/java/decompiler/struct/attr/StructLocalVariableTableAttribute.java:37-47 | resolution in order succeeds exactly when every index is in the pool, giving one entry per raw entry with its pool strings |
| `Decoder.EncodedEntryAt` | lib-decompiler/src/main/java/org/jetbrains/java/decompiler/struct/attr/StructLocalVariableTableAttribute.java:18-27 | in the declared layout, entry k's five fields are read back from bytes 2 + 10 k onwards |
| `Decoder.DecodeEntriesResolve` | lib-decompiler/src/main/java/org/jetbrains/java/decompiler/struct/attr/StructLocalVariableTableAttribute.java:37-48 | when each entry in the stream decodes as a raw entry's resolution, the loop's outcome is the in-order resolution of those raw entries, stopping at the first failure |
| `Decoder.DecodeEncode` | lib-decompiler/src/main/java/org/jetbrains/java/decompiler/struct/attr/StructLocalVariableTableAttribute.java:18-47 | decoding an encoded body, whatever follows it, yields its entries in order resolved through the pool after exactly 2 + 10 n bytes, or the first missing-constant error |
| `Attribute.LocalVariableTableAttribute.constructor` | lib-decompiler/src/main/java/org/jetbrains/java/decompiler/struct/attr/StructLocalVariableTableAttribute.java:29 | a new attribute holds the immutable empty list, and satisfies `Valid()`: only a growable list holds entries |
| `Attribute.LocalVariableTableAttribute.ReadEntry` | lib-decompiler/src/main/java/org/jetbrains/java/decompiler/struct/attr/StructLocalVariableTableAttribute.java:38-47 | the five reads and two pool lookups of one loop iteration compute exactly `DecodeEntry` at that position |
| `Attribute.LocalVariableTableAttribute.InitContent` | lib-decompiler/src/main/java/org/jetbrains/java/decompiler/struct/attr/StructLocalVariableTableAttribute.java:32-52 | the loop succeeds exactly when `Decode` does, with its entries and its byte count, and fails with its error; the list afterwards is the entries decoded before any failure, growable exactly when the count is non-zero; a missing count leaves the attribute unchanged; `Valid()` is kept |
| `Attribute.LocalVariableTableAttribute.Add` | lib-decompiler/src/main/java/org/jetbrains/java/decompiler/struct/attr/StructLocalVariableTableAttribute.java:54-56 | succeeds unless a non-empty list is appended to the immutable empty list; on success the list is the old list followed by the other's list, otherwise unchanged; the other attribute is not changed; `Valid()` is kept |

## Left out

- The input stream class and its exceptions: the stream is a byte sequence positioned at the start of the attribute body. Every read failure is `TruncatedInput`. Where a failed decode leaves the stream is not modelled.
- The constant pool class: it is a map from index to string. Any failure of `getPrimitiveConstant(i).getString()` (no entry, or an entry that is not a string constant) is an index absent from the map, reported as `MissingConstant(i)`.
- The attribute base class, and the dispatch that decides when `initContent` runs: these are not part of this model.
- `LocalVariables.ContainsName`: the code compares names by reference (`==` on `String`). Its result depends on string interning, which cannot be modelled. The model compares by value, so it may answer true where the code answers false.
- The Java stream, collector and anonymous-class plumbing: it is written as recursive functions over the list.
- The iteration order of the `HashMap` that `getMapParamNames` returns: a Dafny `map` has none.
- The exception types: the call to `add` that throws `UnsupportedOperationException` returns `ok == false`, and the error results stand for the `IOException` and the pool's failure.
- 32-bit `int` arithmetic: the fields are 16-bit and `start_pc + length` is at most 131070, so no Java expression in the code can overflow. The query arguments are unbounded integers.
- Concurrent use: the code is single-threaded, and so is the model.
