/**
 * Decoding of the LocalVariableTable attribute body (`initContent`):
 *
 *   u2 local_variable_table_length;
 *   local_variable_table_length times
 *     { u2 start_pc; u2 length; u2 name_index; u2 descriptor_index; u2 index; }
 *
 * all big-endian, with `name_index` and `descriptor_index` resolved to
 * strings through the constant pool. This module holds the specification
 * of that decode as functions, an encoder for the same layout, and the
 * properties that tie the two together; the loop itself is
 * `Attribute.LocalVariableTableAttribute.InitContent`.
 */
module Decoder {
  import opened Wrappers
  import opened ByteStream
  import opened LocalVariables

  /** The constant pool, seen as the strings it holds by index; a missing index is a bad reference. */
  type ConstantPool = map<int, string>

  /** Why a decode aborts: the stream ran out, or a pool index names no string constant. */
  datatype DecodeError = TruncatedInput | MissingConstant(poolIndex: int)

  /** One entry's five fields as they stand in the stream, before resolution. */
  datatype RawEntry = RawEntry(startPc: U2, length: U2, nameIndex: U2, descriptorIndex: U2, index: U2)

  /** The five consecutive big-endian u2 fields at `pos`, in stream order. */
  function RawEntryAt(data: seq<Byte>, pos: nat): (raw: RawEntry)
    requires pos + 10 <= |data|
  {
    RawEntry(U2At(data, pos), U2At(data, pos + 2), U2At(data, pos + 4), U2At(data, pos + 6), U2At(data, pos + 8))
  }

  /** `pool.getPrimitiveConstant(i).getString()`. */
  function Resolve(pool: ConstantPool, i: int): (r: Result<string, DecodeError>)
  {
    if i in pool then Ok(pool[i]) else Err(MissingConstant(i))
  }

  /** Builds the entry from its raw fields, resolving the name before the descriptor. */
  function ResolveEntry(raw: RawEntry, pool: ConstantPool): (r: Result<LocalVariable, DecodeError>)
    ensures r.Ok? <==> raw.nameIndex in pool && raw.descriptorIndex in pool
    ensures r.Ok? ==> r.value == LocalVariable(raw.startPc, raw.length, pool[raw.nameIndex], pool[raw.descriptorIndex], raw.index)
    ensures r.Err? ==> r.error.MissingConstant?
  {
    match Resolve(pool, raw.nameIndex)
    case Err(e) => Err(e)
    case Ok(name) =>
      match Resolve(pool, raw.descriptorIndex)
      case Err(e) => Err(e)
      case Ok(descriptor) => Ok(LocalVariable(raw.startPc, raw.length, name, descriptor, raw.index))
  }

  /**
   * One iteration of the decode loop at stream position `pos`: five reads,
   * any of which may hit the end of the stream, then the two pool lookups.
   */
  function DecodeEntry(data: seq<Byte>, pos: nat, pool: ConstantPool): (r: Result<LocalVariable, DecodeError>)
    ensures r == Err(TruncatedInput) <==> |data| < pos + 10
    ensures r.Ok? ==> pos + 10 <= |data| && ResolveEntry(RawEntryAt(data, pos), pool) == r
  {
    if pos + 10 <= |data| then ResolveEntry(RawEntryAt(data, pos), pool) else Err(TruncatedInput)
  }

  /**
   * Where the decode loop stands: the entries decoded so far and, if the
   * loop stopped early, the error it stopped on.
   */
  datatype Progress = Progress(done: seq<LocalVariable>, failure: Option<DecodeError>)

  /**
   * The first `n` iterations of the decode loop, from stream position `pos`.
   * Entry i comes from the i-th run of ten bytes; the loop stops at the
   * first entry that fails and keeps the ones before it.
   */
  function DecodeEntries(data: seq<Byte>, pos: nat, n: nat, pool: ConstantPool): (p: Progress)
    ensures |p.done| <= n
    ensures p.failure.None? ==> |p.done| == n
    ensures p.failure.Some? ==> |p.done| < n
  {
    if n == 0 then Progress([], None)
    else
      var p := DecodeEntries(data, pos, n - 1, pool);
      if p.failure.Some? then p
      else match DecodeEntry(data, pos + 10 * (n - 1), pool)
        case Err(e) => Progress(p.done, Some(e))
        case Ok(v) => Progress(p.done + [v], None)
  }

  /**
   * What the decode loop has done after `n` iterations: entry i is the one
   * decoded from the ten bytes at `pos + 10 * i`, and a failure is the error
   * of the entry right after the decoded ones.
   */
  lemma {:induction false} DecodeEntriesLayout(data: seq<Byte>, pos: nat, n: nat, pool: ConstantPool)
    ensures var p := DecodeEntries(data, pos, n, pool);
      forall i :: 0 <= i < |p.done| ==> DecodeEntry(data, pos + 10 * i, pool) == Ok(p.done[i])
    ensures var p := DecodeEntries(data, pos, n, pool);
      p.failure.Some? ==> DecodeEntry(data, pos + 10 * |p.done|, pool) == Err(p.failure.value)
  {
    if n > 0 {
      DecodeEntriesLayout(data, pos, n - 1, pool);
    }
  }

  /** Once the decode loop has stopped, further iterations change nothing. */
  lemma {:induction false} FailureIsFinal(data: seq<Byte>, pos: nat, i: nat, n: nat, pool: ConstantPool)
    requires i <= n && DecodeEntries(data, pos, i, pool).failure.Some?
    ensures DecodeEntries(data, pos, n, pool) == DecodeEntries(data, pos, i, pool)
  {
    if i < n {
      FailureIsFinal(data, pos, i, n - 1, pool);
    }
  }

  /** A successful decode: the entries and the number of bytes read. */
  datatype Decoded = Decoded(variables: seq<LocalVariable>, consumed: nat)

  /** The decode loop ends on the error of entry `i` after `i` good entries: so does the whole decode. */
  lemma DecodeStopsAt(data: seq<Byte>, pool: ConstantPool, i: nat, vs: seq<LocalVariable>, e: DecodeError)
    requires 2 <= |data| && i < U2At(data, 0)
    requires DecodeEntries(data, 2, i, pool) == Progress(vs, None)
    requires DecodeEntry(data, 2 + 10 * i, pool) == Err(e)
    ensures DecodeEntries(data, 2, U2At(data, 0), pool) == Progress(vs, Some(e))
    ensures Decode(data, pool) == Err(e)
  {
    FailureIsFinal(data, 2, i + 1, U2At(data, 0), pool);
  }

  /** The decode loop ended as `q` says: so does the whole decode. */
  lemma DecodeByEntries(data: seq<Byte>, pool: ConstantPool, q: Result<seq<LocalVariable>, DecodeError>)
    requires 2 <= |data|
    requires var p := DecodeEntries(data, 2, U2At(data, 0), pool);
      (q.Ok? ==> p == Progress(q.value, None)) && (q.Err? ==> p.failure == Some(q.error))
    ensures Decode(data, pool) ==
      match q
      case Ok(vs) => Ok(Decoded(vs, 2 + 10 * U2At(data, 0)))
      case Err(e) => Err(e)
  {
  }

  /**
   * `initContent` as a function of the stream and the pool: read the count,
   * then that many entries. On success exactly `2 + 10 * n` bytes are read;
   * every failure aborts the whole decode.
   */
  function Decode(data: seq<Byte>, pool: ConstantPool): (r: Result<Decoded, DecodeError>)
    ensures r.Ok? ==> 2 <= |data| && |r.value.variables| == U2At(data, 0)
    ensures r.Ok? ==> r.value.consumed == 2 + 10 * |r.value.variables| <= |data|
  {
    match ReadU2(data, 0)
    case None => Err(TruncatedInput)
    case Some(n) =>
      var p := DecodeEntries(data, 2, n, pool);
      if p.failure.Some? then Err(p.failure.value)
      else
        DecodeEntriesLayout(data, 2, n, pool);
        assert n > 0 ==> DecodeEntry(data, 2 + 10 * (n - 1), pool).Ok?;
        Ok(Decoded(p.done, 2 + 10 * n))
  }

  /** Entry i of a successful decode is the one decoded from the i-th run of ten bytes after the count. */
  lemma DecodeLayout(data: seq<Byte>, pool: ConstantPool)
    ensures Decode(data, pool).Ok? ==> forall i :: 0 <= i < |Decode(data, pool).value.variables| ==>
      DecodeEntry(data, 2 + 10 * i, pool) == Ok(Decode(data, pool).value.variables[i])
  {
    if 2 <= |data| {
      DecodeEntriesLayout(data, 2, U2At(data, 0), pool);
    }
  }

  /** The count alone, 0: an empty list, and only the two count bytes are read. */
  lemma DecodeZeroCount(rest: seq<Byte>, pool: ConstantPool)
    ensures Decode([0, 0] + rest, pool) == Ok(Decoded([], 2))
  {
  }

  /** A stream shorter than its count announces never decodes. */
  lemma DecodeShortFails(data: seq<Byte>, pool: ConstantPool)
    requires 2 <= |data| < 2 + 10 * U2At(data, 0)
    ensures Decode(data, pool).Err?
  {
  }

  /**
   * When every entry that lies wholly inside the stream names indices the
   * pool holds, the only way to fail is to run out of stream, and that
   * happens exactly when the stream is shorter than `2 + 10 * n`.
   */
  lemma DecodeTruncated(data: seq<Byte>, pool: ConstantPool)
    requires 2 <= |data|
    requires forall k :: 0 <= k < U2At(data, 0) && 2 + 10 * k + 10 <= |data| ==>
      RawEntryAt(data, 2 + 10 * k).nameIndex in pool && RawEntryAt(data, 2 + 10 * k).descriptorIndex in pool
    ensures Decode(data, pool).Err? <==> |data| < 2 + 10 * U2At(data, 0)
    ensures Decode(data, pool).Err? ==> Decode(data, pool).error == TruncatedInput
  {
    DecodeEntriesLayout(data, 2, U2At(data, 0), pool);
  }

  /** The decode loop stops no later than the first entry that fails. */
  lemma FirstFailure(data: seq<Byte>, pos: nat, n: nat, pool: ConstantPool, k: nat)
    ensures k < n && DecodeEntry(data, pos + 10 * k, pool).Err? ==>
      DecodeEntries(data, pos, n, pool).failure.Some? && |DecodeEntries(data, pos, n, pool).done| <= k
  {
  }

  /**
   * An entry that lies wholly inside the stream but names an index the pool
   * lacks makes the whole decode fail on a missing constant.
   */
  lemma DecodeMissingConstant(data: seq<Byte>, pool: ConstantPool, k: nat)
    requires 2 <= |data| && k < U2At(data, 0)
    requires 2 + 10 * k + 10 <= |data|
    requires RawEntryAt(data, 2 + 10 * k).nameIndex !in pool ||
             RawEntryAt(data, 2 + 10 * k).descriptorIndex !in pool
    ensures Decode(data, pool).Err? && Decode(data, pool).error.MissingConstant?
  {
    var n := U2At(data, 0);
    assert DecodeEntry(data, 2 + 10 * k, pool).Err?;
    FirstFailure(data, 2, n, pool, k);
    DecodeEntriesLayout(data, 2, n, pool);
    var j := |DecodeEntries(data, 2, n, pool).done|;
    assert 2 + 10 * j + 10 <= 2 + 10 * k + 10;
  }

  /** The ten bytes of one entry, fields in stream order. */
  function EncodeEntry(e: RawEntry): (r: seq<Byte>)
    ensures |r| == 10
  {
    U2Bytes(e.startPc) + U2Bytes(e.length) + U2Bytes(e.nameIndex) + U2Bytes(e.descriptorIndex) + U2Bytes(e.index)
  }

  /** The entries one after another. */
  function EncodeEntries(es: seq<RawEntry>): (r: seq<Byte>)
    ensures |r| == 10 * |es|
  {
    if |es| == 0 then [] else EncodeEntries(es[..|es| - 1]) + EncodeEntry(es[|es| - 1])
  }

  /** A whole attribute body: the count and then the entries. */
  function Encode(es: seq<RawEntry>): (r: seq<Byte>)
    requires |es| < 0x1_0000
    ensures |r| == 2 + 10 * |es|
  {
    U2Bytes(|es|) + EncodeEntries(es)
  }

  /**
   * Resolves the entries in order and stops on the first unresolvable one,
   * as the decode loop does.
   */
  function ResolveEntries(es: seq<RawEntry>, pool: ConstantPool): (r: Result<seq<LocalVariable>, DecodeError>)
  {
    if |es| == 0 then Ok([])
    else match ResolveEntries(es[..|es| - 1], pool)
      case Err(e) => Err(e)
      case Ok(vs) =>
        match ResolveEntry(es[|es| - 1], pool)
        case Err(e) => Err(e)
        case Ok(v) => Ok(vs + [v])
  }

  /**
   * Resolution in order succeeds exactly when every index is in the pool,
   * and then yields one entry per raw entry, with the pool's strings.
   */
  lemma {:induction false} ResolveEntriesMeaning(es: seq<RawEntry>, pool: ConstantPool)
    ensures ResolveEntries(es, pool).Ok? <==>
      forall i :: 0 <= i < |es| ==> es[i].nameIndex in pool && es[i].descriptorIndex in pool
    ensures ResolveEntries(es, pool).Ok? ==> |ResolveEntries(es, pool).value| == |es|
    ensures ResolveEntries(es, pool).Ok? ==> forall i :: 0 <= i < |es| ==>
      ResolveEntries(es, pool).value[i] ==
      LocalVariable(es[i].startPc, es[i].length, pool[es[i].nameIndex], pool[es[i].descriptorIndex], es[i].index)
  {
    if |es| > 0 {
      var front := es[..|es| - 1];
      ResolveEntriesMeaning(front, pool);
      assert forall i :: 0 <= i < |front| ==> front[i] == es[i];
    }
  }

  /** Reading back an encoded entry gives its fields. */
  lemma RawEntryAtEncode(data: seq<Byte>, pos: nat, e: RawEntry)
    requires pos + 10 <= |data| && data[pos..pos + 10] == EncodeEntry(e)
    ensures RawEntryAt(data, pos) == e
  {
  }

  /** The bytes of entry `k` sit at offset `10 * k` of the encoded entries. */
  lemma {:induction false} EncodeEntriesAt(es: seq<RawEntry>, k: nat)
    requires k < |es|
    ensures EncodeEntries(es)[10 * k..10 * k + 10] == EncodeEntry(es[k])
  {
    var n := |es|;
    var prefix := es[..n - 1];
    assert EncodeEntries(es) == EncodeEntries(prefix) + EncodeEntry(es[n - 1]);
    if k < n - 1 {
      EncodeEntriesAt(prefix, k);
      assert prefix[k] == es[k];
      assert 10 * k + 10 <= 10 * (n - 1);
    } else {
      assert 10 * k == |EncodeEntries(prefix)|;
    }
  }

  /** Entry `k` of an encoded attribute body is read back as `es[k]`. */
  lemma EncodedEntryAt(es: seq<RawEntry>, rest: seq<Byte>, k: nat)
    requires |es| < 0x1_0000 && k < |es|
    ensures 2 + 10 * k + 10 <= |Encode(es) + rest|
    ensures RawEntryAt(Encode(es) + rest, 2 + 10 * k) == es[k]
  {
    var data := Encode(es) + rest;
    var entries := EncodeEntries(es);
    var pos := 2 + 10 * k;
    EncodeEntriesAt(es, k);
    assert 10 * k + 10 <= 10 * |es|;
    assert data[2..2 + 10 * |es|] == entries;
    assert data[pos..pos + 10] == entries[10 * k..10 * k + 10];
    RawEntryAtEncode(data, pos, es[k]);
  }

  /**
   * When each of the first `k` entries of a stream decodes as the resolution
   * of a raw entry, the decode loop resolves those raw entries in order.
   */
  lemma {:induction false} DecodeEntriesResolve(data: seq<Byte>, es: seq<RawEntry>, pool: ConstantPool, k: nat)
    requires k <= |es|
    requires forall i :: 0 <= i < k ==> DecodeEntry(data, 2 + 10 * i, pool) == ResolveEntry(es[i], pool)
    ensures var p, q := DecodeEntries(data, 2, k, pool), ResolveEntries(es[..k], pool);
      (q.Ok? ==> p == Progress(q.value, None)) && (q.Err? ==> p.failure == Some(q.error))
  {
    if k > 0 {
      DecodeEntriesResolve(data, es, pool, k - 1);
      assert es[..k][..k - 1] == es[..k - 1];
      assert es[..k][k - 1] == es[k - 1];
    }
  }

  /** The count of an encoded attribute body reads back as the number of entries. */
  lemma HeaderOfEncode(es: seq<RawEntry>, rest: seq<Byte>)
    requires |es| < 0x1_0000
    ensures 2 <= |Encode(es) + rest| && U2At(Encode(es) + rest, 0) == |es|
  {
    assert (Encode(es) + rest)[0..2] == U2Bytes(|es|);
    U2AtBytes(Encode(es) + rest, 0, |es|);
  }

  /**
   * Round trip: decoding an encoded attribute body, whatever follows it,
   * reads exactly its `2 + 10 * n` bytes and yields its entries in order,
   * resolved through the pool; or fails on the first index the pool lacks.
   */
  lemma DecodeEncode(es: seq<RawEntry>, rest: seq<Byte>, pool: ConstantPool)
    requires |es| < 0x1_0000
    ensures Decode(Encode(es) + rest, pool) ==
      match ResolveEntries(es, pool)
      case Ok(vs) => Ok(Decoded(vs, 2 + 10 * |es|))
      case Err(e) => Err(e)
  {
    var data := Encode(es) + rest;
    HeaderOfEncode(es, rest);
    forall i | 0 <= i < |es| ensures DecodeEntry(data, 2 + 10 * i, pool) == ResolveEntry(es[i], pool) {
      EncodedEntryAt(es, rest, i);
    }
    DecodeEntriesResolve(data, es, pool, |es|);
    assert es[..|es|] == es;
    DecodeByEntries(data, pool, ResolveEntries(es, pool));
  }
}
