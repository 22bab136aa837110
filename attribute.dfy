/**
 * The LocalVariableTable attribute object: the list of entries it holds,
 * filled by `initContent`, extended in place by `add`, and read by the
 * queries of module LocalVariables.
 */
module Attribute {
  import opened Wrappers
  import opened ByteStream
  import opened LocalVariables
  import opened Decoder

  class LocalVariableTableAttribute {
    /** The `localVariables` list, in decode and merge order. */
    var variables: seq<LocalVariable>
    /**
     * Whether that list accepts additions: false while it is the immutable
     * shared empty list (before decoding, or after decoding a count of 0),
     * true once decoding of a non-zero count has allocated a list of its own.
     */
    var growable: bool

    /** Only a list of the attribute's own can hold entries; the shared empty list stays empty. */
    predicate Valid()
      reads this
    {
      !growable ==> variables == []
    }

    /** A fresh attribute holds the immutable empty list. */
    constructor ()
      ensures Valid()
      ensures variables == [] && !growable
    {
      variables := [];
      growable := false;
    }

    /**
     * `initContent`: decodes the attribute body at the start of `data`,
     * resolving names and descriptors through `pool`, and returns the stream
     * position after the last byte read. The list is replaced before the
     * first entry is read, so a decode that fails part-way leaves the entries
     * decoded before the failing one; a missing count leaves the list as it was.
     */
    method InitContent(data: seq<Byte>, pool: ConstantPool) returns (r: Result<nat, DecodeError>)
      requires Valid()
      modifies this
      ensures Valid()
      ensures r.Ok? <==> Decode(data, pool).Ok?
      ensures r.Ok? ==> r.value == Decode(data, pool).value.consumed && variables == Decode(data, pool).value.variables
      ensures r.Err? ==> r.error == Decode(data, pool).error
      ensures |data| < 2 ==> variables == old(variables) && growable == old(growable)
      ensures 2 <= |data| ==>
        variables == DecodeEntries(data, 2, U2At(data, 0), pool).done && growable == (U2At(data, 0) > 0)
    {
      var count := ReadU2(data, 0);
      if count.None? {
        return Err(TruncatedInput);
      }
      var n := count.value;
      if n > 0 {
        variables := [];
        growable := true;
        var pos: nat := 2;
        var i: nat := 0;
        while i < n
          invariant 0 <= i <= n
          invariant pos == 2 + 10 * i
          invariant DecodeEntries(data, 2, i, pool) == Progress(variables, None)
          invariant growable
        {
          var entry := ReadEntry(data, pos, pool);
          if entry.Err? {
            DecodeStopsAt(data, pool, i, variables, entry.error);
            return Err(entry.error);
          }
          variables := variables + [entry.value];
          pos := pos + 10;
          i := i + 1;
        }
        DecodeByEntries(data, pool, Ok(variables));
        r := Ok(pos);
      } else {
        variables := [];
        growable := false;
        r := Ok(2);
      }
    }

    /**
     * One iteration of the `initContent` loop: the five u2 reads at `pos`,
     * then the name and the descriptor looked up in the pool, in that order.
     */
    static method ReadEntry(data: seq<Byte>, pos: nat, pool: ConstantPool) returns (r: Result<LocalVariable, DecodeError>)
      ensures r == DecodeEntry(data, pos, pool)
    {
      var startPc, length := ReadU2(data, pos), ReadU2(data, pos + 2);
      var nameIndex, descriptorIndex := ReadU2(data, pos + 4), ReadU2(data, pos + 6);
      var varIndex := ReadU2(data, pos + 8);
      if startPc.None? || length.None? || nameIndex.None? || descriptorIndex.None? || varIndex.None? {
        return Err(TruncatedInput);
      }
      var name := Resolve(pool, nameIndex.value);
      if name.Err? {
        return Err(name.error);
      }
      var descriptor := Resolve(pool, descriptorIndex.value);
      if descriptor.Err? {
        return Err(descriptor.error);
      }
      r := Ok(LocalVariable(startPc.value, length.value, name.value, descriptor.value, varIndex.value));
    }

    /**
     * `add`: appends the other attribute's entries after this one's, in
     * order and without removing duplicates. Appending a non-empty list to
     * the immutable empty list is refused (`ok` false) and changes nothing.
     */
    method Add(other: LocalVariableTableAttribute) returns (ok: bool)
      requires Valid()
      modifies this
      ensures Valid()
      ensures ok <==> old(growable) || old(other.variables) == []
      ensures ok ==> variables == old(variables) + old(other.variables)
      ensures !ok ==> variables == old(variables)
      ensures growable == old(growable)
      ensures other != this ==> other.variables == old(other.variables) && other.growable == old(other.growable)
    {
      if !growable && |other.variables| > 0 {
        return false;
      }
      variables := variables + other.variables;
      ok := true;
    }

    /** `getName` on this attribute's list. */
    function GetName(index: int, visibleOffset: int): (r: Option<string>)
      reads this
    {
      LocalVariables.GetName(variables, index, visibleOffset)
    }

    /** `getDescriptor` on this attribute's list. */
    function GetDescriptor(index: int, visibleOffset: int): (r: Option<string>)
      reads this
    {
      LocalVariables.GetDescriptor(variables, index, visibleOffset)
    }

    /** `containsName` on this attribute's list. */
    function ContainsName(name: string): (r: bool)
      reads this
    {
      LocalVariables.ContainsName(variables, name)
    }

    /** `getMapParamNames` on this attribute's list. */
    function GetMapParamNames(): (m: map<int, string>)
      reads this
    {
      ParamNames(variables)
    }
  }
}
