/**
 * The entries of a LocalVariableTable attribute (section 4.7.13 of the Java
 * Virtual Machine Specification, Java SE 8 edition) and the read-only queries
 * the decompiler asks of a list of them: the name and descriptor of the
 * variable a slot holds at an instruction offset, whether a name occurs,
 * and the names of the method's parameters.
 */
module LocalVariables {
  import opened Wrappers
  import opened ByteStream

  /**
   * One `local_variable` entry with its two constant-pool indices already
   * resolved: slot `index` holds the variable called `name`, of type
   * `descriptor`, at the offsets `startPc <= pc < startPc + length`.
   */
  datatype LocalVariable = LocalVariable(
    startPc: U2,
    length: U2,
    name: string,
    descriptor: string,
    index: U2)

  /** The filter of `matchingVars`: `v` is the variable of slot `index` at `offset`. */
  predicate Matches(v: LocalVariable, index: int, offset: int) {
    v.index == index && v.startPc <= offset < v.startPc + v.length
  }

  /**
   * Reference definition of a first-match lookup: the position of the
   * earliest entry, in list order, that matches `index` and `offset`.
   */
  function FirstMatch(vars: seq<LocalVariable>, index: int, offset: int): (r: Option<nat>)
    ensures r.Some? ==> r.value < |vars| && Matches(vars[r.value], index, offset)
    ensures r.Some? ==> forall j :: 0 <= j < r.value ==> !Matches(vars[j], index, offset)
    ensures r.None? ==> forall j :: 0 <= j < |vars| ==> !Matches(vars[j], index, offset)
  {
    if |vars| == 0 then None
    else if Matches(vars[0], index, offset) then Some(0)
    else match FirstMatch(vars[1..], index, offset)
      case None => None
      case Some(k) => Some(k + 1)
  }

  /**
   * `matchingVars`: the entries that match, in list order. It is empty
   * exactly when nothing matches, and the first one kept is the earliest
   * match.
   */
  function MatchingVars(vars: seq<LocalVariable>, index: int, offset: int): (r: seq<LocalVariable>)
    ensures |r| <= |vars|
    ensures |r| == 0 <==> FirstMatch(vars, index, offset).None?
    ensures |r| > 0 ==> r[0] == vars[FirstMatch(vars, index, offset).value]
  {
    if |vars| == 0 then []
    else if Matches(vars[0], index, offset) then [vars[0]] + MatchingVars(vars[1..], index, offset)
    else MatchingVars(vars[1..], index, offset)
  }

  /** `getName`: the name of the earliest matching entry, `None` for Java's `null`. */
  function GetName(vars: seq<LocalVariable>, index: int, offset: int): (r: Option<string>)
    ensures FirstMatch(vars, index, offset).None? ==> r.None?
    ensures FirstMatch(vars, index, offset).Some? ==>
      r == Some(vars[FirstMatch(vars, index, offset).value].name)
  {
    var matching := MatchingVars(vars, index, offset);
    if |matching| == 0 then None else Some(matching[0].name)
  }

  /** `getDescriptor`: the descriptor of the earliest matching entry, `None` for `null`. */
  function GetDescriptor(vars: seq<LocalVariable>, index: int, offset: int): (r: Option<string>)
    ensures FirstMatch(vars, index, offset).None? ==> r.None?
    ensures FirstMatch(vars, index, offset).Some? ==>
      r == Some(vars[FirstMatch(vars, index, offset).value].descriptor)
  {
    var matching := MatchingVars(vars, index, offset);
    if |matching| == 0 then None else Some(matching[0].descriptor)
  }

  /** `containsName`: some entry is called exactly `name`. */
  function ContainsName(vars: seq<LocalVariable>, name: string): (r: bool)
    ensures r <==> exists i :: 0 <= i < |vars| && vars[i].name == name
  {
    if |vars| == 0 then false
    else vars[0].name == name || ContainsName(vars[1..], name)
  }

  /** An entry that starts at offset 0 is a parameter; this one sits in `slot`. */
  predicate IsParam(v: LocalVariable, slot: int) {
    v.startPc == 0 && v.index == slot
  }

  /** Reference definition: the position of the last parameter entry for `slot`. */
  function LastParam(vars: seq<LocalVariable>, slot: int): (r: Option<nat>)
    ensures r.Some? ==> r.value < |vars| && IsParam(vars[r.value], slot)
    ensures r.Some? ==> forall j :: r.value < j < |vars| ==> !IsParam(vars[j], slot)
    ensures r.None? ==> forall j :: 0 <= j < |vars| ==> !IsParam(vars[j], slot)
  {
    if |vars| == 0 then None
    else if IsParam(vars[|vars| - 1], slot) then Some(|vars| - 1)
    else LastParam(vars[..|vars| - 1], slot)
  }

  /**
   * `getMapParamNames`: slot to name over the entries starting at offset 0,
   * collected in list order with the later name replacing the earlier one.
   * A slot is a key exactly when it has a parameter entry, and it maps to
   * the name of the last such entry.
   */
  function ParamNames(vars: seq<LocalVariable>): (m: map<int, string>)
    ensures forall slot :: slot in m <==> LastParam(vars, slot).Some?
    ensures forall slot :: slot in m ==> m[slot] == vars[LastParam(vars, slot).value].name
  {
    if |vars| == 0 then map[]
    else
      var v := vars[|vars| - 1];
      var m := ParamNames(vars[..|vars| - 1]);
      if v.startPc == 0 then m[v.index := v.name] else m
  }

  /** On an empty list every query comes back empty: `null`, `false`, an empty map. */
  lemma EmptyTableQueries(index: int, offset: int, name: string)
    ensures GetName([], index, offset).None? && GetDescriptor([], index, offset).None?
    ensures !ContainsName([], name)
    ensures ParamNames([]) == map[]
  {
  }

  /**
   * A one-entry table names its slot exactly at the offsets start_pc
   * through start_pc + length - 1, and nowhere when the length is 0.
   */
  lemma SingleEntryVisibility(v: LocalVariable, offset: int)
    ensures GetName([v], v.index, offset) ==
      if v.startPc <= offset <= v.startPc + v.length - 1 then Some(v.name) else None
    ensures v.length == 0 ==> GetName([v], v.index, offset).None?
  {
  }

  /** The values `matchingVars` keeps are exactly the matching values of the list. */
  lemma {:induction false} MatchingVarsMembers(vars: seq<LocalVariable>, index: int, offset: int)
    ensures forall v :: v in MatchingVars(vars, index, offset) <==> v in vars && Matches(v, index, offset)
    decreases |vars|
  {
    if |vars| > 0 {
      MatchingVarsMembers(vars[1..], index, offset);
      assert vars == [vars[0]] + vars[1..];
    }
  }

  /** `matchingVars` on one entry: the entry itself if it matches, else nothing. */
  lemma MatchingVarsSingle(v: LocalVariable, index: int, offset: int)
    ensures MatchingVars([v], index, offset) == if Matches(v, index, offset) then [v] else []
  {
  }

  /**
   * `matchingVars` is an order-preserving filter: on a concatenation it
   * is the matches of the front part followed by those of the back part,
   * so list order and duplicates are kept.
   */
  lemma {:induction false} MatchingVarsAppend(a: seq<LocalVariable>, b: seq<LocalVariable>, index: int, offset: int)
    ensures MatchingVars(a + b, index, offset) == MatchingVars(a, index, offset) + MatchingVars(b, index, offset)
    decreases |a|
  {
    if |a| > 0 {
      assert (a + b)[1..] == a[1..] + b;
      MatchingVarsAppend(a[1..], b, index, offset);
    } else {
      assert a + b == b;
    }
  }

  /**
   * The two lookups share one match rule: both are `null` together, or both
   * return the fields of one and the same matching entry.
   */
  lemma LookupsAgree(vars: seq<LocalVariable>, index: int, offset: int)
    ensures GetName(vars, index, offset).None? <==> GetDescriptor(vars, index, offset).None?
    ensures GetName(vars, index, offset).Some? ==>
      exists i :: 0 <= i < |vars| && Matches(vars[i], index, offset) &&
        GetName(vars, index, offset).value == vars[i].name &&
        GetDescriptor(vars, index, offset).value == vars[i].descriptor
  {
  }

  /** A name found by `getName` is one that `containsName` reports. */
  lemma GetNameIsContained(vars: seq<LocalVariable>, index: int, offset: int)
    ensures GetName(vars, index, offset).Some? ==> ContainsName(vars, GetName(vars, index, offset).value)
  {
  }

  /** First match in a concatenation: in the front part if there is one, else in the back part. */
  lemma FirstMatchAppend(a: seq<LocalVariable>, b: seq<LocalVariable>, index: int, offset: int)
    ensures FirstMatch(a + b, index, offset) ==
      match FirstMatch(a, index, offset)
      case Some(i) => Some(i)
      case None => match FirstMatch(b, index, offset)
        case None => None
        case Some(j) => Some(|a| + j)
  {
    var ab := a + b;
    match FirstMatch(a, index, offset)
    case Some(i) =>
      assert ab[i] == a[i];
      assert forall j :: 0 <= j < i ==> ab[j] == a[j];
    case None =>
      assert forall j :: 0 <= j < |a| ==> ab[j] == a[j];
      match FirstMatch(b, index, offset)
      case None =>
        assert forall j :: |a| <= j < |ab| ==> ab[j] == b[j - |a|];
      case Some(j) =>
        assert ab[|a| + j] == b[j];
        assert forall k :: |a| <= k < |a| + j ==> ab[k] == b[k - |a|];
  }

  /**
   * Lookups after a merge: an entry of the front list shadows every entry of
   * the appended list.
   */
  lemma LookupsAppend(a: seq<LocalVariable>, b: seq<LocalVariable>, index: int, offset: int)
    ensures GetName(a + b, index, offset) ==
      if GetName(a, index, offset).Some? then GetName(a, index, offset) else GetName(b, index, offset)
    ensures GetDescriptor(a + b, index, offset) ==
      if GetDescriptor(a, index, offset).Some? then GetDescriptor(a, index, offset) else GetDescriptor(b, index, offset)
  {
    FirstMatchAppend(a, b, index, offset);
    var ab := a + b;
    if FirstMatch(a, index, offset).None? && FirstMatch(b, index, offset).Some? {
      var j := FirstMatch(b, index, offset).value;
      assert ab[|a| + j] == b[j];
    }
  }

  /** An entry of length 0 is never visible: removing it changes no lookup. */
  lemma ZeroLengthInvisible(a: seq<LocalVariable>, v: LocalVariable, b: seq<LocalVariable>, index: int, offset: int)
    requires v.length == 0
    ensures GetName(a + [v] + b, index, offset) == GetName(a + b, index, offset)
    ensures GetDescriptor(a + [v] + b, index, offset) == GetDescriptor(a + b, index, offset)
  {
    LookupsAppend(a, [v], index, offset);
    LookupsAppend(a + [v], b, index, offset);
    LookupsAppend(a, b, index, offset);
  }

  /** Name presence after a merge: in either list. */
  lemma ContainsNameAppend(a: seq<LocalVariable>, b: seq<LocalVariable>, name: string)
    ensures ContainsName(a + b, name) <==> ContainsName(a, name) || ContainsName(b, name)
  {
    var ab := a + b;
    if ContainsName(a, name) {
      var i :| 0 <= i < |a| && a[i].name == name;
      assert ab[i] == a[i];
    }
    if ContainsName(b, name) {
      var i :| 0 <= i < |b| && b[i].name == name;
      assert ab[|a| + i] == b[i];
    }
    if ContainsName(ab, name) {
      var i :| 0 <= i < |ab| && ab[i].name == name;
      if i < |a| { assert a[i] == ab[i]; } else { assert b[i - |a|] == ab[i]; }
    }
  }

  /** The keys of `getMapParamNames` are exactly the slots of the entries that start at 0. */
  lemma ParamNamesKeys(vars: seq<LocalVariable>)
    ensures ParamNames(vars).Keys == set i | 0 <= i < |vars| && vars[i].startPc == 0 :: vars[i].index as int
  {
  }

  /** Last parameter entry of a concatenation: in the back part if there is one, else in the front part. */
  lemma LastParamAppend(a: seq<LocalVariable>, b: seq<LocalVariable>, slot: int)
    ensures LastParam(a + b, slot) ==
      match LastParam(b, slot)
      case Some(j) => Some(|a| + j)
      case None => LastParam(a, slot)
  {
    var ab := a + b;
    match LastParam(b, slot)
    case Some(j) =>
      assert ab[|a| + j] == b[j];
      assert forall k :: |a| + j < k < |ab| ==> ab[k] == b[k - |a|];
    case None =>
      assert forall k :: |a| <= k < |ab| ==> ab[k] == b[k - |a|];
      match LastParam(a, slot)
      case None =>
        assert forall k :: 0 <= k < |a| ==> ab[k] == a[k];
      case Some(i) =>
        assert ab[i] == a[i];
        assert forall k :: i < k < |a| ==> ab[k] == a[k];
  }

  /**
   * Parameter names after a merge: the map of the appended list overrides
   * the map of the front list, slot by slot.
   */
  lemma ParamNamesAppend(a: seq<LocalVariable>, b: seq<LocalVariable>)
    ensures ParamNames(a + b) == ParamNames(a) + ParamNames(b)
  {
    var lhs, rhs := ParamNames(a + b), ParamNames(a) + ParamNames(b);
    forall slot ensures (slot in lhs <==> slot in rhs) && (slot in lhs ==> lhs[slot] == rhs[slot]) {
      ParamNameAppend(a, b, slot);
    }
    assert lhs.Keys == rhs.Keys;
  }

  /** One slot of `ParamNamesAppend`. */
  lemma ParamNameAppend(a: seq<LocalVariable>, b: seq<LocalVariable>, slot: int)
    ensures var lhs, rhs := ParamNames(a + b), ParamNames(a) + ParamNames(b);
      (slot in lhs <==> slot in rhs) && (slot in lhs ==> lhs[slot] == rhs[slot])
  {
    LastParamAppend(a, b, slot);
    var ab := a + b;
    if LastParam(b, slot).Some? {
      assert ab[|a| + LastParam(b, slot).value] == b[LastParam(b, slot).value];
    } else if LastParam(a, slot).Some? {
      assert ab[LastParam(a, slot).value] == a[LastParam(a, slot).value];
    }
  }
}
