/**
 EIP-712 type lists of the meta transactions: how they are built, the type string and its
 suffix, and the string a registered request type gets on chain.
 */
module TypeLists {
  import opened Wrappers
  import opened Bytes

  datatype Field = Field(name: string, typ: string)

  const GENERIC_PARAMS: seq<Field> := [Field("from", "address"), Field("nonce", "uint256")]
  const DATA_FIELD := Field("data", "bytes")
  const DESTINATION_FIELD := Field("destination", "address")

  /** `s.indexOf('[]') !== -1` */
  predicate HasBrackets(s: string) {
    |s| >= 2 && ((s[0] == '[' && s[1] == ']') || HasBrackets(s[1..]))
  }

  predicate IsDynamicArrayType(typ: string) {
    typ == "string" || typ == "bytes" || HasBrackets(typ)
  }

  /** A type of dynamic length: text, bytes, or anything with an array of open length in it. */
  ghost predicate DynamicType(typ: string) {
    typ == "string" || typ == "bytes"
    || exists i :: 0 <= i < |typ| - 1 && typ[i] == '[' && typ[i + 1] == ']'
  }

  lemma {:induction false} BracketsMeaning(s: string)
    ensures HasBrackets(s) <==> exists i :: 0 <= i < |s| - 1 && s[i] == '[' && s[i + 1] == ']'
  {
    if |s| >= 2 {
      BracketsMeaning(s[1..]);
      if i :| 0 <= i < |s[1..]| - 1 && s[1..][i] == '[' && s[1..][i + 1] == ']' {
        assert s[i + 1] == '[' && s[i + 1 + 1] == ']';
      }
      if i :| 0 <= i < |s| - 1 && s[i] == '[' && s[i + 1] == ']' {
        if i > 0 { assert s[1..][i - 1] == '[' && s[1..][i - 1 + 1] == ']'; }
      }
      if s[0] == '[' && s[1] == ']' { assert s[0 + 1] == ']'; }
    }
  }

  lemma DynamicMeaning(typ: string)
    ensures IsDynamicArrayType(typ) <==> DynamicType(typ)
  {
    BracketsMeaning(typ);
  }

  /** Some field has a type of dynamic length. */
  ghost predicate SomeDynamic(fields: seq<Field>) {
    exists i :: 0 <= i < |fields| && DynamicType(fields[i].typ)
  }

  lemma AnyMeaning(fields: seq<Field>)
    ensures AnyDynamic(fields) <==> SomeDynamic(fields)
  {
    forall i | 0 <= i < |fields| ensures IsDynamicArrayType(fields[i].typ) <==> DynamicType(fields[i].typ) {
      DynamicMeaning(fields[i].typ);
    }
  }

  predicate AnyDynamic(fields: seq<Field>) {
    exists i :: 0 <= i < |fields| && IsDynamicArrayType(fields[i].typ)
  }

  predicate Names(fields: seq<Field>, name: string) {
    exists i :: 0 <= i < |fields| && fields[i].name == name
  }

  function TypeList(fields: seq<Field>): seq<Field> {
    GENERIC_PARAMS + (if AnyDynamic(fields) then [DATA_FIELD] else []) + fields
  }

  method BuildTypeList(fields: seq<Field>) returns (typeList: seq<Field>)
    ensures typeList == TypeList(fields)
    ensures typeList == [Field("from", "address"), Field("nonce", "uint256")]
                        + (if SomeDynamic(fields) then [Field("data", "bytes")] else []) + fields
  {
    AnyMeaning(fields);
    typeList := GENERIC_PARAMS;
    if AnyDynamic(fields) {
      typeList := typeList + [DATA_FIELD];
    }
    ghost var head := typeList;
    for i := 0 to |fields|
      invariant typeList == head + fields[..i]
    {
      typeList := typeList + [fields[i]];
    }
    assert fields[..|fields|] == fields;
  }

  /** Reading position 2 of a list without one is a TypeError. */
  function AddDestinationField(types: seq<Field>): Result<seq<Field>> {
    if |types| <= 2 then Err("TypeError: undefined is not an object")
    else
      var insertPosition := if types[2].name == "data" then 3 else 2;
      Ok(types[..insertPosition] + [DESTINATION_FIELD] + types[insertPosition..])
  }

  lemma DestinationIsNotDynamic(fields: seq<Field>)
    ensures AnyDynamic([DESTINATION_FIELD] + fields) <==> AnyDynamic(fields)
  {
    assert !IsDynamicArrayType("address") by { AddressHasNoBrackets(); }
    var with := [DESTINATION_FIELD] + fields;
    if i: nat :| i < |fields| && IsDynamicArrayType(fields[i].typ) {
      assert with[i + 1] == fields[i];
    }
    if i: nat :| i < |with| && IsDynamicArrayType(with[i].typ) {
      assert i > 0 && with[i] == fields[i - 1];
    }
  }

  lemma AddressHasNoBrackets()
    ensures !HasBrackets("address")
  {
    var s := "address";
    assert s[1..] == "ddress" && s[2..] == "dress" && s[3..] == "ress" && s[4..] == "ess";
    assert !HasBrackets("ss") by { assert "ss"[1..] == "s"; }
    assert !HasBrackets("ess") by { assert "ess"[1..] == "ss"; }
    assert !HasBrackets("ress") by { assert "ress"[1..] == "ess"; }
    assert !HasBrackets("dress") by { assert "dress"[1..] == "ress"; }
    assert !HasBrackets("ddress") by { assert "ddress"[1..] == "dress"; }
  }

  /**
   Inserting the destination into a built list is building the list with the destination put
   first, unless there are no fields or the first of only static fields is itself called data.
   */
  lemma DestinationCommutesIff(fields: seq<Field>)
    ensures AddDestinationField(TypeList(fields)) == Ok(TypeList([Field("destination", "address")] + fields)) <==>
            fields != [] && (SomeDynamic(fields) || fields[0].name != "data")
    ensures AddDestinationField(TypeList(fields)).Ok? <==> fields != []
  {
    AnyMeaning(fields);
    DestinationIsNotDynamic(fields);
    var types, with := TypeList(fields), TypeList([DESTINATION_FIELD] + fields);
    if AnyDynamic(fields) {
      assert types[2] == DATA_FIELD;
      assert types[..3] + [DESTINATION_FIELD] + types[3..] == with;
    } else if fields != [] {
      assert types[2] == fields[0];
      if fields[0].name != "data" {
        assert types[..2] + [DESTINATION_FIELD] + types[2..] == with;
      } else {
        assert (types[..3] + [DESTINATION_FIELD] + types[3..])[2] == fields[0];
        assert with[2] == DESTINATION_FIELD;
      }
    }
  }

  /** A static field called data is taken for the calldata slot. */
  lemma DestinationMisplaced()
    ensures AddDestinationField(TypeList([Field("data", "uint256")])) ==
            Ok([Field("from", "address"), Field("nonce", "uint256"), Field("data", "uint256"),
                Field("destination", "address")])
    ensures var fields := [Field("data", "uint256")];
            AddDestinationField(TypeList(fields)) != Ok(TypeList([DESTINATION_FIELD] + fields))
  {
    var fields := [Field("data", "uint256")];
    assert !IsDynamicArrayType("uint256") by { Uint256HasNoBrackets(); }
    var types := TypeList(fields);
    assert types == GENERIC_PARAMS + fields && types[2] == fields[0];
    assert types[..3] == types && types[3..] == [];
    assert types[..3] + [DESTINATION_FIELD] + types[3..] == types + [DESTINATION_FIELD];
    assert types + [DESTINATION_FIELD] == [Field("from", "address"), Field("nonce", "uint256"),
                                           Field("data", "uint256"), Field("destination", "address")];
    DestinationCommutesIff(fields);
  }

  lemma Uint256HasNoBrackets()
    ensures !HasBrackets("uint256")
  {
    var s := "uint256";
    assert s[1..] == "int256" && s[2..] == "nt256" && s[3..] == "t256" && s[4..] == "256";
    assert !HasBrackets("56") by { assert "56"[1..] == "6"; }
    assert !HasBrackets("256") by { assert "256"[1..] == "56"; }
    assert !HasBrackets("t256") by { assert "t256"[1..] == "256"; }
    assert !HasBrackets("nt256") by { assert "nt256"[1..] == "t256"; }
    assert !HasBrackets("int256") by { assert "int256"[1..] == "nt256"; }
  }

  /** The calldata slot is there, and in third place, exactly when some field is dynamic. */
  lemma DataSlotIff(fields: seq<Field>)
    requires !Names(fields, "data")
    ensures Names(TypeList(fields), "data") <==> SomeDynamic(fields)
    ensures SomeDynamic(fields) ==>
              TypeList(fields)[2] == Field("data", "bytes") && TypeList(fields)[3..] == fields
    ensures !SomeDynamic(fields) ==> TypeList(fields)[2..] == fields
    ensures AnyDynamic(fields) <==> SomeDynamic(fields)
  {
    AnyMeaning(fields);
    var types := TypeList(fields);
    if AnyDynamic(fields) {
      assert types[2].name == "data";
    } else {
      assert types[0].name == "from" && types[1].name == "nonce";
      assert forall i :: 2 <= i < |types| ==> types[i] == fields[i - 2];
    }
  }

  // ---- Type strings ----

  function Member(f: Field): string {
    f.typ + " " + f.name
  }

  /** `parts.join(',')` */
  function Join(parts: seq<string>): string {
    if parts == [] then ""
    else if |parts| == 1 then parts[0]
    else parts[0] + "," + Join(parts[1..])
  }

  /** encodeType (EIP-712, "Definition of encodeType"). */
  function EncodeType(name: string, types: seq<Field>): string {
    name + "(" + Join(Map(Member, types)) + ")"
  }

  /** `buildSuffixTypeString`: the members after the generic ones. */
  function SuffixTypeString(types: seq<Field>): string {
    if |types| < |GENERIC_PARAMS| then "" else Join(Map(Member, types[|GENERIC_PARAMS|..]))
  }

  /** The string the contract assembles when the request type is registered. */
  function RegisteredType(name: string, suffix: string): string {
    name + "(" + "address from,uint256 nonce" + "," + suffix + ")"
  }

  lemma {:induction false} JoinAppends(a: seq<string>, b: seq<string>)
    requires a != [] && b != []
    ensures Join(a + b) == Join(a) + "," + Join(b)
  {
    if |a| == 1 {
      assert (a + b)[1..] == b;
    } else {
      JoinAppends(a[1..], b);
      assert (a + b)[1..] == a[1..] + b;
    }
  }

  lemma GenericMembers()
    ensures Join(Map(Member, GENERIC_PARAMS)) == "address from,uint256 nonce"
  {
    var m := Map(Member, GENERIC_PARAMS);
    assert m[0] == "address from" && m[1] == "uint256 nonce";
    assert m[1..] == ["uint256 nonce"];
  }

  /** The registered string is the full type string exactly when there is a suffix to add. */
  lemma RegisteredTypeIsEncodeTypeIff(name: string, rest: seq<Field>)
    ensures RegisteredType(name, SuffixTypeString(GENERIC_PARAMS + rest)) == EncodeType(name, GENERIC_PARAMS + rest)
            <==> rest != []
  {
    var types := GENERIC_PARAMS + rest;
    assert types[|GENERIC_PARAMS|..] == rest;
    GenericMembers();
    MapAppends(Member, GENERIC_PARAMS, rest);
    if rest == [] {
      assert types == GENERIC_PARAMS;
      assert |RegisteredType(name, "")| == |EncodeType(name, types)| + 1;
    } else {
      JoinAppends(Map(Member, GENERIC_PARAMS), Map(Member, rest));
      Reassociate(name + "(", "address from,uint256 nonce", Join(Map(Member, rest)));
    }
  }

  lemma Reassociate(a: string, b: string, c: string)
    ensures a + b + "," + c + ")" == a + (b + "," + c) + ")"
  {
  }

  // ---- Reading a type string back ----

  /** The pieces of `s` between occurrences of `c`. */
  function SplitOn(s: string, c: char): (parts: seq<string>)
    ensures parts != []
  {
    if s == "" then [""]
    else
      var rest := SplitOn(s[1..], c);
      if s[0] == c then [""] + rest else [[s[0]] + rest[0]] + rest[1..]
  }

  lemma {:induction false} SplitFirst(a: string, b: string, c: char)
    requires c !in a
    ensures SplitOn(a + [c] + b, c) == [a] + SplitOn(b, c)
  {
    if a == "" {
      assert (a + [c] + b)[1..] == b;
    } else {
      SplitFirst(a[1..], b, c);
      assert (a + [c] + b)[1..] == a[1..] + [c] + b;
      assert a == [a[0]] + a[1..];
    }
  }

  lemma {:induction false} SplitNone(a: string, c: char)
    requires c !in a
    ensures SplitOn(a, c) == [a]
  {
    if a != "" {
      SplitNone(a[1..], c);
      assert a == [a[0]] + a[1..];
    }
  }

  lemma {:induction false} SplitUndoesJoin(parts: seq<string>)
    requires parts != [] && forall i :: 0 <= i < |parts| ==> ',' !in parts[i]
    ensures SplitOn(Join(parts), ',') == parts
  {
    if |parts| == 1 {
      SplitNone(parts[0], ',');
    } else {
      SplitUndoesJoin(parts[1..]);
      SplitFirst(parts[0], Join(parts[1..]), ',');
      assert Join(parts) == parts[0] + [','] + Join(parts[1..]);
    }
  }

  function ParseMember(s: string): Option<Field> {
    var parts := SplitOn(s, ' ');
    if |parts| == 2 then Some(Field(parts[1], parts[0])) else None
  }

  function ParseMembers(parts: seq<string>): Option<seq<Field>> {
    if parts == [] then Some([])
    else
      var (f, rest) := (ParseMember(parts[0]), ParseMembers(parts[1..]));
      if f.Some? && rest.Some? then Some([f.value] + rest.value) else None
  }

  /** Name and fields of a type string: everything before "(", then the members up to ")". */
  function ParseType(s: string): Option<(string, seq<Field>)> {
    var parts := SplitOn(s, '(');
    if |parts| != 2 || parts[1] == "" || parts[1][|parts[1]| - 1] != ')' then None
    else
      var members := parts[1][..|parts[1]| - 1];
      match ParseMembers(if members == "" then [] else SplitOn(members, ','))
      case None => None
      case Some(fields) => Some((parts[0], fields))
  }

  /** Identifiers and Solidity types hold none of the separators. */
  ghost predicate Plain(s: string) {
    forall c :: c in s ==> c != ' ' && c != ',' && c != '('
  }

  ghost predicate PlainFields(fields: seq<Field>) {
    forall i :: 0 <= i < |fields| ==> Plain(fields[i].name) && Plain(fields[i].typ)
  }

  lemma {:induction false} ParseMembersBack(fields: seq<Field>)
    requires PlainFields(fields)
    ensures ParseMembers(Map(Member, fields)) == Some(fields)
  {
    if fields != [] {
      var parts := Map(Member, fields);
      ParseMembersBack(fields[1..]);
      MapCons(Member, fields);
      ParseMemberBack(fields[0]);
      ParseCons(parts, fields[0], fields[1..]);
      assert fields == [fields[0]] + fields[1..];
    }
  }

  lemma ParseCons(parts: seq<string>, f: Field, rest: seq<Field>)
    requires parts != [] && ParseMember(parts[0]) == Some(f) && ParseMembers(parts[1..]) == Some(rest)
    ensures ParseMembers(parts) == Some([f] + rest)
  {
  }

  lemma ParseMemberBack(f: Field)
    requires Plain(f.name) && Plain(f.typ)
    ensures ParseMember(Member(f)) == Some(f)
  {
    SplitFirst(f.typ, f.name, ' ');
    SplitNone(f.name, ' ');
    assert Member(f) == f.typ + [' '] + f.name;
  }

  lemma {:induction false} JoinIsPlain(parts: seq<string>, c: char)
    requires c != ',' && forall i :: 0 <= i < |parts| ==> c !in parts[i]
    ensures c !in Join(parts)
  {
    if |parts| > 1 { JoinIsPlain(parts[1..], c); }
  }

  /** A type string can be parsed back to its name and field list, so it determines them. */
  lemma TypeStringRoundTrip(name: string, fields: seq<Field>)
    requires Plain(name) && PlainFields(fields)
    ensures ParseType(EncodeType(name, fields)) == Some((name, fields))
  {
    var parts := Map(Member, fields);
    var members := Join(parts);
    forall i | 0 <= i < |parts| ensures '(' !in parts[i] && ',' !in parts[i] && parts[i] != "" {
      assert parts[i] == Member(fields[i]);
    }
    JoinIsPlain(parts, '(');
    var s := EncodeType(name, fields);
    assert s == name + ['('] + (members + ")");
    SplitFirst(name, members + ")", '(');
    SplitNone(members + ")", '(');
    ParseMembersBack(fields);
    if fields != [] {
      SplitUndoesJoin(parts);
      assert |members| >= |parts[0]| > 0;
    }
    assert (members + ")")[..|members|] == members;
  }

  // ---- A list of the repository ----

  const ADD_HISTORY_FIELDS := [Field("tokenIds", "uint256[]"), Field("customHistoryIds", "uint256[]")]

  /** Adding history records has only array arguments, which call for the calldata slot. */
  lemma AddHistoryList()
    ensures TypeList(ADD_HISTORY_FIELDS) ==
            [Field("from", "address"), Field("nonce", "uint256"), Field("data", "bytes"),
             Field("tokenIds", "uint256[]"), Field("customHistoryIds", "uint256[]")]
  {
    ArrayIsDynamic();
    assert IsDynamicArrayType(ADD_HISTORY_FIELDS[0].typ);
  }

  lemma ArrayIsDynamic()
    ensures IsDynamicArrayType("uint256[]")
  {
    var typ := "uint256[]";
    assert typ[7] == '[' && typ[7 + 1] == ']';
    DynamicMeaning(typ);
  }

  /** A type string in full: type, space, name, and commas in between. */
  lemma TypeOfTwo(name: string, f: Field, g: Field)
    ensures EncodeType(name, [f, g]) == name + "(" + (f.typ + " " + f.name + "," + (g.typ + " " + g.name)) + ")"
  {
    var parts := Map(Member, [f, g]);
    assert parts[0] == f.typ + " " + f.name && parts[1] == g.typ + " " + g.name;
    assert parts[1..] == [parts[1]];
    assert Join(parts[1..]) == parts[1];
    assert Join(parts) == parts[0] + "," + parts[1];
  }
}
