/**
 Requests of real types whose signed and submitted sides part, under one simple set of encoders
 that has all the properties asked of encoders.
 */
module SubmissionExamples {
  import opened Wrappers
  import opened Bytes
  import opened TypeLists
  import opened Records
  import opened TypedData
  import opened SignedEqualsSubmitted

  // ---- Simple encoders ----

  /** The first 32 bytes, filled up with zeros. */
  function Pad(b: Bytes): Bytes32 {
    seq(32, i => if 0 <= i < |b| then b[i] else 0)
  }

  function Codes(s: string): (b: Bytes)
    ensures |b| == |s|
  {
    Map((c: char) => (c as int % 256) as byte, s)
  }

  function TextOf(v: JsValue): string {
    match v
    case BigNumber(n) => Decimal(n)
    case Number(i) => if i < 0 then "-" + Decimal(-i) else Decimal(i)
    case Text(s) => s
    case Other(_) => ""
  }

  /** Hashing is padding, so bytes and addresses are read from hex; anything else is taken as it is written. */
  function SimpleWord(typ: string, v: JsValue): Bytes32 {
    if typ == "bytes" || typ == "address" then Pad(FromHex(StripHexPrefix(TextOf(v)))) else Pad(Codes(TextOf(v)))
  }

  /** A BigNumber given where text belongs encodes as the empty text. */
  function SimpleArgument(typ: string, v: JsValue): Bytes {
    if v.BigNumber? && !TakesNumbers(typ) then [] else Codes(TextOf(v))
  }

  /** A length in ones, a zero, and the bytes. */
  function Delimited(a: Bytes): Bytes {
    seq(|a|, i => 1) + [0] + a
  }

  function SimpleArguments(params: seq<string>, vs: seq<JsValue>): Bytes
    requires |params| == |vs|
  {
    if vs == [] then [] else Delimited(SimpleArgument(params[0], vs[0])) + SimpleArguments(params[1..], vs[1..])
  }

  function SimpleCalldata(params: seq<string>, vs: seq<JsValue>): (r: Option<Bytes>)
    ensures r.Some? ==> |vs| == |params| && |r.value| >= 4
  {
    if |vs| == |params| then Some([0, 0, 0, 0] + SimpleArguments(params, vs)) else None
  }

  /** Encoders for a contract whose functions all have these parameters. */
  ghost predicate Simple(c: Codec, params: seq<string>) {
    && (forall b :: c.keccak(b) == Pad(b))
    && (forall typ, v :: c.word(typ, v) == Some(SimpleWord(typ, v)))
    && (forall f :: c.params(f) == params)
    && (forall typ, v :: c.argument(typ, v) == Some(SimpleArgument(typ, v)))
    && (forall f, vs :: c.calldata(f, vs) == SimpleCalldata(params, vs))
  }

  /** There are such encoders, for any parameters. */
  lemma SimpleExists(params: seq<string>)
    ensures Simple(Codec(b => Pad(b), s => Pad([]), (typ, v) => Some(SimpleWord(typ, v)), f => params,
                         (typ, v) => Some(SimpleArgument(typ, v)), (f, vs) => SimpleCalldata(params, vs)), params)
  {
  }

  lemma {:induction false} SameArgumentsSameBytes(params: seq<string>, vs: seq<JsValue>, ws: seq<JsValue>)
    requires |params| == |vs| == |ws|
    requires forall i :: 0 <= i < |vs| ==> SimpleArgument(params[i], vs[i]) == SimpleArgument(params[i], ws[i])
    ensures SimpleArguments(params, vs) == SimpleArguments(params, ws)
  {
    if vs != [] {
      SameArgumentsSameBytes(params[1..], vs[1..], ws[1..]);
      assert SimpleArgument(params[0], vs[0]) == SimpleArgument(params[0], ws[0]);
    }
  }

  lemma OnesThenZero(a: Bytes, x: Bytes)
    ensures forall i :: 0 <= i < |a| ==> (Delimited(a) + x)[i] == 1
    ensures (Delimited(a) + x)[|a|] == 0
  {
  }

  lemma DelimitedSplits(a: Bytes, x: Bytes, b: Bytes, y: Bytes)
    requires Delimited(a) + x == Delimited(b) + y
    ensures a == b && x == y
  {
    var p, q := Delimited(a) + x, Delimited(b) + y;
    OnesThenZero(a, x);
    OnesThenZero(b, y);
    assert !(|a| < |b|) && !(|b| < |a|);
    var n := |a|;
    assert p[n + 1..2 * n + 1] == a && q[n + 1..2 * n + 1] == b;
    assert p[2 * n + 1..] == x && q[2 * n + 1..] == y;
  }

  lemma {:induction false} SameBytesSameArguments(params: seq<string>, vs: seq<JsValue>, ws: seq<JsValue>)
    requires |params| == |vs| == |ws| && SimpleArguments(params, vs) == SimpleArguments(params, ws)
    ensures forall i :: 0 <= i < |vs| ==> SimpleArgument(params[i], vs[i]) == SimpleArgument(params[i], ws[i])
  {
    if vs != [] {
      DelimitedSplits(SimpleArgument(params[0], vs[0]), SimpleArguments(params[1..], vs[1..]),
                      SimpleArgument(params[0], ws[0]), SimpleArguments(params[1..], ws[1..]));
      SameBytesSameArguments(params[1..], vs[1..], ws[1..]);
      forall i | 0 <= i < |vs| ensures SimpleArgument(params[i], vs[i]) == SimpleArgument(params[i], ws[i]) {
        if i > 0 {
          assert vs[i] == vs[1..][i - 1] && ws[i] == ws[1..][i - 1] && params[i] == params[1..][i - 1];
        }
      }
    }
  }

  lemma SimpleIsLawful(c: Codec, params: seq<string>)
    requires Simple(c, params)
    ensures Lawful(c)
  {
    forall b: Bytes ensures c.word("bytes", HexText(b)) == Some(c.keccak(b)) {
      HashedBytes(c, params, b);
    }
    EveryValueEncodes(c, params, "address", ADDRESS_ZERO);
    EveryValueEncodes(c, params, "uint256", DUMMY_NONCE);
    EveryValueEncodes(c, params, "bytes", DUMMY_DATA);
    forall v: JsValue ensures c.word("uint256", Plainly(v)) == c.word("uint256", v) {
      NumberAsText(c, params, v);
    }
    forall f: string, vs: seq<JsValue> | c.calldata(f, vs).Some?
      ensures |vs| == |c.params(f)| && |c.calldata(f, vs).value| >= 4
    {
      CalldataLength(c, params, f, vs);
    }
  }

  lemma SimpleIsAbi(c: Codec, params: seq<string>)
    requires Simple(c, params)
    ensures Abi(c)
  {
    forall f: string, vs: seq<JsValue>, ws: seq<JsValue> | ArgumentsAgree(c, f, vs, ws)
      ensures c.calldata(f, vs) == c.calldata(f, ws)
    {
      ArgumentsFixCalldata(c, params, f, vs, ws);
    }
    forall f: string, vs: seq<JsValue>, ws: seq<JsValue>
      | c.calldata(f, vs).Some? && c.calldata(f, vs) == c.calldata(f, ws)
      ensures ArgumentsAgree(c, f, vs, ws)
      ensures forall i :: 0 <= i < |vs| ==> c.argument(c.params(f)[i], vs[i]).Some?
    {
      CalldataFixesArguments(c, params, f, vs, ws);
    }
    forall typ: string, n: nat
      ensures TakesNumbers(typ) <==> c.argument(typ, BigNumber(n)) == c.argument(typ, Text(Decimal(n)))
    {
      NumberArgument(c, params, typ, n);
    }
  }

  lemma NumberArgument(c: Codec, params: seq<string>, typ: string, n: nat)
    requires Simple(c, params)
    ensures TakesNumbers(typ) <==> c.argument(typ, BigNumber(n)) == c.argument(typ, Text(Decimal(n)))
  {
    ArgumentIs(c, params, typ, BigNumber(n));
    ArgumentIs(c, params, typ, Text(Decimal(n)));
    assert |Codes(Decimal(n))| > 0;
  }

  lemma ArgumentIs(c: Codec, params: seq<string>, typ: string, v: JsValue)
    requires Simple(c, params)
    ensures c.argument(typ, v) == Some(SimpleArgument(typ, v))
  {
  }

  lemma HashedBytes(c: Codec, params: seq<string>, b: Bytes)
    requires Simple(c, params)
    ensures c.word("bytes", HexText(b)) == Some(c.keccak(b))
  {
    HexWord("bytes", b);
    assert c.keccak(b) == Pad(b);
  }

  lemma WordIs(c: Codec, params: seq<string>, typ: string, v: JsValue)
    requires Simple(c, params)
    ensures c.word(typ, v) == Some(SimpleWord(typ, v))
  {
  }

  lemma EveryValueEncodes(c: Codec, params: seq<string>, typ: string, v: JsValue)
    requires Simple(c, params)
    ensures c.word(typ, v).Some?
  {
    WordIs(c, params, typ, v);
  }

  lemma NumberAsText(c: Codec, params: seq<string>, v: JsValue)
    requires Simple(c, params)
    ensures c.word("uint256", Plainly(v)) == c.word("uint256", v)
  {
    assert TextOf(Plainly(v)) == TextOf(v);
    WordIs(c, params, "uint256", v);
    WordIs(c, params, "uint256", Plainly(v));
  }

  lemma CalldataLength(c: Codec, params: seq<string>, f: string, vs: seq<JsValue>)
    requires Simple(c, params) && c.calldata(f, vs).Some?
    ensures |vs| == |c.params(f)| && |c.calldata(f, vs).value| >= 4
  {
    assert c.calldata(f, vs) == SimpleCalldata(params, vs) && c.params(f) == params;
  }

  lemma ArgumentsFixCalldata(c: Codec, params: seq<string>, f: string, vs: seq<JsValue>, ws: seq<JsValue>)
    requires Simple(c, params) && ArgumentsAgree(c, f, vs, ws)
    ensures c.calldata(f, vs) == c.calldata(f, ws)
  {
    assert c.params(f) == params;
    forall i | 0 <= i < |vs| ensures SimpleArgument(params[i], vs[i]) == SimpleArgument(params[i], ws[i]) {
      ArgumentIs(c, params, params[i], vs[i]);
      ArgumentIs(c, params, params[i], ws[i]);
    }
    SameArgumentsSameBytes(params, vs, ws);
    assert c.calldata(f, vs) == SimpleCalldata(params, vs) && c.calldata(f, ws) == SimpleCalldata(params, ws);
  }

  lemma CalldataFixesArguments(c: Codec, params: seq<string>, f: string, vs: seq<JsValue>, ws: seq<JsValue>)
    requires Simple(c, params) && c.calldata(f, vs).Some? && c.calldata(f, vs) == c.calldata(f, ws)
    ensures ArgumentsAgree(c, f, vs, ws)
    ensures forall i :: 0 <= i < |vs| ==> c.argument(c.params(f)[i], vs[i]).Some?
  {
    assert c.params(f) == params;
    assert c.calldata(f, vs) == SimpleCalldata(params, vs) && c.calldata(f, ws) == SimpleCalldata(params, ws);
    assert ([0, 0, 0, 0] + SimpleArguments(params, vs))[4..] == SimpleArguments(params, vs);
    assert ([0, 0, 0, 0] + SimpleArguments(params, ws))[4..] == SimpleArguments(params, ws);
    SameBytesSameArguments(params, vs, ws);
    forall i | 0 <= i < |vs| ensures c.argument(params[i], vs[i]) == c.argument(params[i], ws[i]) != None {
      ArgumentIs(c, params, params[i], vs[i]);
      ArgumentIs(c, params, params[i], ws[i]);
    }
  }

  lemma HexWord(typ: string, b: Bytes)
    requires typ == "bytes" || typ == "address"
    ensures SimpleWord(typ, HexText(b)) == Pad(b)
  {
    StripUndoesPrefix(ToHex(b));
    HexRoundTrip(b);
  }

  lemma {:induction false} SimpleWordsExist(c: Codec, params: seq<string>, types: seq<Field>, m: Record)
    requires Simple(c, params) && forall i :: 0 <= i < |types| ==> Lookup(m, types[i].name).Some?
    ensures Words(c, types, m).Some?
  {
    if types != [] {
      assert Lookup(m, types[0].name).Some?;
      assert FieldWord(c, types[0], m).Some?;
      SimpleWordsExist(c, params, types[1..], m);
    }
  }

  // ---- Requests that can be signed ----

  /** The request has a value for every field. */
  ghost predicate Fills(data: Record, fields: seq<Field>) {
    forall i :: 0 <= i < |fields| ==> HasValue(data, fields[i].name)
  }

  ghost predicate HasValue(data: Record, name: string) {
    exists j :: 0 <= j < |data| && StripUnderscore(data[j].0) == name
  }

  lemma SimplySignable(c: Codec, params: seq<string>, q: RequestType, fields: seq<Field>, from: string,
                       nonce: JsValue, data: Record)
    requires Simple(c, params) && FromSchema(q, fields) && DistinctStripped(data) && Fills(data, fields)
    requires AnyDynamic(fields) ==> |Arguments(TypedParams(data))| == |params|
    ensures Signable(c, q, fields, from, nonce, data)
  {
    SimpleIsLawful(c, params);
    MessageExists(c, params, q, fields, from, nonce, data);
    MessageEncodes(c, params, q, fields, from, nonce, data);
    EveryValueEncodes(c, params, "address", Text(from));
    EveryValueEncodes(c, params, "uint256", nonce);
  }

  lemma MessageEncodes(c: Codec, params: seq<string>, q: RequestType, fields: seq<Field>, from: string,
                       nonce: JsValue, data: Record)
    requires Simple(c, params) && FromSchema(q, fields) && DistinctStripped(data) && Fills(data, fields)
    requires Message(c, q, from, nonce, data).Some?
    ensures SignedBytes(c, q, from, nonce, data).Some?
  {
    var m := Message(c, q, from, nonce, data).value;
    forall i | 0 <= i < |q.types| ensures Lookup(m, q.types[i].name).Some? {
      FieldIsThere(c, q, fields, from, nonce, data, i);
    }
    SimpleWordsExist(c, params, q.types, m);
  }

  lemma MessageExists(c: Codec, params: seq<string>, q: RequestType, fields: seq<Field>, from: string,
                      nonce: JsValue, data: Record)
    requires Simple(c, params) && FromSchema(q, fields)
    requires AnyDynamic(fields) ==> |Arguments(TypedParams(data))| == |params|
    ensures Message(c, q, from, nonce, data).Some?
  {
    DataSlotIff(fields);
    assert c.calldata(q.functionSignature, Arguments(TypedParams(data))) ==
           SimpleCalldata(params, Arguments(TypedParams(data)));
  }

  lemma FieldIsThere(c: Codec, q: RequestType, fields: seq<Field>, from: string, nonce: JsValue, data: Record, i: nat)
    requires FromSchema(q, fields) && DistinctStripped(data) && Message(c, q, from, nonce, data).Some?
    requires Fills(data, fields) && i < |q.types|
    ensures Lookup(Message(c, q, from, nonce, data).value, q.types[i].name).Some?
  {
    var name, start := q.types[i].name, |q.types| - |fields|;
    DataSlotIff(fields);
    if i >= start {
      assert q.types[i] == fields[i - start];
      assert HasValue(data, fields[i - start].name);
      var j :| 0 <= j < |data| && StripUnderscore(data[j].0) == fields[i - start].name;
      EntryInMessage(c, q, from, nonce, data, j);
    } else if i < 2 {
      assert name == GENERIC_PARAMS[i].name;
      MessageLookups(c, q, from, nonce, data, name);
      GenericLookup(name, Text(from), Plainly(nonce));
    } else {
      CalldataInMessage(c, q, from, nonce, data);
    }
  }

  // ---- The three ways to part ----

  const TOKEN_ID := Field("tokenId", "uint256")
  const METADATA_CID := Field("metadataCID", "string")

  lemma CancelSchema(q: RequestType)
    requires q.types == TypeList([TOKEN_ID])
    ensures FromSchema(q, [TOKEN_ID]) && !AnyDynamic([TOKEN_ID])
  {
    Uint256HasNoBrackets();
  }

  /** The values of a request about one token, with another wallet's address as `_from`. */
  function CancelValues(tokenId: nat, other: Bytes): Record {
    [("tokenId", BigNumber(tokenId)), ("_from", HexText(other))]
  }

  lemma CancelKeys(tokenId: nat, other: Bytes)
    ensures var data := CancelValues(tokenId, other);
            && StripUnderscore(data[0].0) == "tokenId" && StripUnderscore(data[1].0) == "from"
            && DistinctStripped(data) && Fills(data, [TOKEN_ID])
  {
    var data := CancelValues(tokenId, other);
    assert "_from"[1..] == "from";
    assert StripUnderscore(data[0].0) == [TOKEN_ID][0].name;
    assert HasValue(data, TOKEN_ID.name);
  }

  /**
   A request about one token, such as cancelling its commitment, with another address as
   `_from` among its values: the other address is signed, the real one submitted.
   */
  lemma OverriddenFrom(c: Codec, params: seq<string>, q: RequestType, tokenId: nat, nonce: JsValue, from: Bytes,
                       other: Bytes)
    requires Simple(c, params) && q.types == TypeList([TOKEN_ID]) && |from| == |other| == 20 && from != other
    ensures var data := CancelValues(tokenId, other);
            && Signable(c, q, [TOKEN_ID], "0x" + ToHex(from), nonce, data)
            && Submission(c, q, "0x" + ToHex(from), nonce, data).Some?
            && !Agrees(c, q, "0x" + ToHex(from), nonce, data)
  {
    var data, sender := CancelValues(tokenId, other), "0x" + ToHex(from);
    CancelSchema(q);
    CancelKeys(tokenId, other);
    SimplySignable(c, params, q, [TOKEN_ID], sender, nonce, data);
    SubmissionExistsIff(c, q, [TOKEN_ID], sender, nonce, data);
    AddressWord(c, params, from);
    AddressWord(c, params, other);
    PadInjective(from, other);
    OverriddenFromIsNotSubmitted(c, q, [TOKEN_ID], sender, nonce, data, 1);
  }

  lemma AddressWord(c: Codec, params: seq<string>, a: Bytes)
    requires Simple(c, params)
    ensures c.word("address", HexText(a)) == Some(Pad(a))
  {
    HexWord("address", a);
    WordIs(c, params, "address", HexText(a));
  }

  lemma PadInjective(a: Bytes, b: Bytes)
    requires |a| == |b| <= 32 && a != b
    ensures Pad(a) != Pad(b)
  {
    var i :| 0 <= i < |a| && a[i] != b[i];
    assert Pad(a)[i] == a[i] && Pad(b)[i] == b[i];
  }

  const UPDATE_FIELDS := [DESTINATION_FIELD, TOKEN_ID, METADATA_CID]

  lemma UpdateNames(i: nat)
    requires i < 3
    ensures UPDATE_FIELDS[i].name !in ["from", "nonce", "data"]
  {
    var name := UPDATE_FIELDS[i].name;
    assert |name| == (if i == 0 then 11 else if i == 1 then 7 else 11);
  }

  lemma UpdateSchema(q: RequestType)
    requires q.types == TypeList(UPDATE_FIELDS)
    ensures FromSchema(q, UPDATE_FIELDS) && AnyDynamic(UPDATE_FIELDS)
  {
    assert UPDATE_FIELDS[2] == METADATA_CID;
    DynamicText(UPDATE_FIELDS, 2);
    forall i: nat | i < 3 ensures UPDATE_FIELDS[i].name !in ["from", "nonce", "data"] {
      UpdateNames(i);
    }
    NoGenericNames(UPDATE_FIELDS);
  }

  lemma DynamicText(fields: seq<Field>, i: nat)
    requires i < |fields| && fields[i].typ == "string"
    ensures AnyDynamic(fields)
  {
    assert IsDynamicArrayType(fields[i].typ);
  }

  lemma NoGenericNames(fields: seq<Field>)
    requires forall i: nat :: i < |fields| ==> fields[i].name !in ["from", "nonce", "data"]
    ensures !Names(fields, "from") && !Names(fields, "nonce") && !Names(fields, "data")
  {
    forall i | 0 <= i < |fields|
      ensures fields[i].name != "from" && fields[i].name != "nonce" && fields[i].name != "data"
    {
      assert "from" in ["from", "nonce", "data"] && "nonce" in ["from", "nonce", "data"];
      assert "data" in ["from", "nonce", "data"];
    }
  }

  /** The values of a collection's metadata update, the collection under the key given. */
  function UpdateValues(key: string, collection: JsValue, tokenId: nat, cid: JsValue): Record {
    [(key, collection), ("tokenId", BigNumber(tokenId)), ("metadataCID", cid)]
  }

  lemma UpdateKeys(key: string, collection: JsValue, tokenId: nat, cid: JsValue)
    requires key == "destination" || key == "_destination"
    ensures var data := UpdateValues(key, collection, tokenId, cid);
            && StripUnderscore(data[0].0) == "destination" && StripUnderscore(data[1].0) == "tokenId"
            && StripUnderscore(data[2].0) == "metadataCID"
            && DistinctStripped(data) && Fills(data, UPDATE_FIELDS)
  {
    StripUpdateKeys(key);
    ThreeKeys(UpdateValues(key, collection, tokenId, cid), UPDATE_FIELDS);
  }

  lemma StripUpdateKeys(key: string)
    requires key == "destination" || key == "_destination"
    ensures StripUnderscore(key) == DESTINATION_FIELD.name && StripUnderscore("tokenId") == TOKEN_ID.name
    ensures StripUnderscore("metadataCID") == METADATA_CID.name
    ensures DESTINATION_FIELD.name[0] == 'd' && TOKEN_ID.name[0] == 't' && METADATA_CID.name[0] == 'm'
  {
    assert "_destination"[1..] == "destination";
  }

  lemma ThreeKeys(data: Record, fields: seq<Field>)
    requires |data| == |fields| == 3 && forall i :: 0 <= i < 3 ==> StripUnderscore(data[i].0) == fields[i].name
    requires forall i, j :: 0 <= i < j < 3 ==> fields[i].name != fields[j].name
    ensures DistinctStripped(data) && Fills(data, fields)
  {
    forall i | 0 <= i < 3 ensures HasValue(data, fields[i].name) {
      assert StripUnderscore(data[i].0) == fields[i].name;
    }
  }

  lemma UpdateArguments(key: string, collection: JsValue, tokenId: nat, cid: JsValue)
    requires key == "destination" || key == "_destination"
    ensures var data := UpdateValues(key, collection, tokenId, cid);
            && Arguments(TypedParams(data)) == [Text(Decimal(tokenId)), Plainly(cid)]
            && (key == "destination" ==> Arguments(data) == [BigNumber(tokenId), cid])
  {
    var data := UpdateValues(key, collection, tokenId, cid);
    UpdateKeys(key, collection, tokenId, cid);
    TypedParamsIsMap(data);
    var m := [("destination", Plainly(collection)), ("tokenId", Text(Decimal(tokenId))), ("metadataCID", Plainly(cid))];
    assert TypedParams(data) == m;
    WithoutDestination(Plainly(collection), Text(Decimal(tokenId)), Plainly(cid));
    WithoutDestination(collection, BigNumber(tokenId), cid);
  }

  lemma WithoutDestination(collection: JsValue, id: JsValue, cid: JsValue)
    ensures Arguments([("destination", collection), ("tokenId", id), ("metadataCID", cid)]) == [id, cid]
  {
    var r: Record := [("destination", collection), ("tokenId", id), ("metadataCID", cid)];
    var rest: Record := [("tokenId", id), ("metadataCID", cid)];
    assert r[1..] == rest;
    OmitAbsent(rest, "destination");
    assert Omit(r, "destination") == rest;
    ValuesMeaning(rest);
  }

  /** The two parameters of a metadata update. */
  ghost predicate UpdateParams(params: seq<string>) {
    |params| == 2 && TakesNumbers(params[0]) && !TakesNumbers(params[1])
  }

  /** The real ones are such. */
  lemma UpdateParamsExist()
    ensures UpdateParams(["uint256", "string"])
  {
    assert "string"[0] == 's' && "uint"[0] == 'u' && "int"[0] == 'i' && "bool"[0] == 'b';
  }

  lemma UpdateIsSignable(c: Codec, params: seq<string>, q: RequestType, key: string, collection: JsValue,
                         tokenId: nat, cid: JsValue, from: string, nonce: JsValue)
    requires Simple(c, params) && UpdateParams(params) && q.types == TypeList(UPDATE_FIELDS)
    requires key == "destination" || key == "_destination"
    ensures Signable(c, q, UPDATE_FIELDS, from, nonce, UpdateValues(key, collection, tokenId, cid))
  {
    UpdateSchema(q);
    UpdateKeys(key, collection, tokenId, cid);
    UpdateArguments(key, collection, tokenId, cid);
    SimplySignable(c, params, q, UPDATE_FIELDS, from, nonce, UpdateValues(key, collection, tokenId, cid));
  }

  /** Updating metadata with the collection under `_destination`: it can be signed but not submitted. */
  lemma UnderscoredDestination(c: Codec, params: seq<string>, q: RequestType, collection: JsValue, tokenId: nat,
                               cid: JsValue, from: string, nonce: JsValue)
    requires Simple(c, params) && UpdateParams(params) && q.types == TypeList(UPDATE_FIELDS)
    ensures var data := UpdateValues("_destination", collection, tokenId, cid);
            Signable(c, q, UPDATE_FIELDS, from, nonce, data) && Submission(c, q, from, nonce, data) == None
  {
    var data := UpdateValues("_destination", collection, tokenId, cid);
    UpdateSchema(q);
    UpdateIsSignable(c, params, q, "_destination", collection, tokenId, cid, from, nonce);
    assert data[0].0 == "_destination";
    UnderscoredDestinationIsNotSubmitted(c, q, UPDATE_FIELDS, from, nonce, data);
  }

  /** A BigNumber for the metadata id: the signed calldata holds its digits, the submitted one no text at all. */
  lemma NumberForText(c: Codec, params: seq<string>, q: RequestType, collection: JsValue, from: string, nonce: JsValue)
    requires Simple(c, params) && UpdateParams(params) && q.types == TypeList(UPDATE_FIELDS)
    ensures var data := UpdateValues("destination", collection, 7, BigNumber(5));
            && Signable(c, q, UPDATE_FIELDS, from, nonce, data)
            && Submission(c, q, from, nonce, data).Some? && !Agrees(c, q, from, nonce, data)
  {
    var data := UpdateValues("destination", collection, 7, BigNumber(5));
    UpdateSchema(q);
    UpdateIsSignable(c, params, q, "destination", collection, 7, BigNumber(5), from, nonce);
    UpdateArguments("destination", collection, 7, BigNumber(5));
    RawAndConvertedDiffer(c, params, q.functionSignature);
    SubmissionExistsIff(c, q, UPDATE_FIELDS, from, nonce, data);
    AgreesWordByWord(c, q, UPDATE_FIELDS, from, nonce, data);
  }

  lemma RawAndConvertedDiffer(c: Codec, params: seq<string>, f: string)
    requires Simple(c, params) && UpdateParams(params)
    ensures var (raw, typed) := (c.calldata(f, [BigNumber(7), BigNumber(5)]), c.calldata(f, [Text("7"), Text("5")]));
            raw.Some? && typed.Some? && c.keccak(raw.value) != c.keccak(typed.value)
    ensures Text(Decimal(7)) == Text("7") && Plainly(BigNumber(5)) == Text("5")
  {
    TwoArguments(params, BigNumber(7), BigNumber(5));
    TwoArguments(params, Text("7"), Text("5"));
    OneDigit("7");
    OneDigit("5");
    var raw, typed := [0, 0, 0, 0] + ([1, 0, 55] + [0]), [0, 0, 0, 0] + ([1, 0, 55] + [1, 0, 53]);
    assert Delimited([]) == [0];
    assert |raw| == 8 && |typed| == 10 && raw[7] == 0 && typed[7] == 1;
    assert Pad(raw)[7] == 0 && Pad(typed)[7] == 1;
  }

  lemma OneDigit(s: string)
    requires |s| == 1
    ensures Delimited(Codes(s)) == [1, 0, s[0] as int % 256]
  {
  }

  lemma TwoArguments(params: seq<string>, v: JsValue, w: JsValue)
    requires |params| == 2
    ensures SimpleCalldata(params, [v, w]) ==
            Some([0, 0, 0, 0] + (Delimited(SimpleArgument(params[0], v)) + Delimited(SimpleArgument(params[1], w))))
  {
    var vs := [v, w];
    assert vs[1..] == [w] && vs[1..][1..] == [] && params[1..] == [params[1]];
    assert SimpleArguments(params[1..], vs[1..]) == Delimited(SimpleArgument(params[1], w));
  }

  /** The ordinary update, token id as a BigNumber and metadata id as text, comes back as signed. */
  lemma OrdinaryUpdate(c: Codec, params: seq<string>, q: RequestType, collection: JsValue, tokenId: nat, cid: string,
                       from: string, nonce: JsValue)
    requires Simple(c, params) && UpdateParams(params) && q.types == TypeList(UPDATE_FIELDS)
    ensures var data := UpdateValues("destination", collection, tokenId, Text(cid));
            Signable(c, q, UPDATE_FIELDS, from, nonce, data) && Agrees(c, q, from, nonce, data)
  {
    var data := UpdateValues("destination", collection, tokenId, Text(cid));
    UpdateIsSignable(c, params, q, "destination", collection, tokenId, Text(cid), from, nonce);
    UpdateArguments("destination", collection, tokenId, Text(cid));
    NoStrayKeys(collection, tokenId, Text(cid));
    NumberFirst(c, params, q.functionSignature, BigNumber(tokenId), Text(cid));
    SimpleIsAbi(c, params);
    PlainRequestAgrees(c, q, UPDATE_FIELDS, from, nonce, data);
  }

  lemma NumberFirst(c: Codec, params: seq<string>, f: string, v: JsValue, w: JsValue)
    requires Simple(c, params) && UpdateParams(params) && !w.BigNumber?
    ensures NumbersPlaced(c, f, [v, w])
  {
    assert c.params(f) == params;
    assert NumberAt(c, f, 0);
  }

  ghost predicate NoStray(data: Record) {
    forall i :: 0 <= i < |data| ==> data[i].0 != "_destination" && StripUnderscore(data[i].0) !in {"from", "nonce"}
  }

  lemma NoStrayKeys(collection: JsValue, tokenId: nat, cid: JsValue)
    ensures NoStray(UpdateValues("destination", collection, tokenId, cid))
  {
    var data := UpdateValues("destination", collection, tokenId, cid);
    UpdateKeys("destination", collection, tokenId, cid);
    forall i | 0 <= i < |data|
      ensures data[i].0 != "_destination" && StripUnderscore(data[i].0) !in {"from", "nonce"}
    {
      UpdateNames(i);
      assert data[i].0[0] != '_';
    }
  }
}
