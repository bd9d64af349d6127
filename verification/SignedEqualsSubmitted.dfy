/** The bytes a user signs and the bytes the contract reassembles from the submission agree. */
module SignedEqualsSubmitted {
  import opened Wrappers
  import opened Bytes
  import opened TypeLists
  import opened Records
  import opened TypedData

  /** A type list built from fields that do not reuse a generic name. */
  ghost predicate FromSchema(q: RequestType, fields: seq<Field>) {
    q.types == TypeList(fields) && !Names(fields, "from") && !Names(fields, "nonce") && !Names(fields, "data")
  }

  // ---- Words of a built type list ----

  function Cat(a: Option<Bytes>, b: Option<Bytes>): Option<Bytes> {
    if a.Some? && b.Some? then Some(a.value + b.value) else None
  }

  lemma WordsCons(c: Codec, types: seq<Field>, m: Record)
    requires types != []
    ensures Words(c, types, m) == Cat(FieldWord(c, types[0], m), Words(c, types[1..], m))
  {
  }

  lemma CatAssociates(a: Option<Bytes>, b: Option<Bytes>, d: Option<Bytes>)
    ensures Cat(a, Cat(b, d)) == Cat(Cat(a, b), d)
    ensures Cat(Some([]), d) == d
  {
    if a.Some? && b.Some? && d.Some? {
      assert a.value + (b.value + d.value) == a.value + b.value + d.value;
    }
    if d.Some? { assert [] + d.value == d.value; }
  }

  lemma {:induction false} WordsAppend(c: Codec, a: seq<Field>, b: seq<Field>, m: Record)
    ensures Words(c, a + b, m) == Cat(Words(c, a, m), Words(c, b, m))
  {
    if a == [] {
      assert a + b == b;
      CatAssociates(None, None, Words(c, b, m));
    } else {
      assert (a + b)[0] == a[0] && (a + b)[1..] == a[1..] + b;
      WordsAppend(c, a[1..], b, m);
      WordsCons(c, a, m);
      WordsCons(c, a + b, m);
      CatAssociates(FieldWord(c, a[0], m), Words(c, a[1..], m), Words(c, b, m));
    }
  }

  /** The words stand in the order of the fields, each its field's value encoded at its field's type. */
  lemma {:induction false} WordAt(c: Codec, types: seq<Field>, m: Record, i: nat)
    requires i < |types| && Words(c, types, m).Some?
    ensures Lookup(m, types[i].name).Some?
    ensures Some(Words(c, types, m).value[32 * i..32 * i + 32]) == c.word(types[i].typ, Lookup(m, types[i].name).value)
  {
    var w := Words(c, types, m).value;
    var rest := Words(c, types[1..], m).value;
    assert w == FieldWord(c, types[0], m).value + rest;
    if i > 0 {
      WordAt(c, types[1..], m, i - 1);
      assert w[32 * i..32 * i + 32] == rest[32 * (i - 1)..32 * (i - 1) + 32];
    } else {
      assert w[0..32] == FieldWord(c, types[0], m).value;
    }
  }

  lemma OneWord(c: Codec, f: Field, m: Record)
    ensures Words(c, [f], m) == FieldWord(c, f, m)
  {
    if w: Bytes32 :| FieldWord(c, f, m) == Some(w) {
      assert [f][1..] == [] && w + [] == w;
    }
  }

  function GenericWords(c: Codec, m: Record): Option<Bytes> {
    Cat(FieldWord(c, GENERIC_PARAMS[0], m), FieldWord(c, GENERIC_PARAMS[1], m))
  }

  function DataWord(c: Codec, fields: seq<Field>, m: Record): Option<Bytes> {
    if AnyDynamic(fields) then FieldWord(c, DATA_FIELD, m) else Some([])
  }

  /** From, nonce, the optional calldata hash, then the request's own fields. */
  lemma TypeListWords(c: Codec, fields: seq<Field>, m: Record)
    ensures Words(c, TypeList(fields), m) == Cat(Cat(GenericWords(c, m), DataWord(c, fields, m)), Words(c, fields, m))
  {
    var slot := if AnyDynamic(fields) then [DATA_FIELD] else [];
    WordsAppend(c, GENERIC_PARAMS + slot, fields, m);
    WordsAppend(c, GENERIC_PARAMS, slot, m);
    assert GENERIC_PARAMS == [GENERIC_PARAMS[0]] + [GENERIC_PARAMS[1]];
    WordsAppend(c, [GENERIC_PARAMS[0]], [GENERIC_PARAMS[1]], m);
    OneWord(c, GENERIC_PARAMS[0], m);
    OneWord(c, GENERIC_PARAMS[1], m);
    OneWord(c, DATA_FIELD, m);
  }

  lemma {:induction false} WordsAgree(c: Codec, fields: seq<Field>, m: Record, m': Record)
    requires forall i :: 0 <= i < |fields| ==> Lookup(m, fields[i].name) == Lookup(m', fields[i].name)
    ensures Words(c, fields, m) == Words(c, fields, m')
  {
    if fields != [] { WordsAgree(c, fields[1..], m, m'); }
  }

  // ---- The two messages ----

  /** Looking up the signed message and the dummy one: only the overridden slots differ. */
  lemma MessageLookups(c: Codec, q: RequestType, from: string, nonce: JsValue, data: Record, k: string)
    requires DistinctStripped(data) && Message(c, q, from, nonce, data).Some?
    ensures var (m, signed, dummy) := (TypedParams(data), Message(c, q, from, nonce, data).value, DummyProps(q, data));
            && (k == "data" && q.RequiresDataField() ==>
                  Lookup(signed, k) == Some(HexText(ContractCalldata(c, q.functionSignature, m).value))
                  && Lookup(dummy, k) == Some(DUMMY_DATA))
            && (k != "data" && Lookup(m, k).Some? ==> Lookup(signed, k) == Lookup(m, k) == Lookup(dummy, k))
            && (k != "data" && Lookup(m, k) == None ==>
                  Lookup(signed, k) == Lookup([("from", Text(from)), ("nonce", Plainly(nonce))], k)
                  && Lookup(dummy, k) == Lookup([("from", ADDRESS_ZERO), ("nonce", DUMMY_NONCE)], k))
  {
    var m := TypedParams(data);
    TypedParamsIsMap(data);
    var generic := [("from", Text(from)), ("nonce", Plainly(nonce))];
    var dummies := [("from", ADDRESS_ZERO), ("nonce", DUMMY_NONCE)];
    LookupSpread(dummies, m, k);
    if q.RequiresDataField() {
      var calldata := HexText(ContractCalldata(c, q.functionSignature, m).value);
      LookupPut(m, "data", calldata, k);
      PutKeepsDistinct(m, "data", calldata);
      LookupSpread(generic, Put(m, "data", calldata), k);
      LookupPut(Spread(dummies, m), "data", DUMMY_DATA, k);
    } else {
      LookupSpread(generic, m, k);
    }
  }

  lemma {:induction false} PutKeepsDistinct(r: Record, key: string, v: JsValue)
    requires DistinctKeys(r)
    ensures DistinctKeys(Put(r, key, v))
    ensures forall i :: 0 <= i < |Put(r, key, v)| ==>
              Put(r, key, v)[i].0 == key || exists j :: 0 <= j < |r| && r[j].0 == Put(r, key, v)[i].0
  {
    if r != [] && r[0].0 != key {
      PutKeepsDistinct(r[1..], key, v);
    }
  }

  lemma GenericLookup(k: string, a: JsValue, b: JsValue)
    ensures Lookup([("from", a), ("nonce", b)], k) ==
            if k == "from" then Some(a) else if k == "nonce" then Some(b) else None
  {
    var r: Record := [("from", a), ("nonce", b)];
    var tail: Record := [("nonce", b)];
    assert r[1..] == tail && tail[1..] == [];
    assert Lookup(tail[1..], k) == None;
    assert Lookup(tail, k) == if k == "nonce" then Some(b) else None;
  }

  /** Both messages give the request's own fields the same words. */
  lemma FieldWordsAgree(c: Codec, q: RequestType, fields: seq<Field>, from: string, nonce: JsValue, data: Record)
    requires FromSchema(q, fields) && DistinctStripped(data) && Message(c, q, from, nonce, data).Some?
    ensures Words(c, fields, Message(c, q, from, nonce, data).value) == Words(c, fields, DummyProps(q, data))
  {
    var signed, dummy := Message(c, q, from, nonce, data).value, DummyProps(q, data);
    forall i | 0 <= i < |fields| ensures Lookup(signed, fields[i].name) == Lookup(dummy, fields[i].name) {
      assert fields[i].name != "from" && fields[i].name != "nonce" && fields[i].name != "data";
      MessageLookups(c, q, from, nonce, data, fields[i].name);
      GenericLookup(fields[i].name, Text(from), Plainly(nonce));
      GenericLookup(fields[i].name, ADDRESS_ZERO, DUMMY_NONCE);
    }
    WordsAgree(c, fields, signed, dummy);
  }

  // ---- Slicing ----

  lemma {:induction false} HexDrop(b: Bytes, k: nat)
    requires k <= |b|
    ensures ToHex(b)[2 * k..] == ToHex(b[k..])
  {
    if k > 0 {
      HexDrop(b[1..], k - 1);
      assert ToHex(b)[2 * k..] == ToHex(b[1..])[2 * (k - 1)..];
      assert b[1..][k - 1..] == b[k..];
    } else {
      assert b[0..] == b;
    }
  }

  /** Dropping `k` bytes worth of digits after the prefix leaves the hex of the rest. */
  lemma DropLeavesSuffix(head: Bytes, tail: Bytes, skip: nat)
    requires skip == 2 + 2 * |head|
    ensures Substring("0x" + ToHex(head + tail), skip) == ToHex(tail)
    ensures FromHex(StripHexPrefix("0x" + ToHex(tail))) == tail
  {
    var b := head + tail;
    HexDrop(b, |head|);
    assert b[|head|..] == tail;
    assert ("0x" + ToHex(b))[skip..] == ToHex(b)[2 * |head|..];
    StripUndoesPrefix(ToHex(tail));
    HexRoundTrip(tail);
  }

  /** What is cut off: type hash, generic words and the calldata word, as many digits as are skipped. */
  ghost function SkippedWords(c: Codec, q: RequestType, fields: seq<Field>, m: Record): Bytes
    requires GenericWords(c, m).Some? && DataWord(c, fields, m).Some?
  {
    c.keccakUtf8(EncodeType(q.name, q.types)) + GenericWords(c, m).value + DataWord(c, fields, m).value
  }

  lemma SkippedLength(c: Codec, q: RequestType, fields: seq<Field>, m: Record)
    requires FromSchema(q, fields) && GenericWords(c, m).Some? && DataWord(c, fields, m).Some?
    ensures 2 + 2 * |SkippedWords(c, q, fields, m)| == if q.RequiresDataField() then 194 + 64 else 194
  {
    DataSlotIff(fields);
  }

  lemma SplitEncoding(c: Codec, q: RequestType, fields: seq<Field>, m: Record)
    requires FromSchema(q, fields) && GenericWords(c, m).Some? && DataWord(c, fields, m).Some?
    requires Words(c, fields, m).Some?
    ensures EncodeData(c, q.name, q.types, m) == Some(SkippedWords(c, q, fields, m) + Words(c, fields, m).value)
  {
    var (th, g, d, w) := (c.keccakUtf8(EncodeType(q.name, q.types)), GenericWords(c, m).value,
                          DataWord(c, fields, m).value, Words(c, fields, m).value);
    TypeListWords(c, fields, m);
    AppendAssociates(th, g + d, w);
    AppendAssociates(th, g, d);
  }

  /** The submitted suffix is the words of the request's own fields, whatever the dummies. */
  lemma SuffixMeaning(c: Codec, q: RequestType, fields: seq<Field>, data: Record)
    requires FromSchema(q, fields)
    requires GenericWords(c, DummyProps(q, data)).Some? && DataWord(c, fields, DummyProps(q, data)).Some?
    requires Words(c, fields, DummyProps(q, data)).Some?
    ensures SuffixData(c, q, data).Some?
    ensures FromHex(StripHexPrefix(SuffixData(c, q, data).value)) == Words(c, fields, DummyProps(q, data)).value
    ensures SuffixData(c, q, data).value == "0x" + ToHex(Words(c, fields, DummyProps(q, data)).value)
  {
    var dummy := DummyProps(q, data);
    var skip := if q.RequiresDataField() then 194 + 64 else 194;
    SplitEncoding(c, q, fields, dummy);
    SkippedLength(c, q, fields, dummy);
    DropLeavesSuffix(SkippedWords(c, q, fields, dummy), Words(c, fields, dummy).value, skip);
  }

  // ---- The calldata ----

  /** Converting the BigNumbers among the arguments makes no difference to the calldata. */
  ghost predicate ConvertsAlike(c: Codec, f: string, vs: seq<JsValue>) {
    c.calldata(f, vs) == c.calldata(f, Map(Plainly, vs))
  }

  /** Parameter `i` takes numbers. */
  ghost predicate NumberAt(c: Codec, f: string, i: int) {
    0 <= i < |c.params(f)| && TakesNumbers(c.params(f)[i])
  }

  /** BigNumbers stand at parameters that take numbers only. */
  ghost predicate NumbersPlaced(c: Codec, f: string, vs: seq<JsValue>) {
    forall i :: 0 <= i < |vs| && vs[i].BigNumber? ==> NumberAt(c, f, i)
  }

  lemma PlacedNumbersConvertAlike(c: Codec, f: string, vs: seq<JsValue>)
    requires Lawful(c) && ByArgument(c) && NumbersTaken(c) && NumbersPlaced(c, f, vs)
    ensures ConvertsAlike(c, f, vs)
  {
    var ws := Map(Plainly, vs);
    if |vs| == |c.params(f)| {
      forall i | 0 <= i < |vs| ensures c.argument(c.params(f)[i], vs[i]) == c.argument(c.params(f)[i], ws[i]) {
        assert vs[i].BigNumber? ==> NumberAt(c, f, i);
      }
      assert ArgumentsAgree(c, f, vs, ws);
    }
  }

  /** Converting makes no difference exactly when every BigNumber stands where numbers are taken. */
  lemma ConvertsAlikeIff(c: Codec, f: string, vs: seq<JsValue>)
    requires Lawful(c) && Abi(c) && c.calldata(f, Map(Plainly, vs)).Some?
    ensures ConvertsAlike(c, f, vs) <==> NumbersPlaced(c, f, vs)
  {
    var ws := Map(Plainly, vs);
    if NumbersPlaced(c, f, vs) {
      PlacedNumbersConvertAlike(c, f, vs);
    }
    if ConvertsAlike(c, f, vs) {
      assert ArgumentsAgree(c, f, ws, vs);
      forall i | 0 <= i < |vs| && vs[i].BigNumber? ensures NumberAt(c, f, i) {
        assert c.argument(c.params(f)[i], ws[i]).Some? && ws[i] == Text(Decimal(vs[i].n));
      }
    }
  }

  /**
   The relayer encodes the raw request: the same calldata exactly when it holds no
   `_destination` and converting its arguments makes no difference.
   */
  lemma CalldataAgreesIff(c: Codec, signature: string, data: Record)
    requires Lawful(c) && DistinctStripped(data)
    requires ContractCalldata(c, signature, TypedParams(data)).Some?
    ensures ContractCalldata(c, signature, data) == ContractCalldata(c, signature, TypedParams(data)) <==>
            !HasKey(data, "_destination") && ConvertsAlike(c, signature, Arguments(data))
    ensures HasKey(data, "_destination") ==> ContractCalldata(c, signature, data) == None
  {
    TypedParamsIsMap(data);
    if HasKey(data, "_destination") {
      OneValueMore(data);
      ArityConflict(c, signature, Arguments(data), Arguments(TypedParams(data)));
    } else {
      SameArguments(data);
    }
  }

  lemma OneValueMore(data: Record)
    requires DistinctStripped(data) && HasKey(data, "_destination")
    ensures |Arguments(data)| == |Arguments(Map(Typed, data))| + 1
  {
    var i :| 0 <= i < |data| && data[i].0 == "_destination";
    assert "_destination" == "_" + "destination";
    UnderscoredKeyIsKept(data, "destination", i);
  }

  lemma SameArguments(data: Record)
    requires !HasKey(data, "_destination")
    ensures Arguments(Map(Typed, data)) == Map(Plainly, Arguments(data))
  {
    var key := "destination";
    assert "_destination" == "_" + key;
    forall i | 0 <= i < |data| ensures data[i].0 != "_" + key {}
    OmitCommutes(data, key);
  }

  lemma ArityConflict(c: Codec, f: string, vs: seq<JsValue>, ws: seq<JsValue>)
    requires Lawful(c) && c.calldata(f, ws).Some? && |vs| != |ws|
    ensures c.calldata(f, vs) == None
  {
  }

  // ---- Main result ----

  /** A request value under a generic name, if any, stands for the same word as the real one. */
  ghost predicate NoConflict(c: Codec, data: Record, key: string, typ: string, actual: JsValue) {
    match Lookup(TypedParams(data), key)
    case None => true
    case Some(v) => c.word(typ, v) == c.word(typ, actual)
  }

  ghost predicate Signable(c: Codec, q: RequestType, fields: seq<Field>, from: string, nonce: JsValue, data: Record) {
    && Lawful(c) && FromSchema(q, fields) && DistinctStripped(data)
    && SignedBytes(c, q, from, nonce, data).Some?
    && c.word("address", Text(from)).Some? && c.word("uint256", nonce).Some?
  }

  /** A generic field of the signed message: the request's override or the real value. */
  lemma GenericWord(c: Codec, q: RequestType, fields: seq<Field>, from: string, nonce: JsValue, data: Record)
    requires Lawful(c) && DistinctStripped(data) && Message(c, q, from, nonce, data).Some?
    ensures var (m, signed, dummy) := (TypedParams(data), Message(c, q, from, nonce, data).value, DummyProps(q, data));
            && FieldWord(c, GENERIC_PARAMS[0], signed) ==
               c.word("address", if Lookup(m, "from").Some? then Lookup(m, "from").value else Text(from))
            && FieldWord(c, GENERIC_PARAMS[0], dummy) ==
               c.word("address", if Lookup(m, "from").Some? then Lookup(m, "from").value else ADDRESS_ZERO)
            && FieldWord(c, GENERIC_PARAMS[1], signed) ==
               c.word("uint256", if Lookup(m, "nonce").Some? then Lookup(m, "nonce").value else nonce)
            && FieldWord(c, GENERIC_PARAMS[1], dummy) ==
               c.word("uint256", if Lookup(m, "nonce").Some? then Lookup(m, "nonce").value else DUMMY_NONCE)
  {
    MessageLookups(c, q, from, nonce, data, "from");
    MessageLookups(c, q, from, nonce, data, "nonce");
    GenericLookup("from", Text(from), Plainly(nonce));
    GenericLookup("nonce", Text(from), Plainly(nonce));
    GenericLookup("from", ADDRESS_ZERO, DUMMY_NONCE);
    GenericLookup("nonce", ADDRESS_ZERO, DUMMY_NONCE);
    assert c.word("uint256", Plainly(nonce)) == c.word("uint256", nonce);
  }

  /** The signed bytes, word by word. */
  lemma SignedShape(c: Codec, q: RequestType, fields: seq<Field>, from: string, nonce: JsValue, data: Record)
    requires Signable(c, q, fields, from, nonce, data)
    ensures var m := Message(c, q, from, nonce, data).value;
            && FieldWord(c, GENERIC_PARAMS[0], m).Some? && FieldWord(c, GENERIC_PARAMS[1], m).Some?
            && DataWord(c, fields, m).Some? && Words(c, fields, m).Some?
            && SignedBytes(c, q, from, nonce, data) ==
               Some(c.keccakUtf8(EncodeType(q.name, q.types))
                    + (FieldWord(c, GENERIC_PARAMS[0], m).value + FieldWord(c, GENERIC_PARAMS[1], m).value
                       + DataWord(c, fields, m).value + Words(c, fields, m).value))
  {
    TypeListWords(c, fields, Message(c, q, from, nonce, data).value);
  }

  /** The dummies encode, so the suffix exists and is the words of the request's own fields. */
  lemma SuffixOfSignable(c: Codec, q: RequestType, fields: seq<Field>, from: string, nonce: JsValue, data: Record)
    requires Signable(c, q, fields, from, nonce, data)
    ensures SuffixData(c, q, data).Some?
    ensures Words(c, fields, Message(c, q, from, nonce, data).value) ==
            Some(FromHex(StripHexPrefix(SuffixData(c, q, data).value)))
  {
    FieldsEncode(c, q, fields, from, nonce, data);
    DummiesEncode(c, q, fields, from, nonce, data);
    SuffixMeaning(c, q, fields, data);
  }

  lemma FieldsEncode(c: Codec, q: RequestType, fields: seq<Field>, from: string, nonce: JsValue, data: Record)
    requires Signable(c, q, fields, from, nonce, data)
    ensures Words(c, fields, DummyProps(q, data)).Some?
    ensures Words(c, fields, DummyProps(q, data)) == Words(c, fields, Message(c, q, from, nonce, data).value)
  {
    SignedShape(c, q, fields, from, nonce, data);
    FieldWordsAgree(c, q, fields, from, nonce, data);
  }

  lemma DummiesEncode(c: Codec, q: RequestType, fields: seq<Field>, from: string, nonce: JsValue, data: Record)
    requires Signable(c, q, fields, from, nonce, data)
    ensures GenericWords(c, DummyProps(q, data)).Some? && DataWord(c, fields, DummyProps(q, data)).Some?
  {
    SignedShape(c, q, fields, from, nonce, data);
    GenericWord(c, q, fields, from, nonce, data);
    DataSlotIff(fields);
    if AnyDynamic(fields) {
      DummyData(c, q, from, nonce, data);
    }
  }

  lemma DummyData(c: Codec, q: RequestType, from: string, nonce: JsValue, data: Record)
    requires Lawful(c) && DistinctStripped(data) && Message(c, q, from, nonce, data).Some? && q.RequiresDataField()
    ensures FieldWord(c, DATA_FIELD, DummyProps(q, data)).Some?
  {
    MessageLookups(c, q, from, nonce, data, "data");
  }

  /** What is submitted exists, and the contract reassembles from it exactly what was signed. */
  ghost predicate Agrees(c: Codec, q: RequestType, from: string, nonce: JsValue, data: Record) {
    var s := Submission(c, q, from, nonce, data);
    s.Some? && Reassembled(c, s.value) == SignedBytes(c, q, from, nonce, data)
  }

  /** The word for the calldata of a record, if there is a slot for it and the record encodes. */
  function HashedCalldata(c: Codec, q: RequestType, fields: seq<Field>, r: Record): Option<Bytes> {
    if !AnyDynamic(fields) then Some([])
    else
      match ContractCalldata(c, q.functionSignature, r)
      case None => None
      case Some(b) => Some(c.keccak(b))
  }

  lemma SubmissionExistsIff(c: Codec, q: RequestType, fields: seq<Field>, from: string, nonce: JsValue, data: Record)
    requires Signable(c, q, fields, from, nonce, data)
    ensures Submission(c, q, from, nonce, data).Some? <==> HashedCalldata(c, q, fields, data).Some?
  {
    SuffixOfSignable(c, q, fields, from, nonce, data);
    DataSlotIff(fields);
  }

  /** The calldata the contract reads out of the submission hashes to the submitted data word. */
  lemma CallDataWord(c: Codec, q: RequestType, fields: seq<Field>, from: string, nonce: JsValue, data: Record)
    requires Lawful(c) && FromSchema(q, fields) && Submission(c, q, from, nonce, data).Some?
    ensures var b := FromHex(StripHexPrefix(Submission(c, q, from, nonce, data).value.callData));
            HashedCalldata(c, q, fields, data) == Some(if |b| > 0 then c.keccak(b) else [])
  {
    DataSlotIff(fields);
    if AnyDynamic(fields) {
      var b := ContractCalldata(c, q.functionSignature, data).value;
      StripUndoesPrefix(ToHex(b));
      HexRoundTrip(b);
      assert |b| >= 4;
    }
  }

  /** The word for the calldata in the signed message. */
  lemma SignedDataWord(c: Codec, q: RequestType, fields: seq<Field>, from: string, nonce: JsValue, data: Record)
    requires Lawful(c) && FromSchema(q, fields) && DistinctStripped(data) && Message(c, q, from, nonce, data).Some?
    ensures DataWord(c, fields, Message(c, q, from, nonce, data).value) ==
            HashedCalldata(c, q, fields, TypedParams(data))
  {
    DataSlotIff(fields);
    if AnyDynamic(fields) {
      CalldataInMessage(c, q, from, nonce, data);
      DataFieldWord(c, Message(c, q, from, nonce, data).value,
                    ContractCalldata(c, q.functionSignature, TypedParams(data)).value);
    }
  }

  lemma CalldataInMessage(c: Codec, q: RequestType, from: string, nonce: JsValue, data: Record)
    requires DistinctStripped(data) && Message(c, q, from, nonce, data).Some? && q.RequiresDataField()
    ensures ContractCalldata(c, q.functionSignature, TypedParams(data)).Some?
    ensures Lookup(Message(c, q, from, nonce, data).value, "data") ==
            Some(HexText(ContractCalldata(c, q.functionSignature, TypedParams(data)).value))
  {
    MessageLookups(c, q, from, nonce, data, "data");
  }

  lemma DataFieldWord(c: Codec, message: Record, b: Bytes)
    requires Lawful(c) && Lookup(message, "data") == Some(HexText(b))
    ensures FieldWord(c, DATA_FIELD, message) == Some(c.keccak(b))
  {
  }

  /** The reassembled bytes, word by word. */
  lemma ReassembledShape(c: Codec, q: RequestType, fields: seq<Field>, from: string, nonce: JsValue, data: Record)
    requires Signable(c, q, fields, from, nonce, data) && Submission(c, q, from, nonce, data).Some?
    ensures var m := Message(c, q, from, nonce, data).value;
            && HashedCalldata(c, q, fields, data).Some? && Words(c, fields, m).Some?
            && Reassembled(c, Submission(c, q, from, nonce, data).value) ==
               Some(c.keccakUtf8(EncodeType(q.name, q.types)) + c.word("address", Text(from)).value
                    + c.word("uint256", nonce).value + HashedCalldata(c, q, fields, data).value
                    + Words(c, fields, m).value)
  {
    SuffixOfSignable(c, q, fields, from, nonce, data);
    CallDataWord(c, q, fields, from, nonce, data);
  }

  lemma SameWords(th: Bytes, f: Bytes32, n: Bytes32, d: Bytes, f': Bytes32, n': Bytes32, d': Bytes, w: Bytes)
    requires |d| == |d'|
    ensures th + f + n + d + w == th + (f' + n' + d' + w) <==> f == f' && n == n' && d == d'
  {
    var a, b, k, e := th + f + n + d + w, th + (f' + n' + d' + w), |th|, |d|;
    assert a[k..k + 32] == f && b[k..k + 32] == f';
    assert a[k + 32..k + 64] == n && b[k + 32..k + 64] == n';
    assert a[k + 64..k + 64 + e] == d && b[k + 64..k + 64 + e] == d';
  }

  lemma CalldataWordLength(c: Codec, q: RequestType, fields: seq<Field>, r: Record)
    ensures HashedCalldata(c, q, fields, r).Some? ==>
              |HashedCalldata(c, q, fields, r).value| == if AnyDynamic(fields) then 32 else 0
  {
  }

  /** What is reassembled is what was signed exactly when from, nonce and calldata have the same words. */
  lemma ReassemblesIff(c: Codec, q: RequestType, fields: seq<Field>, from: string, nonce: JsValue, data: Record)
    requires Signable(c, q, fields, from, nonce, data) && Submission(c, q, from, nonce, data).Some?
    ensures var m := Message(c, q, from, nonce, data).value;
            Reassembled(c, Submission(c, q, from, nonce, data).value) == SignedBytes(c, q, from, nonce, data) <==>
            && FieldWord(c, GENERIC_PARAMS[0], m) == c.word("address", Text(from))
            && FieldWord(c, GENERIC_PARAMS[1], m) == c.word("uint256", nonce)
            && HashedCalldata(c, q, fields, data) == HashedCalldata(c, q, fields, TypedParams(data))
  {
    var m := Message(c, q, from, nonce, data).value;
    SignedShape(c, q, fields, from, nonce, data);
    ReassembledShape(c, q, fields, from, nonce, data);
    SignedDataWord(c, q, fields, from, nonce, data);
    CalldataWordLength(c, q, fields, data);
    CalldataWordLength(c, q, fields, TypedParams(data));
    SameWords(c.keccakUtf8(EncodeType(q.name, q.types)),
              c.word("address", Text(from)).value, c.word("uint256", nonce).value,
              HashedCalldata(c, q, fields, data).value,
              FieldWord(c, GENERIC_PARAMS[0], m).value, FieldWord(c, GENERIC_PARAMS[1], m).value,
              HashedCalldata(c, q, fields, TypedParams(data)).value, Words(c, fields, m).value);
  }

  /** The signed words of `from` and `nonce` are the real ones exactly when the request does not override them. */
  lemma ConflictShows(c: Codec, q: RequestType, fields: seq<Field>, from: string, nonce: JsValue, data: Record)
    requires Lawful(c) && DistinctStripped(data) && Message(c, q, from, nonce, data).Some?
    ensures var m := Message(c, q, from, nonce, data).value;
            && (FieldWord(c, GENERIC_PARAMS[0], m) == c.word("address", Text(from)) <==>
                NoConflict(c, data, "from", "address", Text(from)))
            && (FieldWord(c, GENERIC_PARAMS[1], m) == c.word("uint256", nonce) <==>
                NoConflict(c, data, "nonce", "uint256", nonce))
  {
    GenericWord(c, q, fields, from, nonce, data);
  }

  lemma SignedCalldataExists(c: Codec, q: RequestType, fields: seq<Field>, from: string, nonce: JsValue, data: Record)
    requires Signable(c, q, fields, from, nonce, data)
    ensures HashedCalldata(c, q, fields, TypedParams(data)).Some?
  {
    SignedShape(c, q, fields, from, nonce, data);
    SignedDataWord(c, q, fields, from, nonce, data);
  }

  /** Signed and submitted agree exactly when nothing is overridden and both calldatas have the same hash. */
  lemma AgreesWordByWord(c: Codec, q: RequestType, fields: seq<Field>, from: string, nonce: JsValue, data: Record)
    requires Signable(c, q, fields, from, nonce, data)
    ensures Agrees(c, q, from, nonce, data) <==>
            NoConflict(c, data, "from", "address", Text(from)) && NoConflict(c, data, "nonce", "uint256", nonce)
            && HashedCalldata(c, q, fields, data) == HashedCalldata(c, q, fields, TypedParams(data))
  {
    SubmissionExistsIff(c, q, fields, from, nonce, data);
    SignedCalldataExists(c, q, fields, from, nonce, data);
    ConflictShows(c, q, fields, from, nonce, data);
    if Submission(c, q, from, nonce, data).Some? {
      ReassemblesIff(c, q, fields, from, nonce, data);
    }
  }

  /** The two byte strings hashed for the calldata, the signer's and the relayer's. */
  ghost function Calldatas(c: Codec, q: RequestType, data: Record): set<Bytes> {
    var (raw, typed) := (ContractCalldata(c, q.functionSignature, data),
                         ContractCalldata(c, q.functionSignature, TypedParams(data)));
    (if raw.Some? then {raw.value} else {}) + (if typed.Some? then {typed.value} else {})
  }

  /**
   The request can be read in one way only: no value overrides `from` or `nonce` by another
   one, and, where there is calldata, no `_destination` slips into the arguments and their
   number format does not matter.
   */
  ghost predicate Unambiguous(c: Codec, q: RequestType, fields: seq<Field>, from: string, nonce: JsValue,
                              data: Record)
  {
    && NoConflict(c, data, "from", "address", Text(from)) && NoConflict(c, data, "nonce", "uint256", nonce)
    && (AnyDynamic(fields) ==>
          !HasKey(data, "_destination") && ConvertsAlike(c, q.functionSignature, Arguments(data)))
  }

  /**
   Whenever there is something to sign, and the two calldatas do not collide, a submission
   exists and the contract reassembles from it exactly the signed bytes if and only if the
   request is unambiguous.
   */
  lemma SignedEqualsSubmittedIff(c: Codec, q: RequestType, fields: seq<Field>, from: string, nonce: JsValue,
                                 data: Record)
    requires Signable(c, q, fields, from, nonce, data) && CollisionFree(c.keccak, Calldatas(c, q, data))
    ensures Agrees(c, q, from, nonce, data) <==> Unambiguous(c, q, fields, from, nonce, data)
  {
    AgreesWordByWord(c, q, fields, from, nonce, data);
    SignedDataWord(c, q, fields, from, nonce, data);
    DataSlotIff(fields);
    if AnyDynamic(fields) {
      CalldataAgreesIff(c, q.functionSignature, data);
      SameHashIff(c, q, data);
    }
  }

  lemma SameHashIff(c: Codec, q: RequestType, data: Record)
    requires CollisionFree(c.keccak, Calldatas(c, q, data))
    requires ContractCalldata(c, q.functionSignature, TypedParams(data)).Some?
    ensures var (raw, typed) := (ContractCalldata(c, q.functionSignature, data),
                                 ContractCalldata(c, q.functionSignature, TypedParams(data)));
            raw == typed <==> raw.Some? && c.keccak(raw.value) == c.keccak(typed.value)
  {
    var raw, typed := ContractCalldata(c, q.functionSignature, data),
                      ContractCalldata(c, q.functionSignature, TypedParams(data));
    if raw.Some? {
      assert raw.value in Calldatas(c, q, data) && typed.value in Calldatas(c, q, data);
    }
  }

  /** What a caller can check of a request: its keys, the kinds of its arguments, and two words. */
  ghost predicate WellPut(c: Codec, q: RequestType, fields: seq<Field>, from: string, nonce: JsValue, data: Record) {
    && NoConflict(c, data, "from", "address", Text(from)) && NoConflict(c, data, "nonce", "uint256", nonce)
    && (AnyDynamic(fields) ==>
          !HasKey(data, "_destination") && NumbersPlaced(c, q.functionSignature, Arguments(data)))
  }

  /** With the ABI's encoding, what is submitted comes back as signed exactly when the request is well put. */
  lemma AgreesExactlyWhenWellPut(c: Codec, q: RequestType, fields: seq<Field>, from: string, nonce: JsValue,
                                 data: Record)
    requires Signable(c, q, fields, from, nonce, data) && CollisionFree(c.keccak, Calldatas(c, q, data)) && Abi(c)
    ensures Agrees(c, q, from, nonce, data) <==> WellPut(c, q, fields, from, nonce, data)
  {
    SignedEqualsSubmittedIff(c, q, fields, from, nonce, data);
    DataSlotIff(fields);
    if AnyDynamic(fields) && !HasKey(data, "_destination") {
      TypedParamsIsMap(data);
      SameArguments(data);
      ConvertsAlikeIff(c, q.functionSignature, Arguments(data));
    }
  }

  /**
   A request with no such key, and BigNumbers only where numbers are taken: exactly the signed
   bytes come back, whatever the hash.
   */
  lemma PlainRequestAgrees(c: Codec, q: RequestType, fields: seq<Field>, from: string, nonce: JsValue, data: Record)
    requires Signable(c, q, fields, from, nonce, data) && ByArgument(c) && NumbersTaken(c)
    requires forall i :: 0 <= i < |data| ==>
               data[i].0 != "_destination" && StripUnderscore(data[i].0) !in {"from", "nonce"}
    requires NumbersPlaced(c, q.functionSignature, Arguments(data))
    ensures Agrees(c, q, from, nonce, data)
  {
    AgreesWordByWord(c, q, fields, from, nonce, data);
    SignedDataWord(c, q, fields, from, nonce, data);
    NoOverride(c, data, "from");
    NoOverride(c, data, "nonce");
    DataSlotIff(fields);
    if AnyDynamic(fields) {
      CalldataAgreesIff(c, q.functionSignature, data);
      PlacedNumbersConvertAlike(c, q.functionSignature, Arguments(data));
    }
  }

  lemma NoOverride(c: Codec, data: Record, key: string)
    requires DistinctStripped(data) && forall i :: 0 <= i < |data| ==> StripUnderscore(data[i].0) != key
    ensures Lookup(TypedParams(data), key) == None
  {
    TypedParamsIsMap(data);
    LookupAbsent(TypedParams(data), key);
  }

  // ---- Where the two sides part ----

  /** A request value named `from` or `_from` that encodes to another word is signed but not submitted. */
  lemma OverriddenFromIsNotSubmitted(c: Codec, q: RequestType, fields: seq<Field>, from: string, nonce: JsValue,
                                     data: Record, at: nat)
    requires Signable(c, q, fields, from, nonce, data)
    requires at < |data| && StripUnderscore(data[at].0) == "from"
    requires c.word("address", Plainly(data[at].1)) != c.word("address", Text(from))
    ensures !Agrees(c, q, from, nonce, data)
  {
    EntryLookup(data, at);
    AgreesWordByWord(c, q, fields, from, nonce, data);
  }

  /** With a calldata slot, a request that names its destination `_destination` cannot be submitted. */
  lemma UnderscoredDestinationIsNotSubmitted(c: Codec, q: RequestType, fields: seq<Field>, from: string,
                                             nonce: JsValue, data: Record)
    requires Signable(c, q, fields, from, nonce, data) && AnyDynamic(fields) && HasKey(data, "_destination")
    ensures Submission(c, q, from, nonce, data) == None
  {
    DataSlotIff(fields);
    CalldataAgreesIff(c, q.functionSignature, data);
    SubmissionExistsIff(c, q, fields, from, nonce, data);
  }

  /** An entry of the request is found in the converted request under its stripped key. */
  lemma EntryLookup(data: Record, i: nat)
    requires DistinctStripped(data) && i < |data|
    ensures Lookup(TypedParams(data), StripUnderscore(data[i].0)) == Some(Plainly(data[i].1))
  {
    TypedParamsIsMap(data);
    var m := TypedParams(data);
    assert m[i] == Typed(data[i]);
    LookupAt(m, i);
  }

  lemma {:induction false} LookupAt(m: Record, i: nat)
    requires DistinctKeys(m) && i < |m|
    ensures Lookup(m, m[i].0) == Some(m[i].1)
  {
    if i > 0 {
      LookupAt(m[1..], i - 1);
    }
  }

  // ---- What the builder's results mean ----

  /** Every entry of the request under its stripped key, the real `from` and `nonce`, and the calldata. */
  ghost predicate SaysTheRequest(c: Codec, q: RequestType, from: string, nonce: JsValue, data: Record,
                                 message: Record)
  {
    && (forall i :: 0 <= i < |data| && !(q.RequiresDataField() && StripUnderscore(data[i].0) == "data") ==>
          Lookup(message, StripUnderscore(data[i].0)) ==
          Some(if data[i].1.BigNumber? then Text(Decimal(data[i].1.n)) else data[i].1))
    && ((forall i :: 0 <= i < |data| ==> StripUnderscore(data[i].0) != "from") ==>
          Lookup(message, "from") == Some(Text(from)))
    && ((forall i :: 0 <= i < |data| ==> StripUnderscore(data[i].0) != "nonce") ==>
          Lookup(message, "nonce") == Some(if nonce.BigNumber? then Text(Decimal(nonce.n)) else nonce))
    && (q.RequiresDataField() ==>
          exists vs :: EncodesValues(c, q.functionSignature, TypedParams(data), vs, Lookup(message, "data")))
  }

  /** `vs` are the record's values without the destination, and `hex` is the text of their calldata. */
  ghost predicate EncodesValues(c: Codec, signature: string, r: Record, vs: seq<JsValue>, hex: Option<JsValue>) {
    && ValuesWithout(r, "destination", vs) && c.calldata(signature, vs).Some?
    && hex == Some(Text("0x" + ToHex(c.calldata(signature, vs).value)))
  }

  lemma MessageSaysTheRequest(c: Codec, q: RequestType, from: string, nonce: JsValue, data: Record)
    requires DistinctStripped(data) && Message(c, q, from, nonce, data).Some?
    ensures SaysTheRequest(c, q, from, nonce, data, Message(c, q, from, nonce, data).value)
  {
    var message := Message(c, q, from, nonce, data).value;
    forall i | 0 <= i < |data| && !(q.RequiresDataField() && StripUnderscore(data[i].0) == "data")
      ensures Lookup(message, StripUnderscore(data[i].0)) == Some(Plainly(data[i].1))
    {
      EntryInMessage(c, q, from, nonce, data, i);
    }
    GenericInMessage(c, q, from, nonce, data, "from");
    GenericInMessage(c, q, from, nonce, data, "nonce");
    if q.RequiresDataField() {
      CalldataInMessage(c, q, from, nonce, data);
      TypedParamsIsMap(data);
      OmitMeaning(TypedParams(data), "destination");
      assert EncodesValues(c, q.functionSignature, TypedParams(data), Arguments(TypedParams(data)),
                           Lookup(message, "data"));
    }
  }

  lemma EntryInMessage(c: Codec, q: RequestType, from: string, nonce: JsValue, data: Record, i: nat)
    requires DistinctStripped(data) && Message(c, q, from, nonce, data).Some?
    requires i < |data| && !(q.RequiresDataField() && StripUnderscore(data[i].0) == "data")
    ensures Lookup(Message(c, q, from, nonce, data).value, StripUnderscore(data[i].0)) == Some(Plainly(data[i].1))
  {
    var k := StripUnderscore(data[i].0);
    EntryLookup(data, i);
    if k == "data" {
      DataInMessage(c, q, from, nonce, data);
    } else {
      MessageLookups(c, q, from, nonce, data, k);
    }
  }

  /** Without a calldata slot a request value called `data` is like any other. */
  lemma DataInMessage(c: Codec, q: RequestType, from: string, nonce: JsValue, data: Record)
    requires DistinctStripped(data) && Message(c, q, from, nonce, data).Some? && !q.RequiresDataField()
    requires Lookup(TypedParams(data), "data").Some?
    ensures Lookup(Message(c, q, from, nonce, data).value, "data") == Lookup(TypedParams(data), "data")
  {
    TypedParamsIsMap(data);
    LookupSpread([("from", Text(from)), ("nonce", Plainly(nonce))], TypedParams(data), "data");
  }

  lemma GenericInMessage(c: Codec, q: RequestType, from: string, nonce: JsValue, data: Record, key: string)
    requires DistinctStripped(data) && Message(c, q, from, nonce, data).Some? && key in {"from", "nonce"}
    ensures (forall i :: 0 <= i < |data| ==> StripUnderscore(data[i].0) != key) ==>
              Lookup(Message(c, q, from, nonce, data).value, key) ==
              Some(if key == "from" then Text(from) else Plainly(nonce))
  {
    if forall i :: 0 <= i < |data| ==> StripUnderscore(data[i].0) != key {
      NoOverride(c, data, key);
      MessageLookups(c, q, from, nonce, data, key);
      GenericLookup(key, Text(from), Plainly(nonce));
    }
  }

  /** The request's own fields encode, and so do its overrides of `from` and `nonce`, if any. */
  ghost predicate OwnWordsExist(c: Codec, fields: seq<Field>, data: Record) {
    && Lawful(c) && DistinctStripped(data) && Words(c, fields, TypedParams(data)).Some?
    && (forall v :: Lookup(TypedParams(data), "from") == Some(v) ==> c.word("address", v).Some?)
    && (forall v :: Lookup(TypedParams(data), "nonce") == Some(v) ==> c.word("uint256", v).Some?)
  }

  /** The suffix is the words of the request's own fields: the dummies have left no trace. */
  lemma SuffixIsOwnWords(c: Codec, q: RequestType, fields: seq<Field>, data: Record)
    requires FromSchema(q, fields) && OwnWordsExist(c, fields, data)
    ensures SuffixData(c, q, data) == Some("0x" + ToHex(Words(c, fields, TypedParams(data)).value))
  {
    var m, dummy := TypedParams(data), DummyProps(q, data);
    forall i | 0 <= i < |fields| ensures Lookup(m, fields[i].name) == Lookup(dummy, fields[i].name) {
      assert fields[i].name != "from" && fields[i].name != "nonce" && fields[i].name != "data";
      DummyLookups(q, data, fields[i].name);
      GenericLookup(fields[i].name, ADDRESS_ZERO, DUMMY_NONCE);
    }
    WordsAgree(c, fields, m, dummy);
    DummyLookups(q, data, "from");
    DummyLookups(q, data, "nonce");
    DummyLookups(q, data, "data");
    GenericLookup("from", ADDRESS_ZERO, DUMMY_NONCE);
    GenericLookup("nonce", ADDRESS_ZERO, DUMMY_NONCE);
    DataSlotIff(fields);
    SuffixMeaning(c, q, fields, data);
  }

  lemma DummyLookups(q: RequestType, data: Record, k: string)
    requires DistinctStripped(data)
    ensures var m := TypedParams(data);
            Lookup(DummyProps(q, data), k) ==
            if k == "data" && q.RequiresDataField() then Some(DUMMY_DATA)
            else if Lookup(m, k).Some? then Lookup(m, k)
            else Lookup([("from", ADDRESS_ZERO), ("nonce", DUMMY_NONCE)], k)
  {
    var m, dummies := TypedParams(data), [("from", ADDRESS_ZERO), ("nonce", DUMMY_NONCE)];
    TypedParamsIsMap(data);
    LookupSpread(dummies, m, k);
    if q.RequiresDataField() {
      LookupPut(Spread(dummies, m), "data", DUMMY_DATA, k);
    }
  }

  /** Collection requests: the same holds for the list with the destination inserted. */
  lemma DestinationSchema(fields: seq<Field>)
    requires !Names(fields, "from") && !Names(fields, "nonce") && !Names(fields, "data") && fields != []
    ensures AddDestinationField(TypeList(fields)).Ok?
    ensures forall name, signature ::
              FromSchema(RequestType(name, AddDestinationField(TypeList(fields)).value, signature),
                         [DESTINATION_FIELD] + fields)
  {
    DestinationCommutesIff(fields);
    assert fields[0].name != "data";
    var with := [DESTINATION_FIELD] + fields;
    assert forall i :: 1 <= i < |with| ==> with[i] == fields[i - 1];
  }
}
