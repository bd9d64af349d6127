/**
 Building the typed data a user signs and the execution request a relayer submits, on their
 two separate paths, and the contract's reassembly of the signed bytes from the request.
 */
module TypedData {
  import opened Wrappers
  import opened Bytes
  import opened TypeLists
  import opened Records

  /**
   The external encoders: keccak256, EIP-712 field encoding, and ABI calldata encoding with the
   parameter types behind each function signature and the encoding of one value at a type.
   */
  datatype Codec = Codec(
    keccak: Bytes -> Bytes32,
    keccakUtf8: string -> Bytes32,
    word: (string, JsValue) -> Option<Bytes32>,
    params: string -> seq<string>,
    argument: (string, JsValue) -> Option<Bytes>,
    calldata: (string, seq<JsValue>) -> Option<Bytes>)

  const ADDRESS_ZERO := Text("0x0000000000000000000000000000000000000000")
  const DUMMY_NONCE := Number(1)
  const DUMMY_DATA := Text("0x00")

  function HexText(b: Bytes): JsValue { Text("0x" + ToHex(b)) }

  /** Integers, and truth values: a number object and a nonempty text are both true. */
  predicate TakesNumbers(typ: string) {
    (("uint" <= typ || "int" <= typ) && '[' !in typ) || typ == "bool"
  }

  /** The two argument lists encode alike, value by value. */
  ghost predicate ArgumentsAgree(c: Codec, f: string, vs: seq<JsValue>, ws: seq<JsValue>) {
    && |vs| == |ws| == |c.params(f)|
    && forall i :: 0 <= i < |vs| ==> c.argument(c.params(f)[i], vs[i]) == c.argument(c.params(f)[i], ws[i])
  }

  /**
   What the encoders are relied on for: `bytes` fields are hashed, the dummies encode, an
   integer field may be given as a BigNumber or as its decimal text, and calldata starts with
   a selector and has one value for each parameter.
   */
  ghost predicate Lawful(c: Codec) {
    && (forall b: Bytes :: c.word("bytes", HexText(b)) == Some(c.keccak(b)))
    && c.word("address", ADDRESS_ZERO).Some?
    && c.word("uint256", DUMMY_NONCE).Some?
    && c.word("bytes", DUMMY_DATA).Some?
    && (forall v: JsValue {:trigger c.word("uint256", Plainly(v))} ::
          c.word("uint256", Plainly(v)) == c.word("uint256", v))
    && (forall f: string, vs: seq<JsValue> :: c.calldata(f, vs).Some? ==>
          |vs| == |c.params(f)| && |c.calldata(f, vs).value| >= 4)
  }

  /** Calldata is made from the encodings of its arguments. */
  ghost predicate ByArgument(c: Codec) {
    forall f: string, vs: seq<JsValue>, ws: seq<JsValue> ::
      ArgumentsAgree(c, f, vs, ws) ==> c.calldata(f, vs) == c.calldata(f, ws)
  }

  /** Where numbers are taken, a BigNumber encodes like its decimal text. */
  ghost predicate NumbersTaken(c: Codec) {
    forall typ: string, n: nat ::
      TakesNumbers(typ) ==> c.argument(typ, BigNumber(n)) == c.argument(typ, Text(Decimal(n)))
  }

  /**
   The rest of what the ABI promises: calldata fixes the encodings of its arguments, and where
   numbers are not taken a BigNumber does not encode as its decimal text does.
   */
  ghost predicate Abi(c: Codec) {
    && ByArgument(c) && NumbersTaken(c)
    && (forall f: string, vs: seq<JsValue>, ws: seq<JsValue> ::
          c.calldata(f, vs).Some? && c.calldata(f, vs) == c.calldata(f, ws) ==>
          ArgumentsAgree(c, f, vs, ws) && forall i :: 0 <= i < |vs| ==> c.argument(c.params(f)[i], vs[i]).Some?)
    && (forall typ: string, n: nat :: !TakesNumbers(typ) && c.argument(typ, Text(Decimal(n))).Some? ==>
          c.argument(typ, BigNumber(n)) != c.argument(typ, Text(Decimal(n))))
  }

  // ---- EIP-712 encodeData ----

  /** The concatenated words of the fields; `None` when a field is missing or does not encode. */
  function Words(c: Codec, types: seq<Field>, message: Record): (r: Option<Bytes>)
    ensures r.Some? ==> |r.value| == 32 * |types|
  {
    if types == [] then Some([])
    else
      match FieldWord(c, types[0], message)
      case None => None
      case Some(w) =>
        match Words(c, types[1..], message)
        case None => None
        case Some(rest) => Some(w + rest)
  }

  function FieldWord(c: Codec, f: Field, message: Record): Option<Bytes32> {
    match Lookup(message, f.name)
    case None => None
    case Some(v) => c.word(f.typ, v)
  }

  /** typeHash and encodeData (EIP-712, "Definition of encodeData") of a flat struct. */
  function EncodeData(c: Codec, name: string, types: seq<Field>, message: Record): Option<Bytes> {
    match Words(c, types, message)
    case None => None
    case Some(w) => Some(c.keccakUtf8(EncodeType(name, types)) + w)
  }

  // ---- Request types ----

  datatype RequestType = RequestType(name: string, types: seq<Field>, functionSignature: string) {
    predicate RequiresDataField() { Names(types, "data") }
  }

  /** Arguments in record order, without the destination. */
  function Arguments(r: Record): seq<JsValue> {
    Values(Omit(r, "destination"))
  }

  function ContractCalldata(c: Codec, signature: string, r: Record): Option<Bytes> {
    c.calldata(signature, Arguments(r))
  }

  // ---- What is signed ----

  function MessageData(c: Codec, q: RequestType, requestData: Record): Option<Record> {
    var m := TypedParams(requestData);
    if !q.RequiresDataField() then Some(m)
    else
      match ContractCalldata(c, q.functionSignature, m)
      case None => None
      case Some(b) => Some(Put(m, "data", HexText(b)))
  }

  function Message(c: Codec, q: RequestType, from: string, nonce: JsValue, requestData: Record): Option<Record> {
    match MessageData(c, q, requestData)
    case None => None
    case Some(m) => Some(Spread([("from", Text(from)), ("nonce", Plainly(nonce))], m))
  }

  function SignedBytes(c: Codec, q: RequestType, from: string, nonce: JsValue, requestData: Record): Option<Bytes> {
    match Message(c, q, from, nonce, requestData)
    case None => None
    case Some(m) => EncodeData(c, q.name, q.types, m)
  }

  // ---- What is submitted ----

  /** `s.substring(k)` */
  function Substring(s: string, k: nat): string {
    if k <= |s| then s[k..] else ""
  }

  function DummyProps(q: RequestType, requestData: Record): Record {
    var props := Spread([("from", ADDRESS_ZERO), ("nonce", DUMMY_NONCE)], TypedParams(requestData));
    if q.RequiresDataField() then Put(props, "data", DUMMY_DATA) else props
  }

  function SuffixData(c: Codec, q: RequestType, requestData: Record): Option<string> {
    match EncodeData(c, q.name, q.types, DummyProps(q, requestData))
    case None => None
    case Some(b) => Some("0x" + Substring("0x" + ToHex(b), if q.RequiresDataField() then 194 + 64 else 194))
  }

  datatype ExecutionRequest = ExecutionRequest(
    typeHash: Bytes32, from: string, nonce: JsValue, suffixData: string, callData: string)

  function Submission(c: Codec, q: RequestType, from: string, nonce: JsValue, requestData: Record)
    : Option<ExecutionRequest>
  {
    match SuffixData(c, q, requestData)
    case None => None
    case Some(suffix) =>
      var typeHash := c.keccakUtf8(EncodeType(q.name, q.types));
      if !q.RequiresDataField() then Some(ExecutionRequest(typeHash, from, nonce, suffix, "0x"))
      else
        match ContractCalldata(c, q.functionSignature, requestData)
        case None => None
        case Some(b) => Some(ExecutionRequest(typeHash, from, nonce, suffix, "0x" + ToHex(b)))
  }

  /** The contract's reassembly of the struct encoding from an execution request. */
  function Reassembled(c: Codec, r: ExecutionRequest): Option<Bytes> {
    var callData, suffix := FromHex(StripHexPrefix(r.callData)), FromHex(StripHexPrefix(r.suffixData));
    match (c.word("address", Text(r.from)), c.word("uint256", r.nonce))
    case (Some(from), Some(nonce)) =>
      Some(r.typeHash + from + nonce + (if |callData| > 0 then c.keccak(callData) else []) + suffix)
    case _ => None
  }
}
