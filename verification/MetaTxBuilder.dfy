/**
 The objects that build what is signed and what is submitted, with what their results mean to
 the signer and to the contract.
 */
module MetaTxBuilder {
  import opened Wrappers
  import opened Bytes
  import opened TypeLists
  import opened Records
  import opened TypedData
  import opened SignedEqualsSubmitted
  import Sign

  datatype Domain = Domain(name: string, version: string, chainId: nat, verifyingContract: string)

  datatype EIP712TypedData = EIP712TypedData(types: seq<Field>, primaryType: string, domain: Domain, message: Record)

  class EIP712TypedDataBuilder {
    const domainData: Domain
    const codec: Codec

    constructor (codec: Codec, chainId: nat, metaTxForwarderAddress: string)
      ensures this.codec == codec && domainData == Domain("Startrail", "1", chainId, metaTxForwarderAddress)
    {
      this.codec := codec;
      domainData := Domain("Startrail", "1", chainId, metaTxForwarderAddress);
    }

    /** Fails only for lack of calldata; the message says what the request says, entry by entry. */
    method Build(q: RequestType, from: string, nonce: JsValue, requestData: Record)
      returns (result: Option<EIP712TypedData>)
      ensures result.None? <==>
              q.RequiresDataField() && ContractCalldata(codec, q.functionSignature, TypedParams(requestData)) == None
      ensures result.Some? ==> result.value == EIP712TypedData(q.types, q.name, domainData, result.value.message)
      ensures result.Some? ==> EncodeData(codec, q.name, q.types, result.value.message)
                               == SignedBytes(codec, q, from, nonce, requestData)
      ensures result.Some? && DistinctStripped(requestData) ==>
                SaysTheRequest(codec, q, from, nonce, requestData, result.value.message)
    {
      var messageData := TypedParams(requestData);
      if q.RequiresDataField() {
        var data := ContractCalldata(codec, q.functionSignature, messageData);
        if data.None? {
          return None;
        }
        messageData := Put(messageData, "data", HexText(data.value));
      }
      var message := Spread([("from", Text(from)), ("nonce", Plainly(nonce))], messageData);
      if DistinctStripped(requestData) {
        MessageSaysTheRequest(codec, q, from, nonce, requestData);
      }
      return Some(EIP712TypedData(q.types, q.name, domainData, message));
    }

    /** The suffix holds the words of the request's own fields and nothing of the dummies. */
    method EncodeSuffixData(q: RequestType, requestData: Record) returns (result: Option<string>)
      ensures result == SuffixData(codec, q, requestData)
      ensures forall fields :: FromSchema(q, fields) && OwnWordsExist(codec, fields, requestData) ==>
                result == Some("0x" + ToHex(Words(codec, fields, TypedParams(requestData)).value))
    {
      var messageData := TypedParams(requestData);
      var requestDataProps := Spread([("from", ADDRESS_ZERO), ("nonce", DUMMY_NONCE)], messageData);
      if q.RequiresDataField() {
        requestDataProps := Put(requestDataProps, "data", DUMMY_DATA);
      }
      var encodedData := EncodeData(codec, q.name, q.types, requestDataProps);
      forall fields | FromSchema(q, fields) && OwnWordsExist(codec, fields, requestData)
        ensures SuffixData(codec, q, requestData)
                == Some("0x" + ToHex(Words(codec, fields, TypedParams(requestData)).value))
      {
        SuffixIsOwnWords(codec, q, fields, requestData);
      }
      if encodedData.None? {
        return None;
      }
      var skipHexDigits := 194;
      if q.RequiresDataField() {
        skipHexDigits := skipHexDigits + 64;
      }
      return Some("0x" + Substring("0x" + ToHex(encodedData.value), skipHexDigits));
    }
  }

  datatype EncodeKind = SingleSig | MultiSig

  datatype ExecuteProps = ExecuteProps(request: ExecutionRequest, signature: Option<string>, signatures: Option<string>)

  /**
   For a signable request the contract reassembles from the result exactly the bytes that were
   signed, if and only if the request reads unambiguously.
   */
  method EncodeExecuteTransactionProps(builder: EIP712TypedDataBuilder, q: RequestType, from: string, nonce: JsValue,
                                       requestData: Record, signatures: seq<string>, kind: EncodeKind)
    returns (result: Option<ExecuteProps>)
    ensures (if result.Some? then Some(result.value.request) else None)
            == Submission(builder.codec, q, from, nonce, requestData)
    ensures result.Some? ==>
              var r := result.value.request;
              && r.typeHash == builder.codec.keccakUtf8(EncodeType(q.name, q.types))
              && r.from == from && r.nonce == nonce
              && (!q.RequiresDataField() ==> r.callData == "0x")
              && (q.RequiresDataField() && DistinctKeys(requestData) ==>
                    exists vs :: EncodesValues(builder.codec, q.functionSignature, requestData, vs,
                                               Some(Text(r.callData))))
    ensures result.Some? ==>
              var joined := Some(Sign.JoinSignatures(signatures));
              if kind.SingleSig? then result.value.signature == joined && result.value.signatures == None
              else result.value.signature == None && result.value.signatures == joined
    ensures forall fields ::
              Signable(builder.codec, q, fields, from, nonce, requestData)
              && CollisionFree(builder.codec.keccak, Calldatas(builder.codec, q, requestData)) ==>
              (result.Some? && Reassembled(builder.codec, result.value.request)
                               == SignedBytes(builder.codec, q, from, nonce, requestData)
               <==> Unambiguous(builder.codec, q, fields, from, nonce, requestData))
  {
    var suffixData := builder.EncodeSuffixData(q, requestData);
    forall fields | Signable(builder.codec, q, fields, from, nonce, requestData)
                    && CollisionFree(builder.codec.keccak, Calldatas(builder.codec, q, requestData))
      ensures Agrees(builder.codec, q, from, nonce, requestData)
              <==> Unambiguous(builder.codec, q, fields, from, nonce, requestData)
    {
      SignedEqualsSubmittedIff(builder.codec, q, fields, from, nonce, requestData);
    }
    if suffixData.None? {
      return None;
    }
    var callData := "0x";
    if q.RequiresDataField() {
      var encoded := ContractCalldata(builder.codec, q.functionSignature, requestData);
      if encoded.None? {
        return None;
      }
      callData := "0x" + ToHex(encoded.value);
      if DistinctKeys(requestData) {
        OmitMeaning(requestData, "destination");
        assert EncodesValues(builder.codec, q.functionSignature, requestData, Arguments(requestData),
                             Some(Text(callData)));
      }
    }
    var executionRequest := ExecutionRequest(builder.codec.keccakUtf8(EncodeType(q.name, q.types)), from, nonce,
                                             suffixData.value, callData);
    var joinedSignatures := Sign.JoinSignatures(signatures);
    var props := ExecuteProps(executionRequest, None, None);
    match kind {
      case SingleSig => props := props.(signature := Some(joinedSignatures));
      case MultiSig => props := props.(signatures := Some(joinedSignatures));
    }
    return Some(props);
  }
}
