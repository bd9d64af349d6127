/**
 The packed transaction list handed to the MultiSend contract, and the contract's own walk
 over it.
 */
module MultiSend {
  import opened Wrappers
  import opened Bytes

  type Address = b: Bytes | |b| == 20 witness [0, 0, 0, 0, 0, 0, 0, 0, 0, 0, 0, 0, 0, 0, 0, 0, 0, 0, 0, 0]

  /** `data` is a hex string, with or without its 0x prefix. */
  datatype TxRequest = TxRequest(operation: byte, to: Address, data: string)

  function DataOf(tx: TxRequest): Bytes {
    FromHex(StripHexPrefix(tx.data))
  }

  /** `solidityPack` of operation, to, value 0, data length and data. */
  function Packed(tx: TxRequest): Bytes {
    [tx.operation] + tx.to + ToBE(0, 32) + ToBE(|DataOf(tx)|, 32) + DataOf(tx)
  }

  function EncodeTransaction(tx: TxRequest): string {
    "0x" + ToHex(Packed(tx))
  }

  function Stripped(tx: TxRequest): string {
    StripHexPrefix(EncodeTransaction(tx))
  }

  function EncodeTransactions(txs: seq<TxRequest>): string {
    "0x" + Concat(Map(Stripped, txs))
  }

  function SameDestination(operation: byte, to: Address, calldata: seq<string>): seq<TxRequest> {
    Map(data => TxRequest(operation, to, data), calldata)
  }

  function EncodeSingleDestination(operation: byte, to: Address, calldata: seq<string>): string {
    EncodeTransactions(SameDestination(operation, to, calldata))
  }

  // ---- The contract ----

  datatype Call = Call(operation: byte, to: Bytes, value: int, data: Bytes)

  /** The record at the front of `at` and its size; `None` when it runs past the end. */
  function ReadRecord(at: Bytes): (r: Option<(Call, nat)>)
    ensures r.Some? ==> r.value.1 >= 85
  {
    if |at| < 85 then None
    else
      var length := Value(256, at[53..85]);
      if length < 0 || 85 + length > |at| then None
      else Some((Call(at[0], at[1..21], Value(256, at[21..53]), at[85..85 + length]), 85 + length))
  }

  /**
   The contract's loop. `i` counts from the length word in front of the bytes, so it starts at
   32, while the bound is the length of the bytes themselves.
   */
  function Walk(b: Bytes, i: nat): Option<seq<Call>>
    requires i >= 32
    decreases |b| - i
  {
    if i >= |b| then Some([])
    else
      match ReadRecord(b[i - 32..])
      case None => None
      case Some((call, size)) =>
        match Walk(b, i + size)
        case None => None
        case Some(rest) => Some([call] + rest)
  }

  function ToCall(tx: TxRequest): Call {
    Call(tx.operation, tx.to, 0, DataOf(tx))
  }

  function ToCalls(txs: seq<TxRequest>): seq<Call> {
    Map(ToCall, txs)
  }

  function Joined(records: seq<Bytes>): Bytes {
    if records == [] then [] else records[0] + Joined(records[1..])
  }

  /** Data lengths fit their 32 bytes, as those of any buffer do. */
  ghost predicate Encodable(txs: seq<TxRequest>) {
    forall i :: 0 <= i < |txs| ==> |DataOf(txs[i])| < Pow(256, 32)
  }

  lemma StrippedIsHex(tx: TxRequest)
    ensures Stripped(tx) == ToHex(Packed(tx))
  {
    StripUndoesPrefix(ToHex(Packed(tx)));
  }

  lemma {:induction false} HexOfJoin(txs: seq<TxRequest>)
    ensures Concat(Map(Stripped, txs)) == ToHex(Joined(Map(Packed, txs)))
  {
    if txs != [] {
      HexOfJoin(txs[1..]);
      ToHexConcat(Packed(txs[0]), Joined(Map(Packed, txs[1..])));
      StrippedIsHex(txs[0]);
      assert Map(Stripped, txs)[1..] == Map(Stripped, txs[1..]);
      assert Map(Packed, txs)[1..] == Map(Packed, txs[1..]);
    }
  }

  /** `record` is laid out as one packed transaction and means `call`. */
  ghost predicate IsRecord(record: Bytes, call: Call) {
    && |record| >= 85
    && Value(256, record[53..85]) == |record| - 85
    && call == Call(record[0], record[1..21], Value(256, record[21..53]), record[85..])
  }

  lemma WordRoundTrip(n: nat, width: nat)
    requires n < Pow(256, width)
    ensures Value(256, ToBE(n, width)) == n && Value(256, ToBE(0, width)) == 0
  {
    ValueOfToBE(n, width);
    PowPositive(256, width);
    ValueOfToBE(0, width);
  }

  lemma PackedIsRecord(tx: TxRequest)
    requires |DataOf(tx)| < Pow(256, 32)
    ensures IsRecord(Packed(tx), ToCall(tx))
  {
    WordRoundTrip(|DataOf(tx)|, 32);
    var r, zero, length := Packed(tx), ToBE(0, 32), ToBE(|DataOf(tx)|, 32);
    assert r == [tx.operation] + tx.to + zero + length + DataOf(tx);
    assert r[1..21] == tx.to && r[21..53] == zero && r[53..85] == length && r[85..] == DataOf(tx);
  }

  lemma ReadsRecord(record: Bytes, after: Bytes, call: Call)
    requires IsRecord(record, call)
    ensures ReadRecord(record + after) == Some((call, |record|))
  {
    var at := record + after;
    assert at[53..85] == record[53..85] && at[1..21] == record[1..21] && at[21..53] == record[21..53];
    assert at[85..|record|] == record[85..];
  }

  lemma WalkOn(before: Bytes, record: Bytes, after: Bytes, call: Call, calls: seq<Call>)
    requires IsRecord(record, call)
    requires Walk(before + record + after, 32 + |before + record|) == Some(calls)
    ensures Walk(before + (record + after), 32 + |before|) == Some([call] + calls)
  {
    var b := before + (record + after);
    assert b == before + record + after && b[|before|..] == record + after;
    ReadsRecord(record, after, call);
  }

  lemma {:induction false} WalkReadsBack(records: seq<Bytes>, calls: seq<Call>, before: Bytes)
    requires |records| == |calls| && forall i :: 0 <= i < |records| ==> IsRecord(records[i], calls[i])
    ensures Walk(before + Joined(records), 32 + |before|) == Some(calls)
    decreases |records|
  {
    if records == [] {
      assert before + Joined(records) == before;
    } else {
      WalkReadsBack(records[1..], calls[1..], before + records[0]);
      assert Joined(records) == records[0] + Joined(records[1..]);
      WalkOn(before, records[0], Joined(records[1..]), calls[0], calls[1..]);
      assert calls == [calls[0]] + calls[1..];
    }
  }

  /** The contract reads back exactly the encoded list, whatever the list. */
  lemma RoundTrip(txs: seq<TxRequest>)
    requires Encodable(txs)
    ensures Walk(FromHex(StripHexPrefix(EncodeTransactions(txs))), 32) == Some(ToCalls(txs))
    ensures |ToCalls(txs)| == |txs| && forall i :: 0 <= i < |txs| ==>
              ToCalls(txs)[i] == Call(txs[i].operation, txs[i].to, 0, FromHex(StripHexPrefix(txs[i].data)))
  {
    var bytes := Joined(Map(Packed, txs));
    HexOfJoin(txs);
    StripUndoesPrefix(Concat(Map(Stripped, txs)));
    HexRoundTrip(bytes);
    forall i | 0 <= i < |txs| ensures IsRecord(Map(Packed, txs)[i], ToCalls(txs)[i]) {
      PackedIsRecord(txs[i]);
    }
    WalkReadsBack(Map(Packed, txs), ToCalls(txs), []);
    assert [] + bytes == bytes;
  }

  /** The encoding is 0x and then hex, and the bytes behind it are the records. */
  lemma EncodingIsHex(txs: seq<TxRequest>)
    ensures EncodeTransactions(txs) == "0x" + ToHex(FromHex(StripHexPrefix(EncodeTransactions(txs))))
  {
    HexOfJoin(txs);
    StripUndoesPrefix(Concat(Map(Stripped, txs)));
    HexRoundTrip(Joined(Map(Packed, txs)));
  }

  /** One transaction alone is 0x and the hex of its record. */
  lemma OneIsRecord(tx: TxRequest)
    requires |DataOf(tx)| < Pow(256, 32)
    ensures EncodeTransaction(tx) == "0x" + ToHex(FromHex(StripHexPrefix(EncodeTransaction(tx))))
    ensures IsRecord(FromHex(StripHexPrefix(EncodeTransaction(tx))),
                     Call(tx.operation, tx.to, 0, FromHex(StripHexPrefix(tx.data))))
  {
    StrippedIsHex(tx);
    HexRoundTrip(Packed(tx));
    PackedIsRecord(tx);
  }

  /** Calldata may come with or without its prefix. */
  lemma DataMeaning(operation: byte, to: Address, data: Bytes)
    ensures DataOf(TxRequest(operation, to, "0x" + ToHex(data))) == data
    ensures DataOf(TxRequest(operation, to, ToHex(data))) == data
  {
    StripUndoesPrefix(ToHex(data));
    HexRoundTrip(data);
    if data != [] {
      ToHexAt(data, 0);
    }
  }

  /** Two lists have one encoding exactly when they ask for the same calls. */
  lemma EncodingInjective(a: seq<TxRequest>, b: seq<TxRequest>)
    requires Encodable(a) && Encodable(b)
    ensures EncodeTransactions(a) == EncodeTransactions(b) <==> ToCalls(a) == ToCalls(b)
  {
    RoundTrip(a);
    RoundTrip(b);
    if ToCalls(a) == ToCalls(b) {
      SameCallsSameBytes(a, b);
      HexOfJoin(a);
      HexOfJoin(b);
    }
  }

  lemma SameCallsSameBytes(a: seq<TxRequest>, b: seq<TxRequest>)
    requires ToCalls(a) == ToCalls(b)
    ensures Map(Packed, a) == Map(Packed, b)
  {
    forall i | 0 <= i < |a| ensures Packed(a[i]) == Packed(b[i]) {
      assert ToCall(a[i]) == ToCalls(a)[i] == ToCalls(b)[i] == ToCall(b[i]);
    }
  }

  /** Appending lists appends their encodings. */
  lemma EncodingAppends(a: seq<TxRequest>, b: seq<TxRequest>)
    ensures EncodeTransactions(a + b) == EncodeTransactions(a) + StripHexPrefix(EncodeTransactions(b))
  {
    MapAppends(Stripped, a, b);
    ConcatAppends(Map(Stripped, a), Map(Stripped, b));
    StripUndoesPrefix(Concat(Map(Stripped, b)));
    AppendAssociates("0x", Concat(Map(Stripped, a)), Concat(Map(Stripped, b)));
  }

  /** The single-destination form sends every calldata to that one destination, in order. */
  lemma SingleDestinationRoundTrip(operation: byte, to: Address, calldata: seq<string>)
    requires Encodable(SameDestination(operation, to, calldata))
    ensures var calls := Walk(FromHex(StripHexPrefix(EncodeSingleDestination(operation, to, calldata))), 32);
            calls.Some? && |calls.value| == |calldata|
            && forall i :: 0 <= i < |calldata| ==>
                 calls.value[i] == Call(operation, to, 0, FromHex(StripHexPrefix(calldata[i])))
  {
    var txs := SameDestination(operation, to, calldata);
    RoundTrip(txs);
  }
}
