/**
 Signing with several wallets: the signers are sorted by address string, their signatures
 joined into one hex string, and the contract takes that string apart again.
 */
module Sign {
  import opened Wrappers
  import opened Bytes
  import opened Ordering

  /** Wallets made with old library versions cannot sign typed data. */
  datatype Wallet = Wallet(address: string, signsTypedData: bool)

  /** A 20-byte address in hex, in any mix of cases. */
  predicate IsAddress(s: string) {
    |s| == 42 && s[0] == '0' && s[1] == 'x' && forall i :: 2 <= i < 42 ==> IsHexDigit(s[i])
  }

  function LowerChar(c: char): char {
    if 'A' <= c <= 'Z' then 'a' + (c - 'A') else c
  }

  /** `address.toLowerCase()`, as the character codes by which strings compare. */
  function LowerCodes(s: string): (codes: seq<int>)
    ensures |codes| == |s|
  {
    Map(c => LowerChar(c) as int, s)
  }

  function SortKey(w: Wallet): seq<int> {
    LowerCodes(w.address)
  }

  function Digits(s: string): (d: seq<int>)
    requires forall i :: 0 <= i < |s| ==> IsHexDigit(s[i])
    ensures |d| == |s| && forall i :: 0 <= i < |s| ==> d[i] == HexValue(s[i])
    ensures IsDigits(16, d)
  {
    seq(|s|, i requires 0 <= i < |s| => HexValue(s[i]))
  }

  /** The number an address string denotes. */
  function AddressValue(s: string): nat
    requires IsAddress(s)
  {
    ValueBounds(16, Digits(s[2..]));
    Value(16, Digits(s[2..]))
  }

  /** The address string of twenty bytes denotes their number. */
  lemma AddressMeaning(b: Bytes)
    requires |b| == 20
    ensures IsAddress("0x" + ToHex(b)) && AddressValue("0x" + ToHex(b)) == Value(256, b)
  {
    var s := "0x" + ToHex(b);
    forall i | 0 <= i < 40 ensures IsHexDigit(ToHex(b)[i]) {
      ToHexAt(b, i / 2);
      assert i == 2 * (i / 2) || i == 2 * (i / 2) + 1;
    }
    assert s[2..] == ToHex(b);
    assert Digits(s[2..]) == HexValues(ToHex(b));
    ToHexKeepsValue(b);
  }

  lemma {:induction false} SameOrder(a: seq<int>, b: seq<int>, c: seq<int>, d: seq<int>)
    requires |a| == |b| == |c| == |d|
    requires forall i :: 0 <= i < |a| ==> (a[i] < b[i] <==> c[i] < d[i]) && (a[i] == b[i] <==> c[i] == d[i])
    ensures LexLess(a, b) <==> LexLess(c, d)
  {
    if a != [] { SameOrder(a[1..], b[1..], c[1..], d[1..]); }
  }

  /** On addresses, the order of the lowercased strings is the order of the numbers. */
  lemma AddressOrder(a: string, b: string)
    requires IsAddress(a) && IsAddress(b)
    ensures LexLess(LowerCodes(a), LowerCodes(b)) <==> AddressValue(a) < AddressValue(b)
    ensures LowerCodes(a) == LowerCodes(b) <==> AddressValue(a) == AddressValue(b)
  {
    AddressLess(a, b);
    AddressLess(b, a);
    LexTrichotomy(LowerCodes(a), LowerCodes(b));
  }

  lemma AddressLess(a: string, b: string)
    requires IsAddress(a) && IsAddress(b)
    ensures LexLess(LowerCodes(a), LowerCodes(b)) <==> AddressValue(a) < AddressValue(b)
  {
    var p, q := LowerCodes(a), LowerCodes(b);
    assert p[0] == q[0] && p[1] == q[1];
    assert p[1..][1..] == p[2..] && q[1..][1..] == q[2..];
    SameOrder(p[2..], q[2..], Digits(a[2..]), Digits(b[2..]));
    LexIsNumeric(16, Digits(a[2..]), Digits(b[2..]));
  }

  // ---- Signing ----

  type Signature = b: Bytes | |b| == 65 witness seq(65, i => 0)

  ghost predicate DistinctSigners(signers: seq<Wallet>) {
    && (forall i :: 0 <= i < |signers| ==> IsAddress(signers[i].address))
    && (forall i, j :: 0 <= i < j < |signers| ==>
          AddressValue(signers[i].address) != AddressValue(signers[j].address))
  }

  function SortedByAddress(signers: seq<Wallet>): seq<Wallet> {
    SortBy(SortKey, signers)
  }

  /**
   `signers.sort(...)` reorders the caller's array; the signatures come back in that order.
   `sign` is a wallet's signature of the typed data, flattened to a hex string. One wallet
   that cannot sign is an error, found before anything is sorted.
   */
  method SignTypedData(signers: array<Wallet>, sign: Wallet -> Signature) returns (result: Result<seq<string>>)
    modifies signers
    ensures result.Err? <==> exists w :: w in old(signers[..]) && !w.signsTypedData
    ensures result.Err? ==> signers[..] == old(signers[..])
    ensures result.Ok? ==> signers[..] == SortedByAddress(old(signers[..]))
    ensures result.Ok? ==> result.value == Signatures(signers[..], sign)
  {
    if i :| 0 <= i < signers.Length && !signers[i].signsTypedData {
      assert signers[i] in signers[..];
      return Err("Signer._signTypedData not available. Upgrade to ethers >= v5.0.18.");
    }
    var sorted := SortedByAddress(signers[..]);
    SortBySorts(SortKey, signers[..]);
    assert |sorted| == |multiset(sorted)| == |multiset(signers[..])| == signers.Length;
    forall i | 0 <= i < signers.Length {
      signers[i] := sorted[i];
    }
    assert signers[..] == sorted;
    return Ok(Signatures(signers[..], sign));
  }

  function Signatures(signers: seq<Wallet>, sign: Wallet -> Signature): seq<string> {
    Map(w => "0x" + ToHex(sign(w)), signers)
  }

  function JoinSignatures(signatures: seq<string>): string {
    "0x" + Concat(Map(StripHexPrefix, signatures))
  }

  /** What a caller submits for a list of signers. */
  function Submitted(signers: seq<Wallet>, sign: Wallet -> Signature): Bytes {
    FromHex(StripHexPrefix(JoinSignatures(Signatures(SortedByAddress(signers), sign))))
  }

  lemma SortedSigners(signers: seq<Wallet>)
    requires DistinctSigners(signers)
    ensures |SortedByAddress(signers)| == |signers| && multiset(SortedByAddress(signers)) == multiset(signers)
    ensures forall i :: 0 <= i < |signers| ==> IsAddress(SortedByAddress(signers)[i].address)
    ensures forall i, j :: 0 <= i < j < |signers| ==>
              AddressValue(SortedByAddress(signers)[i].address) < AddressValue(SortedByAddress(signers)[j].address)
  {
    var s := SortedByAddress(signers);
    SortBySorts(SortKey, signers);
    assert |s| == |multiset(s)| == |multiset(signers)| == |signers|;
    forall i, j | 0 <= i < j < |signers| ensures SortKey(signers[i]) != SortKey(signers[j]) {
      AddressOrder(signers[i].address, signers[j].address);
    }
    DistinctKeysSortStrictly(SortKey, signers);
    forall i | 0 <= i < |signers| ensures IsAddress(s[i].address) {
      assert s[i] in multiset(signers);
    }
    forall i, j | 0 <= i < j < |signers| ensures AddressValue(s[i].address) < AddressValue(s[j].address) {
      StrictlyBelow(SortKey, s, i, j);
      AddressOrder(s[i].address, s[j].address);
    }
  }

  /** The order in which the signers are given does not matter. */
  lemma OrderOfSignersIrrelevant(a: seq<Wallet>, b: seq<Wallet>, sign: Wallet -> Signature)
    requires DistinctSigners(a) && DistinctSigners(b) && multiset(a) == multiset(b)
    ensures SortedByAddress(a) == SortedByAddress(b) && Submitted(a, sign) == Submitted(b, sign)
  {
    SortBySorts(SortKey, a);
    SortBySorts(SortKey, b);
    forall i, j | 0 <= i < j < |a| ensures SortKey(a[i]) != SortKey(a[j]) {
      AddressOrder(a[i].address, a[j].address);
    }
    forall i, j | 0 <= i < j < |b| ensures SortKey(b[i]) != SortKey(b[j]) {
      AddressOrder(b[i].address, b[j].address);
    }
    DistinctKeysSortStrictly(SortKey, a);
    DistinctKeysSortStrictly(SortKey, b);
    forall w ensures w in SortedByAddress(a) <==> w in SortedByAddress(b) {
      assert w in multiset(SortedByAddress(a)) <==> w in multiset(SortedByAddress(b));
    }
    StrictListingUnique(SortKey, SortedByAddress(a), SortedByAddress(b));
  }

  // ---- Taking the joined signatures apart ----

  function Pieces(signers: seq<Wallet>, sign: Wallet -> Signature): Bytes {
    if signers == [] then [] else sign(signers[0]) + Pieces(signers[1..], sign)
  }

  lemma {:induction false} JoinedIsPieces(signers: seq<Wallet>, sign: Wallet -> Signature)
    ensures Concat(Map(StripHexPrefix, Signatures(signers, sign))) == ToHex(Pieces(signers, sign))
  {
    if signers != [] {
      JoinedIsPieces(signers[1..], sign);
      StripUndoesPrefix(ToHex(sign(signers[0])));
      ToHexConcat(sign(signers[0]), Pieces(signers[1..], sign));
      assert Signatures(signers, sign)[1..] == Signatures(signers[1..], sign);
    }
  }

  lemma {:induction false} PieceAt(signers: seq<Wallet>, sign: Wallet -> Signature, i: nat)
    requires i < |signers|
    ensures |Pieces(signers, sign)| == 65 * |signers|
    ensures Pieces(signers, sign)[65 * i..65 * i + 65] == sign(signers[i])
  {
    var p, rest := Pieces(signers, sign), Pieces(signers[1..], sign);
    if i > 0 {
      PieceAt(signers[1..], sign, i - 1);
      assert p[65 * i..65 * i + 65] == rest[65 * (i - 1)..65 * (i - 1) + 65];
    } else if |signers| > 1 {
      PieceAt(signers[1..], sign, 0);
    }
  }

  /** What is submitted is 0x and the lowercase hex of the signatures one after the other. */
  lemma SubmittedString(signers: seq<Wallet>, sign: Wallet -> Signature)
    ensures JoinSignatures(Signatures(SortedByAddress(signers), sign)) == "0x" + ToHex(Submitted(signers, sign))
  {
    JoinedIsPieces(SortedByAddress(signers), sign);
    StripUndoesPrefix(ToHex(Pieces(SortedByAddress(signers), sign)));
    HexRoundTrip(Pieces(SortedByAddress(signers), sign));
  }

  /** Piece `i` of the submitted bytes is the signature of the signer with the i-th lowest address. */
  lemma SubmittedPieces(signers: seq<Wallet>, sign: Wallet -> Signature, i: nat)
    requires DistinctSigners(signers) && i < |signers|
    ensures |Submitted(signers, sign)| == 65 * |signers| && |SortedByAddress(signers)| == |signers|
    ensures Submitted(signers, sign)[65 * i..65 * i + 65] == sign(SortedByAddress(signers)[i])
  {
    SortedSigners(signers);
    JoinedIsPieces(SortedByAddress(signers), sign);
    StripUndoesPrefix(ToHex(Pieces(SortedByAddress(signers), sign)));
    HexRoundTrip(Pieces(SortedByAddress(signers), sign));
    PieceAt(SortedByAddress(signers), sign, i);
  }

  /** Read in 65-byte pieces, the submitted signatures come from strictly ascending addresses. */
  lemma RecoveredSignersAscend(recover: Bytes -> nat, sign: Wallet -> Signature, signers: seq<Wallet>, i: nat, j: nat)
    requires DistinctSigners(signers) && Recovers(recover, sign, signers) && i < j < |signers|
    ensures var b := Submitted(signers, sign);
            |b| == 65 * |signers| && recover(b[65 * i..65 * i + 65]) < recover(b[65 * j..65 * j + 65])
  {
    SubmittedPieces(signers, sign, i);
    SubmittedPieces(signers, sign, j);
    SortedSigners(signers);
    assert SortedByAddress(signers)[i] in multiset(signers) && SortedByAddress(signers)[j] in multiset(signers);
  }

  const SENTINEL_OWNER: nat := 1

  /** The contract's loop over the first `threshold` signatures. */
  function CheckFrom(owners: set<nat>, threshold: nat, recover: Bytes -> nat, signatures: Bytes, i: nat, last: nat)
    : bool
    requires |signatures| >= 65 * threshold
    decreases threshold - i
  {
    if i >= threshold then true
    else
      var current := recover(signatures[65 * i..65 * i + 65]);
      current > last && current in owners && current != SENTINEL_OWNER
      && CheckFrom(owners, threshold, recover, signatures, i + 1, current)
  }

  function CheckSignatures(owners: set<nat>, threshold: nat, recover: Bytes -> nat, signatures: Bytes): bool {
    threshold > 0 && |signatures| >= 65 * threshold && CheckFrom(owners, threshold, recover, signatures, 0, 0)
  }

  /** Signatures recover to the address of the wallet that made them. */
  ghost predicate Recovers(recover: Bytes -> nat, sign: Wallet -> Signature, signers: seq<Wallet>) {
    forall w :: w in signers && IsAddress(w.address) ==> recover(sign(w)) == AddressValue(w.address)
  }

  /** The signers' addresses, lowest first. */
  ghost function SortedAddresses(signers: seq<Wallet>): (r: seq<nat>)
    requires DistinctSigners(signers)
    ensures |r| == |signers| == |SortedByAddress(signers)|
    ensures forall i :: 0 <= i < |r| ==> IsAddress(SortedByAddress(signers)[i].address)
                                         && r[i] == AddressValue(SortedByAddress(signers)[i].address)
    ensures forall i, j :: 0 <= i < j < |r| ==> r[i] < r[j]
  {
    SortedSigners(signers);
    seq(|signers|, i requires 0 <= i < |signers| => AddressValue(SortedByAddress(signers)[i].address))
  }

  ghost predicate Owns(owners: set<nat>, address: nat) {
    address in owners && address != 1
  }

  lemma {:induction false} CheckFromMeaning(owners: set<nat>, threshold: nat, recover: Bytes -> nat, b: Bytes,
                                            addresses: seq<nat>, i: nat, last: nat)
    requires |b| == 65 * |addresses| && i <= threshold <= |addresses| && 0 !in owners
    requires forall k :: 0 <= k < |addresses| ==> recover(b[65 * k..65 * k + 65]) == addresses[k]
    requires forall k, l :: 0 <= k < l < |addresses| ==> addresses[k] < addresses[l]
    requires last == if i == 0 then 0 else addresses[i - 1]
    ensures CheckFrom(owners, threshold, recover, b, i, last) <==>
            forall k :: i <= k < threshold ==> Owns(owners, addresses[k])
    decreases threshold - i
  {
    if i < threshold {
      CheckFromMeaning(owners, threshold, recover, b, addresses, i + 1, addresses[i]);
    }
  }

  /**
   The contract accepts what is submitted exactly when there are enough signers and the
   `threshold` lowest-addressed ones are owners; the order is never the reason to reject.
   */
  lemma AcceptedExactlyForOwners(owners: set<nat>, threshold: nat, recover: Bytes -> nat,
                                 sign: Wallet -> Signature, signers: seq<Wallet>)
    requires DistinctSigners(signers) && Recovers(recover, sign, signers) && 0 !in owners
    ensures CheckSignatures(owners, threshold, recover, Submitted(signers, sign)) <==>
            0 < threshold <= |signers|
            && forall k :: 0 <= k < threshold ==> Owns(owners, SortedAddresses(signers)[k])
  {
    SubmittedLength(signers, sign);
    var addresses, b := SortedAddresses(signers), Submitted(signers, sign);
    forall k | 0 <= k < |signers| ensures recover(b[65 * k..65 * k + 65]) == addresses[k] {
      SubmittedPieces(signers, sign, k);
      SortedSigners(signers);
      assert SortedByAddress(signers)[k] in multiset(signers);
    }
    if 0 < threshold <= |signers| {
      CheckFromMeaning(owners, threshold, recover, b, addresses, 0, 0);
    }
  }

  lemma SubmittedLength(signers: seq<Wallet>, sign: Wallet -> Signature)
    requires DistinctSigners(signers)
    ensures |Submitted(signers, sign)| == 65 * |signers|
  {
    if signers == [] {
      assert Submitted(signers, sign) == [];
    } else {
      SubmittedPieces(signers, sign, 0);
    }
  }
}
