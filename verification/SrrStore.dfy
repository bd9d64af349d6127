/**
 Entities and events of the SRR index, and the effect of one event on the store as a single
 atomic step, one function per entity table.
 */
module SrrStore {
  import opened Wrappers
  import opened Bytes

  type Address = Bytes

  const ZERO_ADDRESS: Address := [0, 0, 0, 0, 0, 0, 0, 0, 0, 0, 0, 0, 0, 0, 0, 0, 0, 0, 0, 0]

  datatype Srr = Srr(
    id: string,
    tokenId: Option<string>,
    collection: Option<string>,
    isPrimaryIssuer: Option<bool>,
    artist: Option<string>,
    artistAddress: Option<Address>,
    issuer: Option<string>,
    ownerAddress: Option<Address>,
    metadataDigest: Option<string>,
    transferCommitment: Option<Bytes>,
    lockExternalTransfer: Option<bool>,
    royaltyReceiver: Option<Address>,
    royaltyBasisPoints: Option<nat>,
    originChain: Option<string>,
    originTxHash: Option<Bytes>,
    createdAt: Option<nat>,
    updatedAt: Option<nat>)

  function NewSrr(id: string): Srr {
    Srr(id, None, None, None, None, None, None, None, None, None, None, None, None, None, None, None, None)
  }

  datatype LastAction = Approve | Cancel | Moved

  datatype TransferCommit = TransferCommit(
    id: string,
    commitment: Option<Bytes>,
    customHistory: Option<string>,
    lastAction: Option<LastAction>,
    sender: Option<Address>,
    createdAt: Option<nat>,
    updatedAt: Option<nat>)

  function NewTransferCommit(id: string): TransferCommit {
    TransferCommit(id, None, None, None, None, None, None)
  }

  datatype ProvenanceRecord = ProvenanceRecord(
    srr: string,
    from: Address,
    to: Address,
    sender: Option<Address>,
    metadataDigest: string,
    metadataURI: string,
    customHistory: Option<string>,
    isIntermediary: bool,
    timestamp: nat,
    createdAt: nat)

  datatype HistoryRecord = HistoryRecord(srr: string, customHistory: string, createdAt: nat)

  datatype MetadataRecord = MetadataRecord(srr: string, metadataDigest: string, createdAt: nat)

  datatype Store = Store(
    srrs: map<string, Srr>,
    commits: map<string, TransferCommit>,
    provenances: map<string, ProvenanceRecord>,
    histories: map<string, HistoryRecord>,
    metadata: map<string, MetadataRecord>,
    wallets: set<string>)

  const EMPTY_STORE := Store(map[], map[], map[], map[], map[], {})

  /**
   Live and migration events. `time` is in seconds: the block's timestamp for a live event,
   the origin chain's for a migrated one. `tx` and `logIndex` say where the event was logged,
   `txHash` is the hash recorded as the SRR's origin.
   */
  datatype Event =
    | Transfer(address: Address, tokenId: nat, from: Address, to: Address, time: nat, txHash: Bytes)
    | Provenance(address: Address, tokenId: nat, from: Address, to: Address, customHistoryId: Option<nat>,
                 historyMetadataHash: Option<string>, historyMetadataURI: Option<string>,
                 isIntermediary: bool, sender: Option<Address>, time: nat)
    | Commitment(address: Address, tokenId: nat, commitment: Bytes, customHistoryId: Option<nat>,
                 sender: Option<Address>, time: nat)
    | CommitmentCancelled(address: Address, tokenId: nat, sender: Option<Address>, time: nat)
    | CreateSrr(address: Address, tokenId: nat, inCollection: bool, isPrimaryIssuer: bool, artist: Address,
                issuer: Address, digest: string, lock: bool, time: nat, tx: Bytes, logIndex: nat)
    | UpdateSrr(address: Address, tokenId: nat, isPrimaryIssuer: bool, artist: Address, time: nat)
    | UpdateMetadata(address: Address, tokenId: nat, digest: string, time: nat, tx: Bytes, logIndex: nat)
    | LockExternalTransfer(address: Address, tokenId: nat, lock: bool)
    | RoyaltiesSet(address: Address, tokenId: nat, receiver: Address, basisPoints: nat, time: nat)
    | History(address: Address, tokenIds: seq<nat>, customHistoryIds: seq<nat>, time: nat)
    | TransferFromMigration(address: Address, tokenId: nat, from: Address, to: Address, time: nat, txHash: Bytes)
    | CreateSrrFromMigration(address: Address, tokenId: nat, isPrimaryIssuer: bool, artist: Address,
                             issuer: Address, digest: string, time: nat, txHash: Bytes, tx: Bytes,
                             logIndex: nat)
    | MigrateSrr(address: Address, tokenId: nat, originChain: string)
    | ProvenanceDateFix(address: Address, tokenId: nat, originTimestamp: nat)
    | WalletCreated(wallet: string)

  // ---- Ids ----

  /** The hash function, on bytes and on strings, the bytes of a token id, and the network the index runs on. */
  datatype Env = Env(
    keccak: Bytes -> Bytes32,
    keccakUtf8: string -> Bytes32,
    bigIntBytes: nat -> Bytes,
    chainId: string)

  function SrrEntityId(env: Env, address: Address, tokenId: nat): (id: string)
    ensures |id| == 66
  {
    "0x" + ToHex(env.keccak(address + env.bigIntBytes(tokenId)))
  }

  /** Absent collisions, tokens of equally long addresses have different ids. */
  lemma EntityIdInjective(env: Env, a: Address, m: nat, b: Address, n: nat)
    requires |a| == |b| && CollisionFree(env.bigIntBytes, {m, n})
    requires CollisionFree(env.keccak, {a + env.bigIntBytes(m), b + env.bigIntBytes(n)})
    requires SrrEntityId(env, a, m) == SrrEntityId(env, b, n)
    ensures a == b && m == n
  {
    var p, q := a + env.bigIntBytes(m), b + env.bigIntBytes(n);
    assert SrrEntityId(env, a, m)[2..] == ToHex(env.keccak(p)) && SrrEntityId(env, b, n)[2..] == ToHex(env.keccak(q));
    ToHexInjective(env.keccak(p), env.keccak(q));
    assert p[..|a|] == a && q[..|a|] == b;
    assert p[|a|..] == env.bigIntBytes(m) && q[|a|..] == env.bigIntBytes(n);
  }

  function HashId(env: Env, preimage: string): string {
    "0x" + ToHex(env.keccakUtf8(preimage))
  }

  lemma HashIdInjective(env: Env, x: string, y: string, hashed: set<string>)
    requires CollisionFree(env.keccakUtf8, hashed) && x in hashed && y in hashed
    requires HashId(env, x) == HashId(env, y)
    ensures x == y
  {
    assert HashId(env, x)[2..] == ToHex(env.keccakUtf8(x));
    assert HashId(env, y)[2..] == ToHex(env.keccakUtf8(y));
    ToHexInjective(env.keccakUtf8(x), env.keccakUtf8(y));
  }

  /** The strings hashed into provenance ids separate their two parts. */
  lemma PreimageInjective(id: string, m: nat, id': string, m': nat)
    requires |id| == |id'| && id + Decimal(m) == id' + Decimal(m')
    ensures id == id' && m == m'
  {
    var p, q := id + Decimal(m), id' + Decimal(m');
    assert p[..|id|] == q[..|id|] && p[|id|..] == q[|id|..];
    DecimalInjective(m, m');
  }

  function Millis(seconds: nat): nat { seconds * 1000 }

  function WalletId(wallets: set<string>, address: Address): Option<string> {
    var id := "0x" + ToHex(address);
    if id in wallets then Some(id) else None
  }

  function LowerHex(s: string): string {
    if s == [] then ""
    else [if IsHexDigit(s[0]) then LowerDigit(HexValue(s[0])) else s[0]] + LowerHex(s[1..])
  }

  /** A 64-character hash is a bare hex digest and gets its prefix back; anything else is a CID. */
  function MetadataDigest(hash: Option<string>): string {
    match hash
    case None => ""
    case Some(h) => if |h| == 64 then "0x" + LowerHex(StripHexPrefix(h)) else h
  }

  ghost predicate IsHexString(s: string) {
    forall i :: 0 <= i < |s| ==> IsHexDigit(s[i])
  }

  /** Sixty-four hex digits get a prefix and lower case, nothing else is touched. */
  lemma DigestMeaning(h: string)
    ensures |h| != 64 ==> MetadataDigest(Some(h)) == h
    ensures |h| == 64 && IsHexString(h) ==>
              var d := MetadataDigest(Some(h));
              && |d| == 66 && d[..2] == "0x"
              && forall i :: 0 <= i < 64 ==>
                   IsLowerHex(d[2 + i]) && IsHexDigit(d[2 + i]) && HexValue(d[2 + i]) == HexValue(h[i])
    ensures |h| == 64 && (forall i :: 0 <= i < 64 ==> IsLowerHex(h[i])) ==> MetadataDigest(Some(h)) == "0x" + h
  {
    if |h| == 64 && IsHexString(h) {
      assert h[1] != 'x';
      assert StripHexPrefix(h) == h;
      LowerHexMeaning(h);
    }
  }

  lemma {:induction false} LowerHexMeaning(h: string)
    requires IsHexString(h)
    ensures |LowerHex(h)| == |h|
    ensures forall i :: 0 <= i < |h| ==>
              IsLowerHex(LowerHex(h)[i]) && IsHexDigit(LowerHex(h)[i]) && HexValue(LowerHex(h)[i]) == HexValue(h[i])
    ensures (forall i :: 0 <= i < |h| ==> IsLowerHex(h[i])) ==> LowerHex(h) == h
  {
    if h != "" {
      LowerHexMeaning(h[1..]);
      assert h == [h[0]] + h[1..];
      forall i | 0 <= i < |h|
        ensures IsLowerHex(LowerHex(h)[i]) && HexValue(LowerHex(h)[i]) == HexValue(h[i])
      {
        if i > 0 { assert LowerHex(h)[i] == LowerHex(h[1..])[i - 1]; }
      }
      if forall i :: 0 <= i < |h| ==> IsLowerHex(h[i]) {
        assert forall i :: 0 <= i < |h[1..]| ==> IsLowerHex(h[1..][i]);
      }
    }
  }

  function CustomHistoryRef(id: Option<nat>): Option<string> {
    match id
    case None => None
    case Some(n) => Some(Decimal(n))
  }

  function OrElse<T>(a: Option<T>, b: Option<T>): Option<T> {
    if a.Some? then a else b
  }

  // ---- One event, one step ----

  /** The SRR an event is about; `History` events and wallets concern none. */
  function Subject(env: Env, e: Event): Option<string> {
    if e.History? || e.WalletCreated? then None else Some(SrrEntityId(env, e.address, e.tokenId))
  }

  predicate IsMint(e: Event)
    requires e.Transfer? || e.TransferFromMigration?
  {
    e.from == ZERO_ADDRESS
  }

  /** A non-mint transfer, live or migrated: it moves the token and voids its commitment. */
  predicate Moves(e: Event) {
    (e.Transfer? || e.TransferFromMigration?) && !IsMint(e)
  }

  /** Events that introduce an SRR when it is not indexed yet. */
  predicate Creates(e: Event) {
    (e.Transfer? && IsMint(e)) || e.TransferFromMigration? || e.CreateSrrFromMigration?
  }

  /**
   Indexing stops at a non-mint transfer of an unknown SRR, whose entity has no creation date
   to save, and at a registry CreateSRR for one, which has no entity to work on.
   */
  predicate Aborts(env: Env, st: Store, e: Event) {
    ((e.Transfer? && !IsMint(e)) || (e.CreateSrr? && !e.inCollection))
    && SrrEntityId(env, e.address, e.tokenId) !in st.srrs
  }

  /** Every field the schema requires has a value. */
  predicate Complete(srr: Srr) {
    srr.createdAt.Some? && srr.updatedAt.Some?
  }

  /** The entity a creating event starts from when the SRR is not indexed yet. */
  function Born(env: Env, e: Event): Srr
    requires Creates(e)
  {
    var srr := NewSrr(SrrEntityId(env, e.address, e.tokenId)).(
      tokenId := Some(Decimal(e.tokenId)), originTxHash := Some(e.txHash));
    match e
    case Transfer(_, _, _, _, _, _) =>
      srr.(lockExternalTransfer := Some(false), originChain := Some(env.chainId),
           createdAt := Some(Millis(e.time)))
    case TransferFromMigration(_, _, _, _, _, _) =>
      srr.(originChain := Some(env.chainId), createdAt := Some(Millis(e.time)))
    case CreateSrrFromMigration(_, _, _, _, _, _, _, _, _, _) =>
      srr.(createdAt := Some(Millis(e.time)))
  }

  function Described(wallets: set<string>, srr: Srr, e: Event): Srr
    requires e.CreateSrr? || e.CreateSrrFromMigration?
  {
    srr.(isPrimaryIssuer := Some(e.isPrimaryIssuer), metadataDigest := Some(e.digest),
         lockExternalTransfer := Some(e.CreateSrr? && e.lock),
         artistAddress := Some(e.artist), artist := WalletId(wallets, e.artist),
         issuer := WalletId(wallets, e.issuer), updatedAt := Some(Millis(e.time)))
  }

  function SrrAfter(env: Env, wallets: set<string>, srr: Srr, e: Event): Srr {
    match e
    case Transfer(_, _, _, to, time, _) =>
      srr.(ownerAddress := Some(to), updatedAt := Some(Millis(time)),
           transferCommitment := if IsMint(e) then srr.transferCommitment else None)
    case TransferFromMigration(_, _, _, to, time, _) =>
      srr.(ownerAddress := Some(to), updatedAt := Some(Millis(time)),
           transferCommitment := if IsMint(e) then srr.transferCommitment else None)
    case Provenance(_, _, _, to, _, _, _, _, _, time) =>
      srr.(ownerAddress := Some(to), updatedAt := Some(Millis(time)))
    case Commitment(_, _, c, _, _, time) =>
      srr.(transferCommitment := Some(c), updatedAt := Some(Millis(time)))
    case CommitmentCancelled(_, _, _, time) =>
      srr.(transferCommitment := None, updatedAt := Some(Millis(time)))
    case CreateSrr(address, _, inCollection, _, _, _, _, _, _, _, _) =>
      Described(wallets, if inCollection then srr.(collection := Some("0x" + ToHex(address))) else srr, e)
    case CreateSrrFromMigration(_, _, _, _, _, _, _, _, _, _) => Described(wallets, srr, e)
    case UpdateSrr(_, _, primary, artist, time) =>
      if WalletId(wallets, artist) == None then srr
      else srr.(isPrimaryIssuer := Some(primary), artistAddress := Some(artist),
                artist := WalletId(wallets, artist), updatedAt := Some(Millis(time)))
    case UpdateMetadata(_, _, digest, time, _, _) =>
      srr.(metadataDigest := Some(digest), updatedAt := Some(Millis(time)))
    case LockExternalTransfer(_, _, lock) => srr.(lockExternalTransfer := Some(lock))
    case RoyaltiesSet(_, _, receiver, points, time) =>
      srr.(royaltyReceiver := Some(receiver), royaltyBasisPoints := Some(points), updatedAt := Some(Millis(time)))
    case MigrateSrr(_, _, chain) => srr.(originChain := Some(chain))
    case ProvenanceDateFix(_, _, _) => srr
    case History(_, _, _, _) => srr
    case WalletCreated(_) => srr
  }

  function SrrsAfter(env: Env, st: Store, e: Event): map<string, Srr> {
    match Subject(env, e)
    case None => st.srrs
    case Some(id) =>
      if id in st.srrs then st.srrs[id := SrrAfter(env, st.wallets, st.srrs[id], e)]
      else if Creates(e) then st.srrs[id := SrrAfter(env, st.wallets, Born(env, e), e)]
      else st.srrs
  }

  function CommitsAfter(env: Env, st: Store, e: Event): map<string, TransferCommit> {
    match Subject(env, e)
    case None => st.commits
    case Some(id) =>
      if e.Commitment? && id in st.srrs then
        var c := if id in st.commits then st.commits[id]
                 else NewTransferCommit(id).(createdAt := Some(Millis(e.time)));
        st.commits[id := c.(commitment := Some(e.commitment), lastAction := Some(Approve),
                            customHistory := OrElse(CustomHistoryRef(e.customHistoryId), c.customHistory),
                            sender := OrElse(e.sender, c.sender), updatedAt := Some(Millis(e.time)))]
      else if e.CommitmentCancelled? && id in st.srrs && id in st.commits then
        var c := st.commits[id];
        st.commits[id := c.(commitment := None, lastAction := Some(Cancel),
                            sender := OrElse(e.sender, c.sender), updatedAt := Some(Millis(e.time)))]
      else if Moves(e) && id in st.commits && (id in st.srrs || Creates(e)) then
        st.commits[id := st.commits[id].(commitment := None, lastAction := Some(Moved),
                                         updatedAt := Some(Millis(e.time)))]
      else st.commits
  }

  /** Events that leave a provenance: explicit ones, and live transfers other than mints. */
  predicate Traces(e: Event) {
    e.Provenance? || (e.Transfer? && !IsMint(e))
  }

  function Trace(env: Env, e: Event): ProvenanceRecord
    requires Traces(e)
  {
    var id, at := SrrEntityId(env, e.address, e.tokenId), Millis(e.time);
    if e.Transfer? then ProvenanceRecord(id, e.from, e.to, None, "", "", None, false, at, at)
    else ProvenanceRecord(id, e.from, e.to, e.sender, MetadataDigest(e.historyMetadataHash),
                          if e.historyMetadataURI.Some? then e.historyMetadataURI.value else "",
                          CustomHistoryRef(e.customHistoryId), e.isIntermediary, at, at)
  }

  function Redated(p: ProvenanceRecord, at: nat): ProvenanceRecord {
    p.(timestamp := at, createdAt := at)
  }

  /** The event time, in milliseconds, of the migrated provenances whose date is corrected. */
  const MISDATED: nat := 66000

  function ProvenancesAfter(env: Env, st: Store, e: Event): map<string, ProvenanceRecord> {
    if Traces(e) then
      var id := SrrEntityId(env, e.address, e.tokenId);
      var key := HashId(env, id + Decimal(Millis(e.time)));
      if id in st.srrs && key !in st.provenances
      then st.provenances[key := Trace(env, e)] else st.provenances
    else if e.ProvenanceDateFix? then
      var key := HashId(env, SrrEntityId(env, e.address, e.tokenId) + "66000");
      if key in st.provenances
      then st.provenances[key := Redated(st.provenances[key], e.originTimestamp)] else st.provenances
    else st.provenances
  }

  /** Later pairs overwrite earlier ones with the same id. */
  function AddHistories(env: Env, m: map<string, HistoryRecord>, srrId: string, histories: seq<nat>, at: nat)
    : map<string, HistoryRecord>
  {
    if histories == [] then m
    else
      var n := |histories| - 1;
      AddHistories(env, m, srrId, histories[..n], at)[
        HashId(env, srrId + Decimal(histories[n])) := HistoryRecord(srrId, Decimal(histories[n]), at)]
  }

  function AddAllHistories(env: Env, m: map<string, HistoryRecord>, address: Address, tokenIds: seq<nat>,
                           histories: seq<nat>, at: nat): map<string, HistoryRecord>
  {
    if tokenIds == [] then m
    else
      var n := |tokenIds| - 1;
      AddHistories(env, AddAllHistories(env, m, address, tokenIds[..n], histories, at),
                   SrrEntityId(env, address, tokenIds[n]), histories, at)
  }

  function HistoriesAfter(env: Env, st: Store, e: Event): map<string, HistoryRecord> {
    if e.History?
    then AddAllHistories(env, st.histories, e.address, e.tokenIds, e.customHistoryIds, Millis(e.time))
    else st.histories
  }

  /** `n.toHex()` of a number: no leading zeros. */
  function HexNumber(n: nat): string {
    "0x" + HexDigits(n)
  }

  function HexDigits(n: nat): string {
    if n < 16 then [LowerDigit(n)] else HexDigits(n / 16) + [LowerDigit(n % 16)]
  }

  /** The hex digits denote the number, without leading zeros. */
  lemma {:induction false} HexNumberMeaning(n: nat)
    ensures forall i :: 0 <= i < |HexDigits(n)| ==> IsHexDigit(HexDigits(n)[i]) && IsLowerHex(HexDigits(n)[i])
    ensures Value(16, HexValues(HexDigits(n))) == n
    ensures HexDigits(n) != "" && (HexDigits(n)[0] == '0' <==> n == 0)
  {
    var s := HexDigits(n);
    if n >= 16 {
      HexNumberMeaning(n / 16);
      assert s[..|s| - 1] == HexDigits(n / 16) && HexValue(s[|s| - 1]) == n % 16;
      assert HexValues(s)[..|s| - 1] == HexValues(HexDigits(n / 16));
    } else {
      assert HexValues(s)[..0] == [];
    }
  }

  /** Events that give an SRR its metadata digest. */
  predicate Describes(e: Event) {
    e.CreateSrr? || e.CreateSrrFromMigration? || e.UpdateMetadata?
  }

  function MetadataId(env: Env, e: Event): string
    requires Describes(e)
  {
    HashId(env, "0x" + ToHex(e.tx) + HexNumber(e.logIndex) + e.digest)
  }

  function MetadataOf(env: Env, e: Event): MetadataRecord
    requires Describes(e)
  {
    MetadataRecord(SrrEntityId(env, e.address, e.tokenId), e.digest, Millis(e.time))
  }

  function MetadataAfter(env: Env, st: Store, e: Event): map<string, MetadataRecord> {
    if Describes(e) && (SrrEntityId(env, e.address, e.tokenId) in st.srrs || Creates(e))
    then st.metadata[MetadataId(env, e) := MetadataOf(env, e)]
    else st.metadata
  }

  function WalletsAfter(st: Store, e: Event): set<string> {
    if e.WalletCreated? then st.wallets + {e.wallet} else st.wallets
  }

  function Step(env: Env, st: Store, e: Event): Store {
    Store(SrrsAfter(env, st, e), CommitsAfter(env, st, e), ProvenancesAfter(env, st, e),
          HistoriesAfter(env, st, e), MetadataAfter(env, st, e), WalletsAfter(st, e))
  }

  /** An event at which indexing stops leaves no mark. */
  lemma AbortedLeavesNoMark(env: Env, st: Store, e: Event)
    requires Aborts(env, st, e)
    ensures Step(env, st, e) == st
  {
  }

  function Run(env: Env, st: Store, events: seq<Event>): Store {
    if events == [] then st
    else Step(env, Run(env, st, events[..|events| - 1]), events[|events| - 1])
  }

  /** No event of the run aborts. */
  ghost predicate GoesThrough(env: Env, st: Store, events: seq<Event>) {
    events == [] ||
    (GoesThrough(env, st, events[..|events| - 1])
     && !Aborts(env, Run(env, st, events[..|events| - 1]), events[|events| - 1]))
  }
}
