/**
 The event handlers of the SRR index. An entity is loaded as a copy, changed, and saved over
 the stored one; handlers call each other and load copies of their own. Every handler is
 proved to have the effect of the one atomic step of its event.
 */
module SrrHandlers {
  import opened Wrappers
  import opened Bytes
  import opened SrrStore

  class Subgraph {
    const env: Env
    var srrs: map<string, Srr>
    var commits: map<string, TransferCommit>
    var provenances: map<string, ProvenanceRecord>
    var histories: map<string, HistoryRecord>
    var metadata: map<string, MetadataRecord>
    var wallets: set<string>

    constructor (env: Env)
      ensures this.env == env && Valid() && State() == EMPTY_STORE
    {
      this.env := env;
      srrs, commits, provenances, histories, metadata, wallets := map[], map[], map[], map[], map[], {};
    }

    function State(): Store
      reads this
    {
      Store(srrs, commits, provenances, histories, metadata, wallets)
    }

    // ---- Entity store ----

    /** The store refuses an entity that lacks a required field, and the handler aborts. */
    method SaveSrr(srr: Srr) returns (saved: bool)
      modifies this`srrs
      ensures saved <==> Complete(srr)
      ensures srrs == if saved then old(srrs)[srr.id := srr] else old(srrs)
    {
      if srr.createdAt.None? || srr.updatedAt.None? {
        return false;
      }
      srrs := srrs[srr.id := srr];
      return true;
    }

    method SaveCommit(commit: TransferCommit)
      modifies this`commits
      ensures commits == old(commits)[commit.id := commit]
    {
      commits := commits[commit.id := commit];
    }

    /** Entities are stored under their own id, SRRs complete. */
    ghost predicate Valid()
      reads this
    {
      && (forall id :: id in srrs ==> srrs[id].id == id && Complete(srrs[id]))
      && (forall id :: id in commits ==> commits[id].id == id)
    }

    // ---- Handlers ----

    method HandleTransfer(e: Event) returns (aborted: bool)
      requires Valid() && e.Transfer?
      modifies this
      ensures Valid() && State() == Step(env, old(State()), e)
      ensures aborted <==> Aborts(env, old(State()), e)
    {
      ghost var st := State();
      aborted := TransferToken(e);
      TransferIsOneStep(env, st, e, aborted, State());
    }

    method TransferToken(e: Event) returns (aborted: bool)
      requires Valid() && e.Transfer?
      modifies this
      ensures Valid() && TransferEffect(env, old(State()), e, aborted, State())
    {
      var timestampMillis := Millis(e.time);
      var isMint := e.from == ZERO_ADDRESS;
      var srrId := SrrEntityId(env, e.address, e.tokenId);
      var srr := LoadOrCreateForTransfer(e, srrId, isMint, timestampMillis);
      srr := srr.(ownerAddress := Some(e.to), updatedAt := Some(timestampMillis));
      var saved := SaveSrr(srr);
      if !saved {
        return true;
      }
      if !isMint {
        RecordMove(srr, e.from, e.to, timestampMillis);
      }
      return false;
    }

    /** The first lines of the transfer handler: the stored SRR, or a new one not yet saved. */
    method LoadOrCreateForTransfer(e: Event, srrId: string, isMint: bool, timestampMillis: nat) returns (srr: Srr)
      requires Valid() && e.Transfer? && srrId == SrrEntityId(env, e.address, e.tokenId)
      requires isMint == IsMint(e) && timestampMillis == Millis(e.time)
      ensures srrId in srrs ==> srr == srrs[srrId]
      ensures srrId !in srrs ==> srr == if isMint then Born(env, e) else srr.(id := srrId, createdAt := None)
    {
      if srrId in srrs {
        return srrs[srrId];
      }
      srr := NewSrr(srrId);
      srr := srr.(tokenId := Some(Decimal(e.tokenId)), lockExternalTransfer := Some(false));
      srr := srr.(originChain := Some(env.chainId), originTxHash := Some(e.txHash));
      if isMint {
        srr := srr.(createdAt := Some(timestampMillis));
      }
    }

    /**
     The last lines of the transfer handler: the provenance handler saves its own copy of the
     SRR, then `srr` is saved over it without the commitment.
     */
    method RecordMove(srr: Srr, from: Address, to: Address, timestampMillis: nat)
      requires Valid() && srr.id in srrs && srr == srrs[srr.id]
      requires srr.ownerAddress == Some(to) && srr.updatedAt == Some(timestampMillis)
      modifies this`srrs, this`commits, this`provenances
      ensures Valid() && srrs == old(srrs)[srr.id := srr.(transferCommitment := None)]
      ensures commits == (if srr.id !in old(commits) then old(commits)
                          else old(commits)[srr.id := old(commits)[srr.id].(
                                 commitment := None, lastAction := Some(Moved), updatedAt := Some(timestampMillis))])
      ensures var key := HashId(env, srr.id + Decimal(timestampMillis));
              provenances == (if key in old(provenances) then old(provenances)
                              else old(provenances)[key := ProvenanceRecord(
                                     srr.id, from, to, None, "", "", None, false, timestampMillis, timestampMillis)])
    {
      HandleProvenanceInternal(timestampMillis, srr.id, from, to, None, None, None, false, None);
      var cleared := CheckAndClearCommitOnTransfer(srr, timestampMillis);
      var _ := SaveSrr(cleared);
    }

    method HandleProvenanceInternal(eventTimestampMillis: nat, srrId: string, from: Address, to: Address,
                                    customHistoryId: Option<nat>, historyMetadataHash: Option<string>,
                                    historyMetadataURI: Option<string>, isIntermediary: bool,
                                    sender: Option<Address>)
      requires Valid()
      modifies this`srrs, this`provenances
      ensures Valid()
      ensures srrId !in old(srrs) ==> srrs == old(srrs) && provenances == old(provenances)
      ensures srrId in old(srrs) ==>
                srrs == old(srrs)[srrId := old(srrs)[srrId].(ownerAddress := Some(to),
                                                             updatedAt := Some(eventTimestampMillis))]
      ensures srrId in old(srrs) ==>
                var key := HashId(env, srrId + Decimal(eventTimestampMillis));
                provenances ==
                if key in old(provenances) then old(provenances)
                else old(provenances)[key := ProvenanceRecord(
                  srrId, from, to, sender, MetadataDigest(historyMetadataHash),
                  if historyMetadataURI.Some? then historyMetadataURI.value else "",
                  CustomHistoryRef(customHistoryId), isIntermediary,
                  eventTimestampMillis, eventTimestampMillis)]
    {
      if srrId !in srrs {
        return;
      }
      var srr := srrs[srrId];
      srr := srr.(ownerAddress := Some(to), updatedAt := Some(eventTimestampMillis));
      var _ := SaveSrr(srr);

      var provenanceId := HashId(env, srrId + Decimal(eventTimestampMillis));
      if provenanceId !in provenances {
        var provenance := ProvenanceRecord(srr.id, from, to, None, "", "", None, isIntermediary,
                                           eventTimestampMillis, eventTimestampMillis);
        if sender.Some? {
          provenance := provenance.(sender := sender);
        }
        if historyMetadataHash.Some? {
          provenance := provenance.(metadataDigest := MetadataDigest(historyMetadataHash));
        }
        if historyMetadataURI.Some? {
          provenance := provenance.(metadataURI := historyMetadataURI.value);
        }
        if customHistoryId.Some? {
          provenance := provenance.(customHistory := Some(Decimal(customHistoryId.value)));
        }
        provenances := provenances[provenanceId := provenance];
      }
    }

    /** Clears the stored commit and returns the caller's SRR copy without its commitment. */
    method CheckAndClearCommitOnTransfer(srr: Srr, eventTime: nat) returns (cleared: Srr)
      requires Valid()
      modifies this`commits
      ensures Valid() && cleared == srr.(transferCommitment := None)
      ensures commits ==
              if srr.id in old(commits)
              then old(commits)[srr.id := old(commits)[srr.id].(
                     commitment := None, lastAction := Some(Moved), updatedAt := Some(eventTime))]
              else old(commits)
    {
      if srr.id in commits {
        var srrCommit := commits[srr.id];
        srrCommit := srrCommit.(commitment := None, lastAction := Some(Moved));
        srrCommit := srrCommit.(updatedAt := Some(eventTime));
        SaveCommit(srrCommit);
      }
      cleared := srr.(transferCommitment := None);
    }

    method HandleProvenance(e: Event)
      requires Valid() && e.Provenance?
      modifies this
      ensures Valid() && State() == Step(env, old(State()), e)
    {
      HandleProvenanceInternal(Millis(e.time), SrrEntityId(env, e.address, e.tokenId), e.from, e.to,
                               e.customHistoryId, e.historyMetadataHash, e.historyMetadataURI,
                               e.isIntermediary, e.sender);
    }

    method HandleCommitment(e: Event)
      requires Valid() && e.Commitment?
      modifies this
      ensures Valid() && State() == Step(env, old(State()), e)
    {
      var at, srrId := Millis(e.time), SrrEntityId(env, e.address, e.tokenId);
      if srrId !in srrs {
        return;
      }
      var srr := srrs[srrId];
      srr := srr.(transferCommitment := Some(e.commitment), updatedAt := Some(at));
      var _ := SaveSrr(srr);

      var srrCommit: TransferCommit;
      if srrId in commits {
        srrCommit := commits[srrId];
      } else {
        srrCommit := NewTransferCommit(srrId);
        srrCommit := srrCommit.(createdAt := Some(at));
      }
      srrCommit := srrCommit.(commitment := srr.transferCommitment, lastAction := Some(Approve));
      if e.customHistoryId.Some? {
        srrCommit := srrCommit.(customHistory := Some(Decimal(e.customHistoryId.value)));
      }
      if e.sender.Some? {
        srrCommit := srrCommit.(sender := e.sender);
      }
      srrCommit := srrCommit.(updatedAt := Some(at));
      SaveCommit(srrCommit);
    }

    method HandleCommitmentCancelled(e: Event)
      requires Valid() && e.CommitmentCancelled?
      modifies this
      ensures Valid() && State() == Step(env, old(State()), e)
    {
      var at, srrId := Millis(e.time), SrrEntityId(env, e.address, e.tokenId);
      if srrId !in srrs {
        return;
      }
      var srr := srrs[srrId];
      srr := srr.(transferCommitment := None, updatedAt := Some(at));
      var _ := SaveSrr(srr);

      if srrId !in commits {
        return;
      }
      var srrCommit := commits[srrId];
      if e.sender.Some? {
        srrCommit := srrCommit.(sender := e.sender);
      }
      srrCommit := srrCommit.(lastAction := Some(Cancel), commitment := None);
      srrCommit := srrCommit.(updatedAt := Some(at));
      SaveCommit(srrCommit);
    }

    method HandleTransferFromMigration(e: Event)
      requires Valid() && e.TransferFromMigration?
      modifies this
      ensures Valid() && State() == Step(env, old(State()), e)
    {
      var at, srrId := Millis(e.time), SrrEntityId(env, e.address, e.tokenId);
      var srr: Srr;
      if srrId in srrs {
        srr := srrs[srrId];
      } else {
        srr := NewSrr(srrId);
        srr := srr.(tokenId := Some(Decimal(e.tokenId)), createdAt := Some(at));
        srr := srr.(originChain := Some(env.chainId), originTxHash := Some(e.txHash));
      }
      if e.from != ZERO_ADDRESS {
        srr := CheckAndClearCommitOnTransfer(srr, at);
      }
      srr := srr.(ownerAddress := Some(e.to), updatedAt := Some(at));
      var _ := SaveSrr(srr);
    }

    method HandleCreateSrrFromMigration(e: Event)
      requires Valid() && e.CreateSrrFromMigration?
      modifies this
      ensures Valid() && State() == Step(env, old(State()), e)
    {
      var at, srrId := Millis(e.time), SrrEntityId(env, e.address, e.tokenId);
      var srr: Srr;
      if srrId in srrs {
        srr := srrs[srrId];
      } else {
        srr := NewSrr(srrId);
        srr := srr.(tokenId := Some(Decimal(e.tokenId)), createdAt := Some(at), originTxHash := Some(e.txHash));
      }
      SaveCreateSrrInternal(srr, e.isPrimaryIssuer, e.artist, e.issuer, e.digest, false, at, e.tx, e.logIndex);
    }

    /** The collection form drops an event for an unknown SRR, the registry form aborts on it. */
    method HandleCreateSrr(e: Event) returns (aborted: bool)
      requires Valid() && e.CreateSrr?
      modifies this
      ensures Valid() && State() == Step(env, old(State()), e)
      ensures aborted <==> Aborts(env, old(State()), e)
    {
      var srrId := SrrEntityId(env, e.address, e.tokenId);
      if srrId !in srrs {
        return !e.inCollection;
      }
      var srr := srrs[srrId];
      if e.inCollection {
        srr := srr.(collection := Some("0x" + ToHex(e.address)));
      }
      SaveCreateSrrInternal(srr, e.isPrimaryIssuer, e.artist, e.issuer, e.digest, e.lock, Millis(e.time),
                            e.tx, e.logIndex);
      return false;
    }

    method SaveCreateSrrInternal(srr: Srr, isPrimaryIssuer: bool, artist: Address, issuer: Address,
                                 digest: string, lock: bool, updateTimestamp: nat, tx: Bytes, logIndex: nat)
      requires Valid() && srr.createdAt.Some?
      modifies this`srrs, this`metadata
      ensures Valid()
      ensures srrs == old(srrs)[srr.id := srr.(
                isPrimaryIssuer := Some(isPrimaryIssuer), metadataDigest := Some(digest),
                lockExternalTransfer := Some(lock), artistAddress := Some(artist),
                artist := WalletId(wallets, artist), issuer := WalletId(wallets, issuer),
                updatedAt := Some(updateTimestamp))]
      ensures metadata == old(metadata)[
                HashId(env, "0x" + ToHex(tx) + HexNumber(logIndex) + digest) :=
                  MetadataRecord(srr.id, digest, updateTimestamp)]
    {
      var s := srr.(isPrimaryIssuer := Some(isPrimaryIssuer), metadataDigest := Some(digest));
      s := s.(lockExternalTransfer := Some(lock), artistAddress := Some(artist));
      s := s.(artist := WalletId(wallets, artist), issuer := WalletId(wallets, issuer));
      s := s.(updatedAt := Some(updateTimestamp));
      var _ := SaveSrr(s);
      SaveSrrMetadataHistory(s, updateTimestamp, tx, logIndex);
    }

    method SaveSrrMetadataHistory(srr: Srr, eventTimestampMillis: nat, tx: Bytes, logIndex: nat)
      requires srr.metadataDigest.Some?
      modifies this`metadata
      ensures metadata == old(metadata)[
                HashId(env, "0x" + ToHex(tx) + HexNumber(logIndex) + srr.metadataDigest.value) :=
                  MetadataRecord(srr.id, srr.metadataDigest.value, eventTimestampMillis)]
    {
      var metadataHistoryId := HashId(env, "0x" + ToHex(tx) + HexNumber(logIndex) + srr.metadataDigest.value);
      metadata := metadata[metadataHistoryId :=
        MetadataRecord(srr.id, srr.metadataDigest.value, eventTimestampMillis)];
    }

    method HandleUpdateMetadata(e: Event)
      requires Valid() && e.UpdateMetadata?
      modifies this
      ensures Valid() && State() == Step(env, old(State()), e)
    {
      var srrId := SrrEntityId(env, e.address, e.tokenId);
      if srrId !in srrs {
        return;
      }
      var srr := srrs[srrId];
      srr := srr.(updatedAt := Some(Millis(e.time)));
      srr := srr.(metadataDigest := Some(e.digest));
      var _ := SaveSrr(srr);
      SaveSrrMetadataHistory(srr, Millis(e.time), e.tx, e.logIndex);
    }

    method HandleUpdateSrr(e: Event)
      requires Valid() && e.UpdateSrr?
      modifies this
      ensures Valid() && State() == Step(env, old(State()), e)
    {
      var srrId := SrrEntityId(env, e.address, e.tokenId);
      if srrId !in srrs {
        return;
      }
      var srr := srrs[srrId];
      var artist := WalletId(wallets, e.artist);
      if artist.None? {
        return;
      }
      srr := srr.(isPrimaryIssuer := Some(e.isPrimaryIssuer), artistAddress := Some(e.artist));
      srr := srr.(artist := artist, updatedAt := Some(Millis(e.time)));
      var _ := SaveSrr(srr);
    }

    method HandleLockExternalTransfer(e: Event)
      requires Valid() && e.LockExternalTransfer?
      modifies this
      ensures Valid() && State() == Step(env, old(State()), e)
    {
      var srrId := SrrEntityId(env, e.address, e.tokenId);
      if srrId !in srrs {
        return;
      }
      var srr := srrs[srrId];
      srr := srr.(lockExternalTransfer := Some(e.lock));
      var _ := SaveSrr(srr);
    }

    method HandleRoyaltiesSet(e: Event)
      requires Valid() && e.RoyaltiesSet?
      modifies this
      ensures Valid() && State() == Step(env, old(State()), e)
    {
      var srrId := SrrEntityId(env, e.address, e.tokenId);
      if srrId !in srrs {
        return;
      }
      var srr := srrs[srrId];
      srr := srr.(updatedAt := Some(Millis(e.time)));
      srr := srr.(royaltyBasisPoints := Some(e.basisPoints), royaltyReceiver := Some(e.receiver));
      var _ := SaveSrr(srr);
    }

    method HandleMigrateSrr(e: Event)
      requires Valid() && e.MigrateSrr?
      modifies this
      ensures Valid() && State() == Step(env, old(State()), e)
    {
      var srrId := SrrEntityId(env, e.address, e.tokenId);
      if srrId !in srrs {
        return;
      }
      var srr := srrs[srrId];
      srr := srr.(originChain := Some(e.originChain));
      var _ := SaveSrr(srr);
    }

    method HandleProvenanceDateFix(e: Event)
      requires Valid() && e.ProvenanceDateFix?
      modifies this
      ensures Valid() && State() == Step(env, old(State()), e)
    {
      var provenanceId := HashId(env, SrrEntityId(env, e.address, e.tokenId) + "66000");
      if provenanceId !in provenances {
        return;
      }
      var prov := provenances[provenanceId];
      prov := prov.(createdAt := e.originTimestamp);
      prov := prov.(timestamp := e.originTimestamp);
      provenances := provenances[provenanceId := prov];
    }

    method HandleHistory(e: Event)
      requires Valid() && e.History?
      modifies this`histories
      ensures Valid() && State() == Step(env, old(State()), e)
    {
      var tokenIds, customHistoryIds := e.tokenIds, e.customHistoryIds;
      var t := 0;
      while t < |tokenIds|
        invariant 0 <= t <= |tokenIds|
        invariant histories ==
                  AddAllHistories(env, old(histories), e.address, tokenIds[..t], customHistoryIds, Millis(e.time))
      {
        RecordHistories(SrrEntityId(env, e.address, tokenIds[t]), customHistoryIds, Millis(e.time));
        t := t + 1;
        assert tokenIds[..t][..t - 1] == tokenIds[..t - 1];
      }
      assert tokenIds[..t] == tokenIds;
    }

    /** The inner loop: one record for each custom history of a token. */
    method RecordHistories(srrId: string, customHistoryIds: seq<nat>, eventTimestampMillis: nat)
      modifies this`histories
      ensures histories == AddHistories(env, old(histories), srrId, customHistoryIds, eventTimestampMillis)
    {
      var c := 0;
      while c < |customHistoryIds|
        invariant 0 <= c <= |customHistoryIds|
        invariant histories == AddHistories(env, old(histories), srrId, customHistoryIds[..c], eventTimestampMillis)
      {
        var customHistoryId := Decimal(customHistoryIds[c]);
        var historyId := HashId(env, srrId + customHistoryId);
        histories := histories[historyId := HistoryRecord(srrId, customHistoryId, eventTimestampMillis)];
        c := c + 1;
        assert customHistoryIds[..c][..c - 1] == customHistoryIds[..c - 1];
      }
      assert customHistoryIds[..c] == customHistoryIds;
    }

    method HandleWalletCreated(e: Event)
      requires Valid() && e.WalletCreated?
      modifies this
      ensures Valid() && State() == Step(env, old(State()), e)
    {
      wallets := wallets + {e.wallet};
    }

    /** Dispatch by event, as the subgraph manifest does. */
    method Handle(e: Event) returns (aborted: bool)
      requires Valid()
      modifies this
      ensures Valid() && State() == Step(env, old(State()), e)
      ensures aborted <==> Aborts(env, old(State()), e)
    {
      aborted := false;
      match e {
        case Transfer(_, _, _, _, _, _) => aborted := HandleTransfer(e);
        case Provenance(_, _, _, _, _, _, _, _, _, _) => HandleProvenance(e);
        case Commitment(_, _, _, _, _, _) => HandleCommitment(e);
        case CommitmentCancelled(_, _, _, _) => HandleCommitmentCancelled(e);
        case CreateSrr(_, _, _, _, _, _, _, _, _, _, _) => aborted := HandleCreateSrr(e);
        case UpdateSrr(_, _, _, _, _) => HandleUpdateSrr(e);
        case UpdateMetadata(_, _, _, _, _, _) => HandleUpdateMetadata(e);
        case LockExternalTransfer(_, _, _) => HandleLockExternalTransfer(e);
        case RoyaltiesSet(_, _, _, _, _) => HandleRoyaltiesSet(e);
        case MigrateSrr(_, _, _) => HandleMigrateSrr(e);
        case History(_, _, _, _) => HandleHistory(e);
        case TransferFromMigration(_, _, _, _, _, _) => HandleTransferFromMigration(e);
        case CreateSrrFromMigration(_, _, _, _, _, _, _, _, _, _) => HandleCreateSrrFromMigration(e);
        case ProvenanceDateFix(_, _, _) => HandleProvenanceDateFix(e);
        case WalletCreated(_) => HandleWalletCreated(e);
      }
    }

    /** Indexing a list of events is a run of atomic steps, up to the first event that aborts. */
    method HandleAll(events: seq<Event>) returns (indexed: nat)
      requires Valid()
      modifies this
      ensures Valid() && indexed <= |events| && State() == Run(env, old(State()), events[..indexed])
      ensures GoesThrough(env, old(State()), events[..indexed])
      ensures indexed < |events| ==> Aborts(env, State(), events[indexed])
    {
      indexed := 0;
      while indexed < |events|
        invariant indexed <= |events|
        invariant Valid() && State() == Run(env, old(State()), events[..indexed])
        invariant GoesThrough(env, old(State()), events[..indexed])
      {
        ghost var st := State();
        var aborted := Handle(events[indexed]);
        if aborted {
          AbortedLeavesNoMark(env, st, events[indexed]);
          return;
        }
        OneMore(env, old(State()), events, indexed);
        indexed := indexed + 1;
      }
    }
  }

  lemma OneMore(env: Env, st: Store, events: seq<Event>, i: nat)
    requires i < |events|
    ensures Run(env, st, events[..i + 1]) == Step(env, Run(env, st, events[..i]), events[i])
    ensures GoesThrough(env, st, events[..i + 1]) <==>
            GoesThrough(env, st, events[..i]) && !Aborts(env, Run(env, st, events[..i]), events[i])
  {
    assert events[..i + 1][..i] == events[..i];
  }

  /** What a transfer does to the tables, written out. */
  ghost predicate TransferEffect(env: Env, st: Store, e: Event, aborted: bool, after: Store)
    requires e.Transfer?
  {
    var id, at := SrrEntityId(env, e.address, e.tokenId), Millis(e.time);
    var key := HashId(env, id + Decimal(at));
    if e.from == ZERO_ADDRESS then
      var srr := if id in st.srrs then st.srrs[id] else Born(env, e);
      !aborted && after == st.(srrs := st.srrs[id := srr.(ownerAddress := Some(e.to), updatedAt := Some(at))])
    else if id !in st.srrs then
      aborted && after == st
    else
      && !aborted
      && after.srrs == st.srrs[id := st.srrs[id].(ownerAddress := Some(e.to), updatedAt := Some(at),
                                                  transferCommitment := None)]
      && after.commits == (if id !in st.commits then st.commits
                           else st.commits[id := st.commits[id].(commitment := None, lastAction := Some(Moved),
                                                                 updatedAt := Some(at))])
      && after.provenances == (if key in st.provenances then st.provenances
                               else st.provenances[key := ProvenanceRecord(id, e.from, e.to, None, "", "", None,
                                                                           false, at, at)])
      && after.histories == st.histories && after.metadata == st.metadata && after.wallets == st.wallets
  }

  lemma TransferIsOneStep(env: Env, st: Store, e: Event, aborted: bool, after: Store)
    requires e.Transfer? && TransferEffect(env, st, e, aborted, after)
    ensures after == Step(env, st, e) && (aborted <==> Aborts(env, st, e))
  {
    if Aborts(env, st, e) {
      AbortedLeavesNoMark(env, st, e);
    } else if IsMint(e) {
      MintIsOneStep(env, st, e, aborted, after);
    } else {
      MoveIsOneStep(env, st, e, aborted, after);
    }
  }

  lemma MintIsOneStep(env: Env, st: Store, e: Event, aborted: bool, after: Store)
    requires e.Transfer? && IsMint(e) && TransferEffect(env, st, e, aborted, after)
    ensures after == Step(env, st, e) && !aborted
  {
    assert after.srrs == SrrsAfter(env, st, e);
  }

  lemma MoveIsOneStep(env: Env, st: Store, e: Event, aborted: bool, after: Store)
    requires e.Transfer? && !IsMint(e) && TransferEffect(env, st, e, aborted, after) && !Aborts(env, st, e)
    ensures after == Step(env, st, e) && !aborted
  {
    assert after.srrs == SrrsAfter(env, st, e);
    assert after.commits == CommitsAfter(env, st, e);
    assert after.provenances == ProvenancesAfter(env, st, e);
  }
}
