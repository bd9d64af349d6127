/**
 What the SRR index holds after any sequence of events, said directly in terms of that
 sequence: who owns an SRR, which commitment stands, which provenances exist.
 */
module SrrHistory {
  import opened Wrappers
  import opened Bytes
  import opened SrrStore

  function Indexed(env: Env, events: seq<Event>): Store {
    Run(env, EMPTY_STORE, events)
  }

  ghost predicate Concerns(env: Env, e: Event, id: string) {
    Subject(env, e) == Some(id)
  }

  /** The kinds of events, spelled out. */
  lemma EventKinds(env: Env, e: Event)
    ensures Moves(e) <==> (e.Transfer? || e.TransferFromMigration?) && !FromNobody(e.from)
    ensures Creates(e) <==>
            (e.Transfer? && FromNobody(e.from)) || e.TransferFromMigration? || e.CreateSrrFromMigration?
    ensures Traces(e) <==> e.Provenance? || (e.Transfer? && !FromNobody(e.from))
    ensures Describes(e) <==> e.CreateSrr? || e.CreateSrrFromMigration? || e.UpdateMetadata?
    ensures forall id :: Concerns(env, e, id) <==>
              !e.History? && !e.WalletCreated? && id == SrrEntityId(env, e.address, e.tokenId)
  {
    if e.Transfer? || e.TransferFromMigration? { NobodyIsZero(e.from); }
  }

  /** The address of twenty zero bytes. */
  ghost predicate FromNobody(from: Address) {
    |from| == 20 && forall i :: 0 <= i < 20 ==> from[i] == 0
  }

  lemma NobodyIsZero(from: Address)
    ensures from == ZERO_ADDRESS <==> FromNobody(from)
  {
  }

  // ---- Reading an SRR off the history: the last event that matters decides ----

  /** Some event so far introduced the SRR. */
  ghost predicate Known(env: Env, h: seq<Event>, id: string) {
    exists i :: 0 <= i < |h| && Creates(h[i]) && Concerns(env, h[i], id)
  }

  /** The recipient of the last transfer, provenance or migrated transfer, of a known SRR unless it creates it. */
  ghost function OwnerOf(env: Env, h: seq<Event>, id: string): Option<Address> {
    if h == [] then None
    else
      var before, e := h[..|h| - 1], h[|h| - 1];
      if Concerns(env, e, id) && (e.Transfer? || e.TransferFromMigration? || e.Provenance?)
         && (Creates(e) || Known(env, before, id))
      then Some(e.to) else OwnerOf(env, before, id)
  }

  /** Set by a commitment on a known SRR, void after a cancellation or a move. */
  ghost function StandingCommitment(env: Env, h: seq<Event>, id: string): Option<Bytes> {
    if h == [] then None
    else
      var before, e := h[..|h| - 1], h[|h| - 1];
      if Concerns(env, e, id) && e.Commitment? && Known(env, before, id) then Some(e.commitment)
      else if Concerns(env, e, id) && (e.CommitmentCancelled? || Moves(e)) then None
      else StandingCommitment(env, before, id)
  }

  ghost predicate CommitsAt(env: Env, h: seq<Event>, i: int, id: string) {
    0 <= i < |h| && h[i].Commitment? && Concerns(env, h[i], id) && Known(env, h[..i], id)
  }

  ghost predicate EverCommitted(env: Env, h: seq<Event>, id: string) {
    exists i :: CommitsAt(env, h, i, id)
  }

  /** What last happened to a commitment record: made, cancelled, or voided by a move. */
  ghost function LastActionOf(env: Env, h: seq<Event>, id: string): Option<LastAction> {
    if h == [] then None
    else
      var before, e := h[..|h| - 1], h[|h| - 1];
      if Concerns(env, e, id) && e.Commitment? && Known(env, before, id) then Some(Approve)
      else if Concerns(env, e, id) && e.CommitmentCancelled? && EverCommitted(env, before, id) then Some(Cancel)
      else if Concerns(env, e, id) && Moves(e) && EverCommitted(env, before, id) then Some(Moved)
      else LastActionOf(env, before, id)
  }

  /** The custom history last named by a commitment. */
  ghost function CommitHistoryOf(env: Env, h: seq<Event>, id: string): Option<string> {
    if h == [] then None
    else
      var before, e := h[..|h| - 1], h[|h| - 1];
      if Concerns(env, e, id) && e.Commitment? && Known(env, before, id) && e.customHistoryId.Some?
      then Some(Decimal(e.customHistoryId.value)) else CommitHistoryOf(env, before, id)
  }

  /** The sender last named by a commitment, or by a cancellation once there has been one. */
  ghost function CommitSenderOf(env: Env, h: seq<Event>, id: string): Option<Address> {
    if h == [] then None
    else
      var before, e := h[..|h| - 1], h[|h| - 1];
      if Concerns(env, e, id) && e.Commitment? && Known(env, before, id) && e.sender.Some? then e.sender
      else if Concerns(env, e, id) && e.CommitmentCancelled? && EverCommitted(env, before, id) && e.sender.Some?
      then e.sender else CommitSenderOf(env, before, id)
  }

  /** When the commitment record was made, and when something last happened to it, in milliseconds. */
  ghost function CommitMadeAt(env: Env, h: seq<Event>, id: string): Option<nat> {
    if h == [] then None
    else
      var before, e := h[..|h| - 1], h[|h| - 1];
      if CommitMadeAt(env, before, id).Some? then CommitMadeAt(env, before, id)
      else if Concerns(env, e, id) && e.Commitment? && Known(env, before, id) then Some(1000 * e.time) else None
  }

  ghost function CommitTouchedAt(env: Env, h: seq<Event>, id: string): Option<nat> {
    if h == [] then None
    else
      var before, e := h[..|h| - 1], h[|h| - 1];
      if Concerns(env, e, id)
         && ((e.Commitment? && Known(env, before, id))
             || ((e.CommitmentCancelled? || Moves(e)) && EverCommitted(env, before, id)))
      then Some(1000 * e.time) else CommitTouchedAt(env, before, id)
  }

  /** The digest last given to the SRR. */
  ghost function DigestOf(env: Env, h: seq<Event>, id: string): Option<string> {
    if h == [] then None
    else
      var before, e := h[..|h| - 1], h[|h| - 1];
      if Concerns(env, e, id) && Describes(e) && (Creates(e) || Known(env, before, id))
      then Some(e.digest) else DigestOf(env, before, id)
  }

  lemma KnownSplit(env: Env, h: seq<Event>, id: string)
    requires h != []
    ensures var before, e := h[..|h| - 1], h[|h| - 1];
            Known(env, h, id) <==> Known(env, before, id) || (Creates(e) && Concerns(env, e, id))
  {
    var before := h[..|h| - 1];
    if Known(env, before, id) {
      var i :| 0 <= i < |before| && Creates(before[i]) && Concerns(env, before[i], id);
      assert h[i] == before[i];
    }
    if Known(env, h, id) {
      var i :| 0 <= i < |h| && Creates(h[i]) && Concerns(env, h[i], id);
      assert i < |before| ==> before[i] == h[i];
    }
  }

  lemma EverCommittedSplit(env: Env, h: seq<Event>, id: string)
    requires h != []
    ensures var before, e := h[..|h| - 1], h[|h| - 1];
            EverCommitted(env, h, id) <==>
            EverCommitted(env, before, id) || (e.Commitment? && Concerns(env, e, id) && Known(env, before, id))
  {
    var before := h[..|h| - 1];
    if i :| CommitsAt(env, before, i, id) {
      CommitsAtPrefix(env, h, i, id);
    }
    if i :| CommitsAt(env, h, i, id) {
      if i < |before| { CommitsAtPrefix(env, h, i, id); }
    }
    if CommitsAt(env, h, |h| - 1, id) { assert EverCommitted(env, h, id); }
  }

  lemma CommitsAtPrefix(env: Env, h: seq<Event>, i: int, id: string)
    requires 0 <= i < |h| - 1
    ensures CommitsAt(env, h, i, id) <==> CommitsAt(env, h[..|h| - 1], i, id)
  {
    assert h[..|h| - 1][..i] == h[..i];
  }

  /** One step, seen from one SRR: an event about another one leaves it alone. */
  lemma SrrFrame(env: Env, st: Store, e: Event, id: string)
    requires !Concerns(env, e, id)
    ensures var after := Step(env, st, e).srrs;
            (id in after <==> id in st.srrs) && (id in after ==> after[id] == st.srrs[id])
  {
  }

  /** An event about this SRR changes it, or brings it about. */
  lemma SrrOfSubject(env: Env, st: Store, e: Event, id: string)
    requires Concerns(env, e, id)
    ensures var after := Step(env, st, e).srrs;
            && (id in after <==> id in st.srrs || Creates(e))
            && (id in after ==>
                  after[id] == SrrAfter(env, st.wallets, if id in st.srrs then st.srrs[id] else Born(env, e), e))
  {
  }

  lemma OwnerAfter(env: Env, wallets: set<string>, srr: Srr, e: Event)
    ensures SrrAfter(env, wallets, srr, e).ownerAddress ==
            if e.Transfer? || e.TransferFromMigration? || e.Provenance? then Some(e.to) else srr.ownerAddress
  {
  }

  lemma CommitmentAfter(env: Env, wallets: set<string>, srr: Srr, e: Event)
    ensures SrrAfter(env, wallets, srr, e).transferCommitment ==
            if e.Commitment? then Some(e.commitment)
            else if e.CommitmentCancelled? || Moves(e) then None else srr.transferCommitment
  {
  }

  lemma DigestAfter(env: Env, wallets: set<string>, srr: Srr, e: Event)
    ensures SrrAfter(env, wallets, srr, e).metadataDigest ==
            if Describes(e) then Some(e.digest) else srr.metadataDigest
  {
  }

  lemma BornBare(env: Env, e: Event)
    requires Creates(e)
    ensures var srr := Born(env, e);
            srr.ownerAddress == None && srr.transferCommitment == None && srr.metadataDigest == None
  {
  }

  /** The fields followed through a history, before and after one step. */
  lemma SrrStep(env: Env, st: Store, e: Event, id: string)
    ensures var after := Step(env, st, e).srrs;
            && (id in after <==> id in st.srrs || (Creates(e) && Concerns(env, e, id)))
            && (id in after ==>
                  && after[id].ownerAddress ==
                     (if Concerns(env, e, id) && (e.Transfer? || e.TransferFromMigration? || e.Provenance?)
                      then Some(e.to) else if id in st.srrs then st.srrs[id].ownerAddress else None)
                  && after[id].transferCommitment ==
                     (if Concerns(env, e, id) && e.Commitment? then Some(e.commitment)
                      else if Concerns(env, e, id) && (e.CommitmentCancelled? || Moves(e)) then None
                      else if id in st.srrs then st.srrs[id].transferCommitment else None)
                  && after[id].metadataDigest ==
                     (if Concerns(env, e, id) && Describes(e) then Some(e.digest)
                      else if id in st.srrs then st.srrs[id].metadataDigest else None))
  {
    if !Concerns(env, e, id) {
      SrrFrame(env, st, e, id);
    } else {
      SrrOfSubject(env, st, e, id);
      if id in st.srrs || Creates(e) {
        var srr := if id in st.srrs then st.srrs[id] else Born(env, e);
        OwnerAfter(env, st.wallets, srr, e);
        CommitmentAfter(env, st.wallets, srr, e);
        DigestAfter(env, st.wallets, srr, e);
        if id !in st.srrs { BornBare(env, e); }
      }
    }
  }

  lemma CommitFrame(env: Env, st: Store, e: Event, id: string)
    requires !Concerns(env, e, id)
    ensures var after := Step(env, st, e).commits;
            (id in after <==> id in st.commits) && (id in after ==> after[id] == st.commits[id])
  {
  }

  lemma CommitOfSubject(env: Env, st: Store, e: Event, id: string)
    requires Concerns(env, e, id) && id in st.srrs
    ensures var after := Step(env, st, e).commits;
            if e.Commitment? then
              id in after && after[id].commitment == Some(e.commitment) && after[id].lastAction == Some(Approve)
            else
              (id in after <==> id in st.commits)
              && (id in after ==>
                    if e.CommitmentCancelled? || Moves(e)
                    then after[id].commitment == None
                         && after[id].lastAction == Some(if e.CommitmentCancelled? then Cancel else Moved)
                    else after[id] == st.commits[id])
  {
  }

  lemma CommitOfUnknown(env: Env, st: Store, e: Event, id: string)
    requires Concerns(env, e, id) && id !in st.srrs
    ensures id in Step(env, st, e).commits <==> id in st.commits
  {
  }

  lemma CommitStep(env: Env, st: Store, e: Event, id: string)
    ensures var after := Step(env, st, e).commits;
            && (id in after <==>
                  id in st.commits || (e.Commitment? && Concerns(env, e, id) && id in st.srrs))
            && (id in after && id in st.srrs ==>
                  if Concerns(env, e, id) && e.Commitment?
                  then after[id].commitment == Some(e.commitment) && after[id].lastAction == Some(Approve)
                  else if Concerns(env, e, id) && (e.CommitmentCancelled? || Moves(e))
                  then after[id].commitment == None
                       && after[id].lastAction == Some(if e.CommitmentCancelled? then Cancel else Moved)
                  else id in st.commits && after[id] == st.commits[id])
  {
    if !Concerns(env, e, id) {
      CommitFrame(env, st, e, id);
    } else if id in st.srrs {
      CommitOfSubject(env, st, e, id);
    } else {
      CommitOfUnknown(env, st, e, id);
    }
  }

  /** The fields of a commitment record that only a new value changes. */
  lemma StickyStep(env: Env, st: Store, e: Event, id: string)
    requires id in Step(env, st, e).commits && id in st.srrs
    ensures var (c, kept) := (Step(env, st, e).commits[id], if id in st.commits then Some(st.commits[id]) else None);
            && c.customHistory ==
               (if Concerns(env, e, id) && e.Commitment? && e.customHistoryId.Some?
                then Some(Decimal(e.customHistoryId.value))
                else if kept.Some? then kept.value.customHistory else None)
            && c.sender ==
               (if Concerns(env, e, id) && (e.Commitment? || e.CommitmentCancelled?) && e.sender.Some? then e.sender
                else if kept.Some? then kept.value.sender else None)
  {
  }

  /** The dates of a commitment record. */
  lemma DatesStep(env: Env, st: Store, e: Event, id: string)
    requires id in Step(env, st, e).commits && id in st.srrs
    ensures var (c, kept) := (Step(env, st, e).commits[id], if id in st.commits then Some(st.commits[id]) else None);
            && c.createdAt == (if kept.Some? then kept.value.createdAt else Some(1000 * e.time))
            && c.updatedAt ==
               (if Concerns(env, e, id) && (e.Commitment? || e.CommitmentCancelled? || Moves(e))
                then Some(1000 * e.time) else if kept.Some? then kept.value.updatedAt else None)
  {
    if !Concerns(env, e, id) { CommitFrame(env, st, e, id); }
  }

  /** After any history the index answers exactly what the history says about each SRR. */
  lemma {:induction false} IndexReflectsHistory(env: Env, h: seq<Event>, id: string)
    ensures id in Indexed(env, h).srrs <==> Known(env, h, id)
    ensures Known(env, h, id) ==>
              Indexed(env, h).srrs[id].ownerAddress == OwnerOf(env, h, id)
              && Indexed(env, h).srrs[id].transferCommitment == StandingCommitment(env, h, id)
    ensures !Known(env, h, id) ==> OwnerOf(env, h, id) == None && StandingCommitment(env, h, id) == None
    ensures id in Indexed(env, h).commits <==> EverCommitted(env, h, id)
    ensures EverCommitted(env, h, id) ==>
              Known(env, h, id)
              && Indexed(env, h).commits[id].commitment == StandingCommitment(env, h, id)
              && Indexed(env, h).commits[id].lastAction == LastActionOf(env, h, id)
              && (LastActionOf(env, h, id) == Some(Approve) <==> StandingCommitment(env, h, id).Some?)
  {
    if h != [] {
      var before, e := h[..|h| - 1], h[|h| - 1];
      IndexReflectsHistory(env, before, id);
      KnownSplit(env, h, id);
      EverCommittedSplit(env, h, id);
      SrrStep(env, Indexed(env, before), e, id);
      CommitStep(env, Indexed(env, before), e, id);
      HistoryIndex(env, h);
    }
  }

  /** An SRR carries the digest it was given last. */
  lemma {:induction false} DigestReflectsHistory(env: Env, h: seq<Event>, id: string)
    ensures Known(env, h, id) ==>
              id in Indexed(env, h).srrs && Indexed(env, h).srrs[id].metadataDigest == DigestOf(env, h, id)
    ensures !Known(env, h, id) ==> DigestOf(env, h, id) == None
  {
    IndexReflectsHistory(env, h, id);
    if h != [] {
      var before, e := h[..|h| - 1], h[|h| - 1];
      DigestReflectsHistory(env, before, id);
      KnownSplit(env, h, id);
      IndexReflectsHistory(env, before, id);
      SrrStep(env, Indexed(env, before), e, id);
      HistoryIndex(env, h);
    }
  }

  /** A commitment record names the custom history and the sender given last, however long ago. */
  lemma {:induction false} CommitRecordReflectsHistory(env: Env, h: seq<Event>, id: string)
    ensures EverCommitted(env, h, id) ==>
              id in Indexed(env, h).commits
              && Indexed(env, h).commits[id].customHistory == CommitHistoryOf(env, h, id)
              && Indexed(env, h).commits[id].sender == CommitSenderOf(env, h, id)
              && Indexed(env, h).commits[id].createdAt == CommitMadeAt(env, h, id)
              && Indexed(env, h).commits[id].updatedAt == CommitTouchedAt(env, h, id)
    ensures EverCommitted(env, h, id) <==> CommitMadeAt(env, h, id).Some?
    ensures !EverCommitted(env, h, id) ==>
              CommitHistoryOf(env, h, id) == None && CommitSenderOf(env, h, id) == None
              && CommitTouchedAt(env, h, id) == None
  {
    if h != [] {
      var before, e := h[..|h| - 1], h[|h| - 1];
      CommitRecordReflectsHistory(env, before, id);
      EverCommittedSplit(env, h, id);
      IndexReflectsHistory(env, before, id);
      IndexReflectsHistory(env, h, id);
      HistoryIndex(env, h);
      if EverCommitted(env, h, id) {
        StickyStep(env, Indexed(env, before), e, id);
        DatesStep(env, Indexed(env, before), e, id);
      }
    }
  }

  lemma HistoryIndex(env: Env, h: seq<Event>)
    requires h != []
    ensures Indexed(env, h) == Step(env, Indexed(env, h[..|h| - 1]), h[|h| - 1])
  {
  }

  /** Commitment records and SRRs never disagree. */
  ghost predicate CommitmentsAgree(st: Store) {
    && (forall id :: id in st.commits ==>
          && id in st.srrs
          && st.commits[id].commitment == st.srrs[id].transferCommitment
          && (st.commits[id].lastAction == Some(Approve) <==> st.commits[id].commitment.Some?))
    && (forall id :: id in st.srrs && id !in st.commits ==> st.srrs[id].transferCommitment == None)
  }

  lemma CommitmentAgreement(env: Env, h: seq<Event>)
    ensures CommitmentsAgree(Indexed(env, h))
  {
    forall id: string ensures id in Indexed(env, h).commits || id in Indexed(env, h).srrs ==>
      (id in Indexed(env, h).commits ==>
         id in Indexed(env, h).srrs
         && Indexed(env, h).commits[id].commitment == Indexed(env, h).srrs[id].transferCommitment
         && (Indexed(env, h).commits[id].lastAction == Some(Approve) <==> Indexed(env, h).commits[id].commitment.Some?))
      && (id in Indexed(env, h).srrs && id !in Indexed(env, h).commits ==>
            Indexed(env, h).srrs[id].transferCommitment == None)
    {
      IndexReflectsHistory(env, h, id);
      if !EverCommitted(env, h, id) { NeverCommittedIsNone(env, h, id); }
    }
  }

  lemma {:induction false} NeverCommittedIsNone(env: Env, h: seq<Event>, id: string)
    requires !EverCommitted(env, h, id)
    ensures StandingCommitment(env, h, id) == None
  {
    if h != [] {
      EverCommittedSplit(env, h, id);
      NeverCommittedIsNone(env, h[..|h| - 1], id);
    }
  }

  // ---- The other fields of an SRR: the value given last ----

  /** What an event gives a field: a value, if any, from the wallets known and whether the SRR is new. */
  type Giving<!T> = (set<string>, bool, Event) -> Option<T>

  /** The value given last by the events about the SRR. */
  ghost function LastGiven<T>(env: Env, h: seq<Event>, id: string, given: Giving<T>): Option<T> {
    if h == [] then None
    else
      var before, e := h[..|h| - 1], h[|h| - 1];
      if Concerns(env, e, id) && (Creates(e) || Known(env, before, id)) then
        var value := given(Indexed(env, before).wallets, !Known(env, before, id), e);
        if value.Some? then value else LastGiven(env, before, id, given)
      else LastGiven(env, before, id, given)
  }

  /** The wallets indexed are those announced. */
  lemma {:induction false} WalletsOfHistory(env: Env, h: seq<Event>, w: string)
    ensures w in Indexed(env, h).wallets <==> exists i :: 0 <= i < |h| && h[i].WalletCreated? && h[i].wallet == w
  {
    if h != [] {
      var n := |h| - 1;
      WalletsOfHistory(env, h[..n], w);
      HistoryIndex(env, h);
      if i :| 0 <= i < n && h[..n][i].WalletCreated? && h[..n][i].wallet == w {
        assert h[i].WalletCreated?;
      }
      if i :| 0 <= i < |h| && h[i].WalletCreated? && h[i].wallet == w {
        if i < n { assert h[..n][i].WalletCreated?; }
      }
    }
  }

  /** A field that changes as `given` says holds the value given last. */
  lemma {:induction false} FieldReflectsHistory<T>(env: Env, h: seq<Event>, id: string, get: Srr -> Option<T>,
                                                   given: Giving<T>)
    requires forall w, srr, e :: get(SrrAfter(env, w, srr, e)) ==
                                 if given(w, false, e).Some? then given(w, false, e) else get(srr)
    requires forall w, e :: Creates(e) ==> get(SrrAfter(env, w, Born(env, e), e)) == given(w, true, e)
    ensures Known(env, h, id) ==>
              id in Indexed(env, h).srrs && get(Indexed(env, h).srrs[id]) == LastGiven(env, h, id, given)
    ensures !Known(env, h, id) ==> LastGiven(env, h, id, given) == None
  {
    IndexReflectsHistory(env, h, id);
    if h != [] {
      var before, e := h[..|h| - 1], h[|h| - 1];
      FieldReflectsHistory(env, before, id, get, given);
      KnownSplit(env, h, id);
      IndexReflectsHistory(env, before, id);
      HistoryIndex(env, h);
      if Concerns(env, e, id) {
        SrrOfSubject(env, Indexed(env, before), e, id);
      } else {
        SrrFrame(env, Indexed(env, before), e, id);
      }
    }
  }

  ghost function GivesTokenId(): Giving<string> {
    (w: set<string>, born: bool, e: Event) => if born && Creates(e) then Some(Decimal(e.tokenId)) else None
  }

  ghost function GivesCreatedAt(): Giving<nat> {
    (w: set<string>, born: bool, e: Event) => if born && Creates(e) then Some(1000 * e.time) else None
  }

  ghost function GivesOriginTx(): Giving<Bytes> {
    (w: set<string>, born: bool, e: Event) => if born && Creates(e) then Some(e.txHash) else None
  }

  /** The chain of the index at birth, except by a migrated creation; later what a migration says. */
  ghost function GivesOriginChain(env: Env): Giving<string> {
    (w: set<string>, born: bool, e: Event) =>
      if e.MigrateSrr? then Some(e.originChain)
      else if born && (e.Transfer? || e.TransferFromMigration?) then Some(env.chainId) else None
  }

  /** Everything but a change of lock, chain or provenance date, and of unknown artists, touches the SRR. */
  ghost function GivesUpdatedAt(): Giving<nat> {
    (w: set<string>, born: bool, e: Event) =>
      if e.LockExternalTransfer? || e.MigrateSrr? || e.ProvenanceDateFix? || e.History? || e.WalletCreated? then None
      else if e.UpdateSrr? && "0x" + ToHex(e.artist) !in w then None
      else Some(1000 * e.time)
  }

  lemma TokenIdReflected(env: Env, h: seq<Event>, id: string)
    ensures Known(env, h, id) ==>
              id in Indexed(env, h).srrs
              && Indexed(env, h).srrs[id].tokenId == LastGiven(env, h, id, GivesTokenId())
  {
    FieldReflectsHistory(env, h, id, (s: Srr) => s.tokenId, GivesTokenId());
  }

  lemma CreatedAtReflected(env: Env, h: seq<Event>, id: string)
    ensures Known(env, h, id) ==>
              id in Indexed(env, h).srrs
              && Indexed(env, h).srrs[id].createdAt == LastGiven(env, h, id, GivesCreatedAt())
  {
    FieldReflectsHistory(env, h, id, (s: Srr) => s.createdAt, GivesCreatedAt());
  }

  lemma OriginTxHashReflected(env: Env, h: seq<Event>, id: string)
    ensures Known(env, h, id) ==>
              id in Indexed(env, h).srrs
              && Indexed(env, h).srrs[id].originTxHash == LastGiven(env, h, id, GivesOriginTx())
  {
    FieldReflectsHistory(env, h, id, (s: Srr) => s.originTxHash, GivesOriginTx());
  }

  lemma OriginChainReflected(env: Env, h: seq<Event>, id: string)
    ensures Known(env, h, id) ==>
              id in Indexed(env, h).srrs
              && Indexed(env, h).srrs[id].originChain == LastGiven(env, h, id, GivesOriginChain(env))
  {
    FieldReflectsHistory(env, h, id, (s: Srr) => s.originChain, GivesOriginChain(env));
  }

  lemma UpdatedAtReflected(env: Env, h: seq<Event>, id: string)
    ensures Known(env, h, id) ==>
              id in Indexed(env, h).srrs
              && Indexed(env, h).srrs[id].updatedAt == LastGiven(env, h, id, GivesUpdatedAt())
  {
    FieldReflectsHistory(env, h, id, (s: Srr) => s.updatedAt, GivesUpdatedAt());
  }

  lemma OriginReflectsHistory(env: Env, h: seq<Event>, id: string)
    ensures Known(env, h, id) ==>
              && id in Indexed(env, h).srrs
              && var s := Indexed(env, h).srrs[id];
                 && s.tokenId == LastGiven(env, h, id, GivesTokenId())
                 && s.createdAt == LastGiven(env, h, id, GivesCreatedAt())
                 && s.originTxHash == LastGiven(env, h, id, GivesOriginTx())
                 && s.originChain == LastGiven(env, h, id, GivesOriginChain(env))
                 && s.updatedAt == LastGiven(env, h, id, GivesUpdatedAt())
  {
    TokenIdReflected(env, h, id);
    CreatedAtReflected(env, h, id);
    OriginTxHashReflected(env, h, id);
    OriginChainReflected(env, h, id);
    UpdatedAtReflected(env, h, id);
  }

  ghost function GivesPrimaryIssuer(): Giving<bool> {
    (w: set<string>, born: bool, e: Event) =>
      if e.CreateSrr? || e.CreateSrrFromMigration? || (e.UpdateSrr? && "0x" + ToHex(e.artist) in w)
      then Some(e.isPrimaryIssuer) else None
  }

  ghost function GivesArtistAddress(): Giving<Address> {
    (w: set<string>, born: bool, e: Event) =>
      if e.CreateSrr? || e.CreateSrrFromMigration? || (e.UpdateSrr? && "0x" + ToHex(e.artist) in w)
      then Some(e.artist) else None
  }

  /** The wallet at the address, if there was one by then; a creation may well set none. */
  ghost function GivesArtist(): Giving<Option<string>> {
    (w: set<string>, born: bool, e: Event) =>
      if e.CreateSrr? || e.CreateSrrFromMigration? || (e.UpdateSrr? && "0x" + ToHex(e.artist) in w)
      then Some(if "0x" + ToHex(e.artist) in w then Some("0x" + ToHex(e.artist)) else None)
      else if born then Some(None) else None
  }

  ghost function GivesIssuer(): Giving<Option<string>> {
    (w: set<string>, born: bool, e: Event) =>
      if e.CreateSrr? || e.CreateSrrFromMigration?
      then Some(if "0x" + ToHex(e.issuer) in w then Some("0x" + ToHex(e.issuer)) else None)
      else if born then Some(None) else None
  }

  ghost function GivesCollection(): Giving<string> {
    (w: set<string>, born: bool, e: Event) =>
      if e.CreateSrr? && e.inCollection then Some("0x" + ToHex(e.address)) else None
  }

  lemma IsPrimaryIssuerReflected(env: Env, h: seq<Event>, id: string)
    ensures Known(env, h, id) ==>
              id in Indexed(env, h).srrs
              && Indexed(env, h).srrs[id].isPrimaryIssuer == LastGiven(env, h, id, GivesPrimaryIssuer())
  {
    FieldReflectsHistory(env, h, id, (s: Srr) => s.isPrimaryIssuer, GivesPrimaryIssuer());
  }

  lemma ArtistAddressReflected(env: Env, h: seq<Event>, id: string)
    ensures Known(env, h, id) ==>
              id in Indexed(env, h).srrs
              && Indexed(env, h).srrs[id].artistAddress == LastGiven(env, h, id, GivesArtistAddress())
  {
    FieldReflectsHistory(env, h, id, (s: Srr) => s.artistAddress, GivesArtistAddress());
  }

  lemma ArtistReflected(env: Env, h: seq<Event>, id: string)
    ensures Known(env, h, id) ==>
              id in Indexed(env, h).srrs
              && Some(Indexed(env, h).srrs[id].artist) == LastGiven(env, h, id, GivesArtist())
  {
    FieldReflectsHistory(env, h, id, (s: Srr) => Some(s.artist), GivesArtist());
  }

  lemma IssuerReflected(env: Env, h: seq<Event>, id: string)
    ensures Known(env, h, id) ==>
              id in Indexed(env, h).srrs
              && Some(Indexed(env, h).srrs[id].issuer) == LastGiven(env, h, id, GivesIssuer())
  {
    FieldReflectsHistory(env, h, id, (s: Srr) => Some(s.issuer), GivesIssuer());
  }

  lemma CollectionReflected(env: Env, h: seq<Event>, id: string)
    ensures Known(env, h, id) ==>
              id in Indexed(env, h).srrs
              && Indexed(env, h).srrs[id].collection == LastGiven(env, h, id, GivesCollection())
  {
    FieldReflectsHistory(env, h, id, (s: Srr) => s.collection, GivesCollection());
  }

  lemma DescriptionReflectsHistory(env: Env, h: seq<Event>, id: string)
    ensures Known(env, h, id) ==>
              && id in Indexed(env, h).srrs
              && var s := Indexed(env, h).srrs[id];
                 && s.isPrimaryIssuer == LastGiven(env, h, id, GivesPrimaryIssuer())
                 && s.artistAddress == LastGiven(env, h, id, GivesArtistAddress())
                 && Some(s.artist) == LastGiven(env, h, id, GivesArtist())
                 && Some(s.issuer) == LastGiven(env, h, id, GivesIssuer())
                 && s.collection == LastGiven(env, h, id, GivesCollection())
  {
    IsPrimaryIssuerReflected(env, h, id);
    ArtistAddressReflected(env, h, id);
    ArtistReflected(env, h, id);
    IssuerReflected(env, h, id);
    CollectionReflected(env, h, id);
  }

  /** Unlocked at birth by a transfer and on migrated creation, then as creations and lock changes say. */
  ghost function GivesLock(): Giving<bool> {
    (w: set<string>, born: bool, e: Event) =>
      if e.CreateSrr? || e.LockExternalTransfer? then Some(e.lock)
      else if e.CreateSrrFromMigration? || (born && e.Transfer?) then Some(false) else None
  }

  ghost function GivesRoyaltyReceiver(): Giving<Address> {
    (w: set<string>, born: bool, e: Event) => if e.RoyaltiesSet? then Some(e.receiver) else None
  }

  ghost function GivesRoyaltyPoints(): Giving<nat> {
    (w: set<string>, born: bool, e: Event) => if e.RoyaltiesSet? then Some(e.basisPoints) else None
  }

  lemma LockExternalTransferReflected(env: Env, h: seq<Event>, id: string)
    ensures Known(env, h, id) ==>
              id in Indexed(env, h).srrs
              && Indexed(env, h).srrs[id].lockExternalTransfer == LastGiven(env, h, id, GivesLock())
  {
    FieldReflectsHistory(env, h, id, (s: Srr) => s.lockExternalTransfer, GivesLock());
  }

  lemma RoyaltyReceiverReflected(env: Env, h: seq<Event>, id: string)
    ensures Known(env, h, id) ==>
              id in Indexed(env, h).srrs
              && Indexed(env, h).srrs[id].royaltyReceiver == LastGiven(env, h, id, GivesRoyaltyReceiver())
  {
    FieldReflectsHistory(env, h, id, (s: Srr) => s.royaltyReceiver, GivesRoyaltyReceiver());
  }

  lemma RoyaltyBasisPointsReflected(env: Env, h: seq<Event>, id: string)
    ensures Known(env, h, id) ==>
              id in Indexed(env, h).srrs
              && Indexed(env, h).srrs[id].royaltyBasisPoints == LastGiven(env, h, id, GivesRoyaltyPoints())
  {
    FieldReflectsHistory(env, h, id, (s: Srr) => s.royaltyBasisPoints, GivesRoyaltyPoints());
  }

  lemma TermsReflectHistory(env: Env, h: seq<Event>, id: string)
    ensures Known(env, h, id) ==>
              && id in Indexed(env, h).srrs
              && var s := Indexed(env, h).srrs[id];
                 && s.lockExternalTransfer == LastGiven(env, h, id, GivesLock())
                 && s.royaltyReceiver == LastGiven(env, h, id, GivesRoyaltyReceiver())
                 && s.royaltyBasisPoints == LastGiven(env, h, id, GivesRoyaltyPoints())
  {
    LockExternalTransferReflected(env, h, id);
    RoyaltyReceiverReflected(env, h, id);
    RoyaltyBasisPointsReflected(env, h, id);
  }

  // ---- Provenances ----

  /** The provenance an event would leave: its SRR and its time in milliseconds. */
  function Slot(env: Env, e: Event): (string, nat)
    requires Traces(e)
  {
    (SrrEntityId(env, e.address, e.tokenId), Millis(e.time))
  }

  /** Event `i` leaves its trace: the SRR is known by then. */
  ghost predicate Leaves(env: Env, h: seq<Event>, i: int, slot: (string, nat)) {
    0 <= i < |h| && Traces(h[i]) && Slot(env, h[i]) == slot && Known(env, h[..i], slot.0)
  }

  ghost predicate Left(env: Env, h: seq<Event>, slot: (string, nat)) {
    exists i :: Leaves(env, h, i, slot)
  }

  /** The provenances of a history, keyed by SRR and time instead of by hash. */
  ghost function Provenances(env: Env, h: seq<Event>): map<(string, nat), ProvenanceRecord> {
    if h == [] then map[]
    else
      var before, e := h[..|h| - 1], h[|h| - 1];
      var m := Provenances(env, before);
      if Traces(e) && Known(env, before, Slot(env, e).0) && Slot(env, e) !in m
      then m[Slot(env, e) := Trace(env, e)]
      else if e.ProvenanceDateFix? && (SrrEntityId(env, e.address, e.tokenId), MISDATED) in m
      then
        var slot := (SrrEntityId(env, e.address, e.tokenId), MISDATED);
        m[slot := Redated(m[slot], e.originTimestamp)]
      else m
  }

  /** The strings hashed into provenance ids along a history. */
  ghost function HashedIds(env: Env, h: seq<Event>): set<string> {
    if h == [] then {}
    else
      var e := h[|h| - 1];
      HashedIds(env, h[..|h| - 1])
      + (if Traces(e) then {Preimage(Slot(env, e))} else {})
      + (if e.ProvenanceDateFix? then {Preimage((SrrEntityId(env, e.address, e.tokenId), MISDATED))} else {})
  }

  function Preimage(slot: (string, nat)): string { slot.0 + Decimal(slot.1) }

  function ProvenanceId(env: Env, slot: (string, nat)): string { HashId(env, Preimage(slot)) }

  lemma LeftSplit(env: Env, h: seq<Event>, slot: (string, nat))
    requires h != []
    ensures Left(env, h, slot) <==> Left(env, h[..|h| - 1], slot) || Leaves(env, h, |h| - 1, slot)
  {
    var before, n := h[..|h| - 1], |h| - 1;
    if i :| Leaves(env, before, i, slot) {
      LeavesPrefix(env, h, i, slot);
    }
    if i :| Leaves(env, h, i, slot) {
      if i < n { LeavesPrefix(env, h, i, slot); }
    }
    if Leaves(env, h, n, slot) { assert Left(env, h, slot); }
  }

  lemma LeavesPrefix(env: Env, h: seq<Event>, i: int, slot: (string, nat))
    requires 0 <= i < |h| - 1
    ensures Leaves(env, h, i, slot) <==> Leaves(env, h[..|h| - 1], i, slot)
  {
    assert h[..|h| - 1][..i] == h[..i];
  }

  lemma {:induction false} LeftIffRecorded(env: Env, h: seq<Event>, slot: (string, nat))
    ensures slot in Provenances(env, h) <==> Left(env, h, slot)
  {
    if h != [] {
      LeftIffRecorded(env, h[..|h| - 1], slot);
      LeftSplit(env, h, slot);
      RecordedSplit(env, h, slot);
    }
  }

  lemma RecordedSplit(env: Env, h: seq<Event>, slot: (string, nat))
    requires h != []
    ensures slot in Provenances(env, h) <==>
            slot in Provenances(env, h[..|h| - 1]) || Leaves(env, h, |h| - 1, slot)
  {
  }

  /** In a run that goes through, every non-mint transfer leaves a provenance. */
  lemma {:induction false} MovesLeaveTraces(env: Env, h: seq<Event>, i: nat)
    requires GoesThrough(env, EMPTY_STORE, h) && i < |h| && h[i].Transfer? && !IsMint(h[i])
    ensures Leaves(env, h, i, Slot(env, h[i]))
    decreases |h|
  {
    var n := |h| - 1;
    if i < n {
      MovesLeaveTraces(env, h[..n], i);
      LeavesPrefix(env, h, i, Slot(env, h[i]));
    } else {
      IndexReflectsHistory(env, h[..n], SrrEntityId(env, h[i].address, h[i].tokenId));
    }
  }

  lemma {:induction false} RecordedAreHashed(env: Env, h: seq<Event>, slot: (string, nat))
    requires slot in Provenances(env, h)
    ensures Preimage(slot) in HashedIds(env, h)
    ensures |slot.0| == 66 && Provenances(env, h)[slot].srr == slot.0
  {
    var before, e := h[..|h| - 1], h[|h| - 1];
    if slot in Provenances(env, before) {
      RecordedAreHashed(env, before, slot);
    }
  }

  /** Slots of 66-character ids have the same id only if they are the same slot. */
  lemma SlotsSeparate(env: Env, a: (string, nat), b: (string, nat), hashed: set<string>)
    requires CollisionFree(env.keccakUtf8, hashed) && Preimage(a) in hashed && Preimage(b) in hashed
    requires |a.0| == |b.0| && ProvenanceId(env, a) == ProvenanceId(env, b)
    ensures a == b
  {
    HashIdInjective(env, Preimage(a), Preimage(b), hashed);
    PreimageInjective(a.0, a.1, b.0, b.1);
  }

  ghost predicate Mirrors(env: Env, table: map<string, ProvenanceRecord>, m: map<(string, nat), ProvenanceRecord>) {
    && (forall slot :: slot in m ==> ProvenanceId(env, slot) in table && table[ProvenanceId(env, slot)] == m[slot])
    && (forall id :: id in table ==> exists slot :: slot in m && ProvenanceId(env, slot) == id)
  }

  /** Setting one slot keeps the hashed table in step. */
  lemma MirrorsUpdate(env: Env, table: map<string, ProvenanceRecord>, m: map<(string, nat), ProvenanceRecord>,
                      slot: (string, nat), p: ProvenanceRecord)
    requires Mirrors(env, table, m)
    requires forall s :: s in m && ProvenanceId(env, s) == ProvenanceId(env, slot) ==> s == slot
    ensures Mirrors(env, table[ProvenanceId(env, slot) := p], m[slot := p])
    ensures slot in m <==> ProvenanceId(env, slot) in table
  {
    var key := ProvenanceId(env, slot);
    var table', m' := table[key := p], m[slot := p];
    forall s | s in m' ensures ProvenanceId(env, s) in table' && table'[ProvenanceId(env, s)] == m'[s] {
      if s != slot { assert s in m; }
    }
    forall id | id in table' ensures exists s :: s in m' && ProvenanceId(env, s) == id {
      if id == key {
        assert slot in m' && ProvenanceId(env, slot) == id;
      } else {
        var s :| s in m && ProvenanceId(env, s) == id;
        assert s in m';
      }
    }
  }

  /** Absent hash collisions, the stored provenances are those of the history, slot for slot. */
  lemma {:induction false} StoredProvenances(env: Env, h: seq<Event>, hashed: set<string>)
    requires HashedIds(env, h) <= hashed && CollisionFree(env.keccakUtf8, hashed)
    ensures Mirrors(env, Indexed(env, h).provenances, Provenances(env, h))
  {
    if h != [] {
      var before, e := h[..|h| - 1], h[|h| - 1];
      StoredProvenances(env, before, hashed);
      var table, m := Indexed(env, before).provenances, Provenances(env, before);
      if Traces(e) || e.ProvenanceDateFix? {
        var id := SrrEntityId(env, e.address, e.tokenId);
        var slot := if Traces(e) then Slot(env, e) else (id, MISDATED);
        assert Decimal(MISDATED) == "66000" by { MisdatedDigits(); }
        forall s | s in m && ProvenanceId(env, s) == ProvenanceId(env, slot) ensures s == slot {
          RecordedAreHashed(env, before, s);
          assert Preimage(slot) in HashedIds(env, h);
          SlotsSeparate(env, s, slot, hashed);
        }
        IndexReflectsHistory(env, before, id);
        var p := if Traces(e) then Trace(env, e)
                 else if slot in m then Redated(m[slot], e.originTimestamp)
                 else ProvenanceRecord(id, [], [], None, "", "", None, false, 0, 0);
        MirrorsUpdate(env, table, m, slot, p);
      }
    }
  }

  lemma MisdatedDigits()
    ensures Decimal(66000) == "66000"
  {
    assert Decimal(66) == "66";
    assert Decimal(660) == Decimal(66) + "0";
    assert Decimal(6600) == Decimal(660) + "0";
  }

  /** The event times at which a history leaves a provenance on an SRR. */
  ghost function TraceTimes(env: Env, h: seq<Event>, id: string): set<nat> {
    set slot | slot in Provenances(env, h) && slot.0 == id :: slot.1
  }

  /**
   One provenance per distinct event time: the stored provenances of an SRR are counted by
   the times of the events that leave one.
   */
  lemma ProvenanceCount(env: Env, h: seq<Event>, id: string)
    requires CollisionFree(env.keccakUtf8, HashedIds(env, h))
    ensures |KeysOf(env, h, id)| == |TraceSeconds(env, h, id)|
  {
    TraceTimesMeaning(env, h, id);
    KeysOfTimes(env, h, id);
    var f := (t: nat) => ProvenanceId(env, (id, t));
    BijectionCounts(TraceTimes(env, h, id), KeysOf(env, h, id), f);
    SecondsAndMillis(env, h, id);
  }

  /** Event `i` is a provenance, or a transfer other than a mint, of the SRR when it is known. */
  ghost predicate TracesSrr(env: Env, h: seq<Event>, i: int, id: string) {
    && 0 <= i < |h| && (h[i].Provenance? || (h[i].Transfer? && !FromNobody(h[i].from)))
    && SrrEntityId(env, h[i].address, h[i].tokenId) == id && Known(env, h[..i], id)
  }

  /** The distinct times, in seconds, of such events. */
  ghost function TraceSeconds(env: Env, h: seq<Event>, id: string): set<nat> {
    set i | 0 <= i < |h| && TracesSrr(env, h, i, id) :: h[i].time
  }

  lemma SecondsAndMillis(env: Env, h: seq<Event>, id: string)
    ensures |TraceTimes(env, h, id)| == |TraceSeconds(env, h, id)|
  {
    var seconds, millis := TraceSeconds(env, h, id), TraceTimes(env, h, id);
    forall t | t in seconds ensures Millis(t) in millis {
      SecondIsTraced(env, h, id, t);
    }
    forall m | m in millis ensures exists t :: t in seconds && Millis(t) == m {
      var t := TracedInSecond(env, h, id, m);
      assert t in seconds && Millis(t) == m;
    }
    AsManyMillis(seconds, millis);
  }

  lemma AsManyMillis(a: set<nat>, b: set<nat>)
    requires forall t :: t in a ==> Millis(t) in b
    requires forall m :: m in b ==> exists t :: t in a && Millis(t) == m
    ensures |b| == |a|
  {
    BijectionCounts(a, b, Millis);
  }

  lemma SecondIsTraced(env: Env, h: seq<Event>, id: string, t: nat)
    requires t in TraceSeconds(env, h, id)
    ensures 1000 * t in TraceTimes(env, h, id)
  {
    TraceTimesMeaning(env, h, id);
    var i :| 0 <= i < |h| && TracesSrr(env, h, i, id) && h[i].time == t;
    EventKinds(env, h[i]);
    TracesSrrLeaves(env, h, i, id);
  }

  lemma TracedInSecond(env: Env, h: seq<Event>, id: string, m: nat) returns (t: nat)
    requires m in TraceTimes(env, h, id)
    ensures t in TraceSeconds(env, h, id) && 1000 * t == m
  {
    TraceTimesMeaning(env, h, id);
    var i :| Leaves(env, h, i, (id, m));
    TracesSrrLeaves(env, h, i, id);
    t := h[i].time;
  }

  lemma TracesSrrLeaves(env: Env, h: seq<Event>, i: nat, id: string)
    requires i < |h| && Traces(h[i])
    ensures TracesSrr(env, h, i, id) <==> Leaves(env, h, i, (id, 1000 * h[i].time))
    ensures TracesSrr(env, h, i, id) ==> Left(env, h, (id, 1000 * h[i].time))
    ensures forall m :: Leaves(env, h, i, (id, m)) ==> m == 1000 * h[i].time
  {
    EventKinds(env, h[i]);
  }

  /** The keys of the stored provenances of an SRR. */
  ghost function KeysOf(env: Env, h: seq<Event>, id: string): set<string> {
    var table := Indexed(env, h).provenances;
    set key | key in table && table[key].srr == id
  }

  lemma TraceTimesMeaning(env: Env, h: seq<Event>, id: string)
    ensures forall t: nat :: t in TraceTimes(env, h, id) <==> (id, t) in Provenances(env, h)
    ensures forall t: nat :: t in TraceTimes(env, h, id) <==> Left(env, h, (id, t))
  {
    forall t: nat
      ensures t in TraceTimes(env, h, id) <==> (id, t) in Provenances(env, h)
      ensures t in TraceTimes(env, h, id) <==> Left(env, h, (id, t))
    {
      LeftIffRecorded(env, h, (id, t));
      if (id, t) in Provenances(env, h) { assert (id, t).0 == id && (id, t).1 == t; }
    }
  }

  /** Times and keys correspond one to one. */
  lemma KeysOfTimes(env: Env, h: seq<Event>, id: string)
    requires CollisionFree(env.keccakUtf8, HashedIds(env, h))
    ensures forall t :: t in TraceTimes(env, h, id) ==> ProvenanceId(env, (id, t)) in KeysOf(env, h, id)
    ensures forall t, u ::
              t in TraceTimes(env, h, id) && u in TraceTimes(env, h, id)
              && ProvenanceId(env, (id, t)) == ProvenanceId(env, (id, u))
              ==> t == u
    ensures forall key :: key in KeysOf(env, h, id) ==>
              exists t :: t in TraceTimes(env, h, id) && ProvenanceId(env, (id, t)) == key
  {
    StoredProvenances(env, h, HashedIds(env, h));
    TraceTimesMeaning(env, h, id);
    var m, times := Provenances(env, h), TraceTimes(env, h, id);
    forall t | t in times ensures ProvenanceId(env, (id, t)) in KeysOf(env, h, id) {
      RecordedAreHashed(env, h, (id, t));
    }
    forall t, u | t in times && u in times && ProvenanceId(env, (id, t)) == ProvenanceId(env, (id, u)) ensures t == u {
      RecordedAreHashed(env, h, (id, t));
      RecordedAreHashed(env, h, (id, u));
      SlotsSeparate(env, (id, t), (id, u), HashedIds(env, h));
    }
    forall key | key in KeysOf(env, h, id) ensures exists t :: t in times && ProvenanceId(env, (id, t)) == key {
      var slot :| slot in m && ProvenanceId(env, slot) == key;
      RecordedAreHashed(env, h, slot);
      assert slot == (id, slot.1);
    }
  }

  lemma {:induction false} BijectionCounts<X(!new), Y>(a: set<X>, b: set<Y>, f: X -> Y)
    requires forall x :: x in a ==> f(x) in b
    requires forall x, y :: x in a && y in a && f(x) == f(y) ==> x == y
    requires forall y :: y in b ==> exists x :: x in a && f(x) == y
    ensures |a| == |b|
    decreases a
  {
    if a == {} {
      assert b == {};
    } else {
      var x :| x in a;
      forall y | y in b - {f(x)} ensures exists z :: z in a - {x} && f(z) == y {
        var z :| z in a && f(z) == y;
      }
      BijectionCounts(a - {x}, b - {f(x)}, f);
    }
  }

  /** The date a provenance carries that event `i` left: its own, or that of the last date fix since. */
  ghost function DateOf(env: Env, h: seq<Event>, i: int): nat
    requires 0 <= i < |h| && Traces(h[i])
  {
    var n := |h| - 1;
    if i == n then 1000 * h[i].time
    else if h[n].ProvenanceDateFix? && 1000 * h[i].time == 66000
            && SrrEntityId(env, h[i].address, h[i].tokenId) == SrrEntityId(env, h[n].address, h[n].tokenId)
    then h[n].originTimestamp
    else DateOf(env, h[..n], i)
  }

  /** The first event to fill a slot decides its parties and metadata for good, date fixes its dates. */
  lemma {:induction false} FirstTraceStays(env: Env, h: seq<Event>, i: nat, slot: (string, nat))
    requires Leaves(env, h, i, slot) && !Left(env, h[..i], slot)
    ensures slot in Provenances(env, h)
    ensures Provenances(env, h)[slot] == Redated(Trace(env, h[i]), DateOf(env, h, i))
    decreases |h|
  {
    var n := |h| - 1;
    if i < n {
      assert h[..n][..i] == h[..i];
      LeavesPrefix(env, h, i, slot);
      FirstTraceStays(env, h[..n], i, slot);
      TraceStep(env, h, slot);
    } else {
      LeftIffRecorded(env, h[..n], slot);
    }
  }

  /** A recorded provenance is only ever redated. */
  lemma TraceStep(env: Env, h: seq<Event>, slot: (string, nat))
    requires h != [] && slot in Provenances(env, h[..|h| - 1])
    ensures slot in Provenances(env, h)
    ensures var (e, p) := (h[|h| - 1], Provenances(env, h[..|h| - 1])[slot]);
            Provenances(env, h)[slot] ==
            if e.ProvenanceDateFix? && slot == (SrrEntityId(env, e.address, e.tokenId), MISDATED)
            then Redated(p, e.originTimestamp) else p
  {
  }

  /** The digest stored for a hash: none, sixty-four hex digits in lower case behind 0x, or the hash itself. */
  ghost predicate IsDigestOf(hash: Option<string>, d: string) {
    match hash
    case None => d == ""
    case Some(h) =>
      && (|h| != 64 ==> d == h)
      && (|h| == 64 && (forall i :: 0 <= i < 64 ==> IsLowerHex(h[i])) ==> d == "0x" + h)
      && (|h| == 64 && IsHexString(h) ==>
            |d| == 66 && d[..2] == "0x"
            && forall i :: 0 <= i < 64 ==>
                 IsLowerHex(d[2 + i]) && IsHexDigit(d[2 + i]) && HexValue(d[2 + i]) == HexValue(h[i]))
  }

  /** The record says of the event, field by field, what a provenance is to say; a transfer has only its parties. */
  ghost predicate IsTraceOf(env: Env, e: Event, at: nat, p: ProvenanceRecord)
    requires Traces(e)
  {
    && p.srr == SrrEntityId(env, e.address, e.tokenId) && p.from == e.from && p.to == e.to
    && p.timestamp == at && p.createdAt == at
    && if e.Transfer? then
         p.sender == None && p.metadataDigest == "" && p.metadataURI == "" && p.customHistory == None
         && !p.isIntermediary
       else
         && p.sender == e.sender && p.isIntermediary == e.isIntermediary
         && p.metadataURI == (if e.historyMetadataURI.Some? then e.historyMetadataURI.value else "")
         && p.customHistory == (if e.customHistoryId.Some? then Some(Decimal(e.customHistoryId.value)) else None)
         && IsDigestOf(e.historyMetadataHash, p.metadataDigest)
  }

  lemma TraceMeaning(env: Env, e: Event, at: nat)
    requires Traces(e)
    ensures IsTraceOf(env, e, at, Redated(Trace(env, e), at))
  {
    if e.Provenance? && e.historyMetadataHash.Some? {
      DigestMeaning(e.historyMetadataHash.value);
    }
  }

  /**
   The record stored for an SRR and a time is that of the first event to leave one, redated by
   the last date fix if any. So a provenance followed by its transfer in the same block keeps
   its metadata, though the transfer would write a bare record.
   */
  lemma FirstTraceIsStored(env: Env, h: seq<Event>, i: nat, slot: (string, nat))
    requires Leaves(env, h, i, slot) && !Left(env, h[..i], slot)
    requires CollisionFree(env.keccakUtf8, HashedIds(env, h))
    ensures slot == (SrrEntityId(env, h[i].address, h[i].tokenId), 1000 * h[i].time)
    ensures var (table, key) := (Indexed(env, h).provenances, "0x" + ToHex(env.keccakUtf8(slot.0 + Decimal(slot.1))));
            key in table && IsTraceOf(env, h[i], DateOf(env, h, i), table[key])
  {
    FirstTraceStays(env, h, i, slot);
    StoredProvenances(env, h, HashedIds(env, h));
    TraceMeaning(env, h[i], DateOf(env, h, i));
    SlotMeaning(env, h[i]);
  }

  /** The provenance of an event is kept for its SRR and its time in milliseconds, under the hash of both. */
  lemma SlotMeaning(env: Env, e: Event)
    requires Traces(e)
    ensures var slot := (SrrEntityId(env, e.address, e.tokenId), 1000 * e.time);
            Slot(env, e) == slot && ProvenanceId(env, slot) == "0x" + ToHex(env.keccakUtf8(slot.0 + Decimal(slot.1)))
  {
  }

  // ---- Metadata history ----

  /** Event `i` writes a metadata record under `key`. */
  ghost predicate WritesMetadata(env: Env, h: seq<Event>, i: int, key: string) {
    && 0 <= i < |h| && Describes(h[i]) && MetadataId(env, h[i]) == key
    && (Creates(h[i]) || Known(env, h[..i], SrrEntityId(env, h[i].address, h[i].tokenId)))
  }

  /** Event `i` is the last to write under `key`. */
  ghost predicate LastToWrite(env: Env, h: seq<Event>, i: int, key: string) {
    WritesMetadata(env, h, i, key) && forall j :: i < j < |h| ==> !WritesMetadata(env, h, j, key)
  }

  lemma WritesMetadataPrefix(env: Env, h: seq<Event>, i: int, key: string)
    requires 0 <= i < |h| - 1
    ensures WritesMetadata(env, h, i, key) <==> WritesMetadata(env, h[..|h| - 1], i, key)
  {
    assert h[..|h| - 1][..i] == h[..i];
  }

  lemma LastToWritePrefix(env: Env, h: seq<Event>, i: int, key: string)
    requires 0 <= i < |h| - 1 && !WritesMetadata(env, h, |h| - 1, key)
    ensures LastToWrite(env, h, i, key) <==> LastToWrite(env, h[..|h| - 1], i, key)
  {
    var before := h[..|h| - 1];
    forall j | i <= j < |h| - 1 ensures WritesMetadata(env, h, j, key) <==> WritesMetadata(env, before, j, key) {
      WritesMetadataPrefix(env, h, j, key);
    }
  }

  lemma {:induction false} LastWriteIsStored(env: Env, h: seq<Event>, i: nat, key: string)
    requires LastToWrite(env, h, i, key)
    ensures var table := Indexed(env, h).metadata; key in table && table[key] == MetadataOf(env, h[i])
    decreases |h|
  {
    HistoryIndex(env, h);
    MetadataStep(env, h, key);
    if i < |h| - 1 {
      LastToWritePrefix(env, h, i, key);
      LastWriteIsStored(env, h[..|h| - 1], i, key);
    }
  }

  lemma {:induction false} StoredWasWritten(env: Env, h: seq<Event>, key: string) returns (i: nat)
    requires key in Indexed(env, h).metadata
    ensures LastToWrite(env, h, i, key)
    decreases |h|
  {
    HistoryIndex(env, h);
    MetadataStep(env, h, key);
    if WritesMetadata(env, h, |h| - 1, key) {
      i := |h| - 1;
    } else {
      i := StoredWasWritten(env, h[..|h| - 1], key);
      LastToWritePrefix(env, h, i, key);
    }
  }

  /**
   The metadata history holds, under each id, the record of the last event to write there;
   nothing is assumed about ids, which two events may share.
   */
  lemma MetadataHistoryMeaning(env: Env, h: seq<Event>, key: string)
    ensures var table := Indexed(env, h).metadata;
            && (key in table <==> exists i :: LastToWrite(env, h, i, key))
            && forall i :: LastToWrite(env, h, i, key) ==>
                 && table[key] ==
                    MetadataRecord(SrrEntityId(env, h[i].address, h[i].tokenId), h[i].digest, 1000 * h[i].time)
                 && key == "0x" + ToHex(env.keccakUtf8("0x" + ToHex(h[i].tx) + ("0x" + HexDigits(h[i].logIndex))
                                                       + h[i].digest))
  {
    forall i | LastToWrite(env, h, i, key)
      ensures key in Indexed(env, h).metadata && Indexed(env, h).metadata[key] == MetadataOf(env, h[i])
    {
      LastWriteIsStored(env, h, i, key);
    }
    if key in Indexed(env, h).metadata {
      var i := StoredWasWritten(env, h, key);
    }
  }

  lemma MetadataStep(env: Env, h: seq<Event>, key: string)
    requires h != []
    ensures var (n, st) := (|h| - 1, Indexed(env, h[..|h| - 1]));
            var after := Step(env, st, h[n]).metadata;
            if WritesMetadata(env, h, n, key) then key in after && after[key] == MetadataOf(env, h[n])
            else (key in after <==> key in st.metadata) && (key in after ==> after[key] == st.metadata[key])
  {
    var e, before := h[|h| - 1], h[..|h| - 1];
    if Describes(e) { IndexReflectsHistory(env, before, SrrEntityId(env, e.address, e.tokenId)); }
  }

  // ---- Custom histories ----

  function PairPreimage(env: Env, address: Address, tokenId: nat, customHistory: nat): string {
    SrrEntityId(env, address, tokenId) + Decimal(customHistory)
  }

  function PairId(env: Env, address: Address, tokenId: nat, customHistory: nat): string {
    HashId(env, PairPreimage(env, address, tokenId, customHistory))
  }

  function PairRecord(env: Env, e: Event, tokenId: nat, customHistory: nat): HistoryRecord
    requires e.History?
  {
    HistoryRecord(SrrEntityId(env, e.address, tokenId), Decimal(customHistory), Millis(e.time))
  }

  /** Some pair drawn from the two lists has the id `key`. */
  ghost predicate Names(env: Env, e: Event, ts: seq<nat>, cs: seq<nat>, key: string)
    requires e.History?
  {
    exists t, c :: t in ts && c in cs && PairId(env, e.address, t, c) == key
  }

  /** `after` holds a pair's record at the ids the lists name and is `before` elsewhere. */
  ghost predicate WritesPairs(env: Env, e: Event, ts: seq<nat>, cs: seq<nat>, key: string,
                              before: map<string, HistoryRecord>, after: map<string, HistoryRecord>)
    requires e.History?
  {
    if Names(env, e, ts, cs, key) then
      key in after && exists t, c :: t in ts && c in cs && PairId(env, e.address, t, c) == key
                                     && after[key] == PairRecord(env, e, t, c)
    else
      (key in after <==> key in before) && (key in after ==> after[key] == before[key])
  }

  lemma {:induction false} InnerLoopEffect(env: Env, m: map<string, HistoryRecord>, e: Event, t: nat, cs: seq<nat>,
                                           key: string)
    requires e.History?
    ensures WritesPairs(env, e, [t], cs, key, m,
                        AddHistories(env, m, SrrEntityId(env, e.address, t), cs, Millis(e.time)))
  {
    if cs != [] {
      var n := |cs| - 1;
      InnerLoopEffect(env, m, e, t, cs[..n], key);
      assert cs == cs[..n] + [cs[n]];
      if PairId(env, e.address, t, cs[n]) == key {
        assert t in [t] && cs[n] in cs;
      } else if Names(env, e, [t], cs[..n], key) {
        var c :| c in cs[..n] && PairId(env, e.address, t, c) == key;
        assert t in [t] && c in cs;
      }
    }
  }

  lemma {:induction false} OuterLoopEffect(env: Env, m: map<string, HistoryRecord>, e: Event, ts: seq<nat>, key: string)
    requires e.History?
    ensures WritesPairs(env, e, ts, e.customHistoryIds, key, m,
                        AddAllHistories(env, m, e.address, ts, e.customHistoryIds, Millis(e.time)))
  {
    if ts != [] {
      var n := |ts| - 1;
      var inner := AddAllHistories(env, m, e.address, ts[..n], e.customHistoryIds, Millis(e.time));
      OuterLoopEffect(env, m, e, ts[..n], key);
      InnerLoopEffect(env, inner, e, ts[n], e.customHistoryIds, key);
      WritesPairsTwice(env, e, ts, e.customHistoryIds, key, m, inner,
                       AddHistories(env, inner, SrrEntityId(env, e.address, ts[n]), e.customHistoryIds,
                                    Millis(e.time)));
    }
  }

  /** Writing the pairs of all but the last token and then those of the last one. */
  lemma WritesPairsTwice(env: Env, e: Event, ts: seq<nat>, cs: seq<nat>, key: string,
                         before: map<string, HistoryRecord>, between: map<string, HistoryRecord>,
                         after: map<string, HistoryRecord>)
    requires e.History? && ts != []
    requires WritesPairs(env, e, ts[..|ts| - 1], cs, key, before, between)
    requires WritesPairs(env, e, [ts[|ts| - 1]], cs, key, between, after)
    ensures WritesPairs(env, e, ts, cs, key, before, after)
  {
    NamesSplit(env, e, ts, cs, key);
    assert forall t :: t in ts <==> t in ts[..|ts| - 1] || t in [ts[|ts| - 1]];
  }

  lemma NamesSplit(env: Env, e: Event, ts: seq<nat>, cs: seq<nat>, key: string)
    requires e.History? && ts != []
    ensures var n := |ts| - 1;
            Names(env, e, ts, cs, key) <==> Names(env, e, ts[..n], cs, key) || Names(env, e, [ts[n]], cs, key)
  {
    var n := |ts| - 1;
    assert ts == ts[..n] + [ts[n]];
    if Names(env, e, [ts[n]], cs, key) {
      var t, c :| t in [ts[n]] && c in cs && PairId(env, e.address, t, c) == key;
      assert t in ts;
    }
  }

  ghost function PairPreimages(env: Env, e: Event): set<string>
    requires e.History?
  {
    set t, c | t in e.tokenIds && c in e.customHistoryIds :: PairPreimage(env, e.address, t, c)
  }

  /**
   A history event records every pair of its tokens and custom histories under the pair's own
   id, whatever repeats in the two lists, and touches no other record.
   */
  lemma HistoryRecordsEveryPair(env: Env, st: Store, e: Event)
    requires e.History? && CollisionFree(env.keccakUtf8, PairPreimages(env, e))
    ensures var after := Step(env, st, e).histories;
            && (forall t, c :: t in e.tokenIds && c in e.customHistoryIds ==>
                  PairId(env, e.address, t, c) in after
                  && after[PairId(env, e.address, t, c)] == PairRecord(env, e, t, c))
            && (forall key :: !Names(env, e, e.tokenIds, e.customHistoryIds, key) ==>
                  (key in after <==> key in st.histories)
                  && (key in after ==> after[key] == st.histories[key]))
  {
    var after := Step(env, st, e).histories;
    forall t, c | t in e.tokenIds && c in e.customHistoryIds
      ensures PairId(env, e.address, t, c) in after
      ensures after[PairId(env, e.address, t, c)] == PairRecord(env, e, t, c)
    {
      PairIsRecorded(env, st, e, t, c);
    }
    forall key | !Names(env, e, e.tokenIds, e.customHistoryIds, key)
      ensures (key in after <==> key in st.histories) && (key in after ==> after[key] == st.histories[key])
    {
      OuterLoopEffect(env, st.histories, e, e.tokenIds, key);
    }
  }

  lemma PairIsRecorded(env: Env, st: Store, e: Event, t: nat, c: nat)
    requires e.History? && CollisionFree(env.keccakUtf8, PairPreimages(env, e))
    requires t in e.tokenIds && c in e.customHistoryIds
    ensures var after := Step(env, st, e).histories;
            var key := PairId(env, e.address, t, c);
            key in after && after[key] == PairRecord(env, e, t, c)
  {
    var after, key := Step(env, st, e).histories, PairId(env, e.address, t, c);
    OuterLoopEffect(env, st.histories, e, e.tokenIds, key);
    assert Names(env, e, e.tokenIds, e.customHistoryIds, key);
    var t', c' :| t' in e.tokenIds && c' in e.customHistoryIds && PairId(env, e.address, t', c') == key
                  && after[key] == PairRecord(env, e, t', c');
    HashIdInjective(env, PairPreimage(env, e.address, t, c), PairPreimage(env, e.address, t', c'),
                    PairPreimages(env, e));
    PreimageInjective(SrrEntityId(env, e.address, t), c, SrrEntityId(env, e.address, t'), c');
  }

  // ---- Custom histories over a whole run ----

  /** Event `i` gives the SRR the custom history `c`. */
  ghost predicate NamesPair(env: Env, h: seq<Event>, i: int, srr: string, c: nat) {
    0 <= i < |h| && h[i].History? && EventNames(env, h[i], srr, c)
  }

  ghost predicate EventNames(env: Env, e: Event, srr: string, c: nat)
    requires e.History?
  {
    c in e.customHistoryIds && exists t :: t in e.tokenIds && SrrEntityId(env, e.address, t) == srr
  }

  ghost predicate LastToName(env: Env, h: seq<Event>, i: int, srr: string, c: nat) {
    NamesPair(env, h, i, srr, c) && forall j :: i < j < |h| ==> !NamesPair(env, h, j, srr, c)
  }

  /** The strings hashed into the ids of a run's history records. */
  ghost function HashedPairs(env: Env, h: seq<Event>): set<string> {
    if h == [] then {}
    else
      HashedPairs(env, h[..|h| - 1]) + if h[|h| - 1].History? then PairPreimages(env, h[|h| - 1]) else {}
  }

  lemma {:induction false} NamedIsHashed(env: Env, h: seq<Event>, i: nat, srr: string, c: nat)
    requires NamesPair(env, h, i, srr, c)
    ensures srr + Decimal(c) in HashedPairs(env, h)
    decreases |h|
  {
    var n := |h| - 1;
    if i < n {
      assert NamesPair(env, h[..n], i, srr, c);
      NamedIsHashed(env, h[..n], i, srr, c);
    } else {
      NamedByEvent(env, h[n], srr, c);
    }
  }

  lemma NamedByEvent(env: Env, e: Event, srr: string, c: nat)
    requires e.History? && EventNames(env, e, srr, c)
    ensures srr + Decimal(c) in PairPreimages(env, e) && |srr| == 66
    ensures Names(env, e, e.tokenIds, e.customHistoryIds, HashId(env, srr + Decimal(c)))
  {
    var t :| t in e.tokenIds && SrrEntityId(env, e.address, t) == srr;
    assert PairPreimage(env, e.address, t, c) == srr + Decimal(c);
    assert PairId(env, e.address, t, c) == HashId(env, srr + Decimal(c));
  }

  /** What one history event leaves under the id of a pair it names. */
  lemma NamedPairIsRecorded(env: Env, st: Store, e: Event, srr: string, c: nat, hashed: set<string>)
    requires e.History? && EventNames(env, e, srr, c)
    requires CollisionFree(env.keccakUtf8, hashed) && PairPreimages(env, e) <= hashed
    ensures var (after, key) := (Step(env, st, e).histories, HashId(env, srr + Decimal(c)));
            key in after && after[key] == HistoryRecord(srr, Decimal(c), Millis(e.time))
  {
    var t :| t in e.tokenIds && SrrEntityId(env, e.address, t) == srr;
    PairIsRecorded(env, st, e, t, c);
  }

  /** And under the id of a pair of the run that it does not name: what was there. */
  lemma OtherPairStays(env: Env, st: Store, e: Event, srr: string, c: nat, hashed: set<string>)
    requires e.History? && !EventNames(env, e, srr, c) && |srr| == 66
    requires CollisionFree(env.keccakUtf8, hashed) && PairPreimages(env, e) <= hashed
    requires srr + Decimal(c) in hashed
    ensures var (after, key) := (Step(env, st, e).histories, HashId(env, srr + Decimal(c)));
            (key in after <==> key in st.histories) && (key in after ==> after[key] == st.histories[key])
  {
    var key := HashId(env, srr + Decimal(c));
    if Names(env, e, e.tokenIds, e.customHistoryIds, key) {
      var t, d :| t in e.tokenIds && d in e.customHistoryIds && PairId(env, e.address, t, d) == key;
      assert PairPreimage(env, e.address, t, d) in PairPreimages(env, e);
      HashIdInjective(env, PairPreimage(env, e.address, t, d), srr + Decimal(c), hashed);
      PreimageInjective(SrrEntityId(env, e.address, t), d, srr, c);
      assert EventNames(env, e, srr, c);
    }
    OuterLoopEffect(env, st.histories, e, e.tokenIds, key);
  }

  lemma NamesPairPrefix(env: Env, h: seq<Event>, i: int, srr: string, c: nat)
    requires 0 <= i < |h| - 1
    ensures NamesPair(env, h, i, srr, c) <==> NamesPair(env, h[..|h| - 1], i, srr, c)
  {
  }

  lemma LastToNamePrefix(env: Env, h: seq<Event>, i: int, srr: string, c: nat)
    requires 0 <= i < |h| - 1 && LastToName(env, h, i, srr, c)
    ensures LastToName(env, h[..|h| - 1], i, srr, c) && !NamesPair(env, h, |h| - 1, srr, c)
  {
    var before := h[..|h| - 1];
    forall j | i <= j < |h| - 1 ensures NamesPair(env, before, j, srr, c) <==> j == i {
      NamesPairPrefix(env, h, j, srr, c);
    }
  }

  /** The last event to name a pair decides its record. */
  lemma {:induction false} LastNamingIsRecorded(env: Env, h: seq<Event>, i: nat, srr: string, c: nat,
                                                hashed: set<string>)
    requires LastToName(env, h, i, srr, c)
    requires HashedPairs(env, h) <= hashed && CollisionFree(env.keccakUtf8, hashed)
    ensures var (table, key) := (Indexed(env, h).histories, HashId(env, srr + Decimal(c)));
            key in table && table[key] == HistoryRecord(srr, Decimal(c), Millis(h[i].time))
    decreases |h|
  {
    var n := |h| - 1;
    HistoryIndex(env, h);
    if i == n {
      NamedPairIsRecorded(env, Indexed(env, h[..n]), h[n], srr, c, hashed);
    } else {
      LastToNamePrefix(env, h, i, srr, c);
      LastNamingIsRecorded(env, h[..n], i, srr, c, hashed);
      if h[n].History? {
        NamedIsHashed(env, h, i, srr, c);
        NamedByEvent(env, h[i], srr, c);
        OtherPairStays(env, Indexed(env, h[..n]), h[n], srr, c, hashed);
      }
    }
  }

  /** Nothing is recorded that no event named. */
  lemma {:induction false} RecordedWasNamed(env: Env, h: seq<Event>, key: string) returns (i: nat, srr: string, c: nat)
    requires key in Indexed(env, h).histories
    ensures NamesPair(env, h, i, srr, c) && key == HashId(env, srr + Decimal(c))
    decreases |h|
  {
    var n := |h| - 1;
    HistoryIndex(env, h);
    if h[n].History? && Names(env, h[n], h[n].tokenIds, h[n].customHistoryIds, key) {
      var t, d :| t in h[n].tokenIds && d in h[n].customHistoryIds && PairId(env, h[n].address, t, d) == key;
      i, srr, c := n, SrrEntityId(env, h[n].address, t), d;
      assert EventNames(env, h[n], srr, c);
    } else {
      if h[n].History? { OuterLoopEffect(env, Indexed(env, h[..n]).histories, h[n], h[n].tokenIds, key); }
      i, srr, c := RecordedWasNamed(env, h[..n], key);
      NamesPairPrefix(env, h, i, srr, c);
    }
  }

  /** Some event of the run names a pair with this id. */
  ghost predicate EverNamed(env: Env, h: seq<Event>, key: string) {
    exists i, srr, c :: NamesPair(env, h, i, srr, c) && key == HashId(env, srr + Decimal(c))
  }

  lemma {:induction false} LastNaming(env: Env, h: seq<Event>, i: nat, srr: string, c: nat) returns (last: nat)
    requires NamesPair(env, h, i, srr, c)
    ensures LastToName(env, h, last, srr, c)
    decreases |h| - i
  {
    last := i;
    if j :| i < j < |h| && NamesPair(env, h, j, srr, c) {
      last := LastNaming(env, h, j, srr, c);
    }
  }

  /**
   After any run the custom histories on record are, absent hash collisions, exactly the pairs
   of SRR and custom history that some event named, each dated by the last event to name it.
   */
  lemma HistoriesReflectRun(env: Env, h: seq<Event>)
    requires CollisionFree(env.keccakUtf8, HashedPairs(env, h))
    ensures forall key :: key in Indexed(env, h).histories <==> EverNamed(env, h, key)
    ensures forall i, srr, c :: LastToName(env, h, i, srr, c) ==>
              var (table, key) := (Indexed(env, h).histories, HashId(env, srr + Decimal(c)));
              key in table && table[key] == HistoryRecord(srr, Decimal(c), 1000 * h[i].time)
  {
    forall i, srr, c | LastToName(env, h, i, srr, c)
      ensures HashId(env, srr + Decimal(c)) in Indexed(env, h).histories
      ensures Indexed(env, h).histories[HashId(env, srr + Decimal(c))] ==
              HistoryRecord(srr, Decimal(c), Millis(h[i].time))
    {
      LastNamingIsRecorded(env, h, i, srr, c, HashedPairs(env, h));
    }
    forall key ensures key in Indexed(env, h).histories <==> EverNamed(env, h, key) {
      if key in Indexed(env, h).histories {
        var i, srr, c := RecordedWasNamed(env, h, key);
      }
      if EverNamed(env, h, key) {
        var i, srr, c :| NamesPair(env, h, i, srr, c) && key == HashId(env, srr + Decimal(c));
        var last := LastNaming(env, h, i, srr, c);
      }
    }
  }
}
