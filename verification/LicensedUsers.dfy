/**
 Licensed user wallets on chain, the requests that change their owners, the events those emit,
 and the index rebuilt from the events.
 */
module LicensedUsers {
  import opened Wrappers
  import opened OwnerList

  /** A single owner is stored apart; the linked list is used from two owners on. */
  datatype Account = Single(owner: Address) | Multi(wallet: Wallet)

  type Accounts = map<Address, Account>

  datatype Profile = Profile(englishName: string, originalName: string, userType: nat, salt: nat)

  /** `time` is the timestamp of the block, in seconds. */
  datatype Request =
    | Create(account: Address, owners: seq<Address>, threshold: nat, profile: Profile, time: nat)
    | Add(account: Address, owner: Address, threshold: nat, time: nat)
    | Remove(account: Address, prev: Address, owner: Address, threshold: nat, time: nat)
    | Swap(account: Address, prev: Address, oldOwner: Address, newOwner: Address, time: nat)
    | SetThreshold(account: Address, threshold: nat, time: nat)

  datatype Event =
    | Created(account: Address, owners: seq<Address>, threshold: nat, profile: Profile, time: nat)
    | AddedOwner(account: Address, owner: Address, time: nat)
    | RemovedOwner(account: Address, owner: Address, time: nat)
    | ChangedThreshold(account: Address, threshold: nat, time: nat)
    | UpgradedToMulti(account: Address, owners: seq<Address>, threshold: nat, time: nat)

  // ---- The contract ----

  function ThresholdOf(a: Account): nat {
    if a.Single? then 1 else a.wallet.threshold
  }

  /** The wallet record a request works on: empty for unknown and single-owner accounts. */
  function WalletOf(accounts: Accounts, account: Address): Wallet {
    if account in accounts && accounts[account].Multi? then accounts[account].wallet else EMPTY_WALLET
  }

  function OwnersOf(accounts: Accounts, account: Address): Result<seq<Address>> {
    if account in accounts && accounts[account].Single? then Ok([accounts[account].owner])
    else GetOwners(WalletOf(accounts, account))
  }

  function ThresholdChange(account: Address, before: nat, after: nat, time: nat): seq<Event> {
    if before != after then [ChangedThreshold(account, after, time)] else []
  }

  function SingleToMulti(accounts: Accounts, account: Address, owners: seq<Address>, threshold: nat, time: nat)
    : Result<(Accounts, seq<Event>)>
  {
    match SetupOwners(owners, threshold)
    case Err(m) => Err(m)
    case Ok(w) => Ok((accounts[account := Multi(w)], [UpgradedToMulti(account, owners, threshold, time)]))
  }

  /** A request either reverts or yields the new accounts and the events emitted. */
  function Apply(accounts: Accounts, r: Request): Result<(Accounts, seq<Event>)> {
    match r
    case Create(account, owners, threshold, profile, time) =>
      if account in accounts then Err("A wallet already exists for this address")
      else if owners == [] then Err("panic: array index out of bounds")
      else if owners[0] == ZERO then Err("Invalid owner address")
      else if profile.englishName == "" then Err("englishName must not be empty")
      else if profile.originalName == "" then Err("originalName must not be empty")
      else if |owners| == 1 then
        Ok((accounts[account := Single(owners[0])], [Created(account, owners, 1, profile, time)]))
      else
        (match SetupOwners(owners, threshold)
         case Err(m) => Err(m)
         case Ok(w) =>
           match GetOwners(w)
           case Err(m) => Err(m)
           case Ok(listed) =>
             Ok((accounts[account := Multi(w)], [Created(account, listed, w.threshold, profile, time)])))
    case Add(account, owner, threshold, time) =>
      if account !in accounts then Err("Wallet is inactive or does not exist")
      else if accounts[account].Single? then
        SingleToMulti(accounts, account, [accounts[account].owner, owner], threshold, time)
      else
        var w := accounts[account].wallet;
        (match AddOwner(w, owner, threshold)
         case Err(m) => Err(m)
         case Ok(w') =>
           Ok((accounts[account := Multi(w')],
               [AddedOwner(account, owner, time)] + ThresholdChange(account, w.threshold, threshold, time))))
    case Remove(account, prev, owner, threshold, time) =>
      var w := WalletOf(accounts, account);
      (match RemoveOwner(w, prev, owner, threshold)
       case Err(m) => Err(m)
       case Ok(w') =>
         Ok((accounts[account := Multi(w')],
             [RemovedOwner(account, owner, time)] + ThresholdChange(account, w.threshold, threshold, time))))
    case Swap(account, prev, oldOwner, newOwner, time) =>
      (match SwapOwner(WalletOf(accounts, account), prev, oldOwner, newOwner)
       case Err(m) => Err(m)
       case Ok(w') =>
         Ok((accounts[account := Multi(w')],
             [RemovedOwner(account, oldOwner, time), AddedOwner(account, newOwner, time)])))
    case SetThreshold(account, threshold, time) =>
      (match ChangeThreshold(WalletOf(accounts, account), threshold)
       case Err(m) => Err(m)
       case Ok(w') => Ok((accounts[account := Multi(w')], [ChangedThreshold(account, threshold, time)])))
  }

  // ---- The index ----

  datatype Luw = Luw(
    owners: seq<Address>,
    threshold: nat,
    englishName: string,
    originalName: string,
    userType: string,
    salt: nat,
    createdAt: nat,
    updatedAt: nat)

  type Index = map<Address, Luw>

  function Millis(seconds: nat): nat { seconds * 1000 }

  function UserType(n: nat): string {
    if n == 0 then "handler" else if n == 1 then "artist" else ""
  }

  /** The entity after an event, if there is one to save. */
  function Saved(index: Index, e: Event): Option<Luw> {
    var (a, at) := (e.account, Millis(e.time));
    match e
    case Created(_, owners, threshold, p, _) =>
      var luw := if a in index then index[a]
                 else Luw(owners, threshold, p.englishName, p.originalName, "", 0, at, at);
      Some(luw.(userType := UserType(p.userType), salt := p.salt, updatedAt := at))
    case AddedOwner(_, owner, _) =>
      if a !in index then None else Some(index[a].(owners := index[a].owners + [owner], updatedAt := at))
    case RemovedOwner(_, owner, _) =>
      if a !in index || owner !in index[a].owners then None
      else Some(index[a].(owners := Without(index[a].owners, owner), updatedAt := at))
    case ChangedThreshold(_, threshold, _) =>
      if a !in index then None else Some(index[a].(threshold := threshold, updatedAt := at))
    case UpgradedToMulti(_, owners, threshold, _) =>
      if a !in index then None else Some(index[a].(owners := owners, threshold := threshold, updatedAt := at))
  }

  function Indexed(index: Index, e: Event): Index {
    match Saved(index, e)
    case None => index
    case Some(luw) => index[e.account := luw]
  }

  function IndexedAll(index: Index, events: seq<Event>): Index
    decreases |events|
  {
    if events == [] then index else IndexedAll(Indexed(index, events[0]), events[1..])
  }

  /** User type and salt are those of the profile. */
  ghost predicate HasDetails(luw: Luw, p: Profile) {
    && luw.userType == (if p.userType == 0 then "handler" else if p.userType == 1 then "artist" else "")
    && luw.salt == p.salt
  }

  /** Between the two indexes, nothing but the owners and the update time of the account differs. */
  ghost predicate OnlyOwnersOf(account: Address, before: Index, after: Index) {
    && after.Keys == before.Keys
    && (forall a :: a in before && a != account ==> after[a] == before[a])
    && (account in before ==>
          after[account] ==
          before[account].(owners := after[account].owners, updatedAt := after[account].updatedAt))
  }

  /** The event handlers, which change the stored entity in place. */
  class LicensedUserIndex {
    var luws: Index

    constructor ()
      ensures luws == map[]
    {
      luws := map[];
    }

    method HandleCreateLicensedUserWallet(account: Address, owners: seq<Address>, threshold: nat, profile: Profile,
                                          time: nat)
      modifies this
      ensures luws == Indexed(old(luws), Created(account, owners, threshold, profile, time))
      ensures luws.Keys == old(luws).Keys + {account}
      ensures account in old(luws) ==>
                luws[account].owners == old(luws)[account].owners
                && luws[account].threshold == old(luws)[account].threshold
      ensures account !in old(luws) ==>
                luws[account].owners == owners && luws[account].threshold == threshold
                && luws[account].englishName == profile.englishName
                && luws[account].originalName == profile.originalName && luws[account].createdAt == 1000 * time
      ensures HasDetails(luws[account], profile) && luws[account].updatedAt == 1000 * time
      ensures forall a :: a in old(luws) && a != account ==> luws[a] == old(luws)[a]
    {
      var luw: Luw;
      if account !in luws {
        luw := Luw(owners, threshold, profile.englishName, profile.originalName, "", 0, Millis(time), Millis(time));
      } else {
        luw := luws[account];
      }
      luw := luw.(userType := UserType(profile.userType));
      luw := luw.(salt := profile.salt);
      luw := luw.(updatedAt := Millis(time));
      luws := luws[account := luw];
    }

    method HandleAddedOwner(account: Address, owner: Address, time: nat)
      modifies this
      ensures luws == Indexed(old(luws), AddedOwner(account, owner, time))
      ensures OnlyOwnersOf(account, old(luws), luws)
      ensures account in luws ==>
                luws[account].owners == old(luws)[account].owners + [owner] && luws[account].updatedAt == 1000 * time
    {
      if account !in luws {
        return;
      }
      var luw := luws[account];
      var owners := luw.owners;
      owners := owners + [owner];
      luw := luw.(owners := owners);
      luw := luw.(updatedAt := Millis(time));
      luws := luws[account := luw];
    }

    method HandleRemovedOwner(account: Address, owner: Address, time: nat)
      modifies this
      ensures luws == Indexed(old(luws), RemovedOwner(account, owner, time))
      ensures OnlyOwnersOf(account, old(luws), luws)
      ensures account in luws ==> luws[account].owners == Without(old(luws)[account].owners, owner)
      ensures account in luws ==>
                luws[account].updatedAt ==
                if owner in old(luws)[account].owners then 1000 * time else old(luws)[account].updatedAt
    {
      if account !in luws {
        return;
      }
      var luw := luws[account];
      var ownerIdx := IndexOf(luw.owners, owner);
      if ownerIdx == -1 {
        return;
      }
      var owners := luw.owners;
      owners := owners[..ownerIdx] + owners[ownerIdx + 1..];
      luw := luw.(owners := owners);
      luw := luw.(updatedAt := Millis(time));
      luws := luws[account := luw];
    }

    method HandleChangedThreshold(account: Address, threshold: nat, time: nat)
      modifies this
      ensures luws == Indexed(old(luws), ChangedThreshold(account, threshold, time))
      ensures luws == if account !in old(luws) then old(luws)
                      else old(luws)[account := old(luws)[account].(threshold := threshold, updatedAt := 1000 * time)]
    {
      if account in luws {
        var luw := luws[account];
        luw := luw.(threshold := threshold);
        luw := luw.(updatedAt := Millis(time));
        luws := luws[account := luw];
      }
    }

    method HandleUpgradeLicensedUserWalletToMulti(account: Address, owners: seq<Address>, threshold: nat, time: nat)
      modifies this
      ensures luws == Indexed(old(luws), UpgradedToMulti(account, owners, threshold, time))
      ensures luws == if account !in old(luws) then old(luws)
                      else old(luws)[account := old(luws)[account].(owners := owners, threshold := threshold,
                                                                    updatedAt := 1000 * time)]
    {
      if account !in luws {
        return;
      }
      var luw := luws[account];
      luw := luw.(owners := owners);
      luw := luw.(threshold := threshold);
      luw := luw.(updatedAt := Millis(time));
      luws := luws[account := luw];
    }

    /** Dispatch by event, as the subgraph manifest does. */
    method Handle(e: Event)
      modifies this
      ensures luws == Indexed(old(luws), e)
    {
      match e {
        case Created(account, owners, threshold, profile, time) =>
          HandleCreateLicensedUserWallet(account, owners, threshold, profile, time);
        case AddedOwner(account, owner, time) => HandleAddedOwner(account, owner, time);
        case RemovedOwner(account, owner, time) => HandleRemovedOwner(account, owner, time);
        case ChangedThreshold(account, threshold, time) => HandleChangedThreshold(account, threshold, time);
        case UpgradedToMulti(account, owners, threshold, time) =>
          HandleUpgradeLicensedUserWalletToMulti(account, owners, threshold, time);
      }
    }

    /** Indexing the events of a request, or of any number of them. */
    method HandleAll(events: seq<Event>)
      modifies this
      ensures luws == IndexedAll(old(luws), events)
    {
      var i := 0;
      while i < |events|
        invariant 0 <= i <= |events|
        invariant IndexedAll(luws, events[i..]) == IndexedAll(old(luws), events)
      {
        Handle(events[i]);
        assert events[i..][1..] == events[i + 1..];
        i := i + 1;
      }
    }
  }

  // ---- The index tracks the chain ----

  /** `list` is the account's owners in contract order, and its count is `extra` too high. */
  ghost predicate HasList(a: Account, list: seq<Address>, extra: nat) {
    match a
    case Single(owner) => list == [owner] && extra == 0
    case Multi(w) => Padded(w, list, extra)
  }

  /** The account has just these owners and counts them right. */
  ghost predicate ListOf(a: Account, list: seq<Address>) {
    HasList(a, list, 0)
  }

  /** The index lists the owners in some order and, beside them, one stray entry per owner counted too many. */
  ghost predicate Tracked(a: Account, luw: Luw, list: seq<Address>, strays: multiset<Address>) {
    HasList(a, list, |strays|) && multiset(luw.owners) == multiset(list) + strays && luw.threshold == ThresholdOf(a)
  }

  ghost predicate Mirrored(a: Account, luw: Luw, list: seq<Address>) {
    ListOf(a, list) && NoRepeats(luw.owners) && multiset(luw.owners) == multiset(list)
    && luw.threshold == ThresholdOf(a)
  }

  /** The account is indexed with a permutation of its owners, or neither exists nor is indexed. */
  ghost predicate MirrorsAccount(accounts: Accounts, index: Index, a: Address) {
    (a in accounts <==> a in index)
    && (a in accounts ==> exists list :: Mirrored(accounts[a], index[a], list))
  }

  /** Every account is indexed with a permutation of its owners, and nothing else is indexed. */
  ghost predicate Mirrors(accounts: Accounts, index: Index) {
    forall a :: MirrorsAccount(accounts, index, a)
  }

  /** The one thing asked of a request: an account is not set up with an owner next to itself. */
  ghost predicate Careful(accounts: Accounts, r: Request) {
    match r
    case Create(_, owners, _, _, _) => NoAdjacentRepeats(owners)
    case Add(account, owner, _, _) =>
      account in accounts && accounts[account].Single? ==> accounts[account].owner != owner
    case _ => true
  }

  /** The stray entries an accepted request leaves its account with; only a set-up makes any, nothing clears them. */
  ghost function StraysAfter(accounts: Accounts, r: Request, strays: multiset<Address>): multiset<Address> {
    match r
    case Create(_, owners, _, _, _) => multiset(Zeros(Surplus(owners)))
    case Add(account, owner, _, _) =>
      if account in accounts && accounts[account].Single? && accounts[account].owner == owner
      then multiset{owner} else strays
    case _ => strays
  }

  lemma NoRepeatsFromMultiset(a: seq<Address>, b: seq<Address>)
    requires NoRepeats(a) && multiset(a) == multiset(b)
    ensures NoRepeats(b)
  {
    DistinctCount(a);
    DistinctCount(b);
    assert |a| == |multiset(a)| == |multiset(b)| == |b|;
    forall x ensures x in a <==> x in b { assert x in multiset(a) <==> x in multiset(b); }
    assert Members(a) == Members(b);
  }

  lemma ListOnce(a: Account, list: seq<Address>, m: nat, list': seq<Address>, n: nat)
    requires HasList(a, list, m) && HasList(a, list', n)
    ensures list == list' && m == n
  {
    if a.Multi? { PaddedOnce(a.wallet, list, m, list', n); }
  }

  /** A tracked account is mirrored exactly when there are no stray entries. */
  lemma MirroredIff(a: Account, luw: Luw, list: seq<Address>, strays: multiset<Address>)
    requires Tracked(a, luw, list, strays)
    ensures (exists l :: Mirrored(a, luw, l)) <==> strays == multiset{}
  {
    if strays == multiset{} {
      assert NoRepeats(list);
      NoRepeatsFromMultiset(list, luw.owners);
      assert Mirrored(a, luw, list);
    }
    if l :| Mirrored(a, luw, l) {
      ListOnce(a, l, 0, list, |strays|);
    }
  }

  lemma MirroredIsTracked(a: Account, luw: Luw, list: seq<Address>)
    requires Mirrored(a, luw, list)
    ensures Tracked(a, luw, list, multiset{})
  {
  }

  lemma WithoutMultiset(s: seq<Address>, a: Address)
    ensures multiset(Without(s, a)) == multiset(s) - multiset{a}
  {
    var i := IndexOf(s, a);
    if i >= 0 {
      assert s == s[..i] + [s[i]] + s[i + 1..];
    } else {
      assert a !in multiset(s);
    }
  }

  lemma UpdateMultiset(s: seq<Address>, k: nat, x: Address)
    requires k < |s|
    ensures multiset(s[k := x]) == multiset(s) - multiset{s[k]} + multiset{x}
  {
    assert s == s[..k] + [s[k]] + s[k + 1..];
    assert s[k := x] == s[..k] + [x] + s[k + 1..];
  }

  lemma IndexedOwner(luw: Luw, list: seq<Address>, strays: multiset<Address>, owner: Address)
    requires multiset(luw.owners) == multiset(list) + strays && owner in list
    ensures owner in luw.owners
  {
    assert owner in multiset(list);
    assert owner in multiset(luw.owners);
  }

  /** Dropping an owner from the list and from the index keeps the strays. */
  lemma WithoutFromBoth(list: seq<Address>, owners: seq<Address>, strays: multiset<Address>, a: Address)
    requires multiset(owners) == multiset(list) + strays && a in list
    ensures multiset(Without(owners, a)) == multiset(Without(list, a)) + strays
  {
    WithoutMultiset(list, a);
    WithoutMultiset(owners, a);
    assert a in multiset(list);
  }

  /** Replacing in the list is dropping and appending in the index. */
  lemma ReplacedInBoth(list: seq<Address>, owners: seq<Address>, strays: multiset<Address>, a: Address, b: Address)
    requires multiset(owners) == multiset(list) + strays && a in list
    ensures multiset(Without(owners, a) + [b]) == multiset(list[IndexOf(list, a) := b]) + strays
  {
    var k, rest := IndexOf(list, a), Without(owners, a);
    UpdateMultiset(list, k, b);
    WithoutMultiset(owners, a);
    assert a in multiset(list);
    assert multiset(rest + [b]) == multiset(rest) + multiset{b};
  }

  /** The threshold event, when there is one, brings the indexed threshold up to date. */
  lemma ThresholdTail(index: Index, e: Event, account: Address, before: nat, after: nat, time: nat)
    requires account in Indexed(index, e) && Indexed(index, e)[account].threshold == before
    ensures var index' := IndexedAll(index, [e] + ThresholdChange(account, before, after, time));
            && account in index' && index'[account].threshold == after
            && index'[account].owners == Indexed(index, e)[account].owners
  {
    var tail := ThresholdChange(account, before, after, time);
    assert ([e] + tail)[1..] == tail;
    if before != after {
      OneEvent(Indexed(index, e), tail);
    }
  }

  /** The request is about an indexed list account and is accepted. */
  ghost predicate Accepted(accounts: Accounts, index: Index, r: Request, list: seq<Address>,
                           strays: multiset<Address>)
  {
    && r.account in accounts && accounts[r.account].Multi? && r.account in index
    && Tracked(accounts[r.account], index[r.account], list, strays) && Apply(accounts, r).Ok?
  }

  /** Afterwards the account is tracked with the list `list'` and the given strays. */
  ghost predicate StepTracks(accounts: Accounts, index: Index, r: Request, list': seq<Address>,
                             strays: multiset<Address>)
    requires Apply(accounts, r).Ok?
  {
    var (accounts', events) := Apply(accounts, r).value;
    var index' := IndexedAll(index, events);
    r.account in accounts' && r.account in index' && Tracked(accounts'[r.account], index'[r.account], list', strays)
  }

  /** An owner event and the threshold event after it bring the index in step. */
  lemma OwnerEventTracks(accounts: Accounts, index: Index, r: Request, w': Wallet, e: Event, before: nat,
                         owners': seq<Address>, list': seq<Address>, strays: multiset<Address>)
    requires (r.Add? || r.Remove?) && r.account == e.account
    requires Apply(accounts, r) ==
             Ok((accounts[r.account := Multi(w')], [e] + ThresholdChange(r.account, before, r.threshold, r.time)))
    requires Saved(index, e).Some? && Saved(index, e).value.owners == owners'
    requires Saved(index, e).value.threshold == before
    requires Padded(w', list', |strays|) && w'.threshold == r.threshold
    requires multiset(owners') == multiset(list') + strays
    ensures StepTracks(accounts, index, r, list', strays)
  {
    ThresholdTail(index, e, r.account, before, r.threshold, r.time);
  }

  lemma AddStep(accounts: Accounts, index: Index, r: Request, list: seq<Address>, strays: multiset<Address>)
    requires r.Add? && Accepted(accounts, index, r, list, strays)
    ensures StepTracks(accounts, index, r, [r.owner] + list, strays)
  {
    var w, luw := accounts[r.account].wallet, index[r.account];
    AddOwnerMeaning(w, list, |strays|, r.owner, r.threshold);
    assert multiset([r.owner] + list) == multiset{r.owner} + multiset(list);
    assert multiset(luw.owners + [r.owner]) == multiset(luw.owners) + multiset{r.owner};
    OwnerEventTracks(accounts, index, r, AddOwner(w, r.owner, r.threshold).value,
                     AddedOwner(r.account, r.owner, r.time), w.threshold, luw.owners + [r.owner],
                     [r.owner] + list, strays);
  }

  lemma RemoveStep(accounts: Accounts, index: Index, r: Request, list: seq<Address>, strays: multiset<Address>)
    requires r.Remove? && Accepted(accounts, index, r, list, strays)
    ensures StepTracks(accounts, index, r, Without(list, r.owner), strays)
  {
    var w, luw, e := accounts[r.account].wallet, index[r.account], RemovedOwner(r.account, r.owner, r.time);
    var w' := RemoveOwner(w, r.prev, r.owner, r.threshold).value;
    RemoveOwnerMeaning(w, list, |strays|, r.prev, r.owner, r.threshold);
    IndexedOwner(luw, list, strays, r.owner);
    WithoutFromBoth(list, luw.owners, strays, r.owner);
    OwnerEventTracks(accounts, index, r, w', e, w.threshold, Without(luw.owners, r.owner), Without(list, r.owner),
                     strays);
  }

  lemma SwapStep(accounts: Accounts, index: Index, r: Request, list: seq<Address>, strays: multiset<Address>)
    requires r.Swap? && Accepted(accounts, index, r, list, strays)
    ensures r.oldOwner in list
    ensures StepTracks(accounts, index, r, list[IndexOf(list, r.oldOwner) := r.newOwner], strays)
  {
    var w, luw := accounts[r.account].wallet, index[r.account];
    SwapOwnerMeaning(w, list, |strays|, r.prev, r.oldOwner, r.newOwner);
    IndexedOwner(luw, list, strays, r.oldOwner);
    ReplacedInBoth(list, luw.owners, strays, r.oldOwner, r.newOwner);
    SwapEvents(index, r);
  }

  /** A swap drops the old owner from the index and appends the new one. */
  lemma SwapEvents(index: Index, r: Request)
    requires r.Swap? && r.account in index && r.oldOwner in index[r.account].owners
    ensures var index' := IndexedAll(index, [RemovedOwner(r.account, r.oldOwner, r.time),
                                             AddedOwner(r.account, r.newOwner, r.time)]);
            && r.account in index' && index'[r.account].threshold == index[r.account].threshold
            && index'[r.account].owners == Without(index[r.account].owners, r.oldOwner) + [r.newOwner]
  {
    TwoEvents(index, RemovedOwner(r.account, r.oldOwner, r.time), AddedOwner(r.account, r.newOwner, r.time));
  }

  lemma SetThresholdStep(accounts: Accounts, index: Index, r: Request, list: seq<Address>,
                         strays: multiset<Address>)
    requires r.SetThreshold? && Accepted(accounts, index, r, list, strays)
    ensures StepTracks(accounts, index, r, list, strays)
  {
    OneEvent(index, [ChangedThreshold(r.account, r.threshold, r.time)]);
  }

  /** Creating a wallet with more than 255 owners always reverts: its owners cannot be read back. */
  lemma CreationFits(accounts: Accounts, r: Request)
    requires r.Create? && Apply(accounts, r).Ok?
    ensures |r.owners| <= 255
  {
    if |r.owners| > 255 {
      LongListCannotBeRead(r.owners, r.threshold);
    }
  }

  /** An accepted creation with more than one owner announces the linked ones and a zero for each surplus one. */
  lemma CreatedMulti(accounts: Accounts, r: Request)
    requires r.Create? && |r.owners| > 1 && Apply(accounts, r).Ok?
    ensures var (w, list) := (SetupOwners(r.owners, r.threshold).value, Squeeze(r.owners));
            && SetupOwners(r.owners, r.threshold).Ok? && Padded(w, list, Surplus(r.owners))
            && Apply(accounts, r) == Ok((accounts[r.account := Multi(w)],
                                         [Created(r.account, list + Zeros(Surplus(r.owners)), w.threshold,
                                                  r.profile, r.time)]))
  {
    CreationFits(accounts, r);
    SetupIsPadded(r.owners, r.threshold);
    GetOwnersIsTheList(SetupOwners(r.owners, r.threshold).value, Squeeze(r.owners), Surplus(r.owners));
  }

  lemma CreatedSingle(accounts: Accounts, r: Request)
    requires r.Create? && |r.owners| == 1 && Apply(accounts, r).Ok?
    ensures Apply(accounts, r) == Ok((accounts[r.account := Single(r.owners[0])],
                                      [Created(r.account, r.owners, 1, r.profile, r.time)]))
    ensures Surplus(r.owners) == 0
  {
  }

  lemma CreatesAfresh(accounts: Accounts, r: Request)
    requires r.Create? && Apply(accounts, r).Ok?
    ensures r.account !in accounts && r.owners != []
  {
  }

  /** One event is enough when it brings the entity in step with the account. */
  lemma EventTracks(accounts: Accounts, index: Index, r: Request, a': Account, e: Event, list': seq<Address>,
                    strays: multiset<Address>)
    requires Apply(accounts, r) == Ok((accounts[r.account := a'], [e])) && e.account == r.account
    requires Saved(index, e).Some? && Tracked(a', Saved(index, e).value, list', strays)
    ensures StepTracks(accounts, index, r, list', strays)
  {
    OneEvent(index, [e]);
  }

  lemma CreateStep(accounts: Accounts, index: Index, r: Request)
    requires r.Create? && Apply(accounts, r).Ok? && r.account !in index
    ensures StepTracks(accounts, index, r, Squeeze(r.owners), multiset(Zeros(Surplus(r.owners))))
  {
    CreatesAfresh(accounts, r);
    if |r.owners| > 1 {
      CreateMultiStep(accounts, index, r);
    } else {
      CreatedSingle(accounts, r);
      assert Squeeze(r.owners) == r.owners == [r.owners[0]] && multiset(Zeros(0)) == multiset{};
      EventTracks(accounts, index, r, Single(r.owners[0]), Created(r.account, r.owners, 1, r.profile, r.time),
                  Squeeze(r.owners), multiset{});
    }
  }

  lemma CreateMultiStep(accounts: Accounts, index: Index, r: Request)
    requires r.Create? && |r.owners| > 1 && Apply(accounts, r).Ok? && r.account !in index
    ensures StepTracks(accounts, index, r, Squeeze(r.owners), multiset(Zeros(Surplus(r.owners))))
  {
    CreatedMulti(accounts, r);
    var w, list, zeros := SetupOwners(r.owners, r.threshold).value, Squeeze(r.owners), Zeros(Surplus(r.owners));
    var e := Created(r.account, list + zeros, w.threshold, r.profile, r.time);
    CreationTracked(index, e, w, list, zeros);
    EventTracks(accounts, index, r, Multi(w), e, list, multiset(zeros));
  }

  lemma CreationTracked(index: Index, e: Event, w: Wallet, list: seq<Address>, zeros: seq<Address>)
    requires e.Created? && e.account !in index && e.owners == list + zeros && e.threshold == w.threshold
    requires Padded(w, list, |zeros|)
    ensures Saved(index, e).Some? && Tracked(Multi(w), Saved(index, e).value, list, multiset(zeros))
  {
    assert multiset(list + zeros) == multiset(list) + multiset(zeros);
  }

  lemma UpgradedByAdd(accounts: Accounts, r: Request, owners: seq<Address>)
    requires r.Add? && r.account in accounts && accounts[r.account].Single? && Apply(accounts, r).Ok?
    requires owners == [accounts[r.account].owner, r.owner]
    ensures SetupOwners(owners, r.threshold).Ok?
    ensures SetupOwners(owners, r.threshold).value.threshold == r.threshold
    ensures Apply(accounts, r) == Ok((accounts[r.account := Multi(SetupOwners(owners, r.threshold).value)],
                                      [UpgradedToMulti(r.account, owners, r.threshold, r.time)]))
  {
    assert Apply(accounts, r) == SingleToMulti(accounts, r.account, owners, r.threshold, r.time);
  }

  /** The stray entry of a pair of owners: the second one, if it is the first one again. */
  ghost function PairStrays(owners: seq<Address>): multiset<Address>
    requires |owners| == 2
  {
    if owners[0] == owners[1] then multiset{owners[1]} else multiset{}
  }

  lemma PairSqueezed(owners: seq<Address>)
    requires |owners| == 2
    ensures Surplus(owners) == |PairStrays(owners)|
    ensures multiset(owners) == multiset(Squeeze(owners)) + PairStrays(owners)
  {
    assert owners[..1] == [owners[0]] && owners == [owners[0]] + [owners[1]];
    assert Squeeze(owners[..1]) == [owners[0]];
  }

  lemma UpgradeTracked(index: Index, account: Address, owners: seq<Address>, threshold: nat, time: nat)
    requires account in index && |owners| == 2 && SetupOwners(owners, threshold).Ok?
    ensures var luw := Saved(index, UpgradedToMulti(account, owners, threshold, time));
            luw.Some? && Tracked(Multi(SetupOwners(owners, threshold).value), luw.value, Squeeze(owners),
                                 PairStrays(owners))
  {
    SetupMeaning(owners, threshold);
    SetupIsPadded(owners, threshold);
    PairSqueezed(owners);
  }

  lemma UpgradeStep(accounts: Accounts, index: Index, r: Request)
    requires Apply(accounts, r).Ok? && r.account in index
    requires r.Add? && r.account in accounts && accounts[r.account].Single?
    ensures var owners := [accounts[r.account].owner, r.owner];
            StepTracks(accounts, index, r, Squeeze(owners), PairStrays(owners))
  {
    var owners := [accounts[r.account].owner, r.owner];
    UpgradedByAdd(accounts, r, owners);
    UpgradeTracked(index, r.account, owners, r.threshold, r.time);
    EventTracks(accounts, index, r, Multi(SetupOwners(owners, r.threshold).value),
                UpgradedToMulti(r.account, owners, r.threshold, r.time), Squeeze(owners), PairStrays(owners));
  }

  lemma TwoEvents(index: Index, d: Event, e: Event)
    ensures IndexedAll(index, [d, e]) == Indexed(Indexed(index, d), e)
  {
    assert [d, e][1..] == [e];
    OneEvent(Indexed(index, d), [e]);
  }

  lemma OneEvent(index: Index, events: seq<Event>)
    requires |events| == 1
    ensures IndexedAll(index, events) == Indexed(index, events[0])
  {
    assert events[1..] == [];
  }

  /** An accepted request changes its own account and emits events about it only. */
  lemma RequestIsLocal(accounts: Accounts, r: Request, a: Address)
    requires Apply(accounts, r).Ok? && a != r.account
    ensures var (accounts', events) := Apply(accounts, r).value;
            && (a in accounts' <==> a in accounts) && (a in accounts ==> accounts'[a] == accounts[a])
            && forall i :: 0 <= i < |events| ==> events[i].account == r.account
  {
  }

  lemma OthersUntouched(accounts: Accounts, index: Index, r: Request, a: Address)
    requires Apply(accounts, r).Ok? && a != r.account
    ensures var (accounts', events) := Apply(accounts, r).value;
            var index' := IndexedAll(index, events);
            && (a in accounts' <==> a in accounts) && (a in index' <==> a in index)
            && (a in accounts ==> accounts'[a] == accounts[a]) && (a in index ==> index'[a] == index[a])
  {
    RequestIsLocal(accounts, r, a);
    IndexFrame(index, Apply(accounts, r).value.1, r.account, a);
  }

  lemma {:induction false} IndexFrame(index: Index, events: seq<Event>, account: Address, a: Address)
    requires a != account && forall i :: 0 <= i < |events| ==> events[i].account == account
    ensures a in IndexedAll(index, events) <==> a in index
    ensures a in index ==> IndexedAll(index, events)[a] == index[a]
    decreases |events|
  {
    if events != [] { IndexFrame(Indexed(index, events[0]), events[1..], account, a); }
  }

  /** The account is tracked with these strays, or neither exists nor is indexed. */
  ghost predicate TracksAccount(accounts: Accounts, index: Index, a: Address, strays: multiset<Address>) {
    (a in accounts <==> a in index)
    && if a in accounts then exists list :: Tracked(accounts[a], index[a], list, strays) else strays == multiset{}
  }

  lemma TrackedMirrorsIff(accounts: Accounts, index: Index, a: Address, strays: multiset<Address>)
    requires TracksAccount(accounts, index, a, strays)
    ensures MirrorsAccount(accounts, index, a) <==> strays == multiset{}
  {
    if a in accounts {
      var list :| Tracked(accounts[a], index[a], list, strays);
      MirroredIff(accounts[a], index[a], list, strays);
    }
  }

  /** An accepted request leaves its account tracked. */
  lemma AccountStep(accounts: Accounts, index: Index, r: Request, strays: multiset<Address>)
    requires Apply(accounts, r).Ok? && TracksAccount(accounts, index, r.account, strays)
    ensures TracksAccount(Apply(accounts, r).value.0, IndexedAll(index, Apply(accounts, r).value.1), r.account,
                          StraysAfter(accounts, r, strays))
  {
    var list';
    if r.Create? {
      CreatesAfresh(accounts, r);
      CreateStep(accounts, index, r);
      list' := Squeeze(r.owners);
    } else {
      UnknownRejects(accounts, r);
      var list :| Tracked(accounts[r.account], index[r.account], list, strays);
      if accounts[r.account].Single? {
        SingleRejects(accounts, r);
        UpgradeStep(accounts, index, r);
        list' := Squeeze([accounts[r.account].owner, r.owner]);
      } else {
        list' := MultiStep(accounts, index, r, list, strays);
      }
    }
    assert StepTracks(accounts, index, r, list', StraysAfter(accounts, r, strays));
  }

  lemma MultiStep(accounts: Accounts, index: Index, r: Request, list: seq<Address>, strays: multiset<Address>)
    returns (list': seq<Address>)
    requires !r.Create? && Accepted(accounts, index, r, list, strays)
    ensures StepTracks(accounts, index, r, list', strays)
  {
    match r
    case Add(_, owner, _, _) =>
      list' := [owner] + list;
      AddStep(accounts, index, r, list, strays);
    case Remove(_, _, owner, _, _) =>
      list' := Without(list, owner);
      RemoveStep(accounts, index, r, list, strays);
    case Swap(_, _, oldOwner, newOwner, _) =>
      SwapStep(accounts, index, r, list, strays);
      list' := list[IndexOf(list, oldOwner) := newOwner];
    case SetThreshold(_, _, _) =>
      list' := list;
      SetThresholdStep(accounts, index, r, list, strays);
  }

  /** Only a new account or an added owner gets past a single-owner account. */
  lemma SingleRejects(accounts: Accounts, r: Request)
    requires r.account in accounts && accounts[r.account].Single? && Apply(accounts, r).Ok?
    ensures r.Add?
  {
  }

  lemma UnknownRejects(accounts: Accounts, r: Request)
    requires Apply(accounts, r).Ok? && !r.Create?
    ensures r.account in accounts
  {
  }

  /** From no strays, a request leaves none exactly when it is careful. */
  lemma CarefulLeavesNone(accounts: Accounts, r: Request)
    ensures StraysAfter(accounts, r, multiset{}) == multiset{} <==> Careful(accounts, r)
  {
    if r.Create? {
      NoSurplus(r.owners);
      assert |multiset(Zeros(Surplus(r.owners)))| == Surplus(r.owners);
    }
  }

  /** After an accepted request the index mirrors the chain exactly when the request was careful. */
  lemma StepMirrorsIff(accounts: Accounts, index: Index, r: Request)
    requires Mirrors(accounts, index) && Apply(accounts, r).Ok?
    ensures Mirrors(Apply(accounts, r).value.0, IndexedAll(index, Apply(accounts, r).value.1)) <==>
            Careful(accounts, r)
  {
    var accounts', index' := Apply(accounts, r).value.0, IndexedAll(index, Apply(accounts, r).value.1);
    assert MirrorsAccount(accounts, index, r.account);
    MirrorsIsTracks(accounts, index, r.account);
    AccountStep(accounts, index, r, multiset{});
    TrackedMirrorsIff(accounts', index', r.account, StraysAfter(accounts, r, multiset{}));
    CarefulLeavesNone(accounts, r);
    forall a | a != r.account ensures MirrorsAccount(accounts', index', a) {
      assert MirrorsAccount(accounts, index, a);
      OthersUntouched(accounts, index, r, a);
    }
  }

  lemma MirrorsIsTracks(accounts: Accounts, index: Index, a: Address)
    requires MirrorsAccount(accounts, index, a)
    ensures TracksAccount(accounts, index, a, multiset{})
  {
    if a in accounts {
      var list :| Mirrored(accounts[a], index[a], list);
      MirroredIsTracked(accounts[a], index[a], list);
    }
  }

  // ---- Runs ----

  datatype System = System(accounts: Accounts, index: Index)

  const INITIAL := System(map[], map[])

  /** A reverted request changes nothing and emits nothing. */
  function Advance(s: System, r: Request): System {
    match Apply(s.accounts, r)
    case Err(_) => s
    case Ok((accounts, events)) => System(accounts, IndexedAll(s.index, events))
  }

  function RunAll(requests: seq<Request>): System {
    if requests == [] then INITIAL
    else Advance(RunAll(requests[..|requests| - 1]), requests[|requests| - 1])
  }

  /** The stray entries a run has left the account with. */
  ghost function StraysOf(requests: seq<Request>, a: Address): multiset<Address> {
    if requests == [] then multiset{}
    else
      var before, r := requests[..|requests| - 1], requests[|requests| - 1];
      var accounts := RunAll(before).accounts;
      if r.account == a && Apply(accounts, r).Ok? then StraysAfter(accounts, r, StraysOf(before, a))
      else StraysOf(before, a)
  }

  /**
   Over every run, careful or not, the index lists each account's owners and threshold, with
   the strays of its set-up beside them.
   */
  lemma {:induction false} IndexTracksChain(requests: seq<Request>, a: Address)
    ensures TracksAccount(RunAll(requests).accounts, RunAll(requests).index, a, StraysOf(requests, a))
  {
    if requests != [] {
      var before, r := requests[..|requests| - 1], requests[|requests| - 1];
      var s := RunAll(before);
      IndexTracksChain(before, a);
      if Apply(s.accounts, r).Ok? {
        if r.account == a {
          AccountStep(s.accounts, s.index, r, StraysOf(before, a));
        } else {
          OthersUntouched(s.accounts, s.index, r, a);
        }
      }
    }
  }

  /** Request `i` of the run is accepted though it sets up the account with an owner next to itself. */
  ghost predicate CarelessAt(requests: seq<Request>, i: int, a: Address) {
    && 0 <= i < |requests| && requests[i].account == a
    && Apply(RunAll(requests[..i]).accounts, requests[i]).Ok? && !Careful(RunAll(requests[..i]).accounts, requests[i])
  }

  ghost predicate EverCareless(requests: seq<Request>, a: Address) {
    exists i :: CarelessAt(requests, i, a)
  }

  lemma CarelessPrefix(requests: seq<Request>, i: int, a: Address)
    requires 0 <= i < |requests| - 1
    ensures CarelessAt(requests, i, a) <==> CarelessAt(requests[..|requests| - 1], i, a)
  {
    assert requests[..|requests| - 1][..i] == requests[..i];
  }

  lemma CarelessSplit(requests: seq<Request>, a: Address)
    requires requests != []
    ensures EverCareless(requests, a) <==>
            EverCareless(requests[..|requests| - 1], a) || CarelessAt(requests, |requests| - 1, a)
  {
    var before := requests[..|requests| - 1];
    if i :| CarelessAt(requests, i, a) {
      if i < |before| { CarelessPrefix(requests, i, a); }
    }
    if i :| CarelessAt(before, i, a) {
      CarelessPrefix(requests, i, a);
    }
  }

  /** A careless set-up is for good: once there are strays there always will be. */
  lemma {:induction false} StraysIff(requests: seq<Request>, a: Address)
    ensures StraysOf(requests, a) != multiset{} <==> EverCareless(requests, a)
  {
    if requests != [] {
      var before, r := requests[..|requests| - 1], requests[|requests| - 1];
      StraysIff(before, a);
      CarelessSplit(requests, a);
      if r.account == a && Apply(RunAll(before).accounts, r).Ok? {
        IndexTracksChain(before, a);
        StraysStep(RunAll(before).accounts, RunAll(before).index, r, StraysOf(before, a));
      }
    }
  }

  /** Strays come from careless requests and stay. */
  lemma StraysStep(accounts: Accounts, index: Index, r: Request, strays: multiset<Address>)
    requires Apply(accounts, r).Ok? && TracksAccount(accounts, index, r.account, strays)
    ensures StraysAfter(accounts, r, strays) == multiset{} <==> strays == multiset{} && Careful(accounts, r)
  {
    if r.Create? {
      CreatesAfresh(accounts, r);
      CarefulLeavesNone(accounts, r);
    } else if r.Add? && r.account in accounts && accounts[r.account].Single? {
      var list :| Tracked(accounts[r.account], index[r.account], list, strays);
      assert |strays| == 0;
      CarefulLeavesNone(accounts, r);
    }
  }

  /**
   At the end of any run the index mirrors an account exactly when no accepted request set that
   account up with an owner next to itself, whatever was done to it before or since.
   */
  lemma IndexMirrorsAccountIff(requests: seq<Request>, a: Address)
    ensures MirrorsAccount(RunAll(requests).accounts, RunAll(requests).index, a) <==>
            !EverCareless(requests, a)
  {
    IndexTracksChain(requests, a);
    TrackedMirrorsIff(RunAll(requests).accounts, RunAll(requests).index, a, StraysOf(requests, a));
    StraysIff(requests, a);
  }

  /** The accepted requests are careful; nothing is asked of those that revert. */
  ghost predicate CarefulRun(requests: seq<Request>) {
    forall i :: 0 <= i < |requests| && Apply(RunAll(requests[..i]).accounts, requests[i]).Ok? ==>
      Careful(RunAll(requests[..i]).accounts, requests[i])
  }

  /** At the end of any run the index mirrors the chain exactly when every accepted request was careful. */
  lemma IndexMirrorsChainIff(requests: seq<Request>)
    ensures Mirrors(RunAll(requests).accounts, RunAll(requests).index) <==> CarefulRun(requests)
  {
    if CarefulRun(requests) {
      forall a ensures MirrorsAccount(RunAll(requests).accounts, RunAll(requests).index, a) {
        IndexMirrorsAccountIff(requests, a);
      }
    } else {
      var i :| 0 <= i < |requests| && Apply(RunAll(requests[..i]).accounts, requests[i]).Ok?
               && !Careful(RunAll(requests[..i]).accounts, requests[i]);
      assert CarelessAt(requests, i, requests[i].account);
      IndexMirrorsAccountIff(requests, requests[i].account);
    }
  }

  /** The accepted request that created the account, if any. */
  ghost function CreationOf(requests: seq<Request>, a: Address): (r: Option<Request>)
    ensures r.Some? ==> r.value.Create? && r.value.account == a
  {
    if requests == [] then None
    else
      var before, r := requests[..|requests| - 1], requests[|requests| - 1];
      if r.Create? && r.account == a && Apply(RunAll(before).accounts, r).Ok? then Some(r) else CreationOf(before, a)
  }

  ghost predicate SameDetails(l: Luw, m: Luw) {
    && l.englishName == m.englishName && l.originalName == m.originalName
    && l.userType == m.userType && l.salt == m.salt && l.createdAt == m.createdAt
  }

  lemma {:induction false} OwnerEventsKeepDetails(index: Index, events: seq<Event>, a: Address)
    requires a in index && forall i :: 0 <= i < |events| ==> !events[i].Created?
    ensures a in IndexedAll(index, events) && SameDetails(IndexedAll(index, events)[a], index[a])
    decreases |events|
  {
    if events != [] { OwnerEventsKeepDetails(Indexed(index, events[0]), events[1..], a); }
  }

  lemma OnlyCreationsCreate(accounts: Accounts, r: Request)
    requires !r.Create? && Apply(accounts, r).Ok?
    ensures var events := Apply(accounts, r).value.1; forall i :: 0 <= i < |events| ==> !events[i].Created?
  {
  }

  /** Names, user type, salt and creation time are those of the account's creation, whatever happened since. */
  lemma {:induction false} DetailsReflectRun(requests: seq<Request>, a: Address)
    ensures a in RunAll(requests).index ==>
              && CreationOf(requests, a).Some?
              && var (luw, r) := (RunAll(requests).index[a], CreationOf(requests, a).value);
                 && luw.englishName == r.profile.englishName && luw.originalName == r.profile.originalName
                 && HasDetails(luw, r.profile) && luw.createdAt == 1000 * r.time
  {
    if requests != [] {
      var before, r := requests[..|requests| - 1], requests[|requests| - 1];
      var s := RunAll(before);
      DetailsReflectRun(before, a);
      if Apply(s.accounts, r).Ok? {
        if r.account != a {
          OthersUntouched(s.accounts, s.index, r, a);
        } else if r.Create? {
          IndexTracksChain(before, a);
          CreationDetails(s.accounts, s.index, r);
        } else {
          IndexTracksChain(before, a);
          UnknownRejects(s.accounts, r);
          OnlyCreationsCreate(s.accounts, r);
          OwnerEventsKeepDetails(s.index, Apply(s.accounts, r).value.1, a);
        }
      }
    }
  }

  lemma CreationDetails(accounts: Accounts, index: Index, r: Request)
    requires r.Create? && Apply(accounts, r).Ok? && (r.account in accounts <==> r.account in index)
    ensures var index' := IndexedAll(index, Apply(accounts, r).value.1);
            && r.account in index'
            && index'[r.account].englishName == r.profile.englishName
            && index'[r.account].originalName == r.profile.originalName
            && HasDetails(index'[r.account], r.profile) && index'[r.account].createdAt == 1000 * r.time
  {
    CreatesAfresh(accounts, r);
    if |r.owners| > 1 { CreatedMulti(accounts, r); } else { CreatedSingle(accounts, r); }
    OneEvent(index, Apply(accounts, r).value.1);
  }

  /** Adding a single owner's own address is accepted, and the index then lists it twice. */
  lemma CarelessRunDiverges(account: Address, owner: Address, profile: Profile, time: nat)
    requires owner != ZERO && owner != SENTINEL && profile.englishName != "" && profile.originalName != ""
    ensures var s := RunAll([Create(account, [owner], 1, profile, time), Add(account, owner, 1, time)]);
            account in s.index && s.index[account].owners == [owner, owner] && !Mirrors(s.accounts, s.index)
  {
    var create, add := Create(account, [owner], 1, profile, time), Add(account, owner, 1, time);
    var run, created := [create, add], Created(account, [owner], 1, profile, time);
    assert run[..1] == [create] && [create][..0] == [];
    OneEvent(map[], [created]);
    var s1 := System(map[account := Single(owner)], Indexed(map[], created));
    assert RunAll([create]) == s1;
    AdjacentRepeatSlipsThrough(owner);
    OneEvent(s1.index, [UpgradedToMulti(account, [owner, owner], 1, time)]);
    assert RunAll(run) == Advance(s1, add);
    assert RunAll(run).accounts[account] == Multi(SetupOwners([owner, owner], 1).value);
    assert !MirrorsAccount(RunAll(run).accounts, RunAll(run).index, account);
  }
}
