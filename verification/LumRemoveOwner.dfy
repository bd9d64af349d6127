/**
 The administrator's helper that removes an owner: it works out the predecessor and a legal
 threshold from the owner list, then calls the contract.
 */
module LumRemoveOwner {
  import opened Wrappers
  import opened OwnerList
  import opened LicensedUsers

  function FindPreviousOwner(ownerList: seq<Address>, owner: Address): Address {
    var i := IndexOf(ownerList, owner);
    if i > 0 then ownerList[i - 1] else SENTINEL
  }

  function SetNewThreshold(ownerList: seq<Address>, currentThreshold: nat): int {
    if currentThreshold == |ownerList| then currentThreshold - 1 else currentThreshold
  }

  lemma {:induction false} IndexInPadded(list: seq<Address>, rest: seq<Address>, owner: Address)
    requires owner in list
    ensures IndexOf(list + rest, owner) == IndexOf(list, owner)
  {
    if list[0] != owner {
      IndexInPadded(list[1..], rest, owner);
      assert (list + rest)[1..] == list[1..] + rest;
    }
  }

  /**
   Whatever the contract lists, owners and possibly zeros for those counted too many, the
   helper's arguments for an owner are the ones the contract accepts: its predecessor is the
   only address linked to the owner, and the remaining owners stay in order. The threshold is
   kept unless it must shrink with the count. The owners that remain can meet it exactly when
   the count was right or the threshold was below the number of owners.
   */
  lemma HelperArgumentsAreAccepted(w: Wallet, list: seq<Address>, extra: nat, owner: Address)
    requires Padded(w, list, extra) && owner in list && w.ownerCount >= 2
    ensures var listed := list + Zeros(extra);
            var (prev, threshold) := (FindPreviousOwner(listed, owner), SetNewThreshold(listed, w.threshold));
            && GetOwners(w) == Ok(listed)
            && (forall p :: Next(w.owners, p) == owner <==> p == prev)
            && (list[0] == owner ==> prev == 1)
            && 1 <= threshold <= |list| + extra - 1
            && var r := RemoveOwner(w, prev, owner, threshold);
               && r.Ok? && Padded(r.value, Without(list, owner), extra)
               && r.value.threshold == (if w.threshold < w.ownerCount then w.threshold else w.ownerCount - 1)
               && (r.value.threshold <= |Without(list, owner)| <==> extra == 0 || w.threshold < |list|)
  {
    var listed := list + Zeros(extra);
    var prev, threshold := FindPreviousOwner(listed, owner), SetNewThreshold(listed, w.threshold);
    GetOwnersIsTheList(w, list, extra);
    IndexInPadded(list, Zeros(extra), owner);
    assert prev == At(list, IndexOf(list, owner) - 1);
    forall p ensures Next(w.owners, p) == owner <==> p == prev {
      PredecessorMeaning(w.owners, list, p, owner);
    }
    RemoveOwnerMeaning(w, list, extra, prev, owner, threshold);
  }

  /**
   A wallet set up with one owner twice in a row: the helper's removal of that owner goes
   through and leaves a wallet that counts one owner, asks for one signature and has no owner.
   */
  lemma LastOwnerIsRemoved(owner: Address)
    requires owner != ZERO && owner != SENTINEL
    ensures SetupOwners([owner, owner], 1).Ok?
    ensures var w := SetupOwners([owner, owner], 1).value;
            var listed := [owner, 0];
            var r := RemoveOwner(w, FindPreviousOwner(listed, owner), owner, SetNewThreshold(listed, w.threshold));
            && GetOwners(w) == Ok(listed) && r.Ok? && r.value.ownerCount == 1 && r.value.threshold == 1
            && Linked(r.value.owners, []) && GetOwners(r.value) == Ok([0])
  {
    var two, one := [owner, owner], [owner];
    AdjacentRepeatSlipsThrough(owner);
    assert two[..1] == one && Squeeze(two) == one && Surplus(two) == 1;
    SetupMeaning(two, 1);
    SetupIsPadded(two, 1);
    assert Zeros(1) == [ZERO] && one + [ZERO] == [owner, ZERO];
    var w := SetupOwners(two, 1).value;
    HelperArgumentsAreAccepted(w, one, 1, owner);
    assert Without(one, owner) == [];
    GetOwnersIsTheList(RemoveOwner(w, SENTINEL, owner, 1).value, [], 1);
    assert [] + [ZERO] == [ZERO];
  }

  /** The contract's accounts, changed by accepted requests only. */
  class LicensedUserManager {
    var accounts: Accounts

    constructor ()
      ensures accounts == map[]
    {
      accounts := map[];
    }

    method Send(r: Request) returns (result: Result<seq<Event>>)
      modifies this
      ensures match Apply(old(accounts), r)
              case Err(m) => result == Err(m) && accounts == old(accounts)
              case Ok((after, events)) => result == Ok(events) && accounts == after
    {
      match Apply(accounts, r) {
        case Err(m) => result := Err(m);
        case Ok((after, events)) =>
          accounts := after;
          result := Ok(events);
      }
    }
  }

  /**
   Refuses an unknown wallet, an address that is no owner and a last counted owner; otherwise
   the owner is gone from the account's list, the others keep their order, and the threshold is
   legal. `list` names the account's owners, `extra` how many it counts beside them.
   */
  method LumRemove(manager: LicensedUserManager, account: Address, ownerToRemove: Address, time: nat,
                   ghost list: seq<Address>, ghost extra: nat)
    returns (result: Result<Address>)
    requires account in manager.accounts ==> HasList(manager.accounts[account], list, extra)
    modifies manager
    ensures result.Ok? <==> account in old(manager.accounts) && ownerToRemove in list && |list| + extra >= 2
    ensures result.Err? ==> manager.accounts == old(manager.accounts)
    ensures result.Ok? ==>
              var after := manager.accounts;
              && after.Keys == old(manager.accounts).Keys
              && (forall a :: a in after && a != account ==> after[a] == old(manager.accounts)[a])
              && HasList(after[account], Without(list, ownerToRemove), extra)
              && ThresholdOf(after[account]) ==
                 (if ThresholdOf(old(manager.accounts)[account]) < |list| + extra
                  then ThresholdOf(old(manager.accounts)[account]) else |list| + extra - 1)
  {
    ReadBack(manager.accounts, account, list, extra);
    var owners := OwnersOf(manager.accounts, account);
    if owners.Err? {
      return Err(owners.message);
    }
    var ownerList := owners.value;
    if ownerToRemove !in ownerList {
      return Err("Reject attempt to remove owner that is not an owner of the LUW");
    } else if |ownerList| < 2 {
      return Err("Reject attempt to remove owner when only one owner exists");
    }
    var previousOwner := FindPreviousOwner(ownerList, ownerToRemove);
    var newThreshold := SetNewThreshold(ownerList, ThresholdOf(manager.accounts[account]));
    RemovalIsAccepted(manager.accounts, account, list, extra, ownerToRemove, time);
    var sent := manager.Send(Remove(account, previousOwner, ownerToRemove, newThreshold, time));
    if sent.Err? {
      return Err(sent.message);
    }
    return Ok(account);
  }

  /** What the contract answers when asked for the owners. */
  lemma ReadBack(accounts: Accounts, account: Address, list: seq<Address>, extra: nat)
    requires account in accounts ==> HasList(accounts[account], list, extra)
    ensures OwnersOf(accounts, account).Ok? <==> account in accounts
    ensures account in accounts ==> OwnersOf(accounts, account) == Ok(list + Zeros(extra))
  {
    if account in accounts && accounts[account].Multi? {
      GetOwnersIsTheList(accounts[account].wallet, list, extra);
    } else if account in accounts {
      assert list + Zeros(0) == list;
    }
  }

  /** The request the helper sends is accepted for owners and rejected for a zero in the list. */
  lemma RemovalIsAccepted(accounts: Accounts, account: Address, list: seq<Address>, extra: nat, owner: Address,
                          time: nat)
    requires account in accounts && HasList(accounts[account], list, extra)
    requires owner in list + Zeros(extra) && |list| + extra >= 2
    ensures var listed := list + Zeros(extra);
            var t := SetNewThreshold(listed, ThresholdOf(accounts[account]));
            && t >= 0
            && var r := Apply(accounts, Remove(account, FindPreviousOwner(listed, owner), owner, t, time));
               && (r.Ok? <==> owner in list)
               && (r.Ok? ==>
                     var a' := r.value.0;
                     && a'.Keys == accounts.Keys && (forall a :: a in a' && a != account ==> a'[a] == accounts[a])
                     && HasList(a'[account], Without(list, owner), extra)
                     && ThresholdOf(a'[account]) ==
                        (if ThresholdOf(accounts[account]) < |list| + extra
                         then ThresholdOf(accounts[account]) else |list| + extra - 1))
  {
    if owner in list {
      HelperArgumentsAreAccepted(accounts[account].wallet, list, extra, owner);
    } else {
      ZeroIsRejected(accounts, account, list, extra, owner, time);
    }
  }

  lemma ZeroIsRejected(accounts: Accounts, account: Address, list: seq<Address>, extra: nat, owner: Address,
                       time: nat)
    requires account in accounts && accounts[account].Multi? && HasList(accounts[account], list, extra)
    requires owner !in list
    ensures forall prev, t :: Apply(accounts, Remove(account, prev, owner, t, time)).Err?
  {
    forall prev: Address, t: nat ensures Apply(accounts, Remove(account, prev, owner, t, time)).Err? {
      RemoveOwnerMeaning(accounts[account].wallet, list, extra, prev, owner, t);
    }
  }
}
