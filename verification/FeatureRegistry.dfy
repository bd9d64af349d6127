/** The feature registry contract as an object, and the deployment helpers that send it cuts. */
module FeatureRegistry {
  import opened Wrappers
  import opened FeatureTable

  datatype Contract = Contract(address: Address, signatures: seq<string>)

  /** An upgrade either completes or stops at the cut that reverted. */
  datatype UpgradeResult = Done(contract: Contract) | FailedAt(stage: Action)

  /** The call made along with a cut, if any; whether it succeeds is up to the contract called. */
  datatype Init = NoInit | Call(succeeds: bool) {
    predicate Reverts() { Call? && !succeeds }
  }

  class Registry {
    var table: Table
    var interfaces: set<Selector>
    /** Every table so far, one per transaction that changed it. */
    ghost var past: seq<Table>

    constructor ()
      ensures table == map[] && interfaces == {} && past == []
    {
      table := map[];
      interfaces := {};
      past := [];
    }

    method SetSupportedInterface(interfaceId: Selector, status: bool)
      modifies this`interfaces
      ensures interfaces == if status then old(interfaces) + {interfaceId} else old(interfaces) - {interfaceId}
    {
      interfaces := if status then interfaces + {interfaceId} else interfaces - {interfaceId};
    }

    /** A transaction: either every selector is cut and the call succeeds, or nothing changes. */
    method DiamondCut(cut: FacetCut, init: Init) returns (ok: bool)
      modifies this`table, this`past
      ensures ok <==> Cut(old(table), cut).Some? && !init.Reverts()
      ensures if ok then Cut(old(table), cut) == Some(table) && past == old(past) + [table]
              else table == old(table) && past == old(past)
    {
      if |cut.selectors| == 0 || (cut.action.Remove? && cut.target != ZERO_ADDRESS) {
        return false;
      }
      var work := table;
      var i := 0;
      while i < |cut.selectors|
        invariant 0 <= i <= |cut.selectors|
        invariant CutSelectors(table, cut.target, cut.action, cut.selectors[..i]) == Some(work)
        invariant table == old(table) && past == old(past)
      {
        var s := cut.selectors[i];
        assert cut.selectors[..i + 1][..i] == cut.selectors[..i];
        match cut.action {
          case Add =>
            if s in work { RevertsFrom(table, cut, i); return false; }
            work := work[s := cut.target];
          case Replace =>
            if s !in work || work[s] == cut.target { RevertsFrom(table, cut, i); return false; }
            work := work[s := cut.target];
          case Remove =>
            if s !in work { RevertsFrom(table, cut, i); return false; }
            work := work - {s};
        }
        i := i + 1;
      }
      assert cut.selectors[..i] == cut.selectors;
      if init.Reverts() {
        return false;
      }
      table := work;
      past := past + [work];
      return true;
    }
  }

  lemma RevertsFrom(t: Table, cut: FacetCut, i: nat)
    requires i < |cut.selectors|
    requires CutSelectors(t, cut.target, cut.action, cut.selectors[..i + 1]) == None
    ensures CutSelectors(t, cut.target, cut.action, cut.selectors) == None
    decreases |cut.selectors| - i
  {
    var s := cut.selectors;
    if i + 1 < |s| {
      assert s[..i + 2][..i + 1] == s[..i + 1];
      RevertsFrom(t, cut, i + 1);
    } else {
      assert s[..i + 1] == s;
    }
  }

  method RegisterSelectors(registry: Registry, address: Address, selectors: seq<Selector>,
                           init: Init)
    returns (result: Result<()>)
    modifies registry`table, registry`past
    ensures result.Ok? <==> Cut(old(registry.table), FacetCut(address, Add, selectors)).Some? && !init.Reverts()
    ensures if result.Ok? then
              Cut(old(registry.table), FacetCut(address, Add, selectors)) == Some(registry.table)
              && registry.past == old(registry.past) + [registry.table]
            else registry.table == old(registry.table) && registry.past == old(registry.past)
  {
    var ok := registry.DiamondCut(FacetCut(address, Add, selectors), init);
    result := if ok then Ok(()) else Err("Register selectors tx failed");
  }

  method ReplaceSelectors(registry: Registry, address: Address, selectors: seq<Selector>)
    returns (result: Result<()>)
    modifies registry`table, registry`past
    ensures result.Ok? <==> Cut(old(registry.table), FacetCut(address, Replace, selectors)).Some?
    ensures if result.Ok? then
              Cut(old(registry.table), FacetCut(address, Replace, selectors)) == Some(registry.table)
              && registry.past == old(registry.past) + [registry.table]
            else registry.table == old(registry.table) && registry.past == old(registry.past)
  {
    var ok := registry.DiamondCut(FacetCut(address, Replace, selectors), NoInit);
    result := if ok then Ok(()) else Err("Replace selectors tx failed");
  }

  method RemoveSelectors(registry: Registry, selectors: seq<Selector>)
    returns (result: Result<()>)
    modifies registry`table, registry`past
    ensures result.Ok? <==> Cut(old(registry.table), FacetCut(ZERO_ADDRESS, Remove, selectors)).Some?
    ensures if result.Ok? then
              Cut(old(registry.table), FacetCut(ZERO_ADDRESS, Remove, selectors)) == Some(registry.table)
              && registry.past == old(registry.past) + [registry.table]
            else registry.table == old(registry.table) && registry.past == old(registry.past)
  {
    var ok := registry.DiamondCut(FacetCut(ZERO_ADDRESS, Remove, selectors), NoInit);
    result := if ok then Ok(()) else Err("Remove selectors tx failed");
  }

  /** Registers the contract's selectors, with the initialising call if given, then its interfaces. */
  method DeployFeature(registry: Registry, contract: Contract, sighash: string -> Selector,
                       supportedInterfaceIds: seq<Selector>, init: Init)
    returns (result: Result<Contract>)
    modifies registry
    ensures var op := Deploy("", contract.address, GetSelectors(contract.signatures, sighash));
            && (result.Ok? <==> Applied(old(registry.table), op).Some? && !init.Reverts())
            && (if result.Ok? then
                  result.value == contract && Applied(old(registry.table), op) == Some(registry.table)
                  && registry.past == old(registry.past) + [registry.table]
                  && registry.interfaces == old(registry.interfaces) + ToSet(supportedInterfaceIds)
                else
                  registry.table == old(registry.table) && registry.past == old(registry.past)
                  && registry.interfaces == old(registry.interfaces))
  {
    var selectors := GetSelectors(contract.signatures, sighash);
    var registered := RegisterSelectors(registry, contract.address, selectors, init);
    if registered.Err? {
      return Err(registered.message);
    }
    ghost var table, past := registry.table, registry.past;
    for i := 0 to |supportedInterfaceIds|
      invariant registry.table == table && registry.past == past
      invariant registry.interfaces == old(registry.interfaces) + ToSet(supportedInterfaceIds[..i])
    {
      registry.SetSupportedInterface(supportedInterfaceIds[i], true);
      SplitLast(supportedInterfaceIds[..i + 1]);
      assert supportedInterfaceIds[..i + 1][..i] == supportedInterfaceIds[..i];
    }
    assert supportedInterfaceIds[..|supportedInterfaceIds|] == supportedInterfaceIds;
    return Ok(contract);
  }

  /**
   Upgrade in three transactions. A failed cut stops it, leaving the cuts already made; on
   success the table is the upgraded one, and through every table in between each selector
   shared by both versions resolves.
   */
  method UpgradeFeature(registry: Registry, fromSelectors: seq<Selector>, contract: Contract,
                        sighash: string -> Selector) returns (result: UpgradeResult)
    modifies registry`table, registry`past
    ensures var (t, a, to) := (old(registry.table), contract.address, GetSelectors(contract.signatures, sighash));
            match result
            case Done(c) => c == contract && Upgraded(t, a, fromSelectors, to) == Some(registry.table)
            case FailedAt(stage) =>
              && Upgraded(t, a, fromSelectors, to) == None
              && match stage
                 case Add => registry.table == t
                 case Replace => Registered(t, a, fromSelectors, to) == Some(registry.table)
                 case Remove => Replaced(t, a, fromSelectors, to) == Some(registry.table)
    ensures result.Done? ==>
              ResolveThroughout(old(registry.past), registry.past, fromSelectors,
                                GetSelectors(contract.signatures, sighash))
  {
    var a := contract.address;
    var toSelectors := GetSelectors(contract.signatures, sighash);
    var commonSelectors := CommonSelectors(fromSelectors, toSelectors);
    var legacySelectors := LegacySelectors(fromSelectors, toSelectors);
    var newSelectors := NewSelectors(fromSelectors, toSelectors);
    ghost var t := registry.table;
    ghost var start := registry.past;

    if newSelectors != [] {
      var r := RegisterSelectors(registry, a, newSelectors, NoInit);
      if r.Err? {
        return FailedAt(Add);
      }
    }
    ghost var t1, past1 := registry.table, registry.past;
    assert Registered(t, a, fromSelectors, toSelectors) == Some(t1);
    assert past1 == start + Recorded(newSelectors, t1);

    if commonSelectors != [] {
      var r := ReplaceSelectors(registry, a, commonSelectors);
      if r.Err? {
        return FailedAt(Replace);
      }
    }
    ghost var t2, past2 := registry.table, registry.past;
    assert Replaced(t, a, fromSelectors, toSelectors) == Some(t2);
    assert past2 == past1 + Recorded(commonSelectors, t2);

    if legacySelectors != [] {
      var r := RemoveSelectors(registry, legacySelectors);
      if r.Err? {
        return FailedAt(Remove);
      }
    }
    ghost var t3 := registry.table;
    assert registry.past == past2 + Recorded(legacySelectors, t3);
    SharedSelectorsResolve(t, a, fromSelectors, toSelectors, t1, t2, t3, start, registry.past);
    return Done(contract);
  }

  ghost function Recorded(selectors: seq<Selector>, t: Table): seq<Table> {
    if selectors == [] then [] else [t]
  }

  /** The transactions since `before` left tables in which every selector of both lists resolves. */
  ghost predicate ResolveThroughout(before: seq<Table>, now: seq<Table>, from: seq<Selector>, to: seq<Selector>) {
    before <= now && forall i :: |before| <= i < |now| ==> BothResolve(now[i], from, to)
  }

  ghost predicate BothResolve(t: Table, from: seq<Selector>, to: seq<Selector>) {
    forall s :: s in from && s in to ==> s in t
  }

  lemma SharedSelectorsResolve(t: Table, a: Address, from: seq<Selector>, to: seq<Selector>,
                               t1: Table, t2: Table, t3: Table, before: seq<Table>, now: seq<Table>)
    requires Registered(t, a, from, to) == Some(t1) && Replaced(t, a, from, to) == Some(t2)
    requires Upgraded(t, a, from, to) == Some(t3)
    requires now == before + Recorded(NewSelectors(from, to), t1) + Recorded(CommonSelectors(from, to), t2)
                    + Recorded(LegacySelectors(from, to), t3)
    ensures ResolveThroughout(before, now, from, to)
  {
    UpgradeMeaning(t, a, from, to);
    ResolvesAt(t, a, from, to, t1);
    ResolvesAt(t, a, from, to, t2);
    ResolvesAt(t, a, from, to, t3);
    forall i | |before| <= i < |now| ensures BothResolve(now[i], from, to) {
      NewEntries(before, Recorded(NewSelectors(from, to), t1), Recorded(CommonSelectors(from, to), t2),
                 Recorded(LegacySelectors(from, to), t3), i);
    }
  }

  lemma NewEntries(before: seq<Table>, a: seq<Table>, b: seq<Table>, c: seq<Table>, i: nat)
    requires |before| <= i < |before + a + b + c|
    ensures var x := (before + a + b + c)[i]; x in a || x in b || x in c
  {
  }

  lemma ResolvesAt(t: Table, a: Address, from: seq<Selector>, to: seq<Selector>, u: Table)
    requires Upgradable(t, a, ToSet(from), ToSet(to))
    requires Registered(t, a, from, to) == Some(u) || Replaced(t, a, from, to) == Some(u)
             || Upgraded(t, a, from, to) == Some(u)
    ensures BothResolve(u, from, to)
  {
    UpgradeKeepsResolving(t, a, from, to, u);
    assert forall s :: s in from && s in to ==> s in ToSet(from) * ToSet(to);
  }
}
