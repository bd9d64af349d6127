/**
 The selector table of the collection feature registry (EIP-2535, section
 "Adding/Replacing/Removing Functions"), the cuts an upgrade issues, and what whole histories
 of deployments and upgrades leave in the table.
 */
module FeatureTable {
  import opened Wrappers

  type Address = nat
  type Selector = s: nat | s < 0x1_0000_0000
  type Table = map<Selector, Address>

  const ZERO_ADDRESS: Address := 0

  datatype Action = Add | Replace | Remove

  datatype FacetCut = FacetCut(target: Address, action: Action, selectors: seq<Selector>)

  // ---- Cuts ----

  function CutOne(t: Table, target: Address, action: Action, s: Selector): Option<Table> {
    match action
    case Add => if s in t then None else Some(t[s := target])
    case Replace => if s !in t || t[s] == target then None else Some(t[s := target])
    case Remove => if s !in t then None else Some(t - {s})
  }

  function CutSelectors(t: Table, target: Address, action: Action, selectors: seq<Selector>): Option<Table> {
    if selectors == [] then Some(t)
    else
      var n := |selectors| - 1;
      match CutSelectors(t, target, action, selectors[..n])
      case None => None
      case Some(u) => CutOne(u, target, action, selectors[n])
  }

  /** All or nothing: a revert leaves the table as it was. */
  function Cut(t: Table, cut: FacetCut): Option<Table> {
    if cut.selectors == [] || (cut.action.Remove? && cut.target != ZERO_ADDRESS) then None
    else CutSelectors(t, cut.target, cut.action, cut.selectors)
  }

  ghost predicate NoRepeats<T>(s: seq<T>) {
    forall i, j :: 0 <= i < j < |s| ==> s[i] != s[j]
  }

  function ToSet<T>(s: seq<T>): set<T> { set x | x in s }

  ghost predicate Cuttable(t: Table, target: Address, action: Action, selectors: set<Selector>) {
    forall s :: s in selectors ==> match action
      case Add => s !in t
      case Replace => s in t && t[s] != target
      case Remove => s in t
  }

  ghost function CutResult(t: Table, target: Address, action: Action, selectors: set<Selector>): Table {
    if action.Remove? then t - selectors else t + map s | s in selectors :: target
  }

  /** One more selector after those of `done`. */
  lemma CutStep(t: Table, target: Address, action: Action, done: set<Selector>, s: Selector)
    requires Cuttable(t, target, action, done)
    ensures var u := CutResult(t, target, action, done);
            && (CutOne(u, target, action, s).Some? <==> s !in done && Cuttable(t, target, action, {s}))
            && (CutOne(u, target, action, s).Some? ==>
                  CutOne(u, target, action, s).value == CutResult(t, target, action, done + {s}))
  {
    if action.Remove? {
      assert (t - done) - {s} == t - (done + {s});
    } else {
      var u := CutResult(t, target, action, done);
      assert u[s := target] == t + map x | x in done + {s} :: target;
    }
  }

  /** When a cut goes through, and the table it leaves. */
  lemma {:induction false} CutMeaning(t: Table, target: Address, action: Action, selectors: seq<Selector>)
    ensures CutSelectors(t, target, action, selectors).Some? <==>
            NoRepeats(selectors) && Cuttable(t, target, action, ToSet(selectors))
    ensures CutSelectors(t, target, action, selectors).Some? ==>
            CutSelectors(t, target, action, selectors).value == CutResult(t, target, action, ToSet(selectors))
  {
    if selectors == [] {
      assert CutResult(t, target, action, {}) == t;
    } else {
      var n := |selectors| - 1;
      CutMeaning(t, target, action, selectors[..n]);
      SplitLast(selectors);
      assert Cuttable(t, target, action, ToSet(selectors)) <==>
             Cuttable(t, target, action, ToSet(selectors[..n])) && Cuttable(t, target, action, {selectors[n]});
      if Cuttable(t, target, action, ToSet(selectors[..n])) {
        CutStep(t, target, action, ToSet(selectors[..n]), selectors[n]);
      }
    }
  }

  /** A cut also needs selectors, and a removal the zero address as its target. */
  lemma CutGoesThroughIff(t: Table, cut: FacetCut)
    ensures Cut(t, cut).Some? <==>
            cut.selectors != [] && (cut.action.Remove? ==> cut.target == 0)
            && NoRepeats(cut.selectors) && Cuttable(t, cut.target, cut.action, ToSet(cut.selectors))
    ensures Cut(t, cut).Some? ==> Cut(t, cut).value == CutResult(t, cut.target, cut.action, ToSet(cut.selectors))
  {
    CutMeaning(t, cut.target, cut.action, cut.selectors);
  }

  lemma SplitLast<T>(s: seq<T>)
    requires s != []
    ensures var n := |s| - 1;
            && ToSet(s) == ToSet(s[..n]) + {s[n]}
            && (NoRepeats(s) <==> NoRepeats(s[..n]) && s[n] !in ToSet(s[..n]))
  {
    var n := |s| - 1;
    assert s == s[..n] + [s[n]];
  }

  // ---- Selector lists ----

  /** `Array.from(new Set(s))`: first occurrences, in order. */
  function Distinct<T(==)>(s: seq<T>): seq<T> {
    if s == [] then []
    else
      var n := |s| - 1;
      if s[n] in s[..n] then Distinct(s[..n]) else Distinct(s[..n]) + [s[n]]
  }

  function Filter<T>(s: seq<T>, keep: T -> bool): seq<T> {
    if s == [] then []
    else
      var n := |s| - 1;
      Filter(s[..n], keep) + if keep(s[n]) then [s[n]] else []
  }

  /** The selectors of a contract's functions, `supportsInterface` aside. */
  function GetSelectors(signatures: seq<string>, sighash: string -> Selector): seq<Selector> {
    if signatures == [] then []
    else
      var n := |signatures| - 1;
      GetSelectors(signatures[..n], sighash)
      + if signatures[n] != "supportsInterface(bytes4)" then [sighash(signatures[n])] else []
  }

  ghost predicate ClashFree(signatures: seq<string>, sighash: string -> Selector) {
    NoRepeats(signatures)
    && forall f, g :: f in signatures && g in signatures && sighash(f) == sighash(g) ==> f == g
  }

  /** The selectors are those of the functions other than `supportsInterface`, clash-free if the hash is. */
  lemma {:induction false} GetSelectorsMeaning(signatures: seq<string>, sighash: string -> Selector)
    ensures forall s :: s in GetSelectors(signatures, sighash) <==>
              exists f :: f in signatures && f != "supportsInterface(bytes4)" && sighash(f) == s
    ensures ClashFree(signatures, sighash) ==> NoRepeats(GetSelectors(signatures, sighash))
  {
    if signatures != [] {
      var n := |signatures| - 1;
      var init, f := signatures[..n], signatures[n];
      GetSelectorsMeaning(init, sighash);
      assert signatures == init + [f];
      if ClashFree(signatures, sighash) {
        assert ClashFree(init, sighash);
        assert f !in init;
        assert forall g :: g in init ==> sighash(g) != sighash(f);
        assert sighash(f) !in GetSelectors(init, sighash);
      }
    }
  }

  /** One selector for each such function, in the order of the functions. */
  lemma {:induction false} GetSelectorsInOrder(signatures: seq<string>, sighash: string -> Selector)
    ensures var kept := Filter(signatures, (f: string) => f != "supportsInterface(bytes4)");
            && |GetSelectors(signatures, sighash)| == |kept|
            && forall i :: 0 <= i < |kept| ==> GetSelectors(signatures, sighash)[i] == sighash(kept[i])
  {
    if signatures != [] { GetSelectorsInOrder(signatures[..|signatures| - 1], sighash); }
  }

  lemma {:induction false} DistinctMeaning<T>(s: seq<T>)
    ensures NoRepeats(Distinct(s)) && forall x :: x in Distinct(s) <==> x in s
  {
    if s != [] {
      DistinctMeaning(s[..|s| - 1]);
      assert s == s[..|s| - 1] + [s[|s| - 1]];
    }
  }

  lemma {:induction false} FilterMeaning<T>(s: seq<T>, keep: T -> bool)
    ensures forall x :: x in Filter(s, keep) <==> x in s && keep(x)
    ensures NoRepeats(s) ==> NoRepeats(Filter(s, keep))
  {
    if s != [] {
      FilterMeaning(s[..|s| - 1], keep);
      assert s == s[..|s| - 1] + [s[|s| - 1]];
    }
  }

  function CommonSelectors(from: seq<Selector>, to: seq<Selector>): seq<Selector> {
    Filter(Distinct(from), s => s in to)
  }

  function LegacySelectors(from: seq<Selector>, to: seq<Selector>): seq<Selector> {
    Filter(Distinct(from), s => s !in to)
  }

  function NewSelectors(from: seq<Selector>, to: seq<Selector>): seq<Selector> {
    Filter(Distinct(to), s => s !in from)
  }

  lemma PartitionMeaning(from: seq<Selector>, to: seq<Selector>)
    ensures ToSet(CommonSelectors(from, to)) == ToSet(from) * ToSet(to)
    ensures ToSet(LegacySelectors(from, to)) == ToSet(from) - ToSet(to)
    ensures ToSet(NewSelectors(from, to)) == ToSet(to) - ToSet(from)
    ensures NoRepeats(CommonSelectors(from, to)) && NoRepeats(LegacySelectors(from, to))
    ensures NoRepeats(NewSelectors(from, to))
  {
    DistinctMeaning(from);
    DistinctMeaning(to);
    FilterMeaning(Distinct(from), (s: Selector) => s in to);
    FilterMeaning(Distinct(from), (s: Selector) => s !in to);
    FilterMeaning(Distinct(to), (s: Selector) => s !in from);
  }

  // ---- One upgrade ----

  /** A cut that is skipped when it has nothing to do. */
  function CutUnlessEmpty(t: Table, cut: FacetCut): Option<Table> {
    if cut.selectors == [] then Some(t) else Cut(t, cut)
  }

  function Registered(t: Table, a: Address, from: seq<Selector>, to: seq<Selector>): Option<Table> {
    CutUnlessEmpty(t, FacetCut(a, Add, NewSelectors(from, to)))
  }

  function Replaced(t: Table, a: Address, from: seq<Selector>, to: seq<Selector>): Option<Table> {
    match Registered(t, a, from, to)
    case None => None
    case Some(u) => CutUnlessEmpty(u, FacetCut(a, Replace, CommonSelectors(from, to)))
  }

  /** The three cuts of an upgrade, each its own transaction. */
  function Upgraded(t: Table, a: Address, from: seq<Selector>, to: seq<Selector>): Option<Table> {
    match Replaced(t, a, from, to)
    case None => None
    case Some(u) => CutUnlessEmpty(u, FacetCut(ZERO_ADDRESS, Remove, LegacySelectors(from, to)))
  }

  /** New selectors are free, common ones are elsewhere, legacy ones are there to remove. */
  ghost predicate Upgradable(t: Table, a: Address, from: set<Selector>, to: set<Selector>) {
    && (forall s :: s in to - from ==> s !in t)
    && (forall s :: s in from * to ==> s in t && t[s] != a)
    && (forall s :: s in from - to ==> s in t)
  }

  lemma CutUnlessEmptyMeaning(t: Table, target: Address, action: Action, selectors: seq<Selector>)
    requires NoRepeats(selectors) && (action.Remove? ==> target == ZERO_ADDRESS)
    ensures var r := CutUnlessEmpty(t, FacetCut(target, action, selectors));
            (r.Some? <==> Cuttable(t, target, action, ToSet(selectors)))
            && (r.Some? ==> r.value == CutResult(t, target, action, ToSet(selectors)))
  {
    CutMeaning(t, target, action, selectors);
    if selectors == [] {
      assert CutResult(t, target, action, {}) == t;
    }
  }

  /**
   An upgrade goes through exactly when the table is upgradable. It then holds every `to`
   selector at the new contract, no selector dropped by `to`, and is otherwise unchanged.
   */
  lemma UpgradeMeaning(t: Table, a: Address, from: seq<Selector>, to: seq<Selector>)
    ensures Upgraded(t, a, from, to).Some? <==> Upgradable(t, a, ToSet(from), ToSet(to))
    ensures Upgraded(t, a, from, to).Some? ==>
              Upgraded(t, a, from, to).value ==
              (t - (ToSet(from) - ToSet(to))) + map s | s in ToSet(to) :: a
  {
    var F, T := ToSet(from), ToSet(to);
    PartitionMeaning(from, to);
    CutUnlessEmptyMeaning(t, a, Add, NewSelectors(from, to));
    if Registered(t, a, from, to).Some? {
      var u := CutResult(t, a, Add, T - F);
      CutUnlessEmptyMeaning(u, a, Replace, CommonSelectors(from, to));
      AfterAdd(t, a, F, T);
      if Replaced(t, a, from, to).Some? {
        var v := CutResult(u, a, Replace, F * T);
        CutUnlessEmptyMeaning(v, ZERO_ADDRESS, Remove, LegacySelectors(from, to));
        AfterReplace(t, a, F, T);
      }
    }
  }

  lemma AfterAdd(t: Table, a: Address, from: set<Selector>, to: set<Selector>)
    ensures var u := CutResult(t, a, Add, to - from);
            Cuttable(u, a, Replace, from * to) <==> forall s :: s in from * to ==> s in t && t[s] != a
  {
    var u := CutResult(t, a, Add, to - from);
    forall s | s in from * to ensures (s in u <==> s in t) && (s in t ==> u[s] == t[s]) {
    }
  }

  lemma AfterReplace(t: Table, a: Address, from: set<Selector>, to: set<Selector>)
    ensures var v := CutResult(CutResult(t, a, Add, to - from), a, Replace, from * to);
            && (Cuttable(v, ZERO_ADDRESS, Remove, from - to) <==> forall s :: s in from - to ==> s in t)
            && CutResult(v, ZERO_ADDRESS, Remove, from - to) == (t - (from - to)) + map s | s in to :: a
  {
    var v := CutResult(CutResult(t, a, Add, to - from), a, Replace, from * to);
    forall s | s in from - to ensures s in v <==> s in t {
    }
  }

  /**
   No moment of an upgrade leaves a shared selector unresolved: in each table between the
   cuts the common selectors, the selectors of other features and those still to be removed
   all resolve, the latter two as before.
   */
  lemma UpgradeKeepsResolving(t: Table, a: Address, from: seq<Selector>, to: seq<Selector>, u: Table)
    requires Upgradable(t, a, ToSet(from), ToSet(to))
    requires Registered(t, a, from, to) == Some(u) || Replaced(t, a, from, to) == Some(u)
             || Upgraded(t, a, from, to) == Some(u)
    ensures KeepsResolving(t, a, ToSet(from), ToSet(to), u)
    ensures Upgraded(t, a, from, to) != Some(u) ==>
              forall s :: s in ToSet(from) - ToSet(to) ==> s in u && u[s] == t[s]
  {
    IntermediateTables(t, a, from, to);
    StagesKeepResolving(t, a, ToSet(from), ToSet(to));
  }

  /** The tables after each cut, in closed form. */
  lemma IntermediateTables(t: Table, a: Address, from: seq<Selector>, to: seq<Selector>)
    requires Upgradable(t, a, ToSet(from), ToSet(to))
    ensures var (F, T) := (ToSet(from), ToSet(to));
            && Registered(t, a, from, to) == Some(CutResult(t, a, Add, T - F))
            && Replaced(t, a, from, to) == Some(CutResult(CutResult(t, a, Add, T - F), a, Replace, F * T))
            && Upgraded(t, a, from, to) == Some((t - (F - T)) + map s | s in T :: a)
  {
    PartitionMeaning(from, to);
    UpgradeMeaning(t, a, from, to);
    CutUnlessEmptyMeaning(t, a, Add, NewSelectors(from, to));
    CutUnlessEmptyMeaning(CutResult(t, a, Add, ToSet(to) - ToSet(from)), a, Replace, CommonSelectors(from, to));
  }

  ghost predicate KeepsResolving(t: Table, a: Address, from: set<Selector>, to: set<Selector>, u: Table) {
    && (forall s :: s in from * to ==> s in u && (u[s] == a || (s in t && u[s] == t[s])))
    && (forall s :: s in t && s !in from && s !in to ==> s in u && u[s] == t[s])
  }

  lemma StagesKeepResolving(t: Table, a: Address, from: set<Selector>, to: set<Selector>)
    requires Upgradable(t, a, from, to)
    ensures var (u, v, w) := (CutResult(t, a, Add, to - from),
                              CutResult(CutResult(t, a, Add, to - from), a, Replace, from * to),
                              (t - (from - to)) + map s | s in to :: a);
            && KeepsResolving(t, a, from, to, u) && KeepsResolving(t, a, from, to, v)
            && KeepsResolving(t, a, from, to, w)
            && forall s :: s in from - to ==> s in u && s in v && u[s] == v[s] == t[s]
  {
    forall s | s in from - to ensures s in t && s !in to - from && s !in from * to {}
    forall s | s in from * to ensures s in t && s !in to - from && s !in from - to {}
  }

  // ---- Histories ----

  datatype Installed = Installed(address: Address, selectors: set<Selector>)

  datatype Operation =
    | Deploy(name: string, address: Address, selectors: seq<Selector>)
    | Upgrade(name: string, address: Address, from: seq<Selector>, to: seq<Selector>)

  function Applied(t: Table, op: Operation): Option<Table> {
    match op
    case Deploy(_, a, selectors) => Cut(t, FacetCut(a, Add, selectors))
    case Upgrade(_, a, from, to) => Upgraded(t, a, from, to)
  }

  function AppliedAll(t: Table, ops: seq<Operation>): Option<Table> {
    if ops == [] then Some(t)
    else
      match AppliedAll(t, ops[..|ops| - 1])
      case None => None
      case Some(u) => Applied(u, ops[|ops| - 1])
  }

  /** The features as their owner thinks of them. */
  function Record(features: map<string, Installed>, op: Operation): map<string, Installed> {
    features[op.name := Installed(op.address, ToSet(if op.Deploy? then op.selectors else op.to))]
  }

  function RecordAll(features: map<string, Installed>, ops: seq<Operation>): map<string, Installed> {
    if ops == [] then features
    else Record(RecordAll(features, ops[..|ops| - 1]), ops[|ops| - 1])
  }

  /** Selectors of features other than `name`. */
  ghost predicate Foreign(features: map<string, Installed>, name: string, s: Selector) {
    exists n :: n in features && n != name && s in features[n].selectors
  }

  /**
   What is asked of an operation: a deployment brings a new feature with a non-empty list of
   distinct selectors, an upgrade names the installed selectors and a new contract, and
   neither brings a selector of another feature.
   */
  ghost predicate Sensible(features: map<string, Installed>, op: Operation) {
    && (forall s :: s in (if op.Deploy? then op.selectors else op.to) ==> !Foreign(features, op.name, s))
    && match op
       case Deploy(name, _, selectors) => name !in features && selectors != [] && NoRepeats(selectors)
       case Upgrade(name, a, from, _) =>
         name in features && ToSet(from) == features[name].selectors && a != features[name].address
  }

  ghost predicate SensibleAll(features: map<string, Installed>, ops: seq<Operation>) {
    forall i :: 0 <= i < |ops| ==> Sensible(RecordAll(features, ops[..i]), ops[i])
  }

  /** The table is the disjoint union of the features' selectors at their current addresses. */
  ghost predicate Represents(t: Table, features: map<string, Installed>) {
    && (forall n, s :: n in features && s in features[n].selectors ==> s in t && t[s] == features[n].address)
    && (forall s :: s in t ==> exists n :: n in features && s in features[n].selectors)
    && (forall n, m, s :: n in features && m in features
          && s in features[n].selectors && s in features[m].selectors
          ==> n == m)
  }

  /** A sensible operation never reverts and leaves the table representing the features. */
  lemma SensibleStep(t: Table, features: map<string, Installed>, op: Operation)
    requires Represents(t, features) && Sensible(features, op)
    ensures Applied(t, op).Some? && Represents(Applied(t, op).value, Record(features, op))
  {
    match op
    case Deploy(name, a, selectors) =>
      CutMeaning(t, a, Add, selectors);
      forall s | s in selectors ensures s !in t {
        if s in t { MappedIsOwned(t, features, name, s); }
      }
      RepresentsRecord(t, features, name, {}, Applied(t, op).value, a, ToSet(selectors));
    case Upgrade(name, a, from, to) =>
      UpgradeMeaning(t, a, from, to);
      forall s | s in ToSet(to) - ToSet(from) ensures s !in t {
        if s in t { MappedIsOwned(t, features, name, s); }
      }
      RepresentsRecord(t, features, name, ToSet(from), Applied(t, op).value, a, ToSet(to));
  }

  lemma MappedIsOwned(t: Table, features: map<string, Installed>, name: string, s: Selector)
    requires Represents(t, features) && s in t
    ensures Foreign(features, name, s) || (name in features && s in features[name].selectors)
  {
    var n :| n in features && s in features[n].selectors;
  }

  lemma RepresentsRecord(t: Table, features: map<string, Installed>, name: string, from: set<Selector>,
                         u: Table, a: Address, to: set<Selector>)
    requires Represents(t, features)
    requires if name in features then features[name].selectors == from else from == {}
    requires u == (t - (from - to)) + map s | s in to :: a
    requires forall s :: s in to ==> !Foreign(features, name, s)
    ensures Represents(u, features[name := Installed(a, to)])
  {
    var after := features[name := Installed(a, to)];
    forall n, s | n in after && s in after[n].selectors ensures s in u && u[s] == after[n].address {
      if n != name {
        assert Foreign(features, name, s);
        assert s !in from;
      }
    }
    forall s | s in u ensures exists n :: n in after && s in after[n].selectors {
      if s in to {
        assert name in after && s in after[name].selectors;
      } else {
        var n :| n in features && s in features[n].selectors;
        assert n != name;
        assert n in after && s in after[n].selectors;
      }
    }
    forall n, m, s | n in after && m in after && s in after[n].selectors && s in after[m].selectors
      ensures n == m
    {
      assert (n == name) != (m == name) ==> Foreign(features, name, s);
    }
  }

  /**
   Over any sensible history nothing reverts, and the table is always the disjoint union of
   each feature's current selectors at its current address.
   */
  lemma {:induction false} UpgradeHistories(t: Table, features: map<string, Installed>, ops: seq<Operation>)
    requires Represents(t, features) && SensibleAll(features, ops)
    ensures AppliedAll(t, ops).Some? && Represents(AppliedAll(t, ops).value, RecordAll(features, ops))
  {
    if ops != [] {
      var n := |ops| - 1;
      SensiblePrefix(features, ops);
      UpgradeHistories(t, features, ops[..n]);
      SensibleStep(AppliedAll(t, ops[..n]).value, RecordAll(features, ops[..n]), ops[n]);
    }
  }

  lemma SensiblePrefix(features: map<string, Installed>, ops: seq<Operation>)
    requires ops != [] && SensibleAll(features, ops)
    ensures var n := |ops| - 1;
            SensibleAll(features, ops[..n]) && Sensible(RecordAll(features, ops[..n]), ops[n])
  {
    var n := |ops| - 1;
    var init := ops[..n];
    forall i | 0 <= i < n ensures Sensible(RecordAll(features, init[..i]), init[i]) {
      assert init[..i] == ops[..i];
    }
  }
}
