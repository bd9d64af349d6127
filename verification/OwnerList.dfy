/**
 A wallet's owners as the contract stores them, a linked list through a mapping headed by a
 sentinel, and the operations on it. Each operation is shown to do to the list what its name
 says.
 */
module OwnerList {
  import opened Wrappers

  type Address = nat

  const ZERO: Address := 0
  const SENTINEL: Address := 1

  datatype Wallet = Wallet(owners: map<Address, Address>, ownerCount: nat, threshold: nat)

  const EMPTY_WALLET := Wallet(map[], 0, 0)

  /** Reading a mapping: absent entries are zero. */
  function Next(owners: map<Address, Address>, a: Address): Address {
    if a in owners then owners[a] else ZERO
  }

  // ---- Contract functions ----

  function LinkAll(owners: map<Address, Address>, current: Address, rest: seq<Address>): Result<map<Address, Address>>
    decreases |rest|
  {
    if rest == [] then Ok(owners[current := SENTINEL])
    else if rest[0] == ZERO || rest[0] == SENTINEL then Err("Invalid owner address provided")
    else if Next(owners, rest[0]) != ZERO then Err("Duplicate owner address provided")
    else LinkAll(owners[current := rest[0]], rest[0], rest[1..])
  }

  /** `setupOwners` on a fresh wallet; the count is stored in 8 bits. */
  function SetupOwners(owners: seq<Address>, threshold: nat): Result<Wallet> {
    if threshold > |owners| then Err("Threshold cannot exceed owner count")
    else if threshold < 1 then Err("Threshold needs to be greater than 0")
    else
      match LinkAll(map[], SENTINEL, owners)
      case Err(m) => Err(m)
      case Ok(links) => Ok(Wallet(links, |owners| % 256, threshold))
  }

  function ChangeThreshold(w: Wallet, threshold: nat): Result<Wallet> {
    if threshold > w.ownerCount then Err("Threshold cannot exceed owner count")
    else if threshold < 1 then Err("Threshold needs to be greater than 0")
    else Ok(w.(threshold := threshold))
  }

  function ChangeThresholdIfDifferent(w: Wallet, threshold: nat): Result<Wallet> {
    if w.threshold != threshold then ChangeThreshold(w, threshold) else Ok(w)
  }

  function AddOwner(w: Wallet, owner: Address, threshold: nat): Result<Wallet> {
    if owner == ZERO || owner == SENTINEL then Err("Invalid owner address provided")
    else if Next(w.owners, owner) != ZERO then Err("Address is already an owner")
    else if w.ownerCount + 1 > 255 then Err("panic: arithmetic overflow")
    else
      var links := w.owners[owner := Next(w.owners, SENTINEL)];
      ChangeThresholdIfDifferent(w.(owners := links[SENTINEL := owner], ownerCount := w.ownerCount + 1), threshold)
  }

  function RemoveOwner(w: Wallet, prev: Address, owner: Address, threshold: nat): Result<Wallet> {
    if w.ownerCount == 0 then Err("panic: arithmetic underflow")
    else if w.ownerCount - 1 < threshold then Err("New owner count needs to be larger than new threshold")
    else if owner == ZERO || owner == SENTINEL then Err("Invalid owner address provided")
    else if Next(w.owners, prev) != owner then Err("Invalid prevOwner, owner pair provided")
    else
      var links := w.owners[prev := Next(w.owners, owner)];
      ChangeThresholdIfDifferent(w.(owners := links[owner := ZERO], ownerCount := w.ownerCount - 1), threshold)
  }

  function SwapOwner(w: Wallet, prev: Address, oldOwner: Address, newOwner: Address): Result<Wallet> {
    if newOwner == ZERO || newOwner == SENTINEL then Err("Invalid owner address provided")
    else if Next(w.owners, newOwner) != ZERO then Err("Address is already an owner")
    else if oldOwner == ZERO || oldOwner == SENTINEL then Err("Invalid owner address provided")
    else if Next(w.owners, prev) != oldOwner then Err("Invalid _prevOwner, owner pair provided")
    else
      var links := w.owners[newOwner := Next(w.owners, oldOwner)];
      Ok(w.(owners := links[prev := newOwner][oldOwner := ZERO]))
  }

  /** Follow the links into an array of `room` zeros; running out of room is a revert. */
  function Collect(owners: map<Address, Address>, current: Address, room: nat): Result<seq<Address>>
    decreases room
  {
    if current == SENTINEL then Ok(Zeros(room))
    else if room == 0 then Err("panic: array index out of bounds")
    else
      match Collect(owners, Next(owners, current), room - 1)
      case Err(m) => Err(m)
      case Ok(rest) => Ok([current] + rest)
  }

  function Zeros(n: nat): (z: seq<Address>)
    ensures |z| == n && forall i :: 0 <= i < n ==> z[i] == 0
  {
    if n == 0 then [] else [ZERO] + Zeros(n - 1)
  }

  function GetOwners(w: Wallet): Result<seq<Address>> {
    Collect(w.owners, Next(w.owners, SENTINEL), w.ownerCount)
  }

  // ---- The list behind the links ----

  ghost predicate NoRepeats(s: seq<Address>) {
    forall i, j :: 0 <= i < j < |s| ==> s[i] != s[j]
  }

  ghost predicate Proper(s: seq<Address>) {
    NoRepeats(s) && 0 !in s && 1 !in s
  }

  /** The element at position `i`, with the sentinel, address 1, on both ends. */
  function At(list: seq<Address>, i: int): Address {
    if 0 <= i < |list| then list[i] else 1
  }

  ghost predicate Linked(owners: map<Address, Address>, list: seq<Address>) {
    && Proper(list)
    && (forall i {:trigger Next(owners, At(list, i))} ::
          -1 <= i < |list| ==> Next(owners, At(list, i)) == At(list, i + 1))
    && (forall a :: a !in list && a != 1 ==> Next(owners, a) == 0)
  }

  /** The links behind `list`, and a count that is `extra` too high. */
  ghost predicate Padded(w: Wallet, list: seq<Address>, extra: nat) {
    Linked(w.owners, list) && w.ownerCount == |list| + extra <= 255 && 1 <= w.threshold <= w.ownerCount
  }

  ghost predicate WellFormed(w: Wallet, list: seq<Address>) {
    Padded(w, list, 0)
  }

  function IndexOf(list: seq<Address>, a: Address): (i: int)
    ensures if i == -1 then a !in list else 0 <= i < |list| && list[i] == a && a !in list[..i]
  {
    if list == [] then -1
    else if list[0] == a then 0
    else
      var i := IndexOf(list[1..], a);
      if i == -1 then -1 else i + 1
  }

  function Without(list: seq<Address>, a: Address): seq<Address> {
    var i := IndexOf(list, a);
    if i == -1 then list else list[..i] + list[i + 1..]
  }

  /** Reading the owners gives the list, and a zero for every owner counted too many. */
  lemma GetOwnersIsTheList(w: Wallet, list: seq<Address>, extra: nat)
    requires Linked(w.owners, list) && w.ownerCount == |list| + extra
    ensures GetOwners(w) == Ok(list + Zeros(extra))
  {
    FirstIsNextOfSentinel(w.owners, list);
    CollectFrom(w.owners, list, 0, extra);
    assert list[0..] == list;
  }

  lemma ReadsBack(w: Wallet, list: seq<Address>)
    requires Linked(w.owners, list) && w.ownerCount == |list|
    ensures GetOwners(w) == Ok(list)
  {
    GetOwnersIsTheList(w, list, 0);
    assert list + Zeros(0) == list;
  }

  lemma {:induction false} CollectFrom(owners: map<Address, Address>, list: seq<Address>, i: nat, extra: nat)
    requires Linked(owners, list) && i <= |list|
    ensures Collect(owners, At(list, i), |list| - i + extra) == Ok(list[i..] + Zeros(extra))
    decreases |list| - i
  {
    if i < |list| {
      assert At(list, i) == list[i] && list[i] in list;
      CollectFrom(owners, list, i + 1, extra);
      assert Next(owners, At(list, i)) == At(list, i + 1);
      assert list[i..] + Zeros(extra) == [list[i]] + (list[i + 1..] + Zeros(extra));
    } else {
      assert At(list, i) == SENTINEL && list[i..] + Zeros(extra) == Zeros(extra);
    }
  }

  /** The links determine the list. */
  lemma ListIsUnique(owners: map<Address, Address>, a: seq<Address>, b: seq<Address>)
    requires Linked(owners, a) && Linked(owners, b)
    ensures a == b
  {
    var n := if |a| <= |b| then |a| else |b|;
    PrefixesAgree(owners, a, b, n);
    EndsAtSentinel(a, n);
    EndsAtSentinel(b, n);
    assert a == a[..n] && b == b[..n];
  }

  lemma EndsAtSentinel(list: seq<Address>, i: nat)
    requires Proper(list) && i <= |list|
    ensures At(list, i) == SENTINEL <==> i == |list|
  {
    assert i < |list| ==> list[i] in list;
  }

  lemma {:induction false} PrefixesAgree(owners: map<Address, Address>, a: seq<Address>, b: seq<Address>, n: nat)
    requires Linked(owners, a) && Linked(owners, b) && n <= |a| && n <= |b|
    ensures a[..n] == b[..n] && At(a, n) == At(b, n)
  {
    assert At(a, -1) == SENTINEL == At(b, -1);
    if n > 0 {
      PrefixesAgree(owners, a, b, n - 1);
      assert At(a, n - 1) == a[n - 1] && At(b, n - 1) == b[n - 1];
      assert a[..n] == a[..n - 1] + [a[n - 1]] && b[..n] == b[..n - 1] + [b[n - 1]];
      assert Next(owners, At(a, n - 1)) == Next(owners, At(b, n - 1));
    } else {
      assert Next(owners, At(a, -1)) == Next(owners, At(b, -1));
    }
  }

  // ---- Setting up ----

  /** The list without an owner standing right behind itself. */
  function Squeeze(s: seq<Address>): seq<Address> {
    if |s| < 2 then s
    else
      var n := |s| - 1;
      if s[n - 1] == s[n] then Squeeze(s[..n]) else Squeeze(s[..n]) + [s[n]]
  }

  ghost predicate NoAdjacentRepeats(s: seq<Address>) {
    forall i :: 0 < i < |s| ==> s[i - 1] != s[i]
  }

  ghost predicate NoTriples(s: seq<Address>) {
    forall i :: 1 < i < |s| ==> !(s[i - 2] == s[i - 1] == s[i])
  }

  /** The last owner stands right behind itself. */
  ghost predicate EndsInPair(s: seq<Address>) {
    |s| >= 2 && s[|s| - 2] == s[|s| - 1]
  }

  lemma SqueezeSnoc(s: seq<Address>, x: Address)
    ensures Squeeze(s + [x]) == if s != [] && s[|s| - 1] == x then Squeeze(s) else Squeeze(s) + [x]
  {
    assert (s + [x])[..|s|] == s;
    if s == [] { assert Squeeze(s + [x]) == [x]; }
  }

  lemma PairsSnoc(s: seq<Address>, x: Address)
    ensures EndsInPair(s + [x]) <==> s != [] && s[|s| - 1] == x
    ensures NoTriples(s + [x]) <==> NoTriples(s) && !(EndsInPair(s) && s[|s| - 1] == x)
  {
    var t := s + [x];
    if NoTriples(t) {
      forall i | 1 < i < |s| ensures !(s[i - 2] == s[i - 1] == s[i]) {
        assert !(t[i - 2] == t[i - 1] == t[i]);
      }
      if EndsInPair(s) { assert !(t[|s| - 2] == t[|s| - 1] == t[|s|]); }
    }
  }

  lemma {:induction false} SqueezeMembers(s: seq<Address>)
    ensures s != [] ==> Squeeze(s) != [] && Squeeze(s)[|Squeeze(s)| - 1] == s[|s| - 1]
    ensures forall x :: x in Squeeze(s) <==> x in s
  {
    if |s| >= 2 {
      var n := |s| - 1;
      SqueezeMembers(s[..n]);
      assert s == s[..n] + [s[n]];
    }
  }

  /** Squeezing at most halves a list without triples, and leaves just one without repeats as it is. */
  lemma {:induction false} SqueezeLength(s: seq<Address>)
    ensures |Squeeze(s)| <= |s| && (|Squeeze(s)| == |s| <==> NoAdjacentRepeats(s))
    ensures NoTriples(s) ==> |s| + (if s == [] || EndsInPair(s) then 0 else 1) <= 2 * |Squeeze(s)|
  {
    if |s| >= 2 {
      var n := |s| - 1;
      SqueezeLength(s[..n]);
      assert s == s[..n] + [s[n]];
      assert NoAdjacentRepeats(s) <==> NoAdjacentRepeats(s[..n]) && s[n - 1] != s[n];
      PairsSnoc(s[..n], s[n]);
    }
  }

  lemma SqueezeOfPlain(s: seq<Address>)
    requires NoAdjacentRepeats(s)
    ensures Squeeze(s) == s && NoTriples(s)
  {
    SqueezeLength(s);
    SqueezeIsSame(s);
  }

  lemma {:induction false} SqueezeIsSame(s: seq<Address>)
    requires NoAdjacentRepeats(s)
    ensures Squeeze(s) == s
  {
    if |s| >= 2 {
      SqueezeIsSame(s[..|s| - 1]);
      assert s == s[..|s| - 1] + [s[|s| - 1]];
    }
  }

  /** Squeezing a prefix gives a prefix of the squeezed list; triples stay. */
  lemma {:induction false} SqueezePrefix(a: seq<Address>, b: seq<Address>)
    ensures Squeeze(a) <= Squeeze(a + b)
    ensures NoTriples(a + b) ==> NoTriples(a)
  {
    if b == [] {
      assert a + b == a;
    } else {
      var n := |b| - 1;
      SqueezePrefix(a, b[..n]);
      assert a + b == (a + b[..n]) + [b[n]];
      SqueezeSnoc(a + b[..n], b[n]);
      PairsSnoc(a + b[..n], b[n]);
    }
  }

  /** The links behind `list`, whatever its last element links to. */
  ghost predicate PartlyLinked(owners: map<Address, Address>, list: seq<Address>) {
    && Proper(list)
    && (forall i {:trigger Next(owners, At(list, i))} ::
          -1 <= i < |list| - 1 ==> Next(owners, At(list, i)) == At(list, i + 1))
    && (forall a :: a !in list && a != SENTINEL ==> Next(owners, a) == ZERO)
  }

  /** Having linked `done`: its last owner has no successor yet, or itself when it stood there twice. */
  ghost predicate LinkedSoFar(owners: map<Address, Address>, done: seq<Address>) {
    && PartlyLinked(owners, Squeeze(done)) && NoTriples(done)
    && Next(owners, Last(done)) == if EndsInPair(done) then Last(done) else ZERO
  }

  /** The owner linked last, at first the sentinel. */
  function Last(done: seq<Address>): Address {
    At(done, |done| - 1)
  }

  lemma LastOfSqueeze(done: seq<Address>)
    ensures Last(done) == Last(Squeeze(done))
  {
    SqueezeMembers(done);
  }

  /** What linking the rest of a list comes to: the squeezed list, if it is proper and no owner stands thrice. */
  lemma {:induction false} LinkAllMeaning(owners: map<Address, Address>, done: seq<Address>, rest: seq<Address>)
    requires LinkedSoFar(owners, done)
    ensures var r := LinkAll(owners, Last(done), rest);
            && (r.Ok? <==> Proper(Squeeze(done + rest)) && NoTriples(done + rest))
            && (r.Ok? ==> Linked(r.value, Squeeze(done + rest)))
    decreases |rest|
  {
    LastOfSqueeze(done);
    if rest == [] {
      assert done + rest == done;
      LinkEnd(owners, Squeeze(done));
    } else {
      var x, next := rest[0], done + [rest[0]];
      assert done + rest == next + rest[1..];
      SqueezePrefix(next, rest[1..]);
      SqueezeSnoc(done, x);
      if LinkRejects(owners, x) {
        RejectedIsImproper(owners, done, x);
        if !Proper(Squeeze(next)) { ImproperStays(Squeeze(next), Squeeze(done + rest)); }
      } else {
        LinkNext(owners, done, x);
        LinkAllMeaning(owners[Last(done) := x], next, rest[1..]);
      }
    }
  }

  ghost predicate LinkRejects(owners: map<Address, Address>, x: Address) {
    x == ZERO || x == SENTINEL || Next(owners, x) != ZERO
  }

  lemma RejectedIsImproper(owners: map<Address, Address>, done: seq<Address>, x: Address)
    requires LinkedSoFar(owners, done) && LinkRejects(owners, x)
    ensures !Proper(Squeeze(done + [x])) || !NoTriples(done + [x])
  {
    var list := Squeeze(done);
    SqueezeSnoc(done, x);
    PairsSnoc(done, x);
    LastOfSqueeze(done);
    assert Squeeze(done + [x])[|Squeeze(done + [x])| - 1] == x by { SqueezeMembers(done + [x]); }
    if x != ZERO && x != SENTINEL && x != Last(done) {
      assert x in list;
      RepeatedLast(list, x);
    }
  }

  lemma RepeatedLast(list: seq<Address>, x: Address)
    requires x in list
    ensures !NoRepeats(list + [x])
  {
    var j :| 0 <= j < |list| && list[j] == x;
    assert (list + [x])[j] == (list + [x])[|list|];
  }

  lemma ImproperStays(a: seq<Address>, b: seq<Address>)
    requires a <= b && !Proper(a)
    ensures !Proper(b)
  {
    assert forall i :: 0 <= i < |a| ==> a[i] == b[i];
    assert forall x :: x in a ==> x in b;
  }

  /** Linking one accepted owner: it is new, or the last one again. */
  lemma LinkNext(owners: map<Address, Address>, done: seq<Address>, x: Address)
    requires LinkedSoFar(owners, done) && !LinkRejects(owners, x)
    ensures LinkedSoFar(owners[Last(done) := x], done + [x]) && Last(done + [x]) == x
  {
    var list, next := Squeeze(done), done + [x];
    assert next[|next| - 1] == x;
    SqueezeSnoc(done, x);
    PairsSnoc(done, x);
    LastOfSqueeze(done);
    if x == Last(done) {
      RelinkLast(owners, list, x);
    } else {
      if x in list { RepeatIsLinked(owners, list, x); }
      LinkOne(owners, list, x);
    }
  }

  lemma RelinkLast(owners: map<Address, Address>, list: seq<Address>, x: Address)
    requires PartlyLinked(owners, list) && x == Last(list)
    ensures PartlyLinked(owners[x := x], list)
  {
    var r := owners[x := x];
    forall i {:trigger Next(r, At(list, i))} | -1 <= i < |list| - 1 ensures Next(r, At(list, i)) == At(list, i + 1) {
      if At(list, i) == x { AtInjective(list, i, |list| - 1); }
      assert Next(owners, At(list, i)) == At(list, i + 1);
    }
    assert list != [] ==> x in list;
  }

  lemma LinkEnd(owners: map<Address, Address>, list: seq<Address>)
    requires PartlyLinked(owners, list)
    ensures Linked(owners[Last(list) := SENTINEL], list)
  {
    var r := owners[Last(list) := SENTINEL];
    forall i {:trigger Next(r, At(list, i))} | -1 <= i < |list| ensures Next(r, At(list, i)) == At(list, i + 1) {
      if At(list, i) == Last(list) { AtInjective(list, i, |list| - 1); }
      assert i < |list| - 1 ==> Next(owners, At(list, i)) == At(list, i + 1);
    }
    assert list != [] ==> Last(list) in list;
  }

  lemma AtInjective(list: seq<Address>, i: int, j: int)
    requires Proper(list) && -1 <= i < |list| && -1 <= j < |list| && At(list, i) == At(list, j)
    ensures i == j
  {
    assert i >= 0 ==> list[i] in list;
    assert j >= 0 ==> list[j] in list;
  }

  lemma RepeatIsLinked(owners: map<Address, Address>, list: seq<Address>, x: Address)
    requires PartlyLinked(owners, list) && x in list && x != Last(list)
    ensures Next(owners, x) != ZERO
  {
    var j :| 0 <= j < |list| && list[j] == x;
    assert At(list, j) == x && j < |list| - 1;
    assert At(list, j + 1) in list;
  }

  lemma LinkOne(owners: map<Address, Address>, list: seq<Address>, x: Address)
    requires PartlyLinked(owners, list) && x !in list && x != ZERO && x != SENTINEL
    ensures PartlyLinked(owners[Last(list) := x], list + [x])
    ensures Next(owners, x) == Next(owners[Last(list) := x], x)
  {
    var n, longer := |list|, list + [x];
    var r := owners[Last(list) := x];
    forall i {:trigger Next(r, At(longer, i))} | -1 <= i < n ensures Next(r, At(longer, i)) == At(longer, i + 1) {
      assert At(longer, i) == At(list, i);
      if i < n - 1 {
        assert At(longer, i + 1) == At(list, i + 1) == Next(owners, At(list, i));
        if At(list, i) == Last(list) { AtInjective(list, i, n - 1); }
      }
    }
    assert list != [] ==> Last(list) in list;
  }

  lemma LinkAllFromEmpty(owners: seq<Address>)
    ensures LinkAll(map[], SENTINEL, owners).Ok? <==> Proper(Squeeze(owners)) && NoTriples(owners)
    ensures LinkAll(map[], SENTINEL, owners).Ok? ==> Linked(LinkAll(map[], SENTINEL, owners).value, Squeeze(owners))
  {
    var none: seq<Address> := [];
    assert none + owners == owners && Last(none) == SENTINEL;
    LinkAllMeaning(map[], none, owners);
  }

  /**
   Setup accepts a list exactly when its threshold is legal, no owner stands three times in a
   row, and the list without immediate repeats is proper; it is this list that gets linked up.
   */
  lemma SetupMeaning(owners: seq<Address>, threshold: nat)
    ensures SetupOwners(owners, threshold).Ok? <==>
            1 <= threshold <= |owners| && Proper(Squeeze(owners)) && NoTriples(owners)
    ensures SetupOwners(owners, threshold).Ok? ==>
              var w := SetupOwners(owners, threshold).value;
              Linked(w.owners, Squeeze(owners)) && w.ownerCount == |owners| % 256 && w.threshold == threshold
  {
    LinkAllFromEmpty(owners);
  }

  /** The owners of a list that are counted but not linked. */
  function Surplus(owners: seq<Address>): (n: nat)
    ensures |owners| == |Squeeze(owners)| + n
  {
    SqueezeLength(owners);
    |owners| - |Squeeze(owners)|
  }

  lemma SetupIsPadded(owners: seq<Address>, threshold: nat)
    requires SetupOwners(owners, threshold).Ok? && |owners| <= 255
    ensures Padded(SetupOwners(owners, threshold).value, Squeeze(owners), Surplus(owners))
  {
    SetupMeaning(owners, threshold);
    CountFits(SetupOwners(owners, threshold).value, Squeeze(owners), Surplus(owners), |owners|);
  }

  lemma CountFits(w: Wallet, list: seq<Address>, extra: nat, n: nat)
    requires Linked(w.owners, list) && w.ownerCount == n % 256 && n <= 255 && n == |list| + extra
    requires 1 <= w.threshold <= n
    ensures Padded(w, list, extra)
  {
  }

  lemma NoSurplus(owners: seq<Address>)
    ensures Surplus(owners) == 0 <==> NoAdjacentRepeats(owners)
    ensures Surplus(owners) == 0 ==> Squeeze(owners) == owners
  {
    SqueezeLength(owners);
    if NoAdjacentRepeats(owners) { SqueezeOfPlain(owners); }
  }

  lemma PaddedOnce(w: Wallet, a: seq<Address>, m: nat, b: seq<Address>, n: nat)
    requires Padded(w, a, m) && Padded(w, b, n)
    ensures a == b && m == n
  {
    ListIsUnique(w.owners, a, b);
  }

  /** More than 255 owners cannot be read back: the count has wrapped and the links run past it. */
  lemma LongListCannotBeRead(owners: seq<Address>, threshold: nat)
    requires SetupOwners(owners, threshold).Ok? && |owners| > 255
    ensures SetupOwners(owners, threshold).value.ownerCount < |Squeeze(owners)|
    ensures GetOwners(SetupOwners(owners, threshold).value).Err?
  {
    SetupMeaning(owners, threshold);
    SqueezeLength(owners);
    WrappedCount(|owners|, |Squeeze(owners)|);
    var w := SetupOwners(owners, threshold).value;
    FirstIsNextOfSentinel(w.owners, Squeeze(owners));
    CollectOverruns(w.owners, Squeeze(owners), 0, w.ownerCount);
  }

  lemma WrappedCount(n: nat, m: nat)
    requires n > 255 && n <= 2 * m
    ensures n % 256 < m
  {
    var k, r := n / 256, n % 256;
    assert n == 256 * k + r && k >= 1;
  }

  lemma FirstIsNextOfSentinel(owners: map<Address, Address>, list: seq<Address>)
    requires Linked(owners, list)
    ensures Next(owners, SENTINEL) == At(list, 0)
  {
    assert At(list, -1) == SENTINEL;
    assert Next(owners, At(list, -1)) == At(list, -1 + 1);
  }

  lemma {:induction false} CollectOverruns(owners: map<Address, Address>, list: seq<Address>, i: nat, room: nat)
    requires Linked(owners, list) && i + room < |list|
    ensures Collect(owners, At(list, i), room).Err?
    decreases room
  {
    assert At(list, i) == list[i] && list[i] in list;
    if room > 0 {
      CollectOverruns(owners, list, i + 1, room - 1);
      assert Next(owners, At(list, i)) == At(list, i + 1);
    }
  }

  /** An accepted list is well linked exactly when it fits the count and no owner stands next to itself. */
  lemma AcceptedIsWellFormedIff(owners: seq<Address>, threshold: nat)
    requires SetupOwners(owners, threshold).Ok?
    ensures (exists list :: WellFormed(SetupOwners(owners, threshold).value, list)) <==>
            NoAdjacentRepeats(owners) && |owners| <= 255
    ensures NoAdjacentRepeats(owners) && |owners| <= 255 ==>
              WellFormed(SetupOwners(owners, threshold).value, owners)
  {
    var w := SetupOwners(owners, threshold).value;
    SetupMeaning(owners, threshold);
    SqueezeLength(owners);
    if NoAdjacentRepeats(owners) {
      SqueezeOfPlain(owners);
      if |owners| <= 255 { assert WellFormed(w, owners); }
    }
    if list :| WellFormed(w, list) {
      ListIsUnique(w.owners, list, Squeeze(owners));
      if |owners| > 255 {
        LongListCannotBeRead(owners, threshold);
        assert false;
      }
    }
  }

  /**
   The duplicate check looks for a successor, which the previous owner does not have yet: a
   list that names one owner twice in a row is accepted, and its wallet counts two owners
   but lists one.
   */
  lemma AdjacentRepeatSlipsThrough(owner: Address)
    requires owner != ZERO && owner != SENTINEL
    ensures var r := SetupOwners([owner, owner], 1);
            r.Ok? && r.value.ownerCount == 2 && GetOwners(r.value) == Ok([owner, ZERO])
            && forall list :: !WellFormed(r.value, list)
  {
    var l0: map<Address, Address> := map[];
    var l1 := l0[SENTINEL := owner];
    var l2 := l1[owner := owner];
    var l3 := l2[owner := SENTINEL];
    var two, one := [owner, owner], [owner];
    assert two[1..] == one && one[1..] == [];
    assert LinkAll(l2, owner, []) == Ok(l3);
    assert LinkAll(l1, owner, one) == Ok(l3);
    assert LinkAll(l0, SENTINEL, two) == Ok(l3);
    var w := Wallet(l3, 2, 1);
    assert SetupOwners(two, 1) == Ok(w);
    assert Next(l3, SENTINEL) == owner && Next(l3, owner) == SENTINEL;
    assert Zeros(1) == [ZERO] && [owner] + [ZERO] == [owner, ZERO];
    assert Collect(l3, SENTINEL, 1) == Ok([ZERO]);
    assert Collect(l3, owner, 2) == Ok([owner, ZERO]);
    forall list ensures !WellFormed(w, list) {
      if Linked(w.owners, list) && |list| == 2 {
        ReadsBack(w, list);
      }
    }
  }

  // ---- Counting owners ----

  ghost function Members(s: seq<Address>): set<Address> { set x | x in s }

  lemma {:induction false} DistinctCount(s: seq<Address>)
    ensures |Members(s)| <= |s|
    ensures |Members(s)| == |s| <==> NoRepeats(s)
  {
    if s == [] {
      assert Members(s) == {};
    } else {
      var init, last := s[..|s| - 1], s[|s| - 1];
      DistinctCount(init);
      assert s == init + [last];
      assert Members(s) == Members(init) + {last};
      if last in init {
        assert Members(s) == Members(init);
      }
      assert NoRepeats(s) <==> NoRepeats(init) && last !in init;
    }
  }

  // ---- Adding, removing, swapping ----

  lemma AddOwnerMeaning(w: Wallet, list: seq<Address>, extra: nat, owner: Address, threshold: nat)
    requires Padded(w, list, extra)
    ensures AddOwner(w, owner, threshold).Ok? <==>
            owner != 0 && owner != 1 && owner !in list && |list| + extra < 255
            && 1 <= threshold <= |list| + extra + 1
    ensures AddOwner(w, owner, threshold).Ok? ==>
              Padded(AddOwner(w, owner, threshold).value, [owner] + list, extra)
              && AddOwner(w, owner, threshold).value.threshold == threshold
  {
    MemberIsLinked(w.owners, list, owner);
    if owner != ZERO && owner != SENTINEL && owner !in list {
      var links, list' := w.owners[owner := Next(w.owners, SENTINEL)][SENTINEL := owner], [owner] + list;
      forall i {:trigger Next(links, At(list', i))} | -1 <= i < |list'|
        ensures Next(links, At(list', i)) == At(list', i + 1)
      {
        assert i >= 0 ==> At(list', i) == if i == 0 then owner else At(list, i - 1);
        assert At(list', i + 1) == if i == -1 then owner else At(list, i);
        assert At(list, -1) == SENTINEL;
        assert i >= 0 ==> Next(w.owners, At(list, i - 1)) == At(list, i);
        assert i >= 1 ==> At(list, i - 1) in list;
      }
      assert Linked(links, list');
    }
  }

  lemma MemberIsLinked(owners: map<Address, Address>, list: seq<Address>, a: Address)
    requires Linked(owners, list)
    ensures a != SENTINEL ==> (Next(owners, a) != ZERO <==> a in list)
  {
    if a in list {
      var j :| 0 <= j < |list| && list[j] == a;
      assert At(list, j) == a;
      assert At(list, j + 1) == SENTINEL || At(list, j + 1) in list;
    }
  }

  /** `prev` links to `owner` exactly when it stands right before it. */
  lemma PredecessorMeaning(owners: map<Address, Address>, list: seq<Address>, prev: Address, owner: Address)
    requires Linked(owners, list) && owner != ZERO && owner != SENTINEL
    ensures Next(owners, prev) == owner <==> owner in list && prev == At(list, IndexOf(list, owner) - 1)
  {
    if owner in list {
      LinkAt(owners, list, IndexOf(list, owner) - 1);
    }
    if Next(owners, prev) == owner {
      LinkedStandBefore(owners, list, prev, owner);
    }
  }

  lemma LinkAt(owners: map<Address, Address>, list: seq<Address>, i: int)
    requires Linked(owners, list) && -1 <= i < |list|
    ensures Next(owners, At(list, i)) == At(list, i + 1)
  {
  }

  lemma LinkedStandBefore(owners: map<Address, Address>, list: seq<Address>, prev: Address, owner: Address)
    requires Linked(owners, list) && owner != ZERO && owner != SENTINEL && Next(owners, prev) == owner
    ensures owner in list && prev == At(list, IndexOf(list, owner) - 1)
  {
    var j := -1;
    if prev != SENTINEL {
      assert prev in list;
      j :| 0 <= j < |list| && list[j] == prev;
    }
    LinkAt(owners, list, j);
    assert At(list, j) == prev && At(list, j + 1) == owner;
    assert list[j + 1] == owner && IndexOf(list, owner) == j + 1;
  }

  lemma RemoveOwnerMeaning(w: Wallet, list: seq<Address>, extra: nat, prev: Address, owner: Address, threshold: nat)
    requires Padded(w, list, extra)
    ensures RemoveOwner(w, prev, owner, threshold).Ok? <==>
            owner in list && prev == At(list, IndexOf(list, owner) - 1) && 1 <= threshold <= |list| + extra - 1
    ensures RemoveOwner(w, prev, owner, threshold).Ok? ==>
              Padded(RemoveOwner(w, prev, owner, threshold).value, Without(list, owner), extra)
              && RemoveOwner(w, prev, owner, threshold).value.threshold == threshold
  {
    if owner != ZERO && owner != SENTINEL {
      PredecessorMeaning(w.owners, list, prev, owner);
    }
    if RemoveOwner(w, prev, owner, threshold).Ok? {
      var k := IndexOf(list, owner);
      Unlink(w.owners, list, k);
      assert Without(list, owner) == list[..k] + list[k + 1..];
    }
  }

  lemma Unlink(owners: map<Address, Address>, list: seq<Address>, k: nat)
    requires Linked(owners, list) && k < |list|
    ensures Linked(owners[At(list, k - 1) := Next(owners, list[k])][list[k] := ZERO], list[..k] + list[k + 1..])
  {
    var prev, owner := At(list, k - 1), list[k];
    var links, rest := owners[prev := Next(owners, owner)][owner := ZERO], list[..k] + list[k + 1..];
    assert At(list, k) == owner && At(list, k + 1) == Next(owners, owner);
    forall a ensures a in rest <==> a in list && a != owner { WithoutMembers(list, k, a); }
    assert Proper(rest);
    forall i {:trigger Next(links, At(rest, i))} | -1 <= i < |rest|
      ensures Next(links, At(rest, i)) == At(rest, i + 1)
    {
      UnlinkAt(list, k, i);
      var j := if i < k then i else i + 1;
      assert Next(owners, At(list, j)) == At(list, j + 1);
      if At(list, j) == owner { AtInjective(list, j, k); }
      if At(list, j) == prev { AtInjective(list, j, k - 1); }
    }
    assert k > 0 ==> prev in list;
  }

  lemma UnlinkAt(list: seq<Address>, k: nat, i: int)
    requires k < |list| && -1 <= i < |list| - 1
    ensures var rest := list[..k] + list[k + 1..];
            && At(rest, i) == At(list, if i < k then i else i + 1)
            && At(rest, i + 1) == At(list, if i + 1 < k then i + 1 else i + 2)
  {
  }

  lemma WithoutMembers(list: seq<Address>, k: nat, a: Address)
    requires NoRepeats(list) && k < |list|
    ensures a in list[..k] + list[k + 1..] <==> a in list && a != list[k]
  {
    assert list == list[..k] + [list[k]] + list[k + 1..];
  }

  lemma SwapOwnerMeaning(w: Wallet, list: seq<Address>, extra: nat, prev: Address, oldOwner: Address,
                         newOwner: Address)
    requires Padded(w, list, extra)
    ensures SwapOwner(w, prev, oldOwner, newOwner).Ok? <==>
            newOwner != 0 && newOwner != 1 && newOwner !in list
            && oldOwner in list && prev == At(list, IndexOf(list, oldOwner) - 1)
    ensures SwapOwner(w, prev, oldOwner, newOwner).Ok? ==>
              Padded(SwapOwner(w, prev, oldOwner, newOwner).value, list[IndexOf(list, oldOwner) := newOwner], extra)
              && SwapOwner(w, prev, oldOwner, newOwner).value.threshold == w.threshold
  {
    MemberIsLinked(w.owners, list, newOwner);
    if oldOwner != ZERO && oldOwner != SENTINEL {
      PredecessorMeaning(w.owners, list, prev, oldOwner);
    }
    if SwapOwner(w, prev, oldOwner, newOwner).Ok? {
      Relink(w.owners, list, IndexOf(list, oldOwner), newOwner);
    }
  }

  lemma Relink(owners: map<Address, Address>, list: seq<Address>, k: nat, x: Address)
    requires Linked(owners, list) && k < |list| && x !in list && x != ZERO && x != SENTINEL
    ensures Linked(owners[x := Next(owners, list[k])][At(list, k - 1) := x][list[k] := ZERO], list[k := x])
  {
    var prev, owner, list' := At(list, k - 1), list[k], list[k := x];
    var links := owners[x := Next(owners, owner)][prev := x][owner := ZERO];
    assert At(list, k) == owner && owner in list;
    assert k > 0 ==> prev in list;
    forall a ensures a in list' <==> a == x || (a in list && a != owner) { ReplacedMembers(list, k, x, a); }
    assert Proper(list');
    forall i {:trigger Next(links, At(list', i))} | -1 <= i < |list'|
      ensures Next(links, At(list', i)) == At(list', i + 1)
    {
      assert At(list', i) == if i == k then x else At(list, i);
      assert At(list', i + 1) == if i + 1 == k then x else At(list, i + 1);
      assert Next(owners, At(list, i)) == At(list, i + 1);
      assert i >= 0 ==> At(list, i) in list;
      if i != k && At(list, i) == owner { AtInjective(list, i, k); }
      if i != k && At(list, i) == prev { AtInjective(list, i, k - 1); }
      if i == k && k > 0 { assert At(list, k) != prev; }
    }
  }

  lemma ReplacedMembers(list: seq<Address>, k: nat, x: Address, a: Address)
    requires NoRepeats(list) && k < |list| && x !in list
    ensures a in list[k := x] <==> a == x || (a in list && a != list[k])
  {
    assert list[k := x] == list[..k] + [x] + list[k + 1..];
    WithoutMembers(list, k, a);
  }
}
