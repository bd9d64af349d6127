/**
 What the Merkle tree of a bulk batch means: the layers as functions, the binary tree the
 layers encode, and the four laws of the root. `k` stands for keccak256; hypotheses about
 collisions range over the byte strings that were actually hashed.
 */
module Merkle {
  import opened Bytes
  import opened Ordering

  type Keccak = Bytes -> Bytes32

  /** `Buffer.compare` compares the buffers themselves. */
  function ByteKey(b: Bytes): seq<int> { b }

  // ---- Elements: sort, then drop adjacent repeats ----

  function BufDedup(s: seq<Bytes>): seq<Bytes> {
    if |s| <= 1 then s
    else
      var n := |s| - 1;
      if s[n] == s[n - 1] then BufDedup(s[..n]) else BufDedup(s[..n]) + [s[n]]
  }

  function Elements(input: seq<Bytes>): seq<Bytes> {
    BufDedup(SortBy(ByteKey, input))
  }

  lemma {:induction false} BufDedupStrict(s: seq<Bytes>)
    requires Sorted(ByteKey, s)
    ensures StrictlySorted(ByteKey, BufDedup(s))
    ensures forall x :: x in BufDedup(s) <==> x in s
    ensures s != [] ==> BufDedup(s) != [] && BufDedup(s)[|BufDedup(s)| - 1] == s[|s| - 1]
  {
    if |s| > 1 {
      var n := |s| - 1;
      BufDedupStrict(s[..n]);
      LexTrichotomy(s[n], s[n - 1]);
      assert s == s[..n] + [s[n]];
    }
  }

  /** The elements are the input's values, each once, in ascending order. */
  lemma ElementsAreTheSortedSet(input: seq<Bytes>)
    ensures StrictlySorted(ByteKey, Elements(input))
    ensures forall x :: x in Elements(input) <==> x in input
  {
    SortBySorts(ByteKey, input);
    BufDedupStrict(SortBy(ByteKey, input));
    forall x ensures x in SortBy(ByteKey, input) <==> x in input {
      assert x in multiset(SortBy(ByteKey, input)) <==> x in multiset(input);
    }
  }

  /** Canonicity: order and repetition of the input do not matter. */
  lemma CanonicalElements(a: seq<Bytes>, b: seq<Bytes>)
    ensures Elements(a) == Elements(b) <==> forall x :: x in a <==> x in b
  {
    ElementsAreTheSortedSet(a);
    ElementsAreTheSortedSet(b);
    if forall x :: x in a <==> x in b {
      StrictListingUnique(ByteKey, Elements(a), Elements(b));
    }
  }

  // ---- Layers ----

  function SortAndConcat(a: Bytes, b: Bytes): Bytes {
    if LexLess(b, a) then b + a else a + b
  }

  function CombinedHash(k: Keccak, a: Bytes, b: Bytes): Bytes {
    k(SortAndConcat(a, b))
  }

  lemma CombinedHashCommutes(k: Keccak, a: Bytes, b: Bytes)
    ensures CombinedHash(k, a, b) == CombinedHash(k, b, a)
  {
    LexTrichotomy(a, b);
  }

  /** The lesser value comes first, whatever their lengths. */
  lemma SortAndConcatAscends(a: Bytes, b: Bytes)
    ensures !LexLess(b, a) ==> SortAndConcat(a, b) == a + b == SortAndConcat(b, a)
    ensures LexLess(b, a) ==> SortAndConcat(a, b) == b + a == SortAndConcat(b, a)
  {
    LexTrichotomy(a, b);
  }

  /** A sorted pair of 32-byte values can be read back, up to the order of the pair. */
  lemma SortAndConcatInjective(a: Bytes, b: Bytes, c: Bytes, d: Bytes)
    requires |a| == |b| == |c| == |d|
    requires SortAndConcat(a, b) == SortAndConcat(c, d)
    ensures (a == c && b == d) || (a == d && b == c)
  {
    var p, q := SortAndConcat(a, b), SortAndConcat(c, d);
    assert p[..|a|] == q[..|a|] && p[|a|..] == q[|a|..];
  }

  /** Neighbours are hashed; a lone last element moves up unchanged. */
  function NextLayer(k: Keccak, s: seq<Bytes>): (r: seq<Bytes>)
    ensures |r| == (|s| + 1) / 2
  {
    if |s| <= 1 then s else [CombinedHash(k, s[0], s[1])] + NextLayer(k, s[2..])
  }

  function Layers(k: Keccak, s: seq<Bytes>): (r: seq<seq<Bytes>>)
    ensures r != [] && r[0] == s
    decreases |s|
  {
    if |s| <= 1 then [s] else [s] + Layers(k, NextLayer(k, s))
  }

  /** `getLayers`: an empty tree has the single layer holding one empty value. */
  function LayersOf(k: Keccak, elements: seq<Bytes>): seq<seq<Bytes>> {
    if elements == [] then [[[]]] else Layers(k, elements)
  }

  function Root(k: Keccak, s: seq<Bytes>): Bytes
    requires s != []
    decreases |s|
  {
    if |s| == 1 then s[0] else Root(k, NextLayer(k, s))
  }

  function RootOf(k: Keccak, input: seq<Bytes>): Bytes {
    if Elements(input) == [] then [] else Root(k, Elements(input))
  }

  lemma {:induction false} LastLayerHoldsRoot(k: Keccak, s: seq<Bytes>)
    requires s != []
    ensures Layers(k, s)[|Layers(k, s)| - 1] == [Root(k, s)]
    decreases |s|
  {
    if |s| > 1 {
      LastLayerHoldsRoot(k, NextLayer(k, s));
    }
  }

  lemma {:induction false} NextLayerAt(k: Keccak, s: seq<Bytes>, i: nat)
    requires i < |NextLayer(k, s)|
    ensures NextLayer(k, s)[i] ==
            if 2 * i + 1 < |s| then CombinedHash(k, s[2 * i], s[2 * i + 1]) else s[2 * i]
  {
    if i > 0 { NextLayerAt(k, s[2..], i - 1); }
  }

  // ---- Proofs ----

  function PairIndex(i: nat): nat {
    if i % 2 == 0 then i + 1 else i - 1
  }

  /** Siblings on the way from position `i` of layer `s` to the root. */
  function ProofAt(k: Keccak, s: seq<Bytes>, i: nat): seq<Bytes>
    requires i < |s|
    decreases |s|
  {
    if |s| == 1 then []
    else (if PairIndex(i) < |s| then [s[PairIndex(i)]] else []) + ProofAt(k, NextLayer(k, s), i / 2)
  }

  /** The sorted-pair fold by which a proof is checked. */
  function Fold(k: Keccak, v: Bytes, proof: seq<Bytes>): Bytes {
    if proof == [] then v
    else CombinedHash(k, Fold(k, v, proof[..|proof| - 1]), proof[|proof| - 1])
  }

  lemma {:induction false} FoldFromFront(k: Keccak, v: Bytes, x: Bytes, proof: seq<Bytes>)
    ensures Fold(k, v, [x] + proof) == Fold(k, CombinedHash(k, v, x), proof)
  {
    var p := [x] + proof;
    if proof == [] {
      assert p[..0] == [];
    } else {
      var n := |proof| - 1;
      FoldFromFront(k, v, x, proof[..n]);
      assert p[..n + 1] == [x] + proof[..n];
    }
  }

  /** Completeness: the proof of every position folds to the root. */
  lemma {:induction false} Completeness(k: Keccak, s: seq<Bytes>, i: nat)
    requires i < |s|
    ensures Fold(k, s[i], ProofAt(k, s, i)) == Root(k, s)
    decreases |s|
  {
    if |s| > 1 {
      Completeness(k, NextLayer(k, s), i / 2);
      var rest := ProofAt(k, NextLayer(k, s), i / 2);
      ParentIsPairHash(k, s, i);
      if PairIndex(i) < |s| {
        FoldFromFront(k, s[i], s[PairIndex(i)], rest);
      } else {
        assert [] + rest == rest;
      }
    }
  }

  // ---- The contract's check ----

  /** What the contract hashes for a pair: it compares the two words as numbers. */
  function PairPreimage(a: Bytes, b: Bytes): Bytes {
    if Value(256, a) < Value(256, b) then a + b else b + a
  }

  /** The contract's loop over a proof. */
  function ProcessProof(k: Keccak, leaf: Bytes, proof: seq<Bytes>): Bytes
    decreases |proof|
  {
    if proof == [] then leaf else ProcessProof(k, k(PairPreimage(leaf, proof[0])), proof[1..])
  }

  lemma PairPreimageIsSorted(a: Bytes, b: Bytes)
    requires |a| == |b|
    ensures PairPreimage(a, b) == SortAndConcat(a, b)
  {
    LexIsNumeric(256, a, b);
    LexTrichotomy(a, b);
  }

  ghost predicate AreWords(s: seq<Bytes>) {
    forall i :: 0 <= i < |s| ==> |s[i]| == 32
  }

  lemma {:induction false} CheckIsFold(k: Keccak, leaf: Bytes, proof: seq<Bytes>)
    requires |leaf| == 32 && AreWords(proof)
    ensures ProcessProof(k, leaf, proof) == Fold(k, leaf, proof)
    decreases |proof|
  {
    if proof != [] {
      PairPreimageIsSorted(leaf, proof[0]);
      CheckIsFold(k, CombinedHash(k, leaf, proof[0]), proof[1..]);
      FoldFromFront(k, leaf, proof[0], proof[1..]);
      assert proof == [proof[0]] + proof[1..];
    }
  }

  lemma {:induction false} ProofsAreWords(k: Keccak, s: seq<Bytes>, i: nat)
    requires i < |s| && AreWords(s)
    ensures AreWords(ProofAt(k, s, i))
    decreases |s|
  {
    if |s| > 1 {
      forall j | 0 <= j < |NextLayer(k, s)| ensures |NextLayer(k, s)[j]| == 32 {
        NextLayerAt(k, s, j);
      }
      ProofsAreWords(k, NextLayer(k, s), i / 2);
    }
  }

  /** The contract's check of every element's proof yields the root. */
  lemma CheckedCompleteness(k: Keccak, s: seq<Bytes>, i: nat)
    requires i < |s| && AreWords(s)
    ensures ProcessProof(k, s[i], ProofAt(k, s, i)) == Root(k, s)
  {
    ProofsAreWords(k, s, i);
    CheckIsFold(k, s[i], ProofAt(k, s, i));
    Completeness(k, s, i);
  }

  lemma ParentIsPairHash(k: Keccak, s: seq<Bytes>, i: nat)
    requires i < |s|
    ensures NextLayer(k, s)[i / 2] ==
            if PairIndex(i) < |s| then CombinedHash(k, s[i], s[PairIndex(i)]) else s[i]
  {
    if i % 2 == 1 {
      OddParent(k, s, i, i / 2);
    } else if i + 1 < |s| {
      EvenParent(k, s, i, i / 2);
    } else {
      LoneParent(k, s, i, i / 2);
    }
  }

  lemma EvenParent(k: Keccak, s: seq<Bytes>, i: nat, j: nat)
    requires i == 2 * j && i + 1 < |s|
    ensures NextLayer(k, s)[j] == CombinedHash(k, s[i], s[i + 1])
  {
    NextLayerAt(k, s, j);
  }

  lemma LoneParent(k: Keccak, s: seq<Bytes>, i: nat, j: nat)
    requires i == 2 * j && i + 1 == |s|
    ensures NextLayer(k, s)[j] == s[i]
  {
    NextLayerAt(k, s, j);
  }

  lemma OddParent(k: Keccak, s: seq<Bytes>, i: nat, j: nat)
    requires i == 2 * j + 1 < |s|
    ensures NextLayer(k, s)[j] == CombinedHash(k, s[i], s[i - 1])
  {
    NextLayerAt(k, s, j);
    CombinedHashCommutes(k, s[i - 1], s[i]);
  }

  /** At most ceil(log2 n) entries: no more than `e` whenever n <= 2^e. */
  lemma {:induction false} ProofIsLogarithmic(k: Keccak, s: seq<Bytes>, i: nat, e: nat)
    requires i < |s| <= Pow(2, e)
    ensures |ProofAt(k, s, i)| <= e
    decreases |s|
  {
    if |s| > 1 {
      ProofIsLogarithmic(k, NextLayer(k, s), i / 2, e - 1);
    }
  }

  // ---- The binary tree behind the layers ----

  datatype Tree = Leaf(value: Bytes) | Node(left: Tree, right: Tree)

  function Digest(k: Keccak, t: Tree): Bytes {
    match t
    case Leaf(v) => v
    case Node(l, r) => CombinedHash(k, Digest(k, l), Digest(k, r))
  }

  ghost function LeafSet(t: Tree): set<Bytes> {
    match t
    case Leaf(v) => {v}
    case Node(l, r) => LeafSet(l) + LeafSet(r)
  }

  /** The byte strings hashed to obtain the digest. */
  ghost function HashedIn(k: Keccak, t: Tree): set<Bytes> {
    match t
    case Leaf(_) => {}
    case Node(l, r) => HashedIn(k, l) + HashedIn(k, r) + {SortAndConcat(Digest(k, l), Digest(k, r))}
  }

  ghost function PairUp(ts: seq<Tree>): (r: seq<Tree>)
    ensures |r| == (|ts| + 1) / 2
  {
    if |ts| <= 1 then ts else [Node(ts[0], ts[1])] + PairUp(ts[2..])
  }

  ghost function Grow(ts: seq<Tree>): Tree
    requires ts != []
    decreases |ts|
  {
    if |ts| == 1 then ts[0] else Grow(PairUp(ts))
  }

  ghost function Digests(k: Keccak, ts: seq<Tree>): (r: seq<Bytes>)
    ensures |r| == |ts|
  {
    if ts == [] then [] else [Digest(k, ts[0])] + Digests(k, ts[1..])
  }

  ghost function LeafSets(ts: seq<Tree>): set<Bytes> {
    if ts == [] then {} else LeafSet(ts[0]) + LeafSets(ts[1..])
  }

  ghost function Leaves(s: seq<Bytes>): (r: seq<Tree>)
    ensures |r| == |s|
  {
    if s == [] then [] else [Leaf(s[0])] + Leaves(s[1..])
  }

  ghost function TreeOf(s: seq<Bytes>): Tree
    requires s != []
  {
    Grow(Leaves(s))
  }

  lemma {:induction false} PairUpDigests(k: Keccak, ts: seq<Tree>)
    ensures Digests(k, PairUp(ts)) == NextLayer(k, Digests(k, ts))
    ensures LeafSets(PairUp(ts)) == LeafSets(ts)
  {
    if |ts| > 1 {
      var rest := ts[2..];
      PairUpDigests(k, rest);
      assert ts[1..][1..] == rest;
      assert Digests(k, ts) == [Digest(k, ts[0]), Digest(k, ts[1])] + Digests(k, rest);
      assert Digests(k, ts)[2..] == Digests(k, rest);
      assert PairUp(ts)[1..] == PairUp(rest);
    }
  }

  lemma {:induction false} GrowMeaning(k: Keccak, ts: seq<Tree>)
    requires ts != []
    ensures Digest(k, Grow(ts)) == Root(k, Digests(k, ts))
    ensures LeafSet(Grow(ts)) == LeafSets(ts)
    decreases |ts|
  {
    if |ts| > 1 {
      PairUpDigests(k, ts);
      GrowMeaning(k, PairUp(ts));
    }
  }

  lemma {:induction false} LeavesMeaning(k: Keccak, s: seq<Bytes>)
    ensures Digests(k, Leaves(s)) == s
    ensures LeafSets(Leaves(s)) == set x | x in s
  {
    if s != [] {
      LeavesMeaning(k, s[1..]);
      assert s == [s[0]] + s[1..];
      assert Leaves(s)[1..] == Leaves(s[1..]);
    }
  }

  /** The layer construction computes the digest of a tree over exactly the elements. */
  lemma TreeMeaning(k: Keccak, s: seq<Bytes>)
    requires s != []
    ensures Digest(k, TreeOf(s)) == Root(k, s)
    ensures LeafSet(TreeOf(s)) == set x | x in s
  {
    LeavesMeaning(k, s);
    GrowMeaning(k, Leaves(s));
  }

  // ---- Binding and soundness ----

  /** Leaves are 32-byte values none of which is the hash of one of the strings `hashed`. */
  ghost predicate PlainLeaves(k: Keccak, leaves: set<Bytes>, hashed: set<Bytes>) {
    forall v :: v in leaves ==> |v| == 32 && forall p :: p in hashed ==> k(p) != v
  }

  lemma {:induction false} DigestIs32Bytes(k: Keccak, t: Tree)
    requires forall v :: v in LeafSet(t) ==> |v| == 32
    ensures |Digest(k, t)| == 32
  {
    match t
    case Leaf(v) => assert v in LeafSet(t);
    case Node(l, r) =>
  }

  /** Equal digests have equal leaf sets, whatever the two shapes. */
  lemma {:induction false} DigestBindsLeaves(k: Keccak, t: Tree, u: Tree, hashed: set<Bytes>)
    requires HashedIn(k, t) + HashedIn(k, u) <= hashed && CollisionFree(k, hashed)
    requires PlainLeaves(k, LeafSet(t) + LeafSet(u), hashed)
    requires Digest(k, t) == Digest(k, u)
    ensures LeafSet(t) == LeafSet(u)
  {
    assert t.Leaf? ==> t.value in LeafSet(t);
    assert u.Leaf? ==> u.value in LeafSet(u);
    match (t, u)
    case (Leaf(v), Leaf(w)) =>
    case (Leaf(v), Node(l, r)) =>
    case (Node(l, r), Leaf(v)) =>
    case (Node(l, r), Node(m, n)) =>
      DigestIs32Bytes(k, l);
      DigestIs32Bytes(k, r);
      DigestIs32Bytes(k, m);
      DigestIs32Bytes(k, n);
      assert SortAndConcat(Digest(k, l), Digest(k, r)) in hashed;
      assert SortAndConcat(Digest(k, m), Digest(k, n)) in hashed;
      SortAndConcatInjective(Digest(k, l), Digest(k, r), Digest(k, m), Digest(k, n));
      if Digest(k, l) == Digest(k, m) && Digest(k, r) == Digest(k, n) {
        DigestBindsLeaves(k, l, m, hashed);
        DigestBindsLeaves(k, r, n, hashed);
      } else {
        DigestBindsLeaves(k, l, n, hashed);
        DigestBindsLeaves(k, r, m, hashed);
      }
  }

  /** The byte strings hashed to build a tree from `input`. */
  ghost function HashedBy(k: Keccak, input: seq<Bytes>): set<Bytes> {
    if Elements(input) == [] then {} else HashedIn(k, TreeOf(Elements(input)))
  }

  /**
   Binding and canonicity together: two inputs have the same root exactly when they hold
   the same values. Sizes and odd-element promotions may differ, and either may be empty.
   */
  lemma RootDeterminesElementSet(k: Keccak, a: seq<Bytes>, b: seq<Bytes>)
    requires CollisionFree(k, HashedBy(k, a) + HashedBy(k, b))
    requires PlainLeaves(k, (set x | x in a) + (set x | x in b), HashedBy(k, a) + HashedBy(k, b))
    ensures RootOf(k, a) == RootOf(k, b) <==> forall x :: x in a <==> x in b
  {
    ElementsAreTheSortedSet(a);
    ElementsAreTheSortedSet(b);
    CanonicalElements(a, b);
    RootIsTreeDigest(k, a);
    RootIsTreeDigest(k, b);
    if RootOf(k, a) == RootOf(k, b) && Elements(a) != [] && Elements(b) != [] {
      DigestBindsLeaves(k, TreeOf(Elements(a)), TreeOf(Elements(b)), HashedBy(k, a) + HashedBy(k, b));
      forall x ensures x in a <==> x in b {
        assert x in LeafSet(TreeOf(Elements(a))) <==> x in LeafSet(TreeOf(Elements(b)));
      }
    } else if RootOf(k, a) == RootOf(k, b) {
      assert Elements(a) == [] && Elements(b) == [];
    }
  }

  lemma RootIsTreeDigest(k: Keccak, input: seq<Bytes>)
    requires forall x :: x in input ==> |x| == 32
    ensures Elements(input) == [] <==> RootOf(k, input) == []
    ensures Elements(input) != [] ==>
              Digest(k, TreeOf(Elements(input))) == RootOf(k, input)
              && LeafSet(TreeOf(Elements(input))) == set x | x in input
  {
    ElementsAreTheSortedSet(input);
    if Elements(input) != [] {
      TreeMeaning(k, Elements(input));
      DigestIs32Bytes(k, TreeOf(Elements(input)));
    }
  }

  /** The byte strings hashed while folding a proof. */
  ghost function HashedInFold(k: Keccak, v: Bytes, proof: seq<Bytes>): set<Bytes> {
    if proof == [] then {}
    else
      var n := |proof| - 1;
      HashedInFold(k, v, proof[..n]) + {SortAndConcat(Fold(k, v, proof[..n]), proof[n])}
  }

  lemma {:induction false} FoldReachesALeaf(k: Keccak, t: Tree, v: Bytes, proof: seq<Bytes>, hashed: set<Bytes>)
    requires HashedIn(k, t) + HashedInFold(k, v, proof) <= hashed && CollisionFree(k, hashed)
    requires PlainLeaves(k, LeafSet(t) + {v}, hashed)
    requires forall x :: x in proof ==> |x| == 32
    requires Fold(k, v, proof) == Digest(k, t)
    ensures v in LeafSet(t)
  {
    assert v in LeafSet(t) + {v};
    assert t.Leaf? ==> t.value in LeafSet(t);
    if proof == [] {
    } else {
      var n := |proof| - 1;
      var w := Fold(k, v, proof[..n]);
      assert |w| == 32;
      assert SortAndConcat(w, proof[n]) in HashedInFold(k, v, proof);
      match t
      case Leaf(u) =>
      case Node(l, r) =>
        DigestIs32Bytes(k, l);
        DigestIs32Bytes(k, r);
        assert SortAndConcat(Digest(k, l), Digest(k, r)) in hashed;
        assert proof[n] in proof;
        SortAndConcatInjective(w, proof[n], Digest(k, l), Digest(k, r));
        if w == Digest(k, l) {
          FoldReachesALeaf(k, l, v, proof[..n], hashed);
        } else {
          FoldReachesALeaf(k, r, v, proof[..n], hashed);
        }
    }
  }

  /** The byte strings the contract hashes while it checks a proof. */
  ghost function HashedInCheck(k: Keccak, leaf: Bytes, proof: seq<Bytes>): set<Bytes>
    decreases |proof|
  {
    if proof == [] then {}
    else {PairPreimage(leaf, proof[0])} + HashedInCheck(k, k(PairPreimage(leaf, proof[0])), proof[1..])
  }

  lemma {:induction false} HashedFromFront(k: Keccak, v: Bytes, x: Bytes, proof: seq<Bytes>)
    ensures HashedInFold(k, v, [x] + proof) == {SortAndConcat(v, x)} + HashedInFold(k, CombinedHash(k, v, x), proof)
  {
    var p := [x] + proof;
    if proof == [] {
      assert p[..0] == [] && p[0] == x;
    } else {
      var n := |proof| - 1;
      HashedFromFront(k, v, x, proof[..n]);
      FoldFromFront(k, v, x, proof[..n]);
      assert p[..n + 1] == [x] + proof[..n] && p[n + 1] == proof[n];
    }
  }

  lemma {:induction false} SameHashed(k: Keccak, leaf: Bytes, proof: seq<Bytes>)
    requires |leaf| == 32 && AreWords(proof)
    ensures HashedInCheck(k, leaf, proof) == HashedInFold(k, leaf, proof)
    decreases |proof|
  {
    if proof != [] {
      PairPreimageIsSorted(leaf, proof[0]);
      SameHashed(k, CombinedHash(k, leaf, proof[0]), proof[1..]);
      HashedFromFront(k, leaf, proof[0], proof[1..]);
      assert proof == [proof[0]] + proof[1..];
    }
  }

  /** A proof that folds to the root starts from one of the input's values. */
  lemma FoldSoundness(k: Keccak, input: seq<Bytes>, v: Bytes, proof: seq<Bytes>, hashed: set<Bytes>)
    requires hashed == HashedBy(k, input) + HashedInFold(k, v, proof) && CollisionFree(k, hashed)
    requires PlainLeaves(k, (set x | x in input) + {v}, hashed)
    requires forall x :: x in proof ==> |x| == 32
    requires Fold(k, v, proof) == RootOf(k, input)
    ensures v in input
  {
    RootIsTreeDigest(k, input);
    assert v in (set x | x in input) + {v};
    assert Elements(input) != [];
    FoldReachesALeaf(k, TreeOf(Elements(input)), v, proof, hashed);
  }

  /** Soundness: a proof that passes the contract's check against the root is of one of the input's values. */
  lemma Soundness(k: Keccak, input: seq<Bytes>, v: Bytes, proof: seq<Bytes>)
    requires CollisionFree(k, HashedBy(k, input) + HashedInCheck(k, v, proof))
    requires PlainLeaves(k, (set x | x in input) + {v}, HashedBy(k, input) + HashedInCheck(k, v, proof))
    requires AreWords(proof)
    requires ProcessProof(k, v, proof) == RootOf(k, input)
    ensures v in input
  {
    assert v in (set x | x in input) + {v};
    CheckIsFold(k, v, proof);
    SameHashed(k, v, proof);
    FoldSoundness(k, input, v, proof, HashedBy(k, input) + HashedInCheck(k, v, proof));
  }
}
