/** The tree object that prepares a bulk batch, with its loops over layers and indexes. */
module MerkleTrees {
  import opened Wrappers
  import opened Bytes
  import opened Ordering
  import opened Merkle

  class MerkleTree {
    const keccak: Keccak
    var elements: seq<Bytes>
    var layers: seq<seq<Bytes>>

    ghost predicate Valid()
      reads this
    {
      StrictlySorted(ByteKey, elements) && layers == LayersOf(keccak, elements)
    }

    constructor (keccak: Keccak, input: seq<Bytes>)
      ensures Valid() && this.keccak == keccak && elements == Elements(input)
      ensures GetRoot() == RootOf(keccak, input)
    {
      this.keccak := keccak;
      elements := input;
      layers := [];
      new;
      elements := SortBy(ByteKey, elements);
      elements := BufDedup(elements);
      layers := GetLayers(elements);
      ElementsAreTheSortedSet(input);
      RootIsLastLayer();
    }

    method GetLayers(elements: seq<Bytes>) returns (layers: seq<seq<Bytes>>)
      ensures layers == LayersOf(keccak, elements)
    {
      if |elements| == 0 {
        return [[[]]];
      }
      layers := [elements];
      var last := elements;
      ghost var done := [];
      while |last| > 1
        invariant last != [] && layers == done + [last]
        invariant done + Layers(keccak, last) == Layers(keccak, elements)
        decreases |last|
      {
        var next := GetNextLayer(last);
        AppendAssociates(done, [last], Layers(keccak, next));
        done, last := layers, next;
        layers := layers + [next];
      }
    }

    method GetNextLayer(elements: seq<Bytes>) returns (layer: seq<Bytes>)
      ensures layer == NextLayer(keccak, elements)
    {
      layer := [];
      var idx := 0;
      while idx < |elements|
        invariant 0 <= idx <= |elements|
        invariant |layer| == (idx + 1) / 2
        invariant forall j :: 0 <= j < |layer| ==> layer[j] == NextLayer(keccak, elements)[j]
      {
        if idx % 2 == 0 {
          NextLayerAt(keccak, elements, idx / 2);
          layer := layer + [if idx + 1 < |elements|
                            then CombinedHash(keccak, elements[idx], elements[idx + 1])
                            else elements[idx]];
        }
        idx := idx + 1;
      }
    }

    function GetRoot(): Bytes
      requires Valid()
      reads this
    {
      LayersNotEmpty();
      layers[|layers| - 1][0]
    }

    lemma LayersNotEmpty()
      requires Valid()
      ensures layers != [] && layers[|layers| - 1] != []
    {
      if elements != [] { LastLayerHoldsRoot(keccak, elements); }
    }

    lemma RootIsLastLayer()
      requires Valid()
      ensures GetRoot() == if elements == [] then [] else Root(keccak, elements)
    {
      if elements != [] { LastLayerHoldsRoot(keccak, elements); }
    }

    method BufIndexOf(el: Bytes) returns (index: int)
      ensures var hash := if |el| == 32 then el else keccak(el);
              if index == -1 then hash !in elements
              else 0 <= index < |elements| && elements[index] == hash
    {
      var hash := LookupKey(keccak, el);
      for i := 0 to |elements|
        invariant hash !in elements[..i]
      {
        if hash == elements[i] {
          return i;
        }
      }
      return -1;
    }

    /**
     A proof exists exactly for the elements, values of another length standing for their
     hashes. It folds to the root, the contract's check of it yields the root, and it has at
     most ceil(log2 n) entries.
     */
    method GetProof(el: Bytes) returns (result: Result<seq<Bytes>>)
      requires Valid()
      ensures result.Ok? <==> (if |el| == 32 then el else keccak(el)) in elements
      ensures result.Ok? ==> Fold(keccak, if |el| == 32 then el else keccak(el), result.value) == GetRoot()
      ensures result.Ok? && AreWords(elements) ==>
                ProcessProof(keccak, if |el| == 32 then el else keccak(el), result.value) == GetRoot()
      ensures result.Ok? ==> forall e: nat :: |elements| <= Pow(2, e) ==> |result.value| <= e
    {
      var idx := BufIndexOf(el);
      if idx == -1 {
        return Err("Element does not exist in Merkle tree");
      }
      ghost var start := idx;
      var proof := [];
      var i := 0;
      while i < |layers|
        invariant 0 <= i <= |layers| && 0 <= idx
        invariant i < |layers| ==> idx < |layers[i]| && layers[i..] == Layers(keccak, layers[i])
        invariant i < |layers| ==>
                    proof + ProofAt(keccak, layers[i], idx) == ProofAt(keccak, elements, start)
        invariant i == |layers| ==> proof == ProofAt(keccak, elements, start)
      {
        LayerStep(keccak, layers, i, idx, proof);
        proof := proof + Sibling(layers[i], idx);
        idx := idx / 2;
        i := i + 1;
      }
      Completeness(keccak, elements, start);
      if AreWords(elements) { CheckedCompleteness(keccak, elements, start); }
      RootIsLastLayer();
      forall e: nat | |elements| <= Pow(2, e) ensures |proof| <= e {
        ProofIsLogarithmic(keccak, elements, start, e);
      }
      return Ok(proof);
    }
  }

  /** `getPairElement`, as the list of the values pushed onto the proof. */
  function Sibling(layer: seq<Bytes>, idx: nat): seq<Bytes> {
    if PairIndex(idx) < |layer| then [layer[PairIndex(idx)]] else []
  }

  /** What one round of `getProof` consumes: the top layer adds nothing, any other its sibling. */
  lemma LayerStep(k: Keccak, layers: seq<seq<Bytes>>, i: nat, idx: nat, proof: seq<Bytes>)
    requires i < |layers| && idx < |layers[i]| && layers[i..] == Layers(k, layers[i])
    ensures i + 1 == |layers| ==> proof + Sibling(layers[i], idx) == proof + ProofAt(k, layers[i], idx)
    ensures i + 1 < |layers| ==>
              idx / 2 < |layers[i + 1]| && layers[i + 1..] == Layers(k, layers[i + 1])
              && proof + Sibling(layers[i], idx) + ProofAt(k, layers[i + 1], idx / 2)
                 == proof + ProofAt(k, layers[i], idx)
  {
    var s := layers[i];
    assert layers[i + 1..] == layers[i..][1..];
    if |s| > 1 {
      assert layers[i + 1..] == Layers(k, NextLayer(k, s));
      assert ProofAt(k, s, idx) == Sibling(s, idx) + ProofAt(k, NextLayer(k, s), idx / 2);
      assert (proof + Sibling(s, idx)) + ProofAt(k, layers[i + 1], idx / 2)
          == proof + (Sibling(s, idx) + ProofAt(k, layers[i + 1], idx / 2));
    }
  }

  /** `bufIndexOf` hashes anything that is not already 32 bytes long. */
  function LookupKey(k: Keccak, el: Bytes): Bytes {
    if |el| != 32 then k(el) else el
  }
}
