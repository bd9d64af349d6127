/**
 Two-dimensional nonces: packing of channel and nonce into one number, and the replay
 protection that accepts a packed nonce only when it is its channel's next.
 */
module Nonces {
  import opened Wrappers
  import opened Bytes

  const TWO_128: nat := 0x1_00000000_00000000_00000000_00000000

  type Address = nat
  type Packed = n: nat | n < TWO_128 * TWO_128

  function PackNonce(channel: nat, nonce: nat): nat {
    channel * TWO_128 + nonce
  }

  function UnpackNonce(packed: nat): (nat, nat) {
    (packed / TWO_128, packed % TWO_128)
  }

  lemma DivModOfPack(channel: nat, nonce: nat, low: nat, base: nat)
    requires base > 0 && low < base && nonce % base == low
    ensures (channel * base + nonce) / base == channel + nonce / base
    ensures (channel * base + nonce) % base == low
  {
    var q := nonce / base;
    assert channel * base + nonce == (channel + q) * base + low by { assert q * base + low == nonce; }
    DivModUnique(channel * base + nonce, base, channel + q, low);
  }

  lemma DivModUnique(n: int, base: nat, q: int, r: int)
    requires base > 0 && 0 <= r < base && n == q * base + r
    ensures n / base == q && n % base == r
  {
    var d := n / base - q;
    assert d * base == r - n % base;
    assert d > 0 ==> d * base >= base;
    assert d < 0 ==> d * base <= 0 - base;
  }

  lemma TwoTo128()
    ensures TWO_128 == Pow(2, 128) == Pow(256, 16)
  {
    TwoTo64();
    Squared(64, 128, 0x1_00000000_00000000);
    PowOf256(16);
  }

  lemma TwoTo64()
    ensures Pow(2, 64) == 0x1_00000000_00000000
  {
    PowEight();
    Squared(8, 16, 0x100);
    Squared(16, 32, 0x1_0000);
    Squared(32, 64, 0x1_00000000);
  }

  lemma Squared(e: nat, f: nat, p: nat)
    requires f == e + e && Pow(2, e) == p
    ensures Pow(2, f) == p * p
  {
    PowSum(2, e, e);
  }

  /** The channel is shifted by 128 bits: sixteen bytes of channel, then sixteen of nonce. */
  lemma PackingMeaning(channel: nat, nonce: nat)
    ensures PackNonce(channel, nonce) == channel * Pow(2, 128) + nonce
    ensures nonce < Pow(2, 128) ==> ToBE(PackNonce(channel, nonce), 32) == ToBE(channel, 16) + ToBE(nonce, 16)
  {
    TwoTo128();
    if nonce < Pow(256, 16) {
      ToBEInTwo(channel, nonce, 16, 16);
    }
  }

  /** Unpacking splits at bit 128. */
  lemma UnpackingMeaning(packed: nat)
    ensures Pow(2, 128) > 0
    ensures UnpackNonce(packed) == (packed / Pow(2, 128), packed % Pow(2, 128))
  {
    TwoTo128();
  }

  /** Unpacking undoes packing exactly for nonces that fit their 128 bits. */
  lemma UnpackOfPack(channel: nat, nonce: nat)
    ensures UnpackNonce(PackNonce(channel, nonce)) == (channel, nonce) <==> nonce < Pow(2, 128)
  {
    TwoTo128();
    DivModOfPack(channel, nonce, nonce % TWO_128, TWO_128);
  }

  /** Packing undoes unpacking always. */
  lemma PackOfUnpack(packed: nat)
    ensures var (channel, nonce) := UnpackNonce(packed);
            PackNonce(channel, nonce) == packed && nonce < Pow(2, 128)
            && (packed < Pow(2, 256) ==> channel < Pow(2, 128))
  {
    TwoTo128();
    PowSum(2, 128, 128);
    var channel := packed / TWO_128;
    assert channel >= TWO_128 ==> channel * TWO_128 >= TWO_128 * TWO_128;
  }

  // ---- Histories of submissions ----

  datatype Submission = Submission(wallet: Address, packed: Packed) {
    function Channel(): nat { UnpackNonce(packed).0 }
    function Nonce(): nat { UnpackNonce(packed).1 }
  }

  /** The nonce a channel waits for. */
  function Expected(h: seq<Submission>, wallet: Address, channel: nat): (n: nat)
    ensures n < TWO_128
  {
    if h == [] then 0
    else
      var before, s := h[..|h| - 1], h[|h| - 1];
      var n := Expected(before, wallet, channel);
      if s.wallet == wallet && s.Channel() == channel && s.Nonce() == n && n + 1 < TWO_128 then n + 1 else n
  }

  /** The next nonce is accepted; on the last one the counter would overflow and the call reverts. */
  predicate Accepts(h: seq<Submission>, s: Submission) {
    var n := Expected(h, s.wallet, s.Channel());
    s.Nonce() == n && n + 1 < TWO_128
  }

  ghost predicate AcceptedAt(h: seq<Submission>, i: int) {
    0 <= i < |h| && Accepts(h[..i], h[i])
  }

  ghost predicate OnChannel(s: Submission, wallet: Address, channel: nat) {
    s.wallet == wallet && s.Channel() == channel
  }

  lemma {:induction false} ExpectedGrows(h: seq<Submission>, i: nat, wallet: Address, channel: nat)
    requires i <= |h|
    ensures Expected(h[..i], wallet, channel) <= Expected(h, wallet, channel)
    decreases |h|
  {
    if i < |h| {
      ExpectedGrows(h[..|h| - 1], i, wallet, channel);
      assert h[..|h| - 1][..i] == h[..i];
    } else {
      assert h[..i] == h;
    }
  }

  /** Within a channel, later acceptances carry greater nonces. */
  lemma AcceptedNoncesAscend(h: seq<Submission>, i: nat, j: nat)
    requires i < j && AcceptedAt(h, i) && AcceptedAt(h, j)
    requires OnChannel(h[j], h[i].wallet, h[i].Channel())
    ensures h[i].Nonce() < h[j].Nonce()
  {
    var w, c := h[i].wallet, h[i].Channel();
    var upTo := h[..i + 1];
    assert upTo[..|upTo| - 1] == h[..i];
    assert Expected(upTo, w, c) == h[i].Nonce() + 1;
    ExpectedGrows(h[..j], i + 1, w, c);
    assert h[..j][..i + 1] == upTo;
  }

  /** No wallet ever has the same packed nonce accepted twice. */
  lemma NoReplay(h: seq<Submission>, i: nat, j: nat)
    requires i < j && AcceptedAt(h, i) && AcceptedAt(h, j) && h[i].wallet == h[j].wallet
    ensures h[i].packed != h[j].packed
  {
    if h[i].packed == h[j].packed {
      AcceptedNoncesAscend(h, i, j);
    }
  }

  /** A channel accepts 0, 1, 2, ... in order: each nonce below the expected one, exactly once. */
  lemma {:induction false} ChannelCountsUp(h: seq<Submission>, wallet: Address, channel: nat, n: nat)
    ensures n < Expected(h, wallet, channel) <==>
            exists i :: AcceptedAt(h, i) && OnChannel(h[i], wallet, channel) && h[i].Nonce() == n
  {
    if h != [] {
      var last := |h| - 1;
      var before := h[..last];
      ChannelCountsUp(before, wallet, channel, n);
      if i: nat :| AcceptedAt(before, i) && OnChannel(before[i], wallet, channel) && before[i].Nonce() == n {
        assert before[..i] == h[..i];
        assert AcceptedAt(h, i);
      }
      if i: nat :| AcceptedAt(h, i) && OnChannel(h[i], wallet, channel) && h[i].Nonce() == n {
        if i < last {
          assert before[..i] == h[..i];
          assert AcceptedAt(before, i);
        } else {
          assert h[..i] == before;
        }
      }
      if Expected(h, wallet, channel) == n + 1 && Expected(before, wallet, channel) == n {
        assert AcceptedAt(h, last);
      }
    }
  }

  /** The submissions on one channel. */
  function Only(h: seq<Submission>, wallet: Address, channel: nat): seq<Submission> {
    if h == [] then []
    else
      var before, s := h[..|h| - 1], h[|h| - 1];
      Only(before, wallet, channel)
      + if s.wallet == wallet && s.Channel() == channel then [s] else []
  }

  /** Channels are independent: what a channel waits for depends on its own submissions only. */
  lemma {:induction false} ChannelsAreIndependent(h: seq<Submission>, wallet: Address, channel: nat)
    ensures Expected(h, wallet, channel) == Expected(Only(h, wallet, channel), wallet, channel)
  {
    if h != [] {
      var before, s := h[..|h| - 1], h[|h| - 1];
      ChannelsAreIndependent(before, wallet, channel);
      var only := Only(h, wallet, channel);
      if s.wallet == wallet && s.Channel() == channel {
        assert only[..|only| - 1] == Only(before, wallet, channel);
      } else {
        assert only == Only(before, wallet, channel);
      }
    }
  }

  // ---- The contract's counter table ----

  class ReplayProtection {
    var nonces: map<(Address, nat), nat>
    ghost var history: seq<Submission>

    ghost predicate Valid()
      reads this
    {
      forall wallet: Address, channel: nat :: Next(wallet, channel) == Expected(history, wallet, channel)
    }

    function Next(wallet: Address, channel: nat): nat
      reads this
    {
      if (wallet, channel) in nonces then nonces[(wallet, channel)] else 0
    }

    constructor ()
      ensures Valid() && history == []
    {
      nonces := map[];
      history := [];
    }

    /** `Ok(true)` on the expected nonce, `Ok(false)` on any other, `Err` on overflow. */
    method CheckAndUpdateNonce(wallet: Address, packed: Packed) returns (result: Result<bool>)
      requires Valid()
      modifies this
      ensures Valid() && history == old(history) + [Submission(wallet, packed)]
      ensures result == Ok(true) <==> Accepts(old(history), Submission(wallet, packed))
      ensures result.Err? <==>
              UnpackNonce(packed).1 == Expected(old(history), wallet, UnpackNonce(packed).0) == TWO_128 - 1
    {
      ghost var s := Submission(wallet, packed);
      assert (history + [s])[..|history|] == history;
      history := history + [s];
      var channel, nonce := packed / TWO_128, packed % TWO_128;
      var current := Next(wallet, channel);
      if nonce == current {
        if current + 1 == TWO_128 {
          return Err("panic: arithmetic overflow");
        }
        nonces := nonces[(wallet, channel) := current + 1];
        return Ok(true);
      }
      return Ok(false);
    }

    /** The client's `getNonce` yields a nonce that is accepted next, until the channel is used up. */
    method GetNonce(wallet: Address, channel: nat) returns (packed: nat)
      requires Valid() && channel < TWO_128
      ensures packed < TWO_128 * TWO_128
      ensures packed == channel * Pow(2, 128) + Expected(history, wallet, channel)
      ensures Accepts(history, Submission(wallet, packed)) <==> Expected(history, wallet, channel) + 1 < TWO_128
    {
      var next := Next(wallet, channel);
      packed := PackNonce(channel, next);
      PackingMeaning(channel, next);
      TwoTo128();
      UnpackOfPack(channel, next);
      assert channel * TWO_128 <= (TWO_128 - 1) * TWO_128;
    }
  }
}
