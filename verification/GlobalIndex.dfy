/**
 The global index of a bridge exit: a mainnet flag, a rollup index and a
 deposit count, packed by concatenating big-endian bytes and unpacked by
 slicing them.
 */
module GlobalIndex {
  import opened Prelude

  type Byte = x: int | 0 <= x < 256

  const PART_SIZE := 4
  const MAINNET_FLAG: int := TWO_64
  const LEGACY_NETWORK: uint32 := 1

  // ----- big-endian bytes -----

  function Value(bs: seq<Byte>): nat {
    if bs == [] then 0 else Value(bs[..|bs| - 1]) * 256 + bs[|bs| - 1]
  }

  /** The shortest representation; zero has none. */
  function Bytes(n: nat): seq<Byte> {
    if n == 0 then [] else Bytes(n / 256) + [n % 256]
  }

  function Base(k: nat): nat {
    if k == 0 then 1 else 256 * Base(k - 1)
  }

  /** Exactly k bytes. */
  function Fill(n: nat, k: nat): seq<Byte>
    requires n < Base(k)
  {
    if k == 0 then [] else Fill(n / 256, k - 1) + [n % 256]
  }

  lemma {:induction false} BytesValue(n: nat)
    ensures Value(Bytes(n)) == n
  {
    if n > 0 {
      BytesValue(n / 256);
      assert Bytes(n)[..|Bytes(n)| - 1] == Bytes(n / 256);
    }
  }

  lemma {:induction false} FillValue(n: nat, k: nat)
    requires n < Base(k)
    ensures |Fill(n, k)| == k && Value(Fill(n, k)) == n
    decreases k
  {
    if k > 0 {
      FillValue(n / 256, k - 1);
      assert Fill(n, k)[..k - 1] == Fill(n / 256, k - 1);
    }
  }

  lemma PartBase()
    ensures Base(4) == TWO_32
  {
    assert Base(1) == 256;
    assert Base(2) == 0x1_0000;
    assert Base(3) == 0x100_0000;
  }

  lemma {:induction false} BaseGrows(j: nat, k: nat)
    requires j <= k
    ensures Base(j) <= Base(k)
    decreases k
  {
    if j < k { BaseGrows(j, k - 1); }
  }

  /** Cutting off the last k bytes divides by 256 to the k, with those bytes as the remainder. */
  lemma {:induction false} CutSplits(bs: seq<Byte>, k: nat)
    requires k <= |bs|
    ensures Value(bs) == Value(bs[..|bs| - k]) * Base(k) + Value(bs[|bs| - k..])
    ensures Value(bs[|bs| - k..]) < Base(k)
    decreases k
  {
    var n := |bs|;
    if k == 0 {
      assert bs[..n] == bs && bs[n..] == [];
    } else {
      CutSplits(bs[..n - 1], k - 1);
      assert bs[..n - 1][..n - k] == bs[..n - k];
      assert bs[n - k..][..k - 1] == bs[..n - 1][n - k..];
      var head, tail, base, last := Value(bs[..n - k]), Value(bs[..n - 1][n - k..]), Base(k - 1), bs[n - 1];
      assert Value(bs[n - k..]) == tail * 256 + last;
      Regroup(head, tail, base, last);
    }
  }

  lemma Regroup(head: nat, tail: nat, base: nat, last: Byte)
    requires tail < base
    ensures (head * base + tail) * 256 + last == head * (256 * base) + (tail * 256 + last)
    ensures tail * 256 + last < 256 * base
  {
  }

  // ----- encoding and decoding -----

  /** The packed bytes; the flag byte is there only for mainnet. */
  function Packed(mainnet: bool, rollup: uint32, deposit: uint32): seq<Byte> {
    PartBase();
    (if mainnet then [1] + Fill(0, PART_SIZE) else Fill(rollup, PART_SIZE)) + Fill(deposit, PART_SIZE)
  }

  function Generate(mainnet: bool, rollup: uint32, deposit: uint32): nat {
    Value(Packed(mainnet, rollup, deposit))
  }

  function GenerateForNetwork(network: uint32, deposit: uint32): nat {
    Generate(network == 0, if network == 0 then 0 else network - 1, deposit)
  }

  /** Pads to four bytes; the caller never passes more. */
  function BytesToUint32(bs: seq<Byte>): nat
    requires |bs| <= PART_SIZE
  {
    Value(seq(PART_SIZE - |bs|, _ => 0) + bs)
  }

  datatype Parts = Parts(mainnet: bool, rollup: nat, deposit: nat)

  function Decode(g: nat): Parts {
    var bs := Bytes(g);
    if bs == [] then Parts(false, 0, 0)
    else
      var depositFrom := Max(|bs| - PART_SIZE, 0);
      var rollupFrom := Max(depositFrom - PART_SIZE, 0);
      Parts(g / MAINNET_FLAG % 2 == 1,
            BytesToUint32(bs[rollupFrom..depositFrom]),
            BytesToUint32(bs[depositFrom..]))
  }

  lemma {:induction false} PaddingIsFree(zeros: seq<Byte>, bs: seq<Byte>)
    requires forall i :: 0 <= i < |zeros| ==> zeros[i] == 0
    ensures Value(zeros + bs) == Value(bs)
    decreases |zeros| + |bs|
  {
    if bs != [] {
      PaddingIsFree(zeros, bs[..|bs| - 1]);
      assert (zeros + bs)[..|zeros + bs| - 1] == zeros + bs[..|bs| - 1];
    } else if zeros != [] {
      PaddingIsFree(zeros[..|zeros| - 1], []);
      assert zeros + bs == zeros && zeros[..|zeros| - 1] + [] == zeros[..|zeros| - 1];
    }
  }

  lemma BytesToUint32IsValue(bs: seq<Byte>)
    requires |bs| <= PART_SIZE
    ensures BytesToUint32(bs) == Value(bs)
  {
    PaddingIsFree(seq(PART_SIZE - |bs|, _ => 0), bs);
  }

  /** The last four bytes, or all there are, are the remainder modulo 2 to the 32; the others are the quotient. */
  lemma LastPart(bs: seq<Byte>)
    ensures var cut := Max(|bs| - PART_SIZE, 0);
            Value(bs[cut..]) == Value(bs) % TWO_32 && Value(bs[..cut]) == Value(bs) / TWO_32
  {
    if |bs| >= PART_SIZE {
      var cut := |bs| - PART_SIZE;
      CutPart(bs, cut);
      Divides(Value(bs), Value(bs[..cut]), Value(bs[cut..]));
    } else {
      ShortPart(bs);
      assert bs[0..] == bs && bs[..0] == [];
      Divides(Value(bs), 0, Value(bs));
    }
  }

  lemma CutPart(bs: seq<Byte>, cut: nat)
    requires |bs| == cut + PART_SIZE
    ensures Value(bs) == Value(bs[..cut]) * TWO_32 + Value(bs[cut..]) && Value(bs[cut..]) < TWO_32
  {
    CutSplits(bs, PART_SIZE);
    PartBase();
  }

  lemma ShortPart(bs: seq<Byte>)
    requires |bs| < PART_SIZE
    ensures Value(bs) < TWO_32
  {
    CutSplits(bs, |bs|);
    BaseGrows(|bs|, PART_SIZE);
    PartBase();
    assert bs[0..] == bs;
  }

  lemma Divides(n: nat, quotient: nat, remainder: nat)
    requires n == quotient * TWO_32 + remainder && remainder < TWO_32
    ensures n / TWO_32 == quotient && n % TWO_32 == remainder
  {
  }

  /** On every non-negative integer the byte slices are the bit fields. */
  lemma DecodeIsArithmetic(g: nat)
    ensures Decode(g) == Parts(g / TWO_64 % 2 == 1, g / TWO_32 % TWO_32, g % TWO_32)
  {
    var bs := Bytes(g);
    BytesValue(g);
    if bs != [] {
      var cut := Max(|bs| - PART_SIZE, 0);
      var from := Max(cut - PART_SIZE, 0);
      LastPart(bs);
      LastPart(bs[..cut]);
      assert bs[..cut][from..] == bs[from..cut];
      BytesToUint32IsValue(bs[from..cut]);
      BytesToUint32IsValue(bs[cut..]);
    }
  }

  lemma GenerateIsArithmetic(mainnet: bool, rollup: uint32, deposit: uint32)
    ensures Generate(mainnet, rollup, deposit) == (if mainnet then TWO_64 else rollup * TWO_32) + deposit
  {
    PartBase();
    var bs := Packed(mainnet, rollup, deposit);
    FillValue(deposit, PART_SIZE);
    CutSplits(bs, PART_SIZE);
    assert bs[|bs| - PART_SIZE..] == Fill(deposit, PART_SIZE);
    if mainnet {
      FillValue(0, PART_SIZE);
      var head := [1] + Fill(0, PART_SIZE);
      assert bs[..|bs| - PART_SIZE] == head;
      CutSplits(head, PART_SIZE);
      assert head[..1] == [1] && head[1..] == Fill(0, PART_SIZE);
      assert Value([1]) == 1 by { assert [1][..0] == []; }
    } else {
      FillValue(rollup, PART_SIZE);
      assert bs[..|bs| - PART_SIZE] == Fill(rollup, PART_SIZE);
    }
  }

  /** The three fields of a packed integer. */
  lemma Fields(mainnet: bool, rollup: uint32, deposit: uint32, g: nat)
    requires g == (if mainnet then TWO_64 else rollup * TWO_32) + deposit
    ensures (g / TWO_64 % 2 == 1) == mainnet
    ensures g / TWO_32 % TWO_32 == if mainnet then 0 else rollup
    ensures g % TWO_32 == deposit
  {
    Divides(g, if mainnet then TWO_32 else rollup, deposit);
  }

  lemma DecodesTo(mainnet: bool, rollup: uint32, deposit: uint32, g: nat)
    requires g == Generate(mainnet, rollup, deposit)
    ensures Decode(g) == Parts(mainnet, if mainnet then 0 else rollup, deposit)
  {
    GenerateIsArithmetic(mainnet, rollup, deposit);
    DecodeIsArithmetic(g);
    Fields(mainnet, rollup, deposit, g);
  }

  /** Decoding inverts encoding for every network and deposit count. */
  lemma RoundTrip(network: uint32, deposit: uint32)
    ensures Decode(GenerateForNetwork(network, deposit)) ==
            Parts(network == 0, if network == 0 then 0 else network - 1, deposit)
  {
    DecodesTo(network == 0, if network == 0 then 0 else network - 1, deposit, GenerateForNetwork(network, deposit));
  }

  lemma EncodingIsInjective(network: uint32, deposit: uint32, network': uint32, deposit': uint32)
    requires GenerateForNetwork(network, deposit) == GenerateForNetwork(network', deposit')
    ensures network == network' && deposit == deposit'
  {
    RoundTrip(network, deposit);
    RoundTrip(network', deposit');
  }

  // ----- the legacy encoding -----

  predicate PreEtrog(destination: uint32, block: uint64, upgrade: uint64) {
    upgrade > 0 && destination == LEGACY_NETWORK && block <= upgrade
  }

  function ForBridge(destination: uint32, block: uint64, deposit: uint32, network: uint32, upgrade: uint64): nat {
    if PreEtrog(destination, block, upgrade) then deposit else GenerateForNetwork(network, deposit)
  }

  /**
   A bridge's global index always gives back its deposit count. It gives back
   its network exactly when it is not a pre-Etrog bridge or its network is the
   one whose encoding the bare deposit count happens to be.
   */
  lemma BridgeDecodes(destination: uint32, block: uint64, deposit: uint32, network: uint32, upgrade: uint64)
    ensures var parts := Decode(ForBridge(destination, block, deposit, network, upgrade));
            && parts.deposit == deposit
            && (parts == Parts(network == 0, if network == 0 then 0 else network - 1, deposit) <==>
                upgrade == 0 || destination != 1 || block > upgrade || network == 1)
  {
    if PreEtrog(destination, block, upgrade) {
      DecodeIsArithmetic(deposit);
      Fields(false, 0, deposit, deposit);
    } else {
      RoundTrip(network, deposit);
    }
  }
}
