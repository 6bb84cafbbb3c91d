/**
 * The generators' conversion of a 32-bit seed into the 32-byte seed their
 * random number generator takes.
 */
module RngSeeds {

  /** `rotate_left(8)`: the top byte moves to the bottom. */
  function Rotate8(w: bv32): bv32
  {
    (w << 8) | (w >> 24)
  }

  /** The seed after i rotations to the left by 8 bits. */
  function Rotated(seed: bv32, i: nat): bv32
    decreases i
  {
    if i == 0 then seed else Rotate8(Rotated(seed, i - 1))
  }

  /** `w as u8`: the low byte of a word. */
  function LowByte(w: bv32): (b: bv8)
    ensures b as bv32 == w & 0xFF
  {
    (w & 0xFF) as bv8
  }

  /** The 32 bytes of the generator seed: byte i is the low byte of the seed rotated left by 8·i bits. */
  function RngSeed(seed: bv32): (r: seq<bv8>)
    ensures |r| == 32
  {
    seq(32, i requires 0 <= i < 32 => LowByte(Rotated(seed, i)))
  }

  /**
   * `MapGen::seed_to_rng_seed`: a copy of the seed is rotated by one byte
   * after each of the 32 byte writes.
   */
  method SeedToRngSeed(seed: bv32) returns (bytes: seq<bv8>)
    ensures bytes == RngSeed(seed)
  {
    var seedCopy := seed;
    var buf := new bv8[32](_ => 0);
    for i := 0 to 32
      invariant seedCopy == Rotated(seed, i)
      invariant forall k :: 0 <= k < i ==> buf[k] == LowByte(Rotated(seed, k))
    {
      buf[i] := LowByte(seedCopy);
      seedCopy := Rotate8(seedCopy);
    }
    bytes := buf[..];
  }

  /** Four rotations by a byte bring a word back. */
  lemma RotateFour(w: bv32)
    ensures Rotate8(Rotate8(Rotate8(Rotate8(w)))) == w
  {
  }

  lemma {:induction false} RotatedPeriod(seed: bv32, i: nat)
    ensures Rotated(seed, i + 4) == Rotated(seed, i)
    decreases i
  {
    if i == 0 {
      assert Rotated(seed, 4) == Rotate8(Rotate8(Rotate8(Rotate8(seed)))) by {
        assert Rotated(seed, 1) == Rotate8(seed);
        assert Rotated(seed, 2) == Rotate8(Rotated(seed, 1));
        assert Rotated(seed, 3) == Rotate8(Rotated(seed, 2));
      }
      RotateFour(seed);
    } else {
      RotatedPeriod(seed, i - 1);
    }
  }

  /** The seed bytes repeat with period 4. */
  lemma RngSeedPeriod(seed: bv32, i: nat)
    requires i < 28
    ensures RngSeed(seed)[i] == RngSeed(seed)[i + 4]
  {
    RotatedPeriod(seed, i);
  }

  /** Bytes 0 to 3 are bits 0-7, 24-31, 16-23 and 8-15 of the seed. */
  lemma RngSeedFirstBytes(seed: bv32)
    ensures RngSeed(seed)[0] as bv32 == seed & 0xFF
    ensures RngSeed(seed)[1] as bv32 == (seed >> 24) & 0xFF
    ensures RngSeed(seed)[2] as bv32 == (seed >> 16) & 0xFF
    ensures RngSeed(seed)[3] as bv32 == (seed >> 8) & 0xFF
  {
    var r := RngSeed(seed);
    assert Rotated(seed, 1) == Rotate8(seed);
    assert Rotated(seed, 2) == Rotate8(Rotate8(seed));
    assert Rotated(seed, 3) == Rotate8(Rotate8(Rotate8(seed)));
    assert r[1] == LowByte(Rotate8(seed));
    assert r[2] == LowByte(Rotate8(Rotate8(seed)));
    assert r[3] == LowByte(Rotate8(Rotate8(Rotate8(seed))));
    RotatedBytes(seed);
  }

  lemma RotatedBytes(w: bv32)
    ensures Rotate8(w) & 0xFF == (w >> 24) & 0xFF
    ensures Rotate8(Rotate8(w)) & 0xFF == (w >> 16) & 0xFF
    ensures Rotate8(Rotate8(Rotate8(w))) & 0xFF == (w >> 8) & 0xFF
  {
  }

  /** Distinct seeds give distinct generator seeds. */
  lemma RngSeedInjective(a: bv32, b: bv32)
    requires RngSeed(a) == RngSeed(b)
    ensures a == b
  {
    RngSeedFirstBytes(a);
    RngSeedFirstBytes(b);
    assert a & 0xFF == b & 0xFF;
    assert (a >> 8) & 0xFF == (b >> 8) & 0xFF;
    assert (a >> 16) & 0xFF == (b >> 16) & 0xFF;
    assert (a >> 24) & 0xFF == (b >> 24) & 0xFF;
    Bytes(a);
    Bytes(b);
  }

  /** A word is the combination of its four bytes. */
  lemma Bytes(w: bv32)
    ensures w == (w & 0xFF) | (((w >> 8) & 0xFF) << 8) | (((w >> 16) & 0xFF) << 16) | (((w >> 24) & 0xFF) << 24)
  {
  }
}
