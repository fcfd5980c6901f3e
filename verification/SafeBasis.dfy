/**
 Block composition of the carry in the safe basis: blocks are rounded on their own, the
 residuals are combined by crossings, and the parity crossing is transported into the
 residue modulo eleven.
 */
module SafeBasis {
  import opened Arith

  datatype Frame = Frame(g: int, k: int, parity: int, phase: int)

  /** One step of both loops: the carry of a block and its transported parity. */
  function Absorb(f: Frame, block: int, q: int): Frame
    requires q > 0
  {
    var kb := Nearest(block, q);
    var gb := block - q * kb;
    var crossing := Nearest(f.g + gb, q);
    var raw := f.parity + block % 2;
    Frame(f.g + gb - q * crossing, f.k + kb + crossing, raw % 2, (f.phase + block / 2 % 11 + raw / 2) % 11)
  }

  /** The frame of one integer: quotient and residual, and its digits in base 2 and then 11. */
  predicate Frames(f: Frame, total: int, q: int)
    requires q > 0
  {
    && f.k == Nearest(total, q) && f.g + q * f.k == total
    && f.parity == total % 2 && f.phase == total / 2 % 11
  }

  /** Absorbing a block turns the frame of a total into the frame of the larger total. */
  lemma AbsorbExact(f: Frame, total: int, block: int, q: int)
    requires q > 0 && Frames(f, total, q)
    ensures Frames(Absorb(f, block, q), total + block, q)
  {
    var kb := Nearest(block, q);
    var s := f.g + (block - q * kb);
    AbsorbCarry(f.g, f.k, total, block, kb, s, Nearest(s, q), q);
    AbsorbParity(f.parity, f.phase, total, block);
  }

  /** The carry half: rounding the block first and the residuals after loses nothing. */
  lemma AbsorbCarry(g: int, k: int, total: int, block: int, kb: int, s: int, crossing: int, q: int)
    requires q > 0 && g + q * k == total && s == g + (block - q * kb) && crossing == Nearest(s, q)
    ensures k + kb + crossing == Nearest(total + block, q)
    ensures s - q * crossing + q * (k + kb + crossing) == total + block
  {
    Distribute(q, k, kb);
    Distribute(q, k + kb, crossing);
    NearestShift(s, k + kb, q);
  }

  /** The parity half: the crossing of the parities is transported into the phase. */
  lemma AbsorbParity(parity: int, phase: int, total: int, block: int)
    requires parity == total % 2 && phase == total / 2 % 11
    ensures (parity + block % 2) % 2 == (total + block) % 2
    ensures (phase + block / 2 % 11 + (parity + block % 2) / 2) % 11 == (total + block) / 2 % 11
  {
    var x, y, carry := total / 2, block / 2, (parity + block % 2) / 2;
    assert (total + block) / 2 == x + y + carry;
    PhaseSum(x, y, carry);
  }

  lemma PhaseSum(x: int, y: int, carry: int)
    ensures (x % 11 + y % 11 + carry) % 11 == (x + y + carry) % 11
  {
    ModCong(x, 11);
    ModCong(y, 11);
    CongAdd(x % 11, x, y % 11, y, 11);
    CongAdd(x % 11 + y % 11, x + y, carry, carry, 11);
    CongMod(x % 11 + y % 11 + carry, x + y + carry, 11);
  }

  /** The loops over the blocks: the result depends on the total alone, however it is split. */
  method ComposeBlocks(blocks: seq<int>, q: int) returns (f: Frame)
    requires q > 0
    ensures Frames(f, Sum(blocks), q)
  {
    DivModUnique(q / 2, q, 0, q / 2);
    f := Frame(0, 0, 0, 0);
    for i := 0 to |blocks|
      invariant Frames(f, Sum(blocks[..i]), q)
    {
      assert blocks[..i + 1][..i] == blocks[..i];
      AbsorbExact(f, Sum(blocks[..i]), blocks[i], q);
      f := Absorb(f, blocks[i], q);
    }
    assert blocks[..|blocks|] == blocks;
  }

  /** Every root and tray sees a total g + q*k through the residues of residual, carry and modulus. */
  lemma LaneIdentity(g: int, k: int, q: int, total: int, p: int)
    requires p > 0 && g + q * k == total
    ensures (g % p + k % p * (q % p)) % p == total % p
  {
    var x, y, z := g % p, k % p, q % p;
    ModCong(g, p);
    ModCong(k, p);
    ModCong(q, p);
    LaneCong(x, g, y, k, z, q, p);
    CongMod(x + y * z, total, p);
  }

  lemma LaneCong(x: int, g: int, y: int, k: int, z: int, q: int, p: int)
    requires p > 0 && Cong(x, g, p) && Cong(y, k, p) && Cong(z, q, p)
    ensures Cong(x + y * z, g + k * q, p)
  {
    CongMul(y, k, z, q, p);
    CongAdd(x, g, y * z, k * q, p);
  }
}
