/** Sets of small numbers as the bits of a `uint64`. */
module Bitset {

  function Bit(pos: nat): bv64
    requires pos < 64
  {
    BitAt(Position(pos))
  }

  function Position(pos: nat): bv6
    requires pos < 64
  {
    pos as bv6
  }

  function BitAt(pos: bv6): bv64 {
    (1 as bv64) << pos
  }

  function SetBit(bits: bv64, pos: nat): bv64
    requires pos < 64
  {
    Or(bits, Bit(pos))
  }

  predicate HasBit(bits: bv64, pos: nat)
    requires pos < 64
  {
    Meets(bits, Bit(pos))
  }

  predicate Meets(bits: bv64, mask: bv64) {
    Part(bits, mask) != 0
  }

  function Or(a: bv64, b: bv64): bv64 {
    a | b
  }

  /** The bits under a mask. */
  function Part(bits: bv64, mask: bv64): bv64 {
    bits & mask
  }

  /** The numbers whose bits are set. */
  function Members(bits: bv64): set<int> {
    set v: int | 0 <= v < 64 && HasBit(bits, v)
  }

  // ------------------------------------------------- positions as bit-vectors

  function NthPosition(n: nat): (b: bv6)
    requires n < 64
    ensures b as nat == n
  {
    if n == 0 then 0
    else
      var b := NthPosition(n - 1);
      NextPosition(b);
      b + 1
  }

  lemma NextPosition(b: bv6)
    requires b != 63
    ensures (b + 1) as nat == b as nat + 1
  {
  }

  lemma NatOfPosition(b: bv6)
    ensures (b as nat) as bv6 == b
  {
  }

  lemma PositionOfNat(n: nat)
    requires n < 64
    ensures Position(n) as nat == n
  {
    NatOfPosition(NthPosition(n));
  }

  // ----------------------------------------------------------------- one bit

  lemma ShiftsDiffer(p: bv6, q: bv6)
    ensures BitAt(p) & BitAt(q) == if p == q then BitAt(p) else 0
    ensures BitAt(p) != 0
  {
  }

  lemma BitsDiffer(p: nat, q: nat)
    requires p < 64 && q < 64
    ensures Bit(p) & Bit(q) == if p == q then Bit(p) else 0
    ensures Bit(p) != 0
  {
    hide BitAt;
    PositionOfNat(p);
    PositionOfNat(q);
    ShiftsDiffer(Position(p), Position(q));
  }

  lemma BitAlone(p: nat, q: nat)
    requires p < 64 && q < 64
    ensures HasBit(Bit(p), q) <==> p == q
  {
    BitsDiffer(p, q);
  }

  lemma OneShift(bits: bv64, p: bv6)
    ensures Part(bits, BitAt(p)) == if Meets(bits, BitAt(p)) then BitAt(p) else 0
  {
  }

  /** A bit test against one position sees either that whole bit or nothing. */
  lemma OneBit(bits: bv64, pos: nat)
    requires pos < 64
    ensures Part(bits, Bit(pos)) == if HasBit(bits, pos) then Bit(pos) else 0
  {
    hide BitAt, Meets, Part, Position;
    OneShift(bits, Position(pos));
  }

  lemma AndOverOr(a: bv64, b: bv64, m: bv64)
    ensures (a | b) & m == (a & m) | (b & m)
  {
  }

  lemma AndCommutes(a: bv64, m: bv64)
    ensures Part(a, m) == Part(m, a)
  {
  }

  lemma OrOfParts(a: bv64, b: bv64, m: bv64)
    ensures Part(Or(a, b), m) == Or(Part(a, m), Part(b, m))
  {
    var x, y, z, w := a | b, a & m, b & m, (a | b) & m;
    AndOverOr(a, b, m);
    assert w == y | z;
    assert Part(x, m) == w && Or(y, z) == w;
  }

  lemma Distribute(a: bv64, b: bv64, m: bv64)
    ensures Part(Or(a, b), m) == Or(Part(a, m), Part(b, m))
    ensures Part(m, Or(a, b)) == Or(Part(m, a), Part(m, b))
  {
    hide Or, Part;
    OrOfParts(a, b, m);
    AndCommutes(Or(a, b), m);
    AndCommutes(a, m);
    AndCommutes(b, m);
  }

  lemma NoPart(a: bv64)
    ensures Part(a, 0) == 0
  {
  }

  lemma OrIsZero(a: bv64, b: bv64)
    ensures Or(a, b) == 0 <==> a == 0 && b == 0
  {
  }

  lemma OrMeets(a: bv64, b: bv64, m: bv64)
    ensures Meets(Or(a, b), m) <==> Meets(a, m) || Meets(b, m)
  {
    hide Or, Part;
    Distribute(a, b, m);
    OrIsZero(Part(a, m), Part(b, m));
  }

  lemma HasBitOfOr(a: bv64, b: bv64, pos: nat)
    requires pos < 64
    ensures HasBit(Or(a, b), pos) <==> HasBit(a, pos) || HasBit(b, pos)
  {
    hide Bit, Meets, Or, Part;
    OrMeets(a, b, Bit(pos));
  }

  // ------------------------------------------------------------ sets of bits

  lemma NoMembers()
    ensures Members(0) == {}
  {
  }

  lemma MembersOfOr(a: bv64, b: bv64)
    ensures Members(Or(a, b)) == Members(a) + Members(b)
  {
    hide HasBit, Or;
    forall v: int | 0 <= v < 64
      ensures HasBit(Or(a, b), v) <==> HasBit(a, v) || HasBit(b, v)
    {
      HasBitOfOr(a, b, v);
    }
  }

  /** Setting a bit adds exactly that number to the set. */
  lemma MembersOfSetBit(bits: bv64, pos: nat)
    requires pos < 64
    ensures Members(SetBit(bits, pos)) == Members(bits) + {pos}
  {
    hide Bit, HasBit, Meets, Or, Part, Position;
    forall v: int | 0 <= v < 64
      ensures HasBit(SetBit(bits, pos), v) <==> v == pos || HasBit(bits, v)
    {
      HasBitOfOr(bits, Bit(pos), v);
      BitAlone(pos, v);
    }
  }

  /** The lowest `n` bits. */
  function Low(n: nat): bv64
    requires n <= 64
  {
    if n == 0 then 0 else Or(Low(n - 1), Bit(n - 1))
  }

  lemma {:induction false} SameLowBits(a: bv64, b: bv64, n: nat)
    requires n <= 64 && Members(a) == Members(b)
    ensures Part(a, Low(n)) == Part(b, Low(n))
  {
    hide Bit, Or, Part;
    if n == 0 {
      NoPart(a);
      NoPart(b);
    } else {
      SameLowBits(a, b, n - 1);
      SameBit(a, b, n - 1);
      Distribute(Low(n - 1), Bit(n - 1), a);
      Distribute(Low(n - 1), Bit(n - 1), b);
    }
  }

  lemma SameBit(a: bv64, b: bv64, pos: nat)
    requires pos < 64 && Members(a) == Members(b)
    ensures Part(a, Bit(pos)) == Part(b, Bit(pos))
  {
    hide Bit, HasBit, Part;
    OneBit(a, pos);
    OneBit(b, pos);
    var v: int := pos;
    assert v in Members(a) <==> v in Members(b);
  }

  /** All bits below a position. */
  function MaskBelow(p: bv6): bv64 {
    BitAt(p) - 1
  }

  function Following(p: bv6): bv6 {
    p + 1
  }

  lemma LowStep(n: nat, p: bv6)
    requires n < 64 && p as nat == n && p != 63
    requires Low(n) == MaskBelow(p)
    ensures Low(n + 1) == MaskBelow(Following(p))
  {
    NatOfPosition(p);
  }

  lemma PositionStep(n: nat)
    requires 0 < n < 64
    ensures NthPosition(n - 1) != 63 && NthPosition(n) == Following(NthPosition(n - 1))
  {
  }

  lemma MaskOfNothing()
    ensures Low(0) == MaskBelow(NthPosition(0))
  {
  }

  lemma {:induction false} LowIsMask(n: nat)
    requires n < 64
    ensures Low(n) == MaskBelow(NthPosition(n))
  {
    if n == 0 {
      MaskOfNothing();
    } else {
      PositionStep(n);
      hide MaskBelow, Following, Low, NthPosition;
      LowIsMask(n - 1);
      LowStep(n - 1, NthPosition(n - 1));
    }
  }

  lemma LowIsAll()
    ensures Low(64) == 0xFFFF_FFFF_FFFF_FFFF
  {
    LowIsMask(63);
    PositionOfNat(63);
    NatOfPosition(63);
    assert NthPosition(63) == 63;
  }

  /** A bitset is determined by its members. */
  lemma MembersDetermineBits(a: bv64, b: bv64)
    requires Members(a) == Members(b)
    ensures a == b
  {
    SameLowBits(a, b, 64);
    LowIsAll();
  }
}
