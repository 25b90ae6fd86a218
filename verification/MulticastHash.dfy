/** The multicast hash of the Ethernet drivers: the bit loop of the DM9003 driver
    (staging/edrv/Edrv9003.c), the reflected loop of the FEC driver (staging/edrv/EdrvFec.c) and the
    hash filter registers of the DM9003. */
module MulticastHash {
  import opened Gf2
  import opened CrcRegister

  type UInt8 = n: nat | n < 0x100
  type UInt32 = n: nat | n < 0x1_0000_0000

  const CRC32_POLY: UInt32 := 0x04C1_1DB7
  const CRC32_POLY_REFLECTED: UInt32 := 0xEDB8_8320
  const CRC32_PRESET: UInt32 := 0xFFFF_FFFF

  const ETH_ALEN := 6

  /** The bits of a byte in the order the loops consume them, least significant first. */
  function ByteBits(b: nat, n: nat): seq<Bit> {
    if n == 0 then [] else [b % 2] + ByteBits(b / 2, n - 1)
  }

  function Bits(data: seq<UInt8>): seq<Bit> {
    if data == [] then [] else Bits(data[..|data| - 1]) + ByteBits(data[|data| - 1], 8)
  }

  lemma {:induction false} ByteBitAt(b: nat, n: nat, j: nat)
    requires j < n
    ensures |ByteBits(b, n)| == n && ByteBits(b, n)[j] == b / Pow2(j) % 2
    decreases n
  {
    ByteBitsLength(b / 2, n - 1);
    if j > 0 {
      ByteBitAt(b / 2, n - 1, j - 1);
      DivTwice(b, Pow2(j - 1));
    }
  }

  lemma {:induction false} ByteBitsLength(b: nat, n: nat)
    ensures |ByteBits(b, n)| == n
  {
    if n > 0 {
      ByteBitsLength(b / 2, n - 1);
    }
  }

  /** Bit j of byte i is fed as number 8 * i + j: the first byte first, its least significant bit first. */
  lemma {:induction false} BitAt(data: seq<UInt8>, i: nat, j: nat)
    requires i < |data| && j < 8
    ensures |Bits(data)| == 8 * |data| && Bits(data)[8 * i + j] == data[i] / Pow2(j) % 2
    decreases |data|
  {
    var front, last := data[..|data| - 1], data[|data| - 1];
    BitsLength(front);
    ByteBitsLength(last, 8);
    if i < |front| {
      BitAt(front, i, j);
    } else {
      ByteBitAt(last, 8, j);
    }
  }

  lemma {:induction false} BitsLength(data: seq<UInt8>)
    ensures |Bits(data)| == 8 * |data|
    decreases |data|
  {
    if data != [] {
      BitsLength(data[..|data| - 1]);
      ByteBitsLength(data[|data| - 1], 8);
    }
  }

  /** The check sequence of section 3.2.9 of IEEE 802.3, before its complement. */
  function Crc32(bits: seq<Bit>): Poly {
    Crc(32, CRC32_POLY, CRC32_PRESET, bits)
  }

  /** The register the FEC driver computes. */
  function ReflectedCrc32(bits: seq<Bit>): Poly {
    ReflectedCrc(CRC32_POLY_REFLECTED, CRC32_PRESET, bits)
  }

  lemma PowersOf32()
    ensures Pow2(6) == 64 && Pow2(8) == 0x100 && Pow2(26) == 0x400_0000
    ensures Pow2(31) == 0x8000_0000 && Pow2(32) == 0x1_0000_0000
  {
    PowSum(3, 3);
    PowSum(2, 6);
    PowSum(8, 8);
    PowSum(8, 16);
    PowSum(2, 24);
    PowSum(5, 26);
    assert Pow2(3) == 8 && Pow2(2) == 4 && Pow2(5) == 32;
    assert Pow2(32) == 2 * Pow2(31);
  }

  /** Main result: for every bit string M of n bits, the register is the one remainder of
      0xFFFFFFFF * x^n + M * x^32 by x^32 + x^26 + x^23 + ... + x + 1. */
  lemma Crc32IsTheRemainder(bits: seq<Bit>, r: Poly)
    ensures IsRemainder(r, Dividend(32, 0xFFFF_FFFF, bits), 0x1_04C1_1DB7, 32) <==> r == Crc32(bits)
  {
    PowersOf32();
    CrcIsTheRemainder(32, CRC32_POLY, CRC32_PRESET, bits, r);
  }

  /** The polynomial of the FEC driver is the other one reversed.  The width w can only be 32; it is a
      variable, and bounded rather than set, because the verifier would unroll the reversal of a number
      of 32 digits all at once if it saw the literal. */
  lemma ReflectedPoly(w: nat)
    requires 31 < w < 33
    ensures Reverse(w, CRC32_POLY) == CRC32_POLY_REFLECTED
  {
    ReverseNibble(w - 4, 0, 1, 1, 1, 0x04C1_1DB, 0x0);
    ReverseNibble(w - 8, 1, 0, 1, 1, 0x04C1_1D, 0xE);
    ReverseNibble(w - 12, 1, 1, 0, 1, 0x04C1_1, 0xED);
    ReverseNibble(w - 16, 0, 0, 0, 1, 0x04C1, 0xEDB);
    ReverseNibble(w - 20, 0, 0, 0, 1, 0x04C, 0xEDB8);
    ReverseNibble(w - 24, 1, 1, 0, 0, 0x04, 0xE_DB88);
    ReverseNibble(w - 28, 0, 1, 0, 0, 0x0, 0xED_B883);
    ReverseNibble(w - 32, 0, 0, 0, 0, 0x0, 0xEDB_8832);
    ReverseFromDigits(w, CRC32_POLY);
  }

  /** Main result: after every bit the registers of the two drivers are each other's reversal. */
  lemma Crc32FormsAgree(bits: seq<Bit>)
    ensures Reverse(32, Crc32(bits)) == ReflectedCrc32(bits)
    ensures Reverse(32, ReflectedCrc32(bits)) == Crc32(bits)
  {
    PowersOf32();
    ReflectedPoly(32);
    ReverseOnes(32);
    FormsAgree(32, CRC32_POLY, CRC32_PRESET, bits);
  }

  // ----- the loops

  lemma {:induction false} OrOne(a: nat)
    ensures a % 2 == 1 ==> Or(a, 1) == a
  {
    OrZero(a / 2);
  }

  function Or(a: nat, b: nat): nat
    decreases a + b
  {
    if a == 0 && b == 0 then 0
    else 2 * Or(a / 2, b / 2) + (if a % 2 == 1 || b % 2 == 1 then 1 else 0)
  }

  /** a & ~b */
  function AndNot(a: nat, b: nat): nat {
    if a == 0 then 0
    else 2 * AndNot(a / 2, b / 2) + (if a % 2 == 1 && b % 2 == 0 then 1 else 0)
  }

  lemma {:induction false} OrZero(a: nat)
    ensures Or(a, 0) == a
  {
    if a > 0 {
      OrZero(a / 2);
    }
  }

  lemma AddWords(a: UInt32, b: UInt32)
    ensures Add(a, b) < 0x1_0000_0000
  {
    PowersOf32();
    AddBelow(32, a, b);
  }

  /** `(a ^ b) & 1` */
  lemma LowBitOfSum(a: nat, b: nat)
    ensures Add(a, b) % 2 == if a % 2 == b % 2 then 0 else 1
  {
  }

  /** The carry is set exactly if the top bit differs from the data bit, and a sum with an odd
      polynomial already has it. */
  lemma CarryBit(top: Bit, shifted: nat, poly: nat, data: nat)
    requires shifted % 2 == 0 && poly % 2 == 1
    ensures var carry := Add(top, data) % 2;
            && carry == (if top == data % 2 then 0 else 1)
            && (carry != 0 ==> Or(Add(shifted, poly), carry) == Add(shifted, poly))
  {
    LowBitOfSum(top, data);
    LowBitOfSum(shifted, poly);
    OrOne(Add(shifted, poly));
  }

  /** The statements of the DM9003 loop body make one register step; `| dwCarry` adds nothing. */
  lemma LoopBodyIsStep(crc: UInt32, data: nat)
    ensures var carry := Add(crc / 0x8000_0000, data) % 2;
            var shifted := 2 * crc % 0x1_0000_0000;
            Step(32, CRC32_POLY, crc, data % 2)
              == if carry != 0 then Or(Add(shifted, CRC32_POLY), carry) else shifted
    ensures Step(32, CRC32_POLY, crc, data % 2) < 0x1_0000_0000
  {
    PowersOf32();
    CarryBit(crc / 0x8000_0000, 2 * crc % 0x1_0000_0000, CRC32_POLY, data);
    StepBelow(32, CRC32_POLY, crc, data % 2);
  }

  /** One bit of a byte moves from what is left to what has been fed. */
  lemma NextBit(done: seq<Bit>, data: nat, n: nat)
    ensures done + ByteBits(data, n + 1) == (done + [data % 2]) + ByteBits(data / 2, n)
  {
    assert ByteBits(data, n + 1) == [data % 2] + ByteBits(data / 2, n);
  }

  /** What the DM9003 loop body leaves in the register. */
  lemma FeedBit(crc: UInt32, data: nat, done: seq<Bit>)
    requires crc == Crc32(done)
    ensures var carry := Add(crc / 0x8000_0000, data) % 2;
            var shifted := 2 * crc % 0x1_0000_0000;
            Crc32(done + [data % 2]) == (if carry != 0 then Or(Add(shifted, CRC32_POLY), carry) else shifted)
              < 0x1_0000_0000
  {
    CrcSnoc(32, CRC32_POLY, CRC32_PRESET, done, data % 2);
    LoopBodyIsStep(crc, data);
  }

  method FeedByte(crc: UInt32, data: UInt8, ghost fed: seq<Bit>) returns (dwCrc: UInt32)
    requires crc == Crc32(fed)
    ensures dwCrc == Crc32(fed + ByteBits(data, 8))
  {
    dwCrc := crc;
    var dwData: nat := data;
    ghost var done: seq<Bit> := fed;
    for dwBitCounter := 0 to 8
      invariant dwCrc == Crc32(done)
      invariant done + ByteBits(dwData, 8 - dwBitCounter) == fed + ByteBits(data, 8)
    {
      NextBit(done, dwData, 7 - dwBitCounter);
      FeedBit(dwCrc, dwData, done);
      done := done + [dwData % 2];
      var dwCarry := Add(dwCrc / 0x8000_0000, dwData) % 2;
      var shifted := 2 * dwCrc % 0x1_0000_0000;
      dwCrc := if dwCarry != 0 then Or(Add(shifted, CRC32_POLY), dwCarry) else shifted;
      dwData := dwData / 2;
    }
    assert done + ByteBits(dwData, 0) == done;
  }

  /** The hash of the DM9003: the six low bits of the remainder for the six bytes of the address. */
  method EdrvCalcHash(pbMAC: seq<UInt8>) returns (bHash: UInt8)
    requires |pbMAC| == ETH_ALEN
    ensures bHash == Hash9003(pbMAC)
  {
    var dwCrc: UInt32 := 0xFFFF_FFFF;
    for dwByteCounter := 0 to 6
      invariant dwCrc == Crc32(Bits(pbMAC[..dwByteCounter]))
    {
      assert pbMAC[..dwByteCounter + 1][..dwByteCounter] == pbMAC[..dwByteCounter];
      dwCrc := FeedByte(dwCrc, pbMAC[dwByteCounter], Bits(pbMAC[..dwByteCounter]));
    }
    assert pbMAC[..6] == pbMAC;
    bHash := dwCrc % 64;
  }

  function Hash9003(addr: seq<UInt8>): (h: nat)
    ensures h < 64
  {
    Crc32(Bits(addr)) % 64
  }

  /** Main result for whole addresses: take the bits of the address, first byte first and lowest bit first, as
      a polynomial; of the remainder of 0xFFFFFFFF * x^n + M * x^32 the hash is the six low bits. */
  lemma HashIsOfRemainder(addr: seq<UInt8>, bits: seq<Bit>, r: Poly)
    requires |bits| == 8 * |addr|
    requires forall n :: 0 <= n < |bits| ==> bits[n] == addr[n / 8] / Pow2(n % 8) % 2
    ensures IsRemainder(r, Dividend(32, 0xFFFF_FFFF, bits), 0x1_04C1_1DB7, 32) ==> Hash9003(addr) == r % 64
  {
    BitsLength(addr);
    forall n | 0 <= n < |bits|
      ensures bits[n] == Bits(addr)[n]
    {
      BitAt(addr, n / 8, n % 8);
    }
    assert bits == Bits(addr);
    Crc32IsTheRemainder(bits, r);
  }

  /** What the FEC loop body leaves in the register. */
  lemma FeedBitReflected(crc: UInt32, data: nat, done: seq<Bit>)
    requires crc == ReflectedCrc32(done)
    ensures ReflectedCrc32(done + [data % 2])
         == Add(crc / 2, if Add(crc, data) % 2 == 1 then CRC32_POLY_REFLECTED else 0)
         < 0x1_0000_0000
  {
    ReflectedCrcSnoc(CRC32_POLY_REFLECTED, CRC32_PRESET, done, data % 2);
    LowBitOfSum(crc, data);
    AddWords(crc / 2, CRC32_POLY_REFLECTED);
    AddZero(crc / 2);
  }

  method FeedByteReflected(crc: UInt32, byte: UInt8, ghost fed: seq<Bit>) returns (r: UInt32)
    requires crc == ReflectedCrc32(fed)
    ensures r == ReflectedCrc32(fed + ByteBits(byte, 8))
  {
    r := crc;
    var data: nat := byte;
    ghost var done: seq<Bit> := fed;
    for bit := 0 to 8
      invariant r == ReflectedCrc32(done)
      invariant done + ByteBits(data, 8 - bit) == fed + ByteBits(byte, 8)
    {
      NextBit(done, data, 7 - bit);
      FeedBitReflected(r, data, done);
      done := done + [data % 2];
      r := Add(r / 2, if Add(r, data) % 2 == 1 then CRC32_POLY_REFLECTED else 0);
      data := data / 2;
    }
    assert done + ByteBits(data, 0) == done;
  }

  /** The register over the whole address. */
  method FecRegister(addr: seq<UInt8>) returns (crc: UInt32)
    ensures crc == ReflectedCrc32(Bits(addr))
  {
    crc := 0xFFFF_FFFF;
    for i := 0 to |addr|
      invariant crc == ReflectedCrc32(Bits(addr[..i]))
    {
      assert addr[..i + 1][..i] == addr[..i];
      crc := FeedByteReflected(crc, addr[i], Bits(addr[..i]));
    }
    assert addr[..|addr|] == addr;
  }

  /** The hash of the FEC driver: the six high bits of the reflected register.  It is the DM9003 hash
      with its six bits in reverse order, for addresses of any length. */
  method FecHash(addr: seq<UInt8>) returns (hash: nat)
    ensures hash == Reverse(6, Hash9003(addr))
  {
    var crc := FecRegister(addr);
    HashesAgree(addr, crc);
    hash := SixBits(crc / 0x400_0000);
  }

  /** Bit i of the one hash is bit 5 - i of the other. */
  lemma HashBits(addr: seq<UInt8>, hash: nat, i: nat)
    requires hash == Reverse(6, Hash9003(addr)) && i < 6
    ensures hash < 64 && hash / Pow2(i) % 2 == Hash9003(addr) / Pow2(5 - i) % 2
  {
    PowersOf32();
    ReverseBelow(6, Hash9003(addr));
    ReverseBit(6, Hash9003(addr), i);
    ShiftsAreDivisions(hash, i);
    ShiftsAreDivisions(Hash9003(addr), 5 - i);
  }

  /** `& 0x3f` */
  function SixBits(n: nat): (r: nat)
    ensures n < 64 ==> r == n
  {
    n % 64
  }

  /** The k top bits of a reversed register are the reversal of its k low bits. */
  lemma TopBits(w: nat, k: nat, c: Poly, top: nat)
    requires k <= w && top == Reverse(w, c) / Pow2(w - k)
    ensures top == Reverse(k, c % Pow2(k)) < Pow2(k)
  {
    ReverseHigh(w, k, c);
    ShiftsAreDivisions(Reverse(w, c), w - k);
    ShiftsAreDivisions(c, k);
    ReverseBelow(k, c % Pow2(k));
  }

  lemma HashesAgree(addr: seq<UInt8>, crc: nat)
    requires crc == ReflectedCrc32(Bits(addr))
    ensures crc / 0x400_0000 == Reverse(6, Hash9003(addr)) < 64
  {
    PowersOf32();
    Crc32FormsAgree(Bits(addr));
    TopBits(32, 6, Crc32(Bits(addr)), crc / 0x400_0000);
  }

  // ----- the hash filter registers

  predicate IsSet(reg: nat, k: nat) {
    Shr(reg, k) % 2 == 1
  }

  lemma {:induction false} OrBit(reg: nat, k: nat, j: nat)
    ensures IsSet(Or(reg, Shl(1, k)), j) <==> j == k || IsSet(reg, j)
  {
    if k == 0 {
      OrZero(reg / 2);
    } else if j > 0 {
      OrBit(reg / 2, k - 1, j - 1);
    }
  }

  lemma {:induction false} AndNotZero(reg: nat)
    ensures AndNot(reg, 0) == reg
  {
    if reg > 0 {
      AndNotZero(reg / 2);
    }
  }

  lemma {:induction false} ZeroHasNoBits(j: nat)
    ensures !IsSet(0, j)
  {
    if j > 0 {
      ZeroHasNoBits(j - 1);
    }
  }

  lemma {:induction false} AndNotBit(reg: nat, k: nat, j: nat)
    ensures IsSet(AndNot(reg, Shl(1, k)), j) <==> j != k && IsSet(reg, j)
    decreases k
  {
    if reg == 0 {
      ZeroHasNoBits(j);
    } else if k == 0 {
      AndNotZero(reg / 2);
    } else if j > 0 {
      AndNotBit(reg / 2, k - 1, j - 1);
    }
  }

  /** The register with bit k set, as a number. */
  function WithBit(reg: nat, k: nat): nat {
    if reg / Pow2(k) % 2 == 1 then reg else reg + Pow2(k)
  }

  /** The register with bit k reset. */
  function WithoutBit(reg: nat, k: nat): int {
    if reg / Pow2(k) % 2 == 1 then reg - Pow2(k) else reg
  }

  lemma HalfOfBits(reg: nat, k: nat)
    requires k > 0
    ensures reg / Pow2(k) == reg / 2 / Pow2(k - 1)
    ensures WithBit(reg, k) == 2 * WithBit(reg / 2, k - 1) + reg % 2
    ensures WithoutBit(reg, k) == 2 * WithoutBit(reg / 2, k - 1) + reg % 2
  {
    DivTwice(reg, Pow2(k - 1));
  }

  /** Setting a bit adds its value unless it is set. */
  lemma {:induction false} OrAdds(reg: nat, k: nat)
    ensures Or(reg, Shl(1, k)) == WithBit(reg, k)
    decreases k
  {
    if k == 0 {
      OrZero(reg / 2);
    } else {
      OrAdds(reg / 2, k - 1);
      HalfOfBits(reg, k);
      assert Shl(1, k) / 2 == Shl(1, k - 1) && Shl(1, k) % 2 == 0;
    }
  }

  /** Resetting it takes its value away if it is set. */
  lemma {:induction false} AndNotSubtracts(reg: nat, k: nat)
    ensures AndNot(reg, Shl(1, k)) == WithoutBit(reg, k)
    decreases k
  {
    if reg == 0 {
      ShiftsAreDivisions(0, k);
      ShrZero(k);
    } else if k == 0 {
      AndNotZero(reg / 2);
    } else {
      AndNotSubtracts(reg / 2, k - 1);
      HalfOfBits(reg, k);
      assert Shl(1, k) / 2 == Shl(1, k - 1) && Shl(1, k) % 2 == 0;
    }
  }

  /** All that happens to a filter register when a bit is set. */
  lemma BitIsSet(reg: UInt8, k: nat)
    requires k < 8
    ensures Or(reg, Shl(1, k)) == WithBit(reg, k) < 0x100
    ensures forall j :: 0 <= j < 8 ==> (IsSet(WithBit(reg, k), j) <==> j == k || IsSet(reg, j))
  {
    ShiftBelow(k);
    OrBelow(8, reg, Shl(1, k));
    OrAdds(reg, k);
    forall j | 0 <= j < 8
      ensures IsSet(WithBit(reg, k), j) <==> j == k || IsSet(reg, j)
    {
      OrBit(reg, k, j);
    }
  }

  /** And when it is reset. */
  lemma BitIsReset(reg: UInt8, k: nat)
    requires k < 8
    ensures 0 <= AndNot(reg, Shl(1, k)) == WithoutBit(reg, k) < 0x100
    ensures forall j :: 0 <= j < 8 ==> (IsSet(WithoutBit(reg, k), j) <==> j != k && IsSet(reg, j))
  {
    AndNotAtMost(reg, Shl(1, k));
    AndNotSubtracts(reg, k);
    forall j | 0 <= j < 8
      ensures IsSet(WithoutBit(reg, k), j) <==> j != k && IsSet(reg, j)
    {
      AndNotBit(reg, k, j);
    }
  }

  lemma {:induction false} ShrZero(k: nat)
    ensures Shr(0, k) == 0
  {
    if k > 0 {
      ShrZero(k - 1);
    }
  }

  lemma {:induction false} OrBelow(n: nat, a: nat, b: nat)
    requires a < Pow2(n) && b < Pow2(n)
    ensures Or(a, b) < Pow2(n)
  {
    if n > 0 {
      OrBelow(n - 1, a / 2, b / 2);
    }
  }

  lemma {:induction false} AndNotAtMost(a: nat, b: nat)
    ensures AndNot(a, b) <= a
  {
    if a > 0 {
      AndNotAtMost(a / 2, b / 2);
    }
  }

  /** The eight multicast address registers, MAR + 0 to MAR + 7. */
  class MulticastFilter {
    var mar: seq<UInt8>

    ghost predicate Valid()
      reads this
    {
      |mar| == 8
    }

    /** Frames whose address hashes to h pass. */
    ghost predicate Passes(h: nat)
      reads this
      requires Valid() && h < 64
    {
      IsSet(mar[h / 8], h % 8)
    }

    method EdrvDefineRxMacAddrEntry(pbMacAddr: seq<UInt8>)
      requires Valid() && |pbMacAddr| == ETH_ALEN
      modifies this
      ensures Valid()
      ensures forall h :: 0 <= h < 64 ==> (Passes(h) <==> h == Hash9003(pbMacAddr) || old(Passes(h)))
      ensures var h := Hash9003(pbMacAddr);
              |mar| == 8 && forall i :: 0 <= i < 8 ==>
                mar[i] == if i == h / 8 then WithBit(old(mar[i]), h % 8) else old(mar[i])
    {
      var bHash := EdrvCalcHash(pbMacAddr);
      var bOffset := bHash / 8;
      var bData := mar[bOffset];
      BitIsSet(bData, bHash % 8);
      mar := mar[bOffset := Or(bData, Shl(1, bHash % 8))];
    }

    method EdrvUndefineRxMacAddrEntry(pbMacAddr: seq<UInt8>)
      requires Valid() && |pbMacAddr| == ETH_ALEN
      modifies this
      ensures Valid()
      ensures forall h :: 0 <= h < 64 ==> (Passes(h) <==> h != Hash9003(pbMacAddr) && old(Passes(h)))
      ensures var h := Hash9003(pbMacAddr);
              |mar| == 8 && forall i :: 0 <= i < 8 ==>
                mar[i] == if i == h / 8 then WithoutBit(old(mar[i]), h % 8) else old(mar[i])
    {
      var bHash := EdrvCalcHash(pbMacAddr);
      var bOffset := bHash / 8;
      var bData := mar[bOffset];
      BitIsReset(bData, bHash % 8);
      mar := mar[bOffset := AndNot(bData, Shl(1, bHash % 8))];
    }

    /** Any history of entries set and reset: an address passes afterwards exactly if the last entry
        with its hash was set, or there was none and it passed before.  So resetting one address also
        stops every other address that shares its hash. */
    method Replay(entries: seq<(bool, seq<UInt8>)>)
      requires Valid() && forall i :: 0 <= i < |entries| ==> |entries[i].1| == ETH_ALEN
      modifies this
      ensures Valid()
      ensures forall h :: 0 <= h < 64 ==> (Passes(h) <==> LastWord(entries, h, old(Passes(h))))
    {
      for i := 0 to |entries|
        invariant Valid()
        invariant forall h :: 0 <= h < 64 ==> (Passes(h) <==> LastWord(entries[..i], h, old(Passes(h))))
      {
        assert entries[..i + 1][..i] == entries[..i];
        if entries[i].0 {
          EdrvDefineRxMacAddrEntry(entries[i].1);
        } else {
          EdrvUndefineRxMacAddrEntry(entries[i].1);
        }
      }
      assert entries[..|entries|] == entries;
    }
  }

  lemma ShiftBelow(k: nat)
    requires k < 8
    ensures Shl(1, k) < Pow2(8) == 256
  {
  }

  /** It is that of the last entry with this hash, and the initial value if there is none. */
  lemma {:induction false} LastWordIsOfLast(entries: seq<(bool, seq<UInt8>)>, h: nat, initially: bool, n: nat)
    requires n <= |entries| && forall i :: n <= i < |entries| ==> Hash9003(entries[i].1) != h
    ensures n == 0 ==> LastWord(entries, h, initially) == initially
    ensures n > 0 && Hash9003(entries[n - 1].1) == h ==> LastWord(entries, h, initially) == entries[n - 1].0
    decreases |entries|
  {
    if n < |entries| {
      LastWordIsOfLast(entries[..|entries| - 1], h, initially, n);
    }
  }

  /** What the last entry with hash h says, looking back from the end. */
  function LastWord(entries: seq<(bool, seq<UInt8>)>, h: nat, initially: bool): bool {
    if entries == [] then initially
    else
      var last := entries[|entries| - 1];
      if Hash9003(last.1) == h then last.0 else LastWord(entries[..|entries| - 1], h, initially)
  }
}
