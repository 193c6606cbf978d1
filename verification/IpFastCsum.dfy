/** The x86 add-with-carry chain of ip_fast_checksum/ip_fast_checksum.c, instruction by
    instruction, on the 32-bit sum register, the carry flag, the pointer and the counter. */
module IpFastCsum {
  import opened Unsigned
  import opened OnesComplement

  const ALL_ONES: int := 0xffff_ffff

  function Digit(carry: bool): nat
  {
    if carry then 1 else 0
  }

  /** `adcl`: the sum with the carry flag added in, and the new carry flag. */
  function Adc32(a: Uint32, b: Uint32, carry: bool): (r: (Uint32, bool))
    ensures a + b + Digit(carry) == r.0 + 0x1_0000_0000 * Digit(r.1)
  {
    var s := a as int + b as int + Digit(carry);
    if s >= 0x1_0000_0000 then (s - 0x1_0000_0000, true) else (s, false)
  }

  /** `addw` on the low halves; the high half of the destination stays. */
  function Add16(dest: Uint32, src: Uint32): (r: (Uint32, bool))
    ensures dest + src % 0x1_0000 == r.0 + 0x1_0000 * Digit(r.1)
  {
    var s := dest % 0x1_0000 + src % 0x1_0000;
    if s >= 0x1_0000 then (dest - dest % 0x1_0000 + (s - 0x1_0000), true)
    else (dest - dest % 0x1_0000 + s, false)
  }

  /** The sum of the first m 32-bit words. */
  function WordSum(mem: seq<Uint8>, m: nat): nat
    requires 4 * m <= |mem|
  {
    if m == 0 then 0 else WordSum(mem, m - 1) + Load32(mem, 4 * (m - 1))
  }

  /** What the chain keeps: register and flag together stand for the total modulo 2^32 - 1, only
      nothing adds up to nothing, and a raised flag never meets a full register. */
  ghost predicate Chain(sum: Uint32, carry: bool, total: nat)
  {
    && (exists k: nat :: total == sum + Digit(carry) + ALL_ONES * k)
    && (sum + Digit(carry) == 0 <==> total == 0)
    && (carry ==> sum < ALL_ONES)
  }

  lemma ChainWitness(sum: Uint32, carry: bool, total: nat, k: nat)
    requires total == sum + Digit(carry) + ALL_ONES * k
    requires sum + Digit(carry) == 0 <==> total == 0
    requires carry ==> sum < ALL_ONES
    ensures Chain(sum, carry, total)
  {}

  /** One `adcl` keeps the chain. */
  lemma ChainStep(sum: Uint32, carry: bool, total: nat, w: Uint32)
    requires Chain(sum, carry, total)
    ensures var r := Adc32(sum, w, carry); Chain(r.0, r.1, total + w)
  {
    var k: nat :| total == sum + Digit(carry) + ALL_ONES * k;
    var r := Adc32(sum, w, carry);
    ChainWitness(r.0, r.1, total + w, k + Digit(r.1));
  }

  /** The closing `adcl $0` takes in the last carry and cannot produce another. */
  lemma NoCarryLost(sum: Uint32, carry: bool, total: nat)
    requires Chain(sum, carry, total)
    ensures var r := Adc32(sum, 0, carry); !r.1 && Chain(r.0, false, total)
  {
    ChainStep(sum, carry, total, 0);
  }

  /** The fold of the register to 16 bits: `shrl`, `addw` and the second `adcl $0`. */
  function Fold16(sum: Uint32): Uint32
  {
    var halves := Add16(sum / 0x1_0000, sum);
    Adc32(halves.0, 0, halves.1).0
  }

  /** The fold never spills over 16 bits and stands for the total. */
  lemma FoldStandsFor(sum: Uint32, total: nat)
    requires Chain(sum, false, total)
    ensures Fold16(sum) < 0x1_0000 && StandsFor(Fold16(sum), total)
  {
    var hi, lo := sum / 0x1_0000, sum % 0x1_0000;
    var halves := Add16(hi, sum);
    var k: nat :| total == sum + ALL_ONES * k;
    assert sum == hi + lo + 65535 * hi;
    StandsForWitness(Fold16(sum), total, hi + 65537 * k + Digit(halves.1));
  }

  /** The 16-bit halves of a word add up to it modulo 65535. */
  lemma {:induction false} WordsStandForHalves(mem: seq<Uint8>, m: nat) returns (k: nat)
    requires 4 * m <= |mem|
    ensures WordSum(mem, m) == Sum(LittleEndian(mem[..4 * m])) + 65535 * k
    ensures WordSum(mem, m) == 0 <==> Sum(LittleEndian(mem[..4 * m])) == 0
  {
    if m == 0 {
      k := 0;
    } else {
      var p := 4 * (m - 1);
      var j := WordsStandForHalves(mem, m - 1);
      var lo, hi := Pair(mem[p + 1], mem[p]), Pair(mem[p + 3], mem[p + 2]);
      OneMoreWord(mem, m);
      k := j + hi;
    }
  }

  lemma OneMoreWord(mem: seq<Uint8>, m: nat)
    requires 0 < m && 4 * m <= |mem|
    ensures var p := 4 * (m - 1);
            Sum(LittleEndian(mem[..4 * m]))
            == Sum(LittleEndian(mem[..p])) + Pair(mem[p + 1], mem[p]) + Pair(mem[p + 3], mem[p + 2])
  {
    hide LittleEndian, Pair, Sum;
    var p := 4 * (m - 1);
    var lo, hi := Pair(mem[p + 1], mem[p]), Pair(mem[p + 3], mem[p + 2]);
    LastHalves(mem, m);
    SumAppend(LittleEndian(mem[..p]), [lo] + [hi]);
    SumNext(lo, [hi]);
    SumOne(hi);
  }

  lemma SumOne(w: Uint16)
    ensures Sum([w]) == w
  {
    assert [w][1..] == [];
  }

  lemma LastHalves(mem: seq<Uint8>, m: nat)
    requires 0 < m && 4 * m <= |mem|
    ensures var p := 4 * (m - 1);
            LittleEndian(mem[..4 * m])
            == LittleEndian(mem[..p]) + ([Pair(mem[p + 1], mem[p])] + [Pair(mem[p + 3], mem[p + 2])])
  {
    hide Pair;
  }

  /** A fold that stands for all the words is the one's-complement sum of all the halves. */
  lemma FoldIsOnesSum(mem: seq<Uint8>, m: nat, r: Uint16)
    requires 4 * m <= |mem| && StandsFor(r, WordSum(mem, m))
    ensures r == OnesSum(LittleEndian(mem[..4 * m]))
  {
    var halves := LittleEndian(mem[..4 * m]);
    var j := WordsStandForHalves(mem, m);
    OnesSumStandsForSum(halves);
    var k: nat :| Sum(halves) == OnesSum(halves) + 65535 * k;
    StandsForWitness(OnesSum(halves), WordSum(mem, m), k + j);
    StandsForUnique(r, OnesSum(halves), WordSum(mem, m));
  }

  lemma FirstWord(mem: seq<Uint8>)
    requires 4 <= |mem|
    ensures Chain(Load32(mem, 0), false, WordSum(mem, 1))
  {
    assert WordSum(mem, 1) == WordSum(mem, 0) + Load32(mem, 0);
    ChainWitness(Load32(mem, 0), false, WordSum(mem, 1), 0);
  }

  /** The instruction `adcl` on a word of memory; with the flag clear it is `addl`. After m words of the
      header it takes in the next one. */
  method Adcl(mem: seq<Uint8>, p: nat, sum: Uint32, carry: bool, ghost m: nat) returns (r: Uint32, cf: bool)
    requires p == 4 * m && p + 4 <= |mem|
    ensures (r, cf) == Adc32(sum, Load32(mem, p), carry)
    ensures Chain(sum, carry, WordSum(mem, m)) ==> Chain(r, cf, WordSum(mem, m + 1))
  {
    var t := Adc32(sum, Load32(mem, p), carry);
    r, cf := t.0, t.1;
    if Chain(sum, carry, WordSum(mem, m)) {
      ChainStep(sum, carry, WordSum(mem, m), Load32(mem, p));
    }
  }

  /** `adcl` with a zero. */
  method AdclZero(sum: Uint32, carry: bool) returns (r: Uint32, cf: bool)
    ensures (r, cf) == Adc32(sum, 0, carry)
  {
    var t := Adc32(sum, 0, carry);
    r, cf := t.0, t.1;
  }

  /** The instruction `addw`. */
  method Addw(sum: Uint32, low: Uint32) returns (r: Uint32, cf: bool)
    ensures (r, cf) == Add16(sum, low)
  {
    var t := Add16(sum, low);
    r, cf := t.0, t.1;
  }

  /** The end of the chain: the last carry, the fold to 16 bits and the complement. */
  method FoldAndComplement(sum: Uint32, carry: bool, ghost total: nat) returns (checksum: Uint16)
    requires Chain(sum, carry, total)
    ensures StandsFor(0xffff - checksum, total)
  {
    hide StandsFor, Chain, Adc32, Add16;
    NoCarryLost(sum, carry, total);
    var r, cf := AdclZero(sum, carry);  // adcl
    FoldStandsFor(r, total);
    var low := r;  // movl
    r := r / 0x1_0000;  // shrl
    r, cf := Addw(r, low);  // addw
    r, cf := AdclZero(r, cf);  // adcl
    r := ALL_ONES - r;  // notl
    checksum := r % 0x1_0000;
  }

  /** `ip_fast_csum`. For a header of five words or more it returns the Internet checksum of all
      its 16-bit halves; for four or fewer the early exit leaves the first word unsummed. */
  method IpFastCsum(mem: seq<Uint8>, ihl: Uint32) returns (checksum: Uint16)
    requires 4 <= |mem| && 4 * ihl <= |mem|
    ensures ihl >= 5 ==> checksum == InternetChecksum(LittleEndian(mem[..4 * ihl]))
    ensures ihl <= 4 ==> checksum == Pair(mem[1], mem[0])
  {
    var p: nat, n: nat := 0, ihl;
    var sum := Load32(mem, p);  // movl
    if n <= 4 {  // subl, jbe
      return sum % 0x1_0000;
    }
    hide StandsFor, Chain, WordSum, Adc32, LittleEndian, OnesSum;
    n := n - 4;
    FirstWord(mem);
    var carry: bool;
    sum, carry := Adcl(mem, p + 4, sum, false, 1);  // addl
    sum, carry := Adcl(mem, p + 8, sum, carry, 2);  // adcl
    sum, carry := Adcl(mem, p + 12, sum, carry, 3);  // adcl
    while true
      invariant 1 <= n <= ihl - 4 && p == 4 * (ihl - 4 - n)
      invariant Chain(sum, carry, WordSum(mem, ihl - n))
      decreases n
    {
      sum, carry := Adcl(mem, p + 16, sum, carry, ihl - n);  // adcl
      p := p + 4;  // lea
      n := n - 1;  // decl
      if n == 0 { break; }  // jne
    }
    checksum := FoldAndComplement(sum, carry, WordSum(mem, ihl));
    FoldIsOnesSum(mem, ihl, 0xffff - checksum);
  }
}
