/**
 * The key data of a slot map: a cell's coordinates (chunk index and index
 * inside the chunk) together with its generation, and the packing of the
 * triple into one 64-bit word (src/slot_map_key_data.rs).
 *
 * The 64-bit word is modelled on `nat`; the bitwise operations the source
 * uses on `u64` are written out as functions (`BitAnd`, `Shl64`, `Shr`,
 * `WrappingMul64`) whose arithmetic meaning is proved below.
 */
module SlotMapKeyData {

  type u16 = x: int | 0 <= x < 0x1_0000
  type u32 = x: int | 0 <= x < 0x1_0000_0000
  type u64 = x: int | 0 <= x < 0x1_0000_0000_0000_0000

  const U32_MAX: int := 0xFFFF_FFFF

  /** 2^64, one more than the largest u64 */
  const WORD_MODULUS: nat := 0x1_0000_0000_0000_0000

  // ---------------------------------------------------------------------
  // Bit operations on unsigned words
  // ---------------------------------------------------------------------

  /** 2^n, which is also `0x1 << n` for every shift below the word width */
  function Pow2(n: nat): (r: nat)
    ensures r >= 1
  {
    if n == 0 then 1 else 2 * Pow2(n - 1)
  }

  /** Number of trailing zero bits of a positive number (`usize::trailing_zeros`) */
  function TrailingZeros(n: nat): nat
    requires n > 0
  {
    if n % 2 == 1 then 0 else 1 + TrailingZeros(n / 2)
  }

  /** Bitwise and of two unsigned numbers, bit by bit from the lowest */
  function BitAnd(a: nat, b: nat): nat
    decreases a
  {
    if a == 0 || b == 0 then 0
    else 2 * BitAnd(a / 2, b / 2) + (if a % 2 == 1 && b % 2 == 1 then 1 else 0)
  }

  /** `x << s` before truncation, one bit at a time */
  function Shl(x: nat, s: nat): nat {
    if s == 0 then x else 2 * Shl(x, s - 1)
  }

  /** `x << s` on a u64: bits shifted past bit 63 are lost */
  function Shl64(x: nat, s: nat): nat {
    Shl(x, s) % WORD_MODULUS
  }

  /** `x >> s` on an unsigned word, one bit at a time */
  function Shr(x: nat, s: nat): nat {
    if s == 0 then x else Shr(x / 2, s - 1)
  }

  /** `a * b` on u64 in wrapping (release-mode) semantics */
  function WrappingMul64(a: nat, b: nat): nat {
    (a * b) % WORD_MODULUS
  }

  // ---------------------------------------------------------------------
  // Bit-width constants (src/slot_map_key_data.rs:5-18, src/lib.rs:30).
  // The source computes them at compile time; they are written here as
  // the values those expressions evaluate to, and ConstantsMatchSource
  // proves each equal to the source's expression.
  // ---------------------------------------------------------------------

  const SLOT_MAP_CHUNK_SIZE: nat := 256

  const INDEX_IN_CHUNK_BITS: nat := 8
  const CHUNK_INDEX_BITS: nat := 32
  const GENERATION_BITS: nat := 24

  const INDEX_IN_CHUNK_MASK: nat := 0xFF
  const CHUNK_INDEX_SHIFT: nat := 8
  const CHUNK_INDEX_MASK: nat := 0xFF_FFFF_FF00
  const GENERATION_SHIFT: nat := 40
  const GENERATION_MASK: nat := 0xFFFF_FF00_0000_0000

  const MAX_INDEX_IN_CHUNK: nat := 0xFF
  const MAX_GENERATION: nat := 0xFF_FFFF

  lemma {:induction false} Pow2Add(a: nat, b: nat)
    ensures Pow2(a + b) == Pow2(a) * Pow2(b)
  {
    if a > 0 {
      Pow2Add(a - 1, b);
    }
  }

  lemma Pow2Of8()
    ensures Pow2(8) == 0x100
  {
  }

  lemma Pow2Of16()
    ensures Pow2(16) == 0x1_0000
  {
    Pow2Add(8, 8);
    Pow2Of8();
  }

  lemma Pow2Of24()
    ensures Pow2(24) == 0x100_0000
  {
    Pow2Add(16, 8);
    Pow2Of16();
    Pow2Of8();
  }

  lemma Pow2Of32()
    ensures Pow2(32) == 0x1_0000_0000
  {
    Pow2Add(16, 16);
    Pow2Of16();
  }

  lemma Pow2Of40()
    ensures Pow2(40) == 0x100_0000_0000
  {
    Pow2Add(32, 8);
    Pow2Of32();
    Pow2Of8();
  }

  lemma Pow2Values()
    ensures Pow2(8) == 0x100 && Pow2(24) == 0x100_0000
    ensures Pow2(32) == 0x1_0000_0000 && Pow2(40) == 0x100_0000_0000
  {
    Pow2Of8();
    Pow2Of24();
    Pow2Of32();
    Pow2Of40();
  }

  /** Each constant is the value of the expression the source defines it by. */
  lemma ConstantsMatchSource()
    ensures INDEX_IN_CHUNK_BITS == TrailingZeros(SLOT_MAP_CHUNK_SIZE)
    ensures GENERATION_BITS == 64 - CHUNK_INDEX_BITS - INDEX_IN_CHUNK_BITS
    ensures INDEX_IN_CHUNK_MASK == Pow2(INDEX_IN_CHUNK_BITS) - 1
    ensures CHUNK_INDEX_SHIFT == INDEX_IN_CHUNK_BITS
    ensures CHUNK_INDEX_MASK == (Pow2(CHUNK_INDEX_BITS) - 1) * Pow2(CHUNK_INDEX_SHIFT)
    ensures GENERATION_SHIFT == CHUNK_INDEX_SHIFT + CHUNK_INDEX_BITS
    ensures GENERATION_MASK == (Pow2(GENERATION_BITS) - 1) * Pow2(GENERATION_SHIFT)
    ensures MAX_INDEX_IN_CHUNK == INDEX_IN_CHUNK_MASK
    ensures MAX_GENERATION == Pow2(GENERATION_BITS) - 1
    ensures SLOT_MAP_CHUNK_SIZE == Pow2(INDEX_IN_CHUNK_BITS)
  {
    assert TrailingZeros(SLOT_MAP_CHUNK_SIZE) == 8;
    Pow2Values();
  }

  // ---------------------------------------------------------------------
  // Arithmetic meaning of the bit operations. Each lemma below takes one
  // step of non-linear arithmetic, so that the solver sees little at once.
  // ---------------------------------------------------------------------

  lemma DivModUnique(x: int, m: int, q: int, r: int)
    requires m > 0 && 0 <= r < m && x == m * q + r
    ensures x / m == q && x % m == r
  {
    var q', r' := x / m, x % m;
    assert m * q' + r' == m * q + r;
    if q' > q {
      assert m * q' >= m * (q + 1) by { MulMonotone(m, q + 1, q'); }
    } else if q' < q {
      assert m * q >= m * (q' + 1) by { MulMonotone(m, q' + 1, q); }
    }
  }

  lemma MulMonotone(m: int, a: int, b: int)
    requires m > 0 && a <= b
    ensures m * a <= m * b
  {
  }

  /** Remainder and quotient by 2q, read off the halved number */
  lemma ModDouble(x: nat, q: nat)
    requires q > 0
    ensures x % (2 * q) == 2 * ((x / 2) % q) + x % 2
    ensures x / (2 * q) == (x / 2) / q
  {
    var a, b := x / 2, x % 2;
    var c, d := a / q, a % q;
    assert a == q * c + d;
    assert x == (2 * q) * c + (2 * d + b);
    DivModUnique(x, 2 * q, c, 2 * d + b);
  }

  lemma ZeroDivMod(d: nat)
    requires d > 0
    ensures 0 / d == 0 && 0 % d == 0
  {
  }

  lemma MulTwice(a: int, p: int)
    ensures 2 * (a * p) == a * (2 * p)
  {
  }

  /** Shifting left by s bits is multiplication by 2^s. */
  lemma {:induction false} ShlIsMul(x: nat, s: nat)
    ensures Shl(x, s) == x * Pow2(s)
  {
    if s > 0 {
      ShlIsMul(x, s - 1);
      MulTwice(x, Pow2(s - 1));
    }
  }

  /** Shifting right by s bits is division by 2^s. */
  lemma {:induction false} ShrIsDiv(x: nat, s: nat)
    ensures Shr(x, s) == x / Pow2(s)
  {
    if s > 0 {
      ShrIsDiv(x / 2, s - 1);
      ModDouble(x, Pow2(s - 1));
    }
  }

  /** Shifting right keeps the order of two numbers. */
  lemma {:induction false} ShrMonotone(x: nat, y: nat, s: nat)
    requires x <= y
    ensures Shr(x, s) <= Shr(y, s)
  {
    if s > 0 {
      ShrMonotone(x / 2, y / 2, s - 1);
    }
  }

  /** A bitwise and keeps no bit its second operand lacks, so it is at most that operand. */
  lemma {:induction false} BitAndAtMost(x: nat, m: nat)
    ensures BitAnd(x, m) <= m
  {
    if x > 0 && m > 0 {
      BitAndAtMost(x / 2, m / 2);
    }
  }

  lemma BitAndOdd(x: nat, m: nat)
    requires x > 0 && m > 0 && m % 2 == 1
    ensures BitAnd(x, m) == 2 * BitAnd(x / 2, m / 2) + x % 2
  {
  }

  lemma BitAndEven(x: nat, m: nat)
    requires x > 0 && m > 0 && m % 2 == 0
    ensures BitAnd(x, m) == 2 * BitAnd(x / 2, m / 2)
  {
  }

  /** Masking with 2^n - 1 keeps the n low bits: `x & (2^n - 1) == x % 2^n`. */
  lemma {:induction false} BitAndLowMask(x: nat, n: nat)
    ensures BitAnd(x, Pow2(n) - 1) == x % Pow2(n)
  {
    if n == 0 {
      assert Pow2(n) - 1 == 0;
      assert x % 1 == 0;
    } else if x == 0 {
      ZeroDivMod(Pow2(n));
    } else {
      BitAndLowMask(x / 2, n - 1);
      LowMaskHalf(x, Pow2(n - 1));
      LowMaskStep(x, Pow2(n - 1), BitAnd(x / 2, Pow2(n - 1) - 1));
    }
  }

  lemma LowMaskHalf(x: nat, p: nat)
    requires x > 0 && p > 0
    ensures BitAnd(x, 2 * p - 1) == 2 * BitAnd(x / 2, p - 1) + x % 2
  {
    var m := 2 * p - 1;
    assert m % 2 == 1 && m / 2 == p - 1;
    BitAndOdd(x, m);
  }

  lemma LowMaskStep(x: nat, p: nat, h: nat)
    requires p > 0 && h == (x / 2) % p
    ensures 2 * h + x % 2 == x % (2 * p)
  {
    ModDouble(x, p);
  }

  /** Masking with (2^n - 1) << s keeps the n bits from bit s upwards. */
  lemma {:induction false} BitAndShiftedMask(x: nat, n: nat, s: nat)
    ensures BitAnd(x, (Pow2(n) - 1) * Pow2(s)) == (x / Pow2(s)) % Pow2(n) * Pow2(s)
  {
    if s == 0 {
      assert Pow2(s) == 1;
      assert (Pow2(n) - 1) * Pow2(s) == Pow2(n) - 1;
      assert x / Pow2(s) == x;
      BitAndLowMask(x, n);
    } else if n == 0 {
      assert Pow2(n) - 1 == 0;
      assert (x / Pow2(s)) % 1 == 0;
    } else if x == 0 {
      ZeroDivMod(Pow2(s));
      ZeroDivMod(Pow2(n));
    } else {
      BitAndShiftedMask(x / 2, n, s - 1);
      ShiftedMaskStep(x, Pow2(s), Pow2(s - 1), Pow2(n) - 1, Pow2(n));
    }
  }

  /** One bit of the induction in `BitAndShiftedMask`, on the powers as plain numbers */
  lemma ShiftedMaskStep(x: nat, big: nat, p: nat, q: nat, bound: nat)
    requires x > 0 && p > 0 && q > 0 && bound > 0 && big == 2 * p
    requires BitAnd(x / 2, q * p) == ((x / 2) / p) % bound * p
    ensures BitAnd(x, q * big) == (x / big) % bound * big
  {
    EvenProduct(q, p, big);
    BitAndEven(x, q * big);
    ModDouble(x, p);
    MulTwice((x / big) % bound, p);
  }

  lemma EvenProduct(q: nat, p: nat, big: nat)
    requires q > 0 && p > 0 && big == 2 * p
    ensures q * big > 0 && (q * big) % 2 == 0 && (q * big) / 2 == q * p
  {
    assert q * big == 2 * (q * p);
  }

  /** The three masks of the source, as arithmetic on the word */
  lemma MaskIndex(w: nat)
    ensures BitAnd(w, INDEX_IN_CHUNK_MASK) == w % 0x100
  {
    Pow2Of8();
    BitAndLowMask(w, 8);
  }

  lemma MaskChunk(w: nat)
    ensures BitAnd(w, CHUNK_INDEX_MASK) == (w / 0x100) % 0x1_0000_0000 * 0x100
  {
    Pow2Of8();
    Pow2Of32();
    BitAndShiftedMask(w, 32, 8);
  }

  lemma MaskGeneration(w: nat)
    ensures BitAnd(w, GENERATION_MASK) == (w / 0x100_0000_0000) % 0x100_0000 * 0x100_0000_0000
  {
    Pow2Of24();
    Pow2Of40();
    BitAndShiftedMask(w, 24, 40);
  }

  /**
   * The three field masks split every 64-bit word: the parts a word keeps
   * under each mask add up to the word, so the masks share no bit and
   * together cover all 64.
   */
  lemma MasksPartitionWord(w: u64)
    ensures INDEX_IN_CHUNK_BITS + CHUNK_INDEX_BITS + GENERATION_BITS == 64
    ensures INDEX_IN_CHUNK_MASK + CHUNK_INDEX_MASK + GENERATION_MASK == WORD_MODULUS - 1
    ensures BitAnd(w, INDEX_IN_CHUNK_MASK) + BitAnd(w, CHUNK_INDEX_MASK) + BitAnd(w, GENERATION_MASK) == w
  {
    var g := w as nat / 0x100_0000_0000;
    assert BitAnd(w, GENERATION_MASK) == g * 0x100_0000_0000 by {
      MaskGeneration(w);
      SplitWord(w);
      SmallMod(g, 0x100_0000);
    }
    MaskIndex(w);
    MaskChunk(w);
    SplitWord(w);
  }

  lemma SmallMod(x: nat, m: nat)
    requires x < m
    ensures x % m == x
  {
  }

  // ---------------------------------------------------------------------
  // The key data triple
  // ---------------------------------------------------------------------

  /** SlotMapKeyData; the derived `Default` is the all-zero key */
  datatype KeyData = KeyData(indexInChunk: u16, chunkIndex: u32, generation: u32)

  const DEFAULT_KEY: KeyData := KeyData(0, 0, 0)

  /** Fields within the widths the packing keeps; every key the map creates is in range */
  predicate InRange(k: KeyData) {
    k.indexInChunk <= MAX_INDEX_IN_CHUNK && k.generation <= MAX_GENERATION
  }

  /** `is_filled`: an even generation marks an occupied cell */
  predicate IsFilled(k: KeyData) {
    k.generation % 2 == 0
  }

  /** The generation after one increment, written without modular arithmetic */
  function NextGeneration(g: nat): nat
    requires g <= MAX_GENERATION
  {
    if g < MAX_GENERATION then g + 1 else 0
  }

  /** One increment is a step modulo 2^24 */
  lemma NextGenerationWraps(g: nat)
    requires g <= MAX_GENERATION
    ensures NextGeneration(g) == (g + 1) % (MAX_GENERATION + 1)
    ensures NextGeneration(g) <= MAX_GENERATION
  {
  }

  /** Two increments never give the generation back: 2^24 exceeds two */
  lemma NextGenerationTwice(g: nat)
    requires g <= MAX_GENERATION
    ensures NextGeneration(NextGeneration(g)) == (g + 2) % (MAX_GENERATION + 1)
    ensures NextGeneration(NextGeneration(g)) != g
  {
  }

  /**
   * `increment_generation`: one step, wrapping from MAX_GENERATION to 0. The
   * panic for a generation above MAX_GENERATION is excluded by the requires.
   */
  function IncrementGeneration(k: KeyData): (r: KeyData)
    requires k.generation <= MAX_GENERATION
    ensures SameCoordinates(r, k)
    ensures r.generation <= MAX_GENERATION
    ensures r.generation == NextGeneration(k.generation)
    ensures IsFilled(r) == !IsFilled(k)
  {
    if k.generation < MAX_GENERATION then k.(generation := k.generation + 1)
    else if k.generation == MAX_GENERATION then k.(generation := 0)
    else assert false; k
  }

  /** `swap_coordinates`: exchange chunk index and index in chunk, keep both generations */
  function SwapCoordinates(a: KeyData, b: KeyData): (r: (KeyData, KeyData))
    ensures r.0.generation == a.generation && r.1.generation == b.generation
    ensures SameCoordinates(r.0, b) && SameCoordinates(r.1, a)
  {
    (a.(chunkIndex := b.chunkIndex, indexInChunk := b.indexInChunk),
     b.(chunkIndex := a.chunkIndex, indexInChunk := a.indexInChunk))
  }

  predicate SameCoordinates(a: KeyData, b: KeyData) {
    a.chunkIndex == b.chunkIndex && a.indexInChunk == b.indexInChunk
  }

  /** Swapping twice gives both key data back */
  lemma SwapCoordinatesTwice(a: KeyData, b: KeyData)
    ensures var (a', b') := SwapCoordinates(a, b); SwapCoordinates(a', b') == (a, b)
  {
  }

  /** Flat position of a coordinate: chunks of SLOT_MAP_CHUNK_SIZE laid end to end */
  function Position(k: KeyData): nat {
    k.chunkIndex * SLOT_MAP_CHUNK_SIZE + k.indexInChunk
  }

  /**
   * `increment_coordinates`: step to the next cell, reporting when the step
   * leaves the chunk. The requires exclude the u16/u32 overflow of the fields.
   */
  function IncrementCoordinates(k: KeyData): (r: (KeyData, bool))
    requires k.indexInChunk < 0xFFFF
    requires k.indexInChunk == MAX_INDEX_IN_CHUNK ==> k.chunkIndex < U32_MAX
    ensures r.1 <==> k.indexInChunk == SLOT_MAP_CHUNK_SIZE - 1
    ensures r.1 ==> r.0.indexInChunk == 0 && r.0.chunkIndex == k.chunkIndex + 1
    ensures !r.1 ==> r.0.indexInChunk == k.indexInChunk + 1 && r.0.chunkIndex == k.chunkIndex
    ensures r.0.generation == k.generation
    ensures Position(r.0) == Position(k) + 1
    ensures InRange(k) ==> InRange(r.0)
  {
    if k.indexInChunk == MAX_INDEX_IN_CHUNK then
      (k.(indexInChunk := 0, chunkIndex := k.chunkIndex + 1), true)
    else
      (k.(indexInChunk := k.indexInChunk + 1), false)
  }

  // ---------------------------------------------------------------------
  // Generation and parity over many steps
  // ---------------------------------------------------------------------

  function IncrementGenerationTimes(k: KeyData, n: nat): (r: KeyData)
    requires k.generation <= MAX_GENERATION
    ensures r.generation <= MAX_GENERATION
  {
    if n == 0 then k else IncrementGeneration(IncrementGenerationTimes(k, n - 1))
  }

  lemma ParityStep(n: nat)
    requires n > 0
    ensures (n % 2 == 0) == ((n - 1) % 2 != 0)
  {
  }

  lemma ModSucc(g: nat)
    ensures (g % 0x100_0000 + 1) % 0x100_0000 == (g + 1) % 0x100_0000
  {
  }

  /**
   * A cell's generation after n increments is its start plus n modulo 2^24,
   * with coordinates untouched; because 2^24 is even the parity, and with it
   * `is_filled`, flips on every step, the wrap-around included.
   */
  lemma {:induction false} IncrementGenerationTimesSpec(k: KeyData, n: nat)
    requires k.generation <= MAX_GENERATION
    ensures var r := IncrementGenerationTimes(k, n);
      && SameCoordinates(r, k)
      && r.generation == (k.generation + n) % (MAX_GENERATION + 1)
      && IsFilled(r) == (IsFilled(k) == (n % 2 == 0))
  {
    if n > 0 {
      var prev := IncrementGenerationTimes(k, n - 1);
      IncrementGenerationTimesSpec(k, n - 1);
      assert IncrementGenerationTimes(k, n).generation == (k.generation + n) % (MAX_GENERATION + 1) by {
        NextGenerationWraps(prev.generation);
        ModSucc(k.generation + n - 1);
      }
      ParityStep(n);
    }
  }

  // ---------------------------------------------------------------------
  // Packing into a u64 (src/slot_map_key_data.rs:81-100)
  // ---------------------------------------------------------------------

  /** `From<SlotMapKeyData> for u64` */
  function Encode(k: KeyData): (w: u64)
  {
    var a := BitAnd(k.indexInChunk, INDEX_IN_CHUNK_MASK);
    var b := BitAnd(Shl64(k.chunkIndex, CHUNK_INDEX_SHIFT), CHUNK_INDEX_MASK);
    var c := BitAnd(Shl64(k.generation, GENERATION_SHIFT), GENERATION_MASK);
    BitAndAtMost(k.indexInChunk, INDEX_IN_CHUNK_MASK);
    BitAndAtMost(Shl64(k.chunkIndex, CHUNK_INDEX_SHIFT), CHUNK_INDEX_MASK);
    BitAndAtMost(Shl64(k.generation, GENERATION_SHIFT), GENERATION_MASK);
    a + b + c
  }

  /**
   * `From<u64> for SlotMapKeyData`, with the masks and shifts that invert
   * `Encode`. This is a deliberate fix: lines 85-87 of the source shift the
   * chunk index by CHUNK_INDEX_BITS instead of CHUNK_INDEX_SHIFT and multiply
   * by GENERATION_MASK instead of masking (see DecodeAsWritten).
   */
  function Decode(w: u64): (k: KeyData)
    ensures InRange(k)
  {
    BitAndAtMost(w, INDEX_IN_CHUNK_MASK);
    BitAndAtMost(w, CHUNK_INDEX_MASK);
    BitAndAtMost(w, GENERATION_MASK);
    ShrMonotone(BitAnd(w, CHUNK_INDEX_MASK), CHUNK_INDEX_MASK, CHUNK_INDEX_SHIFT);
    ShrMonotone(BitAnd(w, GENERATION_MASK), GENERATION_MASK, GENERATION_SHIFT);
    Shr8(CHUNK_INDEX_MASK);
    Shr40(GENERATION_MASK);
    KeyData(
      BitAnd(w, INDEX_IN_CHUNK_MASK),
      Shr(BitAnd(w, CHUNK_INDEX_MASK), CHUNK_INDEX_SHIFT),
      Shr(BitAnd(w, GENERATION_MASK), GENERATION_SHIFT))
  }

  /** `From<u64> for SlotMapKeyData` exactly as the source writes it */
  function DecodeAsWritten(w: u64): (k: KeyData)
  {
    BitAndAtMost(w, INDEX_IN_CHUNK_MASK);
    BitAndAtMost(w, CHUNK_INDEX_MASK);
    ShrMonotone(BitAnd(w, CHUNK_INDEX_MASK), CHUNK_INDEX_MASK, CHUNK_INDEX_BITS);
    ShrMonotone(WrappingMul64(w, GENERATION_MASK), WORD_MODULUS - 1, GENERATION_SHIFT);
    Shr32(CHUNK_INDEX_MASK);
    Shr40(WORD_MODULUS - 1);
    KeyData(
      BitAnd(w, INDEX_IN_CHUNK_MASK),
      Shr(BitAnd(w, CHUNK_INDEX_MASK), CHUNK_INDEX_BITS),
      Shr(WrappingMul64(w, GENERATION_MASK), GENERATION_SHIFT))
  }

  lemma Shr8(x: nat)
    ensures Shr(x, 8) == x / 0x100
  {
    ShrIsDiv(x, 8);
    Pow2Of8();
  }

  lemma Shr32(x: nat)
    ensures Shr(x, 32) == x / 0x1_0000_0000
  {
    ShrIsDiv(x, 32);
    Pow2Of32();
  }

  lemma Shr40(x: nat)
    ensures Shr(x, 40) == x / 0x100_0000_0000
  {
    ShrIsDiv(x, 40);
    Pow2Of40();
  }

  /** The chunk index shifted into place loses no bit. */
  lemma ShiftChunk(c: u32)
    ensures Shl64(c, CHUNK_INDEX_SHIFT) == c * 0x100
  {
    ShlIsMul(c, 8);
    Pow2Of8();
  }

  /** The generation shifted into place keeps its 24 low bits in bits 40-63. */
  lemma ShiftGeneration(g: u32)
    ensures Shl64(g, GENERATION_SHIFT) / 0x100_0000_0000 % 0x100_0000 == g % 0x100_0000
  {
    ShlIsMul(g, 40);
    Pow2Of40();
    var q, r := g / 0x100_0000, g % 0x100_0000;
    var w := g * 0x100_0000_0000;
    assert w == WORD_MODULUS * q + r * 0x100_0000_0000;
    DivModUnique(w, WORD_MODULUS, q, r * 0x100_0000_0000);
    DivModUnique(r * 0x100_0000_0000, 0x100_0000_0000, r, 0);
  }

  /** The packed word has the index in bits 0-7, the chunk in bits 8-39 and the generation in bits 40-63. */
  lemma EncodeLayout(k: KeyData)
    ensures Encode(k) == k.indexInChunk % 0x100
                         + k.chunkIndex * 0x100
                         + (k.generation % 0x100_0000) * 0x100_0000_0000
  {
    MaskIndex(k.indexInChunk);
    ShiftChunk(k.chunkIndex);
    var c := Shl64(k.chunkIndex, CHUNK_INDEX_SHIFT);
    assert c / 0x100 % 0x1_0000_0000 == k.chunkIndex;
    MaskChunk(c);
    ShiftGeneration(k.generation);
    MaskGeneration(Shl64(k.generation, GENERATION_SHIFT));
  }

  /** For a key in range the packed word is the plain sum of its fields in place. */
  lemma EncodeFields(k: KeyData)
    requires InRange(k)
    ensures Encode(k) == k.indexInChunk + k.chunkIndex * 0x100 + k.generation * 0x100_0000_0000
  {
    assert k.indexInChunk % 0x100 == k.indexInChunk;
    assert k.generation % 0x100_0000 == k.generation;
    EncodeLayout(k);
  }

  lemma DecodeIndexField(w: u64)
    ensures Decode(w).indexInChunk == w % 0x100
  {
    MaskIndex(w);
  }

  lemma DecodeChunkField(w: u64)
    ensures Decode(w).chunkIndex == w / 0x100 % 0x1_0000_0000
  {
    MaskChunk(w);
    var a := w / 0x100 % 0x1_0000_0000;
    Shr8(a * 0x100);
    DivModUnique(a * 0x100, 0x100, a, 0);
  }

  lemma DecodeGenerationField(w: u64)
    ensures Decode(w).generation == w / 0x100_0000_0000
  {
    MaskGeneration(w);
    var a := w / 0x100_0000_0000 % 0x100_0000;
    assert a == w / 0x100_0000_0000;
    Shr40(a * 0x100_0000_0000);
    DivModUnique(a * 0x100_0000_0000, 0x100_0000_0000, a, 0);
  }

  /** Decode reads the three fields back as arithmetic on the word. */
  lemma DecodeFields(w: u64)
    ensures Decode(w) == KeyData(w % 0x100, w / 0x100 % 0x1_0000_0000, w / 0x100_0000_0000)
  {
    DecodeIndexField(w);
    DecodeChunkField(w);
    DecodeGenerationField(w);
  }

  /** Three fields laid side by side are read back by division and remainder. */
  lemma PackedFields(w: nat, i: nat, c: nat, g: nat)
    requires i < 0x100 && c < 0x1_0000_0000 && g < 0x100_0000
    requires w == i + c * 0x100 + g * 0x100_0000_0000
    ensures w < WORD_MODULUS
    ensures w % 0x100 == i && w / 0x100 % 0x1_0000_0000 == c && w / 0x100_0000_0000 == g
  {
    var hi := c + g * 0x1_0000_0000;
    DivModUnique(w, 0x100, hi, i);
    DivModUnique(hi, 0x1_0000_0000, g, c);
    DivModUnique(w, 0x100_0000_0000, g, i + c * 0x100);
  }

  /** Every 64-bit word is the sum of its three fields in place. */
  lemma SplitWord(w: nat)
    requires w < WORD_MODULUS
    ensures w / 0x100_0000_0000 < 0x100_0000
    ensures w == w % 0x100 + (w / 0x100 % 0x1_0000_0000) * 0x100 + (w / 0x100_0000_0000) * 0x100_0000_0000
  {
    var hi := w / 0x100;
    assert w == 0x100 * hi + w % 0x100;
    assert hi == 0x1_0000_0000 * (hi / 0x1_0000_0000) + hi % 0x1_0000_0000;
    var g := hi / 0x1_0000_0000;
    assert w == g * 0x100_0000_0000 + (hi % 0x1_0000_0000 * 0x100 + w % 0x100);
    DivModUnique(w, 0x100_0000_0000, g, hi % 0x1_0000_0000 * 0x100 + w % 0x100);
  }

  lemma DecodePacked(w: u64, i: u16, c: u32, g: u32)
    requires i < 0x100 && g < 0x100_0000
    requires w == i + c * 0x100 + g * 0x100_0000_0000
    ensures Decode(w) == KeyData(i, c, g)
  {
    PackedFields(w, i, c, g);
    DecodeFields(w);
  }

  /** Decoding the packed form gives back every key whose fields are in range. */
  lemma DecodeEncode(k: KeyData)
    requires InRange(k)
    ensures Decode(Encode(k)) == k
  {
    EncodeFields(k);
    DecodePacked(Encode(k), k.indexInChunk, k.chunkIndex, k.generation);
  }

  /** Packing after unpacking is the identity on every 64-bit word. */
  lemma EncodeDecode(w: u64)
    ensures Encode(Decode(w)) == w
  {
    var k := Decode(w);
    DecodeFields(w);
    SplitWord(w);
    EncodeFields(k);
  }

  /** Decoding 0 gives the default all-zero key (the key handed out by the first insert). */
  lemma DecodeZero()
    ensures Decode(0) == DEFAULT_KEY
  {
    DecodeFields(0);
  }

  /** A count n of cells names the cell n in the flat order: index n mod 256 of chunk n div 256, generation 0. */
  lemma DecodeCount(n: nat)
    requires n < 0x100_0000_0000
    ensures Decode(n) == KeyData(n % SLOT_MAP_CHUNK_SIZE, n / SLOT_MAP_CHUNK_SIZE, 0)
  {
    DecodeFields(n);
    DivModUnique(n, 0x100_0000_0000, 0, n);
  }

  // ---------------------------------------------------------------------
  // The decode the source has (src/slot_map_key_data.rs:81-90)
  // ---------------------------------------------------------------------

  /** The fields the source's decode reads, as arithmetic on the word */
  lemma DecodeAsWrittenFields(w: u64)
    ensures DecodeAsWritten(w) == KeyData(
      w % 0x100,
      (w / 0x100 % 0x1_0000_0000 * 0x100) / 0x1_0000_0000,
      (w * GENERATION_MASK) % WORD_MODULUS / 0x100_0000_0000)
  {
    MaskIndex(w);
    MaskChunk(w);
    Shr32(BitAnd(w, CHUNK_INDEX_MASK));
    Shr40(WrappingMul64(w, GENERATION_MASK));
  }

  lemma ChunkShiftedTooFar(c: u32)
    ensures (c * 0x100) / 0x1_0000_0000 == c / 0x100_0000
  {
    DivModUnique(c * 0x100, 0x1_0000_0000, c / 0x100_0000, c % 0x100_0000 * 0x100);
  }

  /**
   * The decode as written does not invert the encode. It shifts the masked
   * chunk bits right by 32 instead of 8, so a key comes back with chunk index
   * `chunkIndex / 2^24`: 0 for every chunk the map can reach in practice.
   */
  lemma DecodeAsWrittenChunk(k: KeyData)
    requires InRange(k)
    ensures DecodeAsWritten(Encode(k)).chunkIndex == k.chunkIndex / 0x100_0000
    ensures DecodeAsWritten(Encode(k)).indexInChunk == k.indexInChunk
  {
    var w := Encode(k);
    EncodeFields(k);
    PackedFields(w, k.indexInChunk, k.chunkIndex, k.generation);
    DecodeAsWrittenFields(w);
    ChunkShiftedTooFar(k.chunkIndex);
  }

  /**
   * The product of a word with GENERATION_MASK (2^64 - 2^40), truncated to
   * 64 bits, is the word's negation modulo 2^24 placed in bits 40-63.
   */
  lemma WrappingMulGenerationMask(w: nat)
    ensures WrappingMul64(w, GENERATION_MASK) == (0x100_0000 - w % 0x100_0000) % 0x100_0000 * 0x100_0000_0000
  {
    var q, r := w / 0x100_0000, w % 0x100_0000;
    var t := (0x100_0000 - r) % 0x100_0000;
    assert w * GENERATION_MASK == WORD_MODULUS * w - 0x100_0000_0000 * w;
    assert 0x100_0000_0000 * w == WORD_MODULUS * q + r * 0x100_0000_0000;
    if r == 0 {
      assert t == 0;
      DivModUnique(w * GENERATION_MASK, WORD_MODULUS, w - q, 0);
    } else {
      assert t == 0x100_0000 - r;
      assert t * 0x100_0000_0000 == WORD_MODULUS - r * 0x100_0000_0000;
      DivModUnique(w * GENERATION_MASK, WORD_MODULUS, w - q - 1, t * 0x100_0000_0000);
    }
  }

  /**
   * It multiplies by the generation mask instead of masking. What is left of
   * the product in bits 40-63 is the negated index and chunk bits modulo
   * 2^24, so the generation the key had is lost: the decode as written
   * returns `-(index + 256 * chunk) mod 2^24`, which is 0 only when the
   * index and the low 16 bits of the chunk are all 0.
   */
  lemma DecodeAsWrittenGeneration(k: KeyData)
    requires InRange(k)
    ensures DecodeAsWritten(Encode(k)).generation
         == (0x100_0000 - (k.indexInChunk + 0x100 * k.chunkIndex) % 0x100_0000) % 0x100_0000
  {
    var w := Encode(k);
    var a := k.indexInChunk + 0x100 * k.chunkIndex;
    EncodeFields(k);
    PackedFields(w, k.indexInChunk, k.chunkIndex, k.generation);
    DecodeAsWrittenFields(w);
    WrappingMulGenerationMask(w);
    assert w % 0x100_0000 == a % 0x100_0000 by {
      DivModUnique(w, 0x100_0000, a / 0x100_0000 + k.generation * 0x1_0000, a % 0x100_0000);
    }
    var t := (0x100_0000 - a % 0x100_0000) % 0x100_0000;
    DivModUnique(t * 0x100_0000_0000, 0x100_0000_0000, t, 0);
  }

  /**
   * The whole result of the decode as written on an encoded key: the index
   * survives, the chunk is divided by 2^24, and the generation is replaced.
   */
  lemma DecodeAsWrittenOfEncode(k: KeyData)
    requires InRange(k)
    ensures DecodeAsWritten(Encode(k)) == KeyData(
      k.indexInChunk,
      k.chunkIndex / 0x100_0000,
      (0x100_0000 - (k.indexInChunk + 0x100 * k.chunkIndex) % 0x100_0000) % 0x100_0000)
  {
    DecodeAsWrittenChunk(k);
    DecodeAsWrittenGeneration(k);
  }

  /**
   * The keys the decode as written gives back intact are exactly those in
   * chunk 0 whose generation is the negated index modulo 2^24: the all-zero
   * key and, for each other index i, only generation 2^24 - i.
   */
  lemma DecodeAsWrittenRoundTripsExactly(k: KeyData)
    requires InRange(k)
    ensures DecodeAsWritten(Encode(k)) == k
        <==> k.chunkIndex == 0 && k.generation == (0x100_0000 - k.indexInChunk) % 0x100_0000
  {
    DecodeAsWrittenOfEncode(k);
    if k.chunkIndex == 0 {
      assert (k.indexInChunk + 0x100 * k.chunkIndex) % 0x100_0000 == k.indexInChunk;
    } else {
      assert k.chunkIndex / 0x100_0000 != k.chunkIndex;
    }
  }

  /**
   * The first cell of chunk c, for 0 < c < 2^16, at generation 0 comes back
   * in chunk 0 with generation 2^24 - 256 c.
   */
  lemma DecodeAsWrittenFirstCell(k: KeyData)
    requires k.indexInChunk == 0 && k.generation == 0 && 0 < k.chunkIndex < 0x1_0000
    ensures DecodeAsWritten(Encode(k)) == KeyData(0, 0, 0x100_0000 - 0x100 * k.chunkIndex)
  {
    DecodeAsWrittenOfEncode(k);
    SmallMod(0x100 * k.chunkIndex, 0x100_0000);
  }

  /** A key at the origin cell comes back at generation 0, whatever its generation was. */
  lemma DecodeAsWrittenOrigin(k: KeyData)
    requires k.indexInChunk == 0 && k.chunkIndex == 0 && k.generation <= MAX_GENERATION
    ensures DecodeAsWritten(Encode(k)) == KeyData(0, 0, 0)
  {
    DecodeAsWrittenOfEncode(k);
  }

  /**
   * Two concrete keys that do not survive the round trip through the source's
   * decode: the first cell of chunk 1 comes back in chunk 0 with generation
   * 0xFFFF00, and the first cell of chunk 0 at generation 2 comes back at
   * generation 0.
   */
  lemma DecodeAsWrittenBreaksRoundTrip()
    ensures DecodeAsWritten(Encode(KeyData(0, 1, 0))) == KeyData(0, 0, 0xFF_FF00)
    ensures DecodeAsWritten(Encode(KeyData(0, 0, 2))) == KeyData(0, 0, 0)
  {
    DecodeAsWrittenFirstCell(KeyData(0, 1, 0));
    DecodeAsWrittenOrigin(KeyData(0, 0, 2));
  }

  /**
   * A cell count n below 2^40, read as a word by the decode as written:
   * the index survives, the chunk is n div 2^32 instead of n div 256, and the
   * generation is -n modulo 2^24 instead of 0.
   */
  lemma DecodeAsWrittenCount(n: nat)
    requires n < 0x100_0000_0000
    ensures DecodeAsWritten(n) == KeyData(n % SLOT_MAP_CHUNK_SIZE, n / 0x1_0000_0000, (0x100_0000 - n % 0x100_0000) % 0x100_0000)
  {
    var k := Decode(n);
    DecodeCount(n);
    EncodeDecode(n);
    DecodeAsWrittenOfEncode(k);
    assert k.indexInChunk + 0x100 * k.chunkIndex == n;
    DivModUnique(n, 0x1_0000_0000, k.chunkIndex / 0x100_0000, k.chunkIndex % 0x100_0000 * 0x100 + k.indexInChunk);
  }

  /**
   * The word 2688 (ten full chunks and half a chunk, the count of inserts in
   * the head test at src/slot_map.rs:1138-1141) decodes correctly into
   * (128, 10, 0), but as written into chunk 0 with generation 2^24 - 2688.
   */
  lemma DecodeAsWrittenMissesHead()
    ensures Decode(2688) == KeyData(128, 10, 0)
    ensures DecodeAsWritten(2688) == KeyData(128, 0, 0x100_0000 - 2688)
  {
    var n := 2688;
    assert n % SLOT_MAP_CHUNK_SIZE == 128 && n / SLOT_MAP_CHUNK_SIZE == 10;
    assert n / 0x1_0000_0000 == 0 && (0x100_0000 - n % 0x100_0000) % 0x100_0000 == 0x100_0000 - 2688;
    DecodeCount(n);
    DecodeAsWrittenCount(n);
  }
}
