/**
  * The word mixer of lib/hash.h (the branch without CRC instructions).
  *
  * Each primitive step is a function of its own with an explicit inverse, so that a composite
  * is inverted by rewriting one step at a time and no proof multiplies twice.
  */
module Mhash {

  // The multipliers of the mixer. They are odd, so multiplying by each has an inverse modulo 2^32.
  function MulA(x: bv32): bv32 { x * 0xcc9e2d51 }
  function DivA(x: bv32): bv32 { x * 0xdee13bb1 }
  function MulB(x: bv32): bv32 { x * 0x1b873593 }
  function DivB(x: bv32): bv32 { x * 0x56ed309b }
  function MulC(x: bv32): bv32 { x * 5 }
  function DivC(x: bv32): bv32 { x * 0xcccccccd }
  function MulD(x: bv32): bv32 { x * 0x85ebca6b }
  function DivD(x: bv32): bv32 { x * 0xa5cb9243 }
  function MulE(x: bv32): bv32 { x * 0xc2b2ae35 }
  function DivE(x: bv32): bv32 { x * 0x7ed1b41d }

  /** hash_rot */
  function HashRot(x: bv32, k: bv32): bv32
    requires 0 < k < 32
  {
    (x << k) | (x >> (32 - k))
  }

  /** The step `hash ^= hash >> 16`, which undoes itself. */
  function XorShift16(x: bv32): bv32 { x ^ (x >> 16) }

  function XorShift13(x: bv32): bv32 { x ^ (x >> 13) }

  function UnXorShift13(x: bv32): bv32 { x ^ (x >> 13) ^ (x >> 26) }

  function Xor(x: bv32, y: bv32): bv32 { x ^ y }

  /** What mhash_add__ makes of nonzero data before mixing it into the hash. */
  function Scramble(data: bv32): bv32 {
    MulB(HashRot(MulA(data), 15))
  }

  /** mhash_add__ */
  function MhashMix(hash: bv32, data: bv32): bv32 {
    if data == 0 then hash else Xor(hash, Scramble(data))
  }

  /** What mhash_add does to the mixed hash. */
  function Stir(hash: bv32): bv32 {
    MulC(HashRot(hash, 13)) + 0xe6546b64
  }

  /** mhash_add, which is hash_add in the branch modelled here. */
  function MhashAdd(hash: bv32, data: bv32): bv32 {
    Stir(MhashMix(hash, data))
  }

  /** mhash_finish */
  function MhashFinish(hash: bv32): bv32 {
    XorShift16(MulE(XorShift13(MulD(XorShift16(hash)))))
  }

  /** hash_finish */
  function HashFinish(hash: bv32, final: bv32): bv32 {
    MhashFinish(Xor(hash, final))
  }

  // ---- Inverses ----

  function Unscramble(d: bv32): bv32 {
    DivA(HashRot(DivB(d), 17))
  }

  function Unstir(g: bv32): bv32 {
    HashRot(DivC(g - 0xe6546b64), 19)
  }

  /** The hash that MhashAdd turns into `g` by adding `data`. */
  function UnaddHash(g: bv32, data: bv32): bv32 {
    MhashMix(Unstir(g), data)
  }

  /** The data that MhashAdd turns `hash` into `g` with. */
  function UnaddData(hash: bv32, g: bv32): bv32 {
    Unscramble(Xor(hash, Unstir(g)))
  }

  /** The hash that HashFinish turns into `g`. */
  function Unfinish(g: bv32, final: bv32): bv32 {
    Xor(XorShift16(DivD(UnXorShift13(DivE(XorShift16(g))))), final)
  }

  // Each pair of inverses is first compared on a written-out argument, which decides it by
  // simplification alone, and then composed.

  lemma ProductA(x: bv32)
    ensures DivA(x * 0xcc9e2d51) == x && MulA(x * 0xdee13bb1) == x
  {
  }

  lemma MulDivA(x: bv32)
    ensures DivA(MulA(x)) == x && MulA(DivA(x)) == x
  {
    ProductA(x);
  }

  lemma ProductB(x: bv32)
    ensures DivB(x * 0x1b873593) == x && MulB(x * 0x56ed309b) == x
  {
  }

  lemma MulDivB(x: bv32)
    ensures DivB(MulB(x)) == x && MulB(DivB(x)) == x
  {
    ProductB(x);
  }

  lemma ProductC(x: bv32)
    ensures DivC(x * 5) == x && MulC(x * 0xcccccccd) == x
  {
  }

  lemma MulDivC(x: bv32)
    ensures DivC(MulC(x)) == x && MulC(DivC(x)) == x
  {
    ProductC(x);
  }

  lemma ProductD(x: bv32)
    ensures DivD(x * 0x85ebca6b) == x && MulD(x * 0xa5cb9243) == x
  {
  }

  lemma MulDivD(x: bv32)
    ensures DivD(MulD(x)) == x && MulD(DivD(x)) == x
  {
    ProductD(x);
  }

  lemma ProductE(x: bv32)
    ensures DivE(x * 0xc2b2ae35) == x && MulE(x * 0x7ed1b41d) == x
  {
  }

  lemma MulDivE(x: bv32)
    ensures DivE(MulE(x)) == x && MulE(DivE(x)) == x
  {
    ProductE(x);
  }

  lemma Rotated15(x: bv32)
    ensures HashRot((x << 15) | (x >> 17), 17) == x && HashRot((x << 17) | (x >> 15), 15) == x
  {
  }

  lemma RotateBack15(x: bv32)
    ensures HashRot(HashRot(x, 15), 17) == x && HashRot(HashRot(x, 17), 15) == x
  {
    Rotated15(x);
  }

  lemma Rotated13(x: bv32)
    ensures HashRot((x << 13) | (x >> 19), 19) == x && HashRot((x << 19) | (x >> 13), 13) == x
  {
  }

  lemma RotateBack13(x: bv32)
    ensures HashRot(HashRot(x, 13), 19) == x && HashRot(HashRot(x, 19), 13) == x
  {
    Rotated13(x);
  }

  lemma Shifted(x: bv32)
    ensures XorShift16(x ^ (x >> 16)) == x
    ensures XorShift13(x ^ (x >> 13) ^ (x >> 26)) == x && UnXorShift13(x ^ (x >> 13)) == x
  {
  }

  lemma XorShiftBack(x: bv32)
    ensures XorShift16(XorShift16(x)) == x
    ensures UnXorShift13(XorShift13(x)) == x && XorShift13(UnXorShift13(x)) == x
  {
    Shifted(x);
  }

  lemma XorTwice(x: bv32, y: bv32)
    ensures Xor(x, Xor(x, y)) == y && Xor(Xor(x, y), y) == x
  {
  }

  /** Zero data may skip the scrambling: it would change nothing. */
  lemma ZeroShortcut(hash: bv32, data: bv32)
    ensures MhashMix(hash, data) == Xor(hash, Scramble(data))
  {
    if data == 0 {
      calc { Scramble(0); MulB(HashRot(0 * 0xcc9e2d51, 15)); MulB(0); 0; }
    }
  }

  lemma ScrambleBijective(d: bv32)
    ensures Unscramble(Scramble(d)) == d && Scramble(Unscramble(d)) == d
  {
    MulDivA(d);
    RotateBack15(MulA(d));
    MulDivB(HashRot(MulA(d), 15));

    MulDivB(d);
    RotateBack15(DivB(d));
    MulDivA(HashRot(DivB(d), 17));
  }

  lemma PlusMinus(x: bv32)
    ensures (x + 0xe6546b64) - 0xe6546b64 == x && (x - 0xe6546b64) + 0xe6546b64 == x
  {
  }

  lemma StirBijective(x: bv32)
    ensures Unstir(Stir(x)) == x && Stir(Unstir(x)) == x
  {
    RotateBack13(x);
    MulDivC(HashRot(x, 13));
    PlusMinus(MulC(HashRot(x, 13)));

    PlusMinus(x);
    MulDivC(x - 0xe6546b64);
    RotateBack13(DivC(x - 0xe6546b64));
  }

  /** Mixing the same data in again takes it out. */
  lemma MixTwice(hash: bv32, data: bv32)
    ensures MhashMix(MhashMix(hash, data), data) == hash
  {
    ZeroShortcut(hash, data);
    ZeroShortcut(MhashMix(hash, data), data);
    XorTwice(hash, Scramble(data));
  }

  /** Adding fixed data is a bijection of hashes. */
  lemma AddBijectiveInHash(hash: bv32, data: bv32)
    ensures UnaddHash(MhashAdd(hash, data), data) == hash && MhashAdd(UnaddHash(hash, data), data) == hash
  {
    StirBijective(MhashMix(hash, data));
    MixTwice(hash, data);

    MixTwice(Unstir(hash), data);
    StirBijective(hash);
  }

  /** To a fixed hash, adding is a bijection of data. */
  lemma AddBijectiveInData(hash: bv32, data: bv32)
    ensures UnaddData(hash, MhashAdd(hash, data)) == data && MhashAdd(hash, UnaddData(hash, data)) == data
  {
    StirBijective(MhashMix(hash, data));
    ZeroShortcut(hash, data);
    XorTwice(hash, Scramble(data));
    ScrambleBijective(data);

    var d := Xor(hash, Unstir(data));
    ZeroShortcut(hash, Unscramble(d));
    ScrambleBijective(d);
    XorTwice(hash, Unstir(data));
    StirBijective(data);
  }

  lemma UnfinishFinish(hash: bv32, final: bv32)
    ensures Unfinish(HashFinish(hash, final), final) == hash
  {
    var h1 := XorShift16(Xor(hash, final));
    var h3 := XorShift13(MulD(h1));
    XorShiftBack(Xor(hash, final));
    MulDivD(h1);
    XorShiftBack(MulD(h1));
    MulDivE(h3);
    XorShiftBack(MulE(h3));
    XorTwice(hash, final);
  }

  lemma FinishUnfinish(g: bv32, final: bv32)
    ensures HashFinish(Unfinish(g, final), final) == g
  {
    var g1 := XorShift16(g);
    var g3 := UnXorShift13(DivE(g1));
    XorShiftBack(g);
    MulDivE(g1);
    XorShiftBack(DivE(g1));
    MulDivD(g3);
    XorShiftBack(DivD(g3));
    XorTwice(XorShift16(DivD(g3)), final);
  }
}
