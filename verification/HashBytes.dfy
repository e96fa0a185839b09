/** lib/hash.c and the accumulating loops of lib/hash.h, on a little-endian host. */
module HashBytes {

  import opened Mhash

  /** The low 32 bits of a size_t, as a `final` argument. */
  function Low32(n: nat): bv32 {
    (n % 0x1_0000_0000) as bv32
  }

  // ---- Words ----

  function AddWords(hash: bv32, p: seq<bv32>): bv32
    decreases |p|
  {
    if p == [] then hash else AddWords(MhashAdd(hash, p[0]), p[1..])
  }

  /** hash_words */
  function WordsHash(p: seq<bv32>, basis: bv32): bv32 {
    HashFinish(AddWords(basis, p), Low32(|p| * 4))
  }

  /** hash_add_words */
  method HashAddWords(start: bv32, p: seq<bv32>) returns (hash: bv32)
    ensures hash == AddWords(start, p)
  {
    hash := start;
    for i := 0 to |p|
      invariant AddWords(hash, p[i..]) == AddWords(start, p)
    {
      hash := MhashAdd(hash, p[i]);
    }
  }

  /** The two halves of 64-bit words, low half first. */
  function Halves(p: seq<bv64>): (r: seq<bv32>)
    ensures |r| == 2 * |p|
  {
    if p == [] then [] else [Low(p[0]), High(p[0])] + Halves(p[1..])
  }

  function Low(data: bv64): bv32 {
    (data & 0xffff_ffff) as bv32
  }

  function High(data: bv64): bv32 {
    (data >> 32) as bv32
  }

  lemma LowHigh(data: bv64)
    ensures (Low(data) as bv64) | ((High(data) as bv64) << 32) == data
  {
  }

  /** The low half of each word comes first, and the order of the words is kept. */
  lemma {:induction false} HalvesAt(p: seq<bv64>, i: nat)
    requires i < |p|
    ensures Halves(p)[2 * i] == Low(p[i]) && Halves(p)[2 * i + 1] == High(p[i])
  {
    if i > 0 {
      HalvesAt(p[1..], i - 1);
      assert Halves(p)[2 * i] == Halves(p[1..])[2 * (i - 1)];
      assert Halves(p)[2 * i + 1] == Halves(p[1..])[2 * (i - 1) + 1];
    }
  }

  /** hash_add64 */
  function HashAdd64(hash: bv32, data: bv64): bv32 {
    MhashAdd(MhashAdd(hash, Low(data)), High(data))
  }

  lemma AddHalves(hash: bv32, p: seq<bv64>)
    requires p != []
    ensures AddWords(hash, Halves(p)) == AddWords(HashAdd64(hash, p[0]), Halves(p[1..]))
  {
    var words := Halves(p);
    assert words[1..][1..] == Halves(p[1..]);
    calc {
      AddWords(hash, words);
      AddWords(MhashAdd(hash, Low(p[0])), words[1..]);
      AddWords(HashAdd64(hash, p[0]), words[1..][1..]);
    }
  }

  /** hash_add_words64 adds the halves of its words. */
  method HashAddWords64(start: bv32, p: seq<bv64>) returns (hash: bv32)
    ensures hash == AddWords(start, Halves(p))
  {
    hash := start;
    for i := 0 to |p|
      invariant AddWords(hash, Halves(p[i..])) == AddWords(start, Halves(p))
    {
      AddHalves(hash, p[i..]);
      assert p[i..][1..] == p[i + 1..];
      hash := HashAdd64(hash, p[i]);
    }
  }

  /** hash_words64: the same as hash_words over the halves. */
  method HashWords64(p: seq<bv64>, basis: bv32) returns (hash: bv32)
    ensures hash == WordsHash(Halves(p), basis)
  {
    hash := HashAddWords64(basis, p);
    assert |Halves(p)| * 4 == |p| * 8;
    hash := HashFinish(hash, Low32(|p| * 8));
  }

  // ---- Bytes ----

  function Byte(p: seq<bv8>, i: nat): bv8 {
    if i < |p| then p[i] else 0
  }

  function Pack(b0: bv8, b1: bv8, b2: bv8, b3: bv8): bv32 {
    b0 as bv32 | (b1 as bv32 << 8) | (b2 as bv32 << 16) | (b3 as bv32 << 24)
  }

  function Unpack(w: bv32): (b: seq<bv8>)
    ensures |b| == 4
  {
    [(w & 0xff) as bv8, ((w >> 8) & 0xff) as bv8, ((w >> 16) & 0xff) as bv8, (w >> 24) as bv8]
  }

  lemma PackUnpack(w: bv32)
    ensures FirstWord(Unpack(w)) == w
  {
  }

  lemma UnpackPack(b0: bv8, b1: bv8, b2: bv8, b3: bv8)
    ensures Unpack(Pack(b0, b1, b2, b3)) == [b0, b1, b2, b3]
  {
  }

  /** The first four bytes, or all of them padded with zeros. */
  function FirstWord(p: seq<bv8>): bv32 {
    Pack(Byte(p, 0), Byte(p, 1), Byte(p, 2), Byte(p, 3))
  }

  function Rest(p: seq<bv8>): seq<bv8> {
    if |p| <= 4 then [] else p[4..]
  }

  function WordsOf(p: seq<bv8>): (r: seq<bv32>)
    ensures |r| == (|p| + 3) / 4
    decreases |p|
  {
    if p == [] then [] else [FirstWord(p)] + WordsOf(Rest(p))
  }

  /** hash_bytes, as a function: the words of `p`, the last one padded, then the length. */
  function BytesHash(p: seq<bv8>, basis: bv32): bv32 {
    HashFinish(AddWords(basis, WordsOf(p)), Low32(|p|))
  }

  /** hash_bytes */
  method Hash(p: seq<bv8>, basis: bv32) returns (hash: bv32)
    ensures hash == BytesHash(p, basis)
  {
    var n: nat, at: nat := |p|, 0;
    hash := basis;
    while n >= 4
      invariant at + n == |p|
      invariant AddWords(hash, WordsOf(p[at..])) == AddWords(basis, WordsOf(p))
    {
      assert Rest(p[at..]) == p[at + 4..];
      assert WordsOf(p[at..])[1..] == WordsOf(p[at + 4..]);
      hash := MhashAdd(hash, Pack(p[at], p[at + 1], p[at + 2], p[at + 3]));
      n, at := n - 4, at + 4;
    }
    if n != 0 {
      var tail := p[at..];
      assert WordsOf(tail)[1..] == [];
      hash := MhashAdd(hash, FirstWord(tail));
    }
    hash := HashFinish(hash, Low32(|p|));
  }

  // ---- Collisions ----

  lemma {:induction false} AddWordsAppend(hash: bv32, p: seq<bv32>, q: seq<bv32>)
    ensures AddWords(hash, p + q) == AddWords(AddWords(hash, p), q)
    decreases |p|
  {
    if p == [] {
      assert p + q == q;
    } else {
      assert (p + q)[1..] == p[1..] + q;
      AddWordsAppend(MhashAdd(hash, p[0]), p[1..], q);
    }
  }

  /** The hash that adding `p` turns into `g`. */
  function UnaddWords(g: bv32, p: seq<bv32>): bv32 {
    if p == [] then g else UnaddHash(UnaddWords(g, p[1..]), p[0])
  }

  /** Adding fixed words is a bijection of hashes. */
  lemma {:induction false} AddWordsBijective(hash: bv32, p: seq<bv32>)
    ensures UnaddWords(AddWords(hash, p), p) == hash && AddWords(UnaddWords(hash, p), p) == hash
    decreases |p|
  {
    if p != [] {
      var next := MhashAdd(hash, p[0]);
      AddWordsBijective(next, p[1..]);
      AddBijectiveInHash(hash, p[0]);

      var back := UnaddWords(hash, p[1..]);
      AddWordsBijective(hash, p[1..]);
      AddBijectiveInHash(back, p[0]);
    }
  }

  /** Word `j` that makes the words `p[j := _]` hash to `g` from `basis`. */
  function WordFor(p: seq<bv32>, j: nat, basis: bv32, final: bv32, g: bv32): bv32
    requires j < |p|
  {
    UnaddData(AddWords(basis, p[..j]), UnaddWords(Unfinish(g, final), p[j + 1..]))
  }

  /** Whatever the other words are, exactly one value of word `j` gives each hash. */
  lemma OneWordGives(p: seq<bv32>, j: nat, basis: bv32, final: bv32, g: bv32)
    requires j < |p|
    ensures HashFinish(AddWords(basis, p), final) == g <==> p[j] == WordFor(p, j, basis, final, g)
  {
    var before, after := AddWords(basis, p[..j]), p[j + 1..];
    assert p == p[..j] + ([p[j]] + after);
    AddWordsAppend(basis, p[..j], [p[j]] + after);
    assert ([p[j]] + after)[1..] == after;
    var here := MhashAdd(before, p[j]);
    assert AddWords(basis, p) == AddWords(here, after);

    AddBijectiveInData(before, p[j]);
    AddWordsBijective(here, after);
    UnfinishFinish(AddWords(here, after), final);

    var there := UnaddWords(Unfinish(g, final), after);
    AddBijectiveInData(before, there);
    AddWordsBijective(Unfinish(g, final), after);
    FinishUnfinish(g, final);
  }

  /** Two words that finish alike from bases that differ nowhere else are the same word. */
  lemma OneWordDecides(p: seq<bv32>, q: seq<bv32>, j: nat, basis: bv32, final: bv32)
    requires j < |p| == |q| && q == p[j := q[j]]
    ensures HashFinish(AddWords(basis, p), final) == HashFinish(AddWords(basis, q), final) <==> p == q
  {
    assert q[..j] == p[..j] && q[j + 1..] == p[j + 1..];
    var g := HashFinish(AddWords(basis, q), final);
    OneWordGives(p, j, basis, final, g);
    OneWordGives(q, j, basis, final, g);
    assert p[j] == q[j] ==> p == q;
  }

  lemma {:induction false} WordsAt(p: seq<bv8>, j: nat)
    requires 4 * j < |p|
    ensures WordsOf(p)[j] == Pack(Byte(p, 4 * j), Byte(p, 4 * j + 1), Byte(p, 4 * j + 2), Byte(p, 4 * j + 3))
    decreases j
  {
    if j > 0 {
      WordsAt(Rest(p), j - 1);
    }
  }

  ghost predicate AgreeOutside(p: seq<bv8>, q: seq<bv8>, j: nat) {
    |p| == |q| && forall i: nat | i < |p| && i / 4 != j :: p[i] == q[i]
  }

  lemma WordsAgree(p: seq<bv8>, q: seq<bv8>, j: nat)
    requires 4 * j < |p| && AgreeOutside(p, q, j)
    ensures WordsOf(q) == WordsOf(p)[j := WordsOf(q)[j]]
  {
    forall k: nat | k < |WordsOf(p)| && k != j ensures WordsOf(p)[k] == WordsOf(q)[k] {
      WordsAt(p, k);
      WordsAt(q, k);
      assert Byte(p, 4 * k) == Byte(q, 4 * k) && Byte(p, 4 * k + 1) == Byte(q, 4 * k + 1);
      assert Byte(p, 4 * k + 2) == Byte(q, 4 * k + 2) && Byte(p, 4 * k + 3) == Byte(q, 4 * k + 3);
    }
  }

  lemma PackInjective(a0: bv8, a1: bv8, a2: bv8, a3: bv8, b0: bv8, b1: bv8, b2: bv8, b3: bv8)
    requires Pack(a0, a1, a2, a3) == Pack(b0, b1, b2, b3)
    ensures a0 == b0 && a1 == b1 && a2 == b2 && a3 == b3
  {
    UnpackPack(a0, a1, a2, a3);
    UnpackPack(b0, b1, b2, b3);
    assert [a0, a1, a2, a3] == [b0, b1, b2, b3];
  }

  lemma WordDecidesBytes(p: seq<bv8>, q: seq<bv8>, j: nat)
    requires 4 * j < |p| && 4 * j < |q| && WordsOf(p)[j] == WordsOf(q)[j]
    ensures Byte(p, 4 * j) == Byte(q, 4 * j) && Byte(p, 4 * j + 1) == Byte(q, 4 * j + 1)
    ensures Byte(p, 4 * j + 2) == Byte(q, 4 * j + 2) && Byte(p, 4 * j + 3) == Byte(q, 4 * j + 3)
  {
    WordsAt(p, j);
    WordsAt(q, j);
    PackInjective(Byte(p, 4 * j), Byte(p, 4 * j + 1), Byte(p, 4 * j + 2), Byte(p, 4 * j + 3),
      Byte(q, 4 * j), Byte(q, 4 * j + 1), Byte(q, 4 * j + 2), Byte(q, 4 * j + 3));
  }

  lemma WordDecidesBlock(p: seq<bv8>, q: seq<bv8>, j: nat)
    requires 4 * j < |p| && AgreeOutside(p, q, j) && WordsOf(p)[j] == WordsOf(q)[j]
    ensures p == q
  {
    WordDecidesBytes(p, q, j);
    forall i: nat | i < |p| ensures p[i] == q[i] {
      if i / 4 == j {
        assert i == 4 * j || i == 4 * j + 1 || i == 4 * j + 2 || i == 4 * j + 3;
        assert Byte(p, i) == Byte(q, i);
      }
    }
  }

  /** Equal-length strings that differ in one aligned block, or only in the tail, never collide. */
  lemma OneBlockDecides(p: seq<bv8>, q: seq<bv8>, j: nat, basis: bv32)
    requires 4 * j < |p| && AgreeOutside(p, q, j)
    ensures BytesHash(p, basis) == BytesHash(q, basis) <==> p == q
  {
    WordsAgree(p, q, j);
    OneWordDecides(WordsOf(p), WordsOf(q), j, basis, Low32(|p|));
    if WordsOf(p) == WordsOf(q) {
      WordDecidesBlock(p, q, j);
    }
  }

  /** Names of one length, at most four bytes, never collide. */
  lemma ShortNames(p: seq<bv8>, q: seq<bv8>, basis: bv32)
    requires |p| == |q| <= 4
    ensures BytesHash(p, basis) == BytesHash(q, basis) <==> p == q
  {
    if p != [] {
      OneBlockDecides(p, q, 0, basis);
    } else {
      assert p == q;
    }
  }

  function Patch(p: seq<bv8>, j: nat, block: seq<bv8>): (q: seq<bv8>)
    requires 4 * j + 4 <= |p| && |block| == 4
    ensures |q| == |p|
  {
    p[..4 * j] + block + p[4 * j + 4..]
  }

  lemma PatchAgrees(p: seq<bv8>, j: nat, block: seq<bv8>)
    requires 4 * j + 4 <= |p| && |block| == 4
    ensures AgreeOutside(p, Patch(p, j, block), j)
    ensures WordsOf(Patch(p, j, block))[j] == FirstWord(block)
  {
    var q := Patch(p, j, block);
    forall i: nat | i < |p| && i / 4 != j ensures p[i] == q[i] {
      assert i < 4 * j || i >= 4 * j + 4;
    }
    WordsAt(q, j);
  }

  /** The block that makes `p` hash to `g` when it replaces block `j`. */
  function BlockFor(p: seq<bv8>, j: nat, basis: bv32, g: bv32): (block: seq<bv8>)
    requires 4 * j + 4 <= |p|
    ensures |block| == 4
  {
    Unpack(WordFor(WordsOf(p), j, basis, Low32(|p|), g))
  }

  /** The word that gives a hash does not depend on the word it replaces. */
  lemma WordForOther(p: seq<bv32>, q: seq<bv32>, j: nat, basis: bv32, final: bv32, g: bv32)
    requires j < |p| == |q| && q == p[j := q[j]]
    ensures WordFor(p, j, basis, final, g) == WordFor(q, j, basis, final, g)
  {
    assert q[..j] == p[..j] && q[j + 1..] == p[j + 1..];
  }

  lemma BlockIsWord(block: seq<bv8>, w: bv32)
    requires |block| == 4
    ensures FirstWord(block) == w <==> block == Unpack(w)
  {
    PackUnpack(w);
    UnpackPack(block[0], block[1], block[2], block[3]);
  }

  /** Each of the 2^32 hashes is reached by exactly one value of any full block. */
  lemma OneBlockGives(p: seq<bv8>, j: nat, basis: bv32, g: bv32, block: seq<bv8>)
    requires 4 * j + 4 <= |p| && |block| == 4
    ensures BytesHash(Patch(p, j, block), basis) == g <==> block == BlockFor(p, j, basis, g)
  {
    var q, final := Patch(p, j, block), Low32(|p|);
    PatchAgrees(p, j, block);
    WordsAgree(p, q, j);
    OneWordGives(WordsOf(q), j, basis, final, g);
    WordForOther(WordsOf(p), WordsOf(q), j, basis, final, g);
    BlockIsWord(block, WordFor(WordsOf(p), j, basis, final, g));
  }

  /** One block is all that can be promised: with two full blocks every string has a collision. */
  lemma TwoBlocksCollide(p: seq<bv8>, basis: bv32) returns (q: seq<bv8>)
    requires |p| >= 8
    ensures q != p && |q| == |p| && q[8..] == p[8..]
    ensures BytesHash(q, basis) == BytesHash(p, basis)
  {
    var first := Patch(p, 0, [p[0] ^ 1, p[1], p[2], p[3]]);
    var block := BlockFor(first, 1, basis, BytesHash(p, basis));
    OneBlockGives(first, 1, basis, BytesHash(p, basis), block);
    q := Patch(first, 1, block);
    assert q[0] == p[0] ^ 1 && q[0] != p[0];
  }

  /** For a fixed string the hash is a bijection of the basis. */
  lemma BasisDecides(p: seq<bv8>, basis: bv32, g: bv32)
    ensures BytesHash(p, basis) == g <==> basis == UnaddWords(Unfinish(g, Low32(|p|)), WordsOf(p))
  {
    AddWordsBijective(basis, WordsOf(p));
    UnfinishFinish(AddWords(basis, WordsOf(p)), Low32(|p|));
    FinishUnfinish(g, Low32(|p|));
    AddWordsBijective(Unfinish(g, Low32(|p|)), WordsOf(p));
  }

  // ---- Bytes and words ----

  /** The words as they lie in memory. */
  function Image(p: seq<bv32>): (r: seq<bv8>)
    ensures |r| == 4 * |p|
  {
    if p == [] then [] else Unpack(p[0]) + Image(p[1..])
  }

  lemma {:induction false} WordsOfImage(p: seq<bv32>)
    ensures WordsOf(Image(p)) == p
  {
    if p != [] {
      var image := Image(p);
      PackUnpack(p[0]);
      assert image[..4] == Unpack(p[0]);
      assert Rest(image) == Image(p[1..]);
      WordsOfImage(p[1..]);
    }
  }

  ghost function Zeros(n: nat): (z: seq<bv8>)
    ensures |z| == n && forall i :: 0 <= i < n ==> z[i] == 0
  {
    seq(n, _ => 0)
  }

  /** The bytes of the first word, the padding included. */
  lemma FirstBlock(p: seq<bv8>)
    requires p != []
    ensures Unpack(FirstWord(p)) == if |p| >= 4 then p[..4] else p + Zeros(4 - |p|)
  {
    UnpackPack(Byte(p, 0), Byte(p, 1), Byte(p, 2), Byte(p, 3));
  }

  lemma FillRest(n: nat)
    ensures (4 - (n + 4) % 4) % 4 == (4 - n % 4) % 4
    ensures 0 < n < 4 ==> (4 - n % 4) % 4 == 4 - n
  {
  }

  lemma ImageFirst(p: seq<bv8>)
    requires p != []
    ensures Image(WordsOf(p)) == Unpack(FirstWord(p)) + Image(WordsOf(Rest(p)))
  {
    assert WordsOf(p)[1..] == WordsOf(Rest(p));
  }

  lemma FirstFour(p: seq<bv8>, zeros: seq<bv8>)
    requires |p| >= 4
    ensures p[..4] + (Rest(p) + zeros) == p + zeros
  {
    if |p| == 4 {
      assert p[..4] == p && [] + zeros == zeros;
    }
  }

  /** Up to four bytes are one word. */
  lemma {:induction false} ImageOfOneWord(p: seq<bv8>)
    requires 0 < |p| < 4
    ensures Image(WordsOf(p)) == p + Zeros((4 - |p| % 4) % 4)
  {
    FirstBlock(p);
    ImageFirst(p);
    FillRest(|p|);
    assert Image(WordsOf([])) == [];
  }

  /** The words are the bytes in order, with as many zeros at the end as complete the last word. */
  lemma {:induction false} ImageOfWords(p: seq<bv8>)
    ensures Image(WordsOf(p)) == p + Zeros((4 - |p| % 4) % 4)
    decreases |p|
  {
    if p == [] {
      assert Zeros(0) == [];
    } else if |p| < 4 {
      ImageOfOneWord(p);
    } else {
      FirstBlock(p);
      ImageFirst(p);
      ImageOfWords(Rest(p));
      FillRest(|p| - 4);
      FirstFour(p, Zeros((4 - |p| % 4) % 4));
    }
  }

  lemma {:induction false} ImageOfWholeWords(p: seq<bv8>)
    requires |p| % 4 == 0
    ensures Image(WordsOf(p)) == p
  {
    ImageOfWords(p);
    assert p + Zeros(0) == p;
  }

  /** hash_bytes over the memory of an array of words is hash_words over the array. */
  lemma BytesHashOfWords(p: seq<bv32>, basis: bv32)
    ensures BytesHash(Image(p), basis) == WordsHash(p, basis)
  {
    WordsOfImage(p);
  }

  /** And any whole number of words in memory is such an array. */
  lemma WordsHashOfBytes(p: seq<bv8>, basis: bv32)
    requires |p| % 4 == 0
    ensures BytesHash(p, basis) == WordsHash(WordsOf(p), basis)
  {
    ImageOfWholeWords(p);
    BytesHashOfWords(WordsOf(p), basis);
  }

  // ---- Fixed numbers of words ----

  /** hash_2words */
  function Hash2Words(x: bv32, y: bv32): bv32 {
    HashFinish(MhashAdd(MhashAdd(x, 0), y), 8)
  }

  /** hash_3words */
  function Hash3Words(a: bv32, b: bv32, c: bv32): bv32 {
    HashFinish(MhashAdd(MhashAdd(MhashAdd(a, 0), b), c), 12)
  }

  lemma AddFirst(hash: bv32, word: bv32, p: seq<bv32>)
    ensures AddWords(hash, [word] + p) == AddWords(MhashAdd(hash, word), p)
  {
    assert ([word] + p)[1..] == p;
  }

  lemma Add3(a: bv32, b: bv32, c: bv32)
    ensures AddWords(a, [0, b, c]) == MhashAdd(MhashAdd(MhashAdd(a, 0), b), c)
  {
    assert [0, b, c] == [0] + ([b] + ([c] + []));
    AddFirst(a, 0, [b] + ([c] + []));
    AddFirst(MhashAdd(a, 0), b, [c] + []);
    AddFirst(MhashAdd(MhashAdd(a, 0), b), c, []);
  }

  /** The length enters the hash modulo 2^32, */
  lemma Low32Same(m: nat, n: nat)
    requires m % 0x1_0000_0000 == n % 0x1_0000_0000
    ensures Low32(m) == Low32(n)
  {
  }

  /** and lengths below that as they are. */
  lemma Low32Value(w: bv32, n: nat)
    requires n == w as nat && n < 0x1_0000_0000
    ensures Low32(n) == w
  {
    assert (w as nat) as bv32 == w;
  }

  lemma FinishWords(p: seq<bv32>, basis: bv32, hash: bv32, final: bv32)
    requires AddWords(basis, p) == hash && Low32(|p| * 4) == final
    ensures WordsHash(p, basis) == HashFinish(hash, final)
  {
  }

  lemma Hash3WordsIsWordsHash(a: bv32, b: bv32, c: bv32)
    ensures Hash3Words(a, b, c) == WordsHash([0, b, c], a)
  {
    Add3(a, b, c);
    Low32Value(12, 12);
    FinishWords([0, b, c], a, MhashAdd(MhashAdd(MhashAdd(a, 0), b), c), 12);
  }

  lemma Add2(x: bv32, y: bv32)
    ensures AddWords(x, [0, y]) == MhashAdd(MhashAdd(x, 0), y)
  {
    assert [0, y] == [0] + ([y] + []);
    AddFirst(x, 0, [y] + []);
    AddFirst(MhashAdd(x, 0), y, []);
  }

  lemma Hash2WordsIsWordsHash(x: bv32, y: bv32)
    ensures Hash2Words(x, y) == WordsHash([0, y], x)
  {
    Add2(x, y);
    Low32Value(8, 8);
    FinishWords([0, y], x, MhashAdd(MhashAdd(x, 0), y), 8);
  }

  /** A string of at most four bytes is one word. */
  lemma OneWordHash(p: seq<bv8>, w: bv32, basis: bv32, final: bv32)
    requires 0 < |p| <= 4 && FirstWord(p) == w && Low32(|p|) == final
    ensures BytesHash(p, basis) == HashFinish(MhashAdd(basis, w), final)
  {
    assert WordsOf(p) == [w] + [];
    AddFirst(basis, w, []);
  }

  lemma VectorWords()
    ensures FirstWord([0x21, 0x43, 0x65, 0x87]) == 0x87654321 && FirstWord([0x6c, 0x6f]) == 0x6f6c
  {
  }

  lemma VectorHashes()
    ensures HashFinish(MhashAdd(0, 0x87654321), 4) == 0xf55b516b
    ensures HashFinish(MhashAdd(0x5082edee, 0x87654321), 4) == 0x2362f9de
    ensures HashFinish(MhashAdd(0, 0x6f6c), 2) == 0x576e7ddc
  {
  }

  /** Two test vectors of MurmurHash3_x86_32, which hash_bytes agrees with on whole words, and the hash of
      "lo", where it does not: a tail is one more word here, completed with zeros. */
  lemma HashVectors()
    ensures BytesHash([0x21, 0x43, 0x65, 0x87], 0) == 0xf55b516b
    ensures BytesHash([0x21, 0x43, 0x65, 0x87], 0x5082edee) == 0x2362f9de
    ensures BytesHash([0x6c, 0x6f], 0) == 0x576e7ddc
  {
    VectorWords();
    VectorHashes();
    Low32Value(2, 2);
    Low32Value(4, 4);
    OneWordHash([0x21, 0x43, 0x65, 0x87], 0x87654321, 0, 4);
    OneWordHash([0x21, 0x43, 0x65, 0x87], 0x87654321, 0x5082edee, 4);
    OneWordHash([0x6c, 0x6f], 0x6f6c, 0, 2);
  }

  /** hash_boolean's constants are annotated as hash_int(1, 0) and hash_int(2, 0); with this mixer
      they are neither. */
  lemma HashBooleanConstants()
    ensures Hash2Words(1, 0) == 0xea95647d != 0xc2b73583
    ensures Hash2Words(2, 0) == 0xa1cba8ce != 0xe90f1258
  {
  }

  lemma FinishDecides(x: bv32, y: bv32, data: bv32)
    ensures HashFinish(MhashAdd(x, data), 12) == HashFinish(MhashAdd(y, data), 12) <==> x == y
  {
    UnfinishFinish(MhashAdd(x, data), 12);
    UnfinishFinish(MhashAdd(y, data), 12);
    AddBijectiveInHash(x, data);
    AddBijectiveInHash(y, data);
  }

  lemma Add2Decides(x: bv32, y: bv32, b: bv32, c: bv32)
    ensures HashFinish(MhashAdd(MhashAdd(x, b), c), 12) == HashFinish(MhashAdd(MhashAdd(y, b), c), 12) <==> x == y
  {
    FinishDecides(MhashAdd(x, b), MhashAdd(y, b), c);
    AddBijectiveInHash(x, b);
    AddBijectiveInHash(y, b);
  }

  /** hash_3words is a bijection of each argument. */
  lemma Hash3WordsDecides(a: bv32, b: bv32, c: bv32, d: bv32)
    ensures Hash3Words(a, b, c) == Hash3Words(d, b, c) <==> a == d
    ensures Hash3Words(a, b, c) == Hash3Words(a, d, c) <==> b == d
    ensures Hash3Words(a, b, c) == Hash3Words(a, b, d) <==> c == d
  {
    var a1, d1 := MhashAdd(a, 0), MhashAdd(d, 0);
    Add2Decides(a1, d1, b, c);
    AddBijectiveInHash(a, 0);
    AddBijectiveInHash(d, 0);

    AddBijectiveInData(a1, b);
    AddBijectiveInData(a1, d);
    FinishDecides(MhashAdd(a1, b), MhashAdd(a1, d), c);

    var b1 := MhashAdd(a1, b);
    AddBijectiveInData(b1, c);
    AddBijectiveInData(b1, d);
    UnfinishFinish(MhashAdd(b1, c), 12);
    UnfinishFinish(MhashAdd(b1, d), 12);
  }
}
