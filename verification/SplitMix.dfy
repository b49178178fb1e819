/** The payload generator of src/meter.rs: splitmix64 run over a buffer in
    8-byte chunks, with a tail. */
module SplitMix {
  import opened Bytes

  // ---- The integer a 64-bit word denotes ------------------------------------

  // The word operations have names so that a proof above the bit level can hide them.

  function Half(z: bv64): bv64 { z >> 1 }

  predicate IsOdd(z: bv64) { z & 1 == 1 }

  function Next(z: bv64): bv64 { z + 1 }

  function Plus(x: bv64, y: bv64): bv64 { x + y }

  /** The integer that the word z denotes, read bit by bit. The conversions that
      are built into the language are too costly for the solver at this width. */
  function Val(z: bv64): nat
    decreases z
  {
    if z == 0 then 0 else 2 * Val(Half(z)) + (if IsOdd(z) then 1 else 0)
  }

  /** The word that n denotes modulo 2^64: a counter bumped n times. */
  function Bv(n: nat): bv64 {
    if n == 0 then 0 else Next(Bv(n - 1))
  }

  const ALL_ONES: bv64 := 0xFFFF_FFFF_FFFF_FFFF

  lemma ValStep(z: bv64)
    ensures Val(z) == 2 * Val(Half(z)) + (if IsOdd(z) then 1 else 0)
  {
    if z == 0 {
      assert Half(z) == 0;
    }
  }

  lemma OddNext(z: bv64, h: bv64)
    requires h == Half(z)
    ensures IsOdd(z) ==> !IsOdd(Next(z)) && h != ALL_ONES && z != 0
    ensures IsOdd(z) && z != ALL_ONES ==> Half(Next(z)) == Next(h)
    ensures z == ALL_ONES ==> Next(z) == 0
  {
  }

  lemma EvenNext(z: bv64, h: bv64)
    requires h == Half(z)
    ensures !IsOdd(z) ==> IsOdd(Next(z)) && Half(Next(z)) == h
  {
  }

  lemma HalfShrinks(z: bv64)
    requires z != 0
    ensures Half(z) < z
  {
  }

  lemma SameHalfAndBit(z: bv64, y: bv64)
    requires Half(z) == Half(y) && IsOdd(z) == IsOdd(y)
    ensures z == y
  {
  }

  lemma HalfAndBitZero(z: bv64)
    requires Half(z) == 0 && !IsOdd(z)
    ensures z == 0
  {
  }

  lemma {:induction false} ValSucc(z: bv64)
    requires z != ALL_ONES
    ensures Val(Next(z)) == Val(z) + 1
    decreases Val(z)
  {
    hide Val, Half, IsOdd, Next, ALL_ONES;
    ValStep(z);
    ValStep(Next(z));
    OddNext(z, Half(z));
    EvenNext(z, Half(z));
    if IsOdd(z) {
      ValSucc(Half(z));
    }
  }

  lemma {:induction false} ValZero(z: bv64)
    requires Val(z) == 0
    ensures z == 0
    decreases z
  {
    if z != 0 {
      HalfShrinks(z);
      ValStep(z);
      ValZero(Half(z));
      HalfAndBitZero(z);
    }
  }

  lemma {:induction false} ValInjective(z: bv64, y: bv64)
    requires Val(z) == Val(y)
    ensures z == y
    decreases z
  {
    if z == 0 {
      ValZero(y);
    } else {
      HalfShrinks(z);
      ValStep(z);
      ValStep(y);
      hide Val, Half, IsOdd;
      ValInjective(Half(z), Half(y));
      SameHalfAndBit(z, y);
    }
  }

  lemma NibbleShift(z: bv64)
    ensures Half(Half(Half(Half(z)))) == z >> 4
  {
  }

  lemma NibbleBits(z: bv64)
    requires z & 0xF == 0xF
    ensures IsOdd(z) && IsOdd(Half(z)) && IsOdd(Half(Half(z))) && IsOdd(Half(Half(Half(z))))
  {
  }

  lemma ValNibble(z: bv64)
    ensures Val(z) <= 16 * Val(z >> 4) + 15
    ensures z & 0xF == 0xF ==> Val(z) == 16 * Val(z >> 4) + 15
  {
    NibbleShift(z);
    if z & 0xF == 0xF {
      NibbleBits(z);
    }
    hide Half, IsOdd;
    ValStep(z);
    ValStep(Half(z));
    ValStep(Half(Half(z)));
    ValStep(Half(Half(Half(z))));
    hide Val;
  }

  lemma ByteShift(z: bv64)
    ensures (z >> 4) >> 4 == z >> 8
    ensures z & 0xFF == 0xFF ==> z & 0xF == 0xF && (z >> 4) & 0xF == 0xF
  {
  }

  lemma ValByte(z: bv64)
    ensures Val(z) <= 256 * Val(z >> 8) + 255
    ensures z & 0xFF == 0xFF ==> Val(z) == 256 * Val(z >> 8) + 255
  {
    ByteShift(z);
    ValNibble(z);
    ValNibble(z >> 4);
    hide Val;
  }

  lemma HalfWordShift(z: bv64)
    ensures (z >> 8) >> 8 == z >> 16
    ensures z & 0xFFFF == 0xFFFF ==> z & 0xFF == 0xFF && (z >> 8) & 0xFF == 0xFF
  {
  }

  lemma ValHalfWord(z: bv64)
    ensures Val(z) <= 0x1_0000 * Val(z >> 16) + 0xFFFF
    ensures z & 0xFFFF == 0xFFFF ==> Val(z) == 0x1_0000 * Val(z >> 16) + 0xFFFF
  {
    HalfWordShift(z);
    ValByte(z);
    ValByte(z >> 8);
    hide Val;
  }

  function Quarter(z: bv64): bv64 { z >> 16 }

  lemma FourQuarters(z: bv64)
    ensures Quarter(Quarter(Quarter(Quarter(z)))) == 0
  {
  }

  lemma ValQuarter(z: bv64)
    ensures Val(z) <= 0x1_0000 * Val(Quarter(z)) + 0xFFFF
  {
    ValHalfWord(z);
  }

  /** Every word denotes a u64. */
  lemma ValRange(z: bv64)
    ensures Val(z) < TWO64
  {
    assert Val(0) == 0;
    hide Val, Quarter;
    FourQuarters(z);
    ValQuarter(z);
    ValQuarter(Quarter(z));
    ValQuarter(Quarter(Quarter(z)));
    ValQuarter(Quarter(Quarter(Quarter(z))));
  }

  lemma ValAllOnes()
    ensures Val(ALL_ONES) == TWO64 - 1
  {
    ValHalfWord(0xFFFF_FFFF_FFFF_FFFF);
    ValHalfWord(0xFFFF_FFFF_FFFF);
    ValHalfWord(0xFFFF_FFFF);
    ValHalfWord(0xFFFF);
    assert Val(0) == 0;
    hide Val;
  }

  lemma ValBelowMax(z: bv64)
    requires z != ALL_ONES
    ensures Val(z) < TWO64 - 1
  {
    ValRange(z);
    ValAllOnes();
    hide Val;
    if Val(z) == TWO64 - 1 {
      ValInjective(z, ALL_ONES);
    }
  }

  lemma NextModulo(n: nat)
    requires n > 0
    ensures n % TWO64 == if (n - 1) % TWO64 == TWO64 - 1 then 0 else (n - 1) % TWO64 + 1
  {
  }

  /** Bv is reduction modulo 2^64. */
  lemma {:induction false} ValOfBv(n: nat)
    ensures Val(Bv(n)) == n % TWO64
  {
    if n > 0 {
      ValOfBv(n - 1);
      NextModulo(n);
      var z := Bv(n - 1);
      assert Bv(n) == Next(z);
      if z == ALL_ONES {
        ValAllOnes();
        OddNext(z, Half(z));
      } else {
        hide Val, Next, Bv;
        ValSucc(z);
        ValBelowMax(z);
      }
    }
  }

  lemma BvEqual(i: nat, j: nat)
    ensures Bv(i) == Bv(j) <==> i % TWO64 == j % TWO64
  {
    ValOfBv(i);
    ValOfBv(j);
    hide Val, Bv;
    if i % TWO64 == j % TWO64 {
      ValInjective(Bv(i), Bv(j));
    }
  }

  // ---- The generator --------------------------------------------------------

  function XorShift30(z: bv64): bv64 { z ^ (z >> 30) }

  function XorShift27(z: bv64): bv64 { z ^ (z >> 27) }

  function XorShift31(z: bv64): bv64 { z ^ (z >> 31) }

  function Multiply1(z: bv64): bv64 { z * 0xBF58_476D_1CE4_E5B9 }

  function Multiply2(z: bv64): bv64 { z * 0x94D0_49BB_1331_11EB }

  /** x steps of the generator's increment. */
  function Steps(x: bv64): bv64 { x * 0x9E37_79B9_7F4A_7C15 }

  /** The output mixer: two xor-shift-multiply rounds and a last xor-shift. */
  function Mix(s: bv64): bv64 {
    XorShift31(Multiply2(XorShift27(Multiply1(XorShift30(s)))))
  }

  // The inverse of each step; the factors are inverses modulo 2^64.

  function UnXorShift30(z: bv64): bv64 { z ^ (z >> 30) ^ (z >> 60) }

  function UnXorShift27(z: bv64): bv64 { z ^ (z >> 27) ^ (z >> 54) }

  function UnXorShift31(z: bv64): bv64 { z ^ (z >> 31) ^ (z >> 62) }

  function UnMultiply1(z: bv64): bv64 { z * 0x96DE_1B17_3F11_9089 }

  function UnMultiply2(z: bv64): bv64 { z * 0x3196_42B2_D24D_8EC3 }

  function UnSteps(x: bv64): bv64 { x * 0xF1DE_83E1_9937_733D }

  function Unmix(w: bv64): bv64 {
    UnXorShift30(UnMultiply1(UnXorShift27(UnMultiply2(UnXorShift31(w)))))
  }

  lemma Shift30Inverse(z: bv64)
    ensures UnXorShift30(XorShift30(z)) == z
    ensures XorShift30(UnXorShift30(z)) == z
  {
    Shift30Left(z);
    Shift30Right(z);
  }

  lemma Shift30Left(z: bv64)
    ensures UnXorShift30(XorShift30(z)) == z
  {
    assert UnXorShift30(z ^ (z >> 30)) == z;
    hide UnXorShift30;
    assert XorShift30(z) == z ^ (z >> 30);
  }

  lemma Shift30Right(z: bv64)
    ensures XorShift30(UnXorShift30(z)) == z
  {
    assert XorShift30(z ^ (z >> 30) ^ (z >> 60)) == z;
    hide XorShift30;
    assert UnXorShift30(z) == z ^ (z >> 30) ^ (z >> 60);
  }

  lemma Shift27Inverse(z: bv64)
    ensures UnXorShift27(XorShift27(z)) == z
    ensures XorShift27(UnXorShift27(z)) == z
  {
    Shift27Left(z);
    Shift27Right(z);
  }

  lemma Shift27Left(z: bv64)
    ensures UnXorShift27(XorShift27(z)) == z
  {
    assert UnXorShift27(z ^ (z >> 27)) == z;
    hide UnXorShift27;
    assert XorShift27(z) == z ^ (z >> 27);
  }

  lemma Shift27Right(z: bv64)
    ensures XorShift27(UnXorShift27(z)) == z
  {
    assert XorShift27(z ^ (z >> 27) ^ (z >> 54)) == z;
    hide XorShift27;
    assert UnXorShift27(z) == z ^ (z >> 27) ^ (z >> 54);
  }

  lemma Shift31Inverse(z: bv64)
    ensures UnXorShift31(XorShift31(z)) == z
    ensures XorShift31(UnXorShift31(z)) == z
  {
    Shift31Left(z);
    Shift31Right(z);
  }

  lemma Shift31Left(z: bv64)
    ensures UnXorShift31(XorShift31(z)) == z
  {
    assert UnXorShift31(z ^ (z >> 31)) == z;
    hide UnXorShift31;
    assert XorShift31(z) == z ^ (z >> 31);
  }

  lemma Shift31Right(z: bv64)
    ensures XorShift31(UnXorShift31(z)) == z
  {
    assert XorShift31(z ^ (z >> 31) ^ (z >> 62)) == z;
    hide XorShift31;
    assert UnXorShift31(z) == z ^ (z >> 31) ^ (z >> 62);
  }

  lemma Factor1Inverse(z: bv64)
    ensures UnMultiply1(Multiply1(z)) == z
    ensures Multiply1(UnMultiply1(z)) == z
  {
    Factor1Left(z);
    Factor1Right(z);
  }

  lemma Factor1Left(z: bv64)
    ensures UnMultiply1(Multiply1(z)) == z
  {
    assert UnMultiply1(z * 0xBF58_476D_1CE4_E5B9) == z;
    hide UnMultiply1;
    assert Multiply1(z) == z * 0xBF58_476D_1CE4_E5B9;
  }

  lemma Factor1Right(z: bv64)
    ensures Multiply1(UnMultiply1(z)) == z
  {
    assert Multiply1(z * 0x96DE_1B17_3F11_9089) == z;
    hide Multiply1;
    assert UnMultiply1(z) == z * 0x96DE_1B17_3F11_9089;
  }

  lemma Factor2Inverse(z: bv64)
    ensures UnMultiply2(Multiply2(z)) == z
    ensures Multiply2(UnMultiply2(z)) == z
  {
    Factor2Left(z);
    Factor2Right(z);
  }

  lemma Factor2Left(z: bv64)
    ensures UnMultiply2(Multiply2(z)) == z
  {
    assert UnMultiply2(z * 0x94D0_49BB_1331_11EB) == z;
    hide UnMultiply2;
    assert Multiply2(z) == z * 0x94D0_49BB_1331_11EB;
  }

  lemma Factor2Right(z: bv64)
    ensures Multiply2(UnMultiply2(z)) == z
  {
    assert Multiply2(z * 0x3196_42B2_D24D_8EC3) == z;
    hide Multiply2;
    assert UnMultiply2(z) == z * 0x3196_42B2_D24D_8EC3;
  }

  /** The mixer is a permutation of the 64-bit words. */
  lemma MixBijective(s: bv64)
    ensures Unmix(Mix(s)) == s
    ensures Mix(Unmix(s)) == s
  {
    hide XorShift30, XorShift27, XorShift31, Multiply1, Multiply2;
    hide UnXorShift30, UnXorShift27, UnXorShift31, UnMultiply1, UnMultiply2;
    Shift30Inverse(s);
    Factor1Inverse(XorShift30(s));
    Shift27Inverse(Multiply1(XorShift30(s)));
    Factor2Inverse(XorShift27(Multiply1(XorShift30(s))));
    Shift31Inverse(Multiply2(XorShift27(Multiply1(XorShift30(s)))));
    var u := UnXorShift31(s);
    Shift31Inverse(s);
    Factor2Inverse(u);
    Shift27Inverse(UnMultiply2(u));
    Factor1Inverse(UnXorShift27(UnMultiply2(u)));
    Shift30Inverse(UnMultiply1(UnXorShift27(UnMultiply2(u))));
  }

  lemma StepsInverse(x: bv64)
    ensures UnSteps(Steps(x)) == x
  {
    assert UnSteps(x * 0x9E37_79B9_7F4A_7C15) == x;
    hide UnSteps;
    assert Steps(x) == x * 0x9E37_79B9_7F4A_7C15;
  }

  lemma StepsNext(x: bv64)
    ensures Steps(Next(x)) == Plus(Steps(x), GAMMA)
    ensures Steps(0) == 0
  {
  }

  lemma PlusAssociative(x: bv64, y: bv64, z: bv64)
    ensures Plus(Plus(x, y), z) == Plus(x, Plus(y, z))
    ensures Plus(x, 0) == x
  {
  }

  const GAMMA: bv64 := 0x9E37_79B9_7F4A_7C15

  /** The generator state after k calls. */
  function State(seed: bv64, k: nat): bv64 {
    if k == 0 then seed else Plus(State(seed, k - 1), GAMMA)
  }

  /** The word that call number k returns, counting from zero. */
  function Word(seed: bv64, k: nat): bv64 {
    Mix(State(seed, k + 1))
  }

  /** Known words of the generator, the last ones of the server's own seed. */
  lemma KnownWords()
    ensures Word(0, 0) == 0xE220_A839_7B1D_CDAF && Word(0, 1) == 0x6E78_9E6A_A1B9_65F4
    ensures Word(0, 2) == 0x06C4_5D18_8009_454F
    ensures Word(1234567, 0) == 0x599E_D017_FB08_FC85 && Word(1234567, 1) == 0x2C73_F084_5854_0FA5
    ensures Word(0x5EED_2026, 0) == 0x2CB0_F011_63F3_5AAF && Word(0x5EED_2026, 1) == 0xFED5_520E_F296_891C
  {
  }

  lemma {:induction false} StateClosedForm(seed: bv64, k: nat)
    ensures State(seed, k) == Plus(seed, Steps(Bv(k)))
  {
    hide Steps, Plus, Next;
    if k == 0 {
      StepsNext(0);
      PlusAssociative(seed, 0, 0);
    } else {
      StateClosedForm(seed, k - 1);
      StepsNext(Bv(k - 1));
      PlusAssociative(seed, Steps(Bv(k - 1)), GAMMA);
    }
  }

  function Minus(x: bv64, y: bv64): bv64 { x - y }

  lemma PlusMinus(s: bv64, x: bv64)
    ensures Minus(Plus(s, x), s) == x
    ensures Minus(Plus(s, x), x) == s
  {
    assert Minus(s + x, s) == x;
    assert Minus(s + x, x) == s;
    hide Minus;
    assert Plus(s, x) == s + x;
  }

  lemma StepsEqual(i: nat, j: nat)
    ensures Steps(Bv(i)) == Steps(Bv(j)) <==> i % TWO64 == j % TWO64
  {
    hide Steps, UnSteps, Bv;
    StepsInverse(Bv(i));
    StepsInverse(Bv(j));
    BvEqual(i, j);
  }

  /** Two calls return the same word exactly when they leave the same state. */
  lemma WordsEqual(s: bv64, i: nat, t: bv64, j: nat)
    ensures Word(s, i) == Word(t, j) <==> State(s, i + 1) == State(t, j + 1)
  {
    hide Mix, Unmix, State;
    MixBijective(State(s, i + 1));
    MixBijective(State(t, j + 1));
  }

  /** One seed: the word sequence has period exactly 2^64, so fewer than 2^64
      words are pairwise distinct. */
  lemma WordsOfOneSeed(seed: bv64, i: nat, j: nat)
    ensures Word(seed, i) == Word(seed, j) <==> i % TWO64 == j % TWO64
  {
    hide Mix, Steps, State, Plus, Minus, Bv;
    WordsEqual(seed, i, seed, j);
    StateClosedForm(seed, i + 1);
    StateClosedForm(seed, j + 1);
    StepsEqual(i + 1, j + 1);
    if Word(seed, i) == Word(seed, j) {
      PlusMinus(seed, Steps(Bv(i + 1)));
      PlusMinus(seed, Steps(Bv(j + 1)));
    }
  }

  /** Two seeds: the same call returns the same word only for the same seed. */
  lemma WordsOfTwoSeeds(s: bv64, t: bv64, k: nat)
    ensures Word(s, k) == Word(t, k) <==> s == t
  {
    hide Mix, Steps, State, Plus, Minus, Bv;
    WordsEqual(s, k, t, k);
    StateClosedForm(s, k + 1);
    StateClosedForm(t, k + 1);
    if Word(s, k) == Word(t, k) {
      PlusMinus(s, Steps(Bv(k + 1)));
      PlusMinus(t, Steps(Bv(k + 1)));
    }
  }

  // ---- The buffer -----------------------------------------------------------

  function WordBytes(w: bv64): (bs: seq<byte>)
    ensures |bs| == 8
  {
    ToLe(Val(w), 8)
  }

  lemma WordBytesInjective(w: bv64, v: bv64)
    requires WordBytes(w) == WordBytes(v)
    ensures w == v
  {
    hide Val;
    ValRange(w);
    ValRange(v);
    Pow256Values();
    LeRoundTrip(Val(w), 8);
    LeRoundTrip(Val(v), 8);
    ValInjective(w, v);
  }

  /** The n bytes that a fill from `seed` puts into a buffer of length n. */
  function Payload(seed: bv64, n: nat): (p: seq<byte>)
    ensures |p| == n
  {
    seq(n, j requires 0 <= j < n => WordBytes(Word(seed, j / 8))[j % 8])
  }

  /** Byte j of a fill is byte j % 8, least significant first, of word j / 8; so also in
      the tail. */
  lemma PayloadByte(seed: bv64, n: nat, j: nat)
    requires j < n
    ensures Payload(seed, n)[j] == Val(Word(seed, j / 8)) / Pow256(j % 8) % 256
  {
    hide Word, Val;
    LeByte(Val(Word(seed, j / 8)), 8, j % 8);
  }

  function Block(p: seq<byte>, i: nat): seq<byte>
    requires 8 * i + 8 <= |p|
  {
    p[8 * i..8 * i + 8]
  }

  lemma PayloadBlock(seed: bv64, n: nat, i: nat)
    requires 8 * i + 8 <= n
    ensures Block(Payload(seed, n), i) == WordBytes(Word(seed, i))
  {
    hide Word, WordBytes;
    var b := Block(Payload(seed, n), i);
    forall k | 0 <= k < 8
      ensures b[k] == WordBytes(Word(seed, i))[k]
    {
      assert (8 * i + k) / 8 == i && (8 * i + k) % 8 == k;
    }
  }

  /** No full 8-byte block of a fill repeats (below 2^64 blocks). */
  lemma BlocksOfOneFillDiffer(seed: bv64, n: nat, i: nat, j: nat)
    requires 8 * i + 8 <= n && 8 * j + 8 <= n
    requires i < TWO64 && j < TWO64
    ensures Block(Payload(seed, n), i) == Block(Payload(seed, n), j) <==> i == j
  {
    hide Word, WordBytes;
    PayloadBlock(seed, n, i);
    PayloadBlock(seed, n, j);
    if Block(Payload(seed, n), i) == Block(Payload(seed, n), j) {
      WordBytesInjective(Word(seed, i), Word(seed, j));
      WordsOfOneSeed(seed, i, j);
    }
  }

  /** Fills from two seeds differ in every full block, whatever their lengths. */
  lemma BlocksOfTwoFillsDiffer(s: bv64, n: nat, t: bv64, m: nat, i: nat)
    requires 8 * i + 8 <= n && 8 * i + 8 <= m
    ensures Block(Payload(s, n), i) == Block(Payload(t, m), i) <==> s == t
  {
    hide Word, WordBytes;
    PayloadBlock(s, n, i);
    PayloadBlock(t, m, i);
    if Block(Payload(s, n), i) == Block(Payload(t, m), i) {
      WordBytesInjective(Word(s, i), Word(t, i));
      WordsOfTwoSeeds(s, t, i);
    }
  }

  method FillRandom(buf: array<byte>, seed: bv64)
    modifies buf
    ensures buf[..] == Payload(seed, buf.Length)
    ensures forall j :: 0 <= j < buf.Length ==> buf[j] == Val(Word(seed, j / 8)) / Pow256(j % 8) % 256
  {
    hide Mix, WordBytes, Plus, Val, Pow256;
    var s := seed;
    var chunks := buf.Length / 8;
    for c := 0 to chunks
      invariant s == State(seed, c)
      invariant forall j :: 0 <= j < 8 * c ==> buf[j] == Payload(seed, buf.Length)[j]
    {
      s := Plus(s, GAMMA);
      var bytes := WordBytes(Mix(s));
      forall k | 0 <= k < 8 {
        buf[8 * c + k] := bytes[k];
      }
    }
    var rem := buf.Length % 8;
    if rem != 0 {
      s := Plus(s, GAMMA);
      var bytes := WordBytes(Mix(s));
      forall k | 0 <= k < rem {
        buf[8 * chunks + k] := bytes[k];
      }
    }
    assert buf[..] == Payload(seed, buf.Length);
    forall j | 0 <= j < buf.Length
      ensures buf[j] == Val(Word(seed, j / 8)) / Pow256(j % 8) % 256
    {
      PayloadByte(seed, buf.Length, j);
      assert buf[j] == buf[..][j];
    }
  }

  // ---- Parallel streams (src/modes/tcp.rs) ----------------------------------

  function Xor(x: bv64, y: bv64): bv64 { x ^ y }

  /** The payload seed of stream i. */
  function StreamSeed(serverSeed: bv64, i: nat): bv64 {
    Xor(serverSeed, Steps(Bv(i)))
  }

  lemma XorDifference(x: bv64, y: bv64)
    ensures Xor(x, y) ^ x == y
  {
  }

  /** The seed of stream i differs from the server's in exactly the bits of i times the
      mixer. */
  lemma StreamSeedBits(serverSeed: bv64, i: nat)
    ensures StreamSeed(serverSeed, i) ^ serverSeed == Steps(Bv(i))
  {
    hide Xor, Steps, Bv;
    XorDifference(serverSeed, Steps(Bv(i)));
  }

  /** Known seeds of the first streams under the server's own seed. */
  lemma KnownSeeds()
    ensures StreamSeed(0x5EED_2026, 0) == 0x5EED_2026
    ensures StreamSeed(0x5EED_2026, 1) == 0x9E37_79B9_21A7_5C33
    ensures StreamSeed(0x5EED_2026, 2) == 0x3C6E_F372_A079_D80C
  {
    assert Bv(1) == 1 && Bv(2) == 2;
  }

  lemma CancelXor(s: bv64, x: bv64, y: bv64)
    requires Xor(s, x) == Xor(s, y)
    ensures x == y
  {
  }

  /** Stream seeds coincide exactly for stream numbers equal modulo 2^64. */
  lemma StreamSeedsDiffer(serverSeed: bv64, i: nat, j: nat)
    ensures StreamSeed(serverSeed, i) == StreamSeed(serverSeed, j) <==> i % TWO64 == j % TWO64
  {
    hide Steps, Xor, Bv;
    StepsEqual(i, j);
    if StreamSeed(serverSeed, i) == StreamSeed(serverSeed, j) {
      CancelXor(serverSeed, Steps(Bv(i)), Steps(Bv(j)));
    }
  }

  /** The send buffers of two streams differ in every full block. */
  lemma StreamsNeverShareABlock(serverSeed: bv64, parallel: nat, n: nat, i: nat, j: nat, b: nat)
    requires i < parallel && j < parallel && i != j
    requires parallel < 0x1_0000_0000
    requires 8 * b + 8 <= n
    ensures Block(Payload(StreamSeed(serverSeed, i), n), b) != Block(Payload(StreamSeed(serverSeed, j), n), b)
  {
    hide StreamSeed, Payload;
    StreamSeedsDiffer(serverSeed, i, j);
    BlocksOfTwoFillsDiffer(StreamSeed(serverSeed, i), n, StreamSeed(serverSeed, j), n, b);
  }

  lemma XorZero(x: bv64)
    ensures Xor(0, x) == Plus(0, x)
  {
  }

  lemma {:induction false} StateShift(seed: bv64, k: nat, l: nat)
    ensures State(State(seed, k), l) == State(seed, k + l)
  {
    hide Plus;
    if l > 0 {
      StateShift(seed, k, l - 1);
    }
  }

  /** The distinctness is per position only. The seed mixer is the generator's own
      increment, so with a server seed of zero stream i is stream 0 moved on by i words. */
  lemma ZeroSeedStreamsAreShifts(i: nat, k: nat)
    ensures Word(StreamSeed(0, i), k) == Word(StreamSeed(0, 0), k + i)
  {
    StateClosedForm(0, i);
    StateClosedForm(0, 0);
    XorZero(Steps(Bv(i)));
    XorZero(Steps(Bv(0)));
    hide Mix, Steps, Xor, Plus;
    StateShift(0, i, k + 1);
    assert i + (k + 1) == (k + i) + 1;
  }

  /** The buffers that the client's streams reuse: one fill per stream. */
  method StreamBuffers(serverSeed: bv64, parallel: nat, bufferBytes: nat) returns (bufs: seq<array<byte>>)
    requires parallel < 0x1_0000_0000
    ensures |bufs| == parallel
    ensures forall i :: 0 <= i < parallel ==> fresh(bufs[i])
    ensures forall i :: 0 <= i < parallel ==> bufs[i][..] == Payload(StreamSeed(serverSeed, i), bufferBytes)
    ensures forall i, j, b: nat :: 0 <= i < j < parallel && 8 * b + 8 <= bufferBytes ==>
      |bufs[i][..]| == |bufs[j][..]| == bufferBytes && Block(bufs[i][..], b) != Block(bufs[j][..], b)
  {
    hide Steps, Payload, Block, Xor, Next;
    bufs := [];
    var i: bv64 := 0;
    for n := 0 to parallel
      invariant i == Bv(n)
      invariant |bufs| == n
      invariant forall k :: 0 <= k < n ==> fresh(bufs[k])
      invariant forall k :: 0 <= k < n ==> bufs[k][..] == Payload(StreamSeed(serverSeed, k), bufferBytes)
    {
      var buf := new byte[bufferBytes];
      FillRandom(buf, Xor(serverSeed, Steps(i)));
      bufs := bufs + [buf];
      i := Next(i);
    }
    forall i, j, b: nat | 0 <= i < j < parallel && 8 * b + 8 <= bufferBytes
      ensures Block(bufs[i][..], b) != Block(bufs[j][..], b)
    {
      StreamsNeverShareABlock(serverSeed, parallel, bufferBytes, i, j, b);
    }
  }
}
