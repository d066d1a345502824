/** CoreMark's bit-serial CRC-16 and what it detects. */
module Crc {

  function Xor(a: bv16, b: bv16): bv16 { a ^ b }

  /** One step of the shift register with the reflected polynomial 0xA001. */
  function Step(c: bv16): bv16 { if c & 1 == 1 then Xor(c >> 1, 0xA001) else c >> 1 }

  function Steps(k: nat, c: bv16): bv16 { if k == 0 then c else Steps(k - 1, Step(c)) }

  function StepBack(c: bv16): bv16 { if c & 0x8000 != 0 then ((c ^ 0xA001) << 1) | 1 else c << 1 }

  function StepsBack(k: nat, c: bv16): bv16 { if k == 0 then c else StepBack(StepsBack(k - 1, c)) }

  // ----- algebra of the step -----

  lemma XorLaws(x: bv16, y: bv16, p: bv16)
    ensures Xor(Xor(x, p), Xor(y, p)) == Xor(x, y) && Xor(Xor(x, p), y) == Xor(Xor(x, y), p)
    ensures Xor(x, Xor(y, p)) == Xor(Xor(x, y), p) && Xor(Xor(x, p), p) == x && Xor(x, y) == Xor(y, x)
  {
    hide Xor;
    XorAssoc(x, p, y);
    XorAssoc(x, y, p);
    XorComm(p, y);
    XorComm(x, y);
    XorAssoc(Xor(x, p), y, p);
    XorAssoc(x, p, p);
    XorSelf(p);
    XorNought(x);
    XorSwap(x, y, p);
  }

  lemma XorAssoc(x: bv16, y: bv16, z: bv16)
    ensures Xor(Xor(x, y), z) == Xor(x, Xor(y, z))
  {}

  lemma XorComm(x: bv16, y: bv16)
    ensures Xor(x, y) == Xor(y, x)
  {}

  lemma XorSwap(x: bv16, y: bv16, p: bv16)
    ensures Xor(Xor(x, p), Xor(y, p)) == Xor(x, y)
  {
    hide Xor;
    XorAssoc(x, p, Xor(y, p));
    XorComm(y, p);
    XorAssoc(p, p, y);
    XorSelf(p);
    XorComm(0, y);
    XorNought(y);
  }

  lemma XorSelf(x: bv16)
    ensures Xor(x, x) == 0
  {}

  lemma XorNought(x: bv16)
    ensures Xor(x, 0) == x
  {}

  lemma ShiftOfXor(a: bv16, b: bv16)
    ensures (a ^ b) >> 1 == (a >> 1) ^ (b >> 1)
  {}

  lemma LowBitOfXor(a: bv16, b: bv16)
    ensures (a ^ b) & 1 == 1 <==> (a & 1 == 1) != (b & 1 == 1)
  {}

  lemma ShiftIsLinear(a: bv16, b: bv16)
    ensures Xor(a, b) >> 1 == Xor(a >> 1, b >> 1)
    ensures Xor(a, b) & 1 == 1 <==> (a & 1 == 1) != (b & 1 == 1)
  {
    ShiftOfXor(a, b);
    LowBitOfXor(a, b);
  }

  lemma StepIsLinear(a: bv16, b: bv16)
    ensures Step(Xor(a, b)) == Xor(Step(a), Step(b))
  {
    hide Xor;
    ShiftIsLinear(a, b);
    XorLaws(a >> 1, b >> 1, 0xA001);
  }

  lemma {:induction false} StepsAreLinear(k: nat, a: bv16, b: bv16)
    ensures Steps(k, Xor(a, b)) == Xor(Steps(k, a), Steps(k, b))
  {
    hide Step, Xor;
    if k > 0 {
      StepIsLinear(a, b);
      StepsAreLinear(k - 1, Step(a), Step(b));
    }
  }

  lemma FeedbackSetsTop(c: bv16)
    ensures c & 1 == 1 ==> ((c >> 1) ^ 0xA001) & 0x8000 != 0 && ((((c >> 1) ^ 0xA001) ^ 0xA001) << 1) | 1 == c
    ensures c & 1 != 1 ==> (c >> 1) & 0x8000 == 0 && (c >> 1) << 1 == c
  {}

  lemma TopShowsFeedback(c: bv16)
    ensures c & 0x8000 != 0 ==> (((c ^ 0xA001) << 1) | 1) & 1 == 1 && (((c ^ 0xA001) << 1) | 1) >> 1 == c ^ 0xA001
    ensures c & 0x8000 == 0 ==> (c << 1) & 1 == 0 && (c << 1) >> 1 == c
  {}

  lemma StepsBackward(c: bv16)
    ensures StepBack(Step(c)) == c && Step(StepBack(c)) == c
  {
    FeedbackSetsTop(c);
    TopShowsFeedback(c);
    XorLaws(c, 0, 0xA001);
  }

  /** The steps can be undone, so no two register values run into one. */
  lemma {:induction false} StepsAreBijective(k: nat, c: bv16)
    ensures StepsBack(k, Steps(k, c)) == c && Steps(k, StepsBack(k, c)) == c
  {
    hide Step, StepBack;
    if k > 0 {
      StepsAreBijective(k - 1, Step(c));
      StepsBackward(c);
      StepsBackward(StepsBack(k - 1, c));
      StepsAreBijective(k - 1, c);
    }
  }

  lemma {:induction false} StepsAdd(j: nat, k: nat, c: bv16)
    ensures Steps(j + k, c) == Steps(k, Steps(j, c))
  {
    hide Step;
    if j > 0 {
      StepsAdd(j - 1, k, Step(c));
    }
  }

  // ----- the byte loop -----

  /** One turn of crcu8's loop on the register, with the data bit still in place. */
  function Turn(data: bv8, crc: bv16): bv16 {
    if ((data & 1) as bv16) ^ (crc & 1) == 1 then ((crc ^ 0x4002) >> 1) | 0x8000 else (crc >> 1) & 0x7fff
  }

  lemma TurnBits(data: bv8, crc: bv16)
    ensures ((data & 1) as bv16) ^ (crc & 1) == 1 <==> Xor(crc, data as bv16) & 1 == 1
    ensures (data >> 1) as bv16 == (data as bv16) >> 1
    ensures ((crc ^ 0x4002) >> 1) | 0x8000 == Xor(crc >> 1, 0xA001) && (crc >> 1) & 0x7fff == crc >> 1
  {}

  lemma TurnIsStep(data: bv8, crc: bv16)
    ensures Xor(Turn(data, crc), (data >> 1) as bv16) == Step(Xor(crc, data as bv16))
  {
    hide Xor;
    TurnBits(data, crc);
    ShiftIsLinear(crc, data as bv16);
    XorLaws(crc >> 1, (data as bv16) >> 1, 0xA001);
  }

  /** The largest value left of a byte after i shifts. */
  function Left(i: nat): bv8 { if i == 0 then 0xFF else Left(i - 1) >> 1 }

  lemma NothingLeft()
    ensures Left(8) == 0
  {
    assert Left(4) == 0xF;
  }

  lemma ShiftedLess(a: bv8, b: bv8)
    requires a <= b
    ensures a >> 1 <= b >> 1
  {}

  /** One turn of the loop: with the data bits still to come xored in, the register makes one step. */
  method CrcBit(data: bv8, crc: bv16) returns (r: bv16)
    ensures Xor(r, (data >> 1) as bv16) == Step(Xor(crc, data as bv16))
  {
    TurnIsStep(data, crc);
    hide Xor, Step;
    var x16 := ((data & 1) as bv16) ^ (crc & 1);
    var carry := x16 == 1;
    if carry {
      r := crc ^ 0x4002;
      r := r >> 1;
      r := r | 0x8000;
    } else {
      r := crc >> 1;
      r := r & 0x7fff;
    }
    assert r == Turn(data, crc);
  }

  method Crcu8(byte: bv8, crc: bv16) returns (r: bv16)
    ensures r == Steps(8, Xor(crc, byte as bv16))
  {
    hide Xor, Step;
    var data := byte;
    r := crc;
    for i := 0 to 8
      invariant data <= Left(i)
      invariant Steps(8, Xor(crc, byte as bv16)) == Steps(8 - i, Xor(r, data as bv16))
    {
      ShiftedLess(data, Left(i));
      r := CrcBit(data, r);
      data := data >> 1;
    }
    NothingLeft();
    XorNought(r);
  }

  // ----- words -----

  /** The register after a 16-bit word: sixteen steps from the sum of word and register. */
  function Crc16(w: bv16, crc: bv16): bv16 { Steps(16, Xor(w, crc)) }

  lemma HighByteWaits(h: bv16)
    requires h & 0xff == 0
    ensures Steps(8, h) == h >> 8
  {
    hide Step;
    var h2 := TwoZeroSteps(8, h);
    var h4 := TwoZeroSteps(6, h2);
    var h6 := TwoZeroSteps(4, h4);
    var h8 := TwoZeroSteps(2, h6);
  }

  lemma TwoZeroSteps(k: nat, h: bv16) returns (h': bv16)
    requires k >= 2
    ensures h' == h >> 2
    ensures h & 3 == 0 ==> Steps(k, h) == Steps(k - 2, h')
  {
    h' := h >> 2;
    ZeroSteps(h);
    ZeroSteps(h >> 1);
  }

  lemma ZeroSteps(h: bv16)
    ensures h & 1 == 0 ==> Step(h) == h >> 1
  {}

  lemma BytesOfWord(w: bv16)
    ensures Xor(w & 0xff, w & 0xff00) == w && (w & 0xff00) & 0xff == 0 && (w & 0xff00) >> 8 == w >> 8
  {}

  lemma TwoBytes(w: bv16, crc: bv16)
    ensures Steps(8, Xor(Steps(8, Xor(crc, w & 0xff)), w >> 8)) == Crc16(w, crc)
  {
    hide Xor, Step, Steps;
    BytesOfWord(w);
    HighByteWaits(w & 0xff00);
    StepsAreLinear(8, Xor(crc, w & 0xff), w & 0xff00);
    XorLaws(crc, w & 0xff, w & 0xff00);
    XorLaws(w, crc, 0);
    StepsAdd(8, 8, Xor(w, crc));
  }

  method Crcu16(newval: bv16, crc: bv16) returns (r: bv16)
    ensures r == Crc16(newval, crc)
  {
    hide Xor, Step, Steps;
    TwoBytes(newval, crc);
    r := Crcu8((newval & 0xff) as bv8, crc);
    r := Crcu8((newval >> 8) as bv8, r);
  }

  method Crcu32(newval: bv32, crc: bv16) returns (r: bv16)
    ensures r == Crc16((newval >> 16) as bv16, Crc16((newval & 0xffff) as bv16, crc))
  {
    hide Crc16;
    r := Crcu16((newval & 0xffff) as bv16, crc);
    r := Crcu16((newval >> 16) as bv16, r);
  }

  /** The register after a message of words. */
  function CrcOf(words: seq<bv16>, crc: bv16): bv16 {
    if words == [] then crc else CrcOf(words[1..], Crc16(words[0], crc))
  }

  /** Linear over xor, and one-to-one in the word as in the register. */
  lemma Crc16Laws(w: bv16, w': bv16, c: bv16, c': bv16)
    ensures Crc16(Xor(w, w'), Xor(c, c')) == Xor(Crc16(w, c), Crc16(w', c'))
    ensures w != w' ==> Crc16(w, c) != Crc16(w', c)
    ensures c != c' ==> Crc16(w, c) != Crc16(w, c')
    ensures Crc16(Xor(StepsBack(16, c'), c), c) == c'
  {
    hide Xor, Step, Steps, StepsBack;
    StepsAreLinear(16, Xor(w, c), Xor(w', c'));
    XorShuffle(w, w', c, c');
    XorCancels(w, w', c);
    XorCancels(c, c', w);
    StepsAreBijective(16, Xor(w, c));
    StepsAreBijective(16, Xor(w', c));
    StepsAreBijective(16, Xor(w, c'));
    StepsAreBijective(16, c');
    XorLaws(StepsBack(16, c'), 0, c);
  }

  lemma XorShuffle(w: bv16, w': bv16, c: bv16, c': bv16)
    ensures Xor(Xor(w, w'), Xor(c, c')) == Xor(Xor(w, c), Xor(w', c'))
  {
    hide Xor;
    XorLaws(Xor(w, w'), c', c);
    XorLaws(w, w', c);
    XorLaws(Xor(w, c), w', c');
    XorLaws(Xor(w, w'), c, c');
    XorLaws(c, c', 0);
    XorLaws(w, c, w');
  }

  lemma XorCancels(a: bv16, b: bv16, c: bv16)
    ensures a != b ==> Xor(a, c) != Xor(b, c) && Xor(c, a) != Xor(c, b)
  {
    hide Xor;
    XorLaws(a, 0, c);
    XorLaws(b, 0, c);
    XorLaws(a, c, 0);
    XorLaws(b, c, 0);
  }

  // ----- error detection -----

  function Bit(b: bool): bv16 { if b then 1 else 0 }

  /** The register after single bits. */
  function FeedBits(c: bv16, bits: seq<bool>): bv16
    decreases |bits|
  {
    if bits == [] then c else FeedBits(Step(Xor(c, Bit(bits[0]))), bits[1..])
  }

  /** The k low bits of a word in the order in which the register takes them. */
  function BitsOf(k: nat, w: bv16): (bits: seq<bool>)
    ensures |bits| == k
  {
    if k == 0 then [] else [w & 1 == 1] + BitsOf(k - 1, w >> 1)
  }

  function MessageBits(words: seq<bv16>): seq<bool> {
    if words == [] then [] else BitsOf(16, words[0]) + MessageBits(words[1..])
  }

  lemma FeedOne(c: bv16, w: bv16)
    ensures Step(Xor(c, w)) == Xor(Step(Xor(c, Bit(w & 1 == 1))), w >> 1)
  {
    hide Step, Xor;
    OneBit(w);
    XorLaws(c, Bit(w & 1 == 1), w & 0xfffe);
    StepIsLinear(Xor(c, Bit(w & 1 == 1)), w & 0xfffe);
  }

  lemma OneBit(w: bv16)
    ensures Xor(Bit(w & 1 == 1), w & 0xfffe) == w && Step(w & 0xfffe) == w >> 1
  {
    assert w & 1 == 1 || w & 1 == 0;
    assert (w & 0xfffe) & 1 == 0 && (w & 0xfffe) >> 1 == w >> 1;
  }

  /** A register value that fits k bits. */
  predicate Fits(k: nat, w: bv16) { if k == 0 then w == 0 else Fits(k - 1, w >> 1) }

  /** Feeding k bits one by one is adding them at once and stepping k times. */
  lemma {:induction false} FeedWord(k: nat, w: bv16, c: bv16)
    requires Fits(k, w)
    ensures FeedBits(c, BitsOf(k, w)) == Steps(k, Xor(c, w))
  {
    hide Step, Xor, Bit;
    if k == 0 {
      XorNought(c);
    } else {
      FeedOne(c, w);
      FeedWord(k - 1, w >> 1, Step(Xor(c, Bit(w & 1 == 1))));
      assert BitsOf(k, w)[1..] == BitsOf(k - 1, w >> 1);
    }
  }

  function Push(v: bv16, b: bool): bv16 { (v << 1) | Bit(b) }

  /** The word whose low bits are the given ones. */
  function WordOf(bits: seq<bool>): bv16
    decreases |bits|
  {
    if bits == [] then 0 else Push(WordOf(bits[1..]), bits[0])
  }

  lemma {:induction false} FitsMore(j: nat, k: nat, w: bv16)
    requires j <= k && Fits(j, w)
    ensures Fits(k, w)
    decreases k
  {
    if j == 0 {
      if k > 0 {
        FitsMore(0, k - 1, w >> 1);
      }
    } else {
      FitsMore(j - 1, k - 1, w >> 1);
    }
  }

  lemma FitsThree(k: nat, w: bv16) returns (w': bv16)
    requires k >= 3 && Fits(k, w)
    ensures w' == w >> 3 && Fits(k - 3, w')
  {
    w' := w >> 3;
    assert Fits(k - 1, w >> 1) && Fits(k - 2, (w >> 1) >> 1) && (w >> 1) >> 1 == w >> 2 && (w >> 2) >> 1 == w';
  }

  lemma FitsLeavesTop(k: nat, w: bv16)
    requires k <= 15 && Fits(k, w)
    ensures w & 0x8000 == 0
  {
    FitsMore(k, 15, w);
    var a := FitsThree(15, w);
    var b := FitsThree(12, a);
    var c := FitsThree(9, b);
    var d := FitsThree(6, c);
    var e := FitsThree(3, d);
  }

  lemma ShiftedIn(v: bv16, b: bool)
    requires v & 0x8000 == 0
    ensures Push(v, b) >> 1 == v && (Push(v, b) & 1 == 1 <==> b)
  {}

  /** Up to sixteen bits are the low bits of their word. */
  lemma {:induction false} WordOfBits(bits: seq<bool>)
    requires |bits| <= 16
    ensures Fits(|bits|, WordOf(bits)) && BitsOf(|bits|, WordOf(bits)) == bits
    decreases |bits|
  {
    if bits != [] {
      hide Push, Bit, Fits, BitsOf;
      WordOfBits(bits[1..]);
      PushBit(|bits| - 1, WordOf(bits[1..]), bits[0]);
    }
  }

  lemma PushBit(k: nat, v: bv16, b: bool)
    requires k <= 15 && Fits(k, v)
    ensures Fits(k + 1, Push(v, b)) && BitsOf(k + 1, Push(v, b)) == [b] + BitsOf(k, v)
  {
    hide Push, Bit;
    FitsLeavesTop(k, v);
    ShiftedIn(v, b);
  }

  lemma {:induction false} FeedSplits(c: bv16, a: seq<bool>, b: seq<bool>)
    ensures FeedBits(c, a + b) == FeedBits(FeedBits(c, a), b)
    decreases |a|
  {
    hide Step, Xor, Bit;
    if a == [] {
      assert a + b == b;
    } else {
      assert (a + b)[1..] == a[1..] + b;
      FeedSplits(Step(Xor(c, Bit(a[0]))), a[1..], b);
    }
  }

  lemma {:induction false} FeedIsInjective(c: bv16, c': bv16, bits: seq<bool>)
    requires c != c'
    ensures FeedBits(c, bits) != FeedBits(c', bits)
    decreases |bits|
  {
    hide Step, Xor, Bit, StepBack;
    if bits != [] {
      XorCancels(c, c', Bit(bits[0]));
      StepsBackward(Xor(c, Bit(bits[0])));
      StepsBackward(Xor(c', Bit(bits[0])));
      FeedIsInjective(Step(Xor(c, Bit(bits[0]))), Step(Xor(c', Bit(bits[0]))), bits[1..]);
    }
  }

  /**
   Every burst error is detected: two messages that differ only inside a window of
   at most sixteen bits, wherever it lies, leave different registers.
   */
  lemma BurstIsDetected(c: bv16, before: seq<bool>, burst: seq<bool>, burst': seq<bool>, after: seq<bool>)
    requires |burst| == |burst'| <= 16 && burst != burst'
    ensures FeedBits(c, before + burst + after) != FeedBits(c, before + burst' + after)
  {
    hide Step, Xor, Bit, Steps, StepsBack, Fits, WordOf, FeedBits;
    var d, k := FeedBits(c, before), |burst|;
    var w, w' := WordOf(burst), WordOf(burst');
    FeedSplits(c, before + burst, after);
    FeedSplits(c, before + burst', after);
    FeedSplits(c, before, burst);
    FeedSplits(c, before, burst');
    WordOfBits(burst);
    WordOfBits(burst');
    FeedWord(k, w, d);
    FeedWord(k, w', d);
    XorCancels(w, w', d);
    StepsAreBijective(k, Xor(d, w));
    StepsAreBijective(k, Xor(d, w'));
    FeedIsInjective(FeedBits(d, burst), FeedBits(d, burst'), after);
  }

  lemma {:induction false} EveryWordFits(w: bv16)
    ensures Fits(16, w)
  {
    AnyFits(w >> 1);
  }

  lemma AnyFits(w: bv16)
    requires w <= 0x7fff
    ensures Fits(15, w)
  {
    ThreeFit(0, ((((w >> 3) >> 3) >> 3) >> 3));
    ThreeFit(3, (((w >> 3) >> 3) >> 3));
    ThreeFit(6, ((w >> 3) >> 3));
    ThreeFit(9, (w >> 3));
    ThreeFit(12, w);
  }

  lemma ThreeFit(k: nat, w: bv16)
    requires Fits(k, w >> 3)
    ensures Fits(k + 3, w)
  {
    assert ((w >> 1) >> 1) >> 1 == w >> 3;
    assert Fits(k + 1, (w >> 1) >> 1);
    assert Fits(k + 2, w >> 1);
  }

  /** The word-wise CRC of a message is the bit-wise one. */
  lemma {:induction false} MessageIsBits(words: seq<bv16>, c: bv16)
    ensures CrcOf(words, c) == FeedBits(c, MessageBits(words))
    decreases |words|
  {
    if words != [] {
      hide Step, Xor, Bit, Steps, Fits, BitsOf, FeedBits;
      EveryWordFits(words[0]);
      FeedWord(16, words[0], c);
      XorLaws(words[0], c, 0);
      FeedSplits(c, BitsOf(16, words[0]), MessageBits(words[1..]));
      MessageIsBits(words[1..], Crc16(words[0], c));
    }
  }

  lemma {:induction false} MessageSplits(a: seq<bv16>, b: seq<bv16>, c: bv16)
    ensures CrcOf(a + b, c) == CrcOf(b, CrcOf(a, c))
    decreases |a|
  {
    hide Crc16;
    if a == [] {
      assert a + b == b;
    } else {
      assert (a + b)[1..] == a[1..] + b;
      MessageSplits(a[1..], b, Crc16(a[0], c));
    }
  }

  /** Two messages of equal length that differ in exactly one word have different CRCs. */
  lemma OneWordIsDetected(a: seq<bv16>, w: bv16, w': bv16, b: seq<bv16>, c: bv16)
    requires w != w'
    ensures CrcOf(a + [w] + b, c) != CrcOf(a + [w'] + b, c)
  {
    hide Crc16, Xor;
    MessageSplits(a + [w], b, c);
    MessageSplits(a + [w'], b, c);
    MessageSplits(a, [w], c);
    MessageSplits(a, [w'], c);
    var d := CrcOf(a, c);
    assert [w][1..] == [] && [w'][1..] == [];
    Crc16Laws(w, w', d, d);
    RestIsInjective(b, Crc16(w, d), Crc16(w', d));
  }

  lemma {:induction false} RestIsInjective(b: seq<bv16>, c: bv16, c': bv16)
    requires c != c'
    ensures CrcOf(b, c) != CrcOf(b, c')
    decreases |b|
  {
    hide Crc16, Xor;
    if b != [] {
      Crc16Laws(b[0], b[0], c, c');
      RestIsInjective(b[1..], Crc16(b[0], c), Crc16(b[0], c'));
    }
  }
}
