/** The bitmaps of pressed mouse buttons and keys, as the machine words they are. */
module Bitmaps {
  import opened Common

  function Pow2(n: nat): (r: nat)
    ensures r > 0
  {
    if n == 0 then 1 else 2 * Pow2(n - 1)
  }

  /** `v >> i`. */
  function ShiftRight(v: nat, i: nat): nat {
    if i == 0 then v else ShiftRight(v / 2, i - 1)
  }

  predicate Bit(v: nat, i: nat) {
    ShiftRight(v, i) % 2 == 1
  }

  /** `v | (1 << i)` or `v & ~(1 << i)`: see `WithBitIs`. */
  function WithBit(v: nat, i: nat, on: bool): (r: nat) {
    if i == 0 then v / 2 * 2 + (if on then 1 else 0) else WithBit(v / 2, i - 1, on) * 2 + v % 2
  }

  function Ones(v: nat): nat {
    if v == 0 then 0 else v % 2 + Ones(v / 2)
  }

  /** How many of the bits below `n` are set. */
  function OnesBelow(v: nat, n: nat): nat {
    if n == 0 then 0 else OnesBelow(v, n - 1) + (if Bit(v, n - 1) then 1 else 0)
  }

  // ---- single bits -------------------------------------------------------------------------------

  lemma {:induction false} WithBitIs(v: nat, i: nat, on: bool, j: nat)
    ensures Bit(WithBit(v, i, on), j) <==> if i == j then on else Bit(v, j)
  {
    var r := WithBit(v, i, on);
    if i == 0 {
      assert r / 2 == v / 2;
    } else {
      assert r / 2 == WithBit(v / 2, i - 1, on) && r % 2 == v % 2;
      if j > 0 {
        WithBitIs(v / 2, i - 1, on, j - 1);
        BitOfHalf(r, j);
        BitOfHalf(v, j);
      }
    }
  }

  lemma BitOfHalf(v: nat, j: nat)
    requires j > 0
    ensures Bit(v, j) <==> Bit(v / 2, j - 1)
  {
  }

  /** Setting a clear bit adds its weight; clearing a set one takes it away. */
  lemma {:induction false} WithBitWeighs(v: nat, i: nat, on: bool)
    ensures WithBit(v, i, on) == v + (if on then Pow2(i) else 0) - (if Bit(v, i) then Pow2(i) else 0)
  {
    if i > 0 {
      WithBitWeighs(v / 2, i - 1, on);
      BitOfHalf(v, i);
    }
  }

  lemma {:induction false} WithBitFits(v: nat, i: nat, on: bool, width: nat)
    requires i < width && v < Pow2(width)
    ensures WithBit(v, i, on) < Pow2(width)
  {
    if i > 0 {
      WithBitFits(v / 2, i - 1, on, width - 1);
    }
  }

  lemma Widths()
    ensures Pow2(8) == 256 && Pow2(64) == U64_SIZE
  {
    assert Pow2(8) == 256;
    assert Pow2(16) == 256 * Pow2(8);
    assert Pow2(24) == 256 * Pow2(16);
    assert Pow2(32) == 256 * Pow2(24);
    assert Pow2(40) == 256 * Pow2(32);
    assert Pow2(48) == 256 * Pow2(40);
    assert Pow2(56) == 256 * Pow2(48);
    assert Pow2(64) == 256 * Pow2(56);
  }

  // ---- counting ----------------------------------------------------------------------------------

  lemma {:induction false} OnesBelowHalf(v: nat, n: nat)
    requires n > 0
    ensures OnesBelow(v, n) == v % 2 + OnesBelow(v / 2, n - 1)
  {
    if n > 1 {
      OnesBelowHalf(v, n - 1);
      BitOfHalf(v, n - 1);
    }
  }

  /** Shifting all ones out counts exactly the set positions. */
  lemma {:induction false} OnesArePositions(v: nat, width: nat)
    requires v < Pow2(width)
    ensures Ones(v) == OnesBelow(v, width)
  {
    if width > 0 {
      OnesArePositions(v / 2, width - 1);
      OnesBelowHalf(v, width);
      if v == 0 {
        assert v / 2 == 0;
      }
    }
  }

  method CountOnes(bits: nat) returns (c: nat)
    ensures c == Ones(bits)
  {
    c := 0;
    var v := bits;
    while v > 0
      invariant c + Ones(v) == Ones(bits)
    {
      c := c + v % 2;
      v := v / 2;
    }
  }

  // ---- mouse buttons -------------------------------------------------------------------------------

  /** The buttons below `n` that are pressed, in ascending order. */
  function PressedButtons(bits: Byte, n: nat): (r: seq<nat>)
    ensures |r| == OnesBelow(bits, n)
    ensures forall i :: 0 <= i < |r| ==> r[i] < n && Bit(bits, r[i])
    ensures forall i, j :: 0 <= i < j < |r| ==> r[i] < r[j]
    ensures forall b: nat :: b < n && Bit(bits, b) ==> b in r
  {
    if n == 0 then []
    else PressedButtons(bits, n - 1) + (if Bit(bits, n - 1) then [n - 1] else [])
  }

  class MouseButtonBitmap {
    var bits: Byte

    predicate IsPressed(button: nat)
      reads this
    {
      Bit(bits, button)
    }

    /** Buttons past the eighth fall off the byte. */
    method SetPressed(button: nat)
      modifies this
      ensures forall b: nat :: IsPressed(b) <==> old(IsPressed(b)) || (b == button && button < 8)
    {
      if button < 8 {
        Widths();
        WithBitFits(bits, button, true, 8);
        forall b: nat ensures Bit(WithBit(bits, button, true), b) <==> Bit(bits, b) || b == button {
          WithBitIs(bits, button, true, b);
        }
        bits := WithBit(bits, button, true);
      }
    }

    method ClearPressed(button: nat)
      modifies this
      ensures forall b: nat :: b < 8 ==> (IsPressed(b) <==> old(IsPressed(b)) && b != button)
    {
      if button < 8 {
        Widths();
        WithBitFits(bits, button, false, 8);
        forall b: nat ensures Bit(WithBit(bits, button, false), b) <==> Bit(bits, b) && b != button {
          WithBitIs(bits, button, false, b);
        }
        bits := WithBit(bits, button, false);
      }
    }

    method Count() returns (c: nat)
      ensures c == |PressedButtons(bits, 8)|
    {
      Widths();
      OnesArePositions(bits, 8);
      c := CountOnes(bits);
    }
  }

  // ---- keys --------------------------------------------------------------------------------------

  type KeyWords = w: seq<Word> | |w| == 4 witness [0, 0, 0, 0]

  predicate KeyPressed(words: KeyWords, code: nat) {
    code < 256 && Bit(words[code / 64], code % 64)
  }

  function WithKey(words: KeyWords, code: nat, on: bool): (r: KeyWords)
    ensures forall c: nat :: KeyPressed(r, c) <==> if c == code && code < 256 then on else KeyPressed(words, c)
  {
    if code >= 256 then words
    else
      Widths();
      WithBitFits(words[code / 64], code % 64, on, 64);
      var r: KeyWords := words[code / 64 := WithBit(words[code / 64], code % 64, on)];
      assert forall c: nat :: KeyPressed(r, c) <==> if c == code then on else KeyPressed(words, c) by {
        forall c: nat
          ensures KeyPressed(r, c) <==> if c == code then on else KeyPressed(words, c)
        {
          WithBitIs(words[code / 64], code % 64, on, c % 64);
        }
      }
      r
  }

  /** The keys below `n` that are pressed, in ascending order. */
  function PressedKeys(words: KeyWords, n: nat): (r: seq<nat>)
    ensures forall i :: 0 <= i < |r| ==> r[i] < n && KeyPressed(words, r[i])
    ensures forall i, j :: 0 <= i < j < |r| ==> r[i] < r[j]
    ensures forall c: nat :: c < n && KeyPressed(words, c) ==> c in r
  {
    if n == 0 then []
    else PressedKeys(words, n - 1) + (if KeyPressed(words, n - 1) then [n - 1] else [])
  }

  function OnesOfFirst(words: KeyWords, k: nat): nat
    requires k <= 4
  {
    if k == 0 then 0 else OnesOfFirst(words, k - 1) + Ones(words[k - 1])
  }

  lemma {:induction false} KeysInWord(words: KeyWords, k: nat, n: nat)
    requires k < 4 && n <= 64
    ensures |PressedKeys(words, 64 * k + n)| == |PressedKeys(words, 64 * k)| + OnesBelow(words[k], n)
  {
    if n > 0 {
      KeysInWord(words, k, n - 1);
      var code := 64 * k + n - 1;
      assert code / 64 == k && code % 64 == n - 1;
    }
  }

  /** The ones of the four words are the pressed keys. */
  lemma {:induction false} OnesArePressedKeys(words: KeyWords, k: nat)
    requires k <= 4
    ensures OnesOfFirst(words, k) == |PressedKeys(words, 64 * k)|
  {
    if k > 0 {
      OnesArePressedKeys(words, k - 1);
      KeysInWord(words, k - 1, 64);
      Widths();
      OnesArePositions(words[k - 1], 64);
    }
  }

  class KeyCodeBitmap {
    const words: array<Word>

    ghost predicate Valid()
      reads this
    {
      words.Length == 4
    }

    constructor ()
      ensures Valid() && fresh(words) && words[..] == [0, 0, 0, 0]
    {
      words := new Word[4](_ => 0);
    }

    predicate IsPressed(code: nat)
      requires Valid()
      reads this, words
      ensures IsPressed(code) <==> KeyPressed(words[..], code)
    {
      if code >= 256 then false else Bit(words[code / 64], code % 64)
    }

    method SetPressed(code: nat)
      requires Valid()
      modifies words
      ensures words[..] == WithKey(old(words[..]), code, true)
    {
      if code >= 256 {
        return;
      }
      Widths();
      WithBitFits(words[code / 64], code % 64, true, 64);
      words[code / 64] := WithBit(words[code / 64], code % 64, true);
    }

    method ClearPressed(code: nat)
      requires Valid()
      modifies words
      ensures words[..] == WithKey(old(words[..]), code, false)
    {
      if code >= 256 {
        return;
      }
      Widths();
      WithBitFits(words[code / 64], code % 64, false, 64);
      words[code / 64] := WithBit(words[code / 64], code % 64, false);
    }

    method Count() returns (c: nat)
      requires Valid()
      ensures c == |PressedKeys(words[..], 256)|
    {
      c := 0;
      var k := 0;
      while k < 4
        invariant 0 <= k <= 4 && c == OnesOfFirst(words[..], k)
      {
        var ones := CountOnes(words[k]);
        c := c + ones;
        k := k + 1;
      }
      OnesArePressedKeys(words[..], 4);
    }
  }
}
