/**
 The odd-parity code: the node's shift loop, the two Python readings of the same bit, and what the code can
 and cannot detect.
 */
module Parity {
  import opened Text

  // ---------- bits ----------

  /** Bit `k` of `n`, least significant first. */
  predicate Bit(n: nat, k: nat) {
    if k == 0 then n % 2 == 1 else Bit(n / 2, k - 1)
  }

  /** The number of set bits. */
  function Ones(n: nat): nat {
    if n == 0 then 0 else n % 2 + Ones(n / 2)
  }

  /** Bitwise exclusive or. */
  function Xor(a: nat, b: nat): nat
    decreases a + b
  {
    if a == 0 && b == 0 then 0 else (a % 2 + b % 2) % 2 + 2 * Xor(a / 2, b / 2)
  }

  function Pow2(k: nat): nat {
    if k == 0 then 1 else 2 * Pow2(k - 1)
  }

  lemma {:induction false} XorBits(a: nat, b: nat, k: nat)
    ensures Bit(Xor(a, b), k) <==> Bit(a, k) != Bit(b, k)
    decreases k
  {
    XorHalves(a, b);
    hide Xor;
    if k > 0 {
      XorBits(a / 2, b / 2, k - 1);
    }
  }

  /** Bit `k` is the parity of the number over two to the power `k`. */
  lemma {:induction false} BitIsDigit(n: nat, k: nat)
    ensures Pow2(k) > 0
    ensures Bit(n, k) <==> n / Pow2(k) % 2 == 1
    decreases k
  {
    if k > 0 {
      BitIsDigit(n / 2, k - 1);
      HalveThenDivide(n, Pow2(k - 1));
    }
  }

  lemma HalveThenDivide(n: nat, d: nat)
    requires d > 0
    ensures n / (2 * d) == n / 2 / d
  {
    var q, r := n / 2 / d, n / 2 % d;
    assert n / 2 == q * d + r;
    assert n == q * (2 * d) + (2 * r + n % 2);
    QuotientIs(n, 2 * d, q, 2 * r + n % 2);
  }

  lemma XorHalves(a: nat, b: nat)
    ensures Xor(a, b) / 2 == Xor(a / 2, b / 2)
    ensures Xor(a, b) % 2 == (a % 2 + b % 2) % 2
  {
  }

  /** How many of the first `width` positions are set, asked one position at a time. */
  function SetBits(n: nat, width: nat): nat {
    if width == 0 then 0 else SetBits(n, width - 1) + if Bit(n, width - 1) then 1 else 0
  }

  /** Ones counts exactly the positions whose bit is set. */
  lemma {:induction false} OnesCountsBits(n: nat, width: nat)
    requires n < Pow2(width)
    ensures Ones(n) == SetBits(n, width)
  {
    if width > 0 {
      OnesCountsBits(n / 2, width - 1);
      SetBitsStep(n, width);
      OnesStep(n);
    }
  }

  lemma {:induction false} SetBitsStep(n: nat, width: nat)
    requires width > 0
    ensures SetBits(n, width) == n % 2 + SetBits(n / 2, width - 1)
  {
    if width > 1 {
      SetBitsStep(n, width - 1);
    }
  }

  /** The number of positions set in both. */
  function Common(a: nat, b: nat): nat
    decreases a + b
  {
    if a == 0 && b == 0 then 0 else (a % 2) * (b % 2) + Common(a / 2, b / 2)
  }

  /** Flipping the bits of a mask changes the number of set bits by the mask's weight, modulo two. */
  lemma {:induction false} XorOnes(a: nat, b: nat)
    ensures Ones(Xor(a, b)) + 2 * Common(a, b) == Ones(a) + Ones(b)
    decreases a + b
  {
    if a != 0 || b != 0 {
      XorOnes(a / 2, b / 2);
      XorStep(a, b);
      OnesStep(a);
      OnesStep(b);
      OnesStep(Xor(a, b));
    }
  }

  lemma XorStep(a: nat, b: nat)
    ensures Xor(a, b) / 2 == Xor(a / 2, b / 2)
    ensures Xor(a, b) % 2 + 2 * Common(a, b) == a % 2 + b % 2 + 2 * Common(a / 2, b / 2)
  {
    var x, y := a % 2, b % 2;
    assert (x == 0 || x == 1) && (y == 0 || y == 1);
    assert x * y == if x == 1 then y else 0;
    assert Common(a, b) == x * y + Common(a / 2, b / 2);
    assert Xor(a, b) == (x + y) % 2 + 2 * Xor(a / 2, b / 2);
  }

  lemma OnesStep(n: nat)
    ensures Ones(n) == n % 2 + Ones(n / 2)
  {
  }

  lemma {:induction false} PowerOnes(k: nat)
    ensures Ones(Pow2(k)) == 1
  {
    if k > 0 {
      PowerOnes(k - 1);
      OnesDoubled(Pow2(k - 1));
    }
  }

  lemma OnesDoubled(n: nat)
    ensures Ones(2 * n) == Ones(n)
  {
    assert (2 * n) % 2 == 0 && (2 * n) / 2 == n;
  }

  // ---------- the node: calculate_odd_parity ----------

  /** The parity bit that makes the total number of set bits odd. */
  function OddParity(n: nat): nat {
    if Ones(n) % 2 == 0 then 1 else 0
  }

  /** `num` after `k` rounds of `num >>= 1`; the shift of a negative int is arithmetic, so it floors. */
  function Shifted(num: int, k: nat): int
    decreases k
  {
    if k == 0 then num else Shifted(num / 2, k - 1)
  }

  lemma {:induction false} ShiftedStep(num: int, k: nat)
    ensures Shifted(num, k + 1) == Shifted(num, k) / 2
    decreases k
  {
    if k > 0 {
      ShiftedStep(num / 2, k - 1);
    }
  }

  lemma {:induction false} ShiftedNegative(num: int, k: nat)
    requires num < 0
    ensures Shifted(num, k) < 0
    decreases k
  {
    if k > 0 {
      ShiftedNegative(num / 2, k - 1);
    }
  }

  lemma {:induction false} ShiftedVanishes(num: nat, k: nat)
    requires num < Pow2(k)
    ensures Shifted(num, k) == 0
  {
    if k > 0 {
      ShiftedVanishes(num / 2, k - 1);
    }
  }

  lemma {:induction false} BelowSomePower(num: nat)
    ensures num < Pow2(num)
  {
    if num > 0 {
      BelowSomePower(num - 1);
    }
  }

  /** `while (num)` reaches its exit: some number of shifts leaves nothing. */
  ghost predicate ParityLoopEnds(num: int) {
    exists k: nat :: Shifted(num, k) == 0
  }

  /** The loop reaches its exit exactly for the arguments that are not negative. */
  lemma ShiftLoopEndsIff(num: int)
    ensures ParityLoopEnds(num) <==> num >= 0
  {
    if num >= 0 {
      BelowSomePower(num);
      ShiftedVanishes(num, num);
    } else {
      forall k: nat ensures Shifted(num, k) != 0 {
        ShiftedNegative(num, k);
      }
    }
  }

  /**
   `calculate_odd_parity`. `rounds` counts the loop's iterations: it is the first shift that leaves nothing,
   and no int16 needs more than fifteen.
   */
  method CalculateOddParity(num: int) returns (parityBit: int, ghost rounds: nat)
    requires num >= 0
    ensures parityBit == OddParity(num)
    ensures Shifted(num, rounds) == 0
    ensures forall k: nat :: k < rounds ==> Shifted(num, k) != 0
    ensures num < 32768 ==> rounds <= 15
  {
    var rest: nat := num;
    var count := 0;
    rounds := 0;
    while rest != 0
      invariant rest == Shifted(num, rounds)
      invariant count + Ones(rest) == Ones(num)
      invariant forall k: nat :: k < rounds ==> Shifted(num, k) != 0
      decreases rest
    {
      ShiftedStep(num, rounds);
      count := count + rest % 2;
      rest := rest / 2;
      rounds := rounds + 1;
    }
    parityBit := if count % 2 == 0 then 1 else 0;
    if num < 32768 {
      assert Pow2(15) == 32768;
      ShiftedVanishes(num, 15);
    }
  }

  // ---------- Python: bin(...).count('1') ----------

  function Abs(v: int): (a: nat)
    ensures a == v || a == -v
  {
    if v < 0 then -v else v
  }

  function BinDigits(n: nat): string {
    if n < 2 then [DigitChar(n)] else BinDigits(n / 2) + [DigitChar(n % 2)]
  }

  /** `bin(v)`, with its sign and its `0b` prefix. */
  function Bin(v: int): string {
    (if v < 0 then "-0b" else "0b") + BinDigits(Abs(v))
  }

  /** `s.count(c)` for a single character. */
  function Count(s: string, c: char): nat {
    if s == [] then 0 else Count(s[..|s| - 1], c) + if s[|s| - 1] == c then 1 else 0
  }

  lemma {:induction false} CountConcat(s: string, t: string, c: char)
    ensures Count(s + t, c) == Count(s, c) + Count(t, c)
  {
    if t == [] {
      assert s + t == s;
    } else {
      assert (s + t)[..|s + t| - 1] == s + t[..|t| - 1];
      CountConcat(s, t[..|t| - 1], c);
    }
  }

  lemma {:induction false} BinDigitsOnes(n: nat)
    ensures Count(BinDigits(n), '1') == Ones(n)
  {
    if n >= 2 {
      BinDigitsOnes(n / 2);
      assert BinDigits(n)[..|BinDigits(n)| - 1] == BinDigits(n / 2);
    } else {
      assert BinDigits(n)[..0] == "";
      OnesStep(n);
    }
  }

  /** Counting characters of the printed form and shifting bits out give the same number. */
  lemma BinOnes(v: int)
    ensures Count(Bin(v), '1') == Ones(Abs(v))
  {
    CountConcat(if v < 0 then "-0b" else "0b", BinDigits(Abs(v)), '1');
    BinDigitsOnes(Abs(v));
    NoOnesInPrefix();
  }

  lemma NoOnesInPrefix()
    ensures Count("0b", '1') == 0 && Count("-0b", '1') == 0
  {
    assert "0b"[..1] == "0" && "-0b"[..2] == "-0" && "-0"[..1] == "-" && "0"[..0] == "" && "-"[..0] == "";
  }

  /** `parityCheck(value, parity)`. Python's `% 2` is never negative, like Dafny's. */
  predicate ParityCheck(value: int, parity: int) {
    (Count(Bin(value), '1') + parity) % 2 == 1
  }

  // ---------- what the code promises ----------

  /** Of the two possible parity bits, `parityCheck` accepts the one the node computes and no other. */
  lemma AcceptsOnlyNodeParity(value: int, parity: int)
    requires parity == 0 || parity == 1
    ensures ParityCheck(value, parity) <==> parity == OddParity(Abs(value))
  {
    hide Count, Bin, Ones, Abs;
    BinOnes(value);
  }

  /** The check depends on a value and a parity token through the parity of their set bits alone. */
  lemma CheckIsOnes(value: int, parity: int)
    ensures ParityCheck(value, parity) <==> (Ones(Abs(value)) + parity) % 2 == 1
  {
    hide Count, Bin, Ones, Abs;
    BinOnes(value);
  }

  /** A damaged value keeps its verdict exactly when the damage has an even number of set bits. */
  lemma Detection(v: nat, mask: nat, parity: int)
    ensures ParityCheck(Xor(v, mask), parity) == ParityCheck(v, parity) <==> Ones(mask) % 2 == 0
  {
    hide ParityCheck, Ones, Xor, Common;
    CheckIsOnes(v, parity);
    CheckIsOnes(Xor(v, mask), parity);
    XorOnes(v, mask);
    SameVerdictIff(Ones(Xor(v, mask)), Common(v, mask), Ones(v), Ones(mask), parity);
  }

  lemma SameVerdictIff(x: nat, c: nat, v: nat, m: nat, p: int)
    requires x + 2 * c == v + m
    ensures ((x + p) % 2 == 1) == ((v + p) % 2 == 1) <==> m % 2 == 0
  {
  }

  /** Any single-bit error, in the value or in the parity token, turns an accepted pair into a rejected one. */
  lemma SingleBitErrorsCaught(v: nat, k: nat)
    ensures ParityCheck(v, OddParity(v))
    ensures !ParityCheck(Xor(v, Pow2(k)), OddParity(v))
    ensures !ParityCheck(v, 1 - OddParity(v))
  {
    AcceptsOnlyNodeParity(v, OddParity(v));
    AcceptsOnlyNodeParity(v, 1 - OddParity(v));
    PowerOnes(k);
    Detection(v, Pow2(k), OddParity(v));
  }
}
