/**
 The server's `decodeTemperature`: which readings of a batch it returns, and what it puts in the place of
 a damaged one. Raw values are hundredths of a degree; an accepted one is divided by 100 and an
 interpolated one is not.
 */
module Decoder {
  import opened Wrappers
  import opened Text
  import opened Parity
  import opened Wire

  datatype Error = ValueError | IndexError

  predicate Accepted(p: Pair) {
    ParityCheck(p.value, p.parity)
  }

  /** Python's `(prev + next) // 2`. */
  function FloorMean(a: int, b: int): int {
    (a + b) / 2
  }

  /** What pair `k` contributes: a scaled reading, an unscaled interpolation, or nothing at either end. */
  function Contribution(ps: seq<Pair>, k: nat): seq<real>
    requires k < |ps|
  {
    if Accepted(ps[k]) then [ps[k].value as real / 100.0]
    else if 0 < k < |ps| - 1 then [FloorMean(ps[k - 1].value, ps[k + 1].value) as real]
    else []
  }

  /** The contributions of the first `n` pairs, in order. */
  function Readings(ps: seq<Pair>, n: nat): seq<real>
    requires n <= |ps|
  {
    if n == 0 then [] else Readings(ps, n - 1) + Contribution(ps, n - 1)
  }

  function Pairs(ts: seq<int>): (ps: seq<Pair>)
    requires |ts| % 2 == 0
    ensures |ps| == |ts| / 2
    ensures forall k :: 0 <= k < |ps| ==> ps[k] == Pair(ts[2 * k], ts[2 * k + 1])
  {
    seq(|ts| / 2, k requires 0 <= k < |ts| / 2 => Pair(ts[2 * k], ts[2 * k + 1]))
  }

  /** `decodeTemperature(message)`, with the two exceptions it can raise. */
  function Decode(message: string): Result<seq<real>, Error> {
    match Tokens(message)
    case None => Err(ValueError)
    case Some(ts) => if |ts| % 2 == 1 then Err(IndexError) else var ps := Pairs(ts); Ok(Readings(ps, |ps|))
  }

  /** What one pass of the loop adds, told from the tokens around index `i`. */
  lemma ReadingsAtToken(ts: seq<int>, i: nat)
    requires |ts| % 2 == 0 && i % 2 == 0 && i + 1 < |ts|
    ensures Readings(Pairs(ts), (i + 2) / 2) == Readings(Pairs(ts), i / 2) +
      if ParityCheck(ts[i], ts[i + 1]) then [ts[i] as real / 100.0]
      else if 0 < i && i + 2 < |ts| then [FloorMean(ts[i - 2], ts[i + 2]) as real]
      else []
  {
    hide ParityCheck, FloorMean;
    var ps, k := Pairs(ts), i / 2;
    assert ps[k] == Pair(ts[i], ts[i + 1]);
    if 0 < i && i + 2 < |ts| {
      assert ps[k - 1].value == ts[i - 2] && ps[k + 1].value == ts[i + 2];
    }
  }

  /** The loop of `decodeTemperature`, token by token. Every index it uses is in range or raises IndexError. */
  method DecodeTemperature(message: string) returns (r: Result<seq<real>, Error>)
    ensures r == Decode(message)
    ensures Tokens(message) == None ==> r == Err(ValueError)
    ensures Tokens(message).Some? && |Tokens(message).value| % 2 == 1 ==> r == Err(IndexError)
    ensures Tokens(message).Some? && |Tokens(message).value| % 2 == 0 ==> r.Ok?
    ensures r.Ok? ==> OutputsAre(Tokens(message).value, r.value)
  {
    hide Tokens, ParityCheck, FloorMean, Readings, Pairs, OutputsAre;
    var parsed := Tokens(message);
    if parsed == None {
      return Err(ValueError);
    }
    var ts := parsed.value;
    var out: seq<real> := [];
    if |ts| % 2 == 0 {
      NoReadings(ts);
    }
    var i := 0;
    while i < |ts|
      invariant i % 2 == 0 && i <= |ts|
      invariant |ts| % 2 == 0 ==> out == Readings(Pairs(ts), i / 2)
      decreases |ts| - i
    {
      if i + 1 >= |ts| {
        return Err(IndexError);
      }
      var value, parity := ts[i], ts[i + 1];
      if |ts| % 2 == 0 {
        ReadingsAtToken(ts, i);
      }
      if ParityCheck(value, parity) {
        out := out + [value as real / 100.0];
      } else if 0 < i && i + 2 < |ts| {
        var prev, next := ts[i - 2], ts[i + 2];
        out := out + [FloorMean(prev, next) as real];
      }
      i := i + 2;
    }
    r := Ok(out);
    OutputLaw(ts);
  }

  lemma NoReadings(ts: seq<int>)
    requires |ts| % 2 == 0
    ensures Readings(Pairs(ts), 0) == []
  {
  }

  // ---------- shape of the output ----------

  /** 1 when the first pair is lost, which moves every later reading one place down. */
  function Lead(ps: seq<Pair>): nat {
    if ps != [] && !Accepted(ps[0]) then 1 else 0
  }

  /** 1 when the last pair is lost and is not also the first. */
  function Tail(ps: seq<Pair>): nat {
    if |ps| > 1 && !Accepted(ps[|ps| - 1]) then 1 else 0
  }

  lemma {:induction false} ReadingsLength(ps: seq<Pair>, n: nat)
    requires n <= |ps|
    ensures |Readings(ps, n)| == n - (if n > 0 then Lead(ps) else 0) - (if n == |ps| then Tail(ps) else 0)
  {
    if n > 0 {
      ReadingsLength(ps, n - 1);
    }
  }

  /** Output-count law: only a failing first pair and a failing last pair cost a reading. */
  lemma OutputCount(ps: seq<Pair>)
    ensures |Readings(ps, |ps|)| == |ps| - Lead(ps) - Tail(ps)
  {
    ReadingsLength(ps, |ps|);
  }

  lemma {:induction false} ReadingsPrefix(ps: seq<Pair>, m: nat, n: nat)
    requires m <= n <= |ps|
    ensures Readings(ps, m) <= Readings(ps, n)
    decreases n - m
  {
    if m < n {
      ReadingsPrefix(ps, m, n - 1);
    }
  }

  /** Every pair but a failing end pair has its reading at its own index, less one if the first pair was lost. */
  lemma ReadingAt(ps: seq<Pair>, k: nat)
    requires k < |ps| && (Accepted(ps[k]) || 0 < k < |ps| - 1)
    ensures k - Lead(ps) >= 0
    ensures k - Lead(ps) < |Readings(ps, |ps|)|
    ensures [Readings(ps, |ps|)[k - Lead(ps)]] == Contribution(ps, k)
  {
    hide ParityCheck, FloorMean;
    ReadingsLength(ps, k);
    assert Readings(ps, k + 1) == Readings(ps, k) + Contribution(ps, k);
    hide Readings;
    ReadingsPrefix(ps, k + 1, |ps|);
    assert Readings(ps, k + 1)[k - Lead(ps)] == Contribution(ps, k)[0];
  }

  /** With every pair accepted, the decoder returns the values over 100, all of them and in order. */
  lemma AllAccepted(ps: seq<Pair>)
    requires forall k :: 0 <= k < |ps| ==> Accepted(ps[k])
    ensures |Readings(ps, |ps|)| == |ps|
    ensures forall k :: 0 <= k < |ps| ==> Readings(ps, |ps|)[k] == ps[k].value as real / 100.0
  {
    OutputCount(ps);
    forall k | 0 <= k < |ps| ensures Readings(ps, |ps|)[k] == ps[k].value as real / 100.0 {
      ReadingAt(ps, k);
    }
  }

  /** A printed batch decodes to the readings of its pairs, damaged or not. */
  lemma DecodeOfEncode(ps: seq<Pair>)
    requires ps != []
    ensures Decode(Encode(ps)) == Ok(Readings(ps, |ps|))
  {
    hide Tokens, Encode, Readings;
    TokensOfEncode(ps);
    assert Pairs(Flatten(ps)) == ps;
  }

  /** The interpolated integer is half the sum, rounded down, also below zero. */
  lemma FloorMeanLaw(a: int, b: int)
    ensures var x := FloorMean(a, b); 2 * x <= a + b <= 2 * x + 1
    ensures FloorMean(3500, 3503) == 3501 && FloorMean(-3, 0) == -2
  {
  }

  /** `output` is an integer, half the sum of `a` and `b`, rounded down. */
  predicate HalfOf(output: real, a: int, b: int) {
    output == output.Floor as real && 2 * output.Floor <= a + b <= 2 * output.Floor + 1
  }

  /**
   The output of the tokens around index `2 * k`, when `first` readings are lost before it: the value over 100 or,
   between two others, half the neighbours' sum, rounded down.
   */
  ghost predicate OutputAt(ts: seq<int>, outs: seq<real>, first: nat, k: nat)
    requires 2 * k + 1 < |ts|
  {
    var accepted := ParityCheck(ts[2 * k], ts[2 * k + 1]);
    var inside := 0 < k && 2 * k + 2 < |ts|;
    accepted || inside ==>
      && 0 <= k - first < |outs|
      && if accepted then outs[k - first] == ts[2 * k] as real / 100.0
         else HalfOf(outs[k - first], ts[2 * k - 2], ts[2 * k + 2])
  }

  /** The outputs of an even list of tokens, told from the tokens alone. */
  ghost predicate OutputsAre(ts: seq<int>, outs: seq<real>) {
    var n := |ts| / 2;
    var first := if n > 0 && !ParityCheck(ts[0], ts[1]) then 1 else 0;
    var last := if n > 1 && !ParityCheck(ts[2 * n - 2], ts[2 * n - 1]) then 1 else 0;
    && |outs| == n - first - last
    && forall k :: 0 <= k < n ==> OutputAt(ts, outs, first, k)
  }

  /** At a rejected interior pair the reading is half the sum of the raw neighbours, rounded down. */
  lemma InterpolatedReading(ps: seq<Pair>, k: nat)
    requires 0 < k < |ps| - 1 && !Accepted(ps[k])
    ensures 0 <= k - Lead(ps) < |Readings(ps, |ps|)|
    ensures var x := Readings(ps, |ps|)[k - Lead(ps)];
      x == x.Floor as real && 2 * x.Floor <= ps[k - 1].value + ps[k + 1].value <= 2 * x.Floor + 1
  {
    hide Accepted, Readings, FloorMean, Lead;
    ReadingAt(ps, k);
    FloorMeanLaw(ps[k - 1].value, ps[k + 1].value);
  }

  lemma OutputOfPair(ts: seq<int>, k: nat)
    requires |ts| % 2 == 0 && 2 * k + 1 < |ts|
    ensures var ps := Pairs(ts); OutputAt(ts, Readings(ps, |ps|), Lead(ps), k)
  {
    hide ParityCheck, Readings, FloorMean, Lead;
    var ps := Pairs(ts);
    assert ps[k] == Pair(ts[2 * k], ts[2 * k + 1]);
    if Accepted(ps[k]) {
      ReadingAt(ps, k);
    } else if 0 < k < |ps| - 1 {
      assert ps[k - 1].value == ts[2 * k - 2] && ps[k + 1].value == ts[2 * k + 2];
      InterpolatedReading(ps, k);
    }
  }

  /** The decoder's outputs, value by value: nothing here speaks of how they are computed. */
  lemma OutputLaw(ts: seq<int>)
    requires |ts| % 2 == 0
    ensures OutputsAre(ts, Readings(Pairs(ts), |ts| / 2))
  {
    hide ParityCheck, Readings, OutputAt;
    var ps := Pairs(ts);
    OutputCount(ps);
    assert ps != [] ==> ps[0] == Pair(ts[0], ts[1]);
    assert |ps| > 1 ==> ps[|ps| - 1] == Pair(ts[2 * |ps| - 2], ts[2 * |ps| - 1]);
    forall k | 0 <= k < |ps| ensures OutputAt(ts, Readings(ps, |ps|), Lead(ps), k) {
      OutputOfPair(ts, k);
    }
  }

  // ---------- the exceptions ----------

  /** An odd number of integers raises IndexError, whatever they are. */
  lemma OddRaises(ts: seq<int>, last: char)
    requires |ts| % 2 == 1
    ensures Decode(Join(PrintAll(ts), ',') + [last]) == Err(IndexError)
  {
    hide Join, PrintInt, Tokens, Readings;
    TokensPadded(ts, "", "", last);
    assert "" + Join(PrintAll(ts), ',') + "" + [last] == Join(PrintAll(ts), ',') + [last];
  }

  /** A message of at most one character, or with an alien character before its last, raises ValueError. */
  lemma AlienRaises(message: string)
    requires |message| <= 1
             || exists i :: 0 <= i < |message| - 1
                            && !IsDigit(message[i]) && !IsSpace(message[i]) && message[i] !in "+-,"
    ensures Decode(message) == Err(ValueError)
  {
    hide Tokens, Readings;
    if |message| <= 1 {
      ShortRefused(message);
    } else {
      var i :| 0 <= i < |message| - 1 && !IsDigit(message[i]) && !IsSpace(message[i]) && message[i] !in "+-,";
      AlienRefused(message, i);
    }
  }

  // ---------- damage ----------

  /** Pair `j` shows nothing of its neighbours: it is accepted, or it is an end pair. */
  predicate Insulated(ps: seq<Pair>, j: nat)
    requires j < |ps|
  {
    Accepted(ps[j]) || j == 0 || j == |ps| - 1
  }

  /** `outs` with the reading of pair `k` replaced by the floor mean of its raw neighbours. */
  function ReplaceReading(ps: seq<Pair>, k: nat, outs: seq<real>): seq<real>
    requires 0 < k < |ps| - 1
  {
    var at := k - Lead(ps);
    if 0 <= at < |outs| then outs[at := FloorMean(ps[k - 1].value, ps[k + 1].value) as real] else outs
  }

  /** Changing pair `k` to `q` changes the reading of that pair and no other. */
  ghost predicate OnlyReplaced(ps: seq<Pair>, k: nat, q: Pair)
    requires 0 < k < |ps| - 1
  {
    && 0 <= k - Lead(ps) < |Readings(ps, |ps|)|
    && Readings(ps[k := q], |ps|) == ReplaceReading(ps, k, Readings(ps, |ps|))
  }

  /** The floor mean lies between its two arguments. */
  lemma FloorMeanBetween(a: int, b: int, lo: int, hi: int)
    requires lo <= a <= hi && lo <= b <= hi
    ensures lo <= FloorMean(a, b) <= hi
  {
  }

  lemma SameContribution(ps: seq<Pair>, k: nat, q: Pair, j: nat)
    requires k < |ps| && j < |ps| && j != k && (j == k - 1 || j == k + 1 ==> Insulated(ps, j))
    ensures Contribution(ps[k := q], j) == Contribution(ps, j)
  {
    hide ParityCheck, FloorMean;
  }

  lemma DamagedContribution(ps: seq<Pair>, k: nat, q: Pair)
    requires 0 < k < |ps| - 1 && !Accepted(q)
    ensures |Contribution(ps, k)| == 1
    ensures Contribution(ps[k := q], k) == [FloorMean(ps[k - 1].value, ps[k + 1].value) as real]
  {
    hide ParityCheck, FloorMean;
  }

  lemma {:induction false} ReadingsBeforeDamage(ps: seq<Pair>, k: nat, q: Pair, n: nat)
    requires 0 < k < |ps| - 1 && !Accepted(q) && n <= k
    requires Insulated(ps, k - 1)
    ensures Readings(ps[k := q], n) == Readings(ps, n)
  {
    hide Accepted, FloorMean, Contribution, Insulated;
    if n > 0 {
      ReadingsBeforeDamage(ps, k, q, n - 1);
      SameContribution(ps, k, q, n - 1);
    }
  }

  lemma Regrouped(a: seq<real>, b: seq<real>, c: seq<real>)
    ensures a + b + c == a + (b + c)
  {
  }

  /** The readings up to pair `n` are those before the damaged one, its own, and those after it. */
  lemma {:induction false} ReadingsAroundDamage(ps: seq<Pair>, k: nat, q: Pair, n: nat)
    requires 0 < k < |ps| - 1 && !Accepted(q) && k < n <= |ps|
    requires Insulated(ps, k - 1) && Insulated(ps, k + 1)
    ensures exists rest ::
      && Readings(ps, n) == Readings(ps, k) + Contribution(ps, k) + rest
      && Readings(ps[k := q], n) == Readings(ps, k) + Contribution(ps[k := q], k) + rest
  {
    hide Accepted, FloorMean, Contribution, Insulated;
    var first, second := Readings(ps, k) + Contribution(ps, k), Readings(ps, k) + Contribution(ps[k := q], k);
    if n == k + 1 {
      ReadingsBeforeDamage(ps, k, q, k);
      assert first + [] == first && second + [] == second;
    } else {
      ReadingsAroundDamage(ps, k, q, n - 1);
      var rest :| Readings(ps, n - 1) == first + rest && Readings(ps[k := q], n - 1) == second + rest;
      SameContribution(ps, k, q, n - 1);
      var more := Contribution(ps, n - 1);
      Regrouped(first, rest, more);
      Regrouped(second, rest, more);
    }
  }

  /**
   Fault locality: when both neighbours are insulated, breaking an interior pair changes no other
   reading and puts the floor mean of the raw neighbours at its place.
   */
  lemma FaultLocality(ps: seq<Pair>, k: nat, q: Pair)
    requires 0 < k < |ps| - 1 && !Accepted(q)
    requires Insulated(ps, k - 1) && Insulated(ps, k + 1)
    ensures OnlyReplaced(ps, k, q)
  {
    hide Accepted, Readings, Contribution, FloorMean, Insulated;
    ReadingsAroundDamage(ps, k, q, |ps|);
    DamagedContribution(ps, k, q);
    ReadingsLength(ps, k);
    var rest :| Readings(ps, |ps|) == Readings(ps, k) + Contribution(ps, k) + rest
                && Readings(ps[k := q], |ps|) == Readings(ps, k) + Contribution(ps[k := q], k) + rest;
    SwapMiddle(Readings(ps, k), Contribution(ps, k)[0], Contribution(ps[k := q], k)[0], rest);
  }

  lemma SwapMiddle(front: seq<real>, x: real, y: real, rest: seq<real>)
    ensures (front + [x] + rest)[|front| := y] == front + [y] + rest
  {
  }

  /** A rejected pair with a given value always exists: one of the two parity bits is wrong. */
  function Rejected(v: int): (q: Pair)
    ensures !Accepted(q) && q.value == v
  {
    if ParityCheck(v, 0) then Pair(v, 1) else Pair(v, 0)
  }

  /** Raising one neighbour by two raises the interpolated value by one. */
  lemma LeakyNeighbour(ps: seq<Pair>, k: nat, j: nat)
    requires 0 < k < |ps| - 1 && (j == k - 1 || j == k + 1) && !Insulated(ps, j)
    ensures !OnlyReplaced(ps, k, Rejected(ps[k].value + 2))
  {
    hide ParityCheck, Readings;
    var q := Rejected(ps[k].value + 2);
    var qs := ps[k := q];
    ReadingAt(ps, j);
    ReadingAt(qs, j);
    assert Lead(qs) == Lead(ps);
    assert Contribution(qs, j)[0] == Contribution(ps, j)[0] + 1.0;
  }

  /**
   Exactly when damage stays local: neither neighbour is itself a damaged interior pair. The decoder
   interpolates from raw neighbours without looking at their parity, so such a neighbour passes damage on.
   */
  lemma FaultLocalityIff(ps: seq<Pair>, k: nat)
    requires 0 < k < |ps| - 1
    ensures (forall q :: !Accepted(q) ==> OnlyReplaced(ps, k, q)) <==> Insulated(ps, k - 1) && Insulated(ps, k + 1)
  {
    if Insulated(ps, k - 1) && Insulated(ps, k + 1) {
      forall q | !Accepted(q) ensures OnlyReplaced(ps, k, q) {
        FaultLocality(ps, k, q);
      }
    } else {
      LeakyNeighbour(ps, k, if !Insulated(ps, k - 1) then k - 1 else k + 1);
    }
  }

  function Lesser(x: real, y: real): real {
    if x <= y then x else y
  }

  function Greater(x: real, y: real): real {
    if x <= y then y else x
  }

  /**
   The unit mismatch: an interpolated reading between two accepted ones lies between them exactly when the
   raw neighbours are at least about ninety-nine times as far apart as they add up to.
   */
  lemma InterpolationScaleIff(ps: seq<Pair>, k: nat)
    requires 0 < k < |ps| - 1 && !Accepted(ps[k]) && Accepted(ps[k - 1]) && Accepted(ps[k + 1])
    ensures var outs, at, a, b := Readings(ps, |ps|), k - Lead(ps), ps[k - 1].value, ps[k + 1].value;
      && 0 < at < |outs| - 1
      && (Lesser(outs[at - 1], outs[at + 1]) <= outs[at] <= Greater(outs[at - 1], outs[at + 1])
          <==> Abs(a - b) >= Abs(99 * (a + b) - 100 * ((a + b) % 2)))
  {
    hide ParityCheck, FloorMean, Readings, Lesser, Greater;
    ReadingAt(ps, k - 1);
    ReadingAt(ps, k);
    ReadingAt(ps, k + 1);
    ScaleIff(ps[k - 1].value, ps[k + 1].value);
  }

  lemma ScaleIff(a: int, b: int)
    ensures var x, y := a as real / 100.0, b as real / 100.0;
      Lesser(x, y) <= FloorMean(a, b) as real <= Greater(x, y)
      <==> Abs(a - b) >= Abs(99 * (a + b) - 100 * ((a + b) % 2))
  {
    var lo, hi, m := if a <= b then a else b, if a <= b then b else a, FloorMean(a, b);
    assert a + b == 2 * m + (a + b) % 2;
    assert lo <= 100 * m <= hi <==> lo as real <= (100 * m) as real <= hi as real;
  }

  /** For the non-negative values the node prints, that leaves neighbours adding up to one hundredth at most. */
  lemma NodeScaleIff(a: nat, b: nat)
    ensures Abs(a - b) >= Abs(99 * (a + b) - 100 * ((a + b) % 2)) <==> a + b <= 1
  {
  }

  /** 0.16, 0.18 with its last bit flipped, and 0.20 degrees. */
  const DAMAGED: seq<Pair> := [Pair(16, 0), Pair(19, 1), Pair(20, 1)]

  lemma DamagedVerdicts()
    ensures Accepted(DAMAGED[0]) && !Accepted(DAMAGED[1]) && Accepted(DAMAGED[2])
  {
    hide ParityCheck;
    CheckIsOnes(16, 0);
    CheckIsOnes(19, 1);
    CheckIsOnes(20, 1);
    assert Ones(16) == 1 && Ones(19) == 3 && Ones(20) == 2;
  }

  lemma DamagedReadings()
    ensures Readings(DAMAGED, 3) == [0.16, 18.0, 0.2]
  {
    DamagedVerdicts();
    hide Accepted;
    assert Readings(DAMAGED, 1) == [0.16];
    assert Readings(DAMAGED, 2) == [0.16, 18.0];
  }

  /** A concrete batch: 0.16, a damaged 0.18 and 0.20 degrees decode to 0.16, 18.0 and 0.2. */
  lemma InterpolationScaleExample()
    ensures Decode(Encode(DAMAGED)) == Ok([0.16, 18.0, 0.2])
  {
    DamagedReadings();
    hide Readings, Encode, Decode;
    DecodeOfEncode(DAMAGED);
  }

  /** Two neighbouring damaged pairs between intact ones, all of them of value zero or one. */
  const LEAKY: seq<Pair> := [Pair(0, 1), Pair(1, 1), Pair(0, 0), Pair(0, 1)]

  /** A leaked neighbour: changing the damaged third value from 0 to 2 changes the second reading too. */
  lemma LeakExample()
    ensures Readings(LEAKY, 4) == [0.0, 0.0, 0.0, 0.0]
    ensures Readings(LEAKY[2 := Pair(2, 1)], 4) == [0.0, 1.0, 0.0, 0.0]
  {
    LeakyVerdicts();
    hide Accepted;
    var changed := LEAKY[2 := Pair(2, 1)];
    assert Readings(LEAKY, 1) == [0.0] && Readings(changed, 1) == [0.0];
    assert Readings(LEAKY, 2) == [0.0, 0.0] && Readings(changed, 2) == [0.0, 1.0];
    assert Readings(LEAKY, 3) == [0.0, 0.0, 0.0] && Readings(changed, 3) == [0.0, 1.0, 0.0];
  }

  lemma LeakyVerdicts()
    ensures Accepted(Pair(0, 1)) && !Accepted(Pair(1, 1)) && !Accepted(Pair(0, 0)) && !Accepted(Pair(2, 1))
  {
    hide ParityCheck;
    CheckIsOnes(0, 1);
    CheckIsOnes(1, 1);
    CheckIsOnes(0, 0);
    CheckIsOnes(2, 1);
  }
}
