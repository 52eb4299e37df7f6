/** From the sensor's samples, through the node's batches and the wire, to the readings the server stores. */
module Pipeline {
  import opened Wrappers
  import opened Parity
  import opened Rounding
  import opened Wire
  import opened Decoder
  import opened SamplerSpec

  /** Means in degrees. */
  function Degrees(means: seq<int>): (ds: seq<real>)
    ensures |ds| == |means|
    ensures forall i :: 0 <= i < |means| ==> ds[i] == means[i] as real / 100.0
  {
    seq(|means|, i requires 0 <= i < |means| => means[i] as real / 100.0)
  }

  // ---------- one batch ----------

  /** An undamaged batch decodes to its means over 100, in order. */
  lemma CleanBatch(vs: seq<nat>)
    requires vs != []
    ensures Decode(Encode(ProtectAll(vs))) == Ok(Degrees(vs))
  {
    hide Encode, Decode, Readings, ParityCheck;
    var ps := ProtectAll(vs);
    forall k | 0 <= k < |ps| ensures Accepted(ps[k]) {
      AcceptsOnlyNodeParity(vs[k], OddParity(vs[k]));
    }
    AllAccepted(ps);
    assert Readings(ps, |ps|) == Degrees(vs);
    DecodeOfEncode(ps);
  }

  /** What the server makes of a batch in which pair `p` arrives as `q` and all others as they were sent. */
  function AfterDamage(vs: seq<nat>, p: nat, q: Pair): seq<real>
    requires p < |vs|
  {
    if Accepted(q) then Degrees(vs)[p := q.value as real / 100.0]
    else if 0 < p < |vs| - 1 then Degrees(vs)[p := FloorMean(vs[p - 1], vs[p + 1]) as real]
    else Degrees(vs)[..p] + Degrees(vs)[p + 1..]
  }

  lemma SameReals(a: seq<real>, b: seq<real>)
    requires |a| == |b| && forall i :: 0 <= i < |a| ==> a[i] == b[i]
    ensures a == b
  {
  }

  lemma OthersAccepted(vs: seq<nat>, p: nat, q: Pair, k: nat)
    requires p < |vs| && k < |vs| && k != p
    ensures ProtectAll(vs)[p := q][k] == Pair(vs[k], OddParity(vs[k])) && Accepted(ProtectAll(vs)[p := q][k])
  {
    hide ParityCheck, Ones;
    AcceptsOnlyNodeParity(vs[k], OddParity(vs[k]));
  }

  lemma LengthAfterDamage(vs: seq<nat>, p: nat, q: Pair)
    requires p < |vs|
    ensures var ps := ProtectAll(vs)[p := q];
      |AfterDamage(vs, p, q)| == |Readings(ps, |ps|)| == |vs| - Lead(ps) - Tail(ps)
  {
    hide Accepted, Readings;
    var ps := ProtectAll(vs)[p := q];
    OutputCount(ps);
    if p != 0 {
      OthersAccepted(vs, p, q, 0);
    }
    if p != |vs| - 1 {
      OthersAccepted(vs, p, q, |vs| - 1);
    }
  }

  lemma ReadingAfterDamage(vs: seq<nat>, p: nat, q: Pair, i: nat)
    requires p < |vs| && i < |AfterDamage(vs, p, q)|
    ensures var ps := ProtectAll(vs)[p := q];
      i < |Readings(ps, |ps|)| && Readings(ps, |ps|)[i] == AfterDamage(vs, p, q)[i]
  {
    hide Accepted, Readings, OddParity, FloorMean;
    var ps := ProtectAll(vs)[p := q];
    LengthAfterDamage(vs, p, q);
    var k := i + Lead(ps);
    if k != p {
      OthersAccepted(vs, p, q, k);
    }
    if p != 0 {
      OthersAccepted(vs, p, q, 0);
    }
    ReadingAt(ps, k);
  }

  /** Damage to one pair, wherever it is and whatever it does: passed on, interpolated, or the reading dropped. */
  lemma OneDamagedPair(vs: seq<nat>, p: nat, q: Pair)
    requires p < |vs|
    ensures Decode(Encode(ProtectAll(vs)[p := q])) == Ok(AfterDamage(vs, p, q))
  {
    hide Encode, Decode, Readings, Accepted, AfterDamage, ProtectAll;
    var ps := ProtectAll(vs)[p := q];
    DecodeOfEncode(ps);
    LengthAfterDamage(vs, p, q);
    forall i | 0 <= i < |AfterDamage(vs, p, q)| ensures Readings(ps, |ps|)[i] == AfterDamage(vs, p, q)[i] {
      ReadingAfterDamage(vs, p, q, i);
    }
    SameReals(Readings(ps, |ps|), AfterDamage(vs, p, q));
  }

  /**
   Flipping the bits of `mask` in one transmitted value. An even number of flips goes through unseen;
   an odd number is noticed, and costs the reading only at the two ends of the batch.
   */
  lemma BitFlips(vs: seq<nat>, p: nat, mask: nat)
    requires p < |vs|
    ensures var v := vs[p];
      var flipped := Pair(Xor(v, mask), OddParity(v));
      Decode(Encode(ProtectAll(vs)[p := flipped])) ==
        if Ones(mask) % 2 == 0 then Ok(Degrees(vs)[p := flipped.value as real / 100.0])
        else if 0 < p < |vs| - 1 then Ok(Degrees(vs)[p := FloorMean(vs[p - 1], vs[p + 1]) as real])
        else if p == 0 then Ok(Degrees(vs[1..]))
        else Ok(Degrees(vs[..|vs| - 1]))
  {
    hide Encode, Decode, ParityCheck, Xor, Ones;
    var v := vs[p];
    var flipped := Pair(Xor(v, mask), OddParity(v));
    AcceptsOnlyNodeParity(v, OddParity(v));
    Detection(v, mask, OddParity(v));
    OneDamagedPair(vs, p, flipped);
    if p == 0 {
      assert Degrees(vs)[..0] + Degrees(vs)[1..] == Degrees(vs[1..]);
    } else if p == |vs| - 1 {
      assert Degrees(vs)[..p] + Degrees(vs)[p + 1..] == Degrees(vs[..p]);
    }
  }

  // ---------- whole runs ----------

  /** The ten means of batch `k` of a run. */
  function BatchMeans(rs: seq<Read>, k: nat): (b: seq<nat>)
    requires k < |Run(rs).posted|
    ensures |b| == BATCH
    ensures Run(rs).posted[k] == Encode(ProtectAll(b))
    ensures |Averages(Samples(rs))| >= 10 * k + 10 && b == Averages(Samples(rs))[10 * k..10 * k + 10]
  {
    PostedIsBatch(rs, k);
    Emitted(Averages(Samples(rs)))[10 * k..10 * k + 10]
  }

  lemma PostedIsBatch(rs: seq<Read>, k: nat)
    requires k < |Run(rs).posted|
    ensures var means := Averages(Samples(rs));
      var e := Emitted(means);
      && 10 * k + 10 <= |e| <= |means|
      && e[10 * k..10 * k + 10] == means[10 * k..10 * k + 10]
      && Run(rs).posted[k] == Encode(ProtectAll(e[10 * k..10 * k + 10]))
  {
    hide Run, Samples, Averages, Encode, ProtectAll, Mean, Emitted;
    RunMeetsExpected(rs);
    var means := Averages(Samples(rs));
    PrefixSlice(Emitted(means), means, 10 * k, 10 * k + 10);
  }

  lemma PrefixSlice(e: seq<nat>, means: seq<int>, lo: nat, hi: nat)
    requires e <= means && lo <= hi <= |e|
    ensures e[lo..hi] == means[lo..hi]
  {
  }

  /** End-to-end round trip: every batch any run hands over decodes to its ten means over 100, in order. */
  lemma PostedBatchDecodes(rs: seq<Read>, k: nat)
    requires k < |Run(rs).posted|
    ensures Decode(Run(rs).posted[k]) == Ok(Degrees(BatchMeans(rs, k)))
  {
    hide Run, Samples, Averages, Encode, Decode;
    CleanBatch(BatchMeans(rs, k));
  }

  /** All readings the server gets from a list of batches; a batch that raises contributes none. */
  function Received(batches: seq<string>): seq<real> {
    if batches == [] then []
    else
      Received(batches[..|batches| - 1]) + match Decode(batches[|batches| - 1])
                                           case Ok(outs) => outs
                                           case Err(_) => []
  }

  lemma {:induction false} ReceivedPrefix(rs: seq<Read>, n: nat)
    requires n <= |Run(rs).posted|
    ensures 10 * n <= |Averages(Samples(rs))|
    ensures Received(Run(rs).posted[..n]) == Degrees(Averages(Samples(rs))[..10 * n])
  {
    hide Run, Samples, Averages, Decode, Degrees, Received, Encode, ProtectAll;
    NothingReceived();
    var posted, means := Run(rs).posted, Averages(Samples(rs));
    if n > 0 {
      ReceivedPrefix(rs, n - 1);
      PostedBatchDecodes(rs, n - 1);
      ReceivedSnoc(posted, n - 1);
      DegreesSplit(means, 10 * (n - 1), 10 * n);
    }
  }

  lemma NothingReceived()
    ensures Received([]) == [] && Degrees([]) == []
  {
  }

  lemma ReceivedSnoc(posted: seq<string>, n: nat)
    requires n < |posted| && Decode(posted[n]).Ok?
    ensures Received(posted[..n + 1]) == Received(posted[..n]) + Decode(posted[n]).value
  {
    hide Decode;
    assert posted[..n + 1][..n] == posted[..n];
  }

  lemma DegreesSplit(means: seq<int>, m: nat, n: nat)
    requires m <= n <= |means|
    ensures Degrees(means[..n]) == Degrees(means[..m]) + Degrees(means[m..n])
  {
  }

  /** A batch that raises adds nothing to what was received before it. */
  lemma RaisesAddsNothing(batches: seq<string>, message: string)
    requires Decode(message).Err?
    ensures Received(batches + [message]) == Received(batches)
  {
    hide Decode;
    assert (batches + [message])[..|batches|] == batches;
    assert Received(batches) + [] == Received(batches);
  }

  /**
   Sampler, printer, parser and decoder together: over any run, what the server receives is the moving
   averages of the successful reads over 100, none lost, repeated or reordered, up to the last full batch.
   */
  lemma EndToEnd(rs: seq<Read>)
    ensures 10 * |Run(rs).posted| <= |Averages(Samples(rs))|
    ensures Received(Run(rs).posted) == Degrees(Averages(Samples(rs))[..10 * |Run(rs).posted|])
    ensures !Run(rs).hung ==> |Averages(Samples(rs))| - 10 * |Run(rs).posted| < 10
  {
    hide Run, Samples, Averages, Received, Encode;
    var posted := Run(rs).posted;
    ReceivedPrefix(rs, |posted|);
    assert posted[..|posted|] == posted;
    if !Run(rs).hung {
      Conservation(rs);
    }
  }

  // ---------- recovery ----------

  /** Neighbouring means of a run differ by at most a fifth of the samples' spread, rounded. */
  lemma NeighbouringMeans(xs: seq<int16>, j: nat, lo: int, hi: int)
    requires j + 6 <= |xs|
    requires forall i :: j <= i < j + 6 ==> lo <= xs[i] <= hi
    ensures Distance(Averages(xs)[j + 1], Averages(xs)[j]) <= (hi - lo + 4) / 5
  {
    hide Mean, Averages, Distance;
    AverageAt(xs, j);
    AverageAt(xs, j + 1);
    var v := xs[j..j + 6];
    assert WindowAt(xs, j) == v[..5] && WindowAt(xs, j + 1) == v[1..];
    MeanSlides(v);
    WithinSpread(v[5], v[0], Distance(Mean(v[1..]), Mean(v[..5])), lo, hi);
  }

  lemma WithinSpread(x: int, y: int, d: nat, lo: int, hi: int)
    requires lo <= x <= hi && lo <= y <= hi && 5 * d <= Distance(x, y) + 4
    ensures d <= (hi - lo + 4) / 5
  {
  }

  /**
   Recovery bound: for any samples, and any batch of their consecutive means that is damaged anywhere, a rejected
   interior pair whose two neighbours arrive with their true values is replaced by a value within (hi - lo + 4) / 5 raw
   hundredths of the mean that was lost, where lo and hi bound the seven samples behind the three means.
   */
  lemma RecoveryBound(xs: seq<int16>, start: nat, damaged: seq<Pair>, p: nat, lo: int, hi: int)
    requires start + |damaged| <= |Averages(xs)| && 0 < p < |damaged| - 1
    requires !Accepted(damaged[p])
    requires damaged[p - 1].value == Averages(xs)[start + p - 1]
    requires damaged[p + 1].value == Averages(xs)[start + p + 1]
    requires forall i :: 0 <= i < |xs| && start + p - 1 <= i <= start + p + 5 ==> lo <= xs[i] <= hi
    ensures var raw, outs := FloorMean(damaged[p - 1].value, damaged[p + 1].value), Readings(damaged, |damaged|);
      && Decode(Encode(damaged)) == Ok(outs)
      && 0 <= p - Lead(damaged) < |outs| && outs[p - Lead(damaged)] == raw as real
      && Distance(raw, Averages(xs)[start + p]) <= (hi - lo + 4) / 5
  {
    hide Averages, Encode, Decode, Readings, ParityCheck;
    var j := start + p;
    NeighbouringMeans(xs, j - 1, lo, hi);
    NeighbouringMeans(xs, j, lo, hi);
    DecodeOfEncode(damaged);
    ReadingAt(damaged, p);
  }

  /** No two adjacent pairs are rejected. */
  ghost predicate Sparse(ps: seq<Pair>) {
    forall i, j :: 0 <= i < j < |ps| && !Accepted(ps[i]) && !Accepted(ps[j]) ==> j - i > 1
  }

  /** An output that is some raw value within the recovery bound of the mean that was lost. */
  ghost predicate Recovered(output: real, mean: int, spread: int) {
    exists raw: int :: output == raw as real && Distance(raw, mean) <= (spread + 4) / 5
  }

  /** Pair `p` of a batch of means `b` is there in the output: exact if accepted, close if interpolated. */
  ghost predicate ServedAt(b: seq<nat>, damaged: seq<Pair>, p: nat, spread: int)
    requires |b| == |damaged| && p < |b|
  {
    var outs, at := Readings(damaged, |damaged|), p - Lead(damaged);
    && 0 <= at < |outs|
    && (if Accepted(damaged[p]) then outs[at] == b[p] as real / 100.0
        else Recovered(outs[at], b[p], spread))
  }

  /**
   Any pattern of noticed damage without two rejected neighbours: the server still gets every mean exactly,
   but for the rejected ones, which it gets within the recovery bound, or not at all at the two ends.
   */
  lemma SparseDamage(rs: seq<Read>, k: nat, damaged: seq<Pair>, lo: int, hi: int)
    requires k < |Run(rs).posted| && |damaged| == BATCH && Sparse(damaged)
    requires forall p :: 0 <= p < BATCH ==> damaged[p] == Protect(BatchMeans(rs, k)[p]) || !Accepted(damaged[p])
    requires forall i :: 0 <= i < |Samples(rs)| ==> lo <= Samples(rs)[i] <= hi
    ensures Decode(Encode(damaged)) == Ok(Readings(damaged, BATCH))
    ensures |Readings(damaged, BATCH)| == BATCH - Lead(damaged) - Tail(damaged)
    ensures forall p :: 0 <= p < BATCH && (Accepted(damaged[p]) || 0 < p < BATCH - 1)
                        ==> ServedAt(BatchMeans(rs, k), damaged, p, hi - lo)
  {
    hide Run, Samples, Averages, Encode, Decode, Readings, Accepted, FloorMean, Protect;
    var b := BatchMeans(rs, k);
    DecodeOfEncode(damaged);
    OutputCount(damaged);
    forall p | 0 <= p < BATCH && (Accepted(damaged[p]) || 0 < p < BATCH - 1)
      ensures ServedAt(b, damaged, p, hi - lo)
    {
      if Accepted(damaged[p]) {
        AcceptedServed(b, damaged, p, hi - lo);
      } else {
        ProtectKeepsValue(b[p - 1]);
        ProtectKeepsValue(b[p + 1]);
        MeansOfBatch(rs, k, p);
        RecoveryBound(Samples(rs), 10 * k, damaged, p, lo, hi);
      }
    }
  }

  /** A batch's means around one of them, as means of the whole run. */
  lemma MeansOfBatch(rs: seq<Read>, k: nat, p: nat)
    requires k < |Run(rs).posted| && 0 < p < BATCH - 1
    ensures var b, means := BatchMeans(rs, k), Averages(Samples(rs));
      && 10 * k + BATCH <= |means|
      && b[p - 1] == means[10 * k + p - 1] && b[p] == means[10 * k + p] && b[p + 1] == means[10 * k + p + 1]
  {
    hide Run, Samples, Averages, Encode;
    var b := BatchMeans(rs, k);
  }

  lemma ProtectKeepsValue(v: nat)
    ensures Protect(v).value == v
  {
  }

  lemma AcceptedServed(b: seq<nat>, damaged: seq<Pair>, p: nat, spread: int)
    requires |b| == |damaged| && p < |b| && Accepted(damaged[p]) && damaged[p] == Protect(b[p])
    ensures ServedAt(b, damaged, p, spread)
  {
    hide ParityCheck, Readings;
    ReadingAt(damaged, p);
  }

  /**
   The same for the fault the parity bit is there for: one interior value of a handed-over batch with an
   odd number of flipped bits. All other readings are exact.
   */
  lemma FlippedValueRecovered(rs: seq<Read>, k: nat, p: nat, mask: nat, lo: int, hi: int)
    requires k < |Run(rs).posted| && 0 < p < BATCH - 1 && Ones(mask) % 2 == 1
    requires forall i :: 0 <= i < |Samples(rs)| && 10 * k + p - 1 <= i <= 10 * k + p + 5
                         ==> lo <= Samples(rs)[i] <= hi
    ensures var b := BatchMeans(rs, k);
      var raw := FloorMean(b[p - 1], b[p + 1]);
      && Decode(Encode(ProtectAll(b)[p := Pair(Xor(b[p], mask), OddParity(b[p]))])) == Ok(Degrees(b)[p := raw as real])
      && Distance(raw, b[p]) <= (hi - lo + 4) / 5
  {
    hide Run, Samples, Averages, Encode, Decode, Readings, ParityCheck, Xor, Ones;
    var b := BatchMeans(rs, k);
    var flipped := Pair(Xor(b[p], mask), OddParity(b[p]));
    AcceptsOnlyNodeParity(b[p], OddParity(b[p]));
    Detection(b[p], mask, OddParity(b[p]));
    BitFlips(b, p, mask);
    MeansOfBatch(rs, k, p);
    RecoveryBound(Samples(rs), 10 * k, ProtectAll(b)[p := flipped], p, lo, hi);
  }

  // ---------- damaged runs ----------

  /** The texts of some batches, as they arrive. */
  function Texts(batches: seq<seq<Pair>>): seq<string> {
    if batches == [] then [] else Texts(batches[..|batches| - 1]) + [Encode(batches[|batches| - 1])]
  }

  /** Where the readings of batch `k` begin: ten for each batch before it, less the ends dropped so far. */
  function StartOf(batches: seq<seq<Pair>>, k: nat): int
    requires k <= |batches|
  {
    if k == 0 then 0 else StartOf(batches, k - 1) + |batches[k - 1]| - Lead(batches[k - 1]) - Tail(batches[k - 1])
  }

  lemma {:induction false} StartOfPrefix(batches: seq<seq<Pair>>, n: nat, k: nat)
    requires k <= n <= |batches|
    ensures StartOf(batches[..n], k) == StartOf(batches, k)
  {
    hide Lead, Tail;
    if k > 0 {
      StartOfPrefix(batches, n, k - 1);
    }
  }

  /** What the server receives from damaged batches is the readings of each, end to end. */
  lemma {:induction false} ReceivedAt(batches: seq<seq<Pair>>, k: nat)
    requires k < |batches| && forall j :: 0 <= j < |batches| ==> batches[j] != []
    ensures var outs := Received(Texts(batches));
      && |outs| == StartOf(batches, |batches|)
      && 0 <= StartOf(batches, k) <= StartOf(batches, k + 1) <= |outs|
      && outs[StartOf(batches, k)..StartOf(batches, k + 1)] == Readings(batches[k], |batches[k]|)
  {
    hide Decode, Encode, Readings, Lead, Tail;
    var n := |batches| - 1;
    var front, last := batches[..n], batches[n];
    DecodeOfEncode(last);
    OutputCount(last);
    StartOfPrefix(batches, n, n);
    assert Texts(batches)[..n] == Texts(front) by { TextsLength(front); }
    TextsLength(front);
    assert Received(Texts(batches)) == Received(Texts(front)) + Readings(last, |last|);
    hide Received, Texts;
    if n == 0 {
      NothingServed(front);
    } else {
      ReceivedAt(front, if k < n then k else n - 1);
      if k < n {
        StartOfPrefix(batches, n, k);
        StartOfPrefix(batches, n, k + 1);
        SliceOfFront(Received(Texts(front)), Readings(last, |last|), StartOf(batches, k), StartOf(batches, k + 1));
      }
    }
  }

  lemma SliceOfFront(a: seq<real>, b: seq<real>, i: nat, j: nat)
    requires i <= j <= |a|
    ensures (a + b)[i..j] == a[i..j]
  {
  }

  lemma {:induction false} TextsLength(batches: seq<seq<Pair>>)
    ensures |Texts(batches)| == |batches|
  {
    if batches != [] {
      TextsLength(batches[..|batches| - 1]);
    }
  }

  /** A batch of a run arrives with noticed damage only, and no two rejected pairs side by side. */
  ghost predicate NoticedOnly(rs: seq<Read>, k: nat, damaged: seq<Pair>)
    requires k < |Run(rs).posted| && |damaged| == BATCH
  {
    && Sparse(damaged)
    && forall p :: 0 <= p < BATCH ==> damaged[p] == Protect(BatchMeans(rs, k)[p]) || !Accepted(damaged[p])
  }

  /** Mean `p` of batch `k` is in the output of the whole run at its place less the ends dropped so far. */
  ghost predicate ServedInRun(means: seq<int>, outs: seq<real>, batches: seq<seq<Pair>>, k: nat, p: nat, spread: int)
    requires k < |batches| && p < |batches[k]|
  {
    var at := StartOf(batches, k) + p - Lead(batches[k]);
    && 10 * k + p < |means| && 0 <= at < |outs|
    && (if Accepted(batches[k][p]) then outs[at] == means[10 * k + p] as real / 100.0
        else Recovered(outs[at], means[10 * k + p], spread))
  }

  /**
   Sampler, printer, noise, parser and decoder together: over any run, when every batch arrives with noticed and
   scattered damage only, the server receives every intact moving average over 100 and every rejected interior
   one within the recovery bound, all at their places in one sequence, less the damaged ends dropped before them.
   */
  lemma DamagedRun(rs: seq<Read>, batches: seq<seq<Pair>>, lo: int, hi: int)
    requires |batches| == |Run(rs).posted|
    requires forall k :: 0 <= k < |batches| ==> |batches[k]| == BATCH && NoticedOnly(rs, k, batches[k])
    requires forall i :: 0 <= i < |Samples(rs)| ==> lo <= Samples(rs)[i] <= hi
    ensures 10 * |batches| <= |Averages(Samples(rs))|
    ensures |Received(Texts(batches))| == StartOf(batches, |batches|)
    ensures forall k, p :: 0 <= k < |batches| && 0 <= p < |batches[k]| && (Accepted(batches[k][p]) || 0 < p < BATCH - 1)
                           ==> ServedInRun(Averages(Samples(rs)), Received(Texts(batches)), batches, k, p, hi - lo)
  {
    hide Run, Samples, Averages, Received, Texts, StartOf, NoticedOnly, ServedInRun, Accepted;
    EndToEnd(rs);
    if batches == [] {
      NothingServed(batches);
    } else {
      ReceivedAt(batches, 0);
    }
    var means, outs := Averages(Samples(rs)), Received(Texts(batches));
    forall k, p | 0 <= k < |batches| && 0 <= p < |batches[k]| && (Accepted(batches[k][p]) || 0 < p < BATCH - 1)
      ensures ServedInRun(means, outs, batches, k, p, hi - lo)
    {
      ServedByBatch(rs, batches, k, p, lo, hi);
    }
  }

  lemma NothingServed(batches: seq<seq<Pair>>)
    requires batches == []
    ensures |Received(Texts(batches))| == StartOf(batches, |batches|)
  {
  }

  lemma ServedByBatch(rs: seq<Read>, batches: seq<seq<Pair>>, k: nat, p: nat, lo: int, hi: int)
    requires |batches| == |Run(rs).posted| && k < |batches| && p < BATCH
    requires forall j :: 0 <= j < |batches| ==> |batches[j]| == BATCH
    requires NoticedOnly(rs, k, batches[k])
    requires forall i :: 0 <= i < |Samples(rs)| ==> lo <= Samples(rs)[i] <= hi
    requires Accepted(batches[k][p]) || 0 < p < BATCH - 1
    ensures ServedInRun(Averages(Samples(rs)), Received(Texts(batches)), batches, k, p, hi - lo)
  {
    hide Run, Samples, Averages, Received, Texts, StartOf, Readings, Accepted, Encode, Decode, Lead, Tail, Protect,
      Recovered, Sparse;
    var b := BatchMeans(rs, k);
    SparseDamage(rs, k, batches[k], lo, hi);
    ReceivedAt(batches, k);
    assert ServedAt(b, batches[k], p, hi - lo);
    var outs, from, to := Received(Texts(batches)), StartOf(batches, k), StartOf(batches, k + 1);
    var at := p - Lead(batches[k]);
    assert outs[from..to][at] == outs[from + at];
    assert b[p] == Averages(Samples(rs))[10 * k + p];
  }
}
