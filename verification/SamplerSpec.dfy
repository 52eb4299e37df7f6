/**
 The node's sampling loop as a step function over read outcomes, and what every run of it computes:
 the rounded moving averages of the successful reads, cut into batches of ten.
 */
module SamplerSpec {
  import opened Text
  import opened Parity
  import opened Rounding
  import opened Wire

  const BATCH := 10

  /** The outcome of one `lpsxxx_read_temp`. */
  datatype Read = Good(temp: int16) | Failed

  /**
   The loop's state between two passes. `posted` is the text of every batch handed to `gcoap_post`, and
   `hung` says that control never came back from the parity loop.
   */
  datatype State = State(window: seq<int16>, counter: nat, text: string, posted: seq<string>, hung: bool)

  const START := State([], 0, "", [], false)

  /** A full window: its mean and parity bit are appended and it slides, unless the parity loop never ends. */
  ghost function Emit(s: State): State
    requires |s.window| == WINDOW
  {
    var mean: int := Mean(s.window);
    ShiftLoopEndsIff(mean);
    if !ParityLoopEnds(mean) then s.(text := s.text + (PrintInt(mean) + ","), hung := true)
    else s.(window := s.window[1..], text := s.text + EncodePair(Protect(mean)), counter := s.counter + 1)
  }

  /** The body of the `if` on a successful read. A running loop holds at most four samples between passes. */
  ghost function Absorb(s: State, temp: int16): State {
    var grown := s.(window := s.window + [temp]);
    if |grown.window| == WINDOW then Emit(grown) else grown
  }

  /** The hand-over at the tenth mean. */
  function Flush(s: State): State {
    if !s.hung && s.counter == BATCH then s.(posted := s.posted + [s.text], text := "", counter := 0) else s
  }

  /** One pass of the `while (1)` loop. A hung loop makes no more passes. */
  ghost function Step(s: State, r: Read): State {
    if s.hung then s
    else
      match r
      case Failed => Flush(s)
      case Good(temp) => Flush(Absorb(s, temp))
  }

  ghost function Run(rs: seq<Read>): State {
    if rs == [] then START else Step(Run(rs[..|rs| - 1]), rs[|rs| - 1])
  }

  // ---------- what a run should compute ----------

  /** The samples of the successful reads, in order. */
  function Samples(rs: seq<Read>): seq<int16> {
    if rs == [] then []
    else
      Samples(rs[..|rs| - 1]) + match rs[|rs| - 1] case Good(t) => [t] case Failed => []
  }

  /** Five consecutive samples, from index `i` on. */
  function WindowAt(xs: seq<int16>, i: int): (w: seq<int16>)
    requires 0 <= i <= |xs| - WINDOW
    ensures |w| == WINDOW
  {
    xs[i..i + WINDOW]
  }

  /** The rounded mean of each five consecutive samples. */
  function Averages(xs: seq<int16>): (means: seq<int>)
    ensures |means| == if |xs| < WINDOW then 0 else |xs| - 4
  {
    if |xs| < WINDOW then [] else Averages(xs[..|xs| - 1]) + [Mean(WindowAt(xs, |xs| - WINDOW)) as int]
  }

  lemma {:induction false} AverageAt(xs: seq<int16>, i: nat)
    requires i < |Averages(xs)|
    ensures Averages(xs)[i] == Mean(WindowAt(xs, i))
  {
    hide Mean;
    if i < |xs| - WINDOW {
      AverageAt(xs[..|xs| - 1], i);
      assert WindowAt(xs[..|xs| - 1], i) == WindowAt(xs, i);
    }
  }

  /** Average `i` is the integer nearest to a fifth of the samples `i` to `i + 4`. */
  lemma AverageOfSamples(xs: seq<int16>, i: nat)
    requires i + 5 <= |xs|
    ensures i < |Averages(xs)|
    ensures var five: int := xs[i] as int + xs[i + 1] as int + xs[i + 2] as int + xs[i + 3] as int + xs[i + 4] as int;
      -2 <= 5 * Averages(xs)[i] - five <= 2
  {
    hide Sum, Averages;
    AverageAt(xs, i);
    SumOfFive(WindowAt(xs, i));
    RoundFifth(Sum(WindowAt(xs, i)));
  }

  /** A successful read adds its sample at the end, and a failed one adds nothing. */
  lemma SamplesSnoc(rs: seq<Read>, r: Read)
    ensures Samples(rs + [r]) == match r case Good(t) => Samples(rs) + [t] case Failed => Samples(rs)
  {
    assert (rs + [r])[..|rs|] == rs;
  }

  /** The means before the first negative one. */
  function Emitted(means: seq<int>): (e: seq<nat>)
    ensures e <= means
    ensures |e| < |means| ==> means[|e|] < 0
  {
    if means == [] then []
    else
      var n := |means| - 1;
      var e := Emitted(means[..n]);
      if |e| == n && means[n] >= 0 then e + [means[n]] else e
  }

  /** The texts of the complete batches. */
  function Batches(e: seq<nat>): (bs: seq<string>)
    ensures |bs| == |e| / BATCH
    ensures forall k :: 0 <= k < |bs| ==> bs[k] == Encode(ProtectAll(e[10 * k..10 * k + 10]))
  {
    seq(|e| / BATCH, k requires 0 <= k < |e| / BATCH => Encode(ProtectAll(e[10 * k..10 * k + 10])))
  }

  /** The means that do not fill a batch yet. */
  function Pending(e: seq<nat>): seq<nat> {
    e[|e| - |e| % BATCH..]
  }

  function LastFour(xs: seq<int16>): seq<int16> {
    if |xs| < 4 then xs else xs[|xs| - 4..]
  }

  /** The state the samples alone determine. */
  function Expected(xs: seq<int16>): State {
    var means := Averages(xs);
    var e := Emitted(means);
    var text := Encode(ProtectAll(Pending(e)));
    if |e| == |means| then State(LastFour(xs), |e| % BATCH, text, Batches(e), false)
    else State(WindowAt(xs, |e|), |e| % BATCH, text + (PrintInt(means[|e|]) + ","), Batches(e), true)
  }

  // ---------- the run computes it ----------

  lemma AveragesSnoc(xs: seq<int16>, t: int16)
    ensures Averages(xs + [t]) ==
            if |xs| < 4 then [] else Averages(xs) + [Mean(WindowAt(xs + [t], |xs| - 4))]
  {
    hide Mean, WindowAt;
    assert (xs + [t])[..|xs|] == xs;
  }

  lemma EmittedSnoc(means: seq<int>, m: int)
    ensures Emitted(means + [m]) ==
            if |Emitted(means)| == |means| && m >= 0 then Emitted(means) + [m] else Emitted(means)
  {
    assert (means + [m])[..|means|] == means;
  }

  lemma EncodeSnoc(vs: seq<nat>, v: nat)
    ensures Encode(ProtectAll(vs + [v])) == Encode(ProtectAll(vs)) + EncodePair(Protect(v))
  {
    var ps := ProtectAll(vs + [v]);
    assert ps[..|vs|] == ProtectAll(vs);
  }

  /** One more mean: the pending text grows by its pair, and the tenth closes a batch. */
  lemma BatchesSnoc(e: seq<nat>, m: nat)
    ensures var text := Encode(ProtectAll(Pending(e))) + EncodePair(Protect(m));
      if |e| % BATCH == BATCH - 1
      then Batches(e + [m]) == Batches(e) + [text] && Encode(ProtectAll(Pending(e + [m]))) == ""
      else Batches(e + [m]) == Batches(e) && Encode(ProtectAll(Pending(e + [m]))) == text
  {
    hide Encode, EncodePair, Protect, ProtectAll;
    var f := e + [m];
    EncodeSnoc(Pending(e), m);
    EncodeNothing();
    PendingSnoc(e, m);
    forall k | 0 <= k < |e| / BATCH ensures Batches(f)[k] == Batches(e)[k] {
      assert f[10 * k..10 * k + 10] == e[10 * k..10 * k + 10];
    }
  }

  lemma PendingSnoc(e: seq<nat>, m: nat)
    ensures var f := e + [m];
      if |e| % BATCH == BATCH - 1
      then Pending(f) == [] && f[10 * (|e| / BATCH)..10 * (|e| / BATCH) + 10] == Pending(e) + [m]
           && |f| / BATCH == |e| / BATCH + 1
      else Pending(f) == Pending(e) + [m] && |f| / BATCH == |e| / BATCH
  {
    var full := 10 * (|e| / BATCH);
    TenStep(|e|);
    assert |e| - |e| % BATCH == full;
    assert (e + [m])[full..] == e[full..] + [m];
  }

  lemma TenStep(n: nat)
    ensures n == 10 * (n / 10) + n % 10
    ensures (n + 1) / 10 == if n % 10 == 9 then n / 10 + 1 else n / 10
    ensures (n + 1) % 10 == if n % 10 == 9 then 0 else n % 10 + 1
  {
  }

  lemma EncodeNothing()
    ensures Encode(ProtectAll([])) == ""
  {
  }

  lemma StepWhenHung(xs: seq<int16>, t: int16)
    requires |Emitted(Averages(xs))| < |Averages(xs)|
    ensures Step(Expected(xs), Good(t)) == Expected(xs + [t])
  {
    hide Mean, Encode, PrintInt, Batches, ProtectAll, Pending, Emitted, Averages;
    var ys, means := xs + [t], Averages(xs);
    var e := Emitted(means);
    AveragesSnoc(xs, t);
    EmittedSnoc(means, Mean(WindowAt(ys, |xs| - 4)));
    assert Averages(ys)[|e|] == means[|e|];
    assert WindowAt(ys, |e|) == WindowAt(xs, |e|);
  }

  lemma WindowOfLastFour(xs: seq<int16>, t: int16)
    requires |xs| >= 4
    ensures LastFour(xs) + [t] == WindowAt(xs + [t], |xs| - 4)
    ensures LastFour(xs + [t]) == WindowAt(xs + [t], |xs| - 4)[1..]
  {
  }

  /** `Expected` while nothing has been cut off. */
  lemma ExpectedRunning(xs: seq<int16>, e: seq<nat>)
    requires e == Averages(xs) == Emitted(Averages(xs))
    ensures Expected(xs) == State(LastFour(xs), |e| % BATCH, Encode(ProtectAll(Pending(e))), Batches(e), false)
  {
  }

  lemma StepWhenRunning(xs: seq<int16>, t: int16)
    requires |xs| >= 4 && |Emitted(Averages(xs))| == |Averages(xs)|
    ensures Step(Expected(xs), Good(t)) == Expected(xs + [t])
  {
    hide Mean, WindowAt, Encode, EncodePair, PrintInt, Batches, ProtectAll, Protect, Pending, Emitted, Averages,
      LastFour, Expected, ParityLoopEnds;
    var ys := xs + [t];
    var e := Emitted(Averages(xs));
    assert e == Averages(xs);
    AveragesSnoc(xs, t);
    var m: int := Mean(WindowAt(ys, |xs| - 4));
    EmittedSnoc(e, m);
    WindowOfLastFour(xs, t);
    ExpectedRunning(xs, e);
    ShiftLoopEndsIff(m);
    if m >= 0 {
      BatchesSnoc(e, m);
      ExpectedRunning(ys, e + [m]);
    } else {
      ExpectedHung(ys, e, m);
    }
  }

  /** `Expected` when the latest mean is the first negative one. */
  lemma ExpectedHung(ys: seq<int16>, e: seq<nat>, m: int)
    requires Averages(ys) == e + [m] && Emitted(Averages(ys)) == e
    ensures Expected(ys) == State(WindowAt(ys, |e|), |e| % BATCH,
                                  Encode(ProtectAll(Pending(e))) + (PrintInt(m) + ","), Batches(e), true)
  {
  }

  lemma StepMeetsExpected(xs: seq<int16>, t: int16)
    ensures Step(Expected(xs), Good(t)) == Expected(xs + [t])
  {
    hide Mean, Encode, PrintInt, Batches, Pending;
    if |Emitted(Averages(xs))| < |Averages(xs)| {
      StepWhenHung(xs, t);
    } else if |xs| >= 4 {
      StepWhenRunning(xs, t);
    } else {
      assert LastFour(xs + [t]) == xs + [t];
    }
  }

  /** Whole-run refinement, for every sequence of read outcomes with no exception. */
  lemma {:induction false} RunMeetsExpected(rs: seq<Read>)
    ensures Run(rs) == Expected(Samples(rs))
  {
    hide Mean, Sum, Encode, PrintInt;
    if rs == [] {
      EncodeNothing();
      assert Batches([]) == [];
    } else {
      var n := |rs| - 1;
      RunMeetsExpected(rs[..n]);
      var xs := Samples(rs[..n]);
      match rs[n] {
        case Good(t) => StepMeetsExpected(xs, t);
        case Failed => assert Samples(rs) == xs;
      }
    }
  }

  // ---------- consequences ----------

  /**
   The run hangs exactly when some window of five consecutive samples sums to less than -2; it is then stuck on
   a mean that no number of shifts brings to zero.
   */
  lemma HangsIff(rs: seq<Read>)
    ensures var xs := Samples(rs);
      Run(rs).hung <==> exists i :: 0 <= i <= |xs| - 5 && Sum(WindowAt(xs, i)) < -2
    ensures Run(rs).hung ==>
              |Run(rs).window| == WINDOW && forall k: nat :: Shifted(Mean(Run(rs).window), k) != 0
  {
    hide Mean, Sum, Encode, PrintInt, Shifted;
    RunMeetsExpected(rs);
    var xs := Samples(rs);
    var means := Averages(xs);
    forall i | 0 <= i <= |xs| - 5 ensures means[i] < 0 <==> Sum(WindowAt(xs, i)) < -2 {
      AverageAt(xs, i);
      MeanNegativeIff(WindowAt(xs, i));
    }
    var e := Emitted(means);
    if |e| < |means| {
      assert Sum(WindowAt(xs, |e|)) < -2;
      AverageAt(xs, |e|);
      ShiftLoopEndsIff(means[|e|]);
    } else {
      assert e == means;
    }
  }

  /** A sensor that never fails. */
  function AllGood(xs: seq<int16>): seq<Read> {
    if xs == [] then [] else AllGood(xs[..|xs| - 1]) + [Good(xs[|xs| - 1])]
  }

  lemma {:induction false} AllGoodSamples(xs: seq<int16>)
    ensures Samples(AllGood(xs)) == xs
  {
    if xs != [] {
      var n := |xs| - 1;
      AllGoodSamples(xs[..n]);
      assert AllGood(xs)[..|AllGood(xs)| - 1] == AllGood(xs[..n]);
    }
  }

  const FROST: seq<int16> := [-1, -1, -1, -1, -1]

  /** A concrete run that hangs with nothing handed over: five samples of one hundredth below zero. */
  lemma HangExample()
    ensures Run(AllGood(FROST)).hung && Run(AllGood(FROST)).posted == []
  {
    hide Run, Samples, AllGood, Sum;
    AllGoodSamples(FROST);
    SumBounds(FROST, -1, -1);
    assert WindowAt(FROST, 0) == FROST;
    HangsIff(AllGood(FROST));
    FewPostNothing(AllGood(FROST));
  }

  lemma FewPostNothing(rs: seq<Read>)
    requires |Samples(rs)| < 14
    ensures Run(rs).posted == []
  {
    hide Mean, Encode, PrintInt;
    RunMeetsExpected(rs);
  }

  // ---------- the node without a network ----------

  /** One pass of the unconnected node's loop: the tenth mean only clears the buffer. */
  ghost function StepSilent(s: State, r: Read): State {
    if s.hung then s
    else
      var absorbed := match r case Failed => s case Good(temp) => Absorb(s, temp);
      if !absorbed.hung && absorbed.counter == BATCH then absorbed.(text := "", counter := 0) else absorbed
  }

  ghost function RunSilent(rs: seq<Read>): State {
    if rs == [] then START else StepSilent(RunSilent(rs[..|rs| - 1]), rs[|rs| - 1])
  }

  /** The unconnected node goes through the same windows, counters, texts and hangs, and hands over nothing. */
  lemma {:induction false} SilentRun(rs: seq<Read>)
    ensures RunSilent(rs) == Run(rs).(posted := [])
  {
    hide Mean, EncodePair, PrintInt, Protect, ParityLoopEnds;
    if rs != [] {
      SilentRun(rs[..|rs| - 1]);
    }
  }

  /**
   Conservation: while the run is not hung, `n` successful reads have handed over exactly
   max(0, n - 4) / 10 batches, batch `k` holds means 10k to 10k + 9 in order, and the buffer holds the rest.
   */
  lemma Conservation(rs: seq<Read>)
    requires !Run(rs).hung
    ensures var n, s := |Samples(rs)|, Run(rs);
      var means := Averages(Samples(rs));
      && |s.posted| == (if n < 4 then 0 else n - 4) / BATCH
      && s.counter == |means| % BATCH
      && (forall i :: 0 <= i < |means| ==> means[i] >= 0)
      && (forall k :: 0 <= k < |s.posted| ==> s.posted[k] == Encode(ProtectAll(means[10 * k..10 * k + 10])))
      && s.text == Encode(ProtectAll(means[10 * |s.posted|..]))
  {
    hide Mean, Encode, PrintInt, Averages, Emitted, ProtectAll, Batches, Run, Samples;
    RunMeetsExpected(rs);
    var means := Averages(Samples(rs));
    assert Emitted(means) == means;
    assert |means| - |means| % BATCH == 10 * (|means| / BATCH);
  }

  /** What was handed over stays handed over: later reads only ever append batches. */
  lemma {:induction false} PostedGrows(rs: seq<Read>, m: nat)
    requires m <= |rs|
    ensures Run(rs[..m]).posted <= Run(rs).posted
  {
    hide Step;
    if m < |rs| {
      var n := |rs| - 1;
      PostedGrows(rs[..n], m);
      assert rs[..n][..m] == rs[..m];
      StepPosts(Run(rs[..n]), rs[n]);
    } else {
      assert rs[..m] == rs;
    }
  }

  lemma StepPosts(s: State, r: Read)
    ensures s.posted <= Step(s, r).posted
  {
    hide Mean, PrintInt, EncodePair, Protect;
  }

  /** A failed read changes nothing at all in a reachable state. */
  lemma FailedReadIsSilent(rs: seq<Read>)
    ensures Run(rs + [Failed]) == Run(rs)
  {
    RunMeetsExpected(rs);
    assert (rs + [Failed])[..|rs|] == rs;
  }

  lemma IntLength(v: int16)
    ensures |PrintInt(v)| <= if v < 0 then 6 else 5
  {
    assert TenTo(1) == 10;
    assert TenTo(5) == 100000;
    PrintNatLength(Abs(v), 5, 100000);
  }

  lemma {:induction false} EncodeLength(vs: seq<nat>)
    requires forall i :: 0 <= i < |vs| ==> vs[i] < 32768
    ensures |Encode(ProtectAll(vs))| <= 8 * |vs|
  {
    if vs != [] {
      var n := |vs| - 1;
      assert vs[..n] + [vs[n]] == vs;
      EncodeSnoc(vs[..n], vs[n]);
      EncodeLength(vs[..n]);
      IntLength(vs[n]);
      assert |PrintInt(OddParity(vs[n]))| == 1;
    } else {
      EncodeNothing();
    }
  }

  /**
   The loop invariant and buffer safety over whole runs: the window holds the latest samples, oldest
   first; at most nine means wait; every pair is at most eight characters, so the buffer's text never
   passes 80 characters with its NUL still inside 128.
   */
  lemma RunInvariant(rs: seq<Read>)
    ensures var s, xs := Run(rs), Samples(rs);
      && s.counter <= 9
      && (!s.hung ==> s.window == LastFour(xs) && |s.text| <= 8 * s.counter)
      && (s.hung ==> |s.window| == 5 && |s.text| <= 8 * s.counter + 7)
      && (forall k :: 0 <= k < |s.posted| ==> |s.posted[k]| <= 80)
  {
    hide Mean, Sum, Encode, PrintInt;
    RunMeetsExpected(rs);
    var e := Emitted(Averages(Samples(rs)));
    forall i | 0 <= i < |e| ensures e[i] < 32768 {
      AverageAt(Samples(rs), i);
      assert e[i] == Averages(Samples(rs))[i];
    }
    EncodeLength(Pending(e));
    forall k | 0 <= k < |e| / BATCH ensures |Batches(e)[k]| <= 80 {
      EncodeLength(e[10 * k..10 * k + 10]);
    }
    if |e| < |Averages(Samples(rs))| {
      AverageAt(Samples(rs), |e|);
      IntLength(Averages(Samples(rs))[|e|]);
    }
  }
}
