/** The bounded message log of the test server: a list that is halved in place, and a counter that restarts with it. */
module MessageLog {
  import opened Wrappers
  import opened Text

  const MAX_MESSAGES := 100

  /** What one connection brings: nothing usable, or a decoded message. */
  datatype Arrival = Nothing | Message(text: string)

  function Label(sequence: nat, text: string): string {
    "#" + PrintInt(sequence) + ": " + text
  }

  /** A label in full: the number's decimal digits after a hash mark, a colon, a blank and the whole text. */
  lemma LabelReads(n: nat, text: string)
    ensures var k, s := |PrintInt(n)| + 3, Label(n, text);
      && |s| == k + |text| && s[0] == '#' && s[k - 2..k] == ": "
      && s[k..] == text && s[1..k - 2] == PrintInt(n) && ParseInt(s[1..k - 2]) == Some(n as int)
    ensures Label(1, "hi") == "#1: hi"
  {
    ParsePrint(n);
    hide ParseInt, PrintInt;
    PrintOne();
    assert Label(n, text) == ("#" + PrintInt(n)) + (": " + text);
    assert "#" + "1" + ": " + "hi" == "#1: hi";
  }

  lemma PrintOne()
    ensures PrintInt(1) == "1"
  {
  }

  datatype Log = Log(messages: seq<string>, sequence: nat)

  function Store(log: Log, text: string): Log {
    var sequence := log.sequence + 1;
    var messages := log.messages + [Label(sequence, text)];
    if |messages| > MAX_MESSAGES then Log(messages[MAX_MESSAGES / 2..], 0) else Log(messages, sequence)
  }

  class Server {
    var messages: seq<string>
    var sequence: nat

    constructor ()
      ensures Log(messages, sequence) == Log([], 0)
    {
      messages, sequence := [], 0;
    }

    /** `manage_messages`: past one hundred messages, drop the fifty oldest and restart the counter. */
    method ManageMessages()
      modifies this
      ensures if |old(messages)| > 100 then messages == old(messages)[50..] && sequence == 0
              else messages == old(messages) && sequence == old(sequence)
      ensures |old(messages)| <= 101 ==> |messages| <= 100
      ensures old(messages) != [] ==> messages != [] && messages[|messages| - 1] == old(messages[|messages| - 1])
    {
      if |messages| > MAX_MESSAGES {
        messages := messages[MAX_MESSAGES / 2..];
        sequence := 0;
      }
    }

    /** One accepted connection. A message that is empty or does not decode leaves everything as it is. */
    method Accept(a: Arrival)
      modifies this
      ensures Log(messages, sequence) ==
              if a.Message? then Store(old(Log(messages, sequence)), a.text) else old(Log(messages, sequence))
      ensures a.Message? && |old(messages)| < 100 ==>
              && messages == old(messages) + ["#" + PrintInt(old(sequence) + 1) + ": " + a.text]
              && sequence == old(sequence) + 1
      ensures a.Message? && |old(messages)| == 100 ==>
              && messages == old(messages)[50..] + ["#" + PrintInt(old(sequence) + 1) + ": " + a.text]
              && sequence == 0
    {
      if a.Message? {
        sequence := sequence + 1;
        messages := messages + [Label(sequence, a.text)];
        ManageMessages();
      }
    }
  }

  /** The log after the given messages were stored, oldest first. */
  function After(texts: seq<string>): Log {
    if texts == [] then Log([], 0) else Store(After(texts[..|texts| - 1]), texts[|texts| - 1])
  }

  /** How many messages remain after `n` were stored. */
  function Kept(n: nat): nat {
    if n <= 100 then n else 51 + (n - 101) % 50
  }

  /** The counter after `n` messages were stored. */
  function SequenceAfter(n: nat): nat {
    if n <= 100 then n else (n - 101) % 50
  }

  /** The `i`-th message stored, counting from zero, as it was labelled then. */
  function Labelled(texts: seq<string>, i: nat): string
    requires i < |texts|
  {
    Label(SequenceAfter(i) + 1, texts[i])
  }

  /** The last `k` of the messages, labelled. */
  function LastLabelled(texts: seq<string>, k: nat): (ms: seq<string>)
    requires k <= |texts|
    ensures |ms| == k
    ensures forall i :: 0 <= i < k ==> ms[i] == Labelled(texts, |texts| - k + i)
  {
    seq(k, i requires 0 <= i < k => Labelled(texts, |texts| - k + i))
  }

  lemma ModStep(m: nat)
    ensures (m + 1) % 50 == if m % 50 == 49 then 0 else m % 50 + 1
  {
  }

  lemma KeptStep(n: nat)
    requires n >= 1
    ensures Kept(n - 1) <= 100 && Kept(n) <= n
    ensures Kept(n) == (if Kept(n - 1) + 1 > 100 then 51 else Kept(n - 1) + 1)
    ensures SequenceAfter(n) == (if Kept(n - 1) + 1 > 100 then 0 else SequenceAfter(n - 1) + 1)
  {
    if n > 101 {
      ModStep(n - 102);
    }
  }

  lemma NothingKept()
    ensures Kept(0) == 0 && SequenceAfter(0) == 0 && LastLabelled([], 0) == []
  {
  }

  /** Retention in closed form: after `n` messages the list is exactly the last Kept(n) of them, in order. */
  lemma {:induction false} Retention(texts: seq<string>)
    ensures var n := |texts|;
      && Kept(n) <= n
      && After(texts) == Log(LastLabelled(texts, Kept(n)), SequenceAfter(n))
  {
    hide Label, SequenceAfter, Kept, LastLabelled;
    var n := |texts|;
    if n == 0 {
      NothingKept();
    } else {
      var front, text := texts[..n - 1], texts[n - 1];
      Retention(front);
      KeptStep(n);
      assert front + [text] == texts;
      GrowThenTrim(front, text, Kept(n - 1), Kept(n));
    }
  }

  lemma GrowThenTrim(front: seq<string>, text: string, before: nat, after: nat)
    requires before <= |front| && before <= 100
    requires after == (if before + 1 > 100 then 51 else before + 1)
    ensures var grown := LastLabelled(front, before) + [Label(SequenceAfter(|front|) + 1, text)];
      LastLabelled(front + [text], after) == if before + 1 > 100 then grown[50..] else grown
  {
    hide Label, SequenceAfter;
    assert forall i :: 0 <= i < |front| ==> Labelled(front + [text], i) == Labelled(front, i);
  }

  /**
   Whatever was stored, the list holds between one and a hundred messages, the newest is its last, and storing
   one more drops either nothing or the fifty oldest.
   */
  lemma NewestKept(texts: seq<string>, text: string)
    ensures var before, after := After(texts).messages, After(texts + [text]).messages;
      && 1 <= |after| <= 100
      && after[|after| - 1] == Labelled(texts + [text], |texts|)
      && (after == before + [Labelled(texts + [text], |texts|)]
          || (|before| == 100 && after == before[50..] + [Labelled(texts + [text], |texts|)]))
  {
    hide Label, SequenceAfter, After, Kept;
    var all := texts + [text];
    Retention(texts);
    Retention(all);
    KeptStep(|all|);
    var before := After(texts).messages;
    AfterSnoc(texts, text);
    assert Labelled(all, |texts|) == Label(SequenceAfter(|texts|) + 1, text);
  }

  lemma AfterSnoc(texts: seq<string>, text: string)
    ensures After(texts + [text]) == Store(After(texts), text)
  {
    hide Store;
    assert (texts + [text])[..|texts|] == texts;
  }

  /** After the first trim the counter goes round by fifties, and the list is always fifty-one messages longer. */
  lemma LengthAfterTrim(texts: seq<string>)
    requires |texts| > 100
    ensures After(texts).sequence == (|texts| - 101) % 50
    ensures |After(texts).messages| == 51 + After(texts).sequence <= 100
  {
    Retention(texts);
  }

  /** The number a kept message carries. */
  function NumberOf(n: nat, i: nat): nat
    requires i < Kept(n) <= n
  {
    SequenceAfter(n - Kept(n) + i) + 1
  }

  /** The `i`-th message in the list is the one stored so many before the newest, under its number. */
  lemma NumberInList(texts: seq<string>, i: nat)
    requires i < |After(texts).messages|
    ensures var n := |texts|;
      && |After(texts).messages| == Kept(n) <= n
      && After(texts).messages[i] == Label(NumberOf(n, i), texts[n - Kept(n) + i])
  {
    hide After, Label;
    Retention(texts);
  }

  /** The numbers of the kept messages are pairwise distinct. */
  ghost predicate DistinctNumbers(n: nat)
    requires Kept(n) <= n
  {
    forall i, j :: 0 <= i < j < Kept(n) ==> NumberOf(n, i) != NumberOf(n, j)
  }

  lemma KeptAtMost(n: nat)
    ensures Kept(n) <= n
  {
  }

  lemma EarlyNumber(n: nat, i: nat)
    requires i < Kept(n) <= n <= 151
    ensures var at := n - Kept(n) + i;
      && at <= 150 && NumberOf(n, i) == (if at <= 100 then at + 1 else at - 100)
      && (n > 101 ==> n - Kept(n) >= 50) && (n == 151 ==> n - Kept(n) == 100)
  {
  }

  lemma RepeatedNumber(n: nat)
    requires n > 151
    ensures 51 <= Kept(n) <= n && NumberOf(n, Kept(n) - 51) == NumberOf(n, Kept(n) - 1)
  {
    ModPeriod(n - 152);
  }

  lemma ModPeriod(m: nat)
    ensures (m + 50) % 50 == m % 50
  {
  }

  lemma DistinctIff(n: nat)
    ensures Kept(n) <= n
    ensures DistinctNumbers(n) <==> n <= 151
  {
    KeptAtMost(n);
    hide NumberOf, Kept;
    if n > 151 {
      RepeatedNumber(n);
    } else {
      forall i, j | 0 <= i < j < Kept(n) ensures NumberOf(n, i) != NumberOf(n, j) {
        EarlyNumber(n, i);
        EarlyNumber(n, j);
      }
    }
  }

  /** Entry `i` read back: after the number and ": " stands the whole message that was stored there. */
  lemma EntryReads(texts: seq<string>, i: nat)
    requires i < |After(texts).messages|
    ensures var n, entry := |texts|, After(texts).messages[i];
      var j := n - |After(texts).messages| + i;
      var number := if j <= 100 then j + 1 else (j - 101) % 50 + 1;
      var k := |PrintInt(number)| + 3;
      && |After(texts).messages| == (if n <= 100 then n else 51 + (n - 101) % 50)
      && 0 <= j < n && k <= |entry| && entry[k..] == texts[j]
      && entry == "#" + PrintInt(number) + ": " + texts[j]
  {
    hide After, PrintInt;
    NumberInList(texts, i);
    var j := |texts| - Kept(|texts|) + i;
    LabelReads(NumberOf(|texts|, i), texts[j]);
  }

  /** The first hundred messages are all kept, under the numbers 1, 2, 3 and so on. */
  lemma EarlyEntries(texts: seq<string>)
    requires |texts| <= 100
    ensures var log := After(texts);
      && log.sequence == |log.messages| == |texts|
      && forall i :: 0 <= i < |texts| ==> log.messages[i] == "#" + PrintInt(i + 1) + ": " + texts[i]
  {
    Retention(texts);
    hide After;
    forall i | 0 <= i < |texts| ensures After(texts).messages[i] == "#" + PrintInt(i + 1) + ": " + texts[i] {
      EntryReads(texts, i);
    }
  }

  /** What a reader of the list sees of a message: its number, read off the label it was stored under. */
  ghost predicate CarriesNumber(entry: string, number: nat) {
    exists text: string :: entry == Label(number, text)
  }

  /** Two entries of the list that carry the same number. */
  ghost predicate SameNumber(log: Log, i: nat, j: nat)
    requires i < |log.messages| && j < |log.messages|
  {
    exists number: nat :: CarriesNumber(log.messages[i], number) && CarriesNumber(log.messages[j], number)
  }

  /** A label has one number only, which ends at the first colon, and one text only. */
  lemma LabelNumber(number: nat, text: string, other: nat, rest: string)
    requires Label(number, text) == Label(other, rest)
    ensures number == other && text == rest
  {
    var a, b := PrintInt(number), PrintInt(other);
    PrintIntPlain(number);
    PrintIntPlain(other);
    assert Label(number, text) == "#" + a + [':'] + (" " + text);
    assert Label(other, rest) == "#" + b + [':'] + (" " + rest);
    SplitCons("#" + a, " " + text, ':');
    SplitCons("#" + b, " " + rest, ':');
    assert "#" + a == Split(Label(number, text), ':')[0] == "#" + b;
    assert a == ("#" + a)[1..] == ("#" + b)[1..] == b;
    ParsePrint(number);
    ParsePrint(other);
    LabelReads(number, text);
    LabelReads(number, rest);
  }

  /**
   The counter restarts at every trim, so the numbers tell the messages in the list apart exactly while at most 151 were
   ever stored.
   */
  lemma NumbersDistinctIff(texts: seq<string>)
    ensures var log := After(texts);
      (forall i, j :: 0 <= i < j < |log.messages| ==> !SameNumber(log, i, j)) <==> |texts| <= 151
  {
    hide After, Label, Kept, NumberOf;
    var n, log := |texts|, After(texts);
    Retention(texts);
    DistinctIff(n);
    forall i, j | 0 <= i < j < |log.messages|
      ensures SameNumber(log, i, j) <==> NumberOf(n, i) == NumberOf(n, j)
    {
      SameNumberIff(texts, i, j);
    }
  }

  lemma SameNumberIff(texts: seq<string>, i: nat, j: nat)
    requires i < |After(texts).messages| && j < |After(texts).messages|
    ensures Kept(|texts|) <= |texts| && i < Kept(|texts|) && j < Kept(|texts|)
    ensures SameNumber(After(texts), i, j) <==> NumberOf(|texts|, i) == NumberOf(|texts|, j)
  {
    hide After, Label, Kept, NumberOf;
    var n, log := |texts|, After(texts);
    NumberInList(texts, i);
    NumberInList(texts, j);
    var a, b := NumberOf(n, i), NumberOf(n, j);
    assert CarriesNumber(log.messages[i], a) && CarriesNumber(log.messages[j], b);
    if SameNumber(log, i, j) {
      var number: nat :| CarriesNumber(log.messages[i], number) && CarriesNumber(log.messages[j], number);
      var s: string :| log.messages[i] == Label(number, s);
      var t: string :| log.messages[j] == Label(number, t);
      LabelNumber(number, s, a, texts[n - Kept(n) + i]);
      LabelNumber(number, t, b, texts[n - Kept(n) + j]);
    }
  }
}
