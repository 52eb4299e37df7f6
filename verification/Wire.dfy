/**
 The text of a batch: `value,parity,` for each mean, in order, with the trailing comma left in.
 Two encoders write it (the node's appends and the simulator's join) and one parser reads it.
 */
module Wire {
  import opened Wrappers
  import opened Text
  import opened Parity

  datatype Pair = Pair(value: int, parity: int)

  // ---------- the node's encoder ----------

  /** What one iteration of the node appends: the mean and a comma, then the parity bit and a comma. */
  function EncodePair(p: Pair): string {
    PrintInt(p.value) + "," + PrintInt(p.parity) + ","
  }

  function Encode(ps: seq<Pair>): string {
    if ps == [] then "" else Encode(ps[..|ps| - 1]) + EncodePair(ps[|ps| - 1])
  }

  /** The pair the node emits for a mean. */
  function Protect(v: nat): Pair {
    Pair(v, OddParity(v))
  }

  function ProtectAll(vs: seq<nat>): (ps: seq<Pair>)
    ensures |ps| == |vs|
    ensures forall i :: 0 <= i < |vs| ==> ps[i] == Protect(vs[i])
  {
    seq(|vs|, i requires 0 <= i < |vs| => Protect(vs[i]))
  }

  // ---------- the parser ----------

  /** The integers a batch holds, in order. */
  function Flatten(ps: seq<Pair>): (ts: seq<int>)
    ensures |ts| == 2 * |ps|
    ensures forall k :: 0 <= k < |ps| ==> ts[2 * k] == ps[k].value && ts[2 * k + 1] == ps[k].parity
  {
    if ps == [] then [] else Flatten(ps[..|ps| - 1]) + [ps[|ps| - 1].value, ps[|ps| - 1].parity]
  }

  /** Every part read as an integer, or None as soon as one part is not one. */
  function ParseAll(parts: seq<string>): Option<seq<int>> {
    if parts == [] then Some([])
    else
      match (ParseAll(parts[..|parts| - 1]), ParseInt(parts[|parts| - 1]))
      case (Some(front), Some(n)) => Some(front + [n])
      case _ => None
  }

  /** All but the last character; an empty message stays empty. */
  function DropLast(message: string): string {
    if message == "" then "" else message[..|message| - 1]
  }

  /** The decoder's parse: without its last character, stripped, split at the commas, each part read as an integer. */
  function Tokens(message: string): Option<seq<int>> {
    ParseAll(Split(Strip(DropLast(message)), ','))
  }

  // ---------- printer and parser undo each other ----------

  function PrintAll(ts: seq<int>): (parts: seq<string>)
    ensures |parts| == |ts|
    ensures forall i :: 0 <= i < |ts| ==> parts[i] == PrintInt(ts[i])
  {
    seq(|ts|, i requires 0 <= i < |ts| => PrintInt(ts[i]))
  }

  lemma {:induction false} ParsePrintAll(ts: seq<int>)
    ensures ParseAll(PrintAll(ts)) == Some(ts)
  {
    if ts != [] {
      var front, last := ts[..|ts| - 1], ts[|ts| - 1];
      ParsePrintAll(front);
      ParsePrint(last);
      assert PrintAll(ts)[..|ts| - 1] == PrintAll(front);
      assert front + [last] == ts;
    }
  }

  lemma {:induction false} JoinSnoc(parts: seq<string>, p: string, c: char)
    requires parts != []
    ensures Join(parts + [p], c) == Join(parts, c) + [c] + p
  {
    var all := parts + [p];
    if |parts| == 1 {
      assert all[1..] == [p];
    } else {
      assert all[1..] == parts[1..] + [p];
      JoinSnoc(parts[1..], p, c);
    }
  }

  lemma JoinSnocPair(parts: seq<string>, v: string, b: string, c: char)
    ensures Join(parts + [v, b], c) == if parts == [] then v + [c] + b else Join(parts, c) + [c] + v + [c] + b
  {
    assert parts + [v, b] == parts + [v] + [b];
    JoinSnoc(parts + [v], b, c);
    if parts == [] {
      assert parts + [v] == [v];
    } else {
      JoinSnoc(parts, v, c);
    }
  }

  lemma PrintAllSnocPair(ts: seq<int>, v: int, b: int)
    ensures PrintAll(ts + [v, b]) == PrintAll(ts) + [PrintInt(v), PrintInt(b)]
  {
  }

  lemma Regroup(text: string, joined: string, v: string, b: string)
    requires text == joined + ","
    ensures text + (v + "," + b + ",") == joined + [','] + v + [','] + b + ","
  {
  }

  /** The appended text is the comma-joined token list with a comma after it. */
  lemma {:induction false} EncodeIsJoin(ps: seq<Pair>)
    requires ps != []
    ensures Encode(ps) == Join(PrintAll(Flatten(ps)), ',') + ","
  {
    var n := |ps| - 1;
    var front, p := ps[..n], ps[n];
    var parts, v, b := PrintAll(Flatten(front)), PrintInt(p.value), PrintInt(p.parity);
    assert PrintAll(Flatten(ps)) == parts + [v, b] by {
      PrintAllSnocPair(Flatten(front), p.value, p.parity);
    }
    JoinSnocPair(parts, v, b, ',');
    if n == 0 {
      assert Encode(ps) == v + "," + b + ",";
    } else {
      EncodeIsJoin(front);
      Regroup(Encode(front), Join(parts, ','), v, b);
    }
  }

  lemma {:induction false} JoinPlain(ts: seq<int>)
    requires ts != []
    ensures Join(PrintAll(ts), ',') != ""
    ensures forall i :: 0 <= i < |Join(PrintAll(ts), ',')| ==> !IsSpace(Join(PrintAll(ts), ',')[i])
  {
    var n := |ts| - 1;
    var front := ts[..n];
    PrintIntPlain(ts[n]);
    if n > 0 {
      JoinPlain(front);
      assert PrintAll(ts) == PrintAll(front) + [PrintInt(ts[n])];
      JoinSnoc(PrintAll(front), PrintInt(ts[n]), ',');
    }
  }

  /** Parsing a printed batch gives back exactly its integers, whatever they are. */
  lemma TokensOfEncode(ps: seq<Pair>)
    requires ps != []
    ensures Tokens(Encode(ps)) == Some(Flatten(ps))
  {
    var ts := Flatten(ps);
    var parts := PrintAll(ts);
    var joined := Join(parts, ',');
    EncodeIsJoin(ps);
    assert DropLast(Encode(ps)) == joined;
    JoinPlain(ts);
    assert Strip(joined) == joined;
    forall i | 0 <= i < |parts| ensures ',' !in parts[i] {
      PrintIntPlain(ts[i]);
    }
    JoinThenSplit(parts, ',');
    ParsePrintAll(ts);
  }

  /** Blanks around the list do not matter, and neither does which character comes last. */
  lemma TokensPadded(ts: seq<int>, a: string, b: string, last: char)
    requires ts != [] && AllSpaces(a) && AllSpaces(b)
    ensures Tokens(a + Join(PrintAll(ts), ',') + b + [last]) == Some(ts)
  {
    hide Strip, Split, Join, ParseAll, PrintInt;
    var parts := PrintAll(ts);
    var joined := Join(parts, ',');
    JoinPlain(ts);
    StripBlanks(a, joined, b);
    assert DropLast(a + joined + b + [last]) == a + joined + b;
    forall i | 0 <= i < |parts| ensures ',' !in parts[i] {
      PrintIntPlain(ts[i]);
    }
    JoinThenSplit(parts, ',');
    ParsePrintAll(ts);
  }

  lemma {:induction false} ParseAllRefuses(parts: seq<string>, k: nat)
    requires k < |parts| && ParseInt(parts[k]) == None
    ensures ParseAll(parts) == None
  {
    hide ParseInt;
    if k < |parts| - 1 {
      ParseAllRefuses(parts[..|parts| - 1], k);
    }
  }

  /** Splitting keeps every character but the separator in one of the parts. */
  lemma {:induction false} SplitKeeps(s: string, i: nat, c: char) returns (k: nat, j: nat)
    requires i < |s| && s[i] != c
    ensures k < |Split(s, c)| && j < |Split(s, c)[k]| && Split(s, c)[k][j] == s[i]
  {
    if i == 0 {
      k, j := 0, 0;
    } else {
      k, j := SplitKeeps(s[1..], i - 1, c);
      if s[0] == c {
        k := k + 1;
      } else if k == 0 {
        j := j + 1;
      }
    }
  }

  /** Any character that is neither digit, sign, blank nor comma makes the parse fail, unless it is the last. */
  lemma AlienRefused(message: string, i: nat)
    requires i + 1 < |message| && !IsDigit(message[i]) && !IsSpace(message[i]) && message[i] !in "+-,"
    ensures Tokens(message) == None
  {
    hide Strip, Split, ParseInt, ParseAll;
    var s := DropLast(message);
    StripKeeps(s, i);
    var t := Strip(s);
    var at :| 0 <= at < |t| && t[at] == message[i];
    var k, j := SplitKeeps(t, at, ',');
    ParseRefuses(Split(t, ',')[k], j);
    ParseAllRefuses(Split(t, ','), k);
  }

  /** A message of at most one character has no number in it. */
  lemma ShortRefused(message: string)
    requires |message| <= 1
    ensures Tokens(message) == None
  {
    assert DropLast(message) == "";
    assert Split("", ',') == [""];
    ParseAllRefuses([""], 0);
  }

  /** Two means, character by character. */
  lemma EncodeExample()
    ensures Encode([Pair(12, 1), Pair(7, 0)]) == "12,1,7,0,"
  {
    var ps := [Pair(12, 1), Pair(7, 0)];
    assert ps[..1] == [Pair(12, 1)] && ps[..1][..0] == [];
    assert PrintInt(12) == "12" && PrintInt(7) == "7" && PrintInt(1) == "1" && PrintInt(0) == "0";
    hide PrintInt;
    assert Encode(ps[..1]) == "12,1,";
  }

  /** Two batches with the same text are the same batch. */
  lemma EncodeInjective(ps: seq<Pair>, qs: seq<Pair>)
    requires Encode(ps) == Encode(qs)
    ensures ps == qs
  {
    if ps == [] || qs == [] {
      EmptyText(ps);
      EmptyText(qs);
    } else {
      TokensOfEncode(ps);
      TokensOfEncode(qs);
      forall k | 0 <= k < |ps| && |ps| == |qs| ensures ps[k] == qs[k] {
        assert Flatten(ps)[2 * k] == Flatten(qs)[2 * k] && Flatten(ps)[2 * k + 1] == Flatten(qs)[2 * k + 1];
      }
    }
  }

  lemma EmptyText(ps: seq<Pair>)
    ensures Encode(ps) == "" <==> ps == []
  {
  }

  // ---------- the simulator's encoder ----------

  /** `setParity(value)`. */
  function SetParity(value: int): string {
    if Count(Bin(value), '1') % 2 == 1 then Join([PrintInt(value), "0"], ',') else Join([PrintInt(value), "1"], ',')
  }

  /** The simulator's payload: the texts of the pairs joined by commas, with one more comma at the end. */
  function SimulatorPayload(values: seq<int>): string {
    Join(SetParities(values), ',') + ","
  }

  function SetParities(values: seq<int>): (parts: seq<string>)
    ensures |parts| == |values|
  {
    seq(|values|, i requires 0 <= i < |values| => SetParity(values[i]))
  }

  lemma SetParityParts(values: seq<int>, v: int)
    ensures SetParities(values + [v]) == SetParities(values) + [SetParity(v)]
  {
    hide SetParity;
  }

  lemma JoinOne(s: string, c: char)
    ensures Join([s], c) == s
  {
  }

  /** For any integer `setParity` writes the value and the odd-parity bit of its absolute value. */
  lemma SetParityIsPair(v: int)
    ensures SetParity(v) + "," == EncodePair(Pair(v, OddParity(Abs(v))))
  {
    BinOnes(v);
    var b := if OddParity(Abs(v)) == 0 then "0" else "1";
    assert PrintInt(OddParity(Abs(v))) == b;
    assert [PrintInt(v), b][1..] == [b];
    assert Join([PrintInt(v), b], ',') == PrintInt(v) + [','] + b;
  }

  /** The simulator's text of any integers is that of the pairs with their odd-parity bits. */
  lemma {:induction false} SimulatorText(vs: seq<int>, ps: seq<Pair>)
    requires vs != [] && |ps| == |vs|
    requires forall i :: 0 <= i < |vs| ==> ps[i] == Pair(vs[i], OddParity(Abs(vs[i])))
    ensures SimulatorPayload(vs) == Encode(ps)
  {
    hide SetParity, EncodePair, Join, OddParity, Abs;
    var n := |vs| - 1;
    var front, v := vs[..n], vs[n];
    assert front + [v] == vs;
    SetParityParts(front, v);
    SetParityIsPair(v);
    if n > 0 {
      SimulatorText(front, ps[..n]);
      JoinSnoc(SetParities(front), SetParity(v), ',');
    } else {
      assert SetParities(front) + [SetParity(v)] == [SetParity(v)];
      assert Encode(ps[..n]) == "";
      JoinOne(SetParity(v), ',');
    }
  }

  /** The simulator's joined payload is the text the node would have accumulated for the same means. */
  lemma EncodersAgree(vs: seq<nat>)
    requires vs != []
    ensures SimulatorPayload(vs) == Encode(ProtectAll(vs))
  {
    hide OddParity, Encode;
    SimulatorText(vs, ProtectAll(vs));
  }
}
