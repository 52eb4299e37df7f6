/** The node's `main` loop over its static buffer and sample window, proved against `SamplerSpec`. */
module Sampler {
  import opened Text
  import opened CStrings
  import opened Parity
  import opened Rounding
  import opened Wire
  import opened SamplerSpec

  lemma PrintedHasNoNul(v: int)
    ensures NUL !in PrintInt(v) && NUL !in PrintInt(v) + ","
  {
    PrintIntPlain(v);
  }

  class Node {
    const buffer: array<char>
    const tempList: array<int16>
    var arrayLength: nat
    var counter: nat
    /** The texts handed to `gcoap_post`, whose result the loop ignores. */
    var posted: seq<string>
    /** Set where control enters a parity loop that never ends. */
    var hung: bool

    ghost predicate Valid()
      reads this, buffer, tempList
    {
      && buffer.Length == 128 && tempList.Length == WINDOW
      && Terminated(buffer[..])
      && counter < BATCH
      && |CString(buffer[..])| <= 8 * counter + (if hung then 7 else 0)
      && (if hung then arrayLength == 5 else arrayLength <= 4)
    }

    ghost function View(): State
      reads this, buffer, tempList
      requires Valid()
    {
      State(tempList[..arrayLength], counter, CString(buffer[..]), posted, hung)
    }

    /** Static storage starts out zeroed. */
    constructor ()
      ensures Valid() && fresh(buffer) && fresh(tempList)
      ensures View() == START
    {
      buffer := new char[128](_ => NUL);
      tempList := new int16[5](_ => 0);
      arrayLength, counter, posted, hung := 0, 0, [], false;
      new;
      Holds(buffer[..], "");
    }

    /** The rounded mean of a full window, its sum added up by index. */
    method MeanOfWindow() returns (mean: int16)
      requires tempList.Length == WINDOW && arrayLength == WINDOW
      ensures mean == Mean(tempList[..])
    {
      var sum: int := 0;
      for i := 0 to arrayLength
        invariant sum == Sum(tempList[..i])
      {
        assert tempList[..i + 1][..i] == tempList[..i];
        sum := sum + tempList[i];
      }
      assert tempList[..arrayLength] == tempList[..];
      MeanBetween(tempList[..], -32768, 32767);
      mean := Round(sum as real / 5.0);
    }

    /** The in-place shift: the oldest sample goes, the others move down one slot. */
    method ShiftWindow()
      requires tempList.Length == WINDOW && arrayLength == WINDOW
      modifies tempList, this`arrayLength
      ensures arrayLength == WINDOW - 1
      ensures tempList[..arrayLength] == old(tempList[1..])
    {
      for i := 0 to arrayLength - 1
        invariant arrayLength == WINDOW
        invariant forall k :: 0 <= k < i ==> tempList[k] == old(tempList[k + 1])
        invariant forall k :: i <= k < WINDOW ==> tempList[k] == old(tempList[k])
      {
        tempList[i] := tempList[i + 1];
      }
      arrayLength := arrayLength - 1;
    }

    /** The two `sprintf`/`strcat` pairs, up to the point where a negative mean enters the parity loop. */
    method AppendMean(mean: int16)
      requires buffer.Length == 128 && Terminated(buffer[..]) && |CString(buffer[..])| <= 72 && !hung
      modifies buffer, this`hung
      ensures Terminated(buffer[..])
      ensures hung <==> !ParityLoopEnds(mean)
      ensures !hung ==> mean >= 0
      ensures |CString(buffer[..])| <= old(|CString(buffer[..])|) + (if hung then 7 else 8)
      ensures CString(buffer[..]) ==
              old(CString(buffer[..])) + if hung then PrintInt(mean) + "," else EncodePair(Protect(mean))
    {
      IntLength(mean);
      PrintedHasNoNul(mean);
      ShiftLoopEndsIff(mean);
      var tempStr := new char[10];
      Sprintf(tempStr, PrintInt(mean) + ",");
      Strcat(buffer, CString(tempStr[..]));
      if mean < 0 {
        hung := true;
        return;
      }
      var parity, rounds := CalculateOddParity(mean);
      PrintedHasNoNul(parity);
      assert |PrintInt(parity)| == 1;
      var parityBit := new char[4];
      Sprintf(parityBit, PrintInt(parity) + ",");
      Strcat(buffer, CString(parityBit[..]));
    }

    /** The `else` branch once the window is full. */
    method EmitMean()
      requires buffer.Length == 128 && tempList.Length == WINDOW && Terminated(buffer[..])
      requires arrayLength == WINDOW && counter < BATCH && !hung && |CString(buffer[..])| <= 8 * counter
      modifies this, buffer, tempList
      ensures Terminated(buffer[..]) && arrayLength <= WINDOW && counter <= BATCH
      ensures State(tempList[..arrayLength], counter, CString(buffer[..]), posted, hung)
              == Emit(old(State(tempList[..], counter, CString(buffer[..]), posted, hung)))
      ensures |CString(buffer[..])| <= 8 * counter + (if hung then 7 else 0)
      ensures if hung then arrayLength == 5 && counter < BATCH else arrayLength == 4
    {
      hide Mean, PrintInt, EncodePair, Protect, CString, ParityLoopEnds;
      var mean := MeanOfWindow();
      AppendMean(mean);
      if hung {
        assert tempList[..arrayLength] == tempList[..];
        return;
      }
      ShiftWindow();
      counter := counter + 1;
    }

    /** A successful read: fill the window, or complete it and emit its mean. */
    method OnSample(temp: int16)
      requires Valid() && !hung
      modifies this, buffer, tempList
      ensures Terminated(buffer[..]) && arrayLength <= WINDOW && counter <= BATCH
      ensures State(tempList[..arrayLength], counter, CString(buffer[..]), posted, hung)
              == Absorb(old(View()), temp)
      ensures |CString(buffer[..])| <= 8 * counter + (if hung then 7 else 0)
      ensures if hung then arrayLength == 5 && counter < BATCH else arrayLength <= 4
    {
      hide Emit, CString;
      ghost var before := View();
      if arrayLength < 4 {
        tempList[arrayLength] := temp;
        arrayLength := arrayLength + 1;
        assert tempList[..arrayLength] == before.window + [temp];
      } else {
        tempList[arrayLength] := temp;
        arrayLength := arrayLength + 1;
        assert tempList[..] == before.window + [temp];
        EmitMean();
      }
    }

    /** One pass of the loop: the read, and the hand-over when ten means wait. */
    method Iterate(r: Read)
      requires Valid()
      modifies this, buffer, tempList
      ensures Valid() && View() == Step(old(View()), r)
    {
      hide Absorb, CString;
      if hung {
        return;
      }
      if r.Good? {
        OnSample(r.temp);
      }
      if !hung && counter == 10 {
        posted := posted + [CString(buffer[..])];
        Clear(buffer);
        counter := 0;
      }
    }
  }

  /** The program from its start through any sequence of read outcomes. */
  method RunNode(rs: seq<Read>) returns (node: Node)
    ensures node.Valid() && node.View() == Run(rs)
  {
    node := new Node();
    for i := 0 to |rs|
      invariant node.Valid() && fresh(node) && fresh(node.buffer) && fresh(node.tempList)
      invariant node.View() == Run(rs[..i])
    {
      assert rs[..i + 1][..i] == rs[..i];
      node.Iterate(rs[i]);
    }
    assert rs[..|rs|] == rs;
  }
}
