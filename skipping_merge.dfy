/** The merge as written stops at the first exhausted input the cursor
    reaches. A merge should instead go round-robin over the inputs,
    passing over every exhausted input until all are used up. This module
    exhibits the difference and gives that merge, proved to keep every
    byte. */
module SkippingMerge {
  import opened Interleave

  /** With inputs [7], [] and [9] the merge loop writes 7, then reads -1
      from the empty second input three times and stops: the 9 of the
      third input is never written. */
  lemma AsWrittenMergeDropsBytes(output: seq<byte>)
    requires IsMergeOf([[7], [], [9]], output)
    ensures output == [7]
    ensures |output| < Total([[7], [], [9]])
  {
    var inputs: seq<seq<byte>> := [[7], [], [9]];
    if |output| == 0 {
      assert false;
    } else if |output| >= 2 {
      MergeNotExhaustedBefore(inputs, output, 1);
      assert false;
    }
    assert TakenFrom(inputs, output, 0);
    assert Total(inputs) == 2 by {
      var one: seq<seq<byte>> := [[7]];
      assert one[..0] == [];
      assert inputs[..2] == [[7], []] && inputs[..2][..1] == one;
    }
  }

  /** Intended merge: round-robin over the inputs, passing over every
      input that has reached its end, until all have. Round r writes
      byte r of each input that is longer than r, in input order. */

  /** The first byte of each input that still has one, in input order. */
  function Heads(inputs: seq<seq<byte>>): seq<byte>
  {
    if inputs == [] then []
    else
      var last := inputs[|inputs| - 1];
      Heads(inputs[..|inputs| - 1]) + (if last == [] then [] else [last[0]])
  }

  /** Every input without its first byte. */
  function Tails(inputs: seq<seq<byte>>): (rest: seq<seq<byte>>)
    ensures |rest| == |inputs|
  {
    seq(|inputs|, i requires 0 <= i < |inputs| => if inputs[i] == [] then [] else inputs[i][1..])
  }

  /** The length of the longest input: the number of rounds. */
  function Longest(inputs: seq<seq<byte>>): (n: nat)
    ensures forall i :: 0 <= i < |inputs| ==> |inputs[i]| <= n
    ensures inputs != [] ==> exists i :: 0 <= i < |inputs| && |inputs[i]| == n
  {
    if inputs == [] then 0
    else
      var l := Longest(inputs[..|inputs| - 1]);
      var last := |inputs[|inputs| - 1]|;
      assert forall i :: 0 <= i < |inputs| - 1 ==> inputs[i] == inputs[..|inputs| - 1][i];
      if last < l then l else last
  }

  lemma TailsShorter(inputs: seq<seq<byte>>)
    requires Longest(inputs) > 0
    ensures Longest(Tails(inputs)) < Longest(inputs)
  {
  }

  /** The merge with exhausted inputs passed over. */
  function Rounds(inputs: seq<seq<byte>>): seq<byte>
    decreases Longest(inputs)
  {
    if Longest(inputs) == 0 then []
    else
      TailsShorter(inputs);
      Heads(inputs) + Rounds(Tails(inputs))
  }

  /** All bytes of a list of inputs, counted with repetition. */
  function Bytes(inputs: seq<seq<byte>>): multiset<byte>
  {
    if inputs == [] then multiset{} else Bytes(inputs[..|inputs| - 1]) + multiset(inputs[|inputs| - 1])
  }

  /** One round takes the heads and leaves the tails: nothing lost, nothing
      repeated. */
  lemma {:induction false} HeadsAndTails(inputs: seq<seq<byte>>)
    ensures multiset(Heads(inputs)) + Bytes(Tails(inputs)) == Bytes(inputs)
    ensures |Heads(inputs)| + Total(Tails(inputs)) == Total(inputs)
  {
    if inputs != [] {
      var init, last := inputs[..|inputs| - 1], inputs[|inputs| - 1];
      var rest := Tails(inputs);
      var tail := rest[|rest| - 1];
      HeadsAndTails(init);
      LastHeadAndTail(inputs);
      assert Bytes(rest) == Bytes(Tails(init)) + multiset(tail);
      assert Total(rest) == Total(Tails(init)) + |tail|;
      assert Bytes(inputs) == Bytes(init) + multiset(last);
      assert Total(inputs) == Total(init) + |last|;
      calc {
        multiset(Heads(inputs)) + Bytes(rest);
        multiset(Heads(inputs)) + multiset(tail) + Bytes(Tails(init));
        multiset(Heads(init)) + multiset(last) + Bytes(Tails(init));
        Bytes(init) + multiset(last);
      }
    }
  }

  /** The step of HeadsAndTails for the last input: its head and its tail
      together are the input. */
  lemma LastHeadAndTail(inputs: seq<seq<byte>>)
    requires inputs != []
    ensures var init, last, rest := inputs[..|inputs| - 1], inputs[|inputs| - 1], Tails(inputs);
      rest[..|rest| - 1] == Tails(init) &&
      multiset(Heads(inputs)) + multiset(rest[|rest| - 1]) == multiset(Heads(init)) + multiset(last) &&
      |Heads(inputs)| + |rest[|rest| - 1]| == |Heads(init)| + |last|
  {
    var init, last, rest := inputs[..|inputs| - 1], inputs[|inputs| - 1], Tails(inputs);
    assert rest[..|rest| - 1] == Tails(init);
    if last != [] {
      assert Heads(inputs) == Heads(init) + [last[0]];
      assert last == [last[0]] + last[1..];
    }
  }

  lemma {:induction false} NoBytesLeft(inputs: seq<seq<byte>>)
    requires Longest(inputs) == 0
    ensures Bytes(inputs) == multiset{} && Total(inputs) == 0
  {
    if inputs != [] {
      NoBytesLeft(inputs[..|inputs| - 1]);
    }
  }

  /** The intended merge writes every byte of every input exactly once:
      its output holds the inputs' bytes with their multiplicities, and
      its length is the sum of the input lengths. */
  lemma {:induction false} RoundsKeepsEveryByte(inputs: seq<seq<byte>>)
    ensures multiset(Rounds(inputs)) == Bytes(inputs)
    ensures |Rounds(inputs)| == Total(inputs)
    decreases Longest(inputs)
  {
    if Longest(inputs) == 0 {
      NoBytesLeft(inputs);
    } else {
      TailsShorter(inputs);
      RoundsKeepsEveryByte(Tails(inputs));
      HeadsAndTails(inputs);
    }
  }

  /** Heads of a list whose first c inputs are the non-empty ones. */
  lemma {:induction false} HeadsOfFirst(inputs: seq<seq<byte>>, c: nat)
    requires c <= |inputs|
    requires forall i :: 0 <= i < |inputs| ==> (inputs[i] != [] <==> i < c)
    ensures |Heads(inputs)| == c
    ensures forall i :: 0 <= i < c ==> Heads(inputs)[i] == inputs[i][0]
  {
    if inputs != [] {
      var init := inputs[..|inputs| - 1];
      if c == |inputs| {
        HeadsOfFirst(init, c - 1);
      } else {
        HeadsOfFirst(init, c);
      }
    }
  }

  lemma NextRound(i: nat, n: nat, j: nat)
    ensures (i + 1) * n + j == i * n + j + n
  {
  }

  /** Dropping the first round of a dealing leaves the dealing of the
      rest of the input. */
  lemma LaneTail(s: seq<byte>, n: nat, j: nat)
    requires 0 < n <= |s| && j < n
    ensures Lane(s, n, j) != [] && Lane(s, n, j)[1..] == Lane(s[n..], n, j)
  {
    var lane, rest := Lane(s, n, j), Lane(s[n..], n, j);
    LaneLength(s, n, j);
    LaneLength(s[n..], n, j);
    DivModShift(|s|, n);
    assert |lane| == |rest| + 1;
    forall i | 0 <= i < |rest|
      ensures lane[i + 1] == rest[i]
    {
      LaneTailAt(s, n, j, i);
    }
  }

  /** Byte i of output j of the rest of the input is byte i + 1 of output
      j of the whole input. */
  lemma LaneTailAt(s: seq<byte>, n: nat, j: nat, i: nat)
    requires 0 < n <= |s| && j < n && i < |Lane(s[n..], n, j)|
    requires |Lane(s, n, j)| == |Lane(s[n..], n, j)| + 1
    ensures Lane(s, n, j)[i + 1] == Lane(s[n..], n, j)[i]
  {
    LaneElement(s[n..], n, j, i);
    NextRound(i, n, j);
    LaneElement(s, n, j, i + 1);
  }

  /** The first round of a dealing: output j starts with input byte j,
      and is empty when the input is shorter than that. */
  lemma DealFirstRound(s: seq<byte>, n: nat, j: nat)
    requires j < n
    ensures Lane(s, n, j) != [] <==> j < |s|
    ensures j < |s| ==> Lane(s, n, j)[0] == s[j]
    ensures |s| < n ==> |Lane(s, n, j)| <= 1
  {
    LaneLength(s, n, j);
    if j < |s| {
      DivModUnique(j, n, 0, j);
      LaneAt(s, n, j);
    }
    if |s| < n {
      DivModUnique(|s|, n, 0, |s|);
    } else {
      DivModShift(|s|, n);
    }
  }

  /** Dropping the first round of every output of a dealing leaves the
      dealing of the rest of the input. */
  lemma TailsOfDeal(s: seq<byte>, n: nat)
    requires 0 < n <= |s|
    ensures Tails(Deal(s, n)) == Deal(s[n..], n)
  {
    var parts := Deal(s, n);
    forall j | 0 <= j < n
      ensures Tails(parts)[j] == Deal(s[n..], n)[j]
    {
      LaneTail(s, n, j);
    }
  }

  /** The first round of a dealing over n outputs takes the first n input
      bytes, or all of them when there are fewer. */
  lemma HeadsOfDeal(s: seq<byte>, n: nat)
    requires 0 < n
    ensures Heads(Deal(s, n)) == s[..if |s| < n then |s| else n]
  {
    var parts := Deal(s, n);
    var c := if |s| < n then |s| else n;
    forall j | 0 <= j < n
      ensures (parts[j] != [] <==> j < c) && (j < c ==> parts[j][0] == s[j])
    {
      DealFirstRound(s, n, j);
    }
    HeadsOfFirst(parts, c);
  }

  /** A dealing has a round exactly when the input is not empty, and only
      one when the input is shorter than the number of outputs. */
  lemma RoundsOfDealing(s: seq<byte>, n: nat)
    requires 0 < n
    ensures Longest(Deal(s, n)) == 0 <==> |s| == 0
    ensures |s| < n ==> Longest(Tails(Deal(s, n))) == 0
  {
    var parts := Deal(s, n);
    if |s| > 0 {
      DealFirstRound(s, n, 0);
      assert 0 < |parts[0]| <= Longest(parts);
    }
    if |s| < n {
      forall j | 0 <= j < n
        ensures |parts[j]| <= 1
      {
        DealFirstRound(s, n, j);
      }
      ShortDealTails(parts);
    }
    if |s| == 0 {
      forall j | 0 <= j < n
        ensures parts[j] == []
      {
        DealFirstRound(s, n, j);
      }
      var i :| 0 <= i < n && |parts[i]| == Longest(parts);
    }
  }

  /** When no output holds more than one byte, no output has a second
      round. */
  lemma ShortDealTails(parts: seq<seq<byte>>)
    requires forall j :: 0 <= j < |parts| ==> |parts[j]| <= 1
    ensures Longest(Tails(parts)) == 0
  {
    assert forall j :: 0 <= j < |parts| ==> Tails(parts)[j] == [];
  }

  /** A list of inputs with a first round whose heads are the first c
      bytes of s and whose remaining rounds give the rest of s merges to s. */
  lemma RoundsFromHeads(inputs: seq<seq<byte>>, s: seq<byte>, c: nat)
    requires Longest(inputs) > 0 && c <= |s|
    requires Heads(inputs) == s[..c] && Rounds(Tails(inputs)) == s[c..]
    ensures Rounds(inputs) == s
  {
    assert s == s[..c] + s[c..];
  }

  /** The intended merge still inverts the split. */
  lemma {:induction false} RoundsOfDeal(s: seq<byte>, n: nat)
    requires 0 < n
    ensures Rounds(Deal(s, n)) == s
    decreases |s|
  {
    RoundsOfDealing(s, n);
    if |s| > 0 {
      HeadsOfDeal(s, n);
      if n <= |s| {
        TailsOfDeal(s, n);
        RoundsOfDeal(s[n..], n);
        RoundsFromHeads(Deal(s, n), s, n);
      } else {
        RoundsFromHeads(Deal(s, n), s, |s|);
      }
    }
  }
}
