/** Round-robin dealing of a byte sequence over n targets, and what a
    round-robin merge that stops at the first exhausted input produces.
    These are the specification functions the split and merge loops of
    module Splitter are proved against. */
module Interleave {

  /** A value returned by InputStream.read() other than -1. */
  type byte = x: int | 0 <= x < 256

  /** Arithmetic of a cursor that cycles 0..n-1 */

  /** How many of the first k turns of a cursor cycling over n targets
      fall on target j. */
  function Turns(k: nat, n: nat, j: nat): nat
    requires n > 0
  {
    k / n + (if j < k % n then 1 else 0)
  }

  lemma MulAtLeast(d: nat, n: nat)
    requires d >= 1
    ensures d * n >= n
  {
  }

  /** Quotient and remainder rebuild x. */
  lemma DivModParts(x: nat, n: nat)
    requires n > 0
    ensures x == x / n * n + x % n
  {
  }

  /** Quotient and remainder are the only pair that rebuilds x. */
  lemma DivModUnique(x: nat, n: nat, q: nat, r: nat)
    requires n > 0 && r < n && x == q * n + r
    ensures x / n == q && x % n == r
  {
    var q', r' := x / n, x % n;
    assert x == q' * n + r';
    if q' < q {
      assert (q - q') * n == q * n - q' * n;
      MulAtLeast(q - q', n);
    } else if q < q' {
      assert (q' - q) * n == q' * n - q * n;
      MulAtLeast(q' - q, n);
    }
  }

  /** A full round later the cursor is on the same target, one round on. */
  lemma DivModShift(x: nat, n: nat)
    requires 0 < n <= x
    ensures x / n == (x - n) / n + 1 && x % n == (x - n) % n
  {
    var y := x - n;
    assert y == y / n * n + y % n;
    assert (y / n + 1) * n == y / n * n + n;
    DivModUnique(x, n, y / n + 1, y % n);
  }

  /** One more turn of the cursor: it moves to the next target, wrapping
      to 0 after n - 1, and the round count goes up on the wrap. */
  lemma DivModNext(k: nat, n: nat)
    requires n > 0
    ensures k % n + 1 < n ==> (k + 1) % n == k % n + 1 && (k + 1) / n == k / n
    ensures k % n + 1 == n ==> (k + 1) % n == 0 && (k + 1) / n == k / n + 1
  {
    if k % n + 1 < n {
      DivModUnique(k + 1, n, k / n, k % n + 1);
    } else {
      DivModUnique(k + 1, n, k / n + 1, 0);
    }
  }

  lemma TurnsNext(k: nat, n: nat, j: nat)
    requires 0 < n && j < n
    ensures Turns(k + 1, n, j) == Turns(k, n, j) + (if j == k % n then 1 else 0)
  {
    DivModNext(k, n);
  }

  /** Dealing (split) */

  /** The bytes that dealing s round-robin over n outputs sends to output
      j: those at positions j, j + n, j + 2n, ... in that order. */
  function Lane(s: seq<byte>, n: nat, j: nat): seq<byte>
    requires n > 0
  {
    if s == [] then []
    else Lane(s[..|s| - 1], n, j) + (if (|s| - 1) % n == j then [s[|s| - 1]] else [])
  }

  /** Dealing one more byte appends it to the output it falls on. */
  lemma LaneExtend(s: seq<byte>, n: nat, j: nat, k: nat)
    requires 0 < n && k < |s|
    ensures Lane(s[..k + 1], n, j) == Lane(s[..k], n, j) + (if k % n == j then [s[k]] else [])
  {
    assert s[..k + 1][..k] == s[..k];
  }

  /** All n outputs of dealing s round-robin. */
  function Deal(s: seq<byte>, n: nat): (parts: seq<seq<byte>>)
    ensures |parts| == n
  {
    seq(n, j requires 0 <= j < n => Lane(s, n, j))
  }

  /** Output j of a dealing of L bytes over n outputs holds L div n bytes,
      plus one when j < L mod n. */
  lemma {:induction false} LaneLength(s: seq<byte>, n: nat, j: nat)
    requires 0 < n && j < n
    ensures |Lane(s, n, j)| == Turns(|s|, n, j)
  {
    if s != [] {
      LaneLength(s[..|s| - 1], n, j);
      TurnsNext(|s| - 1, n, j);
    }
  }

  /** Every output has L div n or L div n + 1 bytes. */
  lemma LaneSizesBalanced(s: seq<byte>, n: nat, j: nat)
    requires 0 < n && j < n
    ensures |s| / n <= |Lane(s, n, j)| <= |s| / n + 1
    ensures j < |s| % n <==> |Lane(s, n, j)| == |s| / n + 1
  {
    LaneLength(s, n, j);
  }

  /** Byte k of the input lands in output k mod n, at position k div n. */
  lemma {:induction false} LaneAt(s: seq<byte>, n: nat, k: nat)
    requires 0 < n && k < |s|
    ensures k / n < |Lane(s, n, k % n)| && Lane(s, n, k % n)[k / n] == s[k]
  {
    var init := s[..|s| - 1];
    if k == |s| - 1 {
      LaneLength(init, n, k % n);
    } else {
      LaneAt(init, n, k);
    }
  }

  /** Conversely, output j holds nothing but input bytes of positions
      congruent to j: its byte i is input byte i * n + j. */
  lemma {:induction false} LaneElement(s: seq<byte>, n: nat, j: nat, i: nat)
    requires 0 < n && j < n && i < |Lane(s, n, j)|
    ensures i * n + j < |s| && Lane(s, n, j)[i] == s[i * n + j]
  {
    var init := s[..|s| - 1];
    if i < |Lane(init, n, j)| {
      LaneElement(init, n, j, i);
    } else {
      LastLaneByte(s, n, j);
    }
  }

  /** The last input byte is the last byte of the output it falls on, at
      position (|s| - 1) div n. */
  lemma LastLaneByte(s: seq<byte>, n: nat, j: nat)
    requires 0 < n && j < n && s != []
    requires |Lane(s[..|s| - 1], n, j)| < |Lane(s, n, j)|
    ensures var i, k := |Lane(s[..|s| - 1], n, j)|, |s| - 1;
      i * n + j == k && Lane(s, n, j)[i] == s[k]
  {
    var k := |s| - 1;
    var i := |Lane(s[..k], n, j)|;
    assert Lane(s, n, j) == Lane(s[..k], n, j) + (if k % n == j then [s[k]] else []);
    assert k % n == j;
    LaneLength(s[..k], n, j);
    assert i == k / n by {
      assert Turns(k, n, j) == k / n;
    }
    DivModParts(k, n);
  }

  /** Sum of the lengths of a list of byte sequences. */
  function Total(ss: seq<seq<byte>>): nat
  {
    if ss == [] then 0 else Total(ss[..|ss| - 1]) + |ss[|ss| - 1]|
  }

  /** The first c of a list of lengths Turns(L, n, 0), Turns(L, n, 1), ...
      add up to c rounds of L div n plus the extra bytes among them. */
  lemma {:induction false} TurnsPrefixTotal(parts: seq<seq<byte>>, L: nat, n: nat, c: nat)
    requires 0 < n && c <= |parts|
    requires forall j :: 0 <= j < c ==> |parts[j]| == Turns(L, n, j)
    ensures Total(parts[..c]) == c * (L / n) + (if c < L % n then c else L % n)
  {
    if c > 0 {
      var q, r := L / n, L % n;
      assert parts[..c][..c - 1] == parts[..c - 1];
      assert Total(parts[..c]) == Total(parts[..c - 1]) + |parts[c - 1]|;
      TurnsPrefixTotal(parts, L, n, c - 1);
      assert c * q == (c - 1) * q + q;
    }
  }

  /** The lengths of the n outputs sum to the input length. */
  lemma DealTotal(s: seq<byte>, n: nat)
    requires 0 < n
    ensures Total(Deal(s, n)) == |s|
  {
    var parts := Deal(s, n);
    forall j | 0 <= j < n
      ensures |parts[j]| == Turns(|s|, n, j)
    {
      LaneLength(s, n, j);
    }
    assert parts[..n] == parts;
    TurnsPrefixTotal(parts, |s|, n, n);
  }

  /** Merging (as written: the cursor does not move past an exhausted input) */

  /** Output byte t of a merge of m inputs is byte t div m of input t mod m. */
  predicate TakenFrom(inputs: seq<seq<byte>>, output: seq<byte>, t: nat)
    requires |inputs| > 0 && t < |output|
  {
    var m := |inputs|;
    t / m < |inputs[t % m]| && output[t] == inputs[t % m][t / m]
  }

  /** After k bytes the cursor stands on input k mod m, and that input has
      already given up all of its bytes: the next read returns -1. */
  predicate ExhaustedAt(inputs: seq<seq<byte>>, k: nat)
    requires |inputs| > 0
  {
    |inputs[k % |inputs|]| == k / |inputs|
  }

  /** output is what the merge loop writes for these inputs: the
      round-robin interleaving, cut off at the first input the cursor
      finds exhausted. With no inputs nothing is written. */
  predicate IsMergeOf(inputs: seq<seq<byte>>, output: seq<byte>)
  {
    if |inputs| == 0 then output == []
    else
      (forall t :: 0 <= t < |output| ==> TakenFrom(inputs, output, t)) &&
      ExhaustedAt(inputs, |output|)
  }

  /** Until it stops, the merge never meets an exhausted input: every
      input the cursor reached before was still holding a byte. */
  lemma MergeNotExhaustedBefore(inputs: seq<seq<byte>>, output: seq<byte>, t: nat)
    requires IsMergeOf(inputs, output) && t < |output|
    ensures |inputs| > 0 && !ExhaustedAt(inputs, t)
  {
    assert TakenFrom(inputs, output, t);
  }

  /** The merge output is determined by its inputs. */
  lemma MergeDetermined(inputs: seq<seq<byte>>, o1: seq<byte>, o2: seq<byte>)
    requires IsMergeOf(inputs, o1) && IsMergeOf(inputs, o2)
    ensures o1 == o2
  {
    if |o1| < |o2| {
      MergeNotExhaustedBefore(inputs, o2, |o1|);
      assert false;
    } else if |o2| < |o1| {
      MergeNotExhaustedBefore(inputs, o1, |o2|);
      assert false;
    } else if |inputs| > 0 {
      forall t | 0 <= t < |o1|
        ensures o1[t] == o2[t]
      {
        assert TakenFrom(inputs, o1, t) && TakenFrom(inputs, o2, t);
      }
    }
  }

  /** Dealing the merge output back over the m inputs gives a prefix of
      each input: every written byte was read from an input, in order,
      and none twice. */
  lemma MergeTakesPrefixes(inputs: seq<seq<byte>>, output: seq<byte>, i: nat)
    requires IsMergeOf(inputs, output) && i < |inputs|
    ensures |Lane(output, |inputs|, i)| <= |inputs[i]|
    ensures Lane(output, |inputs|, i) == inputs[i][..|Lane(output, |inputs|, i)|]
  {
    var m := |inputs|;
    var lane := Lane(output, m, i);
    if lane != [] {
      MergeLaneAt(inputs, output, i, |lane| - 1);
    }
    forall p | 0 <= p < |lane|
      ensures lane[p] == inputs[i][p]
    {
      MergeLaneAt(inputs, output, i, p);
    }
  }

  /** Byte p of output lane i of the merge is byte p of input i. */
  lemma MergeLaneAt(inputs: seq<seq<byte>>, output: seq<byte>, i: nat, p: nat)
    requires IsMergeOf(inputs, output) && i < |inputs|
    requires p < |Lane(output, |inputs|, i)|
    ensures p < |inputs[i]| && Lane(output, |inputs|, i)[p] == inputs[i][p]
  {
    var m := |inputs|;
    LaneElement(output, m, i, p);
    var t := p * m + i;
    assert TakenFrom(inputs, output, t);
    DivModUnique(t, m, p, i);
  }

  lemma {:induction false} TotalMonotone(xs: seq<seq<byte>>, ys: seq<seq<byte>>)
    requires |xs| == |ys|
    requires forall i :: 0 <= i < |xs| ==> |xs[i]| <= |ys[i]|
    ensures Total(xs) <= Total(ys)
  {
    if xs != [] {
      TotalMonotone(xs[..|xs| - 1], ys[..|ys| - 1]);
    }
  }

  /** The merge writes at most as many bytes as its inputs hold together. */
  lemma MergeLengthBound(inputs: seq<seq<byte>>, output: seq<byte>)
    requires IsMergeOf(inputs, output)
    ensures |output| <= Total(inputs)
  {
    var m := |inputs|;
    if m > 0 {
      forall i | 0 <= i < m
        ensures |Deal(output, m)[i]| <= |inputs[i]|
      {
        MergeTakesPrefixes(inputs, output, i);
      }
      TotalMonotone(Deal(output, m), inputs);
      DealTotal(output, m);
    }
  }

  /** Round trip: merging the n outputs of a dealing, in dealing order,
      gives back exactly the dealt bytes. */
  lemma MergeOfDeal(s: seq<byte>, n: nat, output: seq<byte>)
    requires 0 < n && IsMergeOf(Deal(s, n), output)
    ensures output == s
  {
    var parts := Deal(s, n);
    var k := |output|;
    if k < |s| {
      LaneAt(s, n, k);
      assert false;
    } else if |s| < k {
      assert TakenFrom(parts, output, |s|);
      LaneLength(s, n, |s| % n);
      assert false;
    }
    forall t | 0 <= t < k
      ensures output[t] == s[t]
    {
      assert TakenFrom(parts, output, t);
      LaneAt(s, n, t);
    }
  }
}
