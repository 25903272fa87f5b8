/** The two commands of the splitter: deal the bytes of one input
    round-robin over `number` outputs, and read round-robin from several
    inputs back into one output. Files are their contents; the array of
    output streams is an array of byte sequences appended to in place,
    and each input stream is its contents with a read position. */
module Splitter {
  import opened Interleave
  import opened Streams
  import FileNames

  /** split: reads the input a byte at a time and writes byte i to output
      i mod number. Java's exceptions are the Failure cases: a negative
      number fails when the handle array is created, and number 0 fails
      at the first byte, which has no output to go to. */
  method Split(input: seq<byte>, number: int) returns (r: Result<seq<seq<byte>>, Fault>)
    ensures number < 0 ==> r == Failure(NegativeArraySize)
    ensures number == 0 ==> r == if |input| == 0 then Success([]) else Failure(IndexOutOfBounds)
    ensures number > 0 ==> r == Success(Deal(input, number))
  {
    if number < 0 {
      return Failure(NegativeArraySize);
    }
    var out := new seq<byte>[number](_ => []);
    var pos := 0;     // position of the input stream
    var which := 0;   // the output the next byte goes to
    while true
      invariant 0 <= pos <= |input|
      invariant number == 0 ==> pos == 0
      invariant number > 0 ==> which == pos % number
      invariant number > 0 ==> forall j :: 0 <= j < number ==> out[j] == Lane(input[..pos], number, j)
      decreases |input| - pos
    {
      var b: int;
      var step := Read(input, pos);
      b, pos := step.0, step.1;
      if b < 0 {
        break;
      }
      // out[which] is in bounds except when there are no outputs at all
      if out.Length == 0 {
        return Failure(IndexOutOfBounds);
      }
      out[which] := out[which] + [b as byte];
      forall j | 0 <= j < number
        ensures out[j] == Lane(input[..pos], number, j)
      {
        LaneExtend(input, number, j, pos - 1);
      }
      DivModNext(pos - 1, number);
      which := which + 1;
      if which >= number {
        which := 0;
      }
    }
    assert input[..pos] == input;
    if number == 0 {
      assert |input| == 0 && out[..] == [];
    } else {
      assert forall j :: 0 <= j < number ==> out[j] == Lane(input, number, j);
      assert forall j :: 0 <= j < number ==> out[..][j] == Deal(input, number)[j];
      assert out[..] == Deal(input, number);
    }
    return Success(out[..]);
  }

  /** merge: reads a byte from the input at the cursor and writes it,
      moving the cursor on; on end of file it counts the input as done
      but leaves the cursor where it is, so every later read hits the
      same exhausted input and the loop ends after m such reads. */
  method Merge(inputs: seq<seq<byte>>) returns (output: seq<byte>)
    ensures |inputs| == 0 ==> output == []
    ensures |inputs| > 0 ==> forall t :: 0 <= t < |output| ==> TakenFrom(inputs, output, t)
    ensures |inputs| > 0 ==> ExhaustedAt(inputs, |output|)
  {
    var m := |inputs|;
    var pos := new nat[m](_ => 0);   // read positions of the input streams
    var which := 0;
    var done := 0;
    output := [];
    while done < m
      invariant 0 <= done <= m
      invariant m == 0 ==> output == []
      invariant m > 0 ==> which == |output| % m
      invariant m > 0 ==> forall i :: 0 <= i < m ==> pos[i] == Turns(|output|, m, i)
      invariant forall i :: 0 <= i < m ==> pos[i] <= |inputs[i]|
      invariant m > 0 ==> forall t :: 0 <= t < |output| ==> TakenFrom(inputs, output, t)
      invariant done > 0 ==> pos[which] == |inputs[which]|
      decreases if done == 0 then 1 else 0, if m == 0 then 0 else m * (|inputs[0]| + 1) - |output|, m - done
    {
      var b: int;
      var step := Read(inputs[which], pos[which]);
      b, pos[which] := step.0, step.1;
      if b < 0 {
        done := done + 1;
      } else {
        ghost var prev := output;
        ghost var k := |prev|;
        RoundsBound(k, m, |inputs[0]|);
        output := output + [b as byte];
        forall t | 0 <= t <= k
          ensures TakenFrom(inputs, output, t)
        {
          if t < k {
            assert TakenFrom(inputs, prev, t);
          }
        }
        forall i | 0 <= i < m
          ensures pos[i] == Turns(k + 1, m, i)
        {
          TurnsNext(k, m, i);
        }
        DivModNext(k, m);
        which := which + 1;
        if which >= m {
          which := 0;
        }
      }
    }
  }

  /** The cursor never gets more than a full round past input 0. */
  lemma RoundsBound(k: nat, m: nat, len0: nat)
    requires 0 < m && k / m <= len0
    ensures k < m * (len0 + 1)
  {
  }

  /** The contents of the named files, in the order of the names. */
  function Contents(names: seq<string>, disk: map<string, seq<byte>>): (files: seq<seq<byte>>)
    requires forall i :: 0 <= i < |names| ==> names[i] in disk
    ensures |files| == |names|
    ensures forall i :: 0 <= i < |names| ==> files[i] == disk[names[i]]
  {
    seq(|names|, i requires 0 <= i < |names| => disk[names[i]])
  }

  /** merge with its file names. The output file is created first, which
      empties it when it already exists and fails when it cannot be
      created. The names are sorted unless sorting is switched off, then
      opened in that order, failing at the first missing one, and merged.
      disk holds the files; writable is the set of names under which a file
      can be created. */
  method MergeFiles(output: string, filenames: seq<string>, sort: bool,
                    disk: map<string, seq<byte>>, writable: set<string>)
    returns (r: Result<seq<byte>, Fault>)
    ensures output !in writable ==> r == Failure(FileNotFound(output))
    ensures output in writable ==>
      var names, files := FileNames.SortNames(filenames, sort), disk[output := []];
      (r.Failure? <==> exists i :: 0 <= i < |filenames| && filenames[i] !in files) &&
      (r.Failure? ==>
        exists i :: 0 <= i < |names| && r.error == FileNotFound(names[i]) && names[i] !in files &&
          forall j :: 0 <= j < i ==> names[j] in files) &&
      (r.Success? ==>
        (forall i :: 0 <= i < |names| ==> names[i] in files) && IsMergeOf(Contents(names, files), r.value))
  {
    if output !in writable {
      return Failure(FileNotFound(output));
    }
    var files := disk[output := []];
    var names := FileNames.SortNames(filenames, sort);
    assert multiset(names) == multiset(filenames);
    var inputs: seq<seq<byte>> := [];
    for i := 0 to |names|
      invariant |inputs| == i
      invariant forall j :: 0 <= j < i ==> names[j] in files && inputs[j] == files[names[j]]
    {
      if names[i] !in files {
        assert names[i] in multiset(filenames);
        return Failure(FileNotFound(names[i]));
      }
      inputs := inputs + [files[names[i]]];
    }
    forall j | 0 <= j < |filenames|
      ensures filenames[j] in files
    {
      assert filenames[j] in multiset(names);
    }
    assert inputs == Contents(names, files);
    var merged := Merge(inputs);
    return Success(merged);
  }

  /** Splitting into number outputs and merging them in the order they
      were generated gives back the input. */
  method SplitThenMerge(input: seq<byte>, number: int) returns (merged: seq<byte>)
    requires number >= 1
    ensures merged == input
  {
    var parts := Split(input, number);
    merged := Merge(parts.value);
    MergeOfDeal(input, number, merged);
  }
}
