/** The worked example of the splitter: eight bytes dealt over three
    outputs and merged back. */
module Scenarios {
  import opened Interleave

  /** Splitting 0..7 over three outputs gives [0, 3, 6], [1, 4, 7] and
      [2, 5]. */
  lemma SplitEightOverThree()
    ensures Deal([0, 1, 2, 3, 4, 5, 6, 7], 3) == [[0, 3, 6], [1, 4, 7], [2, 5]]
  {
    var s: seq<byte> := [0, 1, 2, 3, 4, 5, 6, 7];
    var expected: seq<seq<byte>> := [[0, 3, 6], [1, 4, 7], [2, 5]];
    forall j | 0 <= j < 3
      ensures Lane(s, 3, j) == expected[j]
    {
      LaneLength(s, 3, j);
      forall i | 0 <= i < |Lane(s, 3, j)|
        ensures Lane(s, 3, j)[i] == expected[j][i]
      {
        LaneElement(s, 3, j, i);
      }
    }
  }

  /** Merging [0, 3, 6], [1, 4, 7] and [2, 5] in that order gives 0..7. */
  lemma MergeThreeGivesEight(output: seq<byte>)
    requires IsMergeOf([[0, 3, 6], [1, 4, 7], [2, 5]], output)
    ensures output == [0, 1, 2, 3, 4, 5, 6, 7]
  {
    SplitEightOverThree();
    MergeOfDeal([0, 1, 2, 3, 4, 5, 6, 7], 3, output);
  }
}
