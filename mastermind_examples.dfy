/**
 The scoring and display cases the Mastermind unit tests pin down, on the
 palette RED, GREEN, BLUE, YELLOW labelled "R", "G", "B", "Y".
 */
module MasterMindExamples {
  import opened MasterMind

  function Palette(): Code { [Red, Green, Blue, Yellow] }

  function Labels(): seq<string> { ["R", "G", "B", "Y"] }

  /** Secret RGBY, guess RBGY: R and Y are black, the swapped G and B are white. */
  lemma SwappedPairScoresTwoAndTwo()
    ensures Score([Red, Green, Blue, Yellow], [Red, Blue, Green, Yellow]) == Result(2, 2)
  {
  }

  /** Guessing RGBY exactly: four black pegs, no white peg. */
  lemma ExactGuessScoresFourBlacks()
    ensures Score([Red, Green, Blue, Yellow], [Red, Green, Blue, Yellow]) == Result(4, 0)
  {
  }

  /** A guess of BLACK, WHITE, MAGENTA, ORANGE against RGBY: nothing. */
  lemma ForeignColoursScoreNothing()
    ensures Score([Red, Green, Blue, Yellow], [Black, White, Magenta, Orange]) == Result(0, 0)
  {
    DisjointGuessScoresNothing([Red, Green, Blue, Yellow], [Black, White, Magenta, Orange]);
  }

  /** `new Result(2, 2)` keeps both counts. */
  lemma ResultKeepsCounts()
    ensures Result(2, 2).blacks == 2 && Result(2, 2).whites == 2
  {
  }

  /** The secret RGBY is shown as "RGBY". */
  lemma ShowsRGBY()
    ensures Render(Palette(), Labels(), [Red, Green, Blue, Yellow]) == "RGBY"
  {
  }

  /** A logic object built on the four-colour palette with a secret of 4 pegs shows a non-empty secret, whatever is drawn. */
  method FreshLogicShowsSecret(pick: nat -> nat) returns (shown: string)
    ensures |shown| == 4
  {
    var logic := new MasterMindLogic(Palette(), 4, Labels(), pick);
    shown := logic.ShowSecret();
  }
}
