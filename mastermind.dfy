/**
 Mastermind scoring. A secret code of coloured pegs is drawn from a palette;
 a guess of the same length is scored as black pegs (right colour in the
 right position) and white pegs (right colour in the wrong position). The
 secret is shown as the concatenation of the palette labels of its colours.
 */
module MasterMind {

  /** The peg colours the game and its tests use. */
  datatype Colour = Red | Green | Blue | Yellow | Black | White | Magenta | Orange

  /** `MasterMindLogic.Result`: the two counts of a scored guess. */
  datatype Result = Result(blacks: int, whites: int)

  datatype Option<T> = None | Some(value: T)

  /** A code: the secret, or a guess. */
  type Code = seq<Colour>

  /** No colour occurs twice in `c`. */
  predicate Distinct(c: Code) {
    forall i, j :: 0 <= i < j < |c| ==> c[i] != c[j]
  }

  // ---------------------------------------------------------------------------
  // Scoring
  // ---------------------------------------------------------------------------

  /** The black pegs: positions where the guess has the secret's colour. */
  function Blacks(secret: Code, guess: Code): (n: nat)
    requires |guess| == |secret|
    ensures n <= |secret|
    ensures n == |secret| <==> guess == secret
  {
    if secret == [] then 0
    else
      assert guess == [guess[0]] + guess[1..] && secret == [secret[0]] + secret[1..];
      (if guess[0] == secret[0] then 1 else 0) + Blacks(secret[1..], guess[1..])
  }

  /** The secret pegs that no black peg used, kept with their multiplicity. */
  function Unmatched(secret: Code, guess: Code): (pool: multiset<Colour>)
    requires |guess| == |secret|
    ensures |pool| == |secret| - Blacks(secret, guess)
  {
    if secret == [] then multiset{}
    else (if guess[0] != secret[0] then multiset{secret[0]} else multiset{}) + Unmatched(secret[1..], guess[1..])
  }

  /**
   The white pegs: going through the guess in order, each peg that is not
   black takes one peg of its colour from the pool of unmatched secret pegs,
   if one is left.
   */
  function Claim(pool: multiset<Colour>, secret: Code, guess: Code): (n: nat)
    requires |guess| == |secret|
    ensures n <= |pool|
    ensures n <= |secret| - Blacks(secret, guess)
  {
    if secret == [] then 0
    else if guess[0] != secret[0] && guess[0] in pool then
      1 + Claim(pool - multiset{guess[0]}, secret[1..], guess[1..])
    else
      Claim(pool, secret[1..], guess[1..])
  }

  /**
   `checkGuess`: blacks and whites of `guess` against `secret`. Every peg is
   counted at most once, the guess wins exactly when all pegs are black, and
   a winning guess has no white pegs.
   */
  function Score(secret: Code, guess: Code): (r: Result)
    requires |guess| == |secret|
    ensures 0 <= r.blacks && 0 <= r.whites && r.blacks + r.whites <= |secret|
    ensures r.blacks == |secret| <==> guess == secret
    ensures guess == secret ==> r.whites == 0
  {
    Result(Blacks(secret, guess), Claim(Unmatched(secret, guess), secret, guess))
  }

  /**
   Reference count of misplaced pegs: positions where the guess is not black
   and its colour occurs in `colours`.
   */
  function CountMisplaced(colours: multiset<Colour>, secret: Code, guess: Code): nat
    requires |guess| == |secret|
  {
    if secret == [] then 0
    else (if guess[0] != secret[0] && guess[0] in colours then 1 else 0) + CountMisplaced(colours, secret[1..], guess[1..])
  }

  /** The unmatched pool holds only secret pegs. */
  lemma {:induction false} UnmatchedFromSecret(secret: Code, guess: Code)
    requires |guess| == |secret|
    ensures Unmatched(secret, guess) <= multiset(secret)
  {
    if secret != [] {
      UnmatchedFromSecret(secret[1..], guess[1..]);
      assert secret == [secret[0]] + secret[1..];
    }
  }

  /** A secret peg without a black peg on it stays in the unmatched pool. */
  lemma {:induction false} UnmatchedKeeps(secret: Code, guess: Code, k: int)
    requires |guess| == |secret| && 0 <= k < |secret| && guess[k] != secret[k]
    ensures secret[k] in Unmatched(secret, guess)
  {
    if k > 0 {
      UnmatchedKeeps(secret[1..], guess[1..], k - 1);
    }
  }

  /** The misplaced count only looks at the colours of non-black guess pegs. */
  lemma {:induction false} CountMisplacedCongruent(p: multiset<Colour>, q: multiset<Colour>, secret: Code, guess: Code)
    requires |guess| == |secret|
    requires forall i :: 0 <= i < |guess| && guess[i] != secret[i] ==> (guess[i] in p <==> guess[i] in q)
    ensures CountMisplaced(p, secret, guess) == CountMisplaced(q, secret, guess)
  {
    if secret != [] {
      forall i | 0 <= i < |guess[1..]| && guess[1..][i] != secret[1..][i]
        ensures guess[1..][i] in p <==> guess[1..][i] in q
      {
        assert guess[1..][i] == guess[i + 1] && secret[1..][i] == secret[i + 1];
      }
      CountMisplacedCongruent(p, q, secret[1..], guess[1..]);
    }
  }

  /** Without repeated guess colours, no claim ever runs out: each misplaced peg finds its colour iff the pool has it. */
  lemma {:induction false} ClaimOfDistinctGuess(pool: multiset<Colour>, secret: Code, guess: Code)
    requires |guess| == |secret| && Distinct(guess)
    ensures Claim(pool, secret, guess) == CountMisplaced(pool, secret, guess)
  {
    if secret != [] {
      var rest := guess[1..];
      assert Distinct(rest) by {
        forall i, j | 0 <= i < j < |rest| ensures rest[i] != rest[j] {
          assert rest[i] == guess[i + 1] && rest[j] == guess[j + 1];
        }
      }
      if guess[0] != secret[0] && guess[0] in pool {
        var smaller := pool - multiset{guess[0]};
        ClaimOfDistinctGuess(smaller, secret[1..], rest);
        forall i | 0 <= i < |rest| && rest[i] != secret[1..][i]
          ensures rest[i] in smaller <==> rest[i] in pool
        {
          assert rest[i] == guess[i + 1] != guess[0];
        }
        CountMisplacedCongruent(smaller, pool, secret[1..], rest);
      } else {
        ClaimOfDistinctGuess(pool, secret[1..], rest);
      }
    }
  }

  /**
   With no colour repeated in the guess (as in every scored example), the
   white pegs are exactly the guess pegs that are not black but whose colour
   occurs somewhere in the secret.
   */
  lemma WhitesOfDistinctGuess(secret: Code, guess: Code)
    requires |guess| == |secret| && Distinct(guess)
    ensures Score(secret, guess).whites == CountMisplaced(multiset(secret), secret, guess)
  {
    var pool := Unmatched(secret, guess);
    ClaimOfDistinctGuess(pool, secret, guess);
    UnmatchedFromSecret(secret, guess);
    forall i | 0 <= i < |guess| && guess[i] != secret[i]
      ensures guess[i] in pool <==> guess[i] in multiset(secret)
    {
      if guess[i] in multiset(secret) {
        var k :| 0 <= k < |secret| && secret[k] == guess[i];
        assert k != i;
        UnmatchedKeeps(secret, guess, k);
      }
    }
    CountMisplacedCongruent(pool, multiset(secret), secret, guess);
  }

  /** No black peg where the guess shares no colour with the secret. */
  lemma {:induction false} BlacksOfDisjoint(secret: Code, guess: Code)
    requires |guess| == |secret|
    requires forall i, k :: 0 <= i < |guess| && 0 <= k < |secret| ==> guess[i] != secret[k]
    ensures Blacks(secret, guess) == 0
  {
    if secret != [] {
      forall i, k | 0 <= i < |guess[1..]| && 0 <= k < |secret[1..]| ensures guess[1..][i] != secret[1..][k] {
        assert guess[1..][i] == guess[i + 1] && secret[1..][k] == secret[k + 1];
      }
      BlacksOfDisjoint(secret[1..], guess[1..]);
    }
  }

  /** Nothing is claimed by pegs whose colours are all missing from the pool. */
  lemma {:induction false} ClaimOfAbsent(pool: multiset<Colour>, secret: Code, guess: Code)
    requires |guess| == |secret|
    requires forall i :: 0 <= i < |guess| ==> guess[i] !in pool
    ensures Claim(pool, secret, guess) == 0
  {
    if secret != [] {
      forall i | 0 <= i < |guess[1..]| ensures guess[1..][i] !in pool {
        assert guess[1..][i] == guess[i + 1];
      }
      ClaimOfAbsent(pool, secret[1..], guess[1..]);
    }
  }

  /** A guess sharing no colour with the secret scores no black and no white peg. */
  lemma DisjointGuessScoresNothing(secret: Code, guess: Code)
    requires |guess| == |secret|
    requires forall i, k :: 0 <= i < |guess| && 0 <= k < |secret| ==> guess[i] != secret[k]
    ensures Score(secret, guess) == Result(0, 0)
  {
    BlacksOfDisjoint(secret, guess);
    var pool := Unmatched(secret, guess);
    UnmatchedFromSecret(secret, guess);
    forall i | 0 <= i < |guess| ensures guess[i] !in pool {
      assert guess[i] !in multiset(secret);
    }
    ClaimOfAbsent(pool, secret, guess);
  }

  /** The exact guess scores a black peg for every position and no white peg. */
  lemma ExactGuessWins(secret: Code)
    ensures Score(secret, secret) == Result(|secret|, 0)
  {
  }

  // ---------------------------------------------------------------------------
  // Showing the secret
  // ---------------------------------------------------------------------------

  /** The first position of `c` in `palette`, or |palette| when it is missing. */
  function FirstIndex(palette: Code, c: Colour): (k: nat)
    ensures k <= |palette|
    ensures k < |palette| ==> palette[k] == c
    ensures forall j :: 0 <= j < k ==> palette[j] != c
  {
    if palette == [] then 0
    else if palette[0] == c then 0
    else 1 + FirstIndex(palette[1..], c)
  }

  /**
   The label of colour `c`: the label at its palette position, or "" when it
   has none. A palette position past the end of `labels` also gets "" here,
   a choice of the model: the program's palettes always come with one label
   per colour, so that case never arises there.
   */
  function LabelOf(palette: Code, labels: seq<string>, c: Colour): (text: string)
    ensures c in palette && |labels| >= |palette| ==> text == labels[FirstIndex(palette, c)]
    ensures c !in palette ==> text == ""
  {
    var k := FirstIndex(palette, c);
    if k < |palette| && k < |labels| then labels[k] else ""
  }

  /**
   `showSecret`: the labels of the secret's colours, concatenated in order.
   When every colour has a one-character label, character i is the label of
   peg i; when every label is non-empty, the text is at least as long as the
   secret (so a non-empty secret shows as a non-empty string).
   */
  function Render(palette: Code, labels: seq<string>, secret: Code): (shown: string)
    ensures (forall i :: 0 <= i < |secret| ==> |LabelOf(palette, labels, secret[i])| == 1) ==>
      |shown| == |secret| && forall i :: 0 <= i < |secret| ==> shown[i] == LabelOf(palette, labels, secret[i])[0]
    ensures (forall i :: 0 <= i < |secret| ==> LabelOf(palette, labels, secret[i]) != "") ==> |shown| >= |secret|
  {
    if secret == [] then ""
    else
      assert forall i :: 0 <= i < |secret[1..]| ==> secret[1..][i] == secret[i + 1];
      LabelOf(palette, labels, secret[0]) + Render(palette, labels, secret[1..])
  }

  /** Every palette colour has a non-empty label. */
  predicate Labelled(palette: Code, labels: seq<string>) {
    |labels| >= |palette| && forall k :: 0 <= k < |palette| ==> labels[k] != ""
  }

  /** A non-empty secret of labelled palette colours shows as non-empty text. */
  lemma RenderNonEmpty(palette: Code, labels: seq<string>, secret: Code)
    requires Labelled(palette, labels) && secret != []
    requires forall i :: 0 <= i < |secret| ==> secret[i] in palette
    ensures Render(palette, labels, secret) != ""
  {
    assert LabelOf(palette, labels, secret[0]) != "";
  }

  /** Labels that can be read back: one per palette colour, each a single character, no two alike. */
  predicate WellLabelled(palette: Code, labels: seq<string>) {
    |labels| == |palette| &&
    (forall k :: 0 <= k < |labels| ==> |labels[k]| == 1) &&
    (forall j, k :: 0 <= j < k < |labels| ==> labels[j] != labels[k])
  }

  /** The first position of the one-character label `ch`, or |labels| when there is none. */
  function LabelIndex(labels: seq<string>, ch: char): (k: nat)
    ensures k <= |labels|
    ensures k < |labels| ==> labels[k] == [ch]
    ensures forall j :: 0 <= j < k ==> labels[j] != [ch]
  {
    if labels == [] then 0
    else if labels[0] == [ch] then 0
    else 1 + LabelIndex(labels[1..], ch)
  }

  /** Reads shown text back into a code, one label character per peg; None on a character that is no label. */
  function ReadBack(palette: Code, labels: seq<string>, shown: string): (code: Option<Code>)
    ensures code.Some? ==> |code.value| == |shown|
  {
    if shown == [] then Some([])
    else
      var k := LabelIndex(labels, shown[0]);
      match ReadBack(palette, labels, shown[1..])
      case Some(rest) =>
        if k < |labels| && k < |palette| then Some([palette[k]] + rest) else None
      case None => None
  }

  /** With readable labels, the label character of a palette colour reads back as that colour. */
  lemma LabelReadsBack(palette: Code, labels: seq<string>, c: Colour)
    requires WellLabelled(palette, labels) && c in palette
    ensures |LabelOf(palette, labels, c)| == 1
    ensures LabelIndex(labels, LabelOf(palette, labels, c)[0]) == FirstIndex(palette, c)
  {
  }

  /**
   Showing the secret loses nothing: with readable labels, the shown text
   reads back as exactly the secret.
   */
  lemma {:induction false} RenderRoundTrip(palette: Code, labels: seq<string>, secret: Code)
    requires WellLabelled(palette, labels)
    requires forall i :: 0 <= i < |secret| ==> secret[i] in palette
    ensures ReadBack(palette, labels, Render(palette, labels, secret)) == Some(secret)
  {
    if secret != [] {
      var c := secret[0];
      LabelReadsBack(palette, labels, c);
      var ch := LabelOf(palette, labels, c)[0];
      assert LabelOf(palette, labels, c) == [ch];
      var shown := Render(palette, labels, secret);
      var rest := Render(palette, labels, secret[1..]);
      assert shown == [ch] + rest;
      assert shown[0] == ch && shown[1..] == rest;
      assert forall i :: 0 <= i < |secret[1..]| ==> secret[1..][i] == secret[i + 1];
      RenderRoundTrip(palette, labels, secret[1..]);
      var k := LabelIndex(labels, ch);
      assert k == FirstIndex(palette, c) && palette[k] == c;
      assert ReadBack(palette, labels, shown) == Some([c] + secret[1..]);
      assert [c] + secret[1..] == secret;
    }
  }

  // ---------------------------------------------------------------------------
  // The logic object
  // ---------------------------------------------------------------------------

  /**
   `MasterMindLogic`: a palette, its labels and a secret of `secretLength`
   pegs drawn from the palette when the object is created.
   */
  class MasterMindLogic {
    const palette: Code
    const labels: seq<string>
    const secretLength: nat
    var secret: Code

    /**
     `MasterMindLogic(palette, secretLength, labels)`: draws each secret peg
     from the palette; the random draw for peg i is the parameter `pick(i)`,
     reduced to a palette position.
     */
    constructor (palette: Code, secretLength: nat, labels: seq<string>, pick: nat -> nat)
      requires |palette| > 0
      ensures this.palette == palette && this.labels == labels && this.secretLength == secretLength
      ensures |secret| == secretLength
      ensures forall i :: 0 <= i < secretLength ==> secret[i] == palette[pick(i) % |palette|]
      ensures Valid()
    {
      this.palette := palette;
      this.labels := labels;
      this.secretLength := secretLength;
      var drawn: Code := [];
      var i := 0;
      while i < secretLength
        invariant 0 <= i <= secretLength && |drawn| == i
        invariant forall q :: 0 <= q < i ==> drawn[q] == palette[pick(q) % |palette|]
      {
        drawn := drawn + [palette[pick(i) % |palette|]];
        i := i + 1;
      }
      secret := drawn;
    }

    /** Every peg of the secret is a palette colour. */
    ghost predicate Valid()
      reads this
    {
      |secret| == secretLength && forall i :: 0 <= i < |secret| ==> secret[i] in palette
    }

    /** `checkGuess(guess)`: the score of a full-length guess against the held secret. */
    function CheckGuess(guess: Code): (r: Result)
      reads this
      requires |guess| == |secret|
      ensures r == Score(secret, guess)
      ensures r.blacks + r.whites <= |secret|
      ensures r.blacks == |secret| <==> guess == secret
      ensures Distinct(guess) ==> r.whites == CountMisplaced(multiset(secret), secret, guess)
    {
      if Distinct(guess) then
        WhitesOfDistinctGuess(secret, guess);
        Score(secret, guess)
      else
        Score(secret, guess)
    }

    /** `showSecret()`: the held secret as text, readable back into the secret and non-empty for a non-empty secret. */
    function ShowSecret(): (shown: string)
      reads this
      ensures Valid() && WellLabelled(palette, labels) ==> ReadBack(palette, labels, shown) == Some(secret)
      ensures Valid() && Labelled(palette, labels) && secret != [] ==> shown != ""
    {
      var shown := Render(palette, labels, secret);
      assert Valid() && WellLabelled(palette, labels) ==> ReadBack(palette, labels, shown) == Some(secret) by {
        if Valid() && WellLabelled(palette, labels) {
          RenderRoundTrip(palette, labels, secret);
        }
      }
      assert Valid() && Labelled(palette, labels) && secret != [] ==> shown != "" by {
        if Valid() && Labelled(palette, labels) && secret != [] {
          RenderNonEmpty(palette, labels, secret);
        }
      }
      shown
    }
  }
}
