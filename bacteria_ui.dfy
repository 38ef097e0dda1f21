/**
 The driver of the bacteria-life window, without the window: the current
 generation it holds, the DIMENSION x DIMENSION panel of circles it paints from
 that generation, the "Round: n" label, the Start button and the one timer
 tick (`performEvolutionStep`) that advances the simulation or halts it on a
 fixed point.

 Swing components are modelled by what they show: the panel by the row-major
 sequence of circle colours, the label by its text, the timer by a running
 flag.
 */
module BacteriaUI {
  import opened BacteriaLife

  /** The two circle colours the panel uses. */
  datatype Colour = Black | White

  /** Rows and columns of circles on the panel. */
  const Dimension: nat := 30

  /** The colour of the circle for one cell: a 1 is painted black, any other value white. */
  function CellColour(cell: int): (colour: Colour)
    ensures colour == Black <==> cell == 1
    ensures colour == White <==> cell != 1
  {
    if cell == 1 then Black else White
  }

  /** The grid has at least DIMENSION rows of at least DIMENSION cells: everything the panel reads exists. */
  predicate Displayable(g: Grid) {
    |g| >= Dimension && forall i :: 0 <= i < Dimension ==> |g[i]| >= Dimension
  }

  /**
   `panel` is what the window paints for `g`: DIMENSION x DIMENSION circles in
   row-major order, the circle for cell (i, j) at position i * DIMENSION + j.
   */
  predicate Shows(panel: seq<Colour>, g: Grid)
    requires Displayable(g)
  {
    |panel| == Dimension * Dimension &&
    forall i, j :: 0 <= i < Dimension && 0 <= j < Dimension ==> panel[i * Dimension + j] == CellColour(g[i][j])
  }

  /** Every panel position is the circle of exactly one cell. */
  lemma PanelPosition(k: int)
    requires 0 <= k < Dimension * Dimension
    ensures 0 <= k / Dimension < Dimension && 0 <= k % Dimension < Dimension
    ensures k == k / Dimension * Dimension + k % Dimension
  {
  }

  /** A panel is determined by the grid it shows: two panels showing one grid are the same panel. */
  lemma ShowsIsUnique(p: seq<Colour>, q: seq<Colour>, g: Grid)
    requires Displayable(g) && Shows(p, g) && Shows(q, g)
    ensures p == q
  {
    forall k | 0 <= k < |p| ensures p[k] == q[k] {
      PanelPosition(k);
      var i, j := k / Dimension, k % Dimension;
      assert p[i * Dimension + j] == CellColour(g[i][j]) == q[i * Dimension + j];
    }
  }

  /** The panel reveals exactly which of the displayed cells are alive. */
  lemma ShowsLiveCells(panel: seq<Colour>, g: Grid, i: int, j: int)
    requires Displayable(g) && Shows(panel, g)
    requires 0 <= i < Dimension && 0 <= j < Dimension
    ensures 0 <= i * Dimension + j < |panel|
    ensures panel[i * Dimension + j] == Black <==> g[i][j] == 1
  {
  }

  /**
   `generateGen` / `refreshGenPanel`: the circles for the first DIMENSION
   rows and columns of `g`, added one by one, row by row.
   */
  method GenerateGen(g: array<array<int>>) returns (panel: seq<Colour>)
    requires Displayable(Cells(g))
    ensures Shows(panel, Cells(g))
  {
    panel := [];
    var i := 0;
    while i < Dimension
      invariant 0 <= i <= Dimension
      invariant |panel| == i * Dimension
      invariant forall a, b :: 0 <= a < i && 0 <= b < Dimension ==> panel[a * Dimension + b] == CellColour(g[a][b])
    {
      var j := 0;
      while j < Dimension
        invariant 0 <= j <= Dimension
        invariant |panel| == i * Dimension + j
        invariant forall a, b :: 0 <= a < i && 0 <= b < Dimension ==> panel[a * Dimension + b] == CellColour(g[a][b])
        invariant forall b :: 0 <= b < j ==> panel[i * Dimension + b] == CellColour(g[i][b])
      {
        panel := panel + [CellColour(g[i][j])];
        j := j + 1;
      }
      i := i + 1;
    }
  }

  /** The decimal digit character for `d`. */
  function Digit(d: nat): (ch: char)
    requires d < 10
    ensures '0' <= ch <= '9' && ch as int - '0' as int == d
  {
    (d + '0' as int) as char
  }

  /** Java's decimal rendering of a non-negative `int`: digits only, no leading zero. */
  function NatToString(n: nat): (s: string)
    ensures |s| >= 1 && IsDigits(s)
    ensures |s| > 1 ==> s[0] != '0'
    ensures n < 10 <==> |s| == 1
  {
    if n < 10 then [Digit(n)] else NatToString(n / 10) + [Digit(n % 10)]
  }

  /** Every character of `s` is a decimal digit. */
  predicate IsDigits(s: string) {
    forall k :: 0 <= k < |s| ==> '0' <= s[k] <= '9'
  }

  /** The number a string of decimal digits denotes. */
  function DecimalValue(s: string): nat
    requires IsDigits(s)
  {
    if s == [] then 0 else DecimalValue(s[..|s| - 1]) * 10 + (s[|s| - 1] as int - '0' as int)
  }

  /** Reading back the rendered round gives the round: the label is never ambiguous. */
  lemma {:induction false} NatToStringRoundTrip(n: nat)
    ensures DecimalValue(NatToString(n)) == n
  {
    var s := NatToString(n);
    if n >= 10 {
      NatToStringRoundTrip(n / 10);
      assert s[..|s| - 1] == NatToString(n / 10);
    }
  }

  /** Different rounds get different labels. */
  lemma RoundLabelsDiffer(m: nat, n: nat)
    requires m != n
    ensures "Round: " + NatToString(m) != "Round: " + NatToString(n)
  {
    NatToStringRoundTrip(m);
    NatToStringRoundTrip(n);
    var a, b := "Round: " + NatToString(m), "Round: " + NatToString(n);
    assert a[7..] == NatToString(m);
    assert b[7..] == NatToString(n);
  }

  /** The Swing timer, reduced to whether it is running. */
  class Timer {
    var running: bool

    /** `new Timer(100, ...)`: created stopped. */
    constructor ()
      ensures !running
    {
      running := false;
    }

    /** `timer.start()`. */
    method Start()
      modifies this
      ensures running
    {
      running := true;
    }

    /** `timer.stop()`. */
    method Stop()
      modifies this
      ensures !running
    {
      running := false;
    }
  }

  /** A deep copy of an `int[][]`: null for null, otherwise a fresh outer array of fresh, pairwise distinct rows with the same contents. */
  method DeepCopy(src: array?<array<int>>) returns (copy: array?<array<int>>)
    ensures copy == null <==> src == null
    ensures src != null ==> fresh(copy) && Cells(copy) == Cells(src)
    ensures src != null ==> forall i :: 0 <= i < copy.Length ==> fresh(copy[i])
    ensures src != null ==> forall i, j :: 0 <= i < j < copy.Length ==> copy[i] != copy[j]
  {
    if src == null {
      return null;
    }
    var empty := new int[0];
    var result := new array<int>[src.Length](_ => empty);
    var i := 0;
    while i < src.Length
      invariant 0 <= i <= src.Length == result.Length
      invariant forall k :: 0 <= k < i ==> fresh(result[k]) && result[k][..] == src[k][..]
      invariant forall k, m :: 0 <= k < m < i ==> result[k] != result[m]
      modifies result
    {
      var row := new int[src[i].Length];
      var j := 0;
      while j < row.Length
        invariant 0 <= j <= row.Length == src[i].Length
        invariant forall q :: 0 <= q < j ==> row[q] == src[i][q]
        modifies row
      {
        row[j] := src[i][j];
        j := j + 1;
      }
      result[i] := row;
      i := i + 1;
    }
    CellsFromRows(result, Cells(src));
    copy := result;
  }

  /**
   `BacteriaLifeUI`: the engine it drives, the current generation, the timer
   (null until Start is first pressed), the round label and the painted panel.
   */
  class BacteriaLifeUI {
    const logic: BacteriaLifeLogic
    var bacteriaGen: array<array<int>>
    var timer: Timer?
    var roundLabel: string
    var panel: seq<Colour>

    /** The panel shows the current generation, which is large enough to be shown. */
    ghost predicate Valid()
      reads this, bacteriaGen, Rows(bacteriaGen)
    {
      Displayable(Cells(bacteriaGen)) && Shows(panel, Cells(bacteriaGen))
    }

    /**
     The window's constructor: draws the initial generation from the engine,
     paints it, and labels round 0. The random draw of each cell is `coin`.
     */
    constructor (logic: BacteriaLifeLogic, coin: (int, int) -> bool)
      requires logic.size >= Dimension
      ensures this.logic == logic && timer == null && Valid()
      ensures fresh(bacteriaGen) && IsSquare(Cells(bacteriaGen), logic.size) && IsBinary(Cells(bacteriaGen))
      ensures forall i, j :: 0 <= i < logic.size && 0 <= j < logic.size ==> Cells(bacteriaGen)[i][j] == Bit(coin(i, j))
      ensures roundLabel == "Round: " + NatToString(logic.round)
    {
      this.logic := logic;
      var g := logic.GenerateInitialGen(coin);
      var p := GenerateGen(g);
      bacteriaGen := g;
      panel := p;
      roundLabel := "Round: " + NatToString(logic.GetRound());
      timer := null;
    }

    /** `refreshGenPanel`: repaint the panel from the current generation; nothing else changes. */
    method RefreshGenPanel()
      requires Displayable(Cells(bacteriaGen))
      modifies this
      ensures Valid()
      ensures bacteriaGen == old(bacteriaGen) && timer == old(timer) && roundLabel == old(roundLabel)
    {
      panel := GenerateGen(bacteriaGen);
    }

    /**
     One tick of the timer. The engine is handed a deep copy of the current
     generation, so the current generation is never touched by it, and the
     engine's round advances either way. If the next generation equals the
     copy, the simulation has reached a fixed point: the timer (if any) is
     stopped and nothing else changes. Otherwise the next generation becomes
     current, the panel is repainted and the label shows the new round.
     */
    method PerformEvolutionStep()
      requires Valid()
      modifies this, logic, timer
      ensures Valid()
      ensures logic.round == old(logic.round) + 1
      ensures timer == old(timer)
      ensures old(NextGen(Cells(bacteriaGen)) == Cells(bacteriaGen)) ==>
        bacteriaGen == old(bacteriaGen) && Cells(bacteriaGen) == old(Cells(bacteriaGen)) &&
        roundLabel == old(roundLabel) && panel == old(panel) &&
        (timer != null ==> !timer.running)
      ensures old(NextGen(Cells(bacteriaGen)) != Cells(bacteriaGen)) ==>
        fresh(bacteriaGen) && Cells(bacteriaGen) == old(NextGen(Cells(bacteriaGen))) &&
        roundLabel == "Round: " + NatToString(logic.round) &&
        (timer != null ==> timer.running == old(timer.running))
    {
      ghost var current := Cells(bacteriaGen);
      var oldGen := DeepCopy(bacteriaGen);
      var newGen := logic.GenerateNewGen(oldGen);
      assert Cells(oldGen) == current;
      if CheckStableGen(Cells(oldGen), Cells(newGen)) {
        assert NextGen(current) == current;
        if timer != null {
          timer.Stop();
        }
        return;
      }
      MoveForward(newGen);
    }

    /** The tail of a non-stable tick: adopt `newGen`, repaint, and relabel with the engine's round. */
    method MoveForward(newGen: array<array<int>>)
      requires Displayable(Cells(newGen))
      modifies this
      ensures Valid() && bacteriaGen == newGen && Cells(bacteriaGen) == old(Cells(newGen))
      ensures roundLabel == "Round: " + NatToString(logic.round) && timer == old(timer)
    {
      bacteriaGen := newGen;
      RefreshGenPanel();
      roundLabel := "Round: " + NatToString(logic.GetRound());
    }

    /**
     The Start button: while a timer is running it does nothing; otherwise a
     new timer is created and started. The generation, panel and label are
     left alone.
     */
    method Start()
      modifies this
      ensures bacteriaGen == old(bacteriaGen) && panel == old(panel) && roundLabel == old(roundLabel)
      ensures old(timer != null && timer.running) ==> timer == old(timer)
      ensures old(timer == null || !timer.running) ==> timer != null && fresh(timer) && timer.running
    {
      if timer != null && timer.running {
        return;
      }
      var t := new Timer();
      t.Start();
      timer := t;
    }
  }
}
