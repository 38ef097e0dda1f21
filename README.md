# Bacteria life and Mastermind, modelled in Dafny

This project models the game logic of two small Java desktop games and proves properties of it.

**Bacteria life** is Conway's Game of Life on a bounded grid of `int` cells, where 1 is alive and anything else is dead. There is no wrap-around. The model has four modules:

- `BacteriaLife` (bacteria_life.dfy) is the engine:
  - `checkNeighbours` and `checkStableGen` are pure functions over a value snapshot of an `int[][]`.
  - The engine object is a class holding the grid size and the round counter.
  - `generateInitialGen` and `generateNewGen` fill fresh `array<array<int>>` grids in nested loops.
  - `GenerateNewGen` is proved to produce exactly `NextGen` of the old grid.
  - The life rule, locality, and the meaning of the neighbour count are proved about `NextGen`.
- `BacteriaLifeExamples` (bacteria_life_examples.dfy) proves the cases fixed by the engine's unit tests. These include the blinker, which turns vertical and back.
- `BacteriaUI` (bacteria_ui.dfy) models the window's driver without Swing:
  - the current generation, a deep copy of it, and the one timer tick `performEvolutionStep`, which either halts on a fixed point or adopts the next generation;
  - the 30 x 30 panel of black and white circles, painted row-major;
  - the "Round: n" label and the Start button.

**Mastermind** has two modules:

- `MasterMind` (mastermind.dfy) scores a guess against the secret. Black pegs are the right colour in the right place; white pegs are the right colour in the wrong place. It also renders the secret as the concatenation of its colours' labels. A class holds the palette, the labels and the secret, which is drawn at construction.
- `MasterMindExamples` (mastermind_examples.dfy) proves the scored and rendered cases of the unit tests.

`BacteriaLifeLogic` and `MasterMindLogic` are modelled from their unit tests and from the UI code that calls them; BacteriaLifeLogic.java and MasterMindLogic.java are not part of this model. The model makes these choices:

- The engine tests build an engine of size 5 and pass it 3 x 3 grids. So `GenerateNewGen` works over the grid's own shape, and there is no dimension-mismatch error.
- As a modelling choice, `checkNeighbours` has no out-of-range error: it counts the in-bounds neighbours of any position. The tests only query positions inside the grid.
- In `performEvolutionStep`, `generateNewGen` runs before the stability check. So the engine's round advances on the halting tick as well, while the label keeps the old round.

Randomness is a parameter:

- `GenerateInitialGen` takes `coin(i, j)` for the draw of cell (i, j).
- The Mastermind constructor takes `pick(i)` for the palette draw of peg i.

## Model

| member | source | states |
|---|---|---|
| `BacteriaLife.CheckNeighbours` | BacteriaLifeMaven/src/test/java/BacteriaLifeLogicTest.java:34-60 | a cell has at most 8 live neighbours, whatever the grid |
| `BacteriaLife.NeighboursAreLiveBoxCells` | BacteriaLifeMaven/src/test/java/BacteriaLifeLogicTest.java:34-60 | the count equals the number of live cells of the 3x3 box around (r, c) that lie inside the grid, other than (r, c) itself: no wrap-around, no index error at corners |
| `BacteriaLife.NeighboursIgnoreCentre` | BacteriaLifeMaven/src/test/java/BacteriaLifeLogicTest.java:34-47 | changing the cell itself never changes its own neighbour count |
| `BacteriaLife.Rule` | BacteriaLifeMaven/src/test/java/BacteriaLifeLogicTest.java:62-119 | the next state is 0 or 1, and 1 exactly when the cell has 3 live neighbours or is alive with 2 (death by isolation below 2, by overcrowding above 3) |
| `BacteriaLife.NextGen` | BacteriaLifeMaven/src/test/java/BacteriaLifeLogicTest.java:121-152 | the next generation has the shape of the old one |
| `BacteriaLife.NextGenIsLocal` | BacteriaLifeMaven/src/test/java/BacteriaLifeLogicTest.java:121-152 | a cell of the next generation depends only on that cell and its neighbours in the old generation |
| `BacteriaLife.CheckStableGen` | BacteriaLifeMaven/src/test/java/BacteriaLifeLogicTest.java:154-162 | true exactly when the two generations are equal cell for cell |
| `BacteriaLife.DeadGridIsStable` | BacteriaLifeMaven/src/test/java/BacteriaLifeLogicTest.java:154-162 | an all-dead grid is a fixed point, so the stability check halts on it |
| `BacteriaLife.BacteriaLifeLogic.constructor` | BacteriaLifeMaven/src/test/java/BacteriaLifeLogicTest.java:12-16 | the engine keeps its size and starts at round 0 |
| `BacteriaLife.BacteriaLifeLogic.GetRound` | BacteriaLifeMaven/src/main/java/BacteriaLifeUI.java:128 | `getRound()` reads the round counter, which the constructor starts at 0 and each `GenerateNewGen` advances by one, without changing it |
| `BacteriaLife.BacteriaLifeLogic.GenerateInitialGen` | BacteriaLifeMaven/src/test/java/BacteriaLifeLogicTest.java:18-32 | a fresh size x size grid of 0/1 cells, cell (i, j) alive exactly when its draw was true; the round is unchanged |
| `BacteriaLife.DrawRow` | BacteriaLifeMaven/src/test/java/BacteriaLifeLogicTest.java:18-32 | one fresh row of the initial grid, cell j alive exactly when its draw was true |
| `BacteriaLife.BacteriaLifeLogic.GenerateNewGen` | BacteriaLifeMaven/src/test/java/BacteriaLifeLogicTest.java:62-152 | a freshly allocated grid equal to NextGen of the old one, computed wholly from the old generation; the round advances by exactly one |
| `BacteriaLife.NextRow` | BacteriaLifeMaven/src/test/java/BacteriaLifeLogicTest.java:121-152 | one fresh row of the next generation, each cell from the old generation |
| `BacteriaLifeExamples.CentreCountsTopRow` | BacteriaLifeMaven/src/test/java/BacteriaLifeLogicTest.java:34-47 | the centre of {{1,1,1},{0,1,0},{0,0,0}} has 3 neighbours |
| `BacteriaLifeExamples.CornerCountsInBoundsOnly` | BacteriaLifeMaven/src/test/java/BacteriaLifeLogicTest.java:49-60 | corner (0,0) of {{0,1},{1,1}} has 3 neighbours |
| `BacteriaLifeExamples.IsolatedCellDies` | BacteriaLifeMaven/src/test/java/BacteriaLifeLogicTest.java:62-75 | a lone live cell dies |
| `BacteriaLifeExamples.CrowdedCellDies` | BacteriaLifeMaven/src/test/java/BacteriaLifeLogicTest.java:77-90 | a live cell with 4 neighbours dies |
| `BacteriaLifeExamples.DeadCellWithThreeIsBorn` | BacteriaLifeMaven/src/test/java/BacteriaLifeLogicTest.java:92-105 | a dead cell with 3 neighbours is born |
| `BacteriaLifeExamples.LiveCellWithTwoSurvives` | BacteriaLifeMaven/src/test/java/BacteriaLifeLogicTest.java:107-119 | a live cell with 2 neighbours survives |
| `BacteriaLifeExamples.HorizontalTurnsVertical` | BacteriaLifeMaven/src/test/java/BacteriaLifeLogicTest.java:121-147 | the horizontal blinker steps to exactly the vertical one |
| `BacteriaLifeExamples.VerticalTurnsHorizontal` | BacteriaLifeMaven/src/test/java/BacteriaLifeLogicTest.java:148-152 | the vertical blinker steps back to exactly the horizontal one |
| `BacteriaLifeExamples.BlinkerOscillates` | BacteriaLifeMaven/src/test/java/BacteriaLifeLogicTest.java:121-152 | two steps restore the blinker and neither step is judged stable |
| `BacteriaLifeExamples.StableGenExamples` | BacteriaLifeMaven/src/test/java/BacteriaLifeLogicTest.java:154-162 | identical grids are stable, grids differing in a cell are not |
| `BacteriaUI.CellColour` | BacteriaLifeMaven/src/main/java/BacteriaLifeUI.java:64-74 | a cell is painted black exactly when it is 1, white otherwise |
| `BacteriaUI.GenerateGen` | BacteriaLifeMaven/src/main/java/BacteriaLifeUI.java:58-76 | the panel holds DIMENSION x DIMENSION circles, the one for cell (i, j) at row-major position i * DIMENSION + j |
| `BacteriaUI.ShowsIsUnique` | BacteriaLifeMaven/src/main/java/BacteriaLifeUI.java:83-88 | the painted panel is determined by the grid: every position is the circle of exactly one cell |
| `BacteriaUI.ShowsLiveCells` | BacteriaLifeMaven/src/main/java/BacteriaLifeUI.java:83-88 | the circle at position i * DIMENSION + j is black exactly when cell (i, j) is alive |
| `BacteriaUI.NatToString` | BacteriaLifeMaven/src/main/java/BacteriaLifeUI.java:128 | the round is rendered as decimal digits with no leading zero |
| `BacteriaUI.NatToStringRoundTrip` | BacteriaLifeMaven/src/main/java/BacteriaLifeUI.java:128 | reading the rendered digits gives back the round |
| `BacteriaUI.RoundLabelsDiffer` | BacteriaLifeMaven/src/main/java/BacteriaLifeUI.java:100 | different rounds get different "Round: n" labels |
| `BacteriaUI.Timer.constructor` | BacteriaLifeMaven/src/main/java/BacteriaLifeUI.java:138 | a new timer is created stopped |
| `BacteriaUI.Timer.Start` | BacteriaLifeMaven/src/main/java/BacteriaLifeUI.java:139 | after `timer.start()` the timer is running |
| `BacteriaUI.Timer.Stop` | BacteriaLifeMaven/src/main/java/BacteriaLifeUI.java:121 | after `timer.stop()` the timer is not running |
| `BacteriaUI.DeepCopy` | BacteriaLifeMaven/src/main/java/BacteriaLifeUI.java:144-152 | null for null; otherwise a fresh array of fresh, pairwise distinct rows with the same number of rows and the same contents, so writes to the copy never reach the original |
| `BacteriaUI.BacteriaLifeUI.constructor` | BacteriaLifeMaven/src/main/java/BacteriaLifeUI.java:155-169 | the window holds the engine's initial generation, a fresh size x size 0/1 grid whose cell (i, j) is alive exactly when its draw was true, paints it, labels it "Round: " + the engine's round, and has no timer yet |
| `BacteriaUI.BacteriaLifeUI.RefreshGenPanel` | BacteriaLifeMaven/src/main/java/BacteriaLifeUI.java:78-92 | the panel is repainted from the current generation and nothing else changes |
| `BacteriaUI.BacteriaLifeUI.PerformEvolutionStep` | BacteriaLifeMaven/src/main/java/BacteriaLifeUI.java:115-129 | the engine works on a copy and its round advances; on a fixed point the timer stops and the generation, panel and label are unchanged; otherwise the generation becomes the next one, the panel shows it and the label shows the new round |
| `BacteriaUI.BacteriaLifeUI.MoveForward` | BacteriaLifeMaven/src/main/java/BacteriaLifeUI.java:125-128 | the new grid becomes current, the panel shows it, the label shows the engine's round |
| `BacteriaUI.BacteriaLifeUI.Start` | BacteriaLifeMaven/src/main/java/BacteriaLifeUI.java:130-142 | a running timer is left alone; otherwise a new timer is created and running; nothing else changes |
| `MasterMind.Blacks` | MasterMindMaven/src/test/java/MasterMindLogicTest.java:53-73 | the black pegs number at most the code length, and all pegs are black exactly when the guess is the secret |
| `MasterMind.Score` | MasterMindMaven/src/test/java/MasterMindLogicTest.java:37-93 | blacks and whites are non-negative and together at most the code length; the guess wins exactly when all pegs are black, and then no peg is white |
| `MasterMind.WhitesOfDistinctGuess` | MasterMindMaven/src/test/java/MasterMindLogicTest.java:37-52 | for a guess with no repeated colour, the whites are exactly the non-black guess pegs whose colour occurs in the secret |
| `MasterMind.ExactGuessWins` | MasterMindMaven/src/test/java/MasterMindLogicTest.java:53-73 | the exact guess scores (length, 0) |
| `MasterMind.DisjointGuessScoresNothing` | MasterMindMaven/src/test/java/MasterMindLogicTest.java:74-93 | a guess sharing no colour with the secret scores (0, 0) |
| `MasterMind.LabelOf` | MasterMindMaven/src/test/java/MasterMindLogicTest.java:102-116 | a palette colour gets the label at its first palette position; a colour outside the palette gets "" |
| `MasterMind.Render` | MasterMindMaven/src/test/java/MasterMindLogicTest.java:102-116 | with one-character labels, character i of the text is the label of peg i; with non-empty labels, the text is at least as long as the secret |
| `MasterMind.RenderRoundTrip` | MasterMindMaven/src/test/java/MasterMindLogicTest.java:102-116 | with distinct one-character labels, the shown text reads back as exactly the secret |
| `MasterMind.RenderNonEmpty` | MasterMindMaven/src/test/java/MasterMindLogicTest.java:27-35 | a non-empty secret of labelled colours shows as non-empty text |
| `MasterMind.MasterMindLogic.constructor` | MasterMindMaven/src/test/java/MasterMindLogicTest.java:16-21 | the secret has the requested length and each peg is the palette colour drawn for it |
| `MasterMind.MasterMindLogic.CheckGuess` | MasterMindMaven/src/test/java/MasterMindLogicTest.java:37-93 | the result is the score of the guess against the held secret: at most one peg per position, a win exactly on the secret, and the distinct-guess white count |
| `MasterMind.MasterMindLogic.ShowSecret` | MasterMindMaven/src/test/java/MasterMindLogicTest.java:102-116 | the held secret's text reads back as the secret, and is non-empty for a non-empty secret |
| `MasterMindExamples.SwappedPairScoresTwoAndTwo` | MasterMindMaven/src/test/java/MasterMindLogicTest.java:37-52 | secret RGBY against guess RBGY scores 2 blacks and 2 whites |
| `MasterMindExamples.ExactGuessScoresFourBlacks` | MasterMindMaven/src/test/java/MasterMindLogicTest.java:53-73 | RGBY against RGBY scores 4 blacks and 0 whites |
| `MasterMindExamples.ForeignColoursScoreNothing` | MasterMindMaven/src/test/java/MasterMindLogicTest.java:74-93 | RGBY against BLACK, WHITE, MAGENTA, ORANGE scores 0 and 0 |
| `MasterMindExamples.ResultKeepsCounts` | MasterMindMaven/src/test/java/MasterMindLogicTest.java:94-101 | a Result keeps both counts as given |
| `MasterMindExamples.ShowsRGBY` | MasterMindMaven/src/test/java/MasterMindLogicTest.java:102-116 | RED, GREEN, BLUE, YELLOW shows as "RGBY" |
| `MasterMindExamples.FreshLogicShowsSecret` | MasterMindMaven/src/test/java/MasterMindLogicTest.java:27-35 | a freshly built four-peg logic shows a four-character, hence non-empty, secret whatever is drawn |

## Left out

- Swing has no model. Frames, layouts, borders, background colours, `Circle` painting, and `revalidate`/`repaint` are not modelled. The panel is the sequence of circle colours it shows.
- The timer is only a running flag. Its 100 ms scheduling is not modelled, and neither is the repeated firing of `performEvolutionStep`.
- `Random` is not modelled. Its draws are parameters: `coin` for the grid and `pick` for the secret.
- The no-argument `MasterMindLogic()` constructor is not modelled, because its default palette and secret length are not fixed by any test.
- `MasterMindUI` and both UI test classes are not modelled. They depend on dialogs, mocks and reflection.
- Out-of-range, dimension-mismatch and invalid-size errors are not modelled. The tests call a size-5 engine on 3 x 3 grids, so the engine follows each grid's own shape.
- Null rows inside an `int[][]` are not modelled. Rows are non-null arrays.
- `MasterMind.Score`: the white count is characterised only for guesses with no repeated colour. The tests fix nothing for repeated colours. For that case the definition applies the usual rule, where each non-black guess peg takes one unmatched secret peg of its colour, and no further property is claimed.
- `MasterMind.MasterMindLogic.CheckGuess` requires a guess as long as the secret. The game's UI only scores complete rows.
- `MasterMind.MasterMindLogic.constructor` requires a non-empty palette, because drawing from an empty palette fails in Java.
- `BacteriaUI.BacteriaLifeUI.constructor` requires an engine of size at least 30, because painting the initial generation reads 30 rows of 30 cells. Java would throw otherwise.
- `BacteriaUI.BacteriaLifeUI.PerformEvolutionStep` requires the current grid to have at least 30 rows of 30 cells, because painting reads that many. Java would throw otherwise.
- Java's 32-bit `int` wrap-around of the round counter is not modelled. The round is unbounded.
