/**
 * The game engine: the active piece, the three-piece preview queue, the hold slot,
 * the guarded commands, the lock sequence with scoring and levels, the drop speed
 * and the top-ten ranking of finished games.
 */
module Games {
  import opened Wrappers
  import opened Tetrominoes
  import opened Boards

  /** Points for clearing 1, 2, 3 or 4 rows with one lock, before the level multiplier. */
  const ScorePerLine: seq<nat> := [100, 300, 500, 800]

  /** The points `updateScore` adds for a lock that clears n rows at the given level. */
  function LineScore(n: nat, level: int): (points: int)
    requires n <= |ScorePerLine|
    ensures level >= 1 ==> 100 * n * level <= points <= 200 * n * level
  {
    if n == 0 then 0 else ScorePerLine[n - 1] * level
  }

  /** Clearing nothing scores nothing; clearing more rows at once never scores less, and at
      level one or higher every clear scores at least 100 points per level. */
  lemma LineScoreFacts(m: nat, n: nat, level: int)
    requires m <= n <= |ScorePerLine| && level >= 1
    ensures LineScore(0, level) == 0
    ensures n > 0 ==> LineScore(n, level) >= 100 * level
    ensures LineScore(m, level) <= LineScore(n, level)
  {
  }

  /** The level `checkLevelUp` computes: `Math.floor(lines / 10) + 1`. */
  function LevelFor(lines: nat): (level: int)
    ensures level >= 1 && 10 * (level - 1) <= lines < 10 * level
  {
    lines / 10 + 1
  }

  /** One level per ten cleared rows, starting at 1; more rows never mean a lower level. */
  lemma LevelForFacts(a: nat, b: nat)
    requires a <= b
    ensures LevelFor(a) >= 1 && LevelFor(a) <= LevelFor(b)
    ensures LevelFor(b) == LevelFor(b % 10) + b / 10
  {
  }

  /** The difficulty setting: one of the three names the menu offers, or any other string, which
      the speed table treats like "normal". */
  datatype Difficulty = Easy | Normal | Hard | Other(name: string)

  /** The setting a difficulty string denotes. */
  function ParseDifficulty(name: string): (d: Difficulty)
    ensures d.Other? <==> name != "easy" && name != "normal" && name != "hard"
  {
    if name == "easy" then Easy
    else if name == "normal" then Normal
    else if name == "hard" then Hard
    else Other(name)
  }

  /** The string a setting is stored as. */
  function DifficultyName(d: Difficulty): string
  {
    match d
    case Easy => "easy"
    case Normal => "normal"
    case Hard => "hard"
    case Other(name) => name
  }

  /** Parsing loses nothing: the stored setting gives back the string it was made from. */
  lemma DifficultyRoundTrip(name: string)
    ensures DifficultyName(ParseDifficulty(name)) == name
  {
  }

  /** The base drop interval in milliseconds for a difficulty setting; unknown settings count as normal. */
  function BaseSpeed(difficulty: Difficulty): (ms: nat)
    ensures 600 <= ms <= 1000
    ensures difficulty.Other? ==> ms == 800
  {
    match difficulty
    case Easy => 1000
    case Normal => 800
    case Hard => 600
    case Other(_) => 800
  }

  function Max(a: int, b: int): int
  {
    if a < b then b else a
  }

  /** `setDropInterval`: 50 ms faster per level above the first, but never below 100 ms. */
  function DropInterval(difficulty: Difficulty, level: int): (ms: int)
    ensures level >= 1 ==> 100 <= ms <= 1000
  {
    Max(100, BaseSpeed(difficulty) - (level - 1) * 50)
  }

  /** A higher level is never slower. */
  lemma DropIntervalMonotone(difficulty: Difficulty, a: int, b: int)
    requires a <= b
    ensures DropInterval(difficulty, b) <= DropInterval(difficulty, a)
  {
  }

  /** The pose one step away from p, with the same rotation index. */
  function Shifted(p: Pose, dx: int, dy: int): Pose
  {
    Pose(p.x + dx, p.y + dy, p.rotation)
  }

  /** The poses `rotateTetromino` tries, in order: rotated in place, one column right,
      one column left of the original, and one row up in the original column. */
  function Kicks(k: Kind, p: Pose): (c: seq<Pose>)
    requires 0 <= p.rotation
    ensures |c| == 4 && forall i :: 0 <= i < 4 ==> c[i].rotation == Rotated(k, p.rotation)
  {
    var r := Rotated(k, p.rotation);
    [Pose(p.x, p.y, r), Pose(p.x + 1, p.y, r), Pose(p.x - 1, p.y, r), Pose(p.x, p.y - 1, r)]
  }

  /** One row of the ranking that `saveHighScore` keeps. */
  datatype Entry = Entry(name: string, score: int, lines: int, level: int, date: string)

  /** The name every saved entry gets. */
  const DefaultName: string := "玩家"

  /** The ranking holds at most this many entries. */
  const RankingSize: nat := 10

  predicate NonIncreasing(l: seq<Entry>)
  {
    forall i, j :: 0 <= i < j < |l| ==> l[i].score >= l[j].score
  }

  /** Inserting e into a ranking: it goes before the first entry that does not score more. */
  function Insert(e: Entry, l: seq<Entry>): (r: seq<Entry>)
    ensures |r| == |l| + 1
  {
    if l == [] || e.score >= l[0].score then [e] + l else [l[0]] + Insert(e, l[1..])
  }

  /** The stable sort by non-increasing score that `highScores.sort((a, b) => b.score - a.score)`
      performs: entries with equal scores keep their order. */
  function SortByScore(l: seq<Entry>): (r: seq<Entry>)
    ensures |r| == |l|
  {
    if l == [] then [] else Insert(l[0], SortByScore(l[1..]))
  }

  /** The entries of l that score s, in their order in l. */
  function WithScore(l: seq<Entry>, s: int): seq<Entry>
  {
    if l == [] then [] else (if l[0].score == s then [l[0]] else []) + WithScore(l[1..], s)
  }

  /** Insertion puts e ahead of every entry of l with its score, and keeps the order of the
      entries with any other score. */
  lemma {:induction false} InsertWithScore(e: Entry, l: seq<Entry>, s: int)
    ensures WithScore(Insert(e, l), s) == (if e.score == s then [e] else []) + WithScore(l, s)
  {
    var mine: seq<Entry> := if e.score == s then [e] else [];
    if l != [] && e.score < l[0].score {
      var rest := Insert(e, l[1..]);
      var r := [l[0]] + rest;
      var head: seq<Entry> := if l[0].score == s then [l[0]] else [];
      InsertWithScore(e, l[1..], s);
      assert r[0] == l[0] && r[1..] == rest;
      assert WithScore(r, s) == head + WithScore(rest, s);
      assert WithScore(l, s) == head + WithScore(l[1..], s);
      assert head == [] || mine == [];
    } else {
      var r := [e] + l;
      assert r[0] == e && r[1..] == l;
      assert WithScore(r, s) == mine + WithScore(l, s);
    }
  }

  /** The sort is stable: for every score, the entries with that score come out in the order
      they went in, so ties are cut at ten in the order of the stored list. */
  lemma {:induction false} SortByScoreStable(l: seq<Entry>, s: int)
    ensures WithScore(SortByScore(l), s) == WithScore(l, s)
  {
    if l != [] {
      SortByScoreStable(l[1..], s);
      InsertWithScore(l[0], SortByScore(l[1..]), s);
    }
  }

  /** Inserting adds e and keeps every other entry. */
  lemma {:induction false} InsertPermutes(e: Entry, l: seq<Entry>)
    ensures multiset(Insert(e, l)) == multiset(l) + multiset{e}
  {
    if l != [] && e.score < l[0].score {
      InsertPermutes(e, l[1..]);
      assert l == [l[0]] + l[1..];
    }
  }

  /** Inserting into a ranking whose scores are all at most b, an entry scoring at most b,
      gives a ranking whose scores are all at most b. */
  lemma {:induction false} InsertBelow(e: Entry, l: seq<Entry>, b: int)
    requires e.score <= b && forall i :: 0 <= i < |l| ==> l[i].score <= b
    ensures forall i :: 0 <= i < |Insert(e, l)| ==> Insert(e, l)[i].score <= b
  {
    if l != [] && e.score < l[0].score {
      InsertBelow(e, l[1..], b);
      var r := Insert(e, l);
      forall i | 0 <= i < |r|
        ensures r[i].score <= b
      {
        if i > 0 {
          assert r[i] == Insert(e, l[1..])[i - 1];
        }
      }
    }
  }

  /** Inserting into a non-increasing ranking keeps it non-increasing. */
  lemma {:induction false} InsertSorted(e: Entry, l: seq<Entry>)
    requires NonIncreasing(l)
    ensures NonIncreasing(Insert(e, l))
  {
    if l != [] && e.score < l[0].score {
      var tail := l[1..];
      var rest := Insert(e, tail);
      InsertSorted(e, tail);
      InsertBelow(e, tail, l[0].score);
      var r := [l[0]] + rest;
      forall i, j | 0 <= i < j < |r|
        ensures r[i].score >= r[j].score
      {
        assert r[j] == rest[j - 1];
        if i > 0 {
          assert r[i] == rest[i - 1];
        }
      }
    }
  }

  /** The sort yields a non-increasing permutation of its input. */
  lemma {:induction false} SortByScoreFacts(l: seq<Entry>)
    ensures NonIncreasing(SortByScore(l))
    ensures multiset(SortByScore(l)) == multiset(l)
  {
    if l != [] {
      var rest := SortByScore(l[1..]);
      SortByScoreFacts(l[1..]);
      InsertSorted(l[0], rest);
      InsertPermutes(l[0], rest);
      assert l == [l[0]] + l[1..];
      assert multiset(l) == multiset(l[1..]) + multiset{l[0]};
    }
  }

  /** The game's state as one value: the board's grid and flag, the counters and settings, the
      flags, and which piece objects are active, queued and held (their poses are not part of it). */
  datatype State = State(
    grid: Grid, boardOver: bool,
    score: int, lines: nat, level: int, dropInterval: int, difficulty: Difficulty,
    gameOver: bool, paused: bool, isRunning: bool,
    current: Tetromino?, queue: seq<Tetromino>, hold: Tetromino?, hasSwapped: bool)

  /** Grid g admits a piece of kind k at pose p. */
  ghost predicate FitsOn(g: Grid, k: Kind, p: Pose)
    requires 0 <= p.rotation < |Shapes(k)|
  {
    AdmitsAt(g, ShapeOf(k, p.rotation), p.x, p.y)
  }

  /** `getNextTetromino` from s0 to s1: the head of the queue becomes the active piece, the other
      two move up and a piece of kind Kinds[choice] joins the back; the game ends, and stops
      running, when the grid does not admit the new active piece at the spawn pose. */
  ghost predicate Spawned(s0: State, s1: State, choice: nat)
    requires choice < |Kinds|
  {
    |s0.queue| == 3 && |s1.queue| == 3
    && s1.queue[0] == s0.queue[1] && s1.queue[1] == s0.queue[2] && s1.queue[2].kind == Kinds[choice]
    && s1.gameOver == (s0.gameOver || !FitsOn(s0.grid, s0.queue[0].kind, Pose(3, 0, 0)))
    && s1.isRunning == (s0.isRunning && FitsOn(s0.grid, s0.queue[0].kind, Pose(3, 0, 0)))
    && s1 == s0.(current := s0.queue[0], queue := s1.queue, gameOver := s1.gameOver, isRunning := s1.isRunning)
  }

  /** The grid a lock of kind k at pose p leaves before rows are cleared: the piece stamped in
      its colour, or g itself when a block of it is above row 0. */
  ghost function LockedGrid(g: Grid, k: Kind, p: Pose): Grid
    requires 0 <= p.rotation < |Shapes(k)|
  {
    var s := ShapeOf(k, p.rotation);
    if BelowTop(s, p.y) then Stamp(g, s, p.x, p.y, ColorOf(k)) else g
  }

  /** The board part of a lock: the piece is stamped unless a block of it is above row 0, which
      sets the board's game-over flag, and then every full row of the 10-wide board is cleared. */
  ghost function Settle(s0: State, k: Kind, p: Pose): State
    requires 0 <= p.rotation < |Shapes(k)|
  {
    s0.(grid := Cleared(LockedGrid(s0.grid, k, p), 10),
        boardOver := s0.boardOver || !BelowTop(ShapeOf(k, p.rotation), p.y))
  }

  /** The counters after a lock that cleared n rows: the line score at the level before the lock
      is added, the rows are counted, the level rises to the one the rows earn and a rise resets
      the interval. Nothing changes when no row was cleared. */
  ghost function Tally(s0: State, n: nat): State
    requires n <= |ScorePerLine|
  {
    if n == 0 then s0
    else
      var lines := s0.lines + n;
      var level := Max(s0.level, LevelFor(lines));
      s0.(score := s0.score + LineScore(n, s0.level), lines := lines, level := level,
          dropInterval := if level > s0.level then DropInterval(s0.difficulty, level) else s0.dropInterval)
  }

  /** The pose `rotateTetromino` ends in from pose p on grid g: the first of the kick poses g
      admits, or p itself when it admits none of them. */
  ghost function Kick(g: Grid, k: Kind, p: Pose): Pose
    requires 0 <= p.rotation < |Shapes(k)|
  {
    FourRotationsRestore(k, p.rotation);
    var c := Kicks(k, p);
    if FitsOn(g, k, c[0]) then c[0]
    else if FitsOn(g, k, c[1]) then c[1]
    else if FitsOn(g, k, c[2]) then c[2]
    else if FitsOn(g, k, c[3]) then c[3]
    else p
  }

  /** A rotation with kicks keeps an admitted piece admitted, and leaves the piece where it was
      exactly when the grid admits none of the kick poses. */
  lemma KickKeepsFit(g: Grid, k: Kind, p: Pose)
    requires 0 <= p.rotation < |Shapes(k)|
    ensures 0 <= Kick(g, k, p).rotation < |Shapes(k)|
    ensures FitsOn(g, k, p) ==> FitsOn(g, k, Kick(g, k, p))
    ensures (forall i :: 0 <= i < 4 ==> !FitsOn(g, k, Kicks(k, p)[i])) <==>
      Kick(g, k, p) == p && !FitsOn(g, k, Kicks(k, p)[0])
  {
    FourRotationsRestore(k, p.rotation);
    var c := Kicks(k, p);
    assert c[1] != p && c[2] != p && c[3] != p;
    if !FitsOn(g, k, c[0]) && !FitsOn(g, k, c[1]) && !FitsOn(g, k, c[2]) && !FitsOn(g, k, c[3]) {
      assert Kick(g, k, p) == p;
    }
  }

  /** When the rotation moves the piece, it lands on a kick pose the grid admits, and the grid
      admits none of the poses tried before it. */
  lemma KickIsFirstFit(g: Grid, k: Kind, p: Pose)
    requires 0 <= p.rotation < |Shapes(k)|
    ensures Kick(g, k, p) != p ==> FitsOn(g, k, Kick(g, k, p))
    ensures forall i, j :: 0 <= j < i < 4 && Kick(g, k, p) == Kicks(k, p)[i] && Kick(g, k, p) != p ==>
      !FitsOn(g, k, Kicks(k, p)[j])
  {
    FourRotationsRestore(k, p.rotation);
    var c := Kicks(k, p);
    if FitsOn(g, k, c[0]) {
      assert Kick(g, k, p) == c[0];
    } else if FitsOn(g, k, c[1]) {
      assert Kick(g, k, p) == c[1];
    } else if FitsOn(g, k, c[2]) {
      assert Kick(g, k, p) == c[2];
    }
  }

  /** `lockTetromino` from s0 to s1 for a piece of kind k at pose p: the board settles and the
      counters are tallied, also when the game ends; then the game is over, or the next piece is
      spawned and the hold flag is cleared. */
  ghost predicate Locked(s0: State, s1: State, k: Kind, p: Pose, choice: nat)
    requires 0 <= p.rotation < |Shapes(k)| && choice < |Kinds|
  {
    var n := FullCount(LockedGrid(s0.grid, k, p));
    n <= |ScorePerLine|
    && var s := Tally(Settle(s0, k, p), n);
       if s.boardOver then s1 == s.(gameOver := true, isRunning := false)
       else Spawned(s, s1.(hasSwapped := s.hasSwapped), choice) && !s1.hasSwapped
  }

  /** Spawning never revives a finished game, and keeps a running game from being over. */
  lemma SpawnedKeepsOver(s0: State, s1: State, choice: nat)
    requires choice < |Kinds| && Spawned(s0, s1, choice)
    ensures s0.gameOver ==> s1.gameOver
    ensures (s0.isRunning ==> !s0.gameOver) ==> (s1.isRunning ==> !s1.gameOver)
    ensures s1.hold == s0.hold && s1.score == s0.score && s1.grid == s0.grid
  {
  }

  /** A lock keeps the grid's size and, on a grid without full rows, completes at most four rows. */
  lemma LockedGridFacts(g: Grid, k: Kind, p: Pose)
    requires 0 <= p.rotation < |Shapes(k)| && IsGrid(g, 10, 20)
    ensures IsGrid(LockedGrid(g, k, p), 10, 20)
    ensures NoFullRow(g) ==> FullCount(LockedGrid(g, k, p)) <= 4
  {
    var s := ShapeOf(k, p.rotation);
    if BelowTop(s, p.y) {
      ShapeBlocks(k, p.rotation);
      StampEffect(g, s, p.x, p.y, ColorOf(k), 10, 20);
      if NoFullRow(g) {
        StampCompletesAtMostFour(g, s, p.x, p.y, ColorOf(k));
      }
    } else if NoFullRow(g) {
      ClearedWithoutFullRows(g, 10);
    }
  }

  /** Settling keeps a 10 by 20 grid of that size and leaves it without a full row, and nothing
      but the board changes. */
  lemma SettleFacts(s0: State, k: Kind, p: Pose)
    requires 0 <= p.rotation < |Shapes(k)| && IsGrid(s0.grid, 10, 20)
    ensures IsGrid(Settle(s0, k, p).grid, 10, 20) && NoFullRow(Settle(s0, k, p).grid)
    ensures Settle(s0, k, p).(grid := s0.grid, boardOver := s0.boardOver) == s0
    ensures s0.boardOver ==> Settle(s0, k, p).boardOver
  {
    var g := LockedGrid(s0.grid, k, p);
    LockedGridFacts(s0.grid, k, p);
    ClearedDims(g, 10, 20);
    ClearedHasNoFullRow(g, 10);
  }

  /** Tallying a clear of at most four rows: the rows are counted, the level stays the one the
      rows earn and never falls, the score never falls and grows by at least 100 points per
      level when rows were cleared, the interval stays within [100, 1000], and nothing but the
      counters changes. */
  lemma TallyFacts(s0: State, n: nat)
    requires n <= |ScorePerLine| && s0.level == LevelFor(s0.lines) && 100 <= s0.dropInterval <= 1000
    ensures Tally(s0, n).lines == s0.lines + n
    ensures Tally(s0, n).level == LevelFor(Tally(s0, n).lines) && Tally(s0, n).level >= s0.level
    ensures Tally(s0, n).score >= s0.score
    ensures n > 0 ==> Tally(s0, n).score >= s0.score + 100 * s0.level
    ensures 100 <= Tally(s0, n).dropInterval <= 1000
    ensures Tally(s0, n).(score := s0.score, lines := s0.lines, level := s0.level, dropInterval := s0.dropInterval) == s0
  {
    if n > 0 {
      var lines := s0.lines + n;
      LevelForFacts(0, s0.lines);
      LevelForFacts(s0.lines, lines);
      assert Max(s0.level, LevelFor(lines)) == LevelFor(lines);
      LineScoreFacts(0, n, s0.level);
    }
  }

  /** What every lock keeps: a 10 by 20 grid without full rows, at most four more rows, a level
      that matches the rows, a score that never falls, an interval within [100, 1000], the held
      piece and the settings; and either the game is over and stopped, or the old head of the
      queue is the active piece and may be held again. */
  lemma LockedFacts(s0: State, s1: State, k: Kind, p: Pose, choice: nat)
    requires 0 <= p.rotation < |Shapes(k)| && choice < |Kinds| && Locked(s0, s1, k, p, choice)
    requires IsGrid(s0.grid, 10, 20) && NoFullRow(s0.grid)
    requires s0.level == LevelFor(s0.lines) && 100 <= s0.dropInterval <= 1000
    ensures IsGrid(s1.grid, 10, 20) && NoFullRow(s1.grid)
    ensures s0.lines <= s1.lines <= s0.lines + 4 && s1.level == LevelFor(s1.lines)
    ensures s1.score >= s0.score && 100 <= s1.dropInterval <= 1000
    ensures s1.hold == s0.hold && s1.difficulty == s0.difficulty && s1.paused == s0.paused
    ensures s1.boardOver ==> s1.gameOver && !s1.isRunning
    ensures !s1.boardOver ==> |s0.queue| == 3 && s1.current == s0.queue[0] && !s1.hasSwapped
  {
    var n := FullCount(LockedGrid(s0.grid, k, p));
    LockedGridFacts(s0.grid, k, p);
    SettleFacts(s0, k, p);
    var settled := Settle(s0, k, p);
    TallyFacts(settled, n);
  }

  /** The three steps of a lock, settling, tallying and then ending or spawning, compose to Locked. */
  lemma LockedInSteps(s0: State, s1: State, s2: State, s3: State, k: Kind, p: Pose, choice: nat, n: nat)
    requires 0 <= p.rotation < |Shapes(k)| && choice < |Kinds|
    requires n == FullCount(LockedGrid(s0.grid, k, p)) && n <= |ScorePerLine|
    requires s1 == Settle(s0, k, p) && s2 == Tally(s1, n)
    requires s2.boardOver ==> s3 == s2.(gameOver := true, isRunning := false)
    requires !s2.boardOver ==> Spawned(s2, s3.(hasSwapped := s2.hasSwapped), choice) && !s3.hasSwapped
    ensures Locked(s0, s3, k, p, choice)
  {
  }

  /** The loop of the game's constructor: three new pieces, of the kinds the choices pick, in order. */
  method FillQueue(choices: seq<nat>) returns (queue: seq<Tetromino>)
    requires |choices| == 3 && forall i :: 0 <= i < 3 ==> choices[i] < |Kinds|
    ensures |queue| == 3
    ensures forall j :: 0 <= j < 3 ==>
      fresh(queue[j]) && queue[j].Valid() && queue[j].GetPose() == Pose(3, 0, 0) && queue[j].kind == Kinds[choices[j]]
    ensures queue[0] != queue[1] && queue[0] != queue[2] && queue[1] != queue[2]
  {
    queue := [];
    var i := 0;
    while i < 3
      invariant 0 <= i <= 3 && |queue| == i
      invariant forall j :: 0 <= j < i ==>
        fresh(queue[j]) && queue[j].Valid() && queue[j].GetPose() == Pose(3, 0, 0) && queue[j].kind == Kinds[choices[j]]
      invariant forall j, k :: 0 <= j < k < i ==> queue[j] != queue[k]
    {
      var t := RandomTetromino(choices[i]);
      queue := queue + [t];
      i := i + 1;
    }
  }

  class Game {
    var gameOver: bool
    var paused: bool
    var isRunning: bool
    var dropInterval: int
    var score: nat
    var level: int
    var lines: nat
    var difficulty: Difficulty
    const board: Board
    var currentTetromino: Tetromino?
    var nextTetrominos: seq<Tetromino>
    /* The source stores the held piece in the field `holdTetromino`, which shadows the method of
       the same name on every instance, so the controller's calls `game.holdTetromino()` fail at
       run time. The method's body is modelled as written, under the name HoldSwap. */
    var holdTetromino: Tetromino?
    var hasSwapped: bool

    /** The board is the standard 10 by 20 one and, between commands, has no full row. */
    ghost predicate BoardOk()
      reads this`gameOver, board
    {
      board.Valid() && board.width == 10 && board.height == 20 && NoFullRow(board.grid)
      && (board.gameOver ==> gameOver)
    }

    /** The preview queue holds three distinct, untouched pieces at the spawn pose. */
    ghost predicate QueueOk()
      reads this`nextTetrominos, nextTetrominos
    {
      |nextTetrominos| == 3
      && AtSpawn(nextTetrominos[0]) && AtSpawn(nextTetrominos[1]) && AtSpawn(nextTetrominos[2])
      && nextTetrominos[0] != nextTetrominos[1] && nextTetrominos[0] != nextTetrominos[2]
      && nextTetrominos[1] != nextTetrominos[2]
    }

    /** The active and the held piece are valid pieces, distinct from each other and from the queue. */
    ghost predicate PiecesOk()
      reads this`currentTetromino, this`holdTetromino, this`nextTetrominos, currentTetromino, holdTetromino
    {
      (currentTetromino != null ==> currentTetromino.Valid() && Unqueued(currentTetromino))
      && (holdTetromino != null ==>
            holdTetromino.Valid() && Unqueued(holdTetromino) && holdTetromino != currentTetromino)
    }

    /** t is none of the three queued pieces. */
    ghost predicate Unqueued(t: Tetromino)
      reads this`nextTetrominos
    {
      |nextTetrominos| == 3
      && t != nextTetrominos[0] && t != nextTetrominos[1] && t != nextTetrominos[2]
    }

    /** Level tracks cleared rows, the interval stays in [100, 1000] and matches the settings
        while a game runs, and a running game has an active piece and is not over. */
    ghost predicate ProgressOk()
      reads this`level, this`lines, this`dropInterval, this`difficulty, this`isRunning, this`gameOver, this`currentTetromino
    {
      level == LevelFor(lines) && 100 <= dropInterval <= 1000
      && (isRunning ==> !gameOver && currentTetromino != null && dropInterval == DropInterval(difficulty, level))
    }

    /** A valid piece at column 3, row 0, rotation state 0: how every new piece starts. */
    ghost predicate AtSpawn(t: Tetromino)
      reads t
    {
      t.Valid() && t.GetPose() == Pose(3, 0, 0)
    }

    ghost predicate Consistent()
      reads this, board, currentTetromino, holdTetromino, nextTetrominos
    {
      BoardOk() && QueueOk() && PiecesOk() && ProgressOk()
    }

    /** The board admits piece kind k at pose p. */
    ghost predicate Fits(k: Kind, p: Pose)
      reads board
      requires 0 <= p.rotation < |Shapes(k)|
    {
      FitsOn(board.grid, k, p)
    }

    /** While the game is not over, the active piece is where the board admits it, or at the
        spawn column and row, where spawning and swapping put a piece without a check. */
    ghost predicate ActiveOk()
      reads this`currentTetromino, this`gameOver, board, currentTetromino
      requires board.Valid() && (currentTetromino != null ==> currentTetromino.Valid())
    {
      currentTetromino != null && !gameOver ==>
        Fits(currentTetromino.kind, currentTetromino.GetPose())
        || (currentTetromino.x == 3 && currentTetromino.y == 0)
    }

    ghost predicate Valid()
      reads this, board, currentTetromino, holdTetromino, nextTetrominos
    {
      Consistent() && ActiveOk()
    }

    /** The guard every piece command starts with. */
    predicate Active()
      reads this`currentTetromino, this`gameOver, this`paused
    {
      currentTetromino != null && !gameOver && !paused
    }

    ghost function Snapshot(): State
      reads this, board
    {
      State(board.grid, board.gameOver, score, lines, level, dropInterval, difficulty,
        gameOver, paused, isRunning, currentTetromino, nextTetrominos, holdTetromino, hasSwapped)
    }


    /** A new game object: the queue is filled, one piece at a time, with pieces of the kinds
        Kinds[choices[0]], Kinds[choices[1]] and Kinds[choices[2]]; nothing is running yet. */
    constructor (choices: seq<nat>)
      requires |choices| == 3 && forall i :: 0 <= i < 3 ==> choices[i] < |Kinds|
      ensures Valid() && fresh(board) && AllEmpty(board.grid)
      ensures !gameOver && !paused && !isRunning && !hasSwapped
      ensures score == 0 && level == 1 && lines == 0 && dropInterval == 1000 && difficulty == Normal
      ensures currentTetromino == null && holdTetromino == null
      ensures |nextTetrominos| == 3
      ensures forall i :: 0 <= i < 3 ==> fresh(nextTetrominos[i]) && nextTetrominos[i].kind == Kinds[choices[i]]
    {
      gameOver := false;
      paused := false;
      isRunning := false;
      dropInterval := 1000;
      score := 0;
      level := 1;
      lines := 0;
      difficulty := Normal;
      board := new Board();
      currentTetromino := null;
      var queue := FillQueue(choices);
      nextTetrominos := queue;
      holdTetromino := null;
      hasSwapped := false;
      new;
      EmptyHasNoFullRow(board.grid, 10, 20);
    }

    /** `startGame`, its state part: a cleared board, zeroed counters, an empty hold slot, the
        first piece taken from the queue and the interval set from the difficulty. The empty
        board admits the spawned piece, so the new game is running. */
    method StartGame(choice: nat)
      requires Valid() && choice < |Kinds|
      modifies this, board
      ensures Valid()
      ensures AllEmpty(board.grid) && !board.gameOver
      ensures score == 0 && level == 1 && lines == 0 && difficulty == old(difficulty)
      ensures !gameOver && !paused && isRunning && !hasSwapped && holdTetromino == null
      ensures currentTetromino == old(nextTetrominos[0])
      ensures nextTetrominos[0] == old(nextTetrominos[1]) && nextTetrominos[1] == old(nextTetrominos[2])
      ensures fresh(nextTetrominos[2]) && nextTetrominos[2].kind == Kinds[choice]
      ensures dropInterval == DropInterval(difficulty, 1)
    {
      ResetPlay();
      var head := nextTetrominos[0];
      ShapeBlocks(head.kind, head.rotation);
      board.EmptyAdmitsSquare(head.GetCurrentShape(), Side(head.kind), 3, 0);
      GetNextTetromino(choice);
      SetDropInterval();
    }

    /** What `startGame` resets before the first piece is taken: the board, the counters and the flags. */
    method ResetPlay()
      requires Valid()
      modifies board, this`score, this`level, this`lines, this`gameOver, this`paused, this`isRunning
      modifies this`hasSwapped, this`holdTetromino
      ensures board.Valid() && board.width == 10 && board.height == 20 && NoFullRow(board.grid)
      ensures AllEmpty(board.grid) && !board.gameOver
      ensures QueueOk() && currentTetromino == old(currentTetromino) && nextTetrominos == old(nextTetrominos)
      ensures currentTetromino != null ==> currentTetromino.Valid() && Unqueued(currentTetromino)
      ensures score == 0 && level == 1 && lines == 0
      ensures !gameOver && !paused && isRunning && !hasSwapped && holdTetromino == null
    {
      board.Reset();
      EmptyHasNoFullRow(board.grid, 10, 20);
      score := 0;
      level := 1;
      lines := 0;
      gameOver := false;
      paused := false;
      isRunning := true;
      hasSwapped := false;
      holdTetromino := null;
    }

    /** `getNextTetromino`: takes the head of the queue, appends a piece of kind Kinds[choice],
        and ends the game when the board does not admit the new active piece. */
    method GetNextTetromino(choice: nat)
      requires board.Valid() && choice < |Kinds|
      requires |nextTetrominos| == 3 && AtSpawn(nextTetrominos[0])
      modifies this`currentTetromino, this`nextTetrominos, this`gameOver, this`isRunning
      ensures Spawned(old(Snapshot()), Snapshot(), choice)
      ensures fresh(nextTetrominos[2]) && AtSpawn(nextTetrominos[2])
    {
      var head := nextTetrominos[0];
      ghost var fits := FitsOn(board.grid, head.kind, Pose(3, 0, 0));
      currentTetromino := head;
      var t := RandomTetromino(choice);
      nextTetrominos := [nextTetrominos[1], nextTetrominos[2], t];
      var ok := board.IsValidMove(head);
      assert ok == fits;
      if !ok {
        EndGame();
      }
    }

    /** `moveTetrominoLeft`: one column left, undone when the board does not admit the new pose. */
    method MoveTetrominoLeft()
      requires Valid()
      modifies currentTetromino
      ensures Valid()
      ensures currentTetromino != null ==>
        currentTetromino.GetPose() ==
          if old(Active()) && old(Fits(currentTetromino.kind, Shifted(currentTetromino.GetPose(), -1, 0)))
          then Shifted(old(currentTetromino.GetPose()), -1, 0)
          else old(currentTetromino.GetPose())
    {
      if !Active() {
        return;
      }
      currentTetromino.MoveLeft();
      var ok := board.IsValidMove(currentTetromino);
      if !ok {
        currentTetromino.MoveRight();
      }
    }

    /** `moveTetrominoRight`: one column right, undone when the board does not admit the new pose. */
    method MoveTetrominoRight()
      requires Valid()
      modifies currentTetromino
      ensures Valid()
      ensures currentTetromino != null ==>
        currentTetromino.GetPose() ==
          if old(Active()) && old(Fits(currentTetromino.kind, Shifted(currentTetromino.GetPose(), 1, 0)))
          then Shifted(old(currentTetromino.GetPose()), 1, 0)
          else old(currentTetromino.GetPose())
    {
      if !Active() {
        return;
      }
      currentTetromino.MoveRight();
      var ok := board.IsValidMove(currentTetromino);
      if !ok {
        currentTetromino.MoveLeft();
      }
    }

    /** `moveTetrominoDown`: one row down when the board admits it; otherwise the row is restored
        and the piece is locked where it was. */
    method MoveTetrominoDown(choice: nat)
      requires Valid() && choice < |Kinds|
      modifies this, board, currentTetromino
      ensures Valid()
      ensures !old(Active()) ==>
        Snapshot() == old(Snapshot())
        && (currentTetromino != null ==> currentTetromino.GetPose() == old(currentTetromino.GetPose()))
      ensures old(Active()) && old(Fits(currentTetromino.kind, Shifted(currentTetromino.GetPose(), 0, 1))) ==>
        Snapshot() == old(Snapshot()) && currentTetromino.GetPose() == Shifted(old(currentTetromino.GetPose()), 0, 1)
      ensures old(Active()) && !old(Fits(currentTetromino.kind, Shifted(currentTetromino.GetPose(), 0, 1))) ==>
        Locked(old(Snapshot()), Snapshot(), old(currentTetromino.kind), old(currentTetromino.GetPose()), choice)
    {
      if !Active() {
        return;
      }
      var t := currentTetromino;
      var ok := StepDown(t);
      if !ok {
        MakePlaceable(t);
        LockTetromino(choice);
      }
    }

    /** The move of `moveTetrominoDown`: one row down, and back up when the board does not
        admit the lower pose. */
    method StepDown(t: Tetromino) returns (ok: bool)
      requires board.Valid() && t.Valid()
      modifies t
      ensures t.Valid() && ok == old(Fits(t.kind, Shifted(t.GetPose(), 0, 1)))
      ensures t.GetPose() == if ok then Shifted(old(t.GetPose()), 0, 1) else old(t.GetPose())
    {
      t.MoveDown();
      ok := board.IsValidMove(t);
      if !ok {
        t.y := t.y - 1;
      }
    }

    /** The active piece's pose can be placed: it is admitted, or it is at the spawn column and row. */
    lemma MakePlaceable(t: Tetromino)
      requires Valid() && t == currentTetromino && !gameOver
      ensures board.Placeable(ShapeOf(t.kind, t.rotation), t.x, t.y)
    {
      if Fits(t.kind, t.GetPose()) {
        board.AdmitsWithin(t.GetCurrentShape(), t.x, t.y);
      } else {
        board.SquarePlaceable(t.GetCurrentShape(), Side(t.kind), t.x, t.y);
      }
    }

    /** `rotateTetromino`: tries the kick poses in order and keeps the first the board admits;
        when there is none, rotation, column and row are all restored. */
    method RotateTetromino()
      requires Valid()
      modifies currentTetromino
      ensures Valid()
      ensures currentTetromino != null ==>
        currentTetromino.GetPose() ==
          if old(Active()) then old(Kick(board.grid, currentTetromino.kind, currentTetromino.GetPose()))
          else old(currentTetromino.GetPose())
    {
      if !Active() {
        return;
      }
      KickKeepsFit(board.grid, currentTetromino.kind, currentTetromino.GetPose());
      RotateWithKicks(currentTetromino);
    }

    /** The kick sequence of `rotateTetromino` on piece t: each failed try moves on to the next
        pose, and the last restores the pose t started in. */
    method RotateWithKicks(t: Tetromino)
      requires board.Valid() && t.Valid()
      modifies t
      ensures t.Valid()
      ensures t.GetPose() == old(Kick(board.grid, t.kind, t.GetPose()))
    {
      FourRotationsRestore(t.kind, t.rotation);
      ghost var g := board.grid;
      ghost var p0 := t.GetPose();
      ghost var c := Kicks(t.kind, p0);
      ghost var f := [FitsOn(g, t.kind, c[0]), FitsOn(g, t.kind, c[1]), FitsOn(g, t.kind, c[2]), FitsOn(g, t.kind, c[3])];
      assert Kick(g, t.kind, p0) == if f[0] then c[0] else if f[1] then c[1] else if f[2] then c[2] else if f[3] then c[3] else p0;
      var originalRotation := t.rotation;
      t.Rotate();
      var ok := board.IsValidMove(t);
      assert t.GetPose() == c[0] && ok == f[0];
      if !ok {
        t.MoveRight();
        ok := board.IsValidMove(t);
        assert t.GetPose() == c[1] && ok == f[1];
        if !ok {
          t.MoveLeft();
          t.MoveLeft();
          ok := board.IsValidMove(t);
          assert t.GetPose() == c[2] && ok == f[2];
          if !ok {
            t.MoveRight();
            t.y := t.y - 1;
            ok := board.IsValidMove(t);
            assert t.GetPose() == c[3] && ok == f[3];
            if !ok {
              t.y := t.y + 1;
              t.rotation := originalRotation;
              assert t.GetPose() == p0;
            }
          }
        }
      }
    }

    /** `hardDrop`: the piece is moved to the row of its drop projection and locked there. */
    method HardDrop(choice: nat)
      requires Valid() && choice < |Kinds|
      modifies this, board, currentTetromino
      ensures Valid()
      ensures !old(Active()) ==>
        Snapshot() == old(Snapshot())
        && (currentTetromino != null ==> currentTetromino.GetPose() == old(currentTetromino.GetPose()))
      ensures old(Active()) ==>
        var t := old(currentTetromino);
        var ly := t.y;
        old(board.DropTarget(ShapeOf(t.kind, t.rotation), t.x, t.y, ly))
        && Locked(old(Snapshot()), Snapshot(), t.kind, Pose(old(t.x), ly, old(t.rotation)), choice)
    {
      if !Active() {
        return;
      }
      var t := currentTetromino;
      var ghostPiece := board.GetDropPosition(t);
      var shape := t.GetCurrentShape();
      if board.Admits(shape, t.x, t.y) {
        board.DropTargetResting(shape, t.x, t.y, ghostPiece.y);
        board.AdmitsWithin(shape, t.x, ghostPiece.y);
      } else {
        board.SquarePlaceable(shape, Side(t.kind), t.x, ghostPiece.y);
      }
      t.y := ghostPiece.y;
      LockTetromino(choice);
    }

    /** The body of `holdTetromino` (see the field's comment): once per piece, the active piece goes
        to the hold slot; the first time the next piece is spawned, later the held piece comes
        back at column 3, row 0, with the rotation it had, and without a check. */
    method HoldSwap(choice: nat)
      requires Valid() && choice < |Kinds|
      modifies this, holdTetromino
      ensures Valid()
      ensures !old(Active() && !hasSwapped) ==>
        Snapshot() == old(Snapshot())
        && (holdTetromino != null ==> holdTetromino.GetPose() == old(holdTetromino.GetPose()))
      ensures old(Active() && !hasSwapped && holdTetromino == null) ==>
        Spawned(old(Snapshot()).(hold := old(currentTetromino), hasSwapped := true), Snapshot(), choice)
        && fresh(nextTetrominos[2])
      ensures old(Active() && !hasSwapped && holdTetromino != null) ==>
        Snapshot() == old(Snapshot()).(current := old(holdTetromino), hold := old(currentTetromino), hasSwapped := true)
        && currentTetromino.GetPose() == Pose(3, 0, old(holdTetromino.rotation))
    {
      if !Active() || hasSwapped {
        return;
      }
      if holdTetromino == null {
        HoldFirst(choice);
      } else {
        SwapHeld();
      }
    }

    /** The first hold of a game: the active piece goes to the empty slot and the next is spawned. */
    method HoldFirst(choice: nat)
      requires Valid() && Active() && !hasSwapped && holdTetromino == null && choice < |Kinds|
      modifies this`holdTetromino, this`currentTetromino, this`nextTetrominos, this`gameOver
      modifies this`isRunning, this`hasSwapped
      ensures Valid()
      ensures Spawned(old(Snapshot()).(hold := old(currentTetromino), hasSwapped := true), Snapshot(), choice)
      ensures fresh(nextTetrominos[2])
    {
      holdTetromino := currentTetromino;
      GetNextTetromino(choice);
      hasSwapped := true;
    }

    /** A later hold: the active and the held piece change places and the piece coming back is
        put at column 3, row 0. */
    method SwapHeld()
      requires Valid() && Active() && !hasSwapped && holdTetromino != null
      modifies this`currentTetromino, this`holdTetromino, this`hasSwapped, holdTetromino
      ensures Valid()
      ensures Snapshot() == old(Snapshot()).(current := old(holdTetromino), hold := old(currentTetromino), hasSwapped := true)
      ensures currentTetromino.GetPose() == Pose(3, 0, old(holdTetromino.rotation))
    {
      var temp := currentTetromino;
      currentTetromino := holdTetromino;
      holdTetromino := temp;
      currentTetromino.x := 3;
      currentTetromino.y := 0;
      hasSwapped := true;
    }

    /** `lockTetromino`. */
    method LockTetromino(choice: nat)
      requires Consistent() && choice < |Kinds| && currentTetromino != null
      requires board.Placeable(ShapeOf(currentTetromino.kind, currentTetromino.rotation), currentTetromino.x, currentTetromino.y)
      modifies this, board
      ensures Valid()
      ensures Locked(old(Snapshot()), Snapshot(), old(currentTetromino.kind), old(currentTetromino.GetPose()), choice)
      ensures !board.gameOver ==> fresh(nextTetrominos[2])
    {
      ghost var k, p := currentTetromino.kind, currentTetromino.GetPose();
      ghost var s0 := Snapshot();
      ghost var s1, n := SettleAndTally();
      ghost var s2 := Snapshot();
      FinishLock(choice);
      LockedInSteps(s0, s1, s2, Snapshot(), k, p, choice, n);
    }

    /** The part of `lockTetromino` before the game-over test: the piece is settled into the board
        and the cleared rows, if any, are scored. */
    method SettleAndTally() returns (ghost s1: State, ghost n: nat)
      requires Consistent() && currentTetromino != null
      requires board.Placeable(ShapeOf(currentTetromino.kind, currentTetromino.rotation), currentTetromino.x, currentTetromino.y)
      modifies board, this`score, this`lines, this`level, this`dropInterval
      ensures board.Valid() && board.width == 10 && board.height == 20 && NoFullRow(board.grid)
      ensures QueueOk() && PiecesOk() && ProgressOk()
      ensures n == FullCount(LockedGrid(old(board.grid), currentTetromino.kind, currentTetromino.GetPose())) && n <= 4
      ensures s1 == Settle(old(Snapshot()), currentTetromino.kind, currentTetromino.GetPose())
      ensures Snapshot() == Tally(s1, n)
    {
      var linesCleared := SettlePiece();
      s1, n := Snapshot(), linesCleared;
      if linesCleared > 0 {
        TallyClear(linesCleared);
      }
    }

    /** The end of `lockTetromino`: the game ends when the board says so, and otherwise the next
        piece is spawned and the hold flag is cleared. */
    method FinishLock(choice: nat)
      requires board.Valid() && board.width == 10 && board.height == 20 && NoFullRow(board.grid)
      requires QueueOk() && PiecesOk() && ProgressOk() && currentTetromino != null && choice < |Kinds|
      modifies this`currentTetromino, this`nextTetrominos, this`gameOver, this`isRunning, this`hasSwapped
      ensures Valid()
      ensures board.gameOver ==> Snapshot() == old(Snapshot()).(gameOver := true, isRunning := false)
      ensures !board.gameOver ==>
        Spawned(old(Snapshot()), Snapshot().(hasSwapped := old(hasSwapped)), choice) && !hasSwapped
        && fresh(nextTetrominos[2])
    {
      if board.gameOver {
        EndGame();
        return;
      }
      SpawnAfterLock(choice);
    }

    /** FinishLock when the board is not over: the next piece comes in and may be held again. */
    method SpawnAfterLock(choice: nat)
      requires board.Valid() && board.width == 10 && board.height == 20 && NoFullRow(board.grid) && !board.gameOver
      requires QueueOk() && PiecesOk() && ProgressOk() && currentTetromino != null && choice < |Kinds|
      modifies this`currentTetromino, this`nextTetrominos, this`gameOver, this`isRunning, this`hasSwapped
      ensures Valid()
      ensures Spawned(old(Snapshot()), Snapshot().(hasSwapped := old(hasSwapped)), choice) && !hasSwapped
      ensures fresh(nextTetrominos[2])
    {
      GetNextTetromino(choice);
      hasSwapped := false;
    }

    /** The board part of `lockTetromino`: the active piece is placed and full rows are cleared. */
    method SettlePiece() returns (n: nat)
      requires board.Valid() && board.width == 10 && NoFullRow(board.grid)
      requires currentTetromino != null && currentTetromino.Valid()
      requires board.Placeable(ShapeOf(currentTetromino.kind, currentTetromino.rotation), currentTetromino.x, currentTetromino.y)
      modifies board
      ensures board.Valid() && NoFullRow(board.grid)
      ensures n == FullCount(LockedGrid(old(board.grid), currentTetromino.kind, currentTetromino.GetPose())) && n <= 4
      ensures Snapshot() == Settle(old(Snapshot()), currentTetromino.kind, currentTetromino.GetPose())
    {
      var t := currentTetromino;
      ghost var s := ShapeOf(t.kind, t.rotation);
      ghost var g0 := board.grid;
      var placed := board.PlaceTetromino(t);
      ghost var g1 := board.grid;
      if placed {
        ShapeBlocks(t.kind, t.rotation);
        StampCompletesAtMostFour(g0, s, t.x, t.y, ColorOf(t.kind));
      } else {
        ClearedWithoutFullRows(g0, 10);
      }
      n := board.ClearLines();
      ClearedHasNoFullRow(g1, 10);
    }

    /** The counters part of `lockTetromino`, run when the lock cleared rows. */
    method TallyClear(n: nat)
      requires 0 < n <= 4 && ProgressOk()
      modifies this`score, this`lines, this`level, this`dropInterval
      ensures ProgressOk()
      ensures Snapshot() == Tally(old(Snapshot()), n)
    {
      UpdateScore(n);
      lines := lines + n;
      CheckLevelUp();
      LevelForFacts(old(lines), lines);
    }

    /** `updateScore`, its arithmetic: a clear of n rows adds scorePerLine[n - 1] times the level. */
    method UpdateScore(n: nat)
      requires n <= |ScorePerLine| && level >= 1
      modifies this`score
      ensures score == old(score) + LineScore(n, level)
    {
      if n > 0 {
        score := score + ScorePerLine[n - 1] * level;
      }
    }

    /** `checkLevelUp`: the level rises to the one the cleared rows earn, never falls, and a rise
        resets the interval. */
    method CheckLevelUp()
      modifies this`level, this`dropInterval
      ensures level == Max(old(level), LevelFor(lines))
      ensures dropInterval == if level > old(level) then DropInterval(difficulty, level) else old(dropInterval)
    {
      var newLevel := LevelFor(lines);
      if newLevel > level {
        level := newLevel;
        SetDropInterval();
      }
    }

    /** `setDropInterval`, with the source's switch written out; the ensures ties it to
        DropInterval and BaseSpeed, which define the same speeds for the lemmas. */
    method SetDropInterval()
      modifies this`dropInterval
      ensures dropInterval == DropInterval(difficulty, level)
    {
      var baseSpeed: int;
      match difficulty {
        case Easy => baseSpeed := 1000;
        case Normal => baseSpeed := 800;
        case Hard => baseSpeed := 600;
        case Other(_) => baseSpeed := 800;
      }
      dropInterval := Max(100, baseSpeed - (level - 1) * 50);
    }

    /** `endGame`, its flags: the game is over and no longer running. */
    method EndGame()
      modifies this`gameOver, this`isRunning
      ensures gameOver && !isRunning
    {
      gameOver := true;
      isRunning := false;
    }

    /** `togglePause`: flips the pause flag, except once the game is over. */
    method TogglePause()
      requires Valid()
      modifies this`paused
      ensures Valid()
      ensures paused == if gameOver then old(paused) else !old(paused)
    {
      if gameOver {
        return;
      }
      paused := !paused;
    }

    /** `setDifficulty`: records the setting, and applies it at once only while a game runs. */
    method SetDifficulty(d: string)
      requires Valid()
      modifies this`difficulty, this`dropInterval
      ensures Valid() && DifficultyName(difficulty) == d
      ensures dropInterval == if isRunning then DropInterval(difficulty, level) else old(dropInterval)
    {
      difficulty := ParseDifficulty(d);
      if isRunning {
        SetDropInterval();
      }
    }

    /** `saveHighScore`, without the storage: the finished game's entry joins the ranking, which is
        sorted by non-increasing score and cut to its first ten entries. */
    method SaveHighScore(highScores: seq<Entry>, date: string) returns (top: seq<Entry>)
      ensures var all := highScores + [Entry(DefaultName, score, lines, level, date)];
        |top| == (if |all| < RankingSize then |all| else RankingSize)
        && top == SortByScore(all)[..|top|]
        && NonIncreasing(top)
        && multiset(top) <= multiset(all)
    {
      var all := highScores + [Entry(DefaultName, score, lines, level, date)];
      var sorted := SortByScore(all);
      SortByScoreFacts(all);
      top := if |sorted| < RankingSize then sorted else sorted[..RankingSize];
      assert sorted == top + sorted[|top|..];
      assert multiset(sorted) == multiset(top) + multiset(sorted[|top|..]);
    }
  }
}
