/**
 * The array-indexing game: a six-slot array, a cursor, and a target slot with a target item.
 * Placing the target item at the target index scores points; from the third success in a row
 * on, each success also earns 10 bonus points per full three of the streak. A wrong placement
 * or a countdown running out costs a life, and losing the last life ends the game until it is
 * started again.
 *
 * Randomness is injected: every transition that may draw a new target takes the drawn slot
 * `idx` and the drawn item `kind` (an index into `SushiTypes`) as parameters.
 */
module SushiGame {
  import opened Wrappers

  datatype Sushi = Sushi(name: string, points: nat)

  const SushiTypes: seq<Sushi> := [
    Sushi("Salmon Nigiri", 10),
    Sushi("Tuna Roll", 15),
    Sushi("Shrimp Tempura", 20),
    Sushi("California Roll", 12),
    Sushi("Dragon Roll", 25)
  ]

  const SlotCount: nat := 6
  const StartLives: nat := 3
  /** Seconds allowed for each target. */
  const RoundSeconds: nat := 30
  /** Bonus points for every full three of the current streak. */
  const StreakBonus: nat := 10

  /** A slot of the array: empty (the empty string in the component) or holding an item. */
  datatype Slot = Empty | Holds(sushi: Sushi)

  /** Every field of the game, as one value. */
  datatype Status = Status(
    slots: seq<Slot>,
    currentIndex: nat,
    score: nat,
    lives: nat,
    streak: nat,
    gameOver: bool,
    isPlaying: bool,
    timeLeft: nat,
    targetIndex: Option<nat>,
    targetSushi: Option<Sushi>)

  /** Whether a draw of target slot and item is one the random draw can produce. */
  predicate IsDraw(idx: nat, kind: nat)
  {
    idx < SlotCount && kind < |SushiTypes|
  }

  /**
   * The invariant every reachable state keeps: six slots, the cursor and target inside them,
   * one to three lives, a bounded countdown, never both playing and over, a target present
   * once a game has begun, and a finished game has one life and no streak.
   */
  predicate Consistent(s: Status)
  {
    && |s.slots| == SlotCount
    && s.currentIndex < SlotCount
    && 1 <= s.lives <= StartLives
    && s.timeLeft <= RoundSeconds
    && !(s.isPlaying && s.gameOver)
    && (s.targetIndex.Some? ==> s.targetIndex.value < SlotCount)
    && (s.targetSushi.Some? ==> s.targetSushi.value in SushiTypes)
    && (s.isPlaying || s.gameOver ==> s.targetIndex.Some? && s.targetSushi.Some?)
    && (s.gameOver ==> s.lives == 1 && s.streak == 0)
  }

  /** The state when the widget mounts. */
  function Initial(): (s: Status)
    ensures Consistent(s) && !s.isPlaying && !s.gameOver
    ensures forall k :: 0 <= k < |s.slots| ==> s.slots[k] == Empty
  {
    Status(seq(SlotCount, _ => Empty), 0, 0, StartLives, 0, false, false, RoundSeconds, None, None)
  }

  /** A correct placement: the game is on, the cursor slot is empty and the cursor is on the target. */
  predicate Hit(s: Status)
    requires Consistent(s)
  {
    s.isPlaying && !s.gameOver && s.slots[s.currentIndex] == Empty && s.targetIndex == Some(s.currentIndex)
  }

  /** A wrong placement: the game is on and the cursor slot is empty, but the cursor is off the target. */
  predicate Miss(s: Status)
    requires Consistent(s)
  {
    s.isPlaying && !s.gameOver && s.slots[s.currentIndex] == Empty && s.targetIndex != Some(s.currentIndex)
  }

  /** Points for a correct placement that brings the streak to `newStreak`. */
  function Award(points: nat, newStreak: nat): (a: nat)
    ensures a >= points
    ensures newStreak < 3 ==> a == points
    ensures 3 <= newStreak < 6 ==> a == points + StreakBonus
    ensures 6 <= newStreak < 9 ==> a == points + 2 * StreakBonus
  {
    points + (newStreak / 3) * StreakBonus
  }

  /** Draw a new target and restart the countdown. */
  function Retargeted(s: Status, idx: nat, kind: nat): (r: Status)
    requires IsDraw(idx, kind)
    ensures r.targetIndex == Some(idx) && r.targetSushi == Some(SushiTypes[kind])
    ensures r.timeLeft == RoundSeconds
    ensures r.(targetIndex := s.targetIndex, targetSushi := s.targetSushi, timeLeft := s.timeLeft) == s
  {
    s.(targetIndex := Some(idx), targetSushi := Some(SushiTypes[kind]), timeLeft := RoundSeconds)
  }

  /** Starting (or restarting) a game: everything resets except the cursor. */
  function Started(s: Status, idx: nat, kind: nat): (r: Status)
    requires Consistent(s) && IsDraw(idx, kind)
    ensures Consistent(r)
    ensures r.isPlaying && !r.gameOver
    ensures r.score == 0 && r.lives == StartLives && r.streak == 0 && r.timeLeft == RoundSeconds
    ensures |r.slots| == SlotCount && forall k :: 0 <= k < SlotCount ==> r.slots[k] == Empty
    ensures r.currentIndex == s.currentIndex
    ensures r.targetIndex == Some(idx) && r.targetSushi == Some(SushiTypes[kind])
  {
    var cleared := s.(isPlaying := true, gameOver := false, score := 0, lives := StartLives,
                      streak := 0, slots := seq(SlotCount, _ => Empty));
    Retargeted(cleared, idx, kind)
  }

  /**
   * Losing a life resets the streak. With more than one life left, one is taken and a new
   * target is drawn; with the last life the game ends and the lives count stays at one.
   */
  function LifeLost(s: Status, idx: nat, kind: nat): (r: Status)
    requires Consistent(s) && (s.isPlaying || s.gameOver) && IsDraw(idx, kind)
    ensures Consistent(r)
    ensures r.streak == 0
    ensures r.slots == s.slots && r.score == s.score && r.currentIndex == s.currentIndex
    ensures r.gameOver <==> s.lives == 1
    ensures r.isPlaying <==> s.lives > 1
    ensures r.lives == if s.lives == 1 then 1 else s.lives - 1
    ensures s.lives == 1 ==> r.timeLeft == s.timeLeft && r.targetIndex == s.targetIndex && r.targetSushi == s.targetSushi
    ensures s.lives > 1 ==> r.targetIndex == Some(idx) && r.targetSushi == Some(SushiTypes[kind]) && r.timeLeft == RoundSeconds
  {
    var newLives := s.lives - 1;
    if newLives == 0 then
      s.(streak := 0, gameOver := true, isPlaying := false)
    else
      Retargeted(s.(streak := 0, lives := newLives), idx, kind)
  }

  /** Moving the cursor left stops at slot 0. */
  function MovedLeft(s: Status): (r: Status)
    requires Consistent(s)
    ensures Consistent(r)
    ensures r.currentIndex == if s.currentIndex > 0 then s.currentIndex - 1 else 0
    ensures r.(currentIndex := s.currentIndex) == s
  {
    if s.currentIndex > 0 then s.(currentIndex := s.currentIndex - 1) else s
  }

  /** Moving the cursor right stops at the last slot. */
  function MovedRight(s: Status): (r: Status)
    requires Consistent(s)
    ensures Consistent(r)
    ensures r.currentIndex == if s.currentIndex < SlotCount - 1 then s.currentIndex + 1 else SlotCount - 1
    ensures r.(currentIndex := s.currentIndex) == s
  {
    if s.currentIndex < |s.slots| - 1 then s.(currentIndex := s.currentIndex + 1) else s
  }

  /**
   * Placing the target item at the cursor. Outside a running game, or on an occupied slot,
   * nothing happens. A correct placement fills only the cursor slot, extends the streak,
   * scores the item's points plus the streak bonus and draws a new target; a wrong one leaves
   * the slots alone and costs a life.
   */
  function Placed(s: Status, idx: nat, kind: nat): (r: Status)
    requires Consistent(s) && IsDraw(idx, kind)
    ensures Consistent(r)
    ensures r.score >= s.score && r.lives <= s.lives && r.currentIndex == s.currentIndex
    ensures |r.slots| == SlotCount
    ensures forall k :: 0 <= k < SlotCount && k != s.currentIndex ==> r.slots[k] == s.slots[k]
    ensures !Hit(s) && !Miss(s) ==> r == s
    ensures Hit(s) ==>
      && r.slots == s.slots[s.currentIndex := Holds(s.targetSushi.value)]
      && r.streak == s.streak + 1
      && r.score == s.score + Award(s.targetSushi.value.points, s.streak + 1)
      && r.lives == s.lives && r.isPlaying && !r.gameOver
      && r.targetIndex == Some(idx) && r.targetSushi == Some(SushiTypes[kind]) && r.timeLeft == RoundSeconds
    ensures Miss(s) ==> r == LifeLost(s, idx, kind)
  {
    if !s.isPlaying || s.gameOver then s
    else if s.slots[s.currentIndex] != Empty then s
    else if s.targetIndex == Some(s.currentIndex) then
      var sushi := s.targetSushi.value;
      var newStreak := s.streak + 1;
      var placed := s.(slots := s.slots[s.currentIndex := Holds(sushi)], streak := newStreak,
                       score := s.score + Award(sushi.points, newStreak));
      Retargeted(placed, idx, kind)
    else
      LifeLost(s, idx, kind)
  }

  /**
   * Clearing the cursor slot: only in a running game and only when the slot holds an item;
   * score, lives and streak never change.
   */
  function Removed(s: Status): (r: Status)
    requires Consistent(s)
    ensures Consistent(r)
    ensures r.(slots := s.slots) == s
    ensures |r.slots| == SlotCount
    ensures r.slots[s.currentIndex] == if s.isPlaying && !s.gameOver then Empty else s.slots[s.currentIndex]
    ensures forall k :: 0 <= k < SlotCount && k != s.currentIndex ==> r.slots[k] == s.slots[k]
  {
    if !s.isPlaying || s.gameOver then s
    else if s.slots[s.currentIndex] != Empty then s.(slots := s.slots[s.currentIndex := Empty])
    else s
  }

  /**
   * One second of the countdown: while a game runs with time left, the counter drops by one,
   * and when it reaches zero the timer effect takes a life.
   */
  function Ticked(s: Status, idx: nat, kind: nat): (r: Status)
    requires Consistent(s) && IsDraw(idx, kind)
    ensures Consistent(r)
    ensures !s.isPlaying || s.gameOver ==> r == s
    ensures s.isPlaying && s.timeLeft > 1 ==> r == s.(timeLeft := s.timeLeft - 1)
    ensures s.isPlaying && s.timeLeft == 1 ==> r == LifeLost(s.(timeLeft := 0), idx, kind)
    ensures r.score == s.score && r.slots == s.slots && r.currentIndex == s.currentIndex
    ensures s.isPlaying && s.timeLeft > 0 && r.timeLeft == 0 ==> r.gameOver
  {
    if s.isPlaying && s.timeLeft > 0 && !s.gameOver then
      var t := s.(timeLeft := s.timeLeft - 1);
      if t.timeLeft == 0 then LifeLost(t, idx, kind) else t
    else s
  }

  /**
   * The timer effect re-runs after every change of the countdown or of the game flags; once a
   * game has ended with the countdown at zero it calls loseLife again, and that changes nothing.
   */
  lemma EffectRerunAfterGameOverIsIdle(s: Status, idx: nat, kind: nat)
    requires Consistent(s) && s.gameOver && IsDraw(idx, kind)
    ensures LifeLost(s, idx, kind) == s
  {
  }

  /** Once over, the game accepts no placement, removal or tick until it is started again. */
  lemma GameOverIsTerminal(s: Status, idx: nat, kind: nat)
    requires Consistent(s) && s.gameOver && IsDraw(idx, kind)
    ensures Placed(s, idx, kind) == s && Removed(s) == s && Ticked(s, idx, kind) == s
  {
  }

  /** The bonus: the third success in a row earns ten extra points, the first and second none. */
  lemma ThirdHitEarnsBonus(s: Status, idx: nat, kind: nat)
    requires Consistent(s) && Hit(s) && IsDraw(idx, kind)
    ensures s.streak == 2 ==> Placed(s, idx, kind).score == s.score + s.targetSushi.value.points + 10
    ensures s.streak < 2 ==> Placed(s, idx, kind).score == s.score + s.targetSushi.value.points
  {
  }

  /**
   * From three lives, three wrong placements in a row (each new target again off the cursor)
   * end the game with one life left.
   */
  lemma ThreeMissesEndTheGame(s: Status, idx1: nat, kind1: nat, idx2: nat, kind2: nat, idx3: nat, kind3: nat)
    requires Consistent(s) && Miss(s) && s.lives == StartLives
    requires IsDraw(idx1, kind1) && IsDraw(idx2, kind2) && IsDraw(idx3, kind3)
    requires idx1 != s.currentIndex && idx2 != s.currentIndex
    ensures var s3 := Placed(Placed(Placed(s, idx1, kind1), idx2, kind2), idx3, kind3);
      s3.gameOver && !s3.isPlaying && s3.lives == 1 && s3.score == s.score && s3.slots == s.slots
  {
    var s1 := Placed(s, idx1, kind1);
    assert s1.lives == 2 && Miss(s1);
    var s2 := Placed(s1, idx2, kind2);
    assert s2.lives == 1 && Miss(s2);
  }

  // ---------------------------------------------------------------------------------------
  // The component: its fields updated in place by the handlers

  class Game {
    /** The six-slot array (`array` is a reserved word here). */
    var board: array<Slot>
    var currentIndex: nat
    var score: nat
    var lives: nat
    var gameOver: bool
    var isPlaying: bool
    var timeLeft: nat
    var targetIndex: Option<nat>
    var targetSushi: Option<Sushi>
    var streak: nat

    ghost function State(): Status
      reads this, board
    {
      Status(board[..], currentIndex, score, lives, streak, gameOver, isPlaying, timeLeft, targetIndex, targetSushi)
    }

    ghost predicate Valid()
      reads this, board
    {
      board.Length == SlotCount && Consistent(State())
    }

    constructor ()
      ensures Valid() && fresh(board)
      ensures State() == Initial()
    {
      board := new Slot[SlotCount](_ => Empty);
      currentIndex, score, lives, streak := 0, 0, StartLives, 0;
      gameOver, isPlaying, timeLeft := false, false, RoundSeconds;
      targetIndex, targetSushi := None, None;
    }

    method GenerateNewTarget(idx: nat, kind: nat)
      requires IsDraw(idx, kind)
      modifies this`targetIndex, this`targetSushi, this`timeLeft
      ensures State() == Retargeted(old(State()), idx, kind)
    {
      targetIndex := Some(idx);
      targetSushi := Some(SushiTypes[kind]);
      timeLeft := RoundSeconds;
    }

    method StartGame(idx: nat, kind: nat)
      requires Valid() && IsDraw(idx, kind)
      modifies this
      ensures Valid() && fresh(board)
      ensures State() == Started(old(State()), idx, kind)
    {
      isPlaying := true;
      gameOver := false;
      score := 0;
      lives := StartLives;
      streak := 0;
      board := new Slot[SlotCount](_ => Empty);
      GenerateNewTarget(idx, kind);
      timeLeft := RoundSeconds;
    }

    method LoseLife(idx: nat, kind: nat)
      requires Valid() && (isPlaying || gameOver) && IsDraw(idx, kind)
      modifies this
      ensures Valid() && board == old(board)
      ensures State() == LifeLost(old(State()), idx, kind)
    {
      var newLives := lives - 1;
      streak := 0;
      if newLives == 0 {
        gameOver := true;
        isPlaying := false;
      } else {
        lives := newLives;
        GenerateNewTarget(idx, kind);
      }
    }

    method MoveLeft()
      requires Valid()
      modifies this`currentIndex
      ensures Valid()
      ensures State() == MovedLeft(old(State()))
    {
      if currentIndex > 0 {
        currentIndex := currentIndex - 1;
      }
    }

    method MoveRight()
      requires Valid()
      modifies this`currentIndex
      ensures Valid()
      ensures State() == MovedRight(old(State()))
    {
      if currentIndex < board.Length - 1 {
        currentIndex := currentIndex + 1;
      }
    }

    method PlaceSushi(idx: nat, kind: nat)
      requires Valid() && IsDraw(idx, kind)
      modifies this, board
      ensures Valid() && board == old(board)
      ensures State() == Placed(old(State()), idx, kind)
    {
      if !isPlaying || gameOver {
        return;
      }
      if board[currentIndex] == Empty {
        if Some(currentIndex) == targetIndex {
          board[currentIndex] := Holds(targetSushi.value);
          var newStreak := streak + 1;
          streak := newStreak;
          score := score + Award(targetSushi.value.points, newStreak);
          GenerateNewTarget(idx, kind);
        } else {
          LoseLife(idx, kind);
        }
      }
    }

    method RemoveSushi()
      requires Valid()
      modifies board
      ensures Valid()
      ensures State() == Removed(old(State()))
    {
      if !isPlaying || gameOver {
        return;
      }
      if board[currentIndex] != Empty {
        board[currentIndex] := Empty;
      }
    }

    /** The countdown interval firing once, followed by the timer effect re-running. */
    method Tick(idx: nat, kind: nat)
      requires Valid() && IsDraw(idx, kind)
      modifies this
      ensures Valid() && board == old(board)
      ensures State() == Ticked(old(State()), idx, kind)
    {
      if isPlaying && timeLeft > 0 && !gameOver {
        timeLeft := timeLeft - 1;
        if timeLeft == 0 {
          LoseLife(idx, kind);
        }
      }
    }
  }

  /**
   * A run of the component: three correct placements in a row of the 10-point item at slots
   * 0, 1 and 2 score 10, 10 and 10 + 10.
   */
  method StreakRun() returns (score: nat, streak: nat, lives: nat)
    ensures score == 40 && streak == 3 && lives == StartLives
  {
    var g := new Game();
    g.StartGame(0, 0);
    g.PlaceSushi(1, 0);
    g.MoveRight();
    g.PlaceSushi(2, 0);
    g.MoveRight();
    g.PlaceSushi(3, 0);
    score, streak, lives := g.score, g.streak, g.lives;
  }
}
