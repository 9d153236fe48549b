/**
  Scoring and level progression of a line clear, as a pure function of the
  counters the game engine keeps (score, combo count, back-to-back flag, total
  lines, level, level-up flag and fall delay).
*/
module Scoring {

  /** The counters a line clear reads and updates. */
  datatype ClearStats = ClearStats(
    score: int,
    comboCount: nat,
    lastClearWasTetris: bool,
    linesClearedTotal: int,
    level: int,
    levelUp: bool,
    fallDelay: int)

  /** Points for clearing n lines at once: 100, 300, 500, 800 for 1 to 4, nothing otherwise. */
  function LineScore(n: nat): (pts: nat)
    ensures pts == 0 <==> !(1 <= n <= 4)
    ensures 1 <= n <= 4 ==> pts >= 100 * n
  {
    if n == 1 then 100
    else if n == 2 then 300
    else if n == 3 then 500
    else if n == 4 then 800
    else 0
  }

  /** Clearing more lines at once is worth strictly more. */
  lemma LineScoreIncreasing(n: nat, m: nat)
    requires 1 <= n < m <= 4
    ensures LineScore(n) < LineScore(m)
  {
  }

  /**
    The delay between automatic drops at a level, in hundredths of a second:
    half a second at level 1, five hundredths less per level, never below a tenth.
  */
  function FallDelay(level: int): (d: int)
    ensures d >= 10
    ensures level >= 1 ==> d <= 50
    ensures level >= 9 ==> d == 10
    ensures 1 <= level <= 9 ==> d == 50 - 5 * (level - 1)
  {
    var raw := 50 - 5 * (level - 1);
    if raw < 10 then 10 else raw
  }

  /** A higher level never falls more slowly. */
  lemma FallDelayMonotone(a: int, b: int)
    requires a <= b
    ensures FallDelay(b) <= FallDelay(a)
  {
  }

  /** The level is one more than the tens of lines cleared, and the delay follows the level. */
  predicate LevelConsistent(st: ClearStats) {
    st.level == 1 + st.linesClearedTotal / 10 && st.fallDelay == FallDelay(st.level)
  }

  /** The counters of a fresh game started at a level. */
  function StartStats(startLevel: int): (st: ClearStats)
    ensures LevelConsistent(st) && st.level == startLevel
    ensures st.score == 0 && st.comboCount == 0 && !st.lastClearWasTetris && !st.levelUp
  {
    ClearStats(0, 0, false, (startLevel - 1) * 10, startLevel, false, FallDelay(startLevel))
  }

  /**
    The effect of one clear of n lines. No line only resets the back-to-back
    flag. Otherwise the points for n lines plus fifty per earlier clear in the
    combo are added, plus 400 when this and the previous clear were both four
    lines; the combo grows, the total grows by n, the level is recomputed from
    the total, and a rise in level raises the level-up flag.
  */
  function ApplyClear(st: ClearStats, n: nat): (r: ClearStats)
    ensures n == 0 ==> r == st.(lastClearWasTetris := false)
    ensures n > 0 ==> r.comboCount == st.comboCount + 1 && r.lastClearWasTetris == (n == 4)
    ensures n > 0 ==> r.linesClearedTotal == st.linesClearedTotal + n
    ensures n > 0 ==> r.level == 1 + r.linesClearedTotal / 10 && r.fallDelay == FallDelay(r.level)
    ensures n > 0 ==> (r.levelUp <==> st.levelUp || r.level > st.level)
    ensures LevelConsistent(st) ==> LevelConsistent(r) && r.level >= st.level
    ensures r.score >= st.score + LineScore(n)
    ensures r.score - st.score == (if n == 0 then 0
      else LineScore(n) + 50 * st.comboCount + (if n == 4 && st.lastClearWasTetris then 400 else 0))
  {
    if n == 0 then st.(lastClearWasTetris := false)
    else
      var gain := LineScore(n) + 50 * st.comboCount;
      var bonus := if n == 4 && st.lastClearWasTetris then 400 else 0;
      var total := st.linesClearedTotal + n;
      var newLevel := 1 + total / 10;
      ClearStats(st.score + gain + bonus, st.comboCount + 1, n == 4, total, newLevel,
        st.levelUp || newLevel > st.level, FallDelay(newLevel))
  }

  /** A run of clears applied one after another. */
  function ApplyClears(st: ClearStats, ns: seq<nat>): ClearStats
    decreases |ns|
  {
    if ns == [] then st else ApplyClears(ApplyClear(st, ns[0]), ns[1..])
  }

  function Sum(ns: seq<nat>): nat
    decreases |ns|
  {
    if ns == [] then 0 else ns[0] + Sum(ns[1..])
  }

  /**
    Over any run of clears the level stays consistent with the total and never
    drops, the total grows by exactly the lines cleared, and the score never drops.
  */
  lemma {:induction false} ClearsProgress(st: ClearStats, ns: seq<nat>)
    requires LevelConsistent(st)
    ensures var r := ApplyClears(st, ns);
      LevelConsistent(r) && r.level >= st.level && r.score >= st.score &&
      r.linesClearedTotal == st.linesClearedTotal + Sum(ns)
    decreases |ns|
  {
    if ns != [] {
      ClearsProgress(ApplyClear(st, ns[0]), ns[1..]);
    }
  }

  /** k clears of one line each, one after another. */
  function Singles(k: nat): (ns: seq<nat>)
    ensures |ns| == k && forall i :: 0 <= i < k ==> ns[i] == 1
  {
    seq(k, _ => 1)
  }

  /**
    A run of k single-line clears starting at combo c earns 100 per line plus
    the growing combo bonus 50 * (c + (c + 1) + ... + (c + k - 1)).
  */
  lemma {:induction false} ComboRun(st: ClearStats, k: nat)
    ensures var r := ApplyClears(st, Singles(k));
      r.comboCount == st.comboCount + k &&
      2 * (r.score - st.score) == 200 * k + 50 * (2 * st.comboCount * k + k * (k - 1))
    decreases k
  {
    if k > 0 {
      var next := ApplyClear(st, 1);
      assert Singles(k)[1..] == Singles(k - 1);
      ComboRun(next, k - 1);
      ComboStep(st.comboCount, k, ApplyClears(st, Singles(k)).score - next.score);
    }
  }

  /** The arithmetic of one more clear in a combo run: a first clear worth 100 + 50 * c joined to a run of k - 1 from combo c + 1. */
  lemma ComboStep(c: int, k: int, d: int)
    requires k >= 1 && 2 * d == 200 * (k - 1) + 50 * (2 * (c + 1) * (k - 1) + (k - 1) * (k - 2))
    ensures 2 * (d + 100 + 50 * c) == 200 * k + 50 * (2 * c * k + k * (k - 1))
  {
    var j := k - 1;
    assert (c + 1) * j == c * j + j;
    assert j * (j - 1) == j * j - j;
    assert k * (k - 1) == (j + 1) * j;
    assert (j + 1) * j == j * j + j;
    assert c * k == c * j + c;
  }

  /** Two four-line clears in a row from a fresh combo earn 800, then 800 + 50 + 400. */
  lemma BackToBackTetris(st: ClearStats)
    requires st.comboCount == 0 && !st.lastClearWasTetris
    ensures ApplyClear(st, 4).score == st.score + 800
    ensures ApplyClear(ApplyClear(st, 4), 4).score == st.score + 800 + 1250
  {
  }

  /** A clear of fewer than four lines breaks a back-to-back chain. */
  lemma NonTetrisBreaksChain(st: ClearStats, n: nat)
    requires n != 4
    ensures !ApplyClear(st, n).lastClearWasTetris
    ensures ApplyClear(ApplyClear(st, n), 4).score - ApplyClear(st, n).score == 800 + 50 * ApplyClear(st, n).comboCount
  {
  }

  /**
    Ten single-line clears starting on a multiple of ten lines (a fresh game
    at any level, say) raise the level by one, set the level-up flag and give
    the new level's delay, which is shorter until the floor is reached at level 9.
  */
  lemma TenLinesLevelUp(st: ClearStats)
    requires LevelConsistent(st) && st.linesClearedTotal % 10 == 0
    ensures var r := ApplyClears(st, Singles(10));
      r.level == st.level + 1 && r.levelUp && r.fallDelay == FallDelay(st.level + 1) &&
      (1 <= st.level < 9 ==> r.fallDelay < st.fallDelay)
  {
    var ns := Singles(10);
    ClearsProgress(st, ns);
    SumOfSingles(10);
    LevelUpStays(st, ns);
  }

  /**
    Starting on a multiple of ten lines, the level rises by the number of
    whole tens of lines cleared.
  */
  lemma LevelAfterLines(st: ClearStats, ns: seq<nat>)
    requires LevelConsistent(st) && st.linesClearedTotal % 10 == 0
    ensures ApplyClears(st, ns).level == st.level + Sum(ns) / 10
  {
    ClearsProgress(st, ns);
    var q := st.linesClearedTotal / 10;
    assert st.linesClearedTotal == 10 * q;
    assert (10 * q + Sum(ns)) / 10 == q + Sum(ns) / 10;
  }

  /**
    A game started at some level is k levels higher after 10 * k single-line
    clears: from level 1, level 2 after ten and level 3 after twenty.
  */
  lemma LevelsFromStart(startLevel: int, k: nat)
    ensures ApplyClears(StartStats(startLevel), Singles(10 * k)).level == startLevel + k
  {
    var st, ns := StartStats(startLevel), Singles(10 * k);
    SumOfSingles(10 * k);
    LevelAfterLines(st, ns);
  }

  lemma {:induction false} SumOfSingles(k: nat)
    ensures Sum(Singles(k)) == k
    decreases k
  {
    if k > 0 {
      assert Singles(k)[1..] == Singles(k - 1);
      SumOfSingles(k - 1);
    }
  }

  /**
    Once the level has risen during a run of clears the level-up flag is set
    at the end of it: the flag is only ever raised by a clear, never lowered.
  */
  lemma {:induction false} LevelUpStays(st: ClearStats, ns: seq<nat>)
    requires LevelConsistent(st)
    ensures var r := ApplyClears(st, ns);
      (st.levelUp || r.level > st.level) ==> r.levelUp
    decreases |ns|
  {
    if ns != [] {
      var next := ApplyClear(st, ns[0]);
      LevelUpStays(next, ns[1..]);
      ClearsProgress(next, ns[1..]);
    }
  }
}
