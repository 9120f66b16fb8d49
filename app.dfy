/** The 60-second variant of the game (App.tsx, with the records of types.ts).
    The round lives in one `GameState` record that the handlers replace through
    updater functions; the countdown and the grid of holes are separate pieces
    of state. The pure updaters are functions here; the component that owns the
    state is the class `Game`, whose methods are the handlers and timer callbacks. */
module App {
  import opened Crew

  const GAME_DURATION: int := 60
  const INITIAL_COUNTDOWN: int := 3
  const FEEDBACK_DURATION: real := 300.0

  /** The `GameState` record of types.ts. */
  datatype GameState = GameState(score: int, highScore: int, timeLeft: int, status: Status, isNewHighScore: bool)

  /** The record the component starts with, given the best score read from storage. */
  function InitialState(storedHighScore: int): (g: GameState)
    ensures 0 <= storedHighScore ==> Consistent(g) && g.status == Idle && !g.isNewHighScore
    ensures g.highScore == storedHighScore
  {
    GameState(0, storedHighScore, GAME_DURATION, Idle, false)
  }

  /** What holds of every record the handlers can produce. Before play the round is
      fresh; while playing the clock shows at least one second; an ended round has its
      clock at zero and its score folded into the best score; the "new best" flag is
      only ever up in an ended round whose score became the best score. */
  ghost predicate Consistent(g: GameState) {
    0 <= g.score && 0 <= g.highScore && 0 <= g.timeLeft <= GAME_DURATION &&
    ((g.status == Idle || g.status == Counting) ==> g.score == 0 && g.timeLeft == GAME_DURATION) &&
    (g.status == Playing ==> 1 <= g.timeLeft) &&
    (g.status == Ended ==> g.timeLeft == 0 && g.score <= g.highScore) &&
    (g.isNewHighScore ==> g.status == Ended && g.highScore == g.score && 0 < g.score)
  }

  // ---------------------------------------------------------------------------
  // Round lifecycle: the updaters passed to setGameState
  // ---------------------------------------------------------------------------

  /** startGame's updater: a fresh round in the counting status. */
  function Started(g: GameState): (r: GameState)
    ensures 0 <= g.highScore ==> Consistent(r)
    ensures r.status == Counting && r.score == 0 && r.timeLeft == GAME_DURATION
    ensures r.highScore == g.highScore && !r.isNewHighScore
  {
    g.(score := 0, timeLeft := GAME_DURATION, status := Counting, isNewHighScore := false)
  }

  /** quitGame's updater: back to idle with a fresh score and clock. */
  function Quitted(g: GameState): (r: GameState)
    ensures Consistent(g) && (g.status == Counting || g.status == Playing) ==> Consistent(r)
    ensures r.status == Idle && r.score == 0 && r.timeLeft == GAME_DURATION
    ensures r.highScore == g.highScore && r.isNewHighScore == g.isNewHighScore
  {
    g.(status := Idle, score := 0, timeLeft := GAME_DURATION)
  }

  /** endGame's updater: the round ends and its score is compared with the best score. */
  function EndGame(g: GameState): (r: GameState)
    ensures r.status == Ended && r.score == g.score && r.timeLeft == g.timeLeft
    ensures r.highScore == MaxInt(g.score, g.highScore)
    ensures r.isNewHighScore <==> g.score > g.highScore
  {
    var isNew := g.score > g.highScore;
    g.(status := Ended, highScore := if isNew then g.score else g.highScore, isNewHighScore := isNew)
  }

  /** The pre-round countdown's updater, together with the status change it makes
      on its last tick. */
  function CountdownStep(g: GameState, c: int): (r: (GameState, int))
    ensures 0 <= r.1 < MaxInt(c, 1)
    ensures 1 < c ==> r.1 == c - 1
    ensures r.0.status == Playing <==> c <= 1 || g.status == Playing
    ensures r.0.timeLeft == g.timeLeft && r.0.score == g.score && r.0.highScore == g.highScore
  {
    match TickDown(c)
      case Expire => (g.(status := Playing), 0)
      case Continue(next) => (g, next)
  }

  /** The round clock's updater: one second less, or, on the last second, the
      clock pinned to zero followed by endGame. */
  function ClockStep(g: GameState): (r: GameState)
    ensures 0 <= r.timeLeft
    ensures r.status == Ended <==> g.timeLeft <= 1 || g.status == Ended
    ensures r.score == g.score && g.highScore <= r.highScore
    ensures Consistent(g) && g.status == Playing ==> Consistent(r)
  {
    match TickDown(g.timeLeft)
      case Expire => EndGame(g.(timeLeft := 0))
      case Continue(t) => g.(timeLeft := t)
  }

  /** `n` ticks of the countdown in a row. */
  function Countdowns(g: GameState, c: int, n: nat): (GameState, int)
    decreases n
  {
    if n == 0 then (g, c)
    else var (g', c') := CountdownStep(g, c); Countdowns(g', c', n - 1)
  }

  /** `n` ticks of the round clock in a row. */
  function Clocks(g: GameState, n: nat): GameState
    decreases n
  {
    if n == 0 then g else Clocks(ClockStep(g), n - 1)
  }

  /** A countdown at `c >= 1` keeps the round counting for `c - 1` ticks and starts play
      on its `c`-th tick, without touching the record's other fields. */
  lemma {:induction false} CountdownRun(g: GameState, c: int, n: nat)
    requires 1 <= c && g.status == Counting
    ensures Countdowns(g, c, n) == if n < c then (g, c - n) else (g.(status := Playing), 0)
  {
    if n > 0 {
      if c > 1 {
        CountdownRun(g, c - 1, n - 1);
      } else {
        AfterPlay(g.(status := Playing), n - 1);
      }
    }
  }

  /** A helper for CountdownRun: the source clears the interval on its last tick, so
      these further ticks never fire; the lemma only lets the run be stated for any `n`. */
  lemma {:induction false} AfterPlay(g: GameState, n: nat)
    requires g.status == Playing
    ensures Countdowns(g, 0, n) == (g, 0)
  {
    if n > 0 {
      AfterPlay(g, n - 1);
    }
  }

  /** While playing, the clock goes down one second per tick and the round ends on
      exactly the tick that finds one second left. */
  lemma {:induction false} ClockRun(g: GameState, n: nat)
    requires g.status == Playing && 1 <= g.timeLeft && n <= g.timeLeft
    ensures Clocks(g, n) == if n < g.timeLeft then g.(timeLeft := g.timeLeft - n)
                            else EndGame(g.(timeLeft := 0))
    decreases n
  {
    if n > 0 && g.timeLeft > 1 {
      ClockRun(g.(timeLeft := g.timeLeft - 1), n - 1);
    }
  }

  /** A round from its start: three countdown ticks bring it to play with the full
      minute left, and sixty clock ticks later it has ended. */
  lemma RoundTimeline(g: GameState)
    requires 0 <= g.highScore
    ensures var (p, c) := Countdowns(Started(g), INITIAL_COUNTDOWN, 2);
            p.status == Counting && c == 1
    ensures var (p, c) := Countdowns(Started(g), INITIAL_COUNTDOWN, 3);
            p.status == Playing && p.timeLeft == GAME_DURATION && c == 0 &&
            Clocks(p, GAME_DURATION - 1).status == Playing &&
            Clocks(p, GAME_DURATION).status == Ended && Clocks(p, GAME_DURATION).timeLeft == 0
  {
    var s := Started(g);
    CountdownRun(s, INITIAL_COUNTDOWN, 2);
    CountdownRun(s, INITIAL_COUNTDOWN, 3);
    var p := s.(status := Playing);
    ClockRun(p, GAME_DURATION - 1);
    ClockRun(p, GAME_DURATION);
  }

  /** Start and quit agree on everything but the status and the "new best" flag. */
  lemma StartVersusQuit(g: GameState)
    ensures Started(g) == Quitted(g).(status := Counting, isNewHighScore := false)
    ensures Started(g).highScore == Quitted(g).highScore == g.highScore
  {
  }

  /** The two end-of-round outcomes: a score of 7 over a best of 5 becomes the new
      best; a score of 3 leaves the best of 5 alone. */
  lemma EndGameExamples()
    ensures var r := EndGame(GameState(7, 5, 0, Playing, false));
            r.highScore == 7 && r.isNewHighScore && r.score == 7
    ensures var r := EndGame(GameState(3, 5, 0, Playing, false));
            r.highScore == 5 && !r.isNewHighScore && r.score == 3
  {
  }

  // ---------------------------------------------------------------------------
  // The grid: the rewrites passed to setMoles
  // ---------------------------------------------------------------------------

  /** `moles.map(m => ({ ...m, active: false, feedback: null }))`. */
  function ResetHoles(s: seq<Hole>): (r: seq<Hole>)
    ensures |r| == |s| && Quiet(r)
    ensures forall i :: 0 <= i < |s| ==> r[i].id == s[i].id && r[i].color == s[i].color
    ensures ActiveCount(r) == 0
  {
    var r := seq(|s|, i requires 0 <= i < |s| => s[i].(active := false, feedback := NoFeedback));
    ActiveCountZero(r);
    r
  }

  /** The positions of the hidden holes, in increasing order:
      `prevMoles.map((m, i) => (!m.active ? i : -1)).filter(i => i !== -1)`. */
  function InactiveIndices(s: seq<Hole>): (r: seq<int>)
    ensures forall k :: 0 <= k < |r| ==> 0 <= r[k] < |s|
  {
    if s == [] then []
    else InactiveIndices(s[..|s| - 1]) + (if s[|s| - 1].active then [] else [|s| - 1])
  }

  /** The list holds exactly the hidden holes' positions, each once and in order, so
      it is empty exactly when every crewmate shows. */
  lemma InactiveIndicesSpec(s: seq<Hole>)
    ensures var r := InactiveIndices(s);
            (forall k :: 0 <= k < |r| ==> !s[r[k]].active) &&
            (forall i :: 0 <= i < |s| && !s[i].active ==> i in r) &&
            (forall j, k :: 0 <= j < k < |r| ==> r[j] < r[k]) &&
            |r| == |s| - ActiveCount(s)
  {
    InactiveIndicesOrdered(s);
    InactiveIndicesComplete(s);
  }

  /** Every listed position is hidden, and the positions increase. */
  lemma {:induction false} InactiveIndicesOrdered(s: seq<Hole>)
    ensures forall k :: 0 <= k < |InactiveIndices(s)| ==> !s[InactiveIndices(s)[k]].active
    ensures forall j, k :: 0 <= j < k < |InactiveIndices(s)| ==> InactiveIndices(s)[j] < InactiveIndices(s)[k]
  {
    if s != [] {
      var front := s[..|s| - 1];
      InactiveIndicesOrdered(front);
      var r := InactiveIndices(front);
      assert forall k :: 0 <= k < |r| ==> r[k] < |front| && front[r[k]] == s[r[k]];
      var all := InactiveIndices(s);
      if !s[|s| - 1].active {
        assert all == r + [|s| - 1];
        assert forall k :: 0 <= k < |r| ==> all[k] == r[k];
      } else {
        assert all == r;
      }
    }
  }

  /** Every hidden position is listed, and the list has one entry per hidden hole. */
  lemma {:induction false} InactiveIndicesComplete(s: seq<Hole>)
    ensures var r := InactiveIndices(s);
            (forall i :: 0 <= i < |s| && !s[i].active ==> i in r) &&
            |r| == |s| - ActiveCount(s)
  {
    if s != [] {
      var front := s[..|s| - 1];
      InactiveIndicesComplete(front);
      assert forall i :: 0 <= i < |front| ==> front[i] == s[i];
    }
  }

  /** spawnMole's write `newMoles[randomIndex] = { ...newMoles[randomIndex], active: true, color, feedback: null }`. */
  function Spawned(s: seq<Hole>, i: int, color: string): (r: seq<Hole>)
    requires 0 <= i < |s|
    ensures |r| == |s| && r[i].id == s[i].id
    ensures r[i].active && r[i].color == color && r[i].feedback == NoFeedback
    ensures forall j :: 0 <= j < |s| && j != i ==> r[j] == s[j]
  {
    s[i := s[i].(active := true, color := color, feedback := NoFeedback)]
  }

  /** Spawning on a hidden hole shows exactly that one crewmate, with no feedback:
      the count of showing crewmates rises by one and every other hole is as it was. */
  lemma SpawnShowsOne(s: seq<Hole>, i: int, color: string)
    requires WellFormed(s) && 0 <= i < |s| && !s[i].active && color in CREWMATE_COLORS
    ensures var r := Spawned(s, i, color);
            WellFormed(r) && r[i].active && r[i].feedback == NoFeedback && r[i].color == color &&
            (forall j :: 0 <= j < |s| && j != i ==> r[j] == s[j]) &&
            ActiveCount(r) == ActiveCount(s) + 1
  {
    ActiveCountUpdate(s, i, s[i].(active := true, color := color, feedback := NoFeedback));
  }

  /** The auto-hide rewrite `currMoles.map((m, i) => i === randomIndex ? { ...m, active: false } : m)`. */
  function Hidden(s: seq<Hole>, i: int): (r: seq<Hole>)
    ensures |r| == |s|
    ensures forall j :: 0 <= j < |s| ==>
              r[j].active == (s[j].active && j != i) &&
              r[j].id == s[j].id && r[j].color == s[j].color && r[j].feedback == s[j].feedback
  {
    seq(|s|, j requires 0 <= j < |s| => if j == i then s[j].(active := false) else s[j])
  }

  /** Auto-hide hides its own hole and nothing else; on a hole already hidden (a crewmate
      that was whacked) it changes nothing. */
  lemma HideEffect(s: seq<Hole>, i: int)
    requires WellFormed(s) && 0 <= i < |s|
    ensures var r := Hidden(s, i);
            WellFormed(r) && !r[i].active && r[i].feedback == s[i].feedback &&
            (forall j :: 0 <= j < |s| && j != i ==> r[j] == s[j]) &&
            ActiveCount(r) == ActiveCount(s) - (if s[i].active then 1 else 0) &&
            (!s[i].active ==> r == s)
  {
    HiddenAt(s, i);
    ActiveCountUpdate(s, i, s[i].(active := false));
    if !s[i].active {
      assert s[i].(active := false) == s[i];
    }
  }

  lemma HiddenAt(s: seq<Hole>, i: int)
    requires 0 <= i < |s|
    ensures Hidden(s, i) == s[i := s[i].(active := false)]
  {
  }

  // ---------------------------------------------------------------------------
  // Difficulty curve
  // ---------------------------------------------------------------------------

  /** The spawn interval in milliseconds: `Math.max(400, timeLeft / 60 * 1200)`. */
  function SpawnRate(timeLeft: int): (ms: real)
    ensures 400.0 <= ms
    ensures ms == MaxReal(400.0, 20.0 * timeLeft as real)
    ensures 0 <= timeLeft <= GAME_DURATION ==> ms <= 1200.0
  {
    MaxReal(400.0, timeLeft as real / GAME_DURATION as real * 1200.0)
  }

  /** `Math.max(0.4, timeLeft / 60)`. */
  function DifficultyMultiplier(timeLeft: int): (m: real)
    ensures 0.4 <= m
  {
    MaxReal(0.4, timeLeft as real / GAME_DURATION as real)
  }

  /** How long a spawned crewmate shows, given the draw `jitter` of `Math.random()`:
      `(Math.random() * 800 + 700) * difficultyMultiplier`. */
  function ShowDuration(timeLeft: int, jitter: real): (ms: real)
    requires 0.0 <= jitter < 1.0
    ensures 280.0 <= ms
    ensures ms < 1500.0 * DifficultyMultiplier(timeLeft)
  {
    var m := DifficultyMultiplier(timeLeft);
    var base := jitter * 800.0 + 700.0;
    assert base * m < 1500.0 * m by { ScaleLt(base, 1500.0, m); }
    assert 280.0 <= base * m by { ScaleLe(0.4, m, 700.0); ScaleLe(700.0, base, m); }
    base * m
  }

  lemma ScaleLt(a: real, b: real, m: real)
    requires a < b && 0.0 < m
    ensures a * m < b * m
  {
  }

  lemma ScaleLe(a: real, b: real, m: real)
    requires a <= b && 0.0 <= m
    ensures a * m <= b * m && m * a <= m * b
  {
  }

  /** The spawn interval shrinks as the round runs down (less time left, shorter interval). */
  lemma SpawnRateMonotone(t1: int, t2: int)
    requires t1 <= t2
    ensures SpawnRate(t1) <= SpawnRate(t2)
  {
  }

  /** For the same draw, a crewmate shows no longer later in the round than earlier. */
  lemma ShowDurationMonotone(t1: int, t2: int, jitter: real)
    requires t1 <= t2 && 0.0 <= jitter < 1.0
    ensures ShowDuration(t1, jitter) <= ShowDuration(t2, jitter)
  {
    ScaledMono(jitter * 800.0 + 700.0, DifficultyMultiplier(t1), DifficultyMultiplier(t2),
               ShowDuration(t1, jitter), ShowDuration(t2, jitter));
  }

  lemma ScaledMono(b: real, m1: real, m2: real, d1: real, d2: real)
    requires 0.0 <= b && m1 <= m2 && d1 == b * m1 && d2 == b * m2
    ensures d1 <= d2
  {
    ScaleLe(m1, m2, b);
  }

  // ---------------------------------------------------------------------------
  // The clock display
  // ---------------------------------------------------------------------------

  /** The character of one decimal digit. */
  function Digit(d: nat): (c: char)
    requires d < 10
    ensures '0' <= c <= '9'
  {
    ('0' as int + d) as char
  }

  /** `${n}` for a non-negative whole number: its decimal digits, without leading zeros. */
  function Decimal(n: nat): (s: string)
    ensures 1 <= |s| && forall k :: 0 <= k < |s| ==> '0' <= s[k] <= '9'
    ensures n < 10 ==> |s| == 1
    ensures 10 <= n < 100 ==> |s| == 2
    decreases n
  {
    if n < 10 then [Digit(n)] else Decimal(n / 10) + [Digit(n % 10)]
  }

  /** A positive number prints without a leading zero. */
  lemma {:induction false} DecimalNoLeadingZero(n: nat)
    requires 1 <= n
    ensures Decimal(n)[0] != '0'
    decreases n
  {
    if n >= 10 {
      DecimalNoLeadingZero(n / 10);
    }
  }

  /** `.padStart(2, '0')`. */
  function PadStart2(s: string): (r: string)
    ensures |r| == MaxInt(|s|, 2)
    ensures forall k :: 0 <= k < |r| ==> r[k] == if k < |r| - |s| then '0' else s[k - (|r| - |s|)]
  {
    if |s| >= 2 then s else seq(2 - |s|, _ => '0') + s
  }

  /** formatTime: minutes, a colon, and the seconds padded to two digits. */
  function FormatTime(seconds: int): (t: string)
    requires 0 <= seconds
    ensures 4 <= |t| && t[|t| - 3] == ':'
    ensures forall k :: 0 <= k < |t| && k != |t| - 3 ==> '0' <= t[k] <= '9'
  {
    var mins := seconds / 60;
    var secs := seconds % 60;
    Decimal(mins) + ":" + PadStart2(Decimal(secs))
  }

  /** Reads back a string of decimal digits. */
  function ParseDecimal(s: string): nat {
    if s == [] then 0
    else ParseDecimal(s[..|s| - 1]) * 10 + (if '0' <= s[|s| - 1] <= '9' then s[|s| - 1] as int - '0' as int else 0)
  }

  /** Reads back a displayed time `M:SS` as a number of seconds. */
  function ParseTime(t: string): int
    requires 3 <= |t|
  {
    ParseDecimal(t[..|t| - 3]) * 60 + ParseDecimal(t[|t| - 2..])
  }

  lemma {:induction false} DecimalRoundTrip(n: nat)
    ensures ParseDecimal(Decimal(n)) == n
  {
    if n >= 10 {
      var s := Decimal(n);
      assert s[..|s| - 1] == Decimal(n / 10);
      DecimalRoundTrip(n / 10);
    }
  }

  /** The display loses nothing: the seconds can be read back from it. */
  lemma FormatTimeRoundTrip(seconds: int)
    requires 0 <= seconds
    ensures ParseTime(FormatTime(seconds)) == seconds
  {
    var mins, secs := seconds / 60, seconds % 60;
    PaddedSeconds(secs);
    DecimalRoundTrip(mins);
    ParseTimeSplit(Decimal(mins), PadStart2(Decimal(secs)));
  }

  /** Reading back `m:ss` reads the minutes before the colon and the seconds after it. */
  lemma ParseTimeSplit(m: string, p: string)
    requires |p| == 2
    ensures ParseTime(m + ":" + p) == ParseDecimal(m) * 60 + ParseDecimal(p)
  {
    ColonSplit(m, p);
  }

  /** `m:ss` splits back into `m` and `ss` around the colon. */
  lemma ColonSplit(m: string, p: string)
    requires |p| == 2
    ensures var t := m + ":" + p; t[..|t| - 3] == m && t[|t| - 2..] == p
    ensures var t := m + ":" + p;
            ParseDecimal(t[..|t| - 3]) == ParseDecimal(m) && ParseDecimal(t[|t| - 2..]) == ParseDecimal(p)
  {
    var t := m + ":" + p;
    assert t[..|t| - 3] == m;
    assert t[|t| - 2..] == p;
  }

  /** The display splits as promised: before the colon the whole minutes, after it
      the remaining seconds, always below a minute and always two digits. */
  lemma FormatTimeSplit(seconds: int)
    requires 0 <= seconds
    ensures var t := FormatTime(seconds);
            |t[|t| - 2..]| == 2 &&
            ParseDecimal(t[..|t| - 3]) == seconds / 60 &&
            ParseDecimal(t[|t| - 2..]) == seconds % 60 < 60
  ensures var t := FormatTime(seconds);
          t[..|t| - 3] == Decimal(seconds / 60) && (60 <= seconds ==> t[0] != '0')
  {
    var mins, secs := seconds / 60, seconds % 60;
    var t := FormatTime(seconds);
    PaddedSeconds(secs);
    MinutesField(seconds);
    DecimalRoundTrip(mins);
    DisplayFields(t, mins, secs);
    FormatTimeRoundTrip(seconds);
    WholeMinutes(ParseDecimal(t[..|t| - 3]), ParseDecimal(t[|t| - 2..]), seconds);
  }

  /** The text before the colon is exactly the printed minutes, which start with a
      non-zero digit from one minute on. */
  lemma MinutesField(seconds: int)
    requires 0 <= seconds
    ensures var t := FormatTime(seconds);
            t[..|t| - 3] == Decimal(seconds / 60) && (60 <= seconds ==> t[0] != '0')
  {
    var mins, secs := seconds / 60, seconds % 60;
    var m, p := Decimal(mins), PadStart2(Decimal(secs));
    PaddedSeconds(secs);
    LeadingField(m, p);
    if mins >= 1 {
      DecimalNoLeadingZero(mins);
    }
  }

  /** In `m:ss` the text before the colon is `m`, and the first character is `m`'s. */
  lemma LeadingField(m: string, p: string)
    requires m != [] && |p| == 2
    ensures var t := m + ":" + p; t[..|t| - 3] == m && t[0] == m[0]
  {
    var t := m + ":" + p;
    assert t[..|t| - 3] == m;
  }

  /** A count of seconds written as `a` minutes and `b < 60` seconds has `a` whole minutes. */
  lemma WholeMinutes(a: int, b: int, seconds: int)
    requires a * 60 + b == seconds && b == seconds % 60
    ensures a == seconds / 60
  {
  }

  /** The fields of a display `m:ss` built from `mins` and `secs < 60`. */
  lemma DisplayFields(t: string, mins: nat, secs: nat)
    requires secs < 60 && t == Decimal(mins) + ":" + PadStart2(Decimal(secs))
    requires ParseDecimal(Decimal(mins)) == mins
    requires |PadStart2(Decimal(secs))| == 2 && ParseDecimal(PadStart2(Decimal(secs))) == secs
    ensures |t[|t| - 2..]| == 2 && ParseDecimal(t[..|t| - 3]) == mins && ParseDecimal(t[|t| - 2..]) == secs
  {
    ColonSplit(Decimal(mins), PadStart2(Decimal(secs)));
  }

  /** Seconds below a minute print as exactly two digits that read back as themselves. */
  lemma PaddedSeconds(secs: nat)
    requires secs < 60
    ensures |PadStart2(Decimal(secs))| == 2
    ensures ParseDecimal(PadStart2(Decimal(secs))) == secs
  {
    var d := Decimal(secs);
    DecimalRoundTrip(secs);
    if secs < 10 {
      var p := PadStart2(d);
      assert p == ['0'] + d;
      assert p[..1] == ['0'];
      assert ParseDecimal(['0']) == 0;
    }
  }

  /** The two displays the round shows at its start and near its end. */
  lemma FormatTimeExamples()
    ensures FormatTime(60) == "1:00"
    ensures FormatTime(5) == "0:05"
  {
  }

  // ---------------------------------------------------------------------------
  // The component
  // ---------------------------------------------------------------------------

  /** The component's state: the round record, the countdown, the grid of holes, and
      the log of audio cues played so far. */
  class Game {
    var game: GameState
    var countdown: int
    var moles: array<Hole>
    ghost var cues: seq<Cue>

    ghost predicate Valid()
      reads this, moles
    {
      Consistent(game) &&
      0 <= countdown <= INITIAL_COUNTDOWN && (game.status == Counting ==> 1 <= countdown) &&
      WellFormed(moles[..]) &&
      ((game.status == Idle || game.status == Counting) ==> Quiet(moles[..]))
    }

    /** The component as it mounts, with the best score read from storage. */
    constructor (storedHighScore: int)
      requires 0 <= storedHighScore
      ensures Valid() && fresh(moles)
      ensures game == InitialState(storedHighScore) && countdown == INITIAL_COUNTDOWN
      ensures moles[..] == InitialHoles() && cues == []
    {
      game := InitialState(storedHighScore);
      countdown := INITIAL_COUNTDOWN;
      var holes := new Hole[GRID_SIZE](i => Hole(i, false, CREWMATE_COLORS[0], NoFeedback));
      assert holes[..] == InitialHoles();
      moles := holes;
      cues := [];
    }

    /** setMoles(next): the grid becomes `next`. */
    method SetMoles(next: seq<Hole>)
      requires |next| == moles.Length
      modifies moles
      ensures moles[..] == next
    {
      forall i | 0 <= i < moles.Length {
        moles[i] := next[i];
      }
    }

    /** startGame: a fresh round, the countdown rewound and every crewmate hidden. */
    method StartGame()
      requires Valid()
      modifies this, moles
      ensures Valid() && moles == old(moles)
      ensures game == Started(old(game)) && countdown == INITIAL_COUNTDOWN
      ensures moles[..] == ResetHoles(old(moles[..])) && cues == old(cues)
    {
      game := Started(game);
      countdown := INITIAL_COUNTDOWN;
      SetMoles(ResetHoles(moles[..]));
    }

    /** quitGame, offered by the abort button while counting or playing. */
    method QuitGame()
      requires Valid() && (game.status == Counting || game.status == Playing)
      modifies this, moles
      ensures Valid() && moles == old(moles)
      ensures game == Quitted(old(game)) && countdown == old(countdown)
      ensures moles[..] == ResetHoles(old(moles[..])) && cues == old(cues)
    {
      game := Quitted(game);
      SetMoles(ResetHoles(moles[..]));
    }

    /** One firing of the pre-round countdown interval, which runs while counting. */
    method CountdownTick()
      requires Valid() && game.status == Counting
      modifies this
      ensures Valid() && moles == old(moles) && cues == old(cues)
      ensures (game, countdown) == CountdownStep(old(game), old(countdown))
    {
      game, countdown := CountdownStep(game, countdown).0, CountdownStep(game, countdown).1;
    }

    /** One firing of the round clock interval, which runs while playing. */
    method ClockTick()
      requires Valid() && game.status == Playing
      modifies this
      ensures Valid() && moles == old(moles) && countdown == old(countdown) && cues == old(cues)
      ensures game == ClockStep(old(game))
    {
      game := ClockStep(game);
    }

    /** spawnMole, fired by the spawn interval while playing. `r`, `c` and `jitter` are
        the three draws of `Math.random()`: the hidden hole, the colour and the show
        time. Returns the auto-hide callback to schedule, if a crewmate was shown. */
    method SpawnMole(r: real, c: real, jitter: real) returns (autoHide: Option<Timeout>)
      requires Valid() && game.status == Playing
      requires 0.0 <= r < 1.0 && 0.0 <= c < 1.0 && 0.0 <= jitter < 1.0
      modifies this, moles
      ensures Valid() && moles == old(moles) && game == old(game) && countdown == old(countdown)
      ensures InactiveIndices(old(moles[..])) == [] ==>
                moles[..] == old(moles[..]) && cues == old(cues) && autoHide == None
      ensures InactiveIndices(old(moles[..])) != [] ==>
                var free := InactiveIndices(old(moles[..]));
                var i := free[Pick(r, |free|)];
                moles[..] == Spawned(old(moles[..]), i, CREWMATE_COLORS[Pick(c, |CREWMATE_COLORS|)]) &&
                cues == old(cues) + [PopCue] &&
                autoHide == Some(Timeout(i, ShowDuration(game.timeLeft, jitter)))
    {
      var free := InactiveIndices(moles[..]);
      InactiveIndicesSpec(moles[..]);
      if |free| == 0 {
        return None;
      }
      var i := free[Pick(r, |free|)];
      var color := CREWMATE_COLORS[Pick(c, |CREWMATE_COLORS|)];
      SpawnShowsOne(moles[..], i, color);
      moles[i] := moles[i].(active := true, color := color, feedback := NoFeedback);
      cues := cues + [PopCue];
      autoHide := Some(Timeout(i, ShowDuration(game.timeLeft, jitter)));
    }

    /** The auto-hide callback scheduled by spawnMole for hole `i`. It is never cancelled,
        so it may fire in any status. The hide cue plays only if the crewmate still shows. */
    method HideMole(i: int)
      requires Valid() && 0 <= i < GRID_SIZE
      modifies this, moles
      ensures Valid() && moles == old(moles) && game == old(game) && countdown == old(countdown)
      ensures moles[..] == Hidden(old(moles[..]), i)
      ensures cues == old(cues) + (if old(moles[i].active) then [HideCue] else [])
    {
      var mole := FindById(moles[..], i);
      FindInGrid(moles[..], i);
      if mole.Some? && mole.value.active {
        cues := cues + [HideCue];
      }
      HideEffect(moles[..], i);
      SetMoles(Hidden(moles[..], i));
    }

    /** handleWhack, reached only through a click on a showing crewmate. Ignored unless
        playing; otherwise the crewmate hides, the score goes up by one and the hole is
        marked as hit. Returns the feedback-clear callback to schedule. */
    method HandleWhack(id: int) returns (clear: Option<Timeout>)
      requires Valid() && 0 <= id < GRID_SIZE && moles[id].active
      modifies this, moles
      ensures Valid() && moles == old(moles) && countdown == old(countdown)
      ensures if old(game.status) == Playing then
                moles[..] == WithFeedback(Deactivated(old(moles[..]), id), id, Hit) &&
                game == old(game).(score := old(game.score) + 1) &&
                cues == old(cues) + [HitCue] &&
                clear == Some(Timeout(id, FEEDBACK_DURATION))
              else
                moles[..] == old(moles[..]) && game == old(game) && cues == old(cues) && clear == None
    {
      if game.status != Playing {
        return None;
      }
      WhackEffect(moles[..], id);
      SetMoles(Deactivated(moles[..], id));
      game := game.(score := game.score + 1);
      cues := cues + [HitCue];
      SetMoles(WithFeedback(moles[..], id, Hit));
      clear := Some(Timeout(id, FEEDBACK_DURATION));
    }

    /** handleMiss, a click on the hole itself. It acts only while playing, on a hidden
        crewmate whose hole carries no feedback: the hole is marked as missed and the miss
        cue plays; the score never changes. */
    method HandleMiss(id: int) returns (clear: Option<Timeout>)
      requires Valid() && 0 <= id < GRID_SIZE
      modifies this, moles
      ensures Valid() && moles == old(moles) && game == old(game) && countdown == old(countdown)
      ensures if old(game.status) == Playing && !old(moles[id]).active && old(moles[id]).feedback == NoFeedback then
                moles[..] == WithFeedback(old(moles[..]), id, Miss) &&
                cues == old(cues) + [MissCue] &&
                clear == Some(Timeout(id, FEEDBACK_DURATION))
              else
                moles[..] == old(moles[..]) && cues == old(cues) && clear == None
    {
      if game.status != Playing {
        return None;
      }
      var mole := FindById(moles[..], id);
      FindInGrid(moles[..], id);
      if mole.Some? && !mole.value.active && mole.value.feedback == NoFeedback {
        cues := cues + [MissCue];
        FeedbackEffect(moles[..], id, Miss);
        SetMoles(WithFeedback(moles[..], id, Miss));
        clear := Some(Timeout(id, FEEDBACK_DURATION));
      } else {
        clear := None;
      }
    }

    /** The feedback-clear callback of triggerFeedback. It is never cancelled, so it may
        fire in any status; it clears that hole's tag, whatever the tag is by then. */
    method ClearFeedback(id: int)
      requires Valid() && 0 <= id < GRID_SIZE
      modifies moles
      ensures Valid()
      ensures moles[..] == WithFeedback(old(moles[..]), id, NoFeedback)
    {
      FeedbackEffect(moles[..], id, NoFeedback);
      SetMoles(WithFeedback(moles[..], id, NoFeedback));
    }
  }
}
