/** The 45-second variant of the game (index.tsx). Each piece of the round is its own
    piece of component state; the handlers and timer callbacks are the methods of the
    class `Game`, and the expressions they evaluate (the filter and map rewrites of the
    grid, the tick and cue rules, the difficulty formulas) are functions. Unlike the
    60-second variant, starting a round leaves the grid alone, a spawn keeps the hole's
    feedback, the whack handler checks for itself that the crewmate shows, and the
    countdown and the last seconds of the clock play tick cues. */
module Index {
  import opened Crew

  const ROUND_DURATION: int := 45
  const INITIAL_COUNTDOWN: int := 3
  const FEEDBACK_DURATION: real := 300.0

  // ---------------------------------------------------------------------------
  // Ticks and their cues
  // ---------------------------------------------------------------------------

  /** The cue one countdown tick plays when the countdown shows `c`: a tick on every
      tick but the one that starts play. */
  function CountdownCue(c: int): (cue: seq<Cue>)
    ensures cue == [] <==> c <= 1
    ensures cue != [] ==> cue == [TickCue]
  {
    if c <= 1 then [] else [TickCue]
  }

  /** The cue one clock tick plays when the clock shows `t`: a tick during the last
      seconds (`t < 6`), but none on the tick that ends the round. */
  function ClockCue(t: int): (cue: seq<Cue>)
    ensures cue == if 2 <= t <= 5 then [TickCue] else []
  {
    if t <= 1 then [] else if t < 6 then [TickCue] else []
  }

  /** `n` tick cues in a row. */
  function Ticks(n: nat): seq<Cue> {
    seq(n, _ => TickCue)
  }

  /** All the cues the countdown plays from `c` until play starts. */
  function CountdownCuesFrom(c: int): seq<Cue>
    decreases c
  {
    match TickDown(c)
      case Expire => CountdownCue(c)
      case Continue(next) => CountdownCue(c) + CountdownCuesFrom(next)
  }

  /** All the cues the clock plays from `t` until the round ends. */
  function ClockCuesFrom(t: int): seq<Cue>
    decreases t
  {
    match TickDown(t)
      case Expire => ClockCue(t)
      case Continue(next) => ClockCue(t) + ClockCuesFrom(next)
  }

  /** A countdown from `c >= 1` plays one tick cue on each of its first `c - 1` ticks. */
  lemma {:induction false} CountdownCuesCount(c: int)
    requires 1 <= c
    ensures CountdownCuesFrom(c) == Ticks(c - 1)
  {
    if c > 1 {
      CountdownCuesCount(c - 1);
      assert [TickCue] + Ticks(c - 2) == Ticks(c - 1);
    }
  }

  /** A clock from `t >= 1` plays a tick cue only in the last seconds: one for each of
      the ticks finding two to five seconds left, `min(t, 5) - 1` cues in all. */
  lemma {:induction false} ClockCuesCount(t: int)
    requires 1 <= t
    ensures ClockCuesFrom(t) == Ticks(MinInt(t, 5) - 1)
  {
    if t > 1 {
      ClockCuesCount(t - 1);
      if t <= 5 {
        assert [TickCue] + Ticks(t - 2) == Ticks(t - 1);
      }
    }
  }

  /** A round as it unfolds from the start: the countdown from three plays two tick
      cues and starts play on its third tick; the clock from forty-five still runs
      after forty-four ticks, ends on the forty-fifth, and plays four tick cues. */
  lemma RoundTimeline()
    ensures TickMany(INITIAL_COUNTDOWN, 2) == Continue(1) && TickMany(INITIAL_COUNTDOWN, 3) == Expire
    ensures CountdownCuesFrom(INITIAL_COUNTDOWN) == [TickCue, TickCue]
    ensures TickMany(ROUND_DURATION, ROUND_DURATION - 1) == Continue(1)
    ensures TickMany(ROUND_DURATION, ROUND_DURATION) == Expire
    ensures ClockCuesFrom(ROUND_DURATION) == [TickCue, TickCue, TickCue, TickCue]
  {
    TickManyExact(INITIAL_COUNTDOWN, 2);
    TickManyExact(INITIAL_COUNTDOWN, 3);
    TickManyExact(ROUND_DURATION, ROUND_DURATION - 1);
    TickManyExact(ROUND_DURATION, ROUND_DURATION);
    CountdownCuesCount(INITIAL_COUNTDOWN);
    ClockCuesCount(ROUND_DURATION);
  }

  // ---------------------------------------------------------------------------
  // End of round and the report
  // ---------------------------------------------------------------------------

  /** The best score after endGame: the round's score replaces the best score only
      when it beats it. */
  function BestAfter(score: int, highScore: int): (best: int)
    ensures highScore <= best && score <= best
    ensures best == score || best == highScore
    ensures best != highScore ==> score > highScore
  {
    if score > highScore then score else highScore
  }

  /** The two end-of-round outcomes: a score of 7 over a best of 5 becomes the new
      best; a score of 3 leaves the best of 5 alone. */
  lemma BestAfterExamples()
    ensures BestAfter(7, 5) == 7 && BestAfter(3, 5) == 5
  {
  }

  /** What the report request came back with: a reply carrying a text (possibly
      empty), or a failure. */
  datatype Reply = Answered(text: string) | Failed

  const EMPTY_REPLY_REPORT: string := "Scanning complete. No survivors detected."
  const FAILED_REPLY_REPORT: string := "The security logs were wiped by an Imposter in Electrical."

  /** The report shown once the request settles: the reply's text, or a fixed line
      when the reply is empty or the request failed. */
  function ReportText(reply: Reply): (report: string)
    ensures report != ""
    ensures reply.Answered? && reply.text != "" ==> report == reply.text
    ensures reply.Answered? && reply.text == "" ==> report == EMPTY_REPLY_REPORT
    ensures reply.Failed? ==> report == FAILED_REPLY_REPORT
  {
    match reply
      case Answered(text) => if text != "" then text else EMPTY_REPLY_REPORT
      case Failed => FAILED_REPLY_REPORT
  }

  // ---------------------------------------------------------------------------
  // The grid: the filter and map rewrites passed to setMoles
  // ---------------------------------------------------------------------------

  /** `prev.filter(m => !m.active)`: the hidden holes, in grid order. */
  function InactiveHoles(s: seq<Hole>): (r: seq<Hole>)
    ensures forall k :: 0 <= k < |r| ==> !r[k].active && r[k] in s
  {
    if s == [] then []
    else InactiveHoles(s[..|s| - 1]) + (if s[|s| - 1].active then [] else [s[|s| - 1]])
  }

  /** The filter keeps exactly the hidden holes, so it is empty exactly when every
      crewmate shows. */
  lemma {:induction false} InactiveHolesSpec(s: seq<Hole>)
    ensures forall i :: 0 <= i < |s| && !s[i].active ==> s[i] in InactiveHoles(s)
    ensures |InactiveHoles(s)| == |s| - ActiveCount(s)
  {
    if s != [] {
      var front := s[..|s| - 1];
      InactiveHolesSpec(front);
      assert forall i :: 0 <= i < |front| ==> front[i] == s[i];
    }
  }

  /** The filter keeps grid order: in a grid whose holes carry their positions as ids,
      the kept holes' ids increase, so the draw picks among the hidden holes in the
      order they appear on the board. */
  lemma {:induction false} InactiveHolesInOrder(s: seq<Hole>)
    requires forall i :: 0 <= i < |s| ==> s[i].id == i
    ensures forall k :: 0 <= k < |InactiveHoles(s)| ==> 0 <= InactiveHoles(s)[k].id < |s|
    ensures forall j, k :: 0 <= j < k < |InactiveHoles(s)| ==> InactiveHoles(s)[j].id < InactiveHoles(s)[k].id
  {
    if s != [] {
      var front := s[..|s| - 1];
      InactiveHolesInOrder(front);
      var r := InactiveHoles(front);
      var all := InactiveHoles(s);
      if !s[|s| - 1].active {
        assert all == r + [s[|s| - 1]];
        assert forall k :: 0 <= k < |r| ==> all[k] == r[k];
      } else {
        assert all == r;
      }
    }
  }

  /** A hole of a well-formed grid sits at the position its id names. */
  lemma HoleAtId(s: seq<Hole>, h: Hole)
    requires WellFormed(s) && h in s
    ensures 0 <= h.id < |s| && s[h.id] == h
  {
    var j :| 0 <= j < |s| && s[j] == h;
  }

  /** spawn's rewrite `{ ...m, active: true, color }` on the hole carrying `id`. */
  function Respawned(s: seq<Hole>, id: int, color: string): (r: seq<Hole>)
    ensures |r| == |s|
    ensures forall k :: 0 <= k < |s| ==>
              r[k].active == (s[k].active || s[k].id == id) &&
              r[k].color == (if s[k].id == id then color else s[k].color) &&
              r[k].id == s[k].id && r[k].feedback == s[k].feedback
  {
    MapById(s, id, (h: Hole) => h.(active := true, color := color))
  }

  /** Spawning on a hidden hole shows exactly that one crewmate in the new colour and
      keeps whatever feedback the hole carried; every other hole is as it was and the
      count of showing crewmates rises by one. */
  lemma RespawnShowsOne(s: seq<Hole>, id: int, color: string)
    requires WellFormed(s) && 0 <= id < |s| && !s[id].active && color in CREWMATE_COLORS
    ensures var r := Respawned(s, id, color);
            WellFormed(r) && r == s[id := s[id].(active := true, color := color)] &&
            r[id].feedback == s[id].feedback &&
            ActiveCount(r) == ActiveCount(s) + 1
  {
    MapByIdAt(s, id, (h: Hole) => h.(active := true, color := color));
    ActiveCountUpdate(s, id, s[id].(active := true, color := color));
  }

  // ---------------------------------------------------------------------------
  // Difficulty curve
  // ---------------------------------------------------------------------------

  /** How long a spawned crewmate shows: `Math.max(500, 1200 * (timeLeft / 45))`. */
  function HideDelay(timeLeft: int): (ms: real)
    ensures 500.0 <= ms
    ensures 0 <= timeLeft <= ROUND_DURATION ==> ms <= 1200.0
  {
    MaxReal(500.0, 1200.0 * (timeLeft as real / ROUND_DURATION as real))
  }

  /** The spawn interval: `Math.max(350, 800 * (timeLeft / 45))`. */
  function SpawnInterval(timeLeft: int): (ms: real)
    ensures 350.0 <= ms
    ensures 0 <= timeLeft <= ROUND_DURATION ==> ms <= 800.0
  {
    MaxReal(350.0, 800.0 * (timeLeft as real / ROUND_DURATION as real))
  }

  /** Both shrink as the round runs down: less time left, shorter show time and
      shorter interval. */
  lemma DifficultyMonotone(t1: int, t2: int)
    requires t1 <= t2
    ensures HideDelay(t1) <= HideDelay(t2)
    ensures SpawnInterval(t1) <= SpawnInterval(t2)
  {
  }

  // ---------------------------------------------------------------------------
  // The component
  // ---------------------------------------------------------------------------

  /** The component's state, one field per piece of state, with the grid of holes and
      the log of audio cues played so far. */
  class Game {
    var status: Status
    var score: int
    var timeLeft: int
    var highScore: int
    var countdown: int
    var moles: array<Hole>
    var report: string
    var loadingReport: bool
    ghost var cues: seq<Cue>

    /** Before play the round is fresh; while counting the countdown shows at least
        one; while playing the clock shows at least one second; an ended round has its
        clock at zero and its score folded into the best score. The grid keeps its
        shape in every status. */
    ghost predicate Valid()
      reads this, moles
    {
      0 <= score && 0 <= highScore &&
      0 <= timeLeft <= ROUND_DURATION && 0 <= countdown <= INITIAL_COUNTDOWN &&
      ((status == Idle || status == Counting) ==> score == 0 && timeLeft == ROUND_DURATION) &&
      (status == Counting ==> 1 <= countdown) &&
      (status == Playing ==> 1 <= timeLeft) &&
      (status == Ended ==> timeLeft == 0 && score <= highScore) &&
      WellFormed(moles[..])
    }

    /** The component as it mounts, with the best score read from storage. */
    constructor (storedHighScore: int)
      requires 0 <= storedHighScore
      ensures Valid() && fresh(moles)
      ensures status == Idle && score == 0 && timeLeft == ROUND_DURATION
      ensures highScore == storedHighScore && countdown == INITIAL_COUNTDOWN
      ensures report == "" && !loadingReport
      ensures moles[..] == InitialHoles() && cues == []
    {
      status := Idle;
      score := 0;
      timeLeft := ROUND_DURATION;
      highScore := storedHighScore;
      countdown := INITIAL_COUNTDOWN;
      report := "";
      loadingReport := false;
      var holes := new Hole[GRID_SIZE](i => Hole(i, false, CREWMATE_COLORS[0], NoFeedback));
      assert holes[..] == InitialHoles();
      moles := holes;
      cues := [];
    }

    /** setMoles(next): the grid becomes `next`. */
    method SetMoles(next: seq<Hole>)
      requires |next| == moles.Length
      modifies moles
      ensures moles[..] == next
    {
      forall i | 0 <= i < moles.Length {
        moles[i] := next[i];
      }
    }

    /** startGame, offered by the start button when idle and the re-deploy button when
        ended: a fresh score, clock, countdown and report, and the start cue. The best
        score and the grid are left as they are. */
    method StartGame()
      requires Valid() && (status == Idle || status == Ended)
      modifies this
      ensures Valid() && moles == old(moles) && moles[..] == old(moles[..])
      ensures status == Counting && score == 0 && timeLeft == ROUND_DURATION
      ensures countdown == INITIAL_COUNTDOWN && report == ""
      ensures highScore == old(highScore) && loadingReport == old(loadingReport)
      ensures cues == old(cues) + [StartCue]
    {
      score := 0;
      timeLeft := ROUND_DURATION;
      countdown := INITIAL_COUNTDOWN;
      report := "";
      status := Counting;
      cues := cues + [StartCue];
    }

    /** One firing of the pre-round countdown interval, which runs while counting:
        the countdown goes down by one with a tick cue, or, on its last tick, is pinned
        to zero and play starts, without a cue. */
    method CountdownTick()
      requires Valid() && status == Counting
      modifies this
      ensures Valid() && moles == old(moles)
      ensures score == old(score) && timeLeft == old(timeLeft) && highScore == old(highScore)
      ensures report == old(report) && loadingReport == old(loadingReport)
      ensures cues == old(cues) + CountdownCue(old(countdown))
      ensures match TickDown(old(countdown))
                case Expire => status == Playing && countdown == 0
                case Continue(next) => status == Counting && countdown == next
    {
      if countdown <= 1 {
        status := Playing;
        countdown := 0;
      } else {
        cues := cues + [TickCue];
        countdown := countdown - 1;
      }
    }

    /** endGame: the round ends, the score replaces the best score (and is persisted)
        only when it beats it, and the report is requested. */
    method EndGame()
      requires 0 <= score && 0 <= highScore
      modifies this
      ensures status == Ended && highScore == BestAfter(old(score), old(highScore))
      ensures loadingReport
      ensures score == old(score) && timeLeft == old(timeLeft) && countdown == old(countdown)
      ensures report == old(report) && moles == old(moles) && cues == old(cues)
    {
      status := Ended;
      if score > highScore {
        highScore := score;
      }
      loadingReport := true;
    }

    /** One firing of the round clock interval, which runs while playing: one second
        less, with a tick cue in the last seconds, or, on the last second, the clock
        pinned to zero and endGame. */
    method ClockTick()
      requires Valid() && status == Playing
      modifies this
      ensures Valid() && moles == old(moles) && score == old(score)
      ensures countdown == old(countdown) && report == old(report)
      ensures cues == old(cues) + ClockCue(old(timeLeft))
      ensures match TickDown(old(timeLeft))
                case Expire =>
                  timeLeft == 0 && status == Ended && loadingReport &&
                  highScore == BestAfter(score, old(highScore))
                case Continue(next) =>
                  timeLeft == next && status == Playing &&
                  highScore == old(highScore) && loadingReport == old(loadingReport)
    {
      if timeLeft <= 1 {
        timeLeft := 0;
        EndGame();
      } else {
        if timeLeft < 6 {
          cues := cues + [TickCue];
        }
        timeLeft := timeLeft - 1;
      }
    }

    /** The report request settles, in whatever status the component is by then. */
    method ReportArrived(reply: Reply)
      requires Valid()
      modifies this
      ensures Valid() && moles == old(moles)
      ensures report == ReportText(reply) && !loadingReport
      ensures status == old(status) && score == old(score) && timeLeft == old(timeLeft)
      ensures highScore == old(highScore) && countdown == old(countdown) && cues == old(cues)
    {
      report := ReportText(reply);
      loadingReport := false;
    }

    /** spawn, fired by the spawn interval while playing. `r` and `c` are the two draws
        of `Math.random()`: which hidden hole, and which colour. Returns the auto-hide
        callback to schedule, if a crewmate was shown. */
    method Spawn(r: real, c: real) returns (autoHide: Option<Timeout>)
      requires Valid() && status == Playing
      requires 0.0 <= r < 1.0 && 0.0 <= c < 1.0
      modifies this, moles
      ensures Valid() && moles == old(moles)
      ensures status == old(status) && score == old(score) && timeLeft == old(timeLeft)
      ensures highScore == old(highScore) && countdown == old(countdown)
      ensures report == old(report) && loadingReport == old(loadingReport)
      ensures InactiveHoles(old(moles[..])) == [] ==>
                moles[..] == old(moles[..]) && cues == old(cues) && autoHide == None
      ensures InactiveHoles(old(moles[..])) != [] ==>
                var free := InactiveHoles(old(moles[..]));
                var target := free[Pick(r, |free|)];
                moles[..] == Respawned(old(moles[..]), target.id, CREWMATE_COLORS[Pick(c, |CREWMATE_COLORS|)]) &&
                cues == old(cues) + [PopCue] &&
                autoHide == Some(Timeout(target.id, HideDelay(timeLeft)))
    {
      var free := InactiveHoles(moles[..]);
      if |free| == 0 {
        return None;
      }
      var target := free[Pick(r, |free|)];
      InactiveHolesSpec(moles[..]);
      HoleAtId(moles[..], target);
      cues := cues + [PopCue];
      autoHide := Some(Timeout(target.id, HideDelay(timeLeft)));
      var color := CREWMATE_COLORS[Pick(c, |CREWMATE_COLORS|)];
      RespawnShowsOne(moles[..], target.id, color);
      SetMoles(Respawned(moles[..], target.id, color));
    }

    /** The auto-hide callback scheduled by spawn for hole `id`. It is never cancelled,
        so it may fire in any status; it hides the crewmate whether or not it still
        shows, and plays no cue. */
    method AutoHide(id: int)
      requires Valid() && 0 <= id < GRID_SIZE
      modifies moles
      ensures Valid()
      ensures moles[..] == Deactivated(old(moles[..]), id)
    {
      DeactivateEffect(moles[..], id);
      SetMoles(Deactivated(moles[..], id));
    }

    /** handleWhack. Ignored unless playing. Otherwise, if the crewmate shows, it hides,
        the score goes up by one, the hole is marked as hit and the hit cue plays; a
        hidden crewmate leaves everything as it was. Either way while playing, the
        feedback-clear callback is returned for scheduling. */
    method HandleWhack(id: int) returns (clear: Option<Timeout>)
      requires Valid() && 0 <= id < GRID_SIZE
      modifies this, moles
      ensures Valid() && moles == old(moles)
      ensures status == old(status) && timeLeft == old(timeLeft) && highScore == old(highScore)
      ensures countdown == old(countdown) && report == old(report) && loadingReport == old(loadingReport)
      ensures if old(status) == Playing && old(moles[id]).active then
                moles[..] == WithFeedback(Deactivated(old(moles[..]), id), id, Hit) &&
                score == old(score) + 1 && cues == old(cues) + [HitCue]
              else
                moles[..] == old(moles[..]) && score == old(score) && cues == old(cues)
      ensures clear == if old(status) == Playing then Some(Timeout(id, FEEDBACK_DURATION)) else None
    {
      if status != Playing {
        return None;
      }
      var mole := FindById(moles[..], id);
      FindInGrid(moles[..], id);
      if mole.Some? && mole.value.active {
        cues := cues + [HitCue];
        score := score + 1;
        WhackEffect(moles[..], id);
        SetMoles(WithFeedback(Deactivated(moles[..], id), id, Hit));
      }
      clear := Some(Timeout(id, FEEDBACK_DURATION));
    }

    /** handleMiss, a click on the hole itself. It acts only while playing, on a hidden
        crewmate whose hole carries no feedback: the hole is marked as missed and the
        miss cue plays; the score never changes. */
    method HandleMiss(id: int) returns (clear: Option<Timeout>)
      requires Valid() && 0 <= id < GRID_SIZE
      modifies this, moles
      ensures Valid() && moles == old(moles)
      ensures status == old(status) && score == old(score) && timeLeft == old(timeLeft)
      ensures highScore == old(highScore) && countdown == old(countdown)
      ensures report == old(report) && loadingReport == old(loadingReport)
      ensures if old(status) == Playing && !old(moles[id]).active && old(moles[id]).feedback == NoFeedback then
                moles[..] == WithFeedback(old(moles[..]), id, Miss) &&
                cues == old(cues) + [MissCue] &&
                clear == Some(Timeout(id, FEEDBACK_DURATION))
              else
                moles[..] == old(moles[..]) && cues == old(cues) && clear == None
    {
      if status != Playing {
        return None;
      }
      var mole := FindById(moles[..], id);
      FindInGrid(moles[..], id);
      if mole.Some? && !mole.value.active && mole.value.feedback == NoFeedback {
        cues := cues + [MissCue];
        FeedbackEffect(moles[..], id, Miss);
        SetMoles(WithFeedback(moles[..], id, Miss));
        clear := Some(Timeout(id, FEEDBACK_DURATION));
      } else {
        clear := None;
      }
    }

    /** The feedback-clear callback of handleWhack and handleMiss. It is never
        cancelled, so it may fire in any status; it clears that hole's tag. */
    method ClearFeedback(id: int)
      requires Valid() && 0 <= id < GRID_SIZE
      modifies moles
      ensures Valid()
      ensures moles[..] == WithFeedback(old(moles[..]), id, NoFeedback)
    {
      FeedbackEffect(moles[..], id, NoFeedback);
      SetMoles(WithFeedback(moles[..], id, NoFeedback));
    }
  }
}
