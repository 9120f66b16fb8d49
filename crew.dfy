/** Declarations shared by both variants of the game: the round status, the
    holes ("moles") of the 3x3 grid, the audio cues, and the small pieces of
    arithmetic that both variants perform the same way. */
module Crew {

  datatype Option<T> = None | Some(value: T)

  /** The round status: idle -> counting -> playing -> ended. */
  datatype Status = Idle | Counting | Playing | Ended

  /** The transient hit/miss tag of a hole; `NoFeedback` is the source's `null`. */
  datatype Feedback = NoFeedback | Hit | Miss

  /** One hole of the grid. The source's `isImposter` flag is never set and is not modelled. */
  datatype Hole = Hole(id: int, active: bool, color: string, feedback: Feedback)

  /** The audio cues, recorded in a cue log instead of being played. */
  datatype Cue = StartCue | TickCue | PopCue | HideCue | HitCue | MissCue

  /** A deferred callback (`setTimeout`) that the caller must schedule: which hole it is
      about and after how many milliseconds it fires. */
  datatype Timeout = Timeout(hole: int, delay: real)

  const GRID_SIZE: int := 9

  const CREWMATE_COLORS: seq<string> := [
    "#C51111", "#132ED1", "#117F2D", "#ED54BA", "#EF7D0D", "#F5F557",
    "#3F474E", "#D6E0F0", "#6B2FBB", "#71491E", "#38FEDB", "#50EF39"
  ]

  /** `Math.max` on the millisecond quantities of the difficulty curves. */
  function MaxReal(a: real, b: real): real {
    if a >= b then a else b
  }

  /** `Math.max` on whole numbers (scores). */
  function MaxInt(a: int, b: int): int {
    if a >= b then a else b
  }

  function MinInt(a: int, b: int): int {
    if a <= b then a else b
  }

  /** `Math.floor(Math.random() * n)`: a uniformly drawn index below `n`,
      given the draw `r` of `Math.random()`. */
  function Pick(r: real, n: nat): (k: nat)
    requires 0.0 <= r < 1.0 && 0 < n
    ensures k < n
    ensures k as real <= r * n as real < k as real + 1.0
  {
    var x := r * n as real;
    assert 0.0 <= x < n as real by {
      assert r * n as real < 1.0 * n as real;
    }
    x.Floor
  }

  /** `holes.find(m => m.id === id)`: the first hole carrying `id`, if any. */
  function FindById(s: seq<Hole>, id: int): (r: Option<Hole>)
    ensures r.Some? ==> r.value in s && r.value.id == id
    ensures r.None? ==> forall k :: 0 <= k < |s| ==> s[k].id != id
  {
    if s == [] then None
    else if s[0].id == id then Some(s[0])
    else FindById(s[1..], id)
  }

  /** In a well-formed grid the hole found under id `i` is the hole at position `i`. */
  lemma FindInGrid(s: seq<Hole>, i: int)
    requires WellFormed(s) && 0 <= i < |s|
    ensures FindById(s, i) == Some(s[i])
  {
    FindFirst(s, i, i);
  }

  lemma {:induction false} FindFirst(s: seq<Hole>, id: int, k: int)
    requires 0 <= k < |s| && s[k].id == id
    requires forall j :: 0 <= j < k ==> s[j].id != id
    ensures FindById(s, id) == Some(s[k])
  {
    if k > 0 {
      FindFirst(s[1..], id, k - 1);
    }
  }

  /** `holes.map(m => m.id === id ? f(m) : m)`: rewrite the hole(s) carrying `id`. */
  function MapById(s: seq<Hole>, id: int, f: Hole -> Hole): (r: seq<Hole>)
    ensures |r| == |s|
    ensures forall k :: 0 <= k < |s| && s[k].id == id ==> r[k] == f(s[k])
    ensures forall k :: 0 <= k < |s| && s[k].id != id ==> r[k] == s[k]
  {
    seq(|s|, k requires 0 <= k < |s| => if s[k].id == id then f(s[k]) else s[k])
  }

  /** In a well-formed grid, rewriting by id rewrites exactly the hole at that position. */
  lemma MapByIdAt(s: seq<Hole>, i: int, f: Hole -> Hole)
    requires WellFormed(s) && 0 <= i < |s|
    ensures MapById(s, i, f) == s[i := f(s[i])]
  {
  }

  /** `{ ...m, active: false }` on the hole carrying `id`. */
  function Deactivated(s: seq<Hole>, id: int): (r: seq<Hole>)
    ensures |r| == |s|
    ensures forall k :: 0 <= k < |s| ==>
              r[k].active == (s[k].active && s[k].id != id) &&
              r[k].id == s[k].id && r[k].color == s[k].color && r[k].feedback == s[k].feedback
  {
    MapById(s, id, (h: Hole) => h.(active := false))
  }

  /** `{ ...m, feedback: fb }` on the hole carrying `id`. */
  function WithFeedback(s: seq<Hole>, id: int, fb: Feedback): (r: seq<Hole>)
    ensures |r| == |s|
    ensures forall k :: 0 <= k < |s| ==>
              r[k].feedback == (if s[k].id == id then fb else s[k].feedback) &&
              r[k].id == s[k].id && r[k].active == s[k].active && r[k].color == s[k].color
  {
    MapById(s, id, (h: Hole) => h.(feedback := fb))
  }

  /** Hiding a crewmate by id touches only that hole's flag; the count of showing
      crewmates drops by one if it was showing, and a hidden one stays as it was. */
  lemma DeactivateEffect(s: seq<Hole>, id: int)
    requires WellFormed(s) && 0 <= id < |s|
    ensures var r := Deactivated(s, id);
            WellFormed(r) && r == s[id := s[id].(active := false)] &&
            ActiveCount(r) == ActiveCount(s) - (if s[id].active then 1 else 0) &&
            (!s[id].active ==> r == s)
  {
    MapByIdAt(s, id, (h: Hole) => h.(active := false));
    ActiveCountUpdate(s, id, s[id].(active := false));
  }

  /** A whack hides the crewmate and marks its hole as hit; nothing else changes. */
  lemma WhackEffect(s: seq<Hole>, id: int)
    requires WellFormed(s) && 0 <= id < |s| && s[id].active
    ensures var r := WithFeedback(Deactivated(s, id), id, Hit);
            WellFormed(r) && r == s[id := s[id].(active := false, feedback := Hit)] &&
            ActiveCount(r) == ActiveCount(s) - 1
  {
    var d := Deactivated(s, id);
    MapByIdAt(s, id, (h: Hole) => h.(active := false));
    MapByIdAt(d, id, (h: Hole) => h.(feedback := Hit));
    ActiveCountUpdate(s, id, s[id].(active := false, feedback := Hit));
  }

  /** Setting or clearing a feedback tag touches only that hole's tag. */
  lemma FeedbackEffect(s: seq<Hole>, id: int, fb: Feedback)
    requires WellFormed(s) && 0 <= id < |s|
    ensures var r := WithFeedback(s, id, fb);
            WellFormed(r) && r == s[id := s[id].(feedback := fb)] &&
            ActiveCount(r) == ActiveCount(s)
  {
    MapByIdAt(s, id, (h: Hole) => h.(feedback := fb));
    ActiveCountUpdate(s, id, s[id].(feedback := fb));
  }

  /** The grid as the app creates it: hole i has id i, is hidden, wears the first
      colour and carries no feedback. */
  function InitialHoles(): (s: seq<Hole>)
    ensures WellFormed(s) && Quiet(s)
    ensures forall i :: 0 <= i < |s| ==> s[i].color == CREWMATE_COLORS[0]
  {
    seq(GRID_SIZE, i => Hole(i, false, CREWMATE_COLORS[0], NoFeedback))
  }

  /** The shape every grid keeps: nine holes, hole i carrying id i and a palette colour. */
  ghost predicate WellFormed(s: seq<Hole>) {
    |s| == GRID_SIZE &&
    forall i :: 0 <= i < |s| ==> s[i].id == i && s[i].color in CREWMATE_COLORS
  }

  /** No hole shows a crewmate and none carries feedback. */
  ghost predicate Quiet(s: seq<Hole>) {
    forall i :: 0 <= i < |s| ==> !s[i].active && s[i].feedback == NoFeedback
  }

  /** The number of crewmates currently showing. */
  function ActiveCount(s: seq<Hole>): (n: nat)
    ensures n <= |s|
  {
    if s == [] then 0
    else ActiveCount(s[..|s| - 1]) + (if s[|s| - 1].active then 1 else 0)
  }

  /** No crewmate shows exactly when the count of showing ones is zero. */
  lemma {:induction false} ActiveCountZero(s: seq<Hole>)
    ensures ActiveCount(s) == 0 <==> forall i :: 0 <= i < |s| ==> !s[i].active
  {
    if s != [] {
      ActiveCountZero(s[..|s| - 1]);
      assert forall i :: 0 <= i < |s| - 1 ==> s[..|s| - 1][i] == s[i];
    }
  }

  /** Replacing one hole changes the count by the difference of the two holes' flags. */
  lemma {:induction false} ActiveCountUpdate(s: seq<Hole>, i: int, h: Hole)
    requires 0 <= i < |s|
    ensures ActiveCount(s[i := h]) ==
            ActiveCount(s) - (if s[i].active then 1 else 0) + (if h.active then 1 else 0)
  {
    var t := s[i := h];
    if i == |s| - 1 {
      assert t[..|t| - 1] == s[..|s| - 1];
    } else {
      assert t[..|t| - 1] == s[..|s| - 1][i := h];
      ActiveCountUpdate(s[..|s| - 1], i, h);
    }
  }

  /** What one tick of a one-second countdown does to its value `v`: the shape
      `prev <= 1 ? 0 : prev - 1` that both the pre-round countdown and the round
      clock of both variants use. `Expire` stands for "pin the value to 0 and
      hand over to the next status". */
  datatype Tick = Continue(next: int) | Expire

  function TickDown(v: int): (r: Tick)
    ensures r.Expire? <==> v <= 1
    ensures r.Continue? ==> 1 <= r.next < v
  {
    if v <= 1 then Expire else Continue(v - 1)
  }

  /** The outcome of `n` ticks in a row, stopping at the tick that expires. */
  function TickMany(v: int, n: nat): Tick
    decreases n
  {
    if n == 0 then Continue(v)
    else match TickDown(v)
      case Expire => Expire
      case Continue(w) => TickMany(w, n - 1)
  }

  /** A countdown started at `v >= 1` shows `v - n` after `n < v` ticks and
      expires on exactly its `v`-th tick: it never shows a negative value. */
  lemma {:induction false} TickManyExact(v: int, n: nat)
    requires 1 <= v
    ensures TickMany(v, n) == if n < v then Continue(v - n) else Expire
  {
    if n > 0 && v > 1 {
      TickManyExact(v - 1, n - 1);
    }
  }
}
