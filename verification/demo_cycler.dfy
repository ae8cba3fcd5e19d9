/** The scenario player of src/components/AIDemoExperienceSection.tsx: a
    scenario chosen by id (falling back to the first), a frame index that
    the animation interval advances cyclically while playing, a reset to
    the first frame when the scenario changes, a play/pause toggle, a pause
    when the page is hidden, and the progress bar. Each firing of the
    3400 ms interval is the explicit event `Tick`. */
module DemoCycler {
  import opened Wrappers

  /** A frame; its description, chart data and metric cards only feed the
      rendering and are left out. */
  datatype Frame = Frame(id: string, title: string)

  datatype Scenario = Scenario(id: string, title: string, frames: seq<Frame>)

  const Scenarios: seq<Scenario> := [
    Scenario("dashboard", "AI経営ダッシュボード",
      [Frame("baseline", "現状の会議準備"), Frame("projection", "AI提示シナリオ"),
       Frame("execution", "実行モニタリング")]),
    Scenario("cash", "資金繰りシナリオ",
      [Frame("baseline", "資金繰りの整理"), Frame("projection", "投資余力の試算"),
       Frame("execution", "金融機関連携")])
  ]

  /** Every scenario has a frame, and no two scenarios share an id. */
  predicate WellFormed(table: seq<Scenario>) {
    && |table| > 0
    && (forall k :: 0 <= k < |table| ==> |table[k].frames| > 0)
    && (forall j, k :: 0 <= j < k < |table| ==> table[j].id != table[k].id)
  }

  lemma ScenariosWellFormed()
    ensures WellFormed(Scenarios)
  {
  }

  /** `find` by id: the position of the first scenario with that id. */
  function FindId(table: seq<Scenario>, id: string): (r: Option<nat>)
    ensures r.None? <==> forall k :: 0 <= k < |table| ==> table[k].id != id
    ensures r.Some? ==> r.value < |table| && table[r.value].id == id
    ensures r.Some? ==> forall k :: 0 <= k < r.value ==> table[k].id != id
  {
    if table == [] then None
    else if table[0].id == id then Some(0)
    else
      match FindId(table[1..], id)
      case None => None
      case Some(k) => Some(k + 1)
  }

  /** Where the shown scenario sits in the table: the one with the id, or
      the first when no scenario has it. */
  function ScenarioIndex(id: string): (r: nat)
    ensures r < |Scenarios|
    ensures (exists k :: 0 <= k < |Scenarios| && Scenarios[k].id == id) ==> Scenarios[r].id == id
    ensures (forall k :: 0 <= k < |Scenarios| ==> Scenarios[k].id != id) ==> r == 0
  {
    FindId(Scenarios, id).GetOr(0)
  }

  /** The memoised `scenario`. */
  function Lookup(id: string): (r: Scenario)
    ensures r in Scenarios
    ensures (exists k :: 0 <= k < |Scenarios| && Scenarios[k].id == id) ==> r.id == id
    ensures (forall k :: 0 <= k < |Scenarios| ==> Scenarios[k].id != id) ==> r == Scenarios[0]
  {
    Scenarios[ScenarioIndex(id)]
  }

  /** Only one scenario can answer to an id. */
  lemma LookupById(id: string, k: nat)
    requires k < |Scenarios| && Scenarios[k].id == id
    ensures ScenarioIndex(id) == k && Lookup(id) == Scenarios[k]
  {
    ScenariosWellFormed();
  }

  /** `frames[frameIndex] ?? frames[0]`. */
  function FrameAt(sc: Scenario, i: nat): (f: Frame)
    requires |sc.frames| > 0
    ensures f in sc.frames
    ensures i < |sc.frames| ==> f == sc.frames[i]
    ensures i >= |sc.frames| ==> f == sc.frames[0]
  {
    if i < |sc.frames| then sc.frames[i] else sc.frames[0]
  }

  datatype DemoState = DemoState(scenarioId: string, frameIndex: nat, playing: bool)

  /** The first scenario at its first frame, playing. */
  const InitialDemo := DemoState(Scenarios[0].id, 0, true)

  datatype DemoEvent =
    | Tick
    | Select(id: string)
    | TogglePlay
    | VisibilityChange(hidden: bool)

  function Current(s: DemoState): Scenario {
    Lookup(s.scenarioId)
  }

  function FrameCount(s: DemoState): (n: nat)
    ensures n > 0
  {
    ScenariosWellFormed();
    |Current(s).frames|
  }

  /** The interval callback: the next frame, wrapping after the last. The
      interval only exists while playing. */
  function HandleTick(s: DemoState): (r: DemoState)
    ensures !s.playing ==> r == s
    ensures s.playing ==> r.scenarioId == s.scenarioId && r.playing
    ensures s.playing && s.frameIndex + 1 < FrameCount(s) ==> r.frameIndex == s.frameIndex + 1
    ensures s.playing && s.frameIndex + 1 == FrameCount(s) ==> r.frameIndex == 0
  {
    if s.playing then s.(frameIndex := (s.frameIndex + 1) % FrameCount(s)) else s
  }

  /** A scenario button: selects the id and plays; the frame goes back to
      the first exactly when the shown scenario changes. */
  function HandleSelect(s: DemoState, id: string): (r: DemoState)
    ensures r.scenarioId == id && r.playing
    ensures Current(r) == Current(s) ==> r.frameIndex == s.frameIndex
    ensures Current(r) != Current(s) ==> r.frameIndex == 0
  {
    var changed := ScenarioIndex(id) != ScenarioIndex(s.scenarioId);
    DemoState(id, if changed then 0 else s.frameIndex, true)
  }

  /** The `visibilitychange` listener: hiding the page pauses; showing it
      again does not resume. */
  function HandleVisibility(s: DemoState, hidden: bool): (r: DemoState)
    ensures hidden ==> r == s.(playing := false)
    ensures !hidden ==> r == s
  {
    if hidden then s.(playing := false) else s
  }

  /** One event. The play button flips playing; only it or a scenario
      button can start the player, and only a selection changes the
      scenario. */
  function DemoStep(s: DemoState, e: DemoEvent): (r: DemoState)
    ensures e.TogglePlay? ==> r == s.(playing := !s.playing)
    ensures r.playing && !s.playing ==> e.TogglePlay? || e.Select?
    ensures r.scenarioId != s.scenarioId ==> e.Select?
  {
    match e
    case Tick => HandleTick(s)
    case Select(id) => HandleSelect(s, id)
    case TogglePlay => s.(playing := !s.playing)
    case VisibilityChange(hidden) => HandleVisibility(s, hidden)
  }

  function DemoRun(s: DemoState, events: seq<DemoEvent>): DemoState
    decreases |events|
  {
    if events == [] then s else DemoRun(DemoStep(s, events[0]), events[1..])
  }

  /** The index always names a frame of the shown scenario, so the `??`
      fallback never applies. */
  predicate DemoInv(s: DemoState) {
    s.frameIndex < FrameCount(s)
  }

  lemma InitialDemoInv()
    ensures DemoInv(InitialDemo)
    ensures FrameAt(Current(InitialDemo), InitialDemo.frameIndex) == Scenarios[0].frames[0]
  {
    LookupById(Scenarios[0].id, 0);
  }

  /** Every event keeps the index on a frame of the scenario it shows. */
  lemma DemoStepInv(s: DemoState, e: DemoEvent)
    requires DemoInv(s)
    ensures DemoInv(DemoStep(s, e))
  {
    ScenariosWellFormed();
  }

  lemma {:induction false} DemoRunInv(s: DemoState, events: seq<DemoEvent>)
    requires DemoInv(s)
    ensures DemoInv(DemoRun(s, events))
    decreases |events|
  {
    if events != [] {
      DemoStepInv(s, events[0]);
      DemoRunInv(DemoStep(s, events[0]), events[1..]);
    }
  }

  function FrameTicks(k: nat): (ts: seq<DemoEvent>)
    ensures |ts| == k && forall i :: 0 <= i < k ==> ts[i] == Tick
  {
    if k == 0 then [] else [Tick] + FrameTicks(k - 1)
  }

  /** Euclidean division is determined by quotient and remainder. */
  lemma ModUnique(a: int, n: int, q: int, r: int)
    requires n > 0 && 0 <= r < n && a == q * n + r
    ensures a % n == r
  {
    var q0, r0 := a / n, a % n;
    assert a == q0 * n + r0;
    var d := q - q0;
    assert d * n == q * n - q0 * n;
    if d > 0 {
      MulAtLeast(d, n);
    } else if d < 0 {
      MulAtLeast(-d, n);
    }
  }

  lemma MulAtLeast(d: int, n: int)
    requires d >= 1 && n > 0
    ensures d * n >= n
  {
    assert d * n == (d - 1) * n + n;
    assert (d - 1) * n >= 0;
  }

  lemma ModSucc(a: nat, n: nat)
    requires n > 0
    ensures (a % n + 1) % n == (a + 1) % n
  {
    var q, r := a / n, a % n;
    DivMod(a, n);
    if r + 1 == n {
      MulSucc(q, n);
      ModUnique(a + 1, n, q + 1, 0);
      ModUnique(n, n, 1, 0);
    } else {
      ModUnique(a + 1, n, q, r + 1);
      ModUnique(r + 1, n, 0, r + 1);
    }
  }

  lemma DivMod(a: int, n: int)
    requires n > 0
    ensures a == (a / n) * n + a % n && 0 <= a % n < n
  {
  }

  lemma MulSucc(q: int, n: int)
    ensures (q + 1) * n == q * n + n
  {
  }

  /** While playing, k firings of the interval move the index k frames on,
      cyclically, and change nothing else. */
  lemma {:induction false} TicksAdvance(s: DemoState, k: nat)
    requires DemoInv(s) && s.playing
    ensures DemoRun(s, FrameTicks(k)) == s.(frameIndex := (s.frameIndex + k) % FrameCount(s))
    decreases k
  {
    var n := FrameCount(s);
    if k == 0 {
      ModUnique(s.frameIndex, n, 0, s.frameIndex);
    } else {
      var t := HandleTick(s);
      RunFirstTick(s, k);
      assert DemoInv(t) && t.playing && FrameCount(t) == n;
      TicksAdvance(t, k - 1);
      ShiftMod(s.frameIndex + 1, k - 1, n);
    }
  }

  /** The first of k ticks is the interval callback. */
  lemma RunFirstTick(s: DemoState, k: nat)
    requires k > 0
    ensures DemoRun(s, FrameTicks(k)) == DemoRun(HandleTick(s), FrameTicks(k - 1))
  {
    assert FrameTicks(k)[1..] == FrameTicks(k - 1);
  }

  lemma {:induction false} ShiftMod(a: nat, k: nat, n: nat)
    requires n > 0
    ensures (a % n + k) % n == (a + k) % n
    decreases k
  {
    if k == 0 {
      assert (a % n) % n == a % n;
    } else {
      ShiftMod(a, k - 1, n);
      ModSucc(a % n + (k - 1), n);
      ModSucc(a + (k - 1), n);
    }
  }

  /** A full cycle of ticks comes back to the same frame. */
  lemma FullCycle(s: DemoState)
    requires DemoInv(s) && s.playing
    ensures DemoRun(s, FrameTicks(FrameCount(s))) == s
  {
    var n := FrameCount(s);
    TicksAdvance(s, n);
    ModUnique(s.frameIndex + n, n, 1, s.frameIndex);
  }

  /** While playing, every frame of the scenario comes up within one cycle. */
  lemma VisitsEveryFrame(s: DemoState, j: nat)
    requires DemoInv(s) && s.playing && j < FrameCount(s)
    ensures exists k: nat :: k < FrameCount(s) && DemoRun(s, FrameTicks(k)).frameIndex == j
  {
    var n := FrameCount(s);
    var k: nat := if s.frameIndex <= j then j - s.frameIndex else n - s.frameIndex + j;
    TicksAdvance(s, k);
    if s.frameIndex <= j {
      ModUnique(s.frameIndex + k, n, 0, j);
    } else {
      ModUnique(s.frameIndex + k, n, 1, j);
    }
  }

  /** Paused, the interval does not exist: ticks change nothing. */
  lemma {:induction false} PausedStaysPut(s: DemoState, k: nat)
    requires !s.playing
    ensures DemoRun(s, FrameTicks(k)) == s
    decreases k
  {
    if k > 0 {
      assert FrameTicks(k)[1..] == FrameTicks(k - 1);
      PausedStaysPut(s, k - 1);
    }
  }

  /** Hiding the page freezes the frame until the user presses play or
      picks a scenario: ticks, further hides and the page becoming visible
      again change nothing. */
  lemma {:induction false} HiddenFreezes(s: DemoState, events: seq<DemoEvent>)
    requires forall i :: 0 <= i < |events| ==> !events[i].TogglePlay? && !events[i].Select?
    ensures DemoRun(DemoStep(s, VisibilityChange(true)), events) == s.(playing := false)
  {
    PausedFrozen(s.(playing := false), events);
  }

  /** A paused player stays as it is under any events other than the play
      button and the scenario buttons. */
  lemma {:induction false} PausedFrozen(s: DemoState, events: seq<DemoEvent>)
    requires !s.playing
    requires forall i :: 0 <= i < |events| ==> !events[i].TogglePlay? && !events[i].Select?
    ensures DemoRun(s, events) == s
    decreases |events|
  {
    if events != [] {
      assert DemoStep(s, events[0]) == s;
      assert forall i :: 0 <= i < |events[1..]| ==> events[1..][i] == events[i + 1];
      PausedFrozen(s, events[1..]);
    }
  }

  /** Choosing the scenario already shown keeps the frame; choosing
      another starts it from its first frame. */
  lemma SelectKeepsOrResets(s: DemoState, k: nat)
    requires k < |Scenarios|
    ensures var r := DemoStep(s, Select(Scenarios[k].id));
      && Current(r) == Scenarios[k] && r.playing
      && (Current(s) == Scenarios[k] ==> r.frameIndex == s.frameIndex)
      && (Current(s) != Scenarios[k] ==> r.frameIndex == 0)
  {
    LookupById(Scenarios[k].id, k);
  }

  /** The progress bar's width in percent, `(frameIndex + 1) / n * 100`,
      over the reals. */
  function Progress(s: DemoState): (r: real)
    ensures r > 0.0
  {
    (s.frameIndex + 1) as real / FrameCount(s) as real * 100.0
  }

  /** The bar is never empty, never overfull, and full exactly on the last
      frame. */
  lemma ProgressBounds(s: DemoState)
    requires DemoInv(s)
    ensures 0.0 < Progress(s) <= 100.0
    ensures Progress(s) == 100.0 <==> s.frameIndex + 1 == FrameCount(s)
  {
    var n := FrameCount(s) as real;
    var i := (s.frameIndex + 1) as real;
    assert 0.0 < i <= n;
    assert i / n <= 1.0;
    if i / n == 1.0 {
      assert i == n;
    }
  }

  /** Within a scenario, a later frame shows a wider bar. */
  lemma ProgressMonotone(s: DemoState, t: DemoState)
    requires s.scenarioId == t.scenarioId && s.frameIndex < t.frameIndex
    ensures Progress(s) < Progress(t)
  {
    var n := FrameCount(s) as real;
    assert (s.frameIndex + 1) as real < (t.frameIndex + 1) as real;
  }
}
