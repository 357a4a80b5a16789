/**
 The sort screen's controller: the state the Swing handlers share, one pure
 transition per handler, the animation timer as an explicit tick, and a
 dispatcher that delivers an event only to a control the user can reach.
 */
module Controller {
  import opened Steps
  import opened Generator
  import opened Planner

  datatype Option<T> = None | Some(value: T)

  /** The card the `CardLayout` shows. */
  datatype Screen = Intro | SortScreen

  /** The message dialog a handler pops up, if any. */
  datatype Notice =
    | Silent           // no dialog
    | NotANumber       // "Please enter a valid positive number."
    | CountOutOfRange  // "Please enter a number between 1 and 1000."
    | WaitForSort      // "Please wait until the sorting is done."
    | PickSmallValue   // "Please select a value smaller or equal to 30."

  /**
   The fields the handlers share. `numbers` is null until the first
   generation. `captured[s]` is the value the click handler of the button
   created in slot s was given; `buttons[k]` is the slot id of the button
   shown at position k. `timerActive` is `timer != null`.
   */
  datatype App = App(
    screen: Screen,
    count: int,
    numbers: Option<seq<int>>,
    planning: seq<int>,
    captured: seq<int>,
    buttons: seq<int>,
    deque: seq<Step>,
    timerActive: bool,
    sortEnabled: bool,
    descending: bool)

  /** A handler's result: the new state and the dialog it shows. */
  datatype Outcome = Outcome(app: App, notice: Notice)

  /** The state after construction: intro screen, nothing generated, ascending last. */
  function Init(): (r: App)
    ensures r.screen == Intro && r.numbers.None? && !r.timerActive && !r.descending
    ensures Valid(r)
  {
    App(Intro, 0, None, [], [], [], [], false, true, false)
  }

  /** The slot ids 0..n-1 in order: the buttons as `createNumberButtons` lays them out. */
  function Slots(n: nat): (r: seq<int>)
    ensures |r| == n
    ensures forall k :: 0 <= k < n ==> r[k] == k
  {
    seq(n, k => k)
  }

  /** `buttons` holds every slot id 0..n-1 exactly once. */
  predicate SlotPermutation(buttons: seq<int>, n: int) {
    && |buttons| == n
    && (forall k :: 0 <= k < n ==> 0 <= buttons[k] < n)
    && (forall a, b :: 0 <= a < b < n ==> buttons[a] != buttons[b])
  }

  /** Pressing the button at position k passes `numbers[k]`, the value the button shows. */
  predicate Lockstep(numbers: seq<int>, captured: seq<int>, buttons: seq<int>)
    requires |captured| == |numbers| && SlotPermutation(buttons, |numbers|)
  {
    forall k :: 0 <= k < |numbers| ==> captured[buttons[k]] == numbers[k]
  }

  /** The generated board: sizes agree, values in range, buttons in lockstep with the numbers. */
  predicate Board(app: App) {
    && app.numbers.Some?
    && var n := |app.numbers.value|;
    && 1 <= n <= MAX_NUMBER_COUNT
    && |app.planning| == n
    && |app.captured| == n
    && SlotPermutation(app.buttons, n)
    && (forall k :: 0 <= k < n ==> 1 <= app.numbers.value[k] <= MAX_NUMBER_VALUE)
    && Lockstep(app.numbers.value, app.captured, app.buttons)
  }

  /**
   While the timer runs: the sort button is disabled, the deque's steps are
   inside the array, replaying them turns the shown numbers into the
   planning array, and that array is sorted in the current direction.
   */
  predicate Playing(app: App)
    requires Board(app)
  {
    && app.screen == SortScreen
    && !app.sortEnabled
    && AllInRange(app.deque, 0, |app.numbers.value| - 1)
    && Replay(app.numbers.value, app.deque) == app.planning
    && SortedBetween(app.descending, app.planning, 0, |app.planning| - 1)
  }

  /**
   The controller's invariant. The sort screen always has numbers; while
   the timer runs the playback is consistent; on the sort screen with no
   timer the sort button is enabled and the shown numbers equal the planning
   array, which is what lets the next plan start from `planningArray`.
   */
  predicate Valid(app: App) {
    && (app.screen == SortScreen ==> app.numbers.Some?)
    && (app.numbers.Some? ==> Board(app))
    && (app.timerActive ==> Board(app) && Playing(app))
    && (app.screen == SortScreen && !app.timerActive ==>
          app.sortEnabled && app.numbers.value == app.planning)
  }

  /**
   `generateRandomNumbers` then `createNumberButtons`: fresh numbers, the
   planning copy, and one button per slot that captures its number.
   */
  function Regenerate(app: App, count: int, d: Draws): (r: App)
    requires 1 <= count && Fits(d, count)
    ensures r.numbers.Some? && |r.numbers.value| == count
    ensures forall k :: 0 <= k < count ==> 1 <= r.numbers.value[k] <= MAX_NUMBER_VALUE
    ensures HasSpecial(r.numbers.value)
    ensures r.planning == r.numbers.value
    ensures SlotPermutation(r.buttons, count) && |r.captured| == count
    ensures Lockstep(r.numbers.value, r.captured, r.buttons)
    ensures r.(numbers := app.numbers, planning := app.planning, captured := app.captured, buttons := app.buttons) == app
  {
    var numbers := Generate(count, d);
    app.(numbers := Some(numbers), planning := numbers, captured := numbers, buttons := Slots(count))
  }

  /** `showSortScreen`: generate for `count`, enable the sort button, show the sort card. */
  function ShowSortScreen(app: App, d: Draws): (r: App)
    requires 1 <= app.count && Fits(d, app.count)
    ensures r.screen == SortScreen && r.sortEnabled
    ensures r.numbers.Some? && |r.numbers.value| == app.count && r.planning == r.numbers.value
    ensures r.timerActive == app.timerActive && r.deque == app.deque && r.descending == app.descending
  {
    Regenerate(app, app.count, d).(sortEnabled := true, screen := SortScreen)
  }

  /**
   The enter button. `parsed` is what `Integer.parseInt` made of the text
   field (None when it threw). The count is stored before the range check,
   so a rejected count still overwrites `numberCount`.
   */
  function Enter(app: App, parsed: Option<int>, d: Draws): (r: Outcome)
    requires parsed.Some? && 1 <= parsed.value <= MAX_NUMBER_COUNT ==> Fits(d, parsed.value)
    ensures parsed.None? ==> r == Outcome(app, NotANumber)
    ensures parsed.Some? ==> r.app.count == parsed.value
    ensures parsed.Some? && !(1 <= parsed.value <= MAX_NUMBER_COUNT) ==>
              r == Outcome(app.(count := parsed.value), CountOutOfRange)
    ensures parsed.Some? && 1 <= parsed.value <= MAX_NUMBER_COUNT ==>
              && r.notice == Silent && r.app.screen == SortScreen && r.app.sortEnabled
              && r.app.numbers.Some? && |r.app.numbers.value| == parsed.value
              && r.app.planning == r.app.numbers.value
  {
    match parsed
    case None => Outcome(app, NotANumber)
    case Some(n) =>
      var counted := app.(count := n);
      if n <= 0 || n > MAX_NUMBER_COUNT then Outcome(counted, CountOutOfRange)
      else Outcome(ShowSortScreen(counted, d), Silent)
  }

  /**
   The sort button: when there are numbers and no timer, flip the direction,
   disable the button, replace the deque by the plan of the planning array
   and start the timer; otherwise nothing happens.
   */
  function Sort(app: App): (r: App)
    ensures !(app.numbers.Some? && !app.timerActive) ==> r == app
    ensures app.numbers.Some? && !app.timerActive ==>
              && r.descending == !app.descending
              && r.timerActive && !r.sortEnabled
              && |r.planning| == |app.planning|
              && r.(planning := app.planning, deque := app.deque, descending := app.descending,
                    timerActive := false, sortEnabled := app.sortEnabled) == app
  {
    if app.numbers.Some? && !app.timerActive then
      var descending := !app.descending;
      var plan := QuickSort(app.planning, 0, |app.planning| - 1, descending);
      app.(descending := descending, sortEnabled := false, planning := plan.a, deque := plan.steps, timerActive := true)
    else
      app
  }

  /** What a tick needs to run without an index error: the head step lies inside both arrays. */
  predicate TickDefined(app: App) {
    && app.numbers.Some?
    && |app.buttons| == |app.numbers.value|
    && (app.deque != [] ==> InRange(app.deque[0], 0, |app.numbers.value| - 1))
  }

  /**
   One firing of the animation timer: pop the head step and apply it to the
   numbers and, in lockstep, to the buttons; on an empty deque stop the
   timer and re-enable the sort button, leaving every array as it is.
   */
  function Tick(app: App): (r: App)
    requires TickDefined(app)
    ensures app.deque == [] ==> r == app.(timerActive := false, sortEnabled := true)
    ensures app.deque != [] ==> && r.deque == app.deque[1..]
                                && r.numbers.Some? && |r.numbers.value| == |app.numbers.value|
                                && |r.buttons| == |app.buttons|
                                && r.(numbers := app.numbers, buttons := app.buttons, deque := app.deque) == app
  {
    if app.deque != [] then
      var st := app.deque[0];
      app.(numbers := Some(Swap(app.numbers.value, st.i, st.j)),
           buttons := Swap(app.buttons, st.i, st.j),
           deque := app.deque[1..])
    else
      app.(timerActive := false, sortEnabled := true)
  }

  /** The reset button: stop the timer and show the intro card; nothing else is cleared. */
  function Reset(app: App): (r: App)
    ensures r.screen == Intro && !r.timerActive
    ensures r.(screen := app.screen, timerActive := app.timerActive) == app
  {
    app.(timerActive := false, screen := Intro)
  }

  /**
   `onNumberButtonClick(number)`: refuse while sorting, regenerate `number`
   values when it is at most MIN_SPECIAL_NUMBER, refuse otherwise.
   */
  function OnNumberClick(app: App, number: int, d: Draws): (r: Outcome)
    requires !app.timerActive && number <= MIN_SPECIAL_NUMBER ==> 1 <= number && Fits(d, number)
    ensures app.timerActive ==> r == Outcome(app, WaitForSort)
    ensures !app.timerActive && number > MIN_SPECIAL_NUMBER ==> r == Outcome(app, PickSmallValue)
    ensures !app.timerActive && number <= MIN_SPECIAL_NUMBER ==>
              && r.notice == Silent && r.app.count == number
              && r.app.numbers.Some? && |r.app.numbers.value| == number
              && r.app.planning == r.app.numbers.value
              && r.app.screen == app.screen && r.app.deque == app.deque && r.app.descending == app.descending
  {
    if app.timerActive then Outcome(app, WaitForSort)
    else if number <= MIN_SPECIAL_NUMBER then Outcome(Regenerate(app.(count := number), number, d), Silent)
    else Outcome(app, PickSmallValue)
  }

  /** The value the click handler of the button at position k was given. */
  function PressedValue(app: App, k: int): int
    requires 0 <= k < |app.buttons| && 0 <= app.buttons[k] < |app.captured|
  {
    app.captured[app.buttons[k]]
  }

  /** What the user can do: each event names a control, or the timer. */
  datatype Event =
    | EnterPressed(parsed: Option<int>, draws: Draws)
    | SortPressed
    | ResetPressed
    | NumberPressed(position: int, draws: Draws)
    | TimerFired

  /** The random draws an event carries fit the count they are drawn for. */
  predicate DrawsFit(app: App, e: Event) {
    match e
    case EnterPressed(parsed, d) =>
      parsed.Some? && 1 <= parsed.value <= MAX_NUMBER_COUNT ==> Fits(d, parsed.value)
    case NumberPressed(k, d) =>
      && app.screen == SortScreen && !app.timerActive
      && 0 <= k < |app.buttons| && 0 <= app.buttons[k] < |app.captured|
      && PressedValue(app, k) <= MIN_SPECIAL_NUMBER
      ==> Fits(d, PressedValue(app, k))
    case _ => true
  }

  /**
   Delivers an event to its handler when the control is reachable: the
   enter button on the intro card; sort (while enabled), reset and the
   number buttons on the sort card; the tick while a timer exists.
   Anything else changes nothing.
   */
  function Handle(app: App, e: Event): (r: Outcome)
    requires Valid(app) && DrawsFit(app, e)
    ensures !app.timerActive ==> !r.app.timerActive || e == SortPressed
    ensures e.TimerFired? && !app.timerActive ==> r == Outcome(app, Silent)
    ensures e.SortPressed? && !(app.screen == SortScreen && app.sortEnabled) ==> r == Outcome(app, Silent)
  {
    match e
    case EnterPressed(parsed, d) =>
      if app.screen == Intro then Enter(app, parsed, d) else Outcome(app, Silent)
    case SortPressed =>
      if app.screen == SortScreen && app.sortEnabled then Outcome(Sort(app), Silent) else Outcome(app, Silent)
    case ResetPressed =>
      if app.screen == SortScreen then Outcome(Reset(app), Silent) else Outcome(app, Silent)
    case NumberPressed(k, d) =>
      if app.screen == SortScreen && 0 <= k < |app.buttons| then
        OnNumberClick(app, PressedValue(app, k), d)
      else
        Outcome(app, Silent)
    case TimerFired =>
      if app.timerActive then Outcome(Tick(app), Silent) else Outcome(app, Silent)
  }

  /** On the sort card the button at position k passes the number it shows. */
  lemma PressedShowsValue(app: App, k: int)
    requires Valid(app) && app.screen == SortScreen && 0 <= k < |app.buttons|
    ensures 0 <= app.buttons[k] < |app.captured|
    ensures PressedValue(app, k) == app.numbers.value[k]
    ensures 1 <= PressedValue(app, k) <= MAX_NUMBER_VALUE
  {
  }

  /** Whenever the sort button can be pressed no playback is running and the shown numbers are the planning array. */
  lemma SortStartsFromShown(app: App)
    requires Valid(app) && app.screen == SortScreen && app.sortEnabled
    ensures !app.timerActive && app.numbers.Some? && app.numbers.value == app.planning
  {
  }

  /** The enter button keeps the invariant. */
  lemma EnterPreservesValid(app: App, parsed: Option<int>, d: Draws)
    requires Valid(app) && app.screen == Intro
    requires parsed.Some? && 1 <= parsed.value <= MAX_NUMBER_COUNT ==> Fits(d, parsed.value)
    ensures Valid(Enter(app, parsed, d).app)
  {
  }

  /**
   Pressing sort keeps the invariant: the new deque replays the shown
   numbers into the new planning array, which is sorted in the new direction.
   */
  lemma SortPreservesValid(app: App)
    requires Valid(app) && app.screen == SortScreen && app.sortEnabled
    ensures Valid(Sort(app))
  {
    var n := |app.planning|;
    var plan := QuickSort(app.planning, 0, n - 1, !app.descending);
    QuickSortReplays(app.planning, 0, n - 1, !app.descending);
    QuickSortSorted(app.planning, 0, n - 1, !app.descending);
    assert Sort(app).planning == plan.a && Sort(app).deque == plan.steps;
  }

  /** The reset button keeps the invariant, although it leaves the deque and the numbers as they were. */
  lemma ResetPreservesValid(app: App)
    requires Valid(app)
    ensures Valid(Reset(app))
  {
  }

  /** A number button keeps the invariant: refused clicks change nothing, accepted ones regenerate. */
  lemma ClickPreservesValid(app: App, k: int, d: Draws)
    requires Valid(app) && app.screen == SortScreen && 0 <= k < |app.buttons|
    requires !app.timerActive && PressedValue(app, k) <= MIN_SPECIAL_NUMBER ==> Fits(d, PressedValue(app, k))
    ensures Valid(OnNumberClick(app, PressedValue(app, k), d).app)
  {
    PressedShowsValue(app, k);
  }

  /** Swapping the numbers and the buttons at the same two positions keeps them in lockstep. */
  lemma SwapKeepsLockstep(numbers: seq<int>, captured: seq<int>, buttons: seq<int>, i: int, j: int)
    requires |captured| == |numbers| && SlotPermutation(buttons, |numbers|)
    requires Lockstep(numbers, captured, buttons)
    requires 0 <= i < |numbers| && 0 <= j < |numbers|
    ensures SlotPermutation(Swap(buttons, i, j), |numbers|)
    ensures Lockstep(Swap(numbers, i, j), captured, Swap(buttons, i, j))
  {
    var bs := Swap(buttons, i, j);
    forall a, b | 0 <= a < b < |numbers| ensures bs[a] != bs[b] {
    }
  }

  /**
   A tick keeps the invariant: the swap moves the numbers and the buttons
   together, and the rest of the deque replays the new numbers into the same
   planning array. On an empty deque the numbers already are that array.
   */
  lemma TickPreservesValid(app: App)
    requires Valid(app) && app.timerActive
    ensures TickDefined(app)
    ensures Valid(Tick(app))
  {
    var numbers := app.numbers.value;
    if app.deque != [] {
      var st := app.deque[0];
      assert InRange(st, 0, |numbers| - 1);
      var r := Tick(app);
      var ns := Swap(numbers, st.i, st.j);
      assert r.numbers.value == ns && r.buttons == Swap(app.buttons, st.i, st.j);
      SwapKeepsLockstep(numbers, app.captured, app.buttons, st.i, st.j);
      SliceInRange(app.deque, 1, |app.deque|, 0, |numbers| - 1);
      assert Replay(ns, r.deque) == app.planning;
    }
  }

  /** Every event the dispatcher delivers keeps the invariant. */
  lemma HandlePreservesValid(app: App, e: Event)
    requires Valid(app) && DrawsFit(app, e)
    ensures Valid(Handle(app, e).app)
  {
    match e
    case EnterPressed(parsed, d) =>
      if app.screen == Intro {
        EnterPreservesValid(app, parsed, d);
      }
    case SortPressed =>
      if app.screen == SortScreen && app.sortEnabled {
        SortPreservesValid(app);
      }
    case ResetPressed =>
      ResetPreservesValid(app);
    case NumberPressed(k, d) =>
      if app.screen == SortScreen && 0 <= k < |app.buttons| {
        ClickPreservesValid(app, k, d);
      }
    case TimerFired =>
      if app.timerActive {
        TickPreservesValid(app);
      }
  }

  /** n firings of the timer while the deque still holds at least n steps. */
  function Ticks(app: App, n: nat): (r: App)
    requires Valid(app) && app.timerActive && n <= |app.deque|
    ensures Valid(r) && r.timerActive
    ensures r.deque == app.deque[n..]
    ensures r.planning == app.planning && r.descending == app.descending
    decreases n
  {
    if n == 0 then app
    else
      TickPreservesValid(app);
      Ticks(Tick(app), n - 1)
  }

  /** The ticks apply the deque's steps to the shown numbers head first, in the order they were recorded. */
  lemma {:induction false} TicksReplay(app: App, n: nat)
    requires Valid(app) && app.timerActive && n <= |app.deque|
    ensures AllInRange(app.deque[..n], 0, |app.numbers.value| - 1)
    ensures Ticks(app, n).numbers.value == Replay(app.numbers.value, app.deque[..n])
    decreases n
  {
    if n == 0 {
      assert app.deque[..n] == [];
    } else {
      ReplayPrefix(app.numbers.value, app.deque, n);
      TickPreservesValid(app);
      TicksReplay(Tick(app), n - 1);
      assert Tick(app).deque[..n - 1] == app.deque[1..n];
    }
  }

  /**
   A full playback sorts the board: pressing sort and letting the timer fire
   once per recorded step leaves the shown numbers equal to the plan, sorted
   in the new direction and a permutation of what was shown before; the next
   firing stops the timer and re-enables the sort button.
   */
  lemma PlaybackSorts(app: App)
    requires Valid(app) && app.screen == SortScreen && app.sortEnabled
    ensures Sort(app).timerActive
    ensures Valid(Sort(app))
    ensures var s := Sort(app);
            var done := Ticks(s, |s.deque|);
            && done.deque == []
            && done.numbers.value == s.planning
            && SortedBetween(s.descending, done.numbers.value, 0, |done.numbers.value| - 1)
            && multiset(done.numbers.value) == multiset(app.numbers.value)
            && !Tick(done).timerActive && Tick(done).sortEnabled
            && Tick(done).numbers == done.numbers
  {
    SortPreservesValid(app);
    var s := Sort(app);
    TicksReplay(s, |s.deque|);
    assert s.deque[..|s.deque|] == s.deque;
    ReplayPermutes(s.numbers.value, s.deque);
  }

  /**
   One press of sort played to the end: the plan's steps, then the firing
   that finds the deque empty. The board is back at rest, sorted in the
   flipped direction, a permutation of what it was, and ready for the next
   press, which will sort the other way.
   */
  function Playback(app: App): (r: App)
    requires Valid(app) && app.screen == SortScreen && app.sortEnabled
    ensures Valid(r) && r.screen == SortScreen && r.sortEnabled && !r.timerActive
    ensures r.descending == !app.descending
    ensures SortedBetween(r.descending, r.numbers.value, 0, |r.numbers.value| - 1)
    ensures multiset(r.numbers.value) == multiset(app.numbers.value)
  {
    PlaybackSorts(app);
    var s := Sort(app);
    var done := Ticks(s, |s.deque|);
    TickPreservesValid(done);
    Tick(done)
  }

  /** The first sort after entering a count sorts in descending order. */
  lemma FirstSortDescends(parsed: Option<int>, d: Draws)
    requires parsed.Some? && 1 <= parsed.value <= MAX_NUMBER_COUNT && Fits(d, parsed.value)
    ensures var s := Sort(Enter(Init(), parsed, d).app);
            s.timerActive && s.descending
  {
  }
}
