/**
 * The shell's overlay controller: whether the calendar overlay and the app
 * container (launcher) overlay are shown, the two trigger clicks that toggle
 * them, and the document-wide `mousedown` handler that hides an overlay when
 * the pointer goes down outside it.
 */
module Overlay {

  datatype Option<T> = None | Some(value: T)

  /** A DOM element: its identity and its class list. */
  datatype Element = Element(id: nat, classes: set<string>)

  /**
   * The target of a pointer event, given by its inclusive ancestor chain:
   * `path[0]` is the target itself, each next entry the parent of the one
   * before, up to the document root.
   */
  datatype Target = Target(path: seq<Element>)

  /** `node.contains(target)`: `node` is the target or one of its ancestors. */
  predicate Contains(node: Element, t: Target) {
    exists i :: 0 <= i < |t.path| && t.path[i].id == node.id
  }

  /** `target.closest('.' + cls)` is not null: the target or an ancestor carries the class. */
  predicate HasClosest(t: Target, cls: string) {
    exists i :: 0 <= i < |t.path| && cls in t.path[i].classes
  }

  const GIconContainer: string := "g-icon-container"
  const AppContainer: string := "app-container"

  /** The launcher's own regions: the G icon that toggles it, and the container itself. */
  predicate InLauncher(t: Target) {
    HasClosest(t, GIconContainer) || HasClosest(t, AppContainer)
  }

  /** What `calendarRef.current` and `dateButtonRef.current` point at; `None` while unattached. */
  datatype Refs = Refs(calendar: Option<Element>, dateButton: Option<Element>)

  /** The two flags `showCalendar` and `showAppContainer`. */
  datatype Visibility = Visibility(showCalendar: bool, showAppContainer: bool)

  const Hidden: Visibility := Visibility(false, false)

  /** The calendar check: shown, both refs attached, and the target in neither. */
  predicate DismissesCalendar(v: Visibility, refs: Refs, t: Target) {
    v.showCalendar &&
    refs.calendar.Some? && !Contains(refs.calendar.value, t) &&
    refs.dateButton.Some? && !Contains(refs.dateButton.value, t)
  }

  /** The launcher check: shown, and the target outside both launcher regions. */
  predicate DismissesLauncher(v: Visibility, t: Target) {
    v.showAppContainer && !InLauncher(t)
  }

  /** `handleClickOutside`: the two checks, each on the state before the event. */
  function ClickOutside(v: Visibility, refs: Refs, t: Target): (r: Visibility)
    ensures r.showCalendar ==> v.showCalendar
    ensures r.showAppContainer ==> v.showAppContainer
  {
    Visibility(
      if DismissesCalendar(v, refs, t) then false else v.showCalendar,
      if DismissesLauncher(v, t) then false else v.showAppContainer)
  }

  /** The user gestures the controller reacts to. */
  datatype Event =
    | DateClick          // click on the date button: `handleDateClick`
    | GIconClick         // click on the G icon: `handleGIconClick`
    | MouseDown(target: Target)

  function Step(v: Visibility, refs: Refs, e: Event): Visibility {
    match e
    case DateClick => v.(showCalendar := !v.showCalendar)
    case GIconClick => v.(showAppContainer := !v.showAppContainer)
    case MouseDown(t) => ClickOutside(v, refs, t)
  }

  /** The state after handling `events` in order, starting from `v`. */
  function Run(v: Visibility, refs: Refs, events: seq<Event>): Visibility
    decreases |events|
  {
    if events == [] then v else Run(Step(v, refs, events[0]), refs, events[1..])
  }

  /** Handling a list of events is handling its first, then the rest. */
  lemma RunPrefix(v: Visibility, refs: Refs, e: Event, rest: seq<Event>)
    ensures Run(v, refs, [e] + rest) == Run(Step(v, refs, e), refs, rest)
  {
    assert ([e] + rest)[1..] == rest;
  }

  function Count(events: seq<Event>, e: Event): nat {
    if events == [] then 0
    else (if events[0] == e then 1 else 0) + Count(events[1..], e)
  }

  predicate IsToggle(e: Event) {
    e == DateClick || e == GIconClick
  }

  /**
   * With only trigger clicks, each overlay is shown exactly when its trigger
   * was clicked an odd number of times more than it started shown.
   */
  lemma {:induction false} ToggleParity(v: Visibility, refs: Refs, events: seq<Event>)
    requires forall i :: 0 <= i < |events| ==> IsToggle(events[i])
    ensures Run(v, refs, events).showCalendar == (v.showCalendar != (Count(events, DateClick) % 2 == 1))
    ensures Run(v, refs, events).showAppContainer == (v.showAppContainer != (Count(events, GIconClick) % 2 == 1))
    decreases |events|
  {
    if events != [] {
      ToggleParity(Step(v, refs, events[0]), refs, events[1..]);
    }
  }

  /** Toggling either overlay twice gives back the state it started from. */
  lemma ToggleTwice(v: Visibility, refs: Refs)
    ensures Run(v, refs, [DateClick, DateClick]) == v
    ensures Run(v, refs, [GIconClick, GIconClick]) == v
  {
    ToggleParity(v, refs, [DateClick, DateClick]);
    ToggleParity(v, refs, [GIconClick, GIconClick]);
  }

  /**
   * The calendar is hidden by a pointer-down exactly when it is shown, both
   * refs are attached and the target is in neither; otherwise it stays as it was.
   */
  lemma CalendarDismissal(v: Visibility, refs: Refs, t: Target)
    ensures !ClickOutside(v, refs, t).showCalendar
        <==> !v.showCalendar || DismissesCalendar(v, refs, t)
    ensures refs.calendar.None? || refs.dateButton.None?
        ==> ClickOutside(v, refs, t).showCalendar == v.showCalendar
    ensures refs.calendar.Some? && Contains(refs.calendar.value, t)
        ==> ClickOutside(v, refs, t).showCalendar == v.showCalendar
    ensures refs.dateButton.Some? && Contains(refs.dateButton.value, t)
        ==> ClickOutside(v, refs, t).showCalendar == v.showCalendar
  {
  }

  /**
   * The launcher is hidden by a pointer-down exactly when it is shown and the
   * target is outside the G icon and the app container; whatever the calendar
   * does on the same event does not matter.
   */
  lemma LauncherDismissal(v: Visibility, refs: Refs, t: Target, other: bool)
    ensures !ClickOutside(v, refs, t).showAppContainer <==> !v.showAppContainer || !InLauncher(t)
    ensures ClickOutside(v.(showCalendar := other), refs, t).showAppContainer
         == ClickOutside(v, refs, t).showAppContainer
    ensures ClickOutside(v.(showAppContainer := other), refs, t).showCalendar
         == ClickOutside(v, refs, t).showCalendar
  {
  }

  /** A second pointer-down on the same target changes nothing more. */
  lemma ClickOutsideIdempotent(v: Visibility, refs: Refs, t: Target)
    ensures ClickOutside(ClickOutside(v, refs, t), refs, t) == ClickOutside(v, refs, t)
  {
  }

  /** With both refs attached, one pointer-down outside everything hides both overlays. */
  lemma OutsideHidesBoth(v: Visibility, panel: Element, button: Element, t: Target)
    requires !Contains(panel, t) && !Contains(button, t) && !InLauncher(t)
    ensures ClickOutside(v, Refs(Some(panel), Some(button)), t) == Hidden
  {
  }

  /**
   * Pointer-down events never show an overlay: over any run of them, a hidden
   * overlay stays hidden.
   */
  lemma {:induction false} MouseDownsNeverShow(v: Visibility, refs: Refs, events: seq<Event>)
    requires forall i :: 0 <= i < |events| ==> events[i].MouseDown?
    ensures Run(v, refs, events).showCalendar ==> v.showCalendar
    ensures Run(v, refs, events).showAppContainer ==> v.showAppContainer
    decreases |events|
  {
    if events != [] {
      MouseDownsNeverShow(Step(v, refs, events[0]), refs, events[1..]);
    }
  }

  /**
   * The refs as this shell leaves them (never attached to an element): no
   * sequence of events ever hides the calendar except its own trigger.
   */
  lemma {:induction false} CalendarOnlyToggles(v: Visibility, events: seq<Event>)
    ensures Run(v, Refs(None, None), events).showCalendar
         == (v.showCalendar != (Count(events, DateClick) % 2 == 1))
    decreases |events|
  {
    if events != [] {
      CalendarOnlyToggles(Step(v, Refs(None, None), events[0]), events[1..]);
    }
  }

  /**
   * A click on the date button is a pointer-down on the button followed by the
   * click: the calendar flips, and the launcher, not suppressed by the
   * calendar's trigger, is hidden if it was shown and the button lies outside it.
   */
  lemma DateButtonGesture(v: Visibility, refs: Refs, t: Target)
    requires refs.dateButton.Some? ==> Contains(refs.dateButton.value, t)
    ensures Run(v, refs, [MouseDown(t), DateClick])
         == Visibility(!v.showCalendar, v.showAppContainer && InLauncher(t))
  {
    RunPrefix(v, refs, MouseDown(t), [DateClick]);
    RunPrefix(ClickOutside(v, refs, t), refs, DateClick, []);
    assert [MouseDown(t)] + [DateClick] == [MouseDown(t), DateClick];
  }

  /**
   * A click on the G icon is a pointer-down inside `.g-icon-container`
   * followed by the click: the launcher flips rather than being hidden and
   * shown again.
   */
  lemma GIconGesture(v: Visibility, refs: Refs, t: Target)
    requires HasClosest(t, GIconContainer)
    ensures Run(v, refs, [MouseDown(t), GIconClick]).showAppContainer == !v.showAppContainer
  {
    RunPrefix(v, refs, MouseDown(t), [GIconClick]);
    RunPrefix(ClickOutside(v, refs, t), refs, GIconClick, []);
    assert [MouseDown(t)] + [GIconClick] == [MouseDown(t), GIconClick];
  }

  /**
   * Open the calendar, open the launcher, then press outside both. As written
   * the refs are never attached, so only the launcher closes; with the refs
   * attached to the panel and the button, both would.
   */
  lemma OpenBothThenClickOutside(panel: Element, button: Element, t: Target)
    requires !Contains(panel, t) && !Contains(button, t) && !InLauncher(t)
    ensures Run(Hidden, Refs(None, None), [DateClick, GIconClick, MouseDown(t)])
         == Visibility(true, false)
    ensures Run(Hidden, Refs(Some(panel), Some(button)), [DateClick, GIconClick, MouseDown(t)])
         == Hidden
  {
    var events := [DateClick, GIconClick, MouseDown(t)];
    assert events == [DateClick] + ([GIconClick] + [MouseDown(t)]);
    var attached := Refs(Some(panel), Some(button));
    forall refs | refs == Refs(None, None) || refs == attached
      ensures Run(Hidden, refs, events) == ClickOutside(Visibility(true, true), refs, t)
    {
      RunPrefix(Hidden, refs, DateClick, [GIconClick] + [MouseDown(t)]);
      RunPrefix(Visibility(true, false), refs, GIconClick, [MouseDown(t)]);
      RunPrefix(Visibility(true, true), refs, MouseDown(t), []);
    }
  }

  /** The `App` component's state and its three handlers. */
  class App {
    var showCalendar: bool
    var showAppContainer: bool
    var calendarRef: Option<Element>
    var dateButtonRef: Option<Element>

    function State(): Visibility
      reads this
    {
      Visibility(showCalendar, showAppContainer)
    }

    function CurrentRefs(): Refs
      reads this
    {
      Refs(calendarRef, dateButtonRef)
    }

    /** Both overlays start hidden; no element is ever attached to either ref. */
    constructor ()
      ensures State() == Hidden
      ensures CurrentRefs() == Refs(None, None)
    {
      showCalendar := false;
      showAppContainer := false;
      calendarRef := None;
      dateButtonRef := None;
    }

    /** `handleDateClick`: flip the calendar, leave the launcher. */
    method HandleDateClick()
      modifies this`showCalendar
      ensures showCalendar == !old(showCalendar)
      ensures State() == Step(old(State()), CurrentRefs(), DateClick)
    {
      showCalendar := !showCalendar;
    }

    /** `handleGIconClick`: flip the launcher, leave the calendar. */
    method HandleGIconClick()
      modifies this`showAppContainer
      ensures showAppContainer == !old(showAppContainer)
      ensures State() == Step(old(State()), CurrentRefs(), GIconClick)
    {
      showAppContainer := !showAppContainer;
    }

    /** `handleClickOutside`, on the current state. */
    method HandleClickOutside(target: Target)
      modifies this`showCalendar, this`showAppContainer
      ensures State() == ClickOutside(old(State()), CurrentRefs(), target)
    {
      if showCalendar && calendarRef.Some? && !Contains(calendarRef.value, target)
         && dateButtonRef.Some? && !Contains(dateButtonRef.value, target)
      {
        showCalendar := false;
      }
      if showAppContainer && !HasClosest(target, GIconContainer) && !HasClosest(target, AppContainer) {
        showAppContainer := false;
      }
    }
  }
}
