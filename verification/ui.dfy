/** The input router of the camera UI: rotary events drive the menu while the UI is awake,
    an idle UI falls asleep, and any event wakes a sleeping one. Hardware power, the camera
    feed and the processing thread become the flags they set; time is microseconds. */
module Ui {
  import opened Wrappers
  import opened Items
  import Menu

  /** The idle time after which the UI goes to sleep, exclusive: 30 seconds. */
  const IdleLimit := 30_000_000

  /** A rotary event as the encoder publishes it. */
  datatype Event = Rotate(value: int) | Press | LongPress

  /** `running` is the element's running flag; the loop keeps ticking while the UI runs or
      sleeps. */
  datatype Ui = Ui(
    sleeping: bool,
    running: bool,
    saving: bool,
    lastAction: int,
    menu: Menu.State,
    world: Menu.World)

  /** What an event did: the new UI, the callbacks it invoked in order, and whether it took a
      picture. */
  datatype Reaction = Reaction(ui: Ui, calls: seq<CallbackId>, snapped: bool)

  predicate Wf(u: Ui) {
    Menu.Wf(u.menu, u.world)
  }

  /** `wake`: start again (running, idle clock reset, the menu reselects its entry, which
      leaves edit mode and re-subscribes the redraw), then clear the sleeping flag. */
  function Wake(u: Ui, now: int): (r: Ui)
    requires Wf(u)
    ensures Wf(r) && r.running && !r.sleeping && r.saving == u.saving && r.lastAction == now
    ensures r.menu == u.menu.(editing := false, confirm := false, cursor := 0)
    ensures Menu.SameItems(u.world, r.world)
  {
    var s := Menu.ChangeSelected(u.menu, u.world, u.menu.index, false).value;
    u.(running := true, lastAction := now, menu := s.0, world := s.1, sleeping := false)
  }

  /** `sleep`: set the sleeping flag and stop, which leaves edit mode. */
  function Sleep(u: Ui): (r: Ui)
    ensures r.sleeping && !r.running && !r.menu.editing
    ensures r.world == u.world && r.lastAction == u.lastAction && r.saving == u.saving
    ensures r.menu == u.menu.(editing := false)
  {
    u.(sleeping := true, running := false, menu := u.menu.(editing := false))
  }

  lemma SleepKeepsWf(u: Ui)
    requires Wf(u)
    ensures Wf(Sleep(u))
  {
    assert Menu.Current(Sleep(u).menu, u.world) == Menu.Current(u.menu, u.world);
  }

  /** The rotor handler. A sleeping UI only wakes; a stopped or saving UI ignores the event;
      otherwise the idle clock is reset and the event goes to the menu: a rotation right for a
      positive value and left otherwise, a press that the menu does not handle takes a
      picture, and a long press is forwarded. */
  function RotorAction(u: Ui, ev: Event, now: int, enabled: CallbackId -> bool): (r: Result<Reaction, Error>)
    requires Wf(u)
    ensures r.Ok? ==> Wf(r.value.ui)
    ensures u.sleeping ==> r == Ok(Reaction(Wake(u, now), [], false))
    ensures !u.sleeping && (!u.running || u.saving) ==> r == Ok(Reaction(u, [], false))
    ensures r.Ok? && !u.sleeping && u.running && !u.saving ==>
      && r.value.ui.lastAction == now
      && !r.value.ui.sleeping && r.value.ui.running && !r.value.ui.saving
  {
    if u.sleeping then Ok(Reaction(Wake(u, now), [], false))
    else if !u.running || u.saving then Ok(Reaction(u, [], false))
    else
      var u1 := u.(lastAction := now);
      match ev
      case Rotate(v) =>
        var s :- if v > 0 then Menu.MoveRight(u1.menu, u1.world, now) else Menu.MoveLeft(u1.menu, u1.world, now);
        Ok(Reaction(u1.(menu := s.menu, world := s.world), s.calls, false))
      case Press =>
        var p :- Menu.Press(u1.menu, u1.world, now, enabled);
        Ok(Reaction(u1.(menu := p.1.menu, world := p.1.world), p.1.calls, !p.0))
      case LongPress =>
        var l :- Menu.LongPress(u1.menu, u1.world, enabled);
        Ok(Reaction(u1.(menu := l.1, world := l.2), [], false))
  }

  /** One pass of the processing loop: an awake UI idle for more than the limit goes to
      sleep; a UI neither running nor sleeping has no loop. */
  function Tick(u: Ui, now: int): (r: Ui)
    ensures (u.running || u.sleeping) && !u.sleeping && now - u.lastAction > IdleLimit ==> r == Sleep(u)
    ensures !((u.running || u.sleeping) && !u.sleeping && now - u.lastAction > IdleLimit) ==> r == u
  {
    if (u.running || u.sleeping) && now - u.lastAction > IdleLimit && !u.sleeping then Sleep(u)
    else u
  }

  // ---------------------------------------------------------------------------------------
  // Properties

  /** A rotation goes right exactly for a positive value; zero counts as left. */
  lemma RotateDispatch(u: Ui, v: int, now: int, enabled: CallbackId -> bool)
    requires Wf(u) && !u.sleeping && u.running && !u.saving
    ensures var u1 := u.(lastAction := now);
      && (v > 0 ==> RotorAction(u, Rotate(v), now, enabled).Ok? == Menu.MoveRight(u1.menu, u1.world, now).Ok?)
      && (v <= 0 ==> RotorAction(u, Rotate(v), now, enabled).Ok? == Menu.MoveLeft(u1.menu, u1.world, now).Ok?)
      && (RotorAction(u, Rotate(v), now, enabled).Ok? ==>
        var r := RotorAction(u, Rotate(v), now, enabled).value;
        var s := (if v > 0 then Menu.MoveRight(u1.menu, u1.world, now) else Menu.MoveLeft(u1.menu, u1.world, now)).value;
        r.ui.menu == s.menu && r.ui.world == s.world && r.calls == s.calls && !r.snapped)
  {
  }

  /** A press takes a picture exactly when the menu is not editing, and then changes nothing
      in the menu. */
  lemma PressFallsThroughToSnap(u: Ui, now: int, enabled: CallbackId -> bool)
    requires Wf(u) && !u.sleeping && u.running && !u.saving
    ensures !u.menu.editing ==> RotorAction(u, Press, now, enabled) == Ok(Reaction(u.(lastAction := now), [], true))
    ensures u.menu.editing && RotorAction(u, Press, now, enabled).Ok? ==> !RotorAction(u, Press, now, enabled).value.snapped
  {
  }

  /** A long press reaches the menu's long press, with no callbacks and no picture. */
  lemma {:induction false} LongPressForwarded(u: Ui, now: int, enabled: CallbackId -> bool)
    requires Wf(u) && !u.sleeping && u.running && !u.saving
    ensures RotorAction(u, LongPress, now, enabled).Ok? == Menu.LongPress(u.menu, u.world, enabled).Ok?
    ensures RotorAction(u, LongPress, now, enabled).Ok? ==>
      var r := RotorAction(u, LongPress, now, enabled).value;
      var l := Menu.LongPress(u.menu, u.world, enabled).value;
      r.ui.menu == l.1 && r.ui.world == l.2 && r.calls == [] && !r.snapped
  {
  }

  /** Sleeping and waking: a tick on an awake UI idle past the limit puts it to sleep; the
      next event, whatever it is, wakes it without reaching the menu, restarting the idle clock
      so that a tick at the same moment keeps it awake. */
  lemma IdleSleepThenWake(u: Ui, ev: Event, t: int, now: int, enabled: CallbackId -> bool)
    requires Wf(u) && u.running && !u.sleeping && t - u.lastAction > IdleLimit
    ensures Tick(u, t).sleeping && !Tick(u, t).running
    ensures var s := Tick(u, t);
      Wf(s) && RotorAction(s, ev, now, enabled).Ok? &&
      var w := RotorAction(s, ev, now, enabled).value;
      && w.calls == [] && !w.snapped && w.ui.running && !w.ui.sleeping
      && w.ui.menu.index == u.menu.index && !w.ui.menu.editing
      && Tick(w.ui, now) == w.ui
  {
    SleepKeepsWf(u);
  }

  /** A UI that keeps receiving accepted events at most the limit apart never falls asleep:
      each tick right after an accepted event leaves it alone until the limit has passed. */
  lemma ActiveUiStaysAwake(u: Ui, ev: Event, now: int, t: int, enabled: CallbackId -> bool)
    requires Wf(u) && u.running && !u.sleeping && !u.saving
    requires RotorAction(u, ev, now, enabled).Ok?
    requires t - now <= IdleLimit
    ensures var r := RotorAction(u, ev, now, enabled).value.ui;
      Tick(r, t) == r && r.running && !r.sleeping
  {
  }
}
