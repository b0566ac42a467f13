/** The display as a whole: the pixel surface, the image the panel last received, the flush
    rule between them, and the marquee register whose tick draws into the surface. The panel
    driver is reduced to the image it is handed; its size is a parameter of even width. */
module Display {
  import opened Wrappers
  import opened Surface
  import Debounce
  import Packing
  import Font
  import Text
  import Marquee

  /** The default cooldown between two physical flushes: none. */
  const DefaultCooldown := 0

  /** `shown` is the last image handed to the panel, `None` before the first flush. */
  datatype Panel = Panel(surface: Surface, flush: Debounce.State, shown: Option<seq<Byte>>, anims: Marquee.Register)

  predicate Valid(p: Panel) {
    Wf(p.surface) && p.surface.width % 2 == 0 && Marquee.Wf(p.anims)
  }

  /** The image of the surface as it is now. */
  function Image(p: Panel): (img: seq<Byte>)
    requires Valid(p)
  {
    Packing.Pack(p.surface).value
  }

  /** Nothing drawn is lost: the panel shows the surface, or a deferred flush is pending that
      will show it. */
  predicate Settled(p: Panel)
    requires Valid(p)
  {
    p.flush.pending || p.shown == Some(Image(p))
  }

  /** `do_flush`: the surface, packed, is handed to the panel. */
  function Show(p: Panel): (r: Panel)
    requires Valid(p)
    ensures Valid(r) && r.shown == Some(Image(p)) && r.surface == p.surface && r.flush == p.flush && r.anims == p.anims
  {
    p.(shown := Some(Image(p)))
  }

  /** `flush` at time `now`: shown at once when the cooldown has run out, otherwise left to
      the deferred flush. */
  function Flush(p: Panel, now: int, cooldown: int): (r: (Panel, Debounce.Decision))
    requires Valid(p)
    ensures Valid(r.0) && r.0.surface == p.surface && r.0.anims == p.anims
    ensures r.1 == Debounce.Request(p.flush, now, cooldown).1 && r.0.flush == Debounce.Request(p.flush, now, cooldown).0
    ensures r.0.shown == if r.1.FlushNow? then Some(Image(p)) else p.shown
    ensures Settled(r.0)
  {
    var (fs, decision) := Debounce.Request(p.flush, now, cooldown);
    var q := p.(flush := fs);
    if decision.FlushNow? then (Show(q), decision) else (q, decision)
  }

  /** `_scheduled_flush` firing at `now`: the surface as it is when the timer fires is shown,
      the time is recorded and the timer is gone. */
  function ScheduledFlush(p: Panel, now: int): (r: Panel)
    requires Valid(p)
    ensures Valid(r) && r.surface == p.surface && r.anims == p.anims
    ensures r.shown == Some(Image(p)) && r.flush == Debounce.State(Some(now), false)
    ensures Settled(r)
  {
    Show(p).(flush := Debounce.Fire(p.flush, now))
  }

  /** A marquee draw can be rendered: a well-formed font and a corner inside the surface's
      quadrant. */
  predicate Fits(d: Marquee.Draw) {
    Font.Wf(d.font) && d.x >= 0 && d.y >= 0
  }

  /** `draw_padded_text` for each draw, in order. */
  function ApplyDraws(s: Surface, draws: seq<Marquee.Draw>): (r: Surface)
    requires Wf(s) && forall k :: 0 <= k < |draws| ==> Fits(draws[k])
    ensures Wf(r) && r.width == s.width && r.height == s.height
    ensures |draws| == 0 ==> r == s
    decreases |draws|
  {
    if |draws| == 0 then s
    else
      var d := draws[0];
      assert Fits(draws[0]);
      assert forall k :: 0 <= k < |draws| - 1 ==> draws[1..][k] == draws[k + 1];
      ApplyDraws(Text.DrawPaddedText(s, d.font, d.text, d.x, d.y, d.w, d.col), draws[1..])
  }

  /** The surface after rendering one tick's draws of `reg`, in register order. */
  function Rendered(s: Surface, reg: Marquee.Register): (r: Surface)
    requires Wf(s) && Marquee.Wf(reg)
    ensures Wf(r) && r.width == s.width && r.height == s.height
  {
    TickDrawsFit(reg);
    ApplyDraws(s, Marquee.DrawsOf(reg))
  }

  /** Rendering two lists of draws one after the other renders the first, then the second. */
  lemma {:induction false} ApplyDrawsAppend(s: Surface, a: seq<Marquee.Draw>, b: seq<Marquee.Draw>)
    requires Wf(s) && (forall k :: 0 <= k < |a| ==> Fits(a[k])) && forall k :: 0 <= k < |b| ==> Fits(b[k])
    ensures forall k :: 0 <= k < |a + b| ==> Fits((a + b)[k])
    ensures ApplyDraws(s, a + b) == ApplyDraws(ApplyDraws(s, a), b)
    decreases |a|
  {
    if |a| == 0 {
      assert a + b == b;
    } else {
      assert (a + b)[0] == a[0] && (a + b)[1..] == a[1..] + b;
      assert Fits(a[0]);
      var d := a[0];
      var s1 := Text.DrawPaddedText(s, d.font, d.text, d.x, d.y, d.w, d.col);
      ApplyDrawsAppend(s1, a[1..], b);
    }
  }

  /** Every draw a tick produces comes from a registered entry, so it can be rendered. */
  lemma TickDrawsFit(reg: Marquee.Register)
    requires Marquee.Wf(reg)
    ensures forall k :: 0 <= k < |Marquee.DrawsOf(reg)| ==> Fits(Marquee.DrawsOf(reg)[k])
  {
    var draws := Marquee.DrawsOf(reg);
    forall k | 0 <= k < |draws| ensures Fits(draws[k]) {
      var d := draws[k];
      assert d in draws;
      var i :| 0 <= i < |reg| && Marquee.Step(reg[i].anim).1 == Some(d);
      assert Marquee.Drawable(reg[i].anim);
    }
  }

  /** `add_animated_text`: a text longer than its box joins the register and nothing is drawn;
      a shorter one is drawn padded at once and not registered. Neither flushes. */
  function AddAnimated(p: Panel, key: string, font: Font.Font, text: string, x: int, y: int, w: int, col: int): (r: Panel)
    requires Valid(p) && Font.Wf(font) && x >= 0 && y >= 0
    ensures Valid(r) && r.flush == p.flush && r.shown == p.shown
    ensures |text| > w ==> r.surface == p.surface && Marquee.HasKey(r.anims, key)
    ensures |text| <= w ==> r.anims == p.anims && r.surface == Text.DrawPaddedText(p.surface, font, text, x, y, w, col)
  {
    var (reg, draws) := Marquee.Add(p.anims, key, font, text, x, y, w, col);
    if |draws| == 0 then p.(anims := reg)
    else
      assert draws == [Marquee.Draw(font, text, x, y, w, col)];
      p.(anims := reg, surface := ApplyDraws(p.surface, draws))
  }

  /** One pass of `do_animations` at time `now`: every entry steps, the draws are rendered in
      register order, and the display is flushed exactly when something was drawn. */
  function Animate(p: Panel, now: int, cooldown: int): (r: (Panel, Option<Debounce.Decision>))
    requires Valid(p)
    ensures Valid(r.0) && r.0.anims == Marquee.StepAll(p.anims)
    ensures r.1.Some? <==> Marquee.Draws(p.anims)
    ensures r.1.None? ==> r.0 == p.(anims := r.0.anims)
    ensures r.1.Some? ==> Settled(r.0)
    ensures r.0.surface == Rendered(p.surface, p.anims)
  {
    var (reg, draws) := Marquee.Tick(p.anims);
    TickDrawsFit(p.anims);
    var q := p.(anims := reg, surface := ApplyDraws(p.surface, draws));
    if |draws| > 0 then
      var (f, decision) := Flush(q, now, cooldown);
      (f, Some(decision))
    else (q, None)
  }

  /** Every operation keeps the display settled: a flush request is never dropped, because it is
      shown at once, starts a timer, or meets a timer already pending that will show the newer
      surface when it fires. A tick without draws leaves the surface as it was. */
  lemma AnimateKeepsSettled(p: Panel, now: int, cooldown: int)
    requires Valid(p) && Settled(p)
    ensures Settled(Animate(p, now, cooldown).0)
  {
    var r := Animate(p, now, cooldown);
    if r.1.None? {
      assert r.0.surface == p.surface && r.0.flush == p.flush && r.0.shown == p.shown;
    }
  }

  /** With the default zero cooldown and a clock that does not go back, every flush request is
      shown at once and no timer is ever started. */
  lemma ZeroCooldownShowsAtOnce(p: Panel, now: int)
    requires Valid(p) && (p.flush.last.Some? ==> p.flush.last.value <= now)
    ensures Flush(p, now, DefaultCooldown).1.FlushNow?
    ensures Flush(p, now, DefaultCooldown).0.shown == Some(Image(p))
  {
  }
}
