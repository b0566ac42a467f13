/** Scrolling text: labelled entries whose text is longer than its box scroll through it one
    character per refresh, holding the start for a few frames and the end for a few more, then
    starting over. The animation thread's loop body is one pure tick over the register; the
    drawing it does is returned as a list of padded-text draws. */
module Marquee {
  import opened Wrappers
  import opened Arith
  import opened Seqs
  import Font
  import Text

  /** Refresh period and the holds at both ends, in milliseconds (0.5 s, 2 s and 2 s). */
  const RefreshMs := 500
  const StartHoldMs := 2000
  const EndHoldMs := 2000

  /** `math.ceil(a / b)` for a positive divisor. */
  function CeilDiv(a: nat, b: nat): (q: nat)
    requires b > 0
    ensures q * b >= a && (q == 0 || (q - 1) * b < a)
  {
    if a == 0 then 0 else (a - 1) / b + 1
  }

  /** The frames the first and the last window are held: four each. */
  const StartFrames := CeilDiv(StartHoldMs, RefreshMs)
  const EndFrames := CeilDiv(EndHoldMs, RefreshMs)

  lemma HoldFrames()
    ensures StartFrames == 4 && EndFrames == 4
  {
  }

  /** One animated text: where and how it is drawn, and the frame it is at. */
  datatype Anim = Anim(font: Font.Font, text: string, x: int, y: int, w: int, col: int, frame: nat)

  /** A request to draw `text` padded to `w` characters at (x, y). */
  datatype Draw = Draw(font: Font.Font, text: string, x: int, y: int, w: int, col: int)

  datatype Entry = Entry(key: string, anim: Anim)

  /** The register, in the insertion order of its keys. */
  type Register = seq<Entry>

  /** Labels are unique, and every entry can be drawn and holds a text longer than its box. */
  predicate Wf(reg: Register) {
    && (forall i, j :: 0 <= i < j < |reg| ==> reg[i].key != reg[j].key)
    && (forall i :: 0 <= i < |reg| ==> Drawable(reg[i].anim) && |reg[i].anim.text| > reg[i].anim.w)
  }

  predicate Drawable(a: Anim) {
    Font.Wf(a.font) && a.x >= 0 && a.y >= 0
  }

  /** The last frame of the cycle that is not the reset: the scroll length plus both holds. */
  function MaxFrames(a: Anim): int {
    (|a.text| - a.w) + StartFrames + EndFrames
  }

  /** `text[k:]` for `k >= 0`: empty when `k` is past the end. */
  function Drop(text: string, k: nat): (t: string)
    ensures |t| == if k <= |text| then |text| - k else 0
    ensures forall j :: 0 <= j < |t| ==> t[j] == text[k + j]
  {
    if k <= |text| then text[k..] else ""
  }

  /** One frame of one entry: past the last frame it restarts at 0 without drawing; otherwise
      frame 0 draws the whole text, a frame after the start hold and up to the end hold draws the
      text from the character the scroll has reached, any other frame draws nothing, and the
      frame advances. */
  function Step(a: Anim): (r: (Anim, Option<Draw>))
    ensures r.0 == a.(frame := r.0.frame)
    ensures a.frame > MaxFrames(a) ==> r.0.frame == 0 && r.1 == None
    ensures a.frame <= MaxFrames(a) ==> r.0.frame == a.frame + 1
    ensures r.1.Some? <==> a.frame <= MaxFrames(a) && (a.frame == 0 || StartFrames < a.frame <= MaxFrames(a) - EndFrames)
    ensures r.1.Some? ==> r.1.value == Draw(a.font, r.1.value.text, a.x, a.y, a.w, a.col)
    ensures a.frame == 0 <= MaxFrames(a) ==> r.1 == Some(Draw(a.font, a.text, a.x, a.y, a.w, a.col))
  {
    if a.frame > MaxFrames(a) then (a.(frame := 0), None)
    else
      var d :=
        if a.frame == 0 then Some(Draw(a.font, a.text, a.x, a.y, a.w, a.col))
        else if StartFrames < a.frame <= MaxFrames(a) - EndFrames then
          Some(Draw(a.font, Drop(a.text, a.frame - StartFrames), a.x, a.y, a.w, a.col))
        else None;
      (a.(frame := a.frame + 1), d)
  }

  /** The scrolling windows: frame `f` of the scroll shows the text from character
      `f - StartFrames`, a suffix that still fills the box, so the padded string drawn is
      exactly the `w` characters from there; the last scrolling frame shows the text's end. */
  lemma ScrollWindow(a: Anim)
    requires 0 <= a.w < |a.text|
    requires StartFrames < a.frame <= MaxFrames(a) - EndFrames
    ensures var k := a.frame - StartFrames;
      var d := Step(a).1.value;
      && 1 <= k <= |a.text| - a.w
      && d.text == a.text[k..]
      && |d.text| >= a.w
      && Text.Padded(d.text, a.w) == a.text[k..k + a.w]
    ensures a.frame == MaxFrames(a) - EndFrames ==> Text.Padded(Step(a).1.value.text, a.w) == a.text[|a.text| - a.w..]
  {
    var k := a.frame - StartFrames;
    var d := Step(a).1.value;
    assert d.text == a.text[k..];
    var p := Text.Padded(d.text, a.w);
    assert p == a.text[k..k + a.w];
  }

  // ---------------------------------------------------------------------------------------
  // The frame cycle

  /** `n` ticks of one entry. */
  function Run(a: Anim, n: nat): Anim {
    if n == 0 then a else Step(Run(a, n - 1)).0
  }

  /** Starting at frame 0, an entry whose text is longer than its box is at frame
      `n mod (MaxFrames + 2)` after `n` ticks: it counts 0, 1, ..., MaxFrames + 1 and restarts. */
  lemma {:induction false} FrameCycle(a: Anim, n: nat)
    requires a.frame == 0 && |a.text| > a.w
    ensures Run(a, n).frame == n % (MaxFrames(a) + 2)
    ensures Run(a, n) == a.(frame := Run(a, n).frame)
  {
    if n > 0 {
      FrameCycle(a, n - 1);
      NextRemainder(n - 1, MaxFrames(a) + 2);
    }
  }

  /** The remainder of `n + 1` follows from that of `n`. */
  lemma NextRemainder(n: nat, p: int)
    requires p > 0
    ensures (n + 1) % p == if n % p < p - 1 then n % p + 1 else 0
  {
    var q := n / p;
    var m := n % p;
    assert n == q * p + m;
    if m < p - 1 {
      DivModOf(q, p, m + 1);
    } else {
      assert n + 1 == (q + 1) * p + 0;
      DivModOf(q + 1, p, 0);
    }
  }

  /** In one cycle from frame 0, the whole text is drawn once, then each scroll position once. */
  lemma DrawsInCycle(a: Anim, n: nat)
    requires a.frame == 0 && |a.text| > a.w && n < MaxFrames(a) + 2
    ensures Step(Run(a, n)).1.Some? <==> n == 0 || StartFrames < n <= MaxFrames(a) - EndFrames
  {
    FrameCycle(a, n);
    DivModOf(0, MaxFrames(a) + 2, n);
    assert Run(a, n) == a.(frame := n);
  }

  // ---------------------------------------------------------------------------------------
  // The register

  predicate HasKey(reg: Register, key: string) {
    exists i :: 0 <= i < |reg| && reg[i].key == key
  }

  /** The position of `key`, if present. */
  function IndexOf(reg: Register, key: string): (r: Option<nat>)
    ensures r.Some? ==> r.value < |reg| && reg[r.value].key == key
    ensures r.None? <==> !HasKey(reg, key)
  {
    if |reg| == 0 then None
    else if reg[|reg| - 1].key == key then Some(|reg| - 1)
    else
      var r := IndexOf(reg[..|reg| - 1], key);
      assert forall i :: 0 <= i < |reg| - 1 ==> reg[..|reg| - 1][i] == reg[i];
      r
  }

  /** `add_animated_text`: a text longer than its box is registered under `key` at frame 0
      (replacing an entry of that key in place, or appended); a text that fits is drawn at
      once, padded, and not registered. */
  function Add(reg: Register, key: string, font: Font.Font, text: string, x: int, y: int, w: int, col: int): (r: (Register, seq<Draw>))
    requires Wf(reg) && Drawable(Anim(font, text, x, y, w, col, 0))
    ensures Wf(r.0)
    ensures |text| <= w ==> r == (reg, [Draw(font, text, x, y, w, col)])
    ensures |text| > w ==> r.1 == [] && HasKey(r.0, key)
    ensures |text| > w ==> forall i :: 0 <= i < |r.0| && r.0[i].key == key ==> r.0[i].anim == Anim(font, text, x, y, w, col, 0)
    ensures |text| > w ==> |r.0| == |reg| + (if HasKey(reg, key) then 0 else 1)
    ensures |text| > w ==> forall i :: 0 <= i < |reg| && reg[i].key != key ==> r.0[i] == reg[i]
  {
    if |text| > w then
      var e := Entry(key, Anim(font, text, x, y, w, col, 0));
      match IndexOf(reg, key)
      case Some(i) =>
        var r := reg[i := e];
        assert r[i].key == key;
        (r, [])
      case None =>
        var r := reg + [e];
        assert r[|reg|].key == key;
        (r, [])
    else (reg, [Draw(font, text, x, y, w, col)])
  }

  /** `remove_animated_text`: the entry of `key` goes, the others keep their order. */
  function Remove(reg: Register, key: string): (r: Register)
    requires Wf(reg)
    ensures Wf(r) && !HasKey(r, key)
    ensures forall e :: e in reg && e.key != key ==> e in r
    ensures forall e :: e in r ==> e in reg
    ensures HasKey(reg, key) ==> |r| == |reg| - 1
    ensures !HasKey(reg, key) ==> r == reg
  {
    match IndexOf(reg, key)
    case Some(i) =>
      var r := reg[..i] + reg[i + 1..];
      assert forall j :: 0 <= j < |r| ==> r[j] == if j < i then reg[j] else reg[j + 1];
      r
    case None => reg
  }

  /** `remove_all_animated_text`. */
  function RemoveAll(reg: Register): (r: Register)
    ensures Wf(r) && forall key :: !HasKey(r, key)
  {
    []
  }

  /** Every entry stepped, in register order. */
  function StepAll(reg: Register): (r: Register)
    ensures |r| == |reg|
    ensures forall i :: 0 <= i < |reg| ==> r[i] == Entry(reg[i].key, Step(reg[i].anim).0)
  {
    if |reg| == 0 then []
    else StepAll(reg[..|reg| - 1]) + [Entry(reg[|reg| - 1].key, Step(reg[|reg| - 1].anim).0)]
  }

  /** Some entry draws on this step. */
  predicate Draws(reg: Register) {
    exists i :: 0 <= i < |reg| && Step(reg[i].anim).1.Some?
  }

  /** The draws of a step, in register order. */
  function DrawsOf(reg: Register): (r: seq<Draw>)
    ensures |r| <= |reg|
    ensures |r| > 0 <==> Draws(reg)
    ensures forall d :: d in r ==> exists i :: 0 <= i < |reg| && Step(reg[i].anim).1 == Some(d)
    ensures |reg| == 1 && Step(reg[0].anim).1.Some? ==> r == [Step(reg[0].anim).1.value]
    ensures |reg| == 1 && Step(reg[0].anim).1.None? ==> r == []
  {
    if |reg| == 0 then []
    else
      var n := |reg| - 1;
      var front := DrawsOf(reg[..n]);
      var s := Step(reg[n].anim).1;
      var r := front + (if s.Some? then [s.value] else []);
      DrawsStep(reg, front, r);
      r
  }

  lemma {:induction false} DrawsStep(reg: Register, front: seq<Draw>, r: seq<Draw>)
    requires |reg| > 0
    requires var n := |reg| - 1;
      && (|front| > 0 <==> Draws(reg[..n]))
      && (forall d :: d in front ==> exists i :: 0 <= i < n && Step(reg[..n][i].anim).1 == Some(d))
      && var s := Step(reg[n].anim).1; r == front + (if s.Some? then [s.value] else [])
    ensures |r| > 0 <==> Draws(reg)
    ensures forall d :: d in r ==> exists i :: 0 <= i < |reg| && Step(reg[i].anim).1 == Some(d)
  {
    var n := |reg| - 1;
    if Draws(reg[..n]) {
      var i :| 0 <= i < n && Step(reg[..n][i].anim).1.Some?;
      assert reg[..n][i] == reg[i];
    }
    if Draws(reg) && !Step(reg[n].anim).1.Some? {
      var i :| 0 <= i < |reg| && Step(reg[i].anim).1.Some?;
      assert reg[..n][i] == reg[i];
    }
    forall d | d in r ensures exists i :: 0 <= i < |reg| && Step(reg[i].anim).1 == Some(d) {
      if d in front {
        var i :| 0 <= i < n && Step(reg[..n][i].anim).1 == Some(d);
        assert reg[..n][i] == reg[i];
      } else {
        assert Step(reg[n].anim).1 == Some(d);
      }
    }
  }

  /** The draws of two registers one after the other are the first's draws, then the second's;
      with the single-entry case of `DrawsOf`, every entry that draws contributes exactly its
      one draw, in register order. */
  lemma {:induction false} DrawsOfAppend(a: Register, b: Register)
    ensures DrawsOf(a + b) == DrawsOf(a) + DrawsOf(b)
    decreases |b|
  {
    if |b| == 0 {
      assert a + b == a;
    } else {
      DrawsOfAppend(a, b[..|b| - 1]);
      DrawsOfAppendLast(a, b);
    }
  }

  /** The inductive step of `DrawsOfAppend`: appending one more entry to both sides. */
  lemma DrawsOfAppendLast(a: Register, b: Register)
    requires |b| > 0
    requires DrawsOf(a + b[..|b| - 1]) == DrawsOf(a) + DrawsOf(b[..|b| - 1])
    ensures DrawsOf(a + b) == DrawsOf(a) + DrawsOf(b)
  {
    var n := |b| - 1;
    DropLastOfAppend(a, b);
    DrawsOfLast(a + b);
    DrawsOfLast(b);
    var s := Step(b[n].anim).1;
    AppendAssoc(DrawsOf(a), DrawsOf(b[..n]), if s.Some? then [s.value] else []);
  }

  /** The draws of a register are those of all its entries but the last, then the last's. */
  lemma DrawsOfLast(reg: Register)
    requires |reg| > 0
    ensures var s := Step(reg[|reg| - 1].anim).1;
      DrawsOf(reg) == DrawsOf(reg[..|reg| - 1]) + (if s.Some? then [s.value] else [])
  {
  }

  /** One pass of the animation loop: every entry steps, in register order, and the draws come
      out in that order; the display is flushed exactly when some entry drew. Ticking keeps the
      register well formed. */
  function Tick(reg: Register): (r: (Register, seq<Draw>))
    requires Wf(reg)
    ensures Wf(r.0) && r.0 == StepAll(reg) && r.1 == DrawsOf(reg)
  {
    var r := StepAll(reg);
    assert forall i :: 0 <= i < |r| ==> r[i].key == reg[i].key && r[i].anim == reg[i].anim.(frame := r[i].anim.frame);
    (r, DrawsOf(reg))
  }
}
