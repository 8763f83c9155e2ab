/** The per-monitor overlay window's timer tick: mapping the physical
    cursor position into the window's device-independent coordinates,
    showing or hiding the highlight circle, and the trail of fading dots
    that follows the cursor. The platform queries (cursor position, DPI of
    the monitor under the cursor) arrive as parameters. */
module CanvasWindow {
  import opened Basics

  /** Identity of an element placed on the overlay canvas. */
  type ElementId = nat

  /** A cursor position in physical screen pixels. */
  datatype PhysicalPoint = PhysicalPoint(x: int, y: int)

  /** The overlay window: origin and size in device-independent units and
      the DPI scale WPF reports for the window itself. */
  datatype WindowFrame = WindowFrame(
    left: real, top: real, width: real, height: real,
    dpiScaleX: real, dpiScaleY: real)

  /** The DPI at which one device-independent unit is one pixel. */
  const BaseDpi: real := 96.0

  function MonitorScale(dpi: nat): real
  {
    dpi as real / BaseDpi
  }

  // ---------------------------------------------------------------------
  // Coordinate mapping
  // ---------------------------------------------------------------------

  /** Window-local coordinates of a physical cursor position, given the
      effective DPI of the monitor under the cursor. The cursor is divided
      by the cursor monitor's scale; the window origin is first brought to
      pixels with the window's own scale and then divided by the cursor
      monitor's scale. A zero DPI makes every coordinate non-finite, which
      no bounds test accepts: there is no local point then. */
  function ToLocal(p: PhysicalPoint, dpiX: nat, dpiY: nat, w: WindowFrame): (r: Option<Point>)
    ensures r.Some? <==> dpiX > 0 && dpiY > 0
    ensures r.Some? ==>
      && r.value.x * MonitorScale(dpiX) + w.left * w.dpiScaleX == p.x as real
      && r.value.y * MonitorScale(dpiY) + w.top * w.dpiScaleY == p.y as real
  {
    if dpiX == 0 || dpiY == 0 then None
    else
      var scaleX := MonitorScale(dpiX);
      var scaleY := MonitorScale(dpiY);
      var globalX := p.x as real / scaleX;
      var globalY := p.y as real / scaleY;
      var windowLeft := w.left * w.dpiScaleX;
      var windowTop := w.top * w.dpiScaleY;
      Some(Point(globalX - windowLeft / scaleX, globalY - windowTop / scaleY))
  }

  /** When the window and the cursor's monitor share a DPI, the local
      point is the cursor in device-independent units minus the window's
      origin. */
  lemma SameDpiLocalIsOffset(p: PhysicalPoint, dpiX: nat, dpiY: nat, w: WindowFrame)
    requires dpiX > 0 && dpiY > 0
    requires w.dpiScaleX == MonitorScale(dpiX) && w.dpiScaleY == MonitorScale(dpiY)
    ensures ToLocal(p, dpiX, dpiY, w) ==
      Some(Point(p.x as real / MonitorScale(dpiX) - w.left, p.y as real / MonitorScale(dpiY) - w.top))
  {
    var sx := MonitorScale(dpiX);
    var sy := MonitorScale(dpiY);
    assert sx > 0.0 && sy > 0.0;
    assert (w.left * sx) / sx == w.left;
    assert (w.top * sy) / sy == w.top;
    var r := ToLocal(p, dpiX, dpiY, w).value;
    assert r.x == p.x as real / sx - (w.left * sx) / sx;
    assert r.y == p.y as real / sy - (w.top * sy) / sy;
  }

  /** The bounds test: inclusive at both ends of both axes. */
  predicate Inside(q: Point, w: WindowFrame)
  {
    0.0 <= q.x <= w.width && 0.0 <= q.y <= w.height
  }

  /** The four corners of a window are inside it, and a point beyond any
      edge is not. */
  lemma InsideIsInclusive(w: WindowFrame, q: Point)
    requires w.width >= 0.0 && w.height >= 0.0
    ensures Inside(Point(0.0, 0.0), w) && Inside(Point(w.width, w.height), w)
    ensures Inside(Point(0.0, w.height), w) && Inside(Point(w.width, 0.0), w)
    ensures q.x < 0.0 || q.x > w.width || q.y < 0.0 || q.y > w.height ==> !Inside(q, w)
  {
  }

  /** The local point of the cursor when it is on this window. */
  function Locate(p: PhysicalPoint, dpiX: nat, dpiY: nat, w: WindowFrame): (r: Option<Point>)
    ensures r.Some? <==> dpiX > 0 && dpiY > 0 && Inside(ToLocal(p, dpiX, dpiY, w).value, w)
    ensures r.Some? ==> r == ToLocal(p, dpiX, dpiY, w)
  {
    var local := ToLocal(p, dpiX, dpiY, w);
    if local.Some? && Inside(local.value, w) then local else None
  }

  // ---------------------------------------------------------------------
  // Dots
  // ---------------------------------------------------------------------

  /** A new dot's opacity, 0.6, in hundredths. */
  const DotStartOpacity: int := 60
  /** The opacity a dot loses per tick, 0.02, in hundredths. */
  const DotFadeStep: int := 2
  /** A new dot's width and height. */
  const DotSize: real := 10.0
  /** The factor a dot's width and height shrink by per tick. */
  const ShrinkFactor: real := 0.97

  /** A trail dot: canvas position of its top-left corner, size, and
      opacity in hundredths. */
  datatype Dot = Dot(id: ElementId, left: real, top: real, width: real, height: real, opacity: int)

  /** The highlight circle that sits on the cursor. */
  datatype Circle = Circle(visible: bool, left: real, top: real, width: real, height: real)

  /** The window's drawing state: the dot queue (oldest first), the
      circle, the dots placed on the canvas, and the identity the next dot
      receives. */
  datatype Overlay = Overlay(trail: seq<Dot>, circle: Circle, canvas: set<ElementId>, nextId: ElementId)

  function Centre(d: Dot): Point
  {
    Point(d.left + d.width / 2.0, d.top + d.height / 2.0)
  }

  function Ids(ds: seq<Dot>): set<ElementId>
  {
    set d | d in ds :: d.id
  }

  predicate DistinctIds(ds: seq<Dot>)
  {
    forall i, j :: 0 <= i < j < |ds| ==> ds[i].id != ds[j].id
  }

  /** A dot created at `q`: centred on it, 10 by 10, at opacity 0.6. */
  function NewDot(id: ElementId, q: Point): (d: Dot)
    ensures d.id == id
    ensures Centre(d) == q
    ensures d.width == DotSize && d.height == DotSize
    ensures d.opacity == DotStartOpacity
  {
    Dot(id, q.x - DotSize / 2.0, q.y - DotSize / 2.0, DotSize, DotSize, DotStartOpacity)
  }

  /** The shrink step exactly as the tick writes it: the size shrinks
      first, and the shift meant to keep the dot centred is computed from
      the already shrunk size. */
  function ShrinkAsWritten(d: Dot): Dot
  {
    var width := d.width * ShrinkFactor;
    var height := d.height * ShrinkFactor;
    d.(width := width, height := height,
       left := d.left + (1.0 - ShrinkFactor) * width / 2.0,
       top := d.top + (1.0 - ShrinkFactor) * height / 2.0)
  }

  /** The written shrink moves the centre up and to the left by 0.00045
      times the size on every tick, so dots do not stay centred. */
  lemma ShrinkAsWrittenDrifts(d: Dot)
    ensures Centre(ShrinkAsWritten(d)).x == Centre(d).x - 0.00045 * d.width
    ensures Centre(ShrinkAsWritten(d)).y == Centre(d).y - 0.00045 * d.height
    ensures d.width > 0.0 ==> Centre(ShrinkAsWritten(d)) != Centre(d)
  {
  }

  /** A new dot at (5, 5) is centred at (4.9955, 4.9955) after one shrink. */
  lemma ShrinkAsWrittenExample()
    ensures Centre(NewDot(0, Point(5.0, 5.0))) == Point(5.0, 5.0)
    ensures Centre(ShrinkAsWritten(NewDot(0, Point(5.0, 5.0)))) == Point(4.9955, 4.9955)
  {
  }

  /** The shrink step with the shift computed from the size before
      shrinking: the size shrinks by 3% and the centre stays put. */
  function Shrink(d: Dot): (d': Dot)
    ensures d'.id == d.id && d'.opacity == d.opacity
    ensures d'.width == d.width * ShrinkFactor && d'.height == d.height * ShrinkFactor
    ensures Centre(d') == Centre(d)
  {
    var width := d.width * ShrinkFactor;
    var height := d.height * ShrinkFactor;
    d.(width := width, height := height,
       left := d.left + (d.width - width) / 2.0,
       top := d.top + (d.height - height) / 2.0)
  }

  /** One tick of one dot: one fade step less opaque, and shrunk. */
  function FadeDot(d: Dot): (d': Dot)
    ensures d'.id == d.id
    ensures d'.opacity == d.opacity - DotFadeStep
    ensures Centre(d') == Centre(d)
  {
    Shrink(d).(opacity := d.opacity - DotFadeStep)
  }

  /** Every dot of the queue faded once, in queue order. */
  function FadeAll(ds: seq<Dot>): (faded: seq<Dot>)
    ensures |faded| == |ds|
    ensures forall i :: 0 <= i < |ds| ==> faded[i] == FadeDot(ds[i])
  {
    seq(|ds|, i requires 0 <= i < |ds| => FadeDot(ds[i]))
  }

  /** How many dots the cleanup loop dequeues: it pops from the front as
      long as the front dot is fully transparent. */
  function FadedPrefix(ds: seq<Dot>): (k: nat)
    ensures k <= |ds|
    ensures forall i :: 0 <= i < k ==> ds[i].opacity <= 0
    ensures k < |ds| ==> ds[k].opacity > 0
  {
    if ds != [] && ds[0].opacity <= 0 then 1 + FadedPrefix(ds[1..]) else 0
  }

  /** Each dot is at least one fade step per position more opaque than
      the dots in front of it. */
  predicate Staggered(ds: seq<Dot>)
  {
    forall i, j :: 0 <= i < j < |ds| ==> ds[i].opacity + DotFadeStep * (j - i) <= ds[j].opacity
  }

  /** On a staggered queue, popping faded dots from the front removes
      exactly the faded dots: a dot is dequeued if and only if its opacity
      has reached zero. */
  lemma CleanupRemovesExactlyFaded(ds: seq<Dot>)
    requires Staggered(ds)
    ensures forall i :: 0 <= i < |ds| ==> (i < FadedPrefix(ds) <==> ds[i].opacity <= 0)
  {
    var k := FadedPrefix(ds);
    forall i | k <= i < |ds|
      ensures ds[i].opacity > 0
    {
      if i > k {
        assert ds[k].opacity + DotFadeStep * (i - k) <= ds[i].opacity;
      }
    }
  }

  // ---------------------------------------------------------------------
  // The tick
  // ---------------------------------------------------------------------

  /** The first half of a tick: with the cursor on the window, show the
      circle centred on it and enqueue a new dot there; otherwise hide the
      circle and enqueue nothing. */
  function Enqueued(o: Overlay, located: Option<Point>): (o': Overlay)
    ensures o'.circle.visible <==> located.Some?
    ensures o'.circle.width == o.circle.width && o'.circle.height == o.circle.height
    ensures located.Some? ==>
      && o'.circle.left + o.circle.width / 2.0 == located.value.x
      && o'.circle.top + o.circle.height / 2.0 == located.value.y
      && o'.trail == o.trail + [NewDot(o.nextId, located.value)]
      && o'.canvas == o.canvas + {o.nextId}
      && o'.nextId == o.nextId + 1
    ensures located.None? ==>
      && o'.circle == o.circle.(visible := false)
      && o'.trail == o.trail && o'.canvas == o.canvas && o'.nextId == o.nextId
  {
    match located
    case Some(q) =>
      var dot := NewDot(o.nextId, q);
      Overlay(o.trail + [dot],
              o.circle.(visible := true, left := q.x - o.circle.width / 2.0, top := q.y - o.circle.height / 2.0),
              o.canvas + {dot.id},
              o.nextId + 1)
    case None =>
      o.(circle := o.circle.(visible := false))
  }

  /** The second half of a tick: fade and shrink every dot, then dequeue
      the fully transparent dots at the front and take them off the
      canvas. What remains is a suffix of the faded queue whose front dot
      is still visible. */
  function FadeAndClean(o: Overlay): (o': Overlay)
    ensures o'.circle == o.circle && o'.nextId == o.nextId
    ensures |o'.trail| <= |o.trail|
    ensures var drop := |o.trail| - |o'.trail|;
      && o'.trail == FadeAll(o.trail)[drop..]
      && (forall i :: 0 <= i < drop ==> o.trail[i].opacity <= DotFadeStep)
      && o'.canvas == o.canvas - Ids(FadeAll(o.trail)[..drop])
    ensures o'.trail != [] ==> o'.trail[0].opacity > 0
  {
    var faded := FadeAll(o.trail);
    var k := FadedPrefix(faded);
    o.(trail := faded[k..], canvas := o.canvas - Ids(faded[..k]))
  }

  /** One timer tick once the cursor has been located. */
  function Tick(o: Overlay, located: Option<Point>): Overlay
  {
    FadeAndClean(Enqueued(o, located))
  }

  /** One timer tick: the cursor position and the DPI of the monitor under
      it come from the platform. The circle is shown exactly when the
      cursor is on the window, centred on it, and at most one dot (the
      next identity) is added. */
  function UpdateCursor(o: Overlay, w: WindowFrame, p: PhysicalPoint, dpiX: nat, dpiY: nat): (o': Overlay)
    ensures o'.circle.visible <==> Locate(p, dpiX, dpiY, w).Some?
    ensures Locate(p, dpiX, dpiY, w).Some? ==>
      && o'.circle.left + o.circle.width / 2.0 == Locate(p, dpiX, dpiY, w).value.x
      && o'.circle.top + o.circle.height / 2.0 == Locate(p, dpiX, dpiY, w).value.y
      && o'.nextId == o.nextId + 1
    ensures Locate(p, dpiX, dpiY, w).None? ==>
      o'.nextId == o.nextId && o'.circle == o.circle.(visible := false)
    ensures |o'.trail| <= |o.trail| + 1
  {
    Tick(o, Locate(p, dpiX, dpiY, w))
  }

  // ---------------------------------------------------------------------
  // The invariant
  // ---------------------------------------------------------------------

  /** What holds after every tick: the canvas holds exactly the queued
      dots, identities are distinct and already handed out, the queue is
      staggered, its front dot is visible and its back dot has faded at
      least once. */
  predicate DotsValid(o: Overlay)
  {
    && o.canvas == Ids(o.trail)
    && DistinctIds(o.trail)
    && (forall d :: d in o.trail ==> d.id < o.nextId)
    && Staggered(o.trail)
    && (o.trail != [] ==> 0 < o.trail[0].opacity)
    && (o.trail != [] ==> o.trail[|o.trail| - 1].opacity <= DotStartOpacity - DotFadeStep)
  }

  lemma EmptyOverlayValid(c: Circle, nextId: ElementId)
    ensures DotsValid(Overlay([], c, {}, nextId))
  {
  }

  /** Under the invariant every queued dot is visible. */
  lemma ValidDotsVisible(o: Overlay)
    requires DotsValid(o)
    ensures forall d :: d in o.trail ==> d.opacity > 0
  {
    forall d | d in o.trail
      ensures d.opacity > 0
    {
      var i :| 0 <= i < |o.trail| && o.trail[i] == d;
      if i > 0 {
        assert o.trail[0].opacity + DotFadeStep * i <= d.opacity;
      }
    }
  }

  /** Under the invariant the queue holds at most 29 dots: a dot lives 29
      ticks and at most one is added per tick. */
  lemma ValidDotsBounded(o: Overlay)
    requires DotsValid(o)
    ensures |o.trail| <= (DotStartOpacity - DotFadeStep) / DotFadeStep
  {
    var n := |o.trail|;
    if n > 1 {
      assert o.trail[0].opacity + DotFadeStep * (n - 1) <= o.trail[n - 1].opacity;
    }
  }

  lemma StaggeredAppend(ds: seq<Dot>, d: Dot)
    requires Staggered(ds)
    requires ds != [] ==> ds[|ds| - 1].opacity + DotFadeStep <= d.opacity
    ensures Staggered(ds + [d])
  {
    var q := ds + [d];
    forall i, j | 0 <= i < j < |q|
      ensures q[i].opacity + DotFadeStep * (j - i) <= q[j].opacity
    {
      if j == |q| - 1 && i < |ds| - 1 {
        assert ds[i].opacity + DotFadeStep * (|ds| - 1 - i) <= ds[|ds| - 1].opacity;
      }
    }
  }

  lemma StaggeredFadeAll(ds: seq<Dot>)
    requires Staggered(ds)
    ensures Staggered(FadeAll(ds))
  {
  }

  lemma StaggeredSuffix(ds: seq<Dot>, k: nat)
    requires k <= |ds|
    requires Staggered(ds)
    ensures Staggered(ds[k..])
  {
    var s := ds[k..];
    forall i, j | 0 <= i < j < |s|
      ensures s[i].opacity + DotFadeStep * (j - i) <= s[j].opacity
    {
      assert s[i] == ds[k + i] && s[j] == ds[k + j];
    }
  }

  lemma IdsOfSuffix(ds: seq<Dot>, k: nat)
    requires k <= |ds|
    requires DistinctIds(ds)
    ensures Ids(ds) - Ids(ds[..k]) == Ids(ds[k..])
    ensures DistinctIds(ds[k..])
  {
    assert ds == ds[..k] + ds[k..];
    forall x | x in Ids(ds[k..])
      ensures x !in Ids(ds[..k])
    {
      var i :| k <= i < |ds| && ds[i].id == x;
      forall j | 0 <= j < k
        ensures ds[j].id != x
      {
      }
    }
    forall i, j | 0 <= i < j < |ds[k..]|
      ensures ds[k..][i].id != ds[k..][j].id
    {
      assert ds[k..][i] == ds[k + i] && ds[k..][j] == ds[k + j];
    }
  }

  lemma IdsOfFadeAll(ds: seq<Dot>)
    ensures Ids(FadeAll(ds)) == Ids(ds)
    ensures DistinctIds(ds) ==> DistinctIds(FadeAll(ds))
  {
    var f := FadeAll(ds);
    forall x | x in Ids(ds)
      ensures x in Ids(f)
    {
      var i :| 0 <= i < |ds| && ds[i].id == x;
      assert f[i] in f;
    }
    forall x | x in Ids(f)
      ensures x in Ids(ds)
    {
      var i :| 0 <= i < |f| && f[i].id == x;
      assert ds[i] in ds;
    }
  }

  /** The first half of a tick keeps the queue staggered, mirrored by the
      canvas and with distinct identities; the back dot is at most fully
      fresh. */
  lemma EnqueuedKeepsShape(o: Overlay, located: Option<Point>)
    requires DotsValid(o)
    ensures var e := Enqueued(o, located);
      && e.canvas == Ids(e.trail)
      && DistinctIds(e.trail)
      && (forall d :: d in e.trail ==> d.id < e.nextId)
      && Staggered(e.trail)
      && (e.trail != [] ==> e.trail[|e.trail| - 1].opacity <= DotStartOpacity)
  {
    var e := Enqueued(o, located);
    if located.Some? {
      var dot := NewDot(o.nextId, located.value);
      StaggeredAppend(o.trail, dot);
      assert forall d :: d in e.trail ==> d in o.trail || d == dot;
      forall i, j | 0 <= i < j < |e.trail|
        ensures e.trail[i].id != e.trail[j].id
      {
        if j == |e.trail| - 1 {
          assert e.trail[i] in o.trail;
        }
      }
    }
  }

  /** The second half of a tick keeps the canvas mirroring the queue,
      with distinct identities that were already handed out. */
  lemma FadeAndCleanKeepsIds(e: Overlay)
    requires e.canvas == Ids(e.trail)
    requires DistinctIds(e.trail)
    requires forall d :: d in e.trail ==> d.id < e.nextId
    ensures var o' := FadeAndClean(e);
      && o'.canvas == Ids(o'.trail)
      && DistinctIds(o'.trail)
      && (forall d :: d in o'.trail ==> d.id < o'.nextId)
  {
    var faded := FadeAll(e.trail);
    var k := FadedPrefix(faded);
    IdsOfFadeAll(e.trail);
    IdsOfSuffix(faded, k);
    IdsBelowAfterFade(e.trail, k, e.nextId);
    assert FadeAndClean(e) == e.(trail := faded[k..], canvas := e.canvas - Ids(faded[..k]));
  }

  lemma IdsBelowAfterFade(ds: seq<Dot>, k: nat, n: ElementId)
    requires k <= |ds|
    requires forall d :: d in ds ==> d.id < n
    ensures forall d :: d in FadeAll(ds)[k..] ==> d.id < n
  {
    var f := FadeAll(ds);
    forall d | d in f[k..]
      ensures d.id < n
    {
      var i :| 0 <= i < |f[k..]| && f[k..][i] == d;
      assert f[k + i] == FadeDot(ds[k + i]);
      assert ds[k + i] in ds;
    }
  }

  /** The second half of a tick keeps the queue staggered, leaves a
      visible front dot and a back dot that has faded at least once. */
  lemma FadeAndCleanKeepsStagger(e: Overlay)
    requires Staggered(e.trail)
    requires e.trail != [] ==> e.trail[|e.trail| - 1].opacity <= DotStartOpacity
    ensures var t := FadeAndClean(e).trail;
      && Staggered(t)
      && (t != [] ==> 0 < t[0].opacity)
      && (t != [] ==> t[|t| - 1].opacity <= DotStartOpacity - DotFadeStep)
  {
    FadedSuffixStaggered(e.trail, |e.trail| - |FadeAndClean(e).trail|);
    FadedSuffixBack(e.trail, |e.trail| - |FadeAndClean(e).trail|);
  }

  lemma FadedSuffixStaggered(ds: seq<Dot>, k: nat)
    requires k <= |ds|
    requires Staggered(ds)
    ensures Staggered(FadeAll(ds)[k..])
  {
    StaggeredFadeAll(ds);
    StaggeredSuffix(FadeAll(ds), k);
  }

  lemma FadedSuffixBack(ds: seq<Dot>, k: nat)
    requires k <= |ds|
    requires ds != [] ==> ds[|ds| - 1].opacity <= DotStartOpacity
    ensures var t := FadeAll(ds)[k..];
      t != [] ==> t[|t| - 1].opacity <= DotStartOpacity - DotFadeStep
  {
    var f := FadeAll(ds);
    var n := |ds|;
    if k < n {
      assert f[k..][n - k - 1] == f[n - 1];
      assert f[n - 1].opacity == ds[n - 1].opacity - DotFadeStep;
    }
  }

  /** A tick keeps the invariant, wherever the cursor is. */
  lemma TickPreservesValid(o: Overlay, located: Option<Point>)
    requires DotsValid(o)
    ensures DotsValid(Tick(o, located))
  {
    EnqueuedKeepsShape(o, located);
    FadeAndCleanKeepsIds(Enqueued(o, located));
    FadeAndCleanKeepsStagger(Enqueued(o, located));
  }

  /** UpdateCursor keeps the invariant, so the dot queue never exceeds 29
      dots and never holds a transparent one. */
  lemma UpdateCursorPreservesValid(o: Overlay, w: WindowFrame, p: PhysicalPoint, dpiX: nat, dpiY: nat)
    requires DotsValid(o)
    ensures DotsValid(UpdateCursor(o, w, p, dpiX, dpiY))
    ensures |UpdateCursor(o, w, p, dpiX, dpiY).trail| <= 29
    ensures forall d :: d in UpdateCursor(o, w, p, dpiX, dpiY).trail ==> d.opacity > 0
  {
    TickPreservesValid(o, Locate(p, dpiX, dpiY, w));
    ValidDotsBounded(UpdateCursor(o, w, p, dpiX, dpiY));
    ValidDotsVisible(UpdateCursor(o, w, p, dpiX, dpiY));
  }

  /** Every dot after a tick is a dot from before the tick, or the new one,
      faded once: the same identity, centre unchanged, opacity lowered by
      exactly one step. A dot enqueued by the tick survives it at opacity
      0.58, centred on the cursor. */
  lemma TickFadesEveryDot(o: Overlay, located: Option<Point>, d': Dot) returns (d: Dot)
    requires d' in Tick(o, located).trail
    ensures d in o.trail || (located.Some? && d == NewDot(o.nextId, located.value))
    ensures d' == FadeDot(d)
  {
    var i := CleanedDotOrigin(Enqueued(o, located), d');
    EnqueuedDotOrigin(o, located, i);
    d := Enqueued(o, located).trail[i];
  }

  /** Every dot queued by an enqueue was queued before, or is the new one. */
  lemma EnqueuedDotOrigin(o: Overlay, located: Option<Point>, i: nat)
    requires i < |Enqueued(o, located).trail|
    ensures || Enqueued(o, located).trail[i] in o.trail
            || (located.Some? && Enqueued(o, located).trail[i] == NewDot(o.nextId, located.value))
  {
    if i < |o.trail| {
      EnqueuedKeepsFront(o, located, i);
    }
  }

  lemma EnqueuedKeepsFront(o: Overlay, located: Option<Point>, i: nat)
    requires i < |o.trail|
    ensures i < |Enqueued(o, located).trail| && Enqueued(o, located).trail[i] == o.trail[i]
  {
  }

  /** The position, in the queue before fading, of a dot left by cleanup. */
  lemma CleanedDotOrigin(e: Overlay, d': Dot) returns (i: nat)
    requires d' in FadeAndClean(e).trail
    ensures i < |e.trail| && d' == FadeDot(e.trail[i])
  {
    i := FadedSuffixOrigin(e.trail, |e.trail| - |FadeAndClean(e).trail|, d');
  }

  lemma FadedSuffixOrigin(ds: seq<Dot>, k: nat, d': Dot) returns (i: nat)
    requires k <= |ds| && d' in FadeAll(ds)[k..]
    ensures i < |ds| && d' == FadeDot(ds[i])
  {
    var f := FadeAll(ds);
    var j :| 0 <= j < |f[k..]| && f[k..][j] == d';
    i := k + j;
    assert f[i] == d';
  }

  lemma TickKeepsNewDot(o: Overlay, q: Point)
    ensures var o' := Tick(o, Some(q));
      && o'.trail != []
      && o'.trail[|o'.trail| - 1] == FadeDot(NewDot(o.nextId, q))
      && o'.trail[|o'.trail| - 1].opacity == DotStartOpacity - DotFadeStep
      && Centre(o'.trail[|o'.trail| - 1]) == q
  {
    var e := Enqueued(o, Some(q));
    var faded := FadeAll(e.trail);
    var n := |faded|;
    var k := FadedPrefix(faded);
    assert faded[n - 1] == FadeDot(NewDot(o.nextId, q));
    assert k < n;
    assert Tick(o, Some(q)).trail == faded[k..];
    assert faded[k..][n - k - 1] == faded[n - 1];
  }
}
