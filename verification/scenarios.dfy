/** Worked runs of the two engines on concrete inputs. */
module Scenarios {
  import opened Basics
  import opened TrailSegments
  import opened Fade
  import opened TrailingPolyline
  import CanvasWindow

  /** With the default minimum distance of 3, moving from (0,0) to (1,1)
      draws nothing, but the last point still becomes (1,1): the next move
      to (10,10) draws the segment (1,1)-(10,10). */
  lemma MovementThresholdRun()
    ensures OnTick(Defaults, Initial, Point(0.0, 0.0)).Ok?
    ensures var t1 := OnTick(Defaults, Initial, Point(0.0, 0.0)).value;
      && t1.segments == []
      && OnTick(Defaults, t1, Point(1.0, 1.0)).Ok?
      && var t2 := OnTick(Defaults, t1, Point(1.0, 1.0)).value;
      && t2.segments == [] && t2.lastPoint == Some(Point(1.0, 1.0))
      && OnTick(Defaults, t2, Point(10.0, 10.0)).Ok?
      && var t3 := OnTick(Defaults, t2, Point(10.0, 10.0)).value;
      && |t3.segments| == 1
      && t3.segments[0].start == Point(1.0, 1.0)
      && t3.segments[0].end == Point(10.0, 10.0)
      && t3.segments[0].age == 1
  {
    var t1 := OnTick(Defaults, Initial, Point(0.0, 0.0)).value;
    assert t1.lastPoint == Some(Point(0.0, 0.0));
    var t2 := OnTick(Defaults, t1, Point(1.0, 1.0)).value;
    assert !MovedEnough(Defaults, t1.lastPoint, Point(1.0, 1.0));
    assert MovedEnough(Defaults, t2.lastPoint, Point(10.0, 10.0));
    var appended := Enqueue(Defaults, t2, Point(10.0, 10.0)).value;
    assert appended.segments == [NewSegment(0, Point(1.0, 1.0), Point(10.0, 10.0))];
  }

  /** With room for two segments, three qualifying moves keep the two most
      recent segments, oldest first, and only their lines stay on the
      canvas. */
  lemma EvictionRun()
    ensures var cfg := Defaults.(maxSegments := 2);
      var t0 := Initial.(lastPoint := Some(Point(0.0, 0.0)));
      && OnTick(cfg, t0, Point(10.0, 0.0)).Ok?
      && var t1 := OnTick(cfg, t0, Point(10.0, 0.0)).value;
      && OnTick(cfg, t1, Point(20.0, 0.0)).Ok?
      && var t2 := OnTick(cfg, t1, Point(20.0, 0.0)).value;
      && OnTick(cfg, t2, Point(30.0, 0.0)).Ok?
      && var t3 := OnTick(cfg, t2, Point(30.0, 0.0)).value;
      && |t3.segments| == 2
      && t3.segments[0].start == Point(10.0, 0.0) && t3.segments[0].end == Point(20.0, 0.0)
      && t3.segments[1].start == Point(20.0, 0.0) && t3.segments[1].end == Point(30.0, 0.0)
      && t3.canvas == {1, 2}
  {
    EvictionFirstStep();
    EvictionSecondStep();
    EvictionThirdStep();
  }

  /** The segments of the eviction run: moves of 10 units along the x
      axis, with room for two segments. */
  function EvictionSegment(line: nat): Segment
  {
    NewSegment(line, Point(10.0 * line as real, 0.0), Point(10.0 * (line + 1) as real, 0.0))
  }

  /** The queue of the eviction run after the first, second and third
      move. */
  function EvictionTrail1(): Trail
  {
    Trail([AgeOnce(Defaults.fadeRate, EvictionSegment(0))], Some(Point(10.0, 0.0)), {0}, 1)
  }

  function EvictionTrail2(): Trail
  {
    var fr := Defaults.fadeRate;
    Trail([AgeOnce(fr, AgeOnce(fr, EvictionSegment(0))), AgeOnce(fr, EvictionSegment(1))],
          Some(Point(20.0, 0.0)), {0, 1}, 2)
  }

  function EvictionTrail3(): Trail
  {
    var fr := Defaults.fadeRate;
    Trail([AgeOnce(fr, AgeOnce(fr, EvictionSegment(1))), AgeOnce(fr, EvictionSegment(2))],
          Some(Point(30.0, 0.0)), {1, 2}, 3)
  }

  lemma EvictionFirstStep()
    ensures OnTick(Defaults.(maxSegments := 2), Initial.(lastPoint := Some(Point(0.0, 0.0))), Point(10.0, 0.0))
      == Ok(EvictionTrail1())
  {
    var t := Initial.(lastPoint := Some(Point(0.0, 0.0)));
    var q := [EvictionSegment(0)];
    assert t.segments + q == q && q[0..] == q && q[..0] == [];
    assert AgeAll(Defaults.fadeRate, q) == [AgeOnce(Defaults.fadeRate, q[0])];
    TickStep(Defaults.(maxSegments := 2), t, Point(10.0, 0.0), EvictionTrail1());
  }

  lemma EvictionSecondStep()
    ensures OnTick(Defaults.(maxSegments := 2), EvictionTrail1(), Point(20.0, 0.0)) == Ok(EvictionTrail2())
  {
    var t := EvictionTrail1();
    var q := t.segments + [EvictionSegment(1)];
    assert |q| == 2 && q[0..] == q && q[..0] == [];
    assert q[0].age == 1 && q[1].age == 0;
    assert AgeAll(Defaults.fadeRate, q) == [AgeOnce(Defaults.fadeRate, q[0]), AgeOnce(Defaults.fadeRate, q[1])];
    TickStep(Defaults.(maxSegments := 2), t, Point(20.0, 0.0), EvictionTrail2());
  }

  lemma EvictionThirdStep()
    ensures OnTick(Defaults.(maxSegments := 2), EvictionTrail2(), Point(30.0, 0.0)) == Ok(EvictionTrail3())
  {
    var t := EvictionTrail2();
    var q := t.segments + [EvictionSegment(2)];
    assert |q| == 3;
    assert q[1..] == q[1..3] == [q[1], q[2]];
    assert q[..1] == [q[0]] && Lines(q[..1]) == {0};
    TickStep(Defaults.(maxSegments := 2), t, Point(30.0, 0.0), EvictionTrail3());
  }

  /** One tick whose segments all stay visible. */
  lemma TickStep(cfg: Config, t: Trail, p: Point, t': Trail)
    requires cfg == Defaults.(maxSegments := 2)
    requires MovedEnough(cfg, t.lastPoint, p)
    requires var q := t.segments + [NewSegment(t.nextLine, t.lastPoint.value, p)];
      var drop := |q| - MinInt(|q|, 2);
      && (forall s :: s in q[drop..] ==> s.age <= 2)
      && t'.segments == AgeAll(cfg.fadeRate, q[drop..])
      && t'.canvas == (t.canvas + {t.nextLine}) - Lines(q[..drop])
    requires t'.lastPoint == Some(p) && t'.nextLine == t.nextLine + 1
    ensures OnTick(cfg, t, p) == Ok(t')
  {
    var q := t.segments + [NewSegment(t.nextLine, t.lastPoint.value, p)];
    var drop := |q| - MinInt(|q|, 2);
    var moved := Trail(q[drop..], Some(p), t'.canvas, t'.nextLine);
    AppendStep(cfg, t, p, moved);
    assert Enqueue(cfg, t, p).value.(lastPoint := Some(p)) == moved;
    TickUpdatesMoved(cfg, t, p);
    NothingFades(cfg.fadeRate, moved);
  }

  /** The append half of such a tick, with room for two segments. */
  lemma AppendStep(cfg: Config, t: Trail, p: Point, moved: Trail)
    requires cfg.maxSegments == 2
    requires MovedEnough(cfg, t.lastPoint, p)
    requires var q := t.segments + [NewSegment(t.nextLine, t.lastPoint.value, p)];
      var drop := |q| - MinInt(|q|, 2);
      && moved.segments == q[drop..]
      && moved.canvas == (t.canvas + {t.nextLine}) - Lines(q[..drop])
    requires moved.nextLine == t.nextLine + 1
    ensures Enqueue(cfg, t, p) == Ok(moved.(lastPoint := t.lastPoint))
  {
  }

  /** Segments no older than two ticks survive an update at the default
      fade rate: the update only ages them. */
  lemma NothingFades(fadeRate: real, t: Trail)
    requires fadeRate == Defaults.fadeRate
    requires forall s :: s in t.segments ==> s.age <= 2
    ensures UpdateSegments(fadeRate, t) == t.(segments := AgeAll(fadeRate, t.segments))
  {
    var aged := AgeAll(fadeRate, t.segments);
    assert forall s :: s in aged ==> !Faded(s) by {
      forall s | s in aged
        ensures !Faded(s)
      {
        var i :| 0 <= i < |aged| && aged[i] == s;
        assert t.segments[i] in t.segments;
      }
    }
    NoneFadedOut(aged);
    assert Lines([]) == {};
  }

  lemma {:induction false} NoneFadedOut(q: seq<Segment>)
    requires forall s :: s in q ==> !Faded(s)
    ensures FadedOut(q) == []
  {
    if q != [] {
      assert q[0] in q;
      NoneFadedOut(q[1..]);
    }
  }

  /** At the default fade rate 0.025 a segment is at opacity 0.025 after 39
      updates and reaches exactly 0 on the 40th, in which it is removed
      together with its line. */
  lemma FortiethUpdateRemoves(t: Trail, s: Segment)
    requires Valid(Defaults, t)
    requires s in t.segments && s.age == 39
    ensures OpacityAt(Defaults.fadeRate, 39) == 0.025
    ensures OpacityAt(Defaults.fadeRate, 40) == 0.0
    ensures s.line !in Lines(OnCursorLeft(Defaults, t).segments)
    ensures s.line !in OnCursorLeft(Defaults, t).canvas
  {
    OnCursorLeftPreservesValid(Defaults, t);
  }

  /** A cursor at (50,50) on a 1920 by 1080 window at the origin of a
      96-DPI monitor is on the window at (50,50); at (-5,50) it is not. */
  lemma MappingRun()
    ensures var w := CanvasWindow.WindowFrame(0.0, 0.0, 1920.0, 1080.0, 1.0, 1.0);
      && CanvasWindow.Locate(CanvasWindow.PhysicalPoint(50, 50), 96, 96, w) == Some(Point(50.0, 50.0))
      && CanvasWindow.Locate(CanvasWindow.PhysicalPoint(-5, 50), 96, 96, w) == None
  {
  }
}
