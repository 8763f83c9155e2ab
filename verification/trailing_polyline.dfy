/** The segment trail engine: a FIFO queue of line segments that grows by
    one segment per tick while the cursor moves, is capped at a maximum
    length, and ages, fades and drops its segments on every update. The
    canvas is represented by the set of line identities placed on it. */
module TrailingPolyline {
  import opened Basics
  import opened TrailSegments
  import opened Fade

  /** The engine's settable configuration. */
  datatype Config = Config(maxSegments: int, fadeRate: real, minMovementDistance: real)

  /** The configuration a new engine starts with. */
  const Defaults: Config := Config(50, 0.025, 3.0)

  /** The exception the eviction loop raises when it dequeues an empty queue. */
  datatype TrailError = DequeueFromEmptyQueue

  /** The engine state: the queue (oldest first), the last cursor point,
      the lines the engine has placed on the canvas, and the identity the
      next created line receives. */
  datatype Trail = Trail(
    segments: seq<Segment>,
    lastPoint: Option<Point>,
    canvas: set<LineId>,
    nextLine: LineId)

  /** A newly constructed engine. */
  const Initial: Trail := Trail([], None, {}, 0)

  /** The lines of a queue of segments. */
  function Lines(q: seq<Segment>): set<LineId>
  {
    set s | s in q :: s.line
  }

  predicate DistinctLines(q: seq<Segment>)
  {
    forall i, j :: 0 <= i < j < |q| ==> q[i].line != q[j].line
  }

  /** Strictly decreasing ages from the front of the queue to its back. */
  predicate OldestFirst(q: seq<Segment>)
  {
    forall i, j :: 0 <= i < j < |q| ==> q[i].age > q[j].age
  }

  predicate Faded(s: Segment)
  {
    s.opacity <= 0.0
  }

  // ---------------------------------------------------------------------
  // Appending and evicting
  // ---------------------------------------------------------------------

  /** The cursor has moved far enough since the last point to draw a
      segment: strictly more than the minimum distance along some axis. */
  predicate MovedEnough(cfg: Config, last: Option<Point>, p: Point)
  {
    && last.Some?
    && (|| Abs(p.x - last.value.x) > cfg.minMovementDistance
        || Abs(p.y - last.value.y) > cfg.minMovementDistance)
  }

  /** Whether a move counts depends only on the distance along each axis,
      not on its direction, and nothing counts without a last point. */
  lemma MovedEnoughIgnoresDirection(cfg: Config, a: Point, b: Point)
    ensures MovedEnough(cfg, Some(a), b) <==> MovedEnough(cfg, Some(b), a)
    ensures !MovedEnough(cfg, None, b)
  {
  }

  /** Dequeues the oldest segments, taking their lines off the canvas,
      until at most `maxSegments` remain. The survivors are the most recent
      segments in their original order. A negative bound empties the
      queue and then fails on the dequeue of the empty queue. */
  function Evict(t: Trail, maxSegments: int): (r: Result<Trail, TrailError>)
    ensures r.Ok? <==> maxSegments >= 0
    ensures r.Ok? ==>
      var drop := |t.segments| - MinInt(|t.segments|, maxSegments);
      && r.value.segments == t.segments[drop..]
      && r.value.canvas == t.canvas - Lines(t.segments[..drop])
      && r.value.lastPoint == t.lastPoint
      && r.value.nextLine == t.nextLine
    decreases |t.segments|
  {
    if |t.segments| <= maxSegments then Ok(t)
    else if |t.segments| == 0 then Err(DequeueFromEmptyQueue)
    else
      var r := Evict(t.(segments := t.segments[1..], canvas := t.canvas - {t.segments[0].line}), maxSegments);
      if r.Ok? then
        LinesOfPrefix(t.segments, |t.segments| - MinInt(|t.segments|, maxSegments));
        r
      else r
  }

  /** The append step of a tick: when the cursor moved far enough, a new
      segment from the last point to the current point joins the back of
      the queue and its line joins the canvas; then the queue is evicted
      down to the configured maximum. Otherwise nothing changes. */
  function Enqueue(cfg: Config, t: Trail, p: Point): (r: Result<Trail, TrailError>)
    ensures !MovedEnough(cfg, t.lastPoint, p) ==> r == Ok(t)
    ensures MovedEnough(cfg, t.lastPoint, p) ==> (r.Ok? <==> cfg.maxSegments >= 0)
    ensures MovedEnough(cfg, t.lastPoint, p) && r.Ok? ==>
      var q := t.segments + [NewSegment(t.nextLine, t.lastPoint.value, p)];
      var drop := |q| - MinInt(|q|, cfg.maxSegments);
      && r.value.segments == q[drop..]
      && r.value.canvas == (t.canvas + {t.nextLine}) - Lines(q[..drop])
      && r.value.lastPoint == t.lastPoint
      && r.value.nextLine == t.nextLine + 1
  {
    if MovedEnough(cfg, t.lastPoint, p) then
      var segment := NewSegment(t.nextLine, t.lastPoint.value, p);
      var grown := Trail(t.segments + [segment], t.lastPoint, t.canvas + {t.nextLine}, t.nextLine + 1);
      Evict(grown, cfg.maxSegments)
    else
      Ok(t)
  }

  // ---------------------------------------------------------------------
  // Ageing and removing faded segments
  // ---------------------------------------------------------------------

  /** One update of one segment: one tick older, with opacity and
      thickness recomputed from the new age, and the colour recomputed
      only while the age ratio is below one half. */
  function AgeOnce(fadeRate: real, s: Segment): (s': Segment)
    ensures s'.age == s.age + 1
    ensures s'.line == s.line && s'.start == s.start && s'.end == s.end
    ensures s'.opacity == OpacityAt(fadeRate, s'.age)
    ensures s'.thickness == ThicknessAt(fadeRate, s'.age)
    ensures s.stroke == StrokeAt(fadeRate, s.age) ==> LooksItsAge(fadeRate, s')
  {
    var age := s.age + 1;
    var ageRatio := AgeRatio(fadeRate, age);
    s.(age := age,
       opacity := OpacityAt(fadeRate, age),
       stroke := if ageRatio < 0.5 then FadeColor(ageRatio) else s.stroke,
       thickness := ThicknessAt(fadeRate, age))
  }

  /** Every segment of the queue aged once, in queue order. */
  function AgeAll(fadeRate: real, q: seq<Segment>): (aged: seq<Segment>)
    ensures |aged| == |q|
    ensures forall i :: 0 <= i < |q| ==> aged[i] == AgeOnce(fadeRate, q[i])
  {
    if q == [] then [] else [AgeOnce(fadeRate, q[0])] + AgeAll(fadeRate, q[1..])
  }

  /** The segments whose opacity has dropped to zero, in queue order. */
  function FadedOut(q: seq<Segment>): (removed: seq<Segment>)
    ensures forall s :: s in removed <==> s in q && Faded(s)
  {
    if q == [] then []
    else if Faded(q[0]) then [q[0]] + FadedOut(q[1..])
    else FadedOut(q[1..])
  }

  /** `a` is `b` with some elements left out, the rest in their order. */
  predicate SubsequenceOf<T(==)>(a: seq<T>, b: seq<T>)
    decreases |b|
  {
    || a == []
    || (&& b != []
        && ((a[0] == b[0] && SubsequenceOf(a[1..], b[1..])) || SubsequenceOf(a, b[1..])))
  }

  /** The queue rebuilt without the removed segments, keeping the order of
      the rest. */
  function Without(q: seq<Segment>, removed: seq<Segment>): (rest: seq<Segment>)
    ensures |rest| <= |q|
    ensures forall s :: s in rest <==> s in q && s !in removed
  {
    if q == [] then []
    else if q[0] in removed then Without(q[1..], removed)
    else [q[0]] + Without(q[1..], removed)
  }

  /** The rebuilt queue keeps the survivors in their original order. */
  lemma {:induction false} WithoutIsSubsequence(q: seq<Segment>, removed: seq<Segment>)
    ensures SubsequenceOf(Without(q, removed), q)
  {
    if q != [] {
      var tail := Without(q[1..], removed);
      WithoutIsSubsequence(q[1..], removed);
      if q[0] !in removed {
        assert ([q[0]] + tail)[1..] == tail;
      }
    }
  }

  /** The update every tick ends with: age every segment, take the lines of
      the faded ones off the canvas, and rebuild the queue without them.
      Exactly the segments whose new opacity is positive survive. */
  function UpdateSegments(fadeRate: real, t: Trail): (t': Trail)
    ensures t'.lastPoint == t.lastPoint && t'.nextLine == t.nextLine
    ensures |t'.segments| <= |t.segments|
    ensures forall s :: s in t'.segments <==> s in AgeAll(fadeRate, t.segments) && !Faded(s)
    ensures forall s :: s in t.segments ==>
      (AgeOnce(fadeRate, s) in t'.segments <==> OpacityAt(fadeRate, s.age + 1) > 0.0)
    ensures t'.canvas == t.canvas - Lines(FadedOut(AgeAll(fadeRate, t.segments)))
  {
    var aged := AgeAll(fadeRate, t.segments);
    var removed := FadedOut(aged);
    var rest := if |removed| > 0 then Without(aged, removed) else aged;
    assert forall s :: s in t.segments ==> AgeOnce(fadeRate, s) in aged by {
      forall s | s in t.segments
        ensures AgeOnce(fadeRate, s) in aged
      {
        var i :| 0 <= i < |t.segments| && t.segments[i] == s;
        assert aged[i] == AgeOnce(fadeRate, s);
      }
    }
    t.(segments := rest, canvas := t.canvas - Lines(removed))
  }

  // ---------------------------------------------------------------------
  // The public operations
  // ---------------------------------------------------------------------

  /** One timer tick with the cursor at `p`: append (and evict), remember
      `p` as the last point, then update every segment. */
  function OnTick(cfg: Config, t: Trail, p: Point): (r: Result<Trail, TrailError>)
    ensures r.Err? <==> MovedEnough(cfg, t.lastPoint, p) && cfg.maxSegments < 0
    ensures r.Ok? ==> r.value.lastPoint == Some(p)
    ensures r.Ok? && !MovedEnough(cfg, t.lastPoint, p) ==>
      r.value.nextLine == t.nextLine && |r.value.segments| <= |t.segments|
    ensures r.Ok? && MovedEnough(cfg, t.lastPoint, p) ==> r.value.nextLine == t.nextLine + 1
  {
    match Enqueue(cfg, t, p)
    case Err(e) => Err(e)
    case Ok(appended) => Ok(UpdateSegments(cfg.fadeRate, appended.(lastPoint := Some(p))))
  }

  /** The cursor left the tracked area: forget the last point and keep
      updating the existing segments, never adding one. */
  function OnCursorLeft(cfg: Config, t: Trail): (t': Trail)
    ensures t'.lastPoint == None
    ensures t'.nextLine == t.nextLine
    ensures |t'.segments| <= |t.segments|
    ensures Lines(t'.segments) <= Lines(t.segments)
    ensures forall s' :: s' in t'.segments <==> s' in AgeAll(cfg.fadeRate, t.segments) && !Faded(s')
    ensures forall s :: s in t.segments ==>
      (AgeOnce(cfg.fadeRate, s) in t'.segments <==> OpacityAt(cfg.fadeRate, s.age + 1) > 0.0)
    ensures t'.canvas == t.canvas - Lines(FadedOut(AgeAll(cfg.fadeRate, t.segments)))
  {
    UpdateKeepsOnlyKnownLines(cfg.fadeRate, t.(lastPoint := None));
    UpdateSegments(cfg.fadeRate, t.(lastPoint := None))
  }

  /** An update draws no new line: every surviving segment's line was
      already one of the trail's. */
  lemma UpdateKeepsOnlyKnownLines(fadeRate: real, t: Trail)
    ensures Lines(UpdateSegments(fadeRate, t).segments) <= Lines(t.segments)
  {
    LinesOfAgeAll(fadeRate, t.segments);
    LinesOfMembers(UpdateSegments(fadeRate, t).segments, AgeAll(fadeRate, t.segments));
  }

  lemma LinesOfMembers(a: seq<Segment>, b: seq<Segment>)
    requires forall s :: s in a ==> s in b
    ensures Lines(a) <= Lines(b)
  {
  }

  /** Removes every segment and its line, and forgets the last point. */
  function Clear(t: Trail): (t': Trail)
    ensures t'.segments == [] && t'.lastPoint == None
    ensures t'.canvas == t.canvas - Lines(t.segments)
    ensures t'.nextLine == t.nextLine
  {
    Trail([], None, t.canvas - Lines(t.segments), t.nextLine)
  }

  // ---------------------------------------------------------------------
  // The invariant
  // ---------------------------------------------------------------------

  /** What holds of the queue between the append step and the update:
      bounded, mirrored exactly by the canvas, one line per segment,
      oldest first, and each segment looking its age. */
  predicate Queued(cfg: Config, t: Trail)
  {
    && (t.segments == [] || |t.segments| <= cfg.maxSegments)
    && t.canvas == Lines(t.segments)
    && DistinctLines(t.segments)
    && (forall s :: s in t.segments ==> s.line < t.nextLine)
    && OldestFirst(t.segments)
    && (forall s :: s in t.segments ==> LooksItsAge(cfg.fadeRate, s))
  }

  /** What holds after every operation: additionally each segment has been
      updated at least once and none of them is faded. */
  predicate Valid(cfg: Config, t: Trail)
  {
    && Queued(cfg, t)
    && (forall s :: s in t.segments ==> s.age >= 1 && !Faded(s))
  }

  lemma InitialValid(cfg: Config)
    ensures Valid(cfg, Initial)
    ensures Initial.segments == [] && Initial.lastPoint == None && Initial.canvas == {}
  {
  }

  lemma SameLineSameSegment(q: seq<Segment>, s: Segment, r: Segment)
    requires DistinctLines(q)
    requires s in q && r in q && s.line == r.line
    ensures s == r
  {
    var i :| 0 <= i < |q| && q[i] == s;
    var j :| 0 <= j < |q| && q[j] == r;
    assert i == j;
  }

  lemma LinesOfPrefix(q: seq<Segment>, d: nat)
    requires 0 < d <= |q|
    ensures Lines(q[..d]) == {q[0].line} + Lines(q[1..][..d - 1])
  {
    assert q[..d] == [q[0]] + q[1..][..d - 1];
  }

  lemma LinesOfSuffix(q: seq<Segment>, d: nat)
    requires DistinctLines(q)
    requires d <= |q|
    ensures Lines(q) - Lines(q[..d]) == Lines(q[d..])
  {
    assert q == q[..d] + q[d..];
    forall l | l in Lines(q[d..])
      ensures l !in Lines(q[..d])
    {
      var i :| d <= i < |q| && q[i].line == l;
      forall j | 0 <= j < d
        ensures q[j].line != l
      {
      }
    }
  }

  lemma {:induction false} WithoutKeepsOrder(q: seq<Segment>, removed: seq<Segment>)
    requires OldestFirst(q) && DistinctLines(q)
    ensures OldestFirst(Without(q, removed))
    ensures DistinctLines(Without(q, removed))
  {
    if q != [] {
      WithoutKeepsOrder(q[1..], removed);
      if q[0] !in removed {
        HeadBeatsRest(q, Without(q[1..], removed));
        ConsKeepsOrder(q[0], Without(q[1..], removed));
      }
    }
  }

  /** The front of an ordered queue is older than, and has a different
      line from, anything taken from the rest of it. */
  lemma HeadBeatsRest(q: seq<Segment>, rest: seq<Segment>)
    requires q != [] && OldestFirst(q) && DistinctLines(q)
    requires forall s :: s in rest ==> s in q[1..]
    ensures forall j :: 0 <= j < |rest| ==> q[0].age > rest[j].age && q[0].line != rest[j].line
  {
    forall j | 0 <= j < |rest|
      ensures q[0].age > rest[j].age && q[0].line != rest[j].line
    {
      assert rest[j] in q[1..];
    }
  }

  lemma ConsKeepsOrder(x: Segment, tail: seq<Segment>)
    requires OldestFirst(tail) && DistinctLines(tail)
    requires forall j :: 0 <= j < |tail| ==> x.age > tail[j].age && x.line != tail[j].line
    ensures OldestFirst([x] + tail) && DistinctLines([x] + tail)
  {
    var w := [x] + tail;
    forall i, j | 0 <= i < j < |w|
      ensures w[i].age > w[j].age && w[i].line != w[j].line
    {
      if i > 0 {
        assert w[i] == tail[i - 1] && w[j] == tail[j - 1];
      }
    }
  }

  lemma {:induction false} LinesOfAgeAll(fadeRate: real, q: seq<Segment>)
    ensures Lines(AgeAll(fadeRate, q)) == Lines(q)
    ensures DistinctLines(q) ==> DistinctLines(AgeAll(fadeRate, q))
    ensures OldestFirst(q) ==> OldestFirst(AgeAll(fadeRate, q))
  {
    var aged := AgeAll(fadeRate, q);
    forall l | l in Lines(q)
      ensures l in Lines(aged)
    {
      var i :| 0 <= i < |q| && q[i].line == l;
      assert aged[i] in aged;
    }
    forall l | l in Lines(aged)
      ensures l in Lines(q)
    {
      var i :| 0 <= i < |aged| && aged[i].line == l;
      assert q[i] in q;
    }
  }

  /** After the update the canvas still mirrors the queue exactly. */
  lemma UpdateKeepsCanvasMirror(fadeRate: real, t: Trail)
    requires t.canvas == Lines(t.segments) && DistinctLines(t.segments)
    ensures UpdateSegments(fadeRate, t).canvas == Lines(UpdateSegments(fadeRate, t).segments)
  {
    var t' := UpdateSegments(fadeRate, t);
    var aged := AgeAll(fadeRate, t.segments);
    var removed := FadedOut(aged);
    LinesOfAgeAll(fadeRate, t.segments);
    forall l | l in Lines(t'.segments)
      ensures l in t'.canvas
    {
      var s' :| s' in t'.segments && s'.line == l;
      if l in Lines(removed) {
        var r :| r in removed && r.line == l;
        SameLineSameSegment(aged, s', r);
      }
    }
    forall l | l in t'.canvas
      ensures l in Lines(t'.segments)
    {
      var s :| s in aged && s.line == l;
      assert s in t'.segments;
    }
  }

  /** After the update the queue is still oldest first, one line per
      segment. */
  lemma UpdateKeepsOrder(fadeRate: real, t: Trail)
    requires OldestFirst(t.segments) && DistinctLines(t.segments)
    ensures OldestFirst(UpdateSegments(fadeRate, t).segments)
    ensures DistinctLines(UpdateSegments(fadeRate, t).segments)
  {
    var aged := AgeAll(fadeRate, t.segments);
    LinesOfAgeAll(fadeRate, t.segments);
    WithoutKeepsOrder(aged, FadedOut(aged));
  }

  /** After the update every segment looks its age, has been updated at
      least once, is not faded, and has a line older than `nextLine`. */
  lemma UpdateKeepsSegmentsSound(fadeRate: real, t: Trail)
    requires forall s :: s in t.segments ==> LooksItsAge(fadeRate, s) && s.line < t.nextLine
    ensures forall s' :: s' in UpdateSegments(fadeRate, t).segments ==>
      s'.age >= 1 && !Faded(s') && LooksItsAge(fadeRate, s') && s'.line < t.nextLine
  {
    var aged := AgeAll(fadeRate, t.segments);
    forall s' | s' in UpdateSegments(fadeRate, t).segments
      ensures s'.age >= 1 && !Faded(s') && LooksItsAge(fadeRate, s') && s'.line < t.nextLine
    {
      var i :| 0 <= i < |aged| && aged[i] == s';
      assert t.segments[i] in t.segments;
    }
  }

  /** The update restores the full invariant from the queued one. */
  lemma UpdateSegmentsValid(cfg: Config, t: Trail)
    requires Queued(cfg, t)
    ensures Valid(cfg, UpdateSegments(cfg.fadeRate, t))
  {
    UpdateKeepsCanvasMirror(cfg.fadeRate, t);
    UpdateKeepsOrder(cfg.fadeRate, t);
    UpdateKeepsSegmentsSound(cfg.fadeRate, t);
  }

  /** Appending a new segment to a valid queue gives a queue that is
      oldest first, one line per segment, and mirrored by the canvas plus
      the new line. */
  lemma AppendQueued(cfg: Config, t: Trail, segment: Segment)
    requires Valid(cfg, t)
    requires segment.age == 0 && segment.line == t.nextLine
    requires LooksItsAge(cfg.fadeRate, segment)
    ensures var q := t.segments + [segment];
      && Lines(q) == t.canvas + {t.nextLine}
      && DistinctLines(q)
      && OldestFirst(q)
      && (forall s :: s in q ==> s.line < t.nextLine + 1 && LooksItsAge(cfg.fadeRate, s))
  {
    var q := t.segments + [segment];
    assert forall s :: s in q ==> s in t.segments || s == segment;
    forall i, j | 0 <= i < j < |q|
      ensures q[i].line != q[j].line && q[i].age > q[j].age
    {
      if j == |q| - 1 {
        assert q[i] in t.segments;
      }
    }
  }

  /** A suffix of a queue that is oldest first with one line per segment
      is one too, and the canvas keeps mirroring it. */
  lemma SuffixQueued(q: seq<Segment>, drop: nat)
    requires drop <= |q|
    requires OldestFirst(q) && DistinctLines(q)
    ensures OldestFirst(q[drop..]) && DistinctLines(q[drop..])
    ensures Lines(q) - Lines(q[..drop]) == Lines(q[drop..])
    ensures forall s :: s in q[drop..] ==> s in q
  {
    LinesOfSuffix(q, drop);
    var kept := q[drop..];
    forall i, j | 0 <= i < j < |kept|
      ensures kept[i].age > kept[j].age && kept[i].line != kept[j].line
    {
      assert kept[i] == q[drop + i] && kept[j] == q[drop + j];
    }
  }

  /** The append step keeps the queued invariant. */
  lemma EnqueueQueued(cfg: Config, t: Trail, p: Point)
    requires Valid(cfg, t)
    requires Enqueue(cfg, t, p).Ok?
    ensures Queued(cfg, Enqueue(cfg, t, p).value)
  {
    if MovedEnough(cfg, t.lastPoint, p) {
      var segment := NewSegment(t.nextLine, t.lastPoint.value, p);
      var q := t.segments + [segment];
      var drop := |q| - MinInt(|q|, cfg.maxSegments);
      NewSegmentLooksAgeZero(cfg.fadeRate, t.nextLine, t.lastPoint.value, p);
      AppendQueued(cfg, t, segment);
      SuffixQueued(q, drop);
    }
  }

  /** A tick that does not throw keeps the invariant. */
  lemma OnTickPreservesValid(cfg: Config, t: Trail, p: Point)
    requires Valid(cfg, t)
    requires OnTick(cfg, t, p).Ok?
    ensures Valid(cfg, OnTick(cfg, t, p).value)
  {
    EnqueueQueued(cfg, t, p);
    UpdateSegmentsValid(cfg, Enqueue(cfg, t, p).value.(lastPoint := Some(p)));
  }

  /** Leaving the area keeps the invariant. */
  lemma OnCursorLeftPreservesValid(cfg: Config, t: Trail)
    requires Valid(cfg, t)
    ensures Valid(cfg, OnCursorLeft(cfg, t))
  {
    UpdateSegmentsValid(cfg, t.(lastPoint := None));
  }

  /** Clearing leaves a valid, empty engine with nothing of it on the
      canvas, and a second clear changes nothing. */
  lemma ClearValidAndIdempotent(cfg: Config, t: Trail)
    requires Valid(cfg, t)
    ensures Valid(cfg, Clear(t))
    ensures Clear(t).canvas == {}
    ensures Clear(Clear(t)) == Clear(t)
  {
  }

  /** Under the invariant the queue never holds more than `maxSegments`
      segments. */
  lemma ValidBounded(cfg: Config, t: Trail)
    requires Valid(cfg, t)
    ensures cfg.maxSegments >= 0 ==> |t.segments| <= cfg.maxSegments
    ensures cfg.maxSegments <= 0 ==> t.segments == []
  {
  }

  /** Every segment queued by the append step was already queued or is
      the new one, whose line is `nextLine`. */
  lemma EnqueueKeepsOrAdds(cfg: Config, t: Trail, p: Point, e: Segment)
    requires Enqueue(cfg, t, p).Ok?
    requires e in Enqueue(cfg, t, p).value.segments
    ensures e in t.segments || e.line == t.nextLine
  {
    if MovedEnough(cfg, t.lastPoint, p) {
      var q := t.segments + [NewSegment(t.nextLine, t.lastPoint.value, p)];
      var drop := |q| - MinInt(|q|, cfg.maxSegments);
      assert e in q[drop..];
      assert e in q;
    }
  }

  /** Every segment after a tick is a queued segment aged once. */
  lemma TickSurvivorOrigin(cfg: Config, t: Trail, p: Point, s': Segment) returns (e: Segment)
    requires OnTick(cfg, t, p).Ok?
    requires s' in OnTick(cfg, t, p).value.segments
    ensures e in Enqueue(cfg, t, p).value.segments
    ensures s' == AgeOnce(cfg.fadeRate, e)
  {
    var appended := Enqueue(cfg, t, p).value;
    var aged := AgeAll(cfg.fadeRate, appended.segments);
    assert s' in aged;
    var i :| 0 <= i < |aged| && aged[i] == s';
    e := appended.segments[i];
  }

  /** A segment that survives a tick is the same line one tick older, and
      for a non-negative fade rate it is no more opaque than before. */
  lemma SurvivorAgedByOne(cfg: Config, t: Trail, p: Point, s: Segment, s': Segment)
    requires Valid(cfg, t)
    requires OnTick(cfg, t, p).Ok?
    requires s in t.segments && s' in OnTick(cfg, t, p).value.segments
    requires s'.line == s.line
    ensures s' == AgeOnce(cfg.fadeRate, s)
    ensures cfg.fadeRate >= 0.0 ==> s'.opacity <= s.opacity
  {
    var e := TickSurvivorOrigin(cfg, t, p, s');
    EnqueueKeepsOrAdds(cfg, t, p, e);
    AgedFromKnownLine(cfg, t, s, e, s');
  }

  lemma AgedFromKnownLine(cfg: Config, t: Trail, s: Segment, e: Segment, s': Segment)
    requires Valid(cfg, t)
    requires s in t.segments
    requires e in t.segments || e.line == t.nextLine
    requires s' == AgeOnce(cfg.fadeRate, e) && s'.line == s.line
    ensures s' == AgeOnce(cfg.fadeRate, s)
    ensures cfg.fadeRate >= 0.0 ==> s'.opacity <= s.opacity
  {
    KnownLineKnownSegment(cfg, t, s, e);
    if cfg.fadeRate >= 0.0 {
      OpacityNonIncreasing(cfg.fadeRate, s.age, s.age + 1);
    }
  }

  /** Under the invariant a line already handed out identifies its
      segment: a segment carrying it is queued or else newly created. */
  lemma KnownLineKnownSegment(cfg: Config, t: Trail, s: Segment, e: Segment)
    requires Valid(cfg, t)
    requires s in t.segments
    requires e in t.segments || e.line == t.nextLine
    requires e.line == s.line
    ensures e == s
  {
    assert s.line < t.nextLine;
    SameLineSameSegment(t.segments, e, s);
  }

  /** When the queue has room for at least one segment, the append step
      keeps the new segment. */
  lemma EnqueueKeepsNewSegment(cfg: Config, t: Trail, p: Point)
    requires MovedEnough(cfg, t.lastPoint, p)
    requires cfg.maxSegments >= 1
    ensures Enqueue(cfg, t, p).Ok?
    ensures NewSegment(t.nextLine, t.lastPoint.value, p) in Enqueue(cfg, t, p).value.segments
  {
    var segment := NewSegment(t.nextLine, t.lastPoint.value, p);
    var q := t.segments + [segment];
    var drop := |q| - MinInt(|q|, cfg.maxSegments);
    assert q[drop..][|q| - 1 - drop] == segment;
  }

  /** Under the invariant a segment one tick old is the back of the queue. */
  lemma YoungestIsLast(cfg: Config, t: Trail, x: Segment)
    requires Valid(cfg, t)
    requires x in t.segments && x.age == 1
    ensures t.segments != [] && t.segments[|t.segments| - 1] == x
  {
    var q := t.segments;
    assert q[|q| - 1] in q;
  }

  /** A segment appended by a tick is aged in that same tick: when the
      queue has room for it and the fade rate is below 1, it ends the
      queue one tick old. */
  lemma AppendedSegmentAgedSameTick(cfg: Config, t: Trail, p: Point)
    requires Valid(cfg, t)
    requires MovedEnough(cfg, t.lastPoint, p)
    requires cfg.maxSegments >= 1 && cfg.fadeRate < 1.0
    ensures OnTick(cfg, t, p).Ok?
    ensures var q := OnTick(cfg, t, p).value.segments;
      && q != []
      && q[|q| - 1] == AgeOnce(cfg.fadeRate, NewSegment(t.nextLine, t.lastPoint.value, p))
      && q[|q| - 1].age == 1
  {
    AppendedSurvivesTick(cfg, t, p);
    OnTickPreservesValid(cfg, t, p);
    YoungestIsLast(cfg, OnTick(cfg, t, p).value,
                   AgeOnce(cfg.fadeRate, NewSegment(t.nextLine, t.lastPoint.value, p)));
  }

  /** The segment appended by a tick is still queued, aged once, after it. */
  lemma AppendedSurvivesTick(cfg: Config, t: Trail, p: Point)
    requires MovedEnough(cfg, t.lastPoint, p)
    requires cfg.maxSegments >= 1 && cfg.fadeRate < 1.0
    ensures OnTick(cfg, t, p).Ok?
    ensures AgeOnce(cfg.fadeRate, NewSegment(t.nextLine, t.lastPoint.value, p)) in OnTick(cfg, t, p).value.segments
  {
    var segment := NewSegment(t.nextLine, t.lastPoint.value, p);
    EnqueueKeepsNewSegment(cfg, t, p);
    var moved := Enqueue(cfg, t, p).value.(lastPoint := Some(p));
    TickUpdatesMoved(cfg, t, p);
    NewSegmentSurvives(cfg.fadeRate, moved, segment);
  }

  lemma TickUpdatesMoved(cfg: Config, t: Trail, p: Point)
    requires Enqueue(cfg, t, p).Ok?
    ensures OnTick(cfg, t, p)
      == Ok(UpdateSegments(cfg.fadeRate, Enqueue(cfg, t, p).value.(lastPoint := Some(p))))
  {
  }

  lemma NewSegmentSurvives(fadeRate: real, t: Trail, s: Segment)
    requires s in t.segments && s.age == 0 && fadeRate < 1.0
    ensures AgeOnce(fadeRate, s) in UpdateSegments(fadeRate, t).segments
  {
    assert AgeRatio(fadeRate, s.age + 1) == fadeRate;
  }
}
