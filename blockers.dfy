/** The blockers-between feature of a tackle event: how many of the ball
    carrier's teammates stand inside the box spanned by the tackler and the
    ball carrier, widened by two yards across the field. */
module BlockersBetween {
  import opened Wrappers
  import opened Seqs
  import opened Tracking

  /** The margin added on both sides of the box in y. */
  const Y_MARGIN: real := 2.0

  datatype Box = Box(xmin: real, xmax: real, ymin: real, ymax: real)

  function MinReal(a: real, b: real): real { if a <= b then a else b }
  function MaxReal(a: real, b: real): real { if a <= b then b else a }

  /** Closed box membership: all four bounds are inclusive. */
  predicate InBox(b: Box, x: real, y: real)
  {
    b.xmin <= x <= b.xmax && b.ymin <= y <= b.ymax
  }

  /** The box spanned by the tackler (xt, yt) and the ball carrier (xb, yb),
      widened by the margin in y. */
  function BoundingBox(xt: real, yt: real, xb: real, yb: real): (b: Box)
    ensures b.xmin <= b.xmax
    ensures b.ymax - b.ymin >= 2.0 * Y_MARGIN
    ensures (b.xmin == xt || b.xmin == xb) && b.xmin <= xt && b.xmin <= xb
    ensures (b.xmax == xt || b.xmax == xb) && b.xmax >= xt && b.xmax >= xb
    ensures (b.ymin + Y_MARGIN == yt || b.ymin + Y_MARGIN == yb) && b.ymin + Y_MARGIN <= yt && b.ymin + Y_MARGIN <= yb
    ensures (b.ymax - Y_MARGIN == yt || b.ymax - Y_MARGIN == yb) && b.ymax - Y_MARGIN >= yt && b.ymax - Y_MARGIN >= yb
    ensures InBox(b, xt, yt) && InBox(b, xb, yb)
  {
    Box(MinReal(xt, xb), MaxReal(xt, xb), MinReal(yt, yb) - Y_MARGIN, MaxReal(yt, yb) + Y_MARGIN)
  }

  /** The ball carrier's club other than the ball carrier. */
  predicate IsTeammate(r: Row, club: string, ballCarrierId: int)
  {
    r.club == club && !HasId(r, ballCarrierId)
  }

  function Teammates(frame: seq<Row>, club: string, ballCarrierId: int): (t: seq<Row>)
    ensures forall r :: r in t <==> r in frame && IsTeammate(r, club, ballCarrierId)
  {
    Filter(frame, (r: Row) => IsTeammate(r, club, ballCarrierId))
  }

  function Inside(rows: seq<Row>, b: Box): (s: seq<Row>)
    ensures forall r :: r in s <==> r in rows && InBox(b, r.x, r.y)
  {
    Filter(rows, (r: Row) => InBox(b, r.x, r.y))
  }

  /** The box of an event, from the positions recorded in the event row. */
  function EventBox(ev: TackleEvent): (b: Box)
    ensures InBox(b, ev.xTackler, ev.yTackler) && InBox(b, ev.xBallCarrier, ev.yBallCarrier)
  {
    BoundingBox(ev.xTackler, ev.yTackler, ev.xBallCarrier, ev.yBallCarrier)
  }

  /** `num_offensive_players_between_tackler_and_ballCarrier` for one event
      row: the number of the ball carrier's teammates in the event's box. */
  function NumOffensivePlayersBetween(ev: TackleEvent, tracking: seq<Row>): (r: Result<nat, Error>)
    ensures r.Failure? <==> forall row :: row in SameFrame(tracking, ev) ==> !HasId(row, ev.ballCarrierId)
    ensures r.Failure? ==> r.error == PlayerNotInFrame(ev.ballCarrierId)
  {
    var frame := SameFrame(tracking, ev);
    var club :- ClubOf(frame, ev.ballCarrierId);
    Success(|Inside(Teammates(frame, club, ev.ballCarrierId), EventBox(ev))|)
  }

  /** Whether frame row `r` is one that the count is meant to count. */
  predicate Counted(r: Row, club: string, ev: TackleEvent)
  {
    IsTeammate(r, club, ev.ballCarrierId) && InBox(EventBox(ev), r.x, r.y)
  }

  /** The count is the number of frame rows that are teammates of the ball
      carrier, are not the ball carrier, and lie in the closed box; it is at
      most the number of teammates. */
  lemma CountIsRowsInBox(ev: TackleEvent, tracking: seq<Row>)
    requires NumOffensivePlayersBetween(ev, tracking).Success?
    ensures
      var frame := SameFrame(tracking, ev);
      var club := ClubOf(frame, ev.ballCarrierId).value;
      var n := NumOffensivePlayersBetween(ev, tracking).value;
      && n == |set i | 0 <= i < |frame| && Counted(frame[i], club, ev)|
      && n <= |Teammates(frame, club, ev.ballCarrierId)|
  {
    var frame := SameFrame(tracking, ev);
    var club := ClubOf(frame, ev.ballCarrierId).value;
    var b := EventBox(ev);
    assert NumOffensivePlayersBetween(ev, tracking).value == |Inside(Teammates(frame, club, ev.ballCarrierId), b)|;
    InsideTeammatesSize(frame, club, ev.ballCarrierId, b);
    assert (set i | 0 <= i < |frame| && Counted(frame[i], club, ev)) ==
           (set i | 0 <= i < |frame| && IsTeammate(frame[i], club, ev.ballCarrierId) && InBox(b, frame[i].x, frame[i].y));
  }

  /** Within one frame: the teammates inside a box are as many as the frame
      positions holding such a teammate, and no more than the teammates. */
  lemma InsideTeammatesSize(frame: seq<Row>, club: string, ballCarrierId: int, b: Box)
    ensures |Inside(Teammates(frame, club, ballCarrierId), b)| ==
              |set i | 0 <= i < |frame| && IsTeammate(frame[i], club, ballCarrierId) && InBox(b, frame[i].x, frame[i].y)|
    ensures |Inside(Teammates(frame, club, ballCarrierId), b)| <= |Teammates(frame, club, ballCarrierId)|
  {
    var teammate := (r: Row) => IsTeammate(r, club, ballCarrierId);
    var inside := (r: Row) => InBox(b, r.x, r.y);
    var both := (r: Row) => IsTeammate(r, club, ballCarrierId) && InBox(b, r.x, r.y);
    FilterFilter(frame, teammate, inside, both);
    assert Inside(Teammates(frame, club, ballCarrierId), b) == Filter(frame, both);
    FilterSize(frame, both);
    assert Indices(frame, both) ==
             set i | 0 <= i < |frame| && IsTeammate(frame[i], club, ballCarrierId) && InBox(b, frame[i].x, frame[i].y);
  }

  /** The count is zero exactly when no teammate of the ball carrier other
      than the ball carrier lies in the closed box. */
  lemma CountZeroIff(ev: TackleEvent, tracking: seq<Row>)
    requires NumOffensivePlayersBetween(ev, tracking).Success?
    ensures
      var frame := SameFrame(tracking, ev);
      var club := ClubOf(frame, ev.ballCarrierId).value;
      NumOffensivePlayersBetween(ev, tracking).value == 0 <==>
        forall r :: r in frame ==> !Counted(r, club, ev)
  {
    var frame := SameFrame(tracking, ev);
    var club := ClubOf(frame, ev.ballCarrierId).value;
    var inside := Inside(Teammates(frame, club, ev.ballCarrierId), EventBox(ev));
    if |inside| > 0 {
      assert inside[0] in inside;
    }
  }

  /** The ball carrier's own row is never counted, and a teammate on the
      edge of the box (for instance at x == xmin or y == ymax) is. */
  lemma BoundaryCounted(ev: TackleEvent, tracking: seq<Row>, r: Row)
    requires NumOffensivePlayersBetween(ev, tracking).Success?
    requires r in SameFrame(tracking, ev)
    ensures
      var club := ClubOf(SameFrame(tracking, ev), ev.ballCarrierId).value;
      var b := EventBox(ev);
      && (HasId(r, ev.ballCarrierId) ==> !Counted(r, club, ev))
      && ((IsTeammate(r, club, ev.ballCarrierId) && (r.x == b.xmin || r.x == b.xmax) && b.ymin <= r.y <= b.ymax)
            ==> NumOffensivePlayersBetween(ev, tracking).value >= 1)
      && ((IsTeammate(r, club, ev.ballCarrierId) && (r.y == b.ymin || r.y == b.ymax) && b.xmin <= r.x <= b.xmax)
            ==> NumOffensivePlayersBetween(ev, tracking).value >= 1)
  {
    var frame := SameFrame(tracking, ev);
    var club := ClubOf(frame, ev.ballCarrierId).value;
    var inside := Inside(Teammates(frame, club, ev.ballCarrierId), EventBox(ev));
    if Counted(r, club, ev) {
      assert r in inside;
    }
  }

  function Swapped(ev: TackleEvent): TackleEvent
  {
    ev.(xTackler := ev.xBallCarrier, yTackler := ev.yBallCarrier,
        xBallCarrier := ev.xTackler, yBallCarrier := ev.yTackler)
  }

  /** Exchanging the tackler's and the ball carrier's coordinates in the
      event gives the same box and the same count. */
  lemma SwapSymmetric(ev: TackleEvent, tracking: seq<Row>)
    ensures EventBox(Swapped(ev)) == EventBox(ev)
    ensures NumOffensivePlayersBetween(Swapped(ev), tracking) == NumOffensivePlayersBetween(ev, tracking)
  {
    FilterExt(tracking, (r: Row) => InFrame(r, Swapped(ev)), (r: Row) => InFrame(r, ev));
    assert SameFrame(tracking, Swapped(ev)) == SameFrame(tracking, ev);
  }

  /** A frame with the tackler at (50, 25), the ball carrier at (55, 27),
      two teammates at (52, 26) and (53, 29.5), and a row of the next frame. */
  function ExampleEvent(): TackleEvent
  {
    TackleEvent(1, 1, 1, 10, 20, 50.0, 25.0, 55.0, 27.0)
  }

  function TacklerRow(): Row { Row(1, 1, 1, Some(10), "DEF", "right", 50.0, 25.0) }
  function BallCarrierRow(): Row { Row(1, 1, 1, Some(20), "OFF", "right", 55.0, 27.0) }
  function NearMateRow(): Row { Row(1, 1, 1, Some(21), "OFF", "right", 52.0, 26.0) }
  function FarMateRow(): Row { Row(1, 1, 1, Some(22), "OFF", "right", 53.0, 29.5) }
  function NextFrameRow(): Row { Row(1, 1, 2, Some(23), "OFF", "right", 52.0, 26.0) }

  function ExampleFrameRows(): seq<Row>
  {
    [TacklerRow(), BallCarrierRow(), NearMateRow(), FarMateRow()]
  }

  function ExampleTracking(): seq<Row>
  {
    ExampleFrameRows() + [NextFrameRow()]
  }

  lemma ExampleFrame()
    ensures SameFrame(ExampleTracking(), ExampleEvent()) == ExampleFrameRows()
  {
    var inFrame := (r: Row) => InFrame(r, ExampleEvent());
    FilterAppend(ExampleFrameRows(), [NextFrameRow()], inFrame);
    FilterAll(ExampleFrameRows(), inFrame);
    FilterNone([NextFrameRow()], inFrame);
  }

  lemma ExampleTeammates()
    ensures Teammates(ExampleFrameRows(), "OFF", 20) == [NearMateRow(), FarMateRow()]
  {
    var mate := (r: Row) => IsTeammate(r, "OFF", 20);
    assert ExampleFrameRows() == [TacklerRow(), BallCarrierRow()] + [NearMateRow(), FarMateRow()];
    FilterAppend([TacklerRow(), BallCarrierRow()], [NearMateRow(), FarMateRow()], mate);
    ExampleClubs();
    FilterNone([TacklerRow(), BallCarrierRow()], mate);
    FilterAll([NearMateRow(), FarMateRow()], mate);
  }

  lemma ExampleClubs()
    ensures !IsTeammate(TacklerRow(), "OFF", 20) && !IsTeammate(BallCarrierRow(), "OFF", 20)
    ensures IsTeammate(NearMateRow(), "OFF", 20) && IsTeammate(FarMateRow(), "OFF", 20)
  {
    assert TacklerRow().club[0] != "OFF"[0];
  }

  lemma ExampleBallCarrierClub()
    ensures ClubOf(ExampleFrameRows(), 20) == Success("OFF")
  {
    assert ExampleFrameRows()[1] == BallCarrierRow();
  }

  lemma ExampleBox()
    ensures EventBox(ExampleEvent()) == Box(50.0, 55.0, 23.0, 29.0)
    ensures Inside([NearMateRow(), FarMateRow()], EventBox(ExampleEvent())) == [NearMateRow()]
  {
    var inside := (r: Row) => InBox(EventBox(ExampleEvent()), r.x, r.y);
    assert [NearMateRow(), FarMateRow()] == [NearMateRow()] + [FarMateRow()];
    FilterAppend([NearMateRow()], [FarMateRow()], inside);
    FilterAll([NearMateRow()], inside);
    FilterNone([FarMateRow()], inside);
  }

  /** The box of the example is x in [50, 55], y in [23, 29], so only the
      teammate at (52, 26) is counted: the one at y = 29.5 lies outside. */
  lemma TwoTeammatesExample()
    ensures EventBox(ExampleEvent()) == Box(50.0, 55.0, 23.0, 29.0)
    ensures NumOffensivePlayersBetween(ExampleEvent(), ExampleTracking()) == Success(1)
  {
    ExampleFrame();
    ExampleBallCarrierClub();
    ExampleTeammates();
    ExampleBox();
  }
}
