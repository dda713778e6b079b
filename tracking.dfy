/** The two input tables of the feature extractors: player-tracking rows and
    tackle-event rows, and the frame selection and club lookup that both
    extractors begin with. */
module Tracking {
  import opened Wrappers
  import opened Seqs

  /** One tracking row: a player (or the ball) at one frame of one play.
      The ball's row has no `nflId` (pandas NaN) and the club `"football"`. */
  datatype Row = Row(
    gameId: int,
    playId: int,
    frameId: int,
    nflId: Option<int>,
    club: string,
    playDirection: string,
    x: real,
    y: real)

  /** One tackle event: the snapshot key, the two players involved and their
      positions as recorded in the event table. */
  datatype TackleEvent = TackleEvent(
    gameId: int,
    playId: int,
    frameId: int,
    tacklerId: int,
    ballCarrierId: int,
    xTackler: real,
    yTackler: real,
    xBallCarrier: real,
    yBallCarrier: real)

  /** Why a per-event computation raises: the player's id has no row in the
      event's frame, so the `iloc[0]` of the club lookup is out of range. */
  datatype Error = PlayerNotInFrame(nflId: int)

  predicate InFrame(r: Row, ev: TackleEvent)
  {
    r.gameId == ev.gameId && r.playId == ev.playId && r.frameId == ev.frameId
  }

  /** The tracking rows of the event's (gameId, playId, frameId) snapshot. */
  function SameFrame(tracking: seq<Row>, ev: TackleEvent): (frame: seq<Row>)
    ensures forall r :: r in frame <==> r in tracking && InFrame(r, ev)
  {
    Filter(tracking, (r: Row) => InFrame(r, ev))
  }

  /** Whether the pandas mask `nflId == id` selects this row; the ball's
      missing id never equals a player id. */
  predicate HasId(r: Row, id: int)
  {
    r.nflId == Some(id)
  }

  /** The club of the first frame row whose id is `id`, failing when no row
      has that id. */
  function ClubOf(frame: seq<Row>, id: int): (r: Result<string, Error>)
    ensures r.Failure? <==> forall row :: row in frame ==> !HasId(row, id)
    ensures r.Failure? ==> r.error == PlayerNotInFrame(id)
    ensures r.Success? ==> exists k :: 0 <= k < |frame| && HasId(frame[k], id) && frame[k].club == r.value
                                       && forall j :: 0 <= j < k ==> !HasId(frame[j], id)
  {
    var k := FirstIndex(frame, (row: Row) => HasId(row, id));
    if k < |frame| then Success(frame[k].club) else Failure(PlayerNotInFrame(id))
  }
}
