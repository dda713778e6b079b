/** The rules of the play animation that are arithmetic or selection rather
    than drawing: which club is the offence, where the line of scrimmage,
    the first-down line and the tackle lines are drawn, which rows make up
    each group of dots in a frame, and the yard numbers on the field. */
module PlayGeometry {
  import opened Wrappers
  import opened Seqs
  import opened Tracking

  /** The tracking label of the ball's rows. */
  const FOOTBALL := "football"
  /** The `playDirection` value for a play run towards decreasing x. */
  const LEFT := "left"
  /** Beyond this many yards to go the line of scrimmage is shifted. */
  const SHORT_YARDAGE: int := 10

  /** The row of `plays.csv` the animation uses. */
  datatype PlayInfo = PlayInfo(
    ballCarrierId: int,
    possessionTeam: string,
    quarter: int,
    down: int,
    yardsToGo: int,
    absoluteYardlineNumber: int)

  /** A row of the predictions table. */
  datatype Prediction = Prediction(
    gameId: int,
    playId: int,
    frameId: int,
    tacklerId: int,
    playResult: real,
    predPlayResult: real)

  /** Why building a play's animation raises. */
  datatype PlayError =
    | BadTrackingHeader(week: int)   // the weekly file's first column is not `gameId`
    | GameNotCached(gameId: int)     // the gameId is in no weekly file (KeyError)
    | TooFewTeams                    // fewer than two clubs besides the ball (IndexError)
    | UnknownDown(down: int)         // no ordinal suffix for the down (KeyError)
    | NoPlayResult                   // no prediction row for the play and tackler (IndexError)

  /** Yards gained going from `from` to `to` in the direction of play. */
  function Advance(from: real, to: real, playDirection: string): real
  {
    if playDirection == LEFT then from - to else to - from
  }

  /** The line of scrimmage as the animation draws it: the absolute yard
      line, moved back against the direction of play by the yards to go
      beyond ten. */
  function LineOfScrimmage(absoluteYardline: int, yardsToGo: int, playDirection: string): (los: int)
    ensures yardsToGo <= SHORT_YARDAGE ==> los == absoluteYardline
    ensures yardsToGo > SHORT_YARDAGE ==>
              Advance(absoluteYardline as real, los as real, playDirection) == -(yardsToGo - SHORT_YARDAGE) as real
  {
    if yardsToGo > SHORT_YARDAGE then
      if playDirection == LEFT then absoluteYardline + (yardsToGo - SHORT_YARDAGE)
      else absoluteYardline - (yardsToGo - SHORT_YARDAGE)
    else absoluteYardline
  }

  /** The first-down line: `yardsToGo` ahead of the absolute yard line in
      the direction of play. */
  function FirstDownLine(absoluteYardline: int, yardsToGo: int, playDirection: string): (fd: int)
    ensures Advance(absoluteYardline as real, fd as real, playDirection) == yardsToGo as real
  {
    if playDirection == LEFT then absoluteYardline - yardsToGo else absoluteYardline + yardsToGo
  }

  /** Seen from the drawn line of scrimmage the first-down line is exactly
      `yardsToGo` ahead for ten yards or fewer to go, and 2 * yardsToGo - 10
      ahead beyond that. */
  lemma FirstDownFromScrimmage(absoluteYardline: int, yardsToGo: int, playDirection: string)
    ensures
      var los := LineOfScrimmage(absoluteYardline, yardsToGo, playDirection);
      var fd := FirstDownLine(absoluteYardline, yardsToGo, playDirection);
      Advance(los as real, fd as real, playDirection) ==
        if yardsToGo <= SHORT_YARDAGE then yardsToGo as real else (2 * yardsToGo - SHORT_YARDAGE) as real
  {
  }

  /** A tackle line: `playResult` yards from the line of scrimmage in the
      direction of play. */
  function TackleLine(los: int, playResult: real, playDirection: string): (t: real)
    ensures Advance(los as real, t, playDirection) == playResult
  {
    if playDirection == LEFT then los as real - playResult else los as real + playResult
  }

  predicate PredictionFor(p: Prediction, gameId: int, playId: int, frameId: int, tacklerId: int)
  {
    p.gameId == gameId && p.playId == playId && p.frameId == frameId && p.tacklerId == tacklerId
  }

  predicate ResultFor(p: Prediction, gameId: int, playId: int, tacklerId: int)
  {
    p.gameId == gameId && p.playId == playId && p.tacklerId == tacklerId
  }

  /** The predicted tackle line of one frame, from the first prediction row
      of that frame; `None` (the line is left as it was) when there is none. */
  function PredictedTackleLine(preds: seq<Prediction>, gameId: int, playId: int, frameId: int, tacklerId: int,
                               los: int, playDirection: string): (r: Option<real>)
    ensures r.None? <==> forall p :: p in preds ==> !PredictionFor(p, gameId, playId, frameId, tacklerId)
    ensures r.Some? ==> exists k :: 0 <= k < |preds| && PredictionFor(preds[k], gameId, playId, frameId, tacklerId)
                                    && (forall j :: 0 <= j < k ==> !PredictionFor(preds[j], gameId, playId, frameId, tacklerId))
                                    && Advance(los as real, r.value, playDirection) == preds[k].predPlayResult
  {
    match FirstMatch(preds, (p: Prediction) => PredictionFor(p, gameId, playId, frameId, tacklerId))
    case None => None
    case Some(p) => Some(TackleLine(los, p.predPlayResult, playDirection))
  }

  /** The actual tackle line, from the first prediction row of the play and
      tackler (any frame). */
  function ActualTackleLine(preds: seq<Prediction>, gameId: int, playId: int, tacklerId: int,
                            los: int, playDirection: string): (r: Result<real, PlayError>)
    ensures r.Failure? <==> forall p :: p in preds ==> !ResultFor(p, gameId, playId, tacklerId)
    ensures r.Failure? ==> r.error == NoPlayResult
    ensures r.Success? ==> exists k :: 0 <= k < |preds| && ResultFor(preds[k], gameId, playId, tacklerId)
                                       && (forall j :: 0 <= j < k ==> !ResultFor(preds[j], gameId, playId, tacklerId))
                                       && Advance(los as real, r.value, playDirection) == preds[k].playResult
  {
    match FirstMatch(preds, (p: Prediction) => ResultFor(p, gameId, playId, tacklerId))
    case None => Failure(NoPlayResult)
    case Some(p) => Success(TackleLine(los, p.playResult, playDirection))
  }

  function Clubs(df: seq<Row>): seq<string>
  {
    seq(|df|, i requires 0 <= i < |df| => df[i].club)
  }

  function FrameIds(df: seq<Row>): seq<int>
  {
    seq(|df|, i requires 0 <= i < |df| => df[i].frameId)
  }

  /** The number of animation frames: the distinct frame ids of the play. */
  function NumFrames(df: seq<Row>): (n: nat)
    ensures n == |set r | r in df :: r.frameId|
    ensures n <= |df|
    ensures n == 0 <==> |df| == 0
  {
    var ids := FrameIds(df);
    var u := Unique(ids);
    UniqueCount(ids);
    assert (set x | x in ids) == (set r | r in df :: r.frameId) by {
      forall x | x in ids ensures x in (set r | r in df :: r.frameId) {
        var i :| 0 <= i < |df| && ids[i] == x;
        assert df[i] in df;
      }
      forall r | r in df ensures r.frameId in ids {
        var i :| 0 <= i < |df| && df[i] == r;
        assert ids[i] == r.frameId;
      }
    }
    if |df| > 0 then assert ids[0] in u; |u| else |u|
  }

  /** The clubs of the play other than the ball, each once, in order of
      first appearance. */
  function Teams(df: seq<Row>): (teams: seq<string>)
    ensures FOOTBALL !in teams
    ensures Distinct(teams)
    ensures forall t :: t in teams <==> t != FOOTBALL && exists r :: r in df && r.club == t
    ensures InOrderOfFirstAppearance(Clubs(df), teams)
  {
    var clubs := Unique(Clubs(df));
    FilterDistinct(clubs, (t: string) => t != FOOTBALL);
    KeptInOrder(Clubs(df), clubs, (t: string) => t != FOOTBALL);
    assert forall t :: t in Clubs(df) <==> exists r :: r in df && r.club == t by {
      forall t | t in Clubs(df) ensures exists r :: r in df && r.club == t {
        var i :| 0 <= i < |df| && Clubs(df)[i] == t;
        assert df[i] in df;
      }
      forall r | r in df ensures r.club in Clubs(df) {
        var i :| 0 <= i < |df| && df[i] == r;
        assert Clubs(df)[i] == r.club;
      }
    }
    Filter(clubs, (t: string) => t != FOOTBALL)
  }

  /** The two clubs in drawing order, the offence first: the order of
      appearance is swapped whenever the first club is not the possession
      team, even when neither is. */
  function OffenceFirst(t1: string, t2: string, possessionTeam: string): (r: (string, string))
    ensures multiset{r.0, r.1} == multiset{t1, t2}
    ensures (possessionTeam == t1 || possessionTeam == t2) ==> r.0 == possessionTeam
    ensures t1 == possessionTeam ==> r == (t1, t2)
    ensures t1 != possessionTeam ==> r == (t2, t1)
  {
    if t1 != possessionTeam then (t2, t1) else (t1, t2)
  }

  /** The ordinal suffix printed after the down; the lookup fails for any
      other down. */
  function NumSuffix(down: int): (r: Option<string>)
    ensures r.Some? <==> 1 <= down <= 4
  {
    var suffixes := map[1 := "st", 2 := "nd", 3 := "rd", 4 := "th"];
    if down in suffixes then Some(suffixes[down]) else None
  }

  /** What the animation is set up with before the first frame is drawn. */
  datatype PlaySetup = PlaySetup(
    nFrames: nat,
    offence: string,
    defence: string,
    playDirection: string,
    lineOfScrimmage: int,
    firstDownLine: int,
    actualTackleLine: real,
    ballCarrierId: int)

  /** The set-up rules of `animate_play` once the play's tracking rows are
      loaded, in the order in which the source can raise. */
  function PlaySetupOf(df: seq<Row>, info: PlayInfo, preds: seq<Prediction>,
                       gameId: int, playId: int, tacklerId: int): (r: Result<PlaySetup, PlayError>)
    ensures r.Failure? <==>
              (|Teams(df)| < 2 || !(1 <= info.down <= 4)
               || forall p :: p in preds ==> !ResultFor(p, gameId, playId, tacklerId))
    ensures r.Failure? ==>
              r.error == (if |Teams(df)| < 2 then TooFewTeams
                          else if !(1 <= info.down <= 4) then UnknownDown(info.down)
                          else NoPlayResult)
  {
    var teams := Teams(df);
    if |teams| < 2 then Failure(TooFewTeams)
    else if NumSuffix(info.down).None? then Failure(UnknownDown(info.down))
    else
      var order := OffenceFirst(teams[0], teams[1], info.possessionTeam);
      assert teams[0] in teams;
      var playDirection := df[0].playDirection;
      var los := LineOfScrimmage(info.absoluteYardlineNumber, info.yardsToGo, playDirection);
      var fd := FirstDownLine(info.absoluteYardlineNumber, info.yardsToGo, playDirection);
      match ActualTackleLine(preds, gameId, playId, tacklerId, los, playDirection)
      case Failure(e) => Failure(e)
      case Success(tackleLine) =>
        Success(PlaySetup(NumFrames(df), order.0, order.1, playDirection, los, fd, tackleLine, info.ballCarrierId))
  }

  /** A successful set-up draws two different clubs, neither of them the
      ball, the offence first whenever the possession team is one of them;
      its lines are measured in the direction of the play's first row. */
  lemma PlaySetupFacts(df: seq<Row>, info: PlayInfo, preds: seq<Prediction>, gameId: int, playId: int, tacklerId: int)
    requires PlaySetupOf(df, info, preds, gameId, playId, tacklerId).Success?
    ensures
      var s := PlaySetupOf(df, info, preds, gameId, playId, tacklerId).value;
      var teams := Teams(df);
      && s.offence != FOOTBALL && s.defence != FOOTBALL && s.offence != s.defence
      && {s.offence, s.defence} == {teams[0], teams[1]}
      && (info.possessionTeam in {teams[0], teams[1]} ==> s.offence == info.possessionTeam)
      && (exists r :: r in df && r.club == s.offence)
      && (exists r :: r in df && r.club == s.defence)
      && |df| > 0 && s.playDirection == df[0].playDirection
      && s.nFrames == NumFrames(df)
      && s.lineOfScrimmage == LineOfScrimmage(info.absoluteYardlineNumber, info.yardsToGo, s.playDirection)
      && s.firstDownLine == FirstDownLine(info.absoluteYardlineNumber, info.yardsToGo, s.playDirection)
      && s.actualTackleLine == ActualTackleLine(preds, gameId, playId, tacklerId, s.lineOfScrimmage, s.playDirection).value
  {
    var teams := Teams(df);
    assert teams[0] in teams && teams[1] in teams;
  }
  /** The rows `_plot_players` draws for one animation frame, by group.
      The drawing uses only each row's `x` and `y`. */
  datatype FrameView = FrameView(
    predictedTackleLine: Option<real>,   // None: the line keeps its previous position
    team1: seq<Row>,
    team2: seq<Row>,
    ball: seq<Row>,
    tackler: Option<seq<Row>>,           // None: the tackler's dot keeps its previous position
    ballCarrier: Option<seq<Row>>)       // None: the ball carrier's dot keeps its previous position

  predicate InPlotFrame(r: Row, frame: int)
  {
    r.frameId == frame
  }

  /** A dot of a team group: in the frame, of the club, and neither the
      tackler nor the ball carrier (a row without an id is in the group). */
  predicate TeamDot(r: Row, frame: int, club: string, tacklerId: int, ballCarrierId: int)
  {
    InPlotFrame(r, frame) && r.club == club && !HasId(r, tacklerId) && !HasId(r, ballCarrierId)
  }

  predicate BallDot(r: Row, frame: int)
  {
    InPlotFrame(r, frame) && r.club == FOOTBALL
  }

  predicate PlayerDot(r: Row, frame: int, id: int)
  {
    InPlotFrame(r, frame) && HasId(r, id)
  }

  /** The highlighted dot of one player: `None` when the player has no row
      in the frame. */
  function Highlight(df: seq<Row>, frame: int, id: int): (h: Option<seq<Row>>)
    ensures h.None? <==> forall r :: r in df ==> !PlayerDot(r, frame, id)
    ensures h.Some? ==> |h.value| > 0 && forall r :: r in h.value <==> r in df && PlayerDot(r, frame, id)
  {
    var rows := Filter(df, (r: Row) => PlayerDot(r, frame, id));
    if |rows| > 0 then assert rows[0] in rows; Some(rows)
    else None
  }

  /** One frame of the animation: the predicted tackle line of the frame,
      the two team groups, the ball and the two highlighted players. */
  function PlotFrame(df: seq<Row>, preds: seq<Prediction>, los: int, playDirection: string,
                     tacklerId: int, ballCarrierId: int, gameId: int, playId: int,
                     t1: string, t2: string, frame: int): (v: FrameView)
    ensures forall r :: r in v.team1 <==> r in df && TeamDot(r, frame, t1, tacklerId, ballCarrierId)
    ensures forall r :: r in v.team2 <==> r in df && TeamDot(r, frame, t2, tacklerId, ballCarrierId)
    ensures forall r :: r in v.ball <==> r in df && BallDot(r, frame)
    ensures v.tackler.None? <==> forall r :: r in df ==> !PlayerDot(r, frame, tacklerId)
    ensures v.ballCarrier.None? <==> forall r :: r in df ==> !PlayerDot(r, frame, ballCarrierId)
    ensures v.predictedTackleLine.None? <==>
              forall p :: p in preds ==> !PredictionFor(p, gameId, playId, frame, tacklerId)
  {
    FrameView(
      PredictedTackleLine(preds, gameId, playId, frame, tacklerId, los, playDirection),
      Filter(df, (r: Row) => TeamDot(r, frame, t1, tacklerId, ballCarrierId)),
      Filter(df, (r: Row) => TeamDot(r, frame, t2, tacklerId, ballCarrierId)),
      Filter(df, (r: Row) => BallDot(r, frame)),
      Highlight(df, frame, tacklerId),
      Highlight(df, frame, ballCarrierId))
  }

  /** With two distinct clubs other than the ball, a football row without
      an id (as in the tracking files) and a tackler distinct from the ball
      carrier, every row of the frame of one of the two clubs or of the ball
      is drawn exactly once: in its team group, as the ball, or as one
      highlighted player. */
  lemma {:induction false} EveryDotDrawnOnce(df: seq<Row>, preds: seq<Prediction>, los: int, playDirection: string,
                                             tacklerId: int, ballCarrierId: int, gameId: int, playId: int,
                                             t1: string, t2: string, frame: int, r: Row)
    requires t1 != t2 && t1 != FOOTBALL && t2 != FOOTBALL
    requires r in df && InPlotFrame(r, frame) && r.club in {t1, t2, FOOTBALL}
    requires r.club == FOOTBALL ==> r.nflId.None?
    requires tacklerId != ballCarrierId
    ensures
      var v := PlotFrame(df, preds, los, playDirection, tacklerId, ballCarrierId, gameId, playId, t1, t2, frame);
      var highlighted := (v.tackler.Some? && r in v.tackler.value) || (v.ballCarrier.Some? && r in v.ballCarrier.value);
      && (r in v.team1 ==> r !in v.team2 && r !in v.ball && !highlighted)
      && (r in v.team2 ==> r !in v.ball && !highlighted)
      && (r.club != FOOTBALL ==> (r in v.team1 || r in v.team2 || highlighted))
      && (r.club == FOOTBALL ==> r in v.ball)
      && (r in v.ball ==> !highlighted)
      && !((v.tackler.Some? && r in v.tackler.value) && (v.ballCarrier.Some? && r in v.ballCarrier.value))
  {
    var v := PlotFrame(df, preds, los, playDirection, tacklerId, ballCarrierId, gameId, playId, t1, t2, frame);
    if HasId(r, tacklerId) {
      assert PlayerDot(r, frame, tacklerId);
      assert v.tackler.Some?;
    } else if HasId(r, ballCarrierId) {
      assert PlayerDot(r, frame, ballCarrierId);
      assert v.ballCarrier.Some?;
    }
  }

  /** Python's `range(start, stop, step)` for a positive step. */
  function Range(start: int, stop: int, step: nat): (r: seq<int>)
    requires step > 0
    ensures forall i :: 0 <= i < |r| ==> r[i] == start + step * i && start <= r[i] < stop
    ensures start < stop ==> |r| > 0 && r[|r| - 1] + step >= stop
    ensures start >= stop ==> r == []
    decreases stop - start
  {
    if start >= stop then []
    else [start] + Range(start + step, stop, step)
  }

  /** The field positions at which yard numbers are written. */
  function YardNumberPositions(): seq<int>
  {
    Range(20, 110, 10)
  }

  /** The yard number written at field position `x`: the distance to the
      nearer goal line, which lies ten yards in from either end. */
  function YardLabel(x: int): int
  {
    (if x > 50 then 120 - x else x) - 10
  }

  lemma {:induction false} YardLabelsAsDrawn()
    ensures YardNumberPositions() == [20, 30, 40, 50, 60, 70, 80, 90, 100]
    ensures seq(9, i requires 0 <= i < 9 => YardLabel(YardNumberPositions()[i])) == [10, 20, 30, 40, 50, 40, 30, 20, 10]
  {
    PositionsLength();
    var p := YardNumberPositions();
    assert p[0] == 20 && p[1] == 30 && p[2] == 40 && p[3] == 50 && p[4] == 60;
    assert p[5] == 70 && p[6] == 80 && p[7] == 90 && p[8] == 100;
    assert p == [20, 30, 40, 50, 60, 70, 80, 90, 100];
  }

  lemma PositionsLength()
    ensures |YardNumberPositions()| == 9
  {
    var p := YardNumberPositions();
    assert p[|p| - 1] == 20 + 10 * (|p| - 1);
  }

  /** The yard numbers are symmetric about midfield, lie between 10 and 50,
      and read 50 at midfield only. */
  lemma YardLabelProperties(i: int)
    requires 0 <= i < |YardNumberPositions()|
    ensures
      var p := YardNumberPositions();
      && |p| == 9
      && p[8 - i] == 120 - p[i]
      && YardLabel(p[i]) == YardLabel(p[8 - i])
      && 10 <= YardLabel(p[i]) <= 50
      && (YardLabel(p[i]) == 50 <==> p[i] == 60)
  {
    PositionsLength();
  }
}
