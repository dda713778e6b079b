/** The play animator: a cache from gameId to the week whose tracking file
    holds the game, filled lazily from the weekly files, and the set-up of
    a play's animation from the rows it loads. */
module Animator {
  import opened Wrappers
  import opened Seqs
  import opened Tracking
  import opened PlayGeometry

  const WEEK_START: int := 1
  const WEEK_END: int := 9
  /** One tracking file per week from WEEK_START to WEEK_END. */
  const NUM_WEEKS: nat := WEEK_END - WEEK_START + 1
  /** The column every weekly tracking file must start with. */
  const GAME_ID_HEADER := "gameId"

  /** A weekly tracking file: the name of its first column and its rows. */
  datatype WeekFile = WeekFile(firstHeader: string, rows: seq<Row>)

  /** The distinct gameIds of a weekly file, in order of first appearance. */
  function GameIds(f: WeekFile): seq<int>
  {
    Unique(seq(|f.rows|, i requires 0 <= i < |f.rows| => f.rows[i].gameId))
  }

  /** Each gameId of a weekly file is listed once, and exactly the games
      with a row in the file are listed. */
  lemma GameIdsListed(f: WeekFile)
    ensures Distinct(GameIds(f))
    ensures forall g :: g in GameIds(f) <==> exists r :: r in f.rows && r.gameId == g
  {
    var all := seq(|f.rows|, i requires 0 <= i < |f.rows| => f.rows[i].gameId);
    forall g | g in all ensures exists r :: r in f.rows && r.gameId == g {
      var i :| 0 <= i < |all| && all[i] == g;
      assert f.rows[i] in f.rows;
    }
    forall r | r in f.rows ensures r.gameId in all {
      var i :| 0 <= i < |f.rows| && f.rows[i] == r;
      assert all[i] == r.gameId;
    }
  }

  predicate BadHeader(f: WeekFile)
  {
    f.firstHeader != GAME_ID_HEADER
  }

  /** The index of the first weekly file whose header is wrong, or the
      number of files when all are right. */
  function FirstBadWeek(files: seq<WeekFile>): (k: nat)
    ensures k <= |files|
    ensures forall j :: 0 <= j < k ==> !BadHeader(files[j])
    ensures k < |files| ==> BadHeader(files[k])
  {
    FirstIndex(files, BadHeader)
  }

  /** Every cached week lies between WEEK_START and WEEK_END. */
  predicate WeeksInRange(cache: map<int, int>)
  {
    forall g :: g in cache ==> WEEK_START <= cache[g] <= WEEK_END
  }

  /** The cache after storing `week` for each of `gids` in turn. */
  function AssignAll(cache: map<int, int>, gids: seq<int>, week: int): map<int, int>
  {
    if |gids| == 0 then cache
    else AssignAll(cache, gids[..|gids| - 1], week)[gids[|gids| - 1] := week]
  }

  /** The week cached for `g`, if any. */
  function Lookup(cache: map<int, int>, g: int): Option<int>
  {
    if g in cache then Some(cache[g]) else None
  }

  /** Storing a week for a list of gameIds touches those games only, and
      each of them ends up with that week. */
  lemma {:induction false} AssignAllEffect(cache: map<int, int>, gids: seq<int>, week: int, g: int)
    ensures Lookup(AssignAll(cache, gids, week), g) == if g in gids then Some(week) else Lookup(cache, g)
    decreases |gids|
  {
    if |gids| > 0 {
      var init := gids[..|gids| - 1];
      AssignAllEffect(cache, init, week, g);
      assert gids == init + [gids[|gids| - 1]];
      assert g in gids <==> g in init || g == gids[|gids| - 1];
    }
  }

  lemma AssignNext(cache: map<int, int>, gids: seq<int>, i: nat, week: int)
    requires i < |gids|
    ensures AssignAll(cache, gids[..i + 1], week) == AssignAll(cache, gids[..i], week)[gids[i] := week]
  {
    assert gids[..i + 1][..i] == gids[..i];
  }

  /** The gameIds of each weekly file, in week order. */
  function GameIdLists(files: seq<WeekFile>): seq<seq<int>>
  {
    seq(|files|, i requires 0 <= i < |files| => GameIds(files[i]))
  }

  /** The cache after the gameId lists of the weeks before index `k` were
      read in order, each storing its week for each of its gameIds. */
  function Populated(cache: map<int, int>, weeks: seq<seq<int>>, k: nat): map<int, int>
    requires k <= |weeks|
  {
    if k == 0 then cache
    else AssignAll(Populated(cache, weeks, k - 1), weeks[k - 1], WEEK_START + (k - 1))
  }

  /** Reading the list of `week` extends the cache built from the weeks
      before it. */
  lemma PopulatedNext(cache: map<int, int>, weeks: seq<seq<int>>, week: int)
    requires WEEK_START <= week < WEEK_START + |weeks|
    ensures Populated(cache, weeks, week + 1 - WEEK_START) ==
              AssignAll(Populated(cache, weeks, week - WEEK_START), weeks[week - WEEK_START], week)
  {
  }

  /** The index of the last of the first `k` lists that holds game `g`, or
      -1 when none does. */
  function LastIndexWith(weeks: seq<seq<int>>, k: nat, g: int): (j: int)
    requires k <= |weeks|
    ensures -1 <= j < k
    ensures j >= 0 ==> g in weeks[j]
    ensures forall i :: j < i < k ==> g !in weeks[i]
  {
    if k == 0 then -1
    else if g in weeks[k - 1] then k - 1
    else LastIndexWith(weeks, k - 1, g)
  }

  /** After reading the first `k` weeks, a game is cached exactly when it
      was cached before or one of them holds it, and its week is that of the
      last one holding it: later weeks overwrite earlier ones. */
  lemma {:induction false} PopulatedAt(cache: map<int, int>, weeks: seq<seq<int>>, k: nat, g: int)
    requires k <= |weeks|
    ensures Lookup(Populated(cache, weeks, k), g) ==
              if LastIndexWith(weeks, k, g) >= 0 then Some(WEEK_START + LastIndexWith(weeks, k, g)) else Lookup(cache, g)
  {
    if k > 0 {
      PopulatedAt(cache, weeks, k - 1, g);
      AssignAllEffect(Populated(cache, weeks, k - 1), weeks[k - 1], WEEK_START + (k - 1), g);
    }
  }

  /** Reading at most NUM_WEEKS weeks keeps every cached week between
      WEEK_START and WEEK_END. */
  lemma PopulatedInRange(cache: map<int, int>, weeks: seq<seq<int>>, k: nat)
    requires k <= |weeks| <= NUM_WEEKS
    requires WeeksInRange(cache)
    ensures WeeksInRange(Populated(cache, weeks, k))
  {
    forall g | g in Populated(cache, weeks, k) {
      PopulatedAt(cache, weeks, k, g);
    }
  }

  /** The rows of one play, read from the file of the week cached for its
      game; a game missing from the cache raises a KeyError. */
  function PlayRows(cache: map<int, int>, files: seq<WeekFile>, gameId: int, playId: int): (r: Result<seq<Row>, PlayError>)
    requires |files| == NUM_WEEKS
    requires WeeksInRange(cache)
    ensures r.Failure? <==> gameId !in cache
    ensures r.Failure? ==> r.error == GameNotCached(gameId)
    ensures r.Success? ==> forall row :: row in r.value <==>
              row in files[cache[gameId] - WEEK_START].rows && row.gameId == gameId && row.playId == playId
  {
    if gameId !in cache then Failure(GameNotCached(gameId))
    else Success(Filter(files[cache[gameId] - WEEK_START].rows, (row: Row) => row.gameId == gameId && row.playId == playId))
  }

  /** The cache after a load: filled from the weekly files only when it was
      empty, and otherwise left as it was. */
  function CacheAfterLoad(cache: map<int, int>, files: seq<WeekFile>): map<int, int>
  {
    if |cache| == 0 then Populated(cache, GameIdLists(files), FirstBadWeek(files)) else cache
  }

  /** What loading a play returns, from the cache before the load. */
  function LoadResult(cache: map<int, int>, files: seq<WeekFile>, gameId: int, playId: int): Result<seq<Row>, PlayError>
    requires |files| == NUM_WEEKS
    requires WeeksInRange(cache)
  {
    if |cache| == 0 then
      var k := FirstBadWeek(files);
      PopulatedInRange(cache, GameIdLists(files), k);
      if k < |files| then Failure(BadTrackingHeader(WEEK_START + k))
      else PlayRows(Populated(cache, GameIdLists(files), k), files, gameId, playId)
    else PlayRows(cache, files, gameId, playId)
  }

  /** Loading with an empty cache and well-formed files fails exactly when
      no weekly file holds the game, and otherwise returns the play's rows
      of the last week whose file holds the game. */
  lemma LoadFromEmptyCache(files: seq<WeekFile>, gameId: int, playId: int)
    requires |files| == NUM_WEEKS
    requires FirstBadWeek(files) == |files|
    ensures LoadResult(map[], files, gameId, playId).Failure? <==>
              forall j :: 0 <= j < |files| ==> gameId !in GameIds(files[j])
    ensures LoadResult(map[], files, gameId, playId).Success? ==>
              var j := LastIndexWith(GameIdLists(files), |files|, gameId);
              && 0 <= j && gameId in GameIds(files[j])
              && forall row :: row in LoadResult(map[], files, gameId, playId).value <==>
                                 row in files[j].rows && row.gameId == gameId && row.playId == playId
  {
    var weeks := GameIdLists(files);
    var c := Populated(map[], weeks, |files|);
    LoadFromEmptyCacheReadsAll(files, gameId, playId);
    PopulatedAt(map[], weeks, |files|, gameId);
    var j := LastIndexWith(weeks, |files|, gameId);
    PlayRowsOfWeek(c, files, gameId, playId, j);
    LastWeekWithGame(files, gameId);
  }

  /** The rows a cache lookup reads when the game is cached for the week of
      index `j`, or not cached when `j` is negative. */
  lemma PlayRowsOfWeek(cache: map<int, int>, files: seq<WeekFile>, gameId: int, playId: int, j: int)
    requires |files| == NUM_WEEKS
    requires WeeksInRange(cache)
    requires -1 <= j < |files|
    requires Lookup(cache, gameId) == if j >= 0 then Some(WEEK_START + j) else None
    ensures PlayRows(cache, files, gameId, playId).Failure? <==> j < 0
    ensures PlayRows(cache, files, gameId, playId).Success? ==>
              forall row :: row in PlayRows(cache, files, gameId, playId).value <==>
                row in files[j].rows && row.gameId == gameId && row.playId == playId
  {
  }

  /** The last week whose file holds a game exists exactly when some
      file holds it. */
  lemma LastWeekWithGame(files: seq<WeekFile>, gameId: int)
    ensures var j := LastIndexWith(GameIdLists(files), |files|, gameId);
            && (j >= 0 <==> exists i :: 0 <= i < |files| && gameId in GameIds(files[i]))
            && (j >= 0 ==> gameId in GameIds(files[j]))
  {
    var weeks := GameIdLists(files);
    if exists i :: 0 <= i < |files| && gameId in GameIds(files[i]) {
      var i :| 0 <= i < |files| && gameId in GameIds(files[i]);
      assert gameId in weeks[i];
    }
    var j := LastIndexWith(weeks, |files|, gameId);
    if j >= 0 {
      assert weeks[j] == GameIds(files[j]);
    }
  }

  /** With well-formed files, loading into an empty cache reads every week
      and then selects the play from the cache so built. */
  lemma LoadFromEmptyCacheReadsAll(files: seq<WeekFile>, gameId: int, playId: int)
    requires |files| == NUM_WEEKS
    requires FirstBadWeek(files) == |files|
    ensures WeeksInRange(Populated(map[], GameIdLists(files), |files|))
    ensures LoadResult(map[], files, gameId, playId) == PlayRows(Populated(map[], GameIdLists(files), |files|), files, gameId, playId)
  {
    PopulatedInRange(map[], GameIdLists(files), |files|);
  }

  /** A header check that fails at the first week leaves the cache empty,
      so the next load reads the files again; one that fails later keeps the
      games of the weeks read before it. */
  lemma RaisedPopulationKeepsEarlierWeeks(files: seq<WeekFile>, g: int)
    requires |files| == NUM_WEEKS
    requires FirstBadWeek(files) < |files|
    ensures g in CacheAfterLoad(map[], files) <==> exists j :: 0 <= j < FirstBadWeek(files) && g in GameIds(files[j])
  {
    var k := FirstBadWeek(files);
    var weeks := GameIdLists(files);
    PopulatedAt(map[], weeks, k, g);
    if exists j :: 0 <= j < k && g in GameIds(files[j]) {
      var j :| 0 <= j < k && g in GameIds(files[j]);
      assert g in weeks[j];
      assert LastIndexWith(weeks, k, g) >= j;
    }
  }

  class NflPlayAnimator {
    /** gameId to the week whose tracking file holds it. */
    var gameIdDict: map<int, int>
    /** The predictions table, read once when the animator is made. */
    const predictions: seq<Prediction>

    ghost predicate Valid()
      reads this
    {
      WeeksInRange(gameIdDict)
    }

    constructor(predictions: seq<Prediction>)
      ensures Valid()
      ensures gameIdDict == map[] && this.predictions == predictions
    {
      gameIdDict := map[];
      this.predictions := predictions;
    }

    /** Reads the weekly files in order, storing each gameId's week; raises
        at the first file whose first column is not `gameId`, keeping what
        the earlier weeks stored. */
    method PopulateGameIdDict(files: seq<WeekFile>) returns (r: Result<(), PlayError>)
      requires |files| == NUM_WEEKS
      requires Valid()
      modifies this
      ensures Valid()
      ensures gameIdDict == Populated(old(gameIdDict), GameIdLists(files), FirstBadWeek(files))
      ensures r.Failure? <==> FirstBadWeek(files) < |files|
      ensures r.Failure? ==> r.error == BadTrackingHeader(WEEK_START + FirstBadWeek(files))
    {
      var week := WEEK_START;
      while week <= WEEK_END
        invariant WEEK_START <= week <= WEEK_END + 1
        invariant week - WEEK_START <= FirstBadWeek(files)
        invariant gameIdDict == Populated(old(gameIdDict), GameIdLists(files), week - WEEK_START)
      {
        var file := files[week - WEEK_START];
        if file.firstHeader != GAME_ID_HEADER {
          assert FirstBadWeek(files) == week - WEEK_START;
          PopulatedInRange(old(gameIdDict), GameIdLists(files), week - WEEK_START);
          return Failure(BadTrackingHeader(week));
        }
        StoreWeek(GameIdLists(files)[week - WEEK_START], week);
        PopulatedNext(old(gameIdDict), GameIdLists(files), week);
        week := week + 1;
      }
      PopulatedInRange(old(gameIdDict), GameIdLists(files), |files|);
      return Success(());
    }

    /** Stores `week` as the week of each of `gameIds`, in order. */
    method StoreWeek(gameIds: seq<int>, week: int)
      modifies this
      ensures gameIdDict == AssignAll(old(gameIdDict), gameIds, week)
    {
      var i := 0;
      while i < |gameIds|
        invariant 0 <= i <= |gameIds|
        invariant gameIdDict == AssignAll(old(gameIdDict), gameIds[..i], week)
      {
        AssignNext(old(gameIdDict), gameIds, i, week);
        gameIdDict := gameIdDict[gameIds[i] := week];
        i := i + 1;
      }
      assert gameIds[..i] == gameIds;
    }

    /** The tracking rows of one play. The cache is filled first when it is
        empty and is never refilled or changed otherwise. */
    method LoadPlayData(gameId: int, playId: int, files: seq<WeekFile>) returns (r: Result<seq<Row>, PlayError>)
      requires |files| == NUM_WEEKS
      requires Valid()
      modifies this
      ensures Valid()
      ensures gameIdDict == CacheAfterLoad(old(gameIdDict), files)
      ensures |old(gameIdDict)| != 0 ==> gameIdDict == old(gameIdDict)
      ensures r == LoadResult(old(gameIdDict), files, gameId, playId)
    {
      if |gameIdDict| == 0 {
        var populated := PopulateGameIdDict(files);
        if populated.Failure? {
          return Failure(populated.error);
        }
      }
      r := PlayRows(gameIdDict, files, gameId, playId);
    }

    /** Loads the play and sets up its animation. */
    method AnimatePlay(gameId: int, playId: int, tacklerId: int, files: seq<WeekFile>, info: PlayInfo)
      returns (r: Result<PlaySetup, PlayError>)
      requires |files| == NUM_WEEKS
      requires Valid()
      modifies this
      ensures Valid()
      ensures gameIdDict == CacheAfterLoad(old(gameIdDict), files)
      ensures r == (var loaded := LoadResult(old(gameIdDict), files, gameId, playId);
                    if loaded.Failure? then Failure(loaded.error)
                    else PlaySetupOf(loaded.value, info, predictions, gameId, playId, tacklerId))
    {
      var loaded := LoadPlayData(gameId, playId, files);
      if loaded.Failure? {
        return Failure(loaded.error);
      }
      r := SetUpPlay(loaded.value, gameId, playId, tacklerId, info);
    }

    /** Sets up the animation of a loaded play: the two clubs with the
        offence first, the line of scrimmage, the first-down line and the
        actual tackle line. */
    method SetUpPlay(df: seq<Row>, gameId: int, playId: int, tacklerId: int, info: PlayInfo)
      returns (r: Result<PlaySetup, PlayError>)
      ensures r == PlaySetupOf(df, info, predictions, gameId, playId, tacklerId)
    {
      var nFrames := NumFrames(df);
      var teams := Teams(df);
      if |teams| < 2 {
        return Failure(TooFewTeams);
      }
      var t1, t2 := teams[0], teams[1];
      if NumSuffix(info.down).None? {
        return Failure(UnknownDown(info.down));
      }
      // the offence is drawn as the first team
      if t1 != info.possessionTeam {
        var tmp := t1;
        t1 := t2;
        t2 := tmp;
      }
      assert teams[0] in teams;
      var playDirection := df[0].playDirection;
      var los := 0;
      if info.yardsToGo > SHORT_YARDAGE {
        if playDirection == LEFT {
          los := info.absoluteYardlineNumber + (info.yardsToGo - SHORT_YARDAGE);
        } else {
          los := info.absoluteYardlineNumber - (info.yardsToGo - SHORT_YARDAGE);
        }
      } else {
        los := info.absoluteYardlineNumber;
      }
      var firstDown := 0;
      if playDirection == LEFT {
        firstDown := info.absoluteYardlineNumber - info.yardsToGo;
      } else {
        firstDown := info.absoluteYardlineNumber + info.yardsToGo;
      }
      assert (t1, t2) == OffenceFirst(teams[0], teams[1], info.possessionTeam);
      assert los == LineOfScrimmage(info.absoluteYardlineNumber, info.yardsToGo, playDirection);
      assert firstDown == FirstDownLine(info.absoluteYardlineNumber, info.yardsToGo, playDirection);
      var actual := ActualTackleLine(predictions, gameId, playId, tacklerId, los, playDirection);
      if actual.Failure? {
        return Failure(actual.error);
      }
      r := Success(PlaySetup(nFrames, t1, t2, playDirection, los, firstDown, actual.value, info.ballCarrierId));
    }
  }
}
