/** The nearest-player features of a tackle event: the three smallest
    distances from the tackler to its own teammates, the three smallest to
    everyone else in the frame, and whether the ball carrier is among the
    three nearest of the latter. */
module NearestPlayers {
  import opened Wrappers
  import opened Seqs
  import opened Tracking

  /** How many nearest rows each group keeps (`nsmallest(3)`). */
  const NEAREST: nat := 3

  /** A candidate row reduced to what the selection needs: its id and its
      distance from the tackler. */
  datatype Cand = Cand(nflId: Option<int>, dist: real)

  /** The selection made for one event, before it is flattened into the
      output list. */
  datatype Nearest = Nearest(defenders: seq<Cand>, offensive: seq<Cand>, indicator: int)

  /** Squared Euclidean distance. It ranks candidates exactly as the
      Euclidean distance does, since the square root is strictly increasing
      on the non-negative reals. */
  function SqDist(x0: real, y0: real, x: real, y: real): (d: real)
    ensures d >= 0.0
  {
    (x - x0) * (x - x0) + (y - y0) * (y - y0)
  }

  /** The frame rows of the tackler's club other than the tackler. */
  predicate IsDefender(r: Row, club: string, tacklerId: int)
  {
    r.club == club && !HasId(r, tacklerId)
  }

  /** Every frame row of another club, the ball's row included. */
  predicate IsOffensive(r: Row, club: string)
  {
    r.club != club
  }

  function Defenders(frame: seq<Row>, club: string, tacklerId: int): (d: seq<Row>)
    ensures forall r :: r in d <==> r in frame && IsDefender(r, club, tacklerId)
  {
    Filter(frame, (r: Row) => IsDefender(r, club, tacklerId))
  }

  function Offensive(frame: seq<Row>, club: string): (o: seq<Row>)
    ensures forall r :: r in o <==> r in frame && IsOffensive(r, club)
  {
    Filter(frame, (r: Row) => IsOffensive(r, club))
  }

  /** Each row with its distance from (x0, y0): the vectorised distance
      column of one group. */
  function Candidates(rows: seq<Row>, x0: real, y0: real): (c: seq<Cand>)
    ensures |c| == |rows|
    ensures forall i :: 0 <= i < |c| ==> c[i].nflId == rows[i].nflId && c[i].dist >= 0.0
  {
    seq(|rows|, i requires 0 <= i < |rows| => Cand(rows[i].nflId, SqDist(x0, y0, rows[i].x, rows[i].y)))
  }

  function Dists(c: seq<Cand>): seq<real>
  {
    seq(|c|, i requires 0 <= i < |c| => c[i].dist)
  }

  function Ids(c: seq<Cand>): seq<Option<int>>
  {
    seq(|c|, i requires 0 <= i < |c| => c[i].nflId)
  }

  predicate SortedByDist(c: seq<Cand>)
  {
    forall i, j :: 0 <= i < j < |c| ==> c[i].dist <= c[j].dist
  }

  /** What `nsmallest(n)` promises of its result `r` on `s`: min(n, |s|)
      entries taken from `s`, in non-decreasing order, and no candidate left
      out is strictly closer than any one taken. Ties are left open. */
  ghost predicate IsNSmallest(s: seq<Cand>, n: nat, r: seq<Cand>)
  {
    && |r| == Min(n, |s|)
    && SortedByDist(r)
    && multiset(r) <= multiset(s)
    && forall c, i :: c in multiset(s) - multiset(r) && 0 <= i < |r| ==> r[i].dist <= c.dist
  }

  /** Index of a closest candidate (the first one on ties). */
  function MinIndex(s: seq<Cand>): (k: nat)
    requires |s| > 0
    ensures k < |s|
    ensures forall j :: 0 <= j < |s| ==> s[k].dist <= s[j].dist
  {
    if |s| == 1 then 0
    else
      var k := MinIndex(s[1..]);
      if s[0].dist <= s[k + 1].dist then 0 else k + 1
  }

  function RemoveAt(s: seq<Cand>, k: nat): seq<Cand>
    requires k < |s|
  {
    s[..k] + s[k + 1..]
  }

  /** `nsmallest(n)` by repeated selection of a closest candidate. */
  function NSmallest(s: seq<Cand>, n: nat): (r: seq<Cand>)
    ensures |r| == Min(n, |s|)
    decreases n
  {
    if n == 0 || |s| == 0 then []
    else
      var k := MinIndex(s);
      [s[k]] + NSmallest(RemoveAt(s, k), n - 1)
  }

  /** The selection meets the specification of `nsmallest`. */
  lemma {:induction false} NSmallestCorrect(s: seq<Cand>, n: nat)
    ensures IsNSmallest(s, n, NSmallest(s, n))
    decreases n
  {
    if n > 0 && |s| > 0 {
      var k := MinIndex(s);
      NSmallestCorrect(RemoveAt(s, k), n - 1);
      SelectStep(s, n, k, NSmallest(RemoveAt(s, k), n - 1));
    }
  }

  /** One step of the selection: a closest candidate followed by the
      n - 1 nearest of the others are the n nearest of all. */
  lemma SelectStep(s: seq<Cand>, n: nat, k: nat, rest: seq<Cand>)
    requires 0 < n && k < |s|
    requires forall j :: 0 <= j < |s| ==> s[k].dist <= s[j].dist
    requires IsNSmallest(RemoveAt(s, k), n - 1, rest)
    ensures IsNSmallest(s, n, [s[k]] + rest)
  {
    var s' := RemoveAt(s, k);
    var r := [s[k]] + rest;
    SelectMultisets(s, k, rest);
    MinBelowRest(s, k, rest);
    ConsSorted(s[k], rest);
    var others := multiset(s') - multiset(rest);
    ConsBound(s[k], rest, others);
    assert |r| == Min(n, |s|);
    assert multiset(s) - multiset(r) == others;
  }

  /** Putting the removed candidate back in front of the selection keeps
      it a sub-multiset, with the same candidates left over. */
  lemma SelectMultisets(s: seq<Cand>, k: nat, rest: seq<Cand>)
    requires k < |s|
    requires multiset(rest) <= multiset(RemoveAt(s, k))
    ensures multiset([s[k]] + rest) <= multiset(s)
    ensures multiset(s) - multiset([s[k]] + rest) == multiset(RemoveAt(s, k)) - multiset(rest)
  {
    RemoveAtMultiset(s, k);
    assert multiset([s[k]] + rest) == multiset(rest) + multiset{s[k]};
    MultisetCancel(multiset(RemoveAt(s, k)), multiset(rest), s[k]);
  }

  /** A closest candidate is no farther than any candidate of the rest,
      selected or not. */
  lemma MinBelowRest(s: seq<Cand>, k: nat, rest: seq<Cand>)
    requires k < |s|
    requires forall j :: 0 <= j < |s| ==> s[k].dist <= s[j].dist
    requires multiset(rest) <= multiset(RemoveAt(s, k))
    ensures forall j :: 0 <= j < |rest| ==> s[k].dist <= rest[j].dist
    ensures forall c :: c in multiset(RemoveAt(s, k)) - multiset(rest) ==> s[k].dist <= c.dist
  {
    MinBelowAll(s, k);
    RemoveAtMultiset(s, k);
    forall j | 0 <= j < |rest|
      ensures s[k].dist <= rest[j].dist
    {
      assert rest[j] in multiset(rest);
    }
  }

  lemma MinBelowAll(s: seq<Cand>, k: nat)
    requires k < |s|
    requires forall j :: 0 <= j < |s| ==> s[k].dist <= s[j].dist
    ensures forall c :: c in multiset(s) ==> s[k].dist <= c.dist
  {
    forall c | c in multiset(s) ensures s[k].dist <= c.dist {
      assert c in s;
    }
  }

  lemma ConsSorted(x: Cand, rest: seq<Cand>)
    requires SortedByDist(rest)
    requires forall j :: 0 <= j < |rest| ==> x.dist <= rest[j].dist
    ensures SortedByDist([x] + rest)
  {
    var r := [x] + rest;
    forall i, j | 0 <= i < j < |r| ensures r[i].dist <= r[j].dist {
      assert r[j] == rest[j - 1];
      if i > 0 { assert r[i] == rest[i - 1]; }
    }
  }

  lemma ConsBound(x: Cand, rest: seq<Cand>, others: multiset<Cand>)
    requires forall c, i :: c in others && 0 <= i < |rest| ==> rest[i].dist <= c.dist
    requires forall c :: c in others ==> x.dist <= c.dist
    ensures forall c, i :: c in others && 0 <= i < |[x] + rest| ==> ([x] + rest)[i].dist <= c.dist
  {
    forall c, i | c in others && 0 <= i < |[x] + rest| ensures ([x] + rest)[i].dist <= c.dist {
      if i > 0 { assert ([x] + rest)[i] == rest[i - 1]; }
    }
  }

  lemma RemoveAtMultiset(s: seq<Cand>, k: nat)
    requires k < |s|
    ensures multiset(s) == multiset(RemoveAt(s, k)) + multiset{s[k]}
  {
    assert s == s[..k] + [s[k]] + s[k + 1..];
  }

  lemma MultisetCancel(a: multiset<Cand>, b: multiset<Cand>, x: Cand)
    requires b <= a
    ensures (a + multiset{x}) - (b + multiset{x}) == a - b
    ensures b + multiset{x} <= a + multiset{x}
  {
  }

  /** The tackler's own rows: its club and its id. With the defenders and
      the offensive rows they make up the whole frame. */
  predicate IsTacklerRow(r: Row, club: string, tacklerId: int)
  {
    r.club == club && HasId(r, tacklerId)
  }

  /** The selection within one frame, once the tackler's club is known:
      partition, the two `nsmallest(3)` calls and the ball-carrier
      indicator. */
  function NearestInFrame(frame: seq<Row>, club: string, ev: TackleEvent): (n: Nearest)
    ensures IsNSmallest(Candidates(Defenders(frame, club, ev.tacklerId), ev.xTackler, ev.yTackler), NEAREST, n.defenders)
    ensures IsNSmallest(Candidates(Offensive(frame, club), ev.xTackler, ev.yTackler), NEAREST, n.offensive)
    ensures n.indicator == 0 || n.indicator == 1
    ensures n.indicator == 1 <==> Some(ev.ballCarrierId) in Ids(n.offensive)
  {
    var closestDefenders := NSmallest(Candidates(Defenders(frame, club, ev.tacklerId), ev.xTackler, ev.yTackler), NEAREST);
    var closestOffensive := NSmallest(Candidates(Offensive(frame, club), ev.xTackler, ev.yTackler), NEAREST);
    var indicator := if Some(ev.ballCarrierId) in Ids(closestOffensive) then 1 else 0;
    NSmallestCorrect(Candidates(Defenders(frame, club, ev.tacklerId), ev.xTackler, ev.yTackler), NEAREST);
    NSmallestCorrect(Candidates(Offensive(frame, club), ev.xTackler, ev.yTackler), NEAREST);
    Nearest(closestDefenders, closestOffensive, indicator)
  }

  /** The per-event selection: the event's frame, the tackler's club, then
      the selection within the frame. */
  function SelectNearest(ev: TackleEvent, tracking: seq<Row>): (r: Result<Nearest, Error>)
    ensures r.Failure? <==> forall row :: row in SameFrame(tracking, ev) ==> !HasId(row, ev.tacklerId)
    ensures r.Success? ==>
      var frame := SameFrame(tracking, ev);
      r.value == NearestInFrame(frame, ClubOf(frame, ev.tacklerId).value, ev)
  {
    var frame := SameFrame(tracking, ev);
    var club :- ClubOf(frame, ev.tacklerId);
    Success(NearestInFrame(frame, club, ev))
  }

  /** The returned list: defender distances, then offensive distances, then
      the indicator. */
  function Features(n: Nearest): (v: seq<real>)
    ensures |v| == |n.defenders| + |n.offensive| + 1
    ensures v[|v| - 1] == n.indicator as real
  {
    Dists(n.defenders) + Dists(n.offensive) + [n.indicator as real]
  }

  /** `find_closest_players_and_ballcarrier_indicator` for one event row. */
  function FindClosestPlayersAndBallCarrierIndicator(ev: TackleEvent, tracking: seq<Row>): (r: Result<seq<real>, Error>)
    ensures r.Failure? <==> forall row :: row in SameFrame(tracking, ev) ==> !HasId(row, ev.tacklerId)
    ensures r.Failure? ==> r.error == PlayerNotInFrame(ev.tacklerId)
  {
    match SelectNearest(ev, tracking)
    case Failure(e) => Failure(e)
    case Success(n) => Success(Features(n))
  }

  /** A selected candidate is the distance from the event's tackler position
      to one of the group's rows. */
  lemma SelectedFromGroup(rows: seq<Row>, x0: real, y0: real, r: seq<Cand>, i: int)
    requires IsNSmallest(Candidates(rows, x0, y0), NEAREST, r)
    requires 0 <= i < |r|
    ensures exists row :: row in rows && r[i].nflId == row.nflId && r[i].dist == SqDist(x0, y0, row.x, row.y)
  {
    var c := Candidates(rows, x0, y0);
    assert r[i] in multiset(r);
    assert r[i] in c;
    var k :| 0 <= k < |c| && c[k] == r[i];
    assert rows[k] in rows;
  }

  predicate Ascending(v: seq<real>)
  {
    forall i, j :: 0 <= i < j < |v| ==> v[i] <= v[j]
  }

  predicate NonNegative(v: seq<real>)
  {
    forall i :: 0 <= i < |v| ==> v[i] >= 0.0
  }

  /** The distances of a selected group: non-negative and ascending. */
  lemma SelectedDistances(rows: seq<Row>, x0: real, y0: real, r: seq<Cand>)
    requires IsNSmallest(Candidates(rows, x0, y0), NEAREST, r)
    ensures Ascending(Dists(r)) && NonNegative(Dists(r))
  {
    forall i | 0 <= i < |r|
      ensures r[i].dist >= 0.0
    {
      SelectedFromGroup(rows, x0, y0, r, i);
    }
  }

  lemma FeaturesLayout(sel: Nearest)
    requires Ascending(Dists(sel.defenders)) && NonNegative(Dists(sel.defenders))
    requires Ascending(Dists(sel.offensive)) && NonNegative(Dists(sel.offensive))
    ensures
      var v := Features(sel);
      var nd := |sel.defenders|;
      var no := |sel.offensive|;
      && |v| == nd + no + 1
      && v[..nd] == Dists(sel.defenders)
      && v[nd..nd + no] == Dists(sel.offensive)
      && Ascending(v[..nd]) && Ascending(v[nd..nd + no])
      && NonNegative(v[..nd + no])
      && v[nd + no] == sel.indicator as real
  {
    var v := Features(sel);
    var nd := |sel.defenders|;
    var no := |sel.offensive|;
    assert v[..nd] == Dists(sel.defenders);
    assert v[nd..nd + no] == Dists(sel.offensive);
    assert v[..nd + no] == Dists(sel.defenders) + Dists(sel.offensive);
  }

  /** Layout of the returned list: the min(3, |D|) ascending defender
      distances, the min(3, |O|) ascending offensive distances, and the 0/1
      indicator last, 1 exactly when the ball carrier is one of the selected
      offensive rows. A short group shifts the later values forward. */
  lemma FeatureVector(ev: TackleEvent, tracking: seq<Row>)
    requires exists row :: row in tracking && InFrame(row, ev) && HasId(row, ev.tacklerId)
    ensures
      var v := FindClosestPlayersAndBallCarrierIndicator(ev, tracking).value;
      var sel := SelectNearest(ev, tracking).value;
      var frame := SameFrame(tracking, ev);
      var club := ClubOf(frame, ev.tacklerId).value;
      var nd := Min(NEAREST, |Defenders(frame, club, ev.tacklerId)|);
      var no := Min(NEAREST, |Offensive(frame, club)|);
      && |v| == nd + no + 1
      && v[..nd] == Dists(sel.defenders)
      && v[nd..nd + no] == Dists(sel.offensive)
      && Ascending(v[..nd]) && Ascending(v[nd..nd + no])
      && NonNegative(v[..nd + no])
      && (v[nd + no] == 0.0 || v[nd + no] == 1.0)
      && (v[nd + no] == 1.0 <==> Some(ev.ballCarrierId) in Ids(sel.offensive))
  {
    var frame := SameFrame(tracking, ev);
    var club := ClubOf(frame, ev.tacklerId).value;
    var sel := NearestInFrame(frame, club, ev);
    assert FindClosestPlayersAndBallCarrierIndicator(ev, tracking).value == Features(sel);
    SelectedDistances(Defenders(frame, club, ev.tacklerId), ev.xTackler, ev.yTackler, sel.defenders);
    SelectedDistances(Offensive(frame, club), ev.xTackler, ev.yTackler, sel.offensive);
    FeaturesLayout(sel);
  }

  /** The tackler is never one of the selected defenders. */
  lemma TacklerNeverSelected(frame: seq<Row>, club: string, ev: TackleEvent)
    ensures forall c :: c in NearestInFrame(frame, club, ev).defenders ==> c.nflId != Some(ev.tacklerId)
  {
    var sel := NearestInFrame(frame, club, ev);
    var defenders := Defenders(frame, club, ev.tacklerId);
    forall c | c in sel.defenders
      ensures c.nflId != Some(ev.tacklerId)
    {
      var i :| 0 <= i < |sel.defenders| && sel.defenders[i] == c;
      SelectedFromGroup(defenders, ev.xTackler, ev.yTackler, sel.defenders, i);
    }
  }

  /** A sub-multiset as large as the whole is the whole. */
  lemma SubMultisetOfSameSize(a: multiset<Cand>, b: multiset<Cand>)
    requires a <= b && |a| == |b|
    ensures a == b
  {
    assert |b - a| == |b| - |a|;
    assert b - a == multiset{};
  }

  /** A group of at most three rows is selected whole: the selection holds
      the group's candidates exactly, so every row's id is among the
      selected ids. */
  lemma SmallGroupSelectedWhole(rows: seq<Row>, x0: real, y0: real, r: seq<Cand>, k: int)
    requires |rows| <= NEAREST
    requires IsNSmallest(Candidates(rows, x0, y0), NEAREST, r)
    requires 0 <= k < |rows|
    ensures rows[k].nflId in Ids(r)
    ensures multiset(r) == multiset(Candidates(rows, x0, y0))
  {
    var cands := Candidates(rows, x0, y0);
    SubMultisetOfSameSize(multiset(r), multiset(cands));
    assert cands[k] in multiset(cands);
    assert cands[k] in multiset(r);
    var i :| 0 <= i < |r| && r[i] == cands[k];
    assert Ids(r)[i] == rows[k].nflId;
  }

  /** The indicator is 0 when no offensive row is the ball carrier. */
  lemma IndicatorNeedsBallCarrier(frame: seq<Row>, club: string, ev: TackleEvent)
    requires forall row :: row in Offensive(frame, club) ==> !HasId(row, ev.ballCarrierId)
    ensures NearestInFrame(frame, club, ev).indicator == 0
  {
    var sel := NearestInFrame(frame, club, ev);
    var offensive := Offensive(frame, club);
    if sel.indicator == 1 {
      var i :| 0 <= i < |sel.offensive| && Ids(sel.offensive)[i] == Some(ev.ballCarrierId);
      SelectedFromGroup(offensive, ev.xTackler, ev.yTackler, sel.offensive, i);
    }
  }

  /** With at most three offensive rows every one of them is selected, so
      the indicator is exactly "the ball carrier has an offensive row". */
  lemma IndicatorWithFewOffensive(frame: seq<Row>, club: string, ev: TackleEvent)
    requires |Offensive(frame, club)| <= NEAREST
    ensures NearestInFrame(frame, club, ev).indicator == 1 <==>
              exists row :: row in Offensive(frame, club) && HasId(row, ev.ballCarrierId)
  {
    var sel := NearestInFrame(frame, club, ev);
    var offensive := Offensive(frame, club);
    if exists row :: row in offensive && HasId(row, ev.ballCarrierId) {
      var row :| row in offensive && HasId(row, ev.ballCarrierId);
      var k :| 0 <= k < |offensive| && offensive[k] == row;
      SmallGroupSelectedWhole(offensive, ev.xTackler, ev.yTackler, sel.offensive, k);
    } else {
      IndicatorNeedsBallCarrier(frame, club, ev);
    }
  }

  function TacklerRows(frame: seq<Row>, club: string, tacklerId: int): seq<Row>
  {
    Filter(frame, (r: Row) => IsTacklerRow(r, club, tacklerId))
  }

  /** Defenders, offensive rows and the tackler's own rows partition the
      frame: every row is in exactly one of the three. */
  lemma FramePartition(frame: seq<Row>, club: string, tacklerId: int)
    ensures |Defenders(frame, club, tacklerId)| + |Offensive(frame, club)| + |TacklerRows(frame, club, tacklerId)| == |frame|
  {
    FilterPartition(frame, (r: Row) => IsDefender(r, club, tacklerId), (r: Row) => IsOffensive(r, club),
                    (r: Row) => IsTacklerRow(r, club, tacklerId));
  }

  function ExampleCandidates(): seq<Cand>
  {
    [Cand(Some(1), 1.2), Cand(Some(2), 3.4), Cand(Some(3), 0.8), Cand(Some(4), 5.0)]
  }

  lemma ExampleFirstPick()
    ensures MinIndex(ExampleCandidates()) == 2
    ensures RemoveAt(ExampleCandidates(), 2) == [ExampleCandidates()[0], ExampleCandidates()[1], ExampleCandidates()[3]]
  {
    var s := ExampleCandidates();
    assert s[1..][1..][1..] == [s[3]];
    assert MinIndex(s[1..][1..][1..]) == 0;
    assert MinIndex(s[1..][1..]) == 0;
    assert MinIndex(s[1..]) == 1;
  }

  lemma ExampleLaterPicks()
    ensures
      var s := ExampleCandidates();
      NSmallest([s[0], s[1], s[3]], 2) == [s[0], s[1]]
  {
    var s := ExampleCandidates();
    var t := [s[0], s[1], s[3]];
    assert t[1..] == [s[1], s[3]] && t[1..][1..] == [s[3]];
    assert MinIndex(t[1..][1..]) == 0;
    assert MinIndex(t[1..]) == 0;
    assert MinIndex(t) == 0;
    assert RemoveAt(t, 0) == [s[1], s[3]];
    var u := [s[1], s[3]];
    assert MinIndex(u) == 0;
    assert RemoveAt(u, 0) == [s[3]];
    assert NSmallest([s[3]], 0) == [];
    assert NSmallest(u, 1) == [s[1]];
  }

  /** Defenders at distances 1.2, 3.4, 0.8 and 5.0 give 0.8, 1.2, 3.4. */
  lemma NearestThreeExample()
    ensures var d := Dists(NSmallest(ExampleCandidates(), 3));
            |d| == 3 && d[0] == 0.8 && d[1] == 1.2 && d[2] == 3.4
  {
    var s := ExampleCandidates();
    ExamplePicked();
    var picked := [s[2], s[0], s[1]];
    assert Dists(picked)[0] == s[2].dist;
  }

  lemma ExamplePicked()
    ensures var s := ExampleCandidates(); NSmallest(s, 3) == [s[2], s[0], s[1]]
  {
    var s := ExampleCandidates();
    ExampleFirstPick();
    ExampleLaterPicks();
    var t := [s[0], s[1], s[3]];
    assert NSmallest(s, 3) == [s[2]] + NSmallest(t, 2);
  }
}
