/** The browser's sparklines: a minute of rate points for every port in the table. */
module Sparkline {

  datatype Point = Point(t: real, kbIn: real, kbOut: real)

  /** What the sparklines use of a row. */
  datatype Row = Row(port: nat, kbIn: real, kbOut: real)

  /** A table as it arrives. */
  datatype Arrival = Arrival(rows: seq<Row>, now: real)

  const WINDOW := 60.0

  type Lines = map<nat, seq<Point>>

  function Line(lines: Lines, port: nat): seq<Point> {
    if port in lines then lines[port] else []
  }

  function Ports(rows: seq<Row>): set<nat> {
    set r | r in rows :: r.port
  }

  /** A port's new points: one for each of its rows. */
  function PointsOf(rows: seq<Row>, port: nat, now: real): seq<Point> {
    if rows == [] then []
    else
      var r := rows[|rows| - 1];
      PointsOf(rows[..|rows| - 1], port, now) + if r.port == port then [Point(now, r.kbIn, r.kbOut)] else []
  }

  /** What is left from the first point on that is not before the cutoff. */
  function DropOld(points: seq<Point>, cutoff: real): seq<Point> {
    if points == [] || points[0].t >= cutoff then points else DropOld(points[1..], cutoff)
  }

  /** The sparklines after a table: its ports, each with its earlier points and the
      new ones, without the old ones in front. */
  function After(lines: Lines, a: Arrival): Lines {
    map p | p in Ports(a.rows) :: DropOld(Line(lines, p) + PointsOf(a.rows, p, a.now), a.now - WINDOW)
  }

  function AfterAll(run: seq<Arrival>): Lines {
    if run == [] then map[] else After(AfterAll(run[..|run| - 1]), run[|run| - 1])
  }

  lemma {:induction false} DropOldAt(points: seq<Point>, cutoff: real, i: nat)
    requires i <= |points| && (i < |points| ==> points[i].t >= cutoff)
    requires forall j | 0 <= j < i :: points[j].t < cutoff
    ensures DropOld(points, cutoff) == points[i..]
  {
    if i == 0 {
    } else {
      DropOldAt(points[1..], cutoff, i - 1);
      assert points[1..][i - 1..] == points[i..];
    }
  }

  lemma {:induction false} DropOldKeeps(points: seq<Point>, p: Point, cutoff: real)
    requires p.t >= cutoff
    ensures DropOld(points + [p], cutoff) != []
  {
    if points == [] {
    } else {
      DropOldKeeps(points[1..], p, cutoff);
      assert (points + [p])[1..] == points[1..] + [p];
    }
  }

  /** Dropping before a point that is kept anyway makes no difference. */
  lemma {:induction false} DropOldTwice(points: seq<Point>, p: Point, cutoff: real)
    requires p.t >= cutoff
    ensures DropOld(DropOld(points, cutoff) + [p], cutoff) == DropOld(points + [p], cutoff)
  {
    if points == [] || points[0].t >= cutoff {
    } else {
      DropOldTwice(points[1..], p, cutoff);
      assert (points + [p])[1..] == points[1..] + [p];
    }
  }

  class Sparklines {
    var lines: Lines

    constructor ()
      ensures lines == AfterAll([])
    {
      lines := map[];
    }

    /** `findIndex` and `splice`: removes the points in front of the first that is
        not before the cutoff, and nothing if there is none. */
    static method Evict(points: seq<Point>, cutoff: real) returns (kept: seq<Point>)
      ensures kept == if DropOld(points, cutoff) == [] then points else DropOld(points, cutoff)
      ensures (forall p | p in points :: p.t < cutoff) ==> kept == points
      ensures forall k | 0 <= k < |points| && points[k].t >= cutoff && (forall j | 0 <= j < k :: points[j].t < cutoff) :: kept == points[k..]
    {
      var firstValid := 0;
      while firstValid < |points| && points[firstValid].t < cutoff
        invariant firstValid <= |points| && forall j | 0 <= j < firstValid :: points[j].t < cutoff
      {
        firstValid := firstValid + 1;
      }
      DropOldAt(points, cutoff, firstValid);
      kept := if firstValid < |points| then points[firstValid..] else points;
    }

    /** Adds a row's point. */
    method Push(row: Row, now: real)
      modifies this
      ensures lines == AfterRow(old(lines), row, now)
    {
      hide DropOld;
      var points := if row.port in lines then lines[row.port] else [];
      DropOldKeeps(points, Point(now, row.kbIn, row.kbOut), now - WINDOW);
      points := points + [Point(now, row.kbIn, row.kbOut)];
      var kept := Evict(points, now - WINDOW);
      lines := lines[row.port := kept];
    }

    /** Adds the points of a table. */
    method PushAll(rows: seq<Row>, now: real)
      modifies this
      ensures HasPushed(old(lines), rows, now, lines)
    {
      hide AfterRow, HasPushed;
      var i := 0;
      NothingPushed(lines, now);
      while i < |rows|
        invariant i <= |rows| && HasPushed(old(lines), rows[..i], now, lines)
      {
        PushMore(old(lines), rows, i, now, lines);
        Push(rows[i], now);
        i := i + 1;
      }
      assert rows[..i] == rows;
    }

    /** Forgets the ports that are not active. */
    method Forget(activePorts: set<nat>)
      modifies this
      ensures lines == map p | p in old(lines) && p in activePorts :: old(lines)[p]
    {
      var todo := lines.Keys;
      while todo != {}
        invariant todo <= lines.Keys <= old(lines).Keys
        invariant forall p | p in old(lines) :: p in lines <==> p in activePorts || p in todo
        invariant forall p | p in lines :: lines[p] == old(lines)[p]
        decreases todo
      {
        var port :| port in todo;
        if port !in activePorts {
          lines := lines - {port};
        }
        todo := todo - {port};
      }
    }

    /** Adds the points of a table and forgets the ports that are not in it. */
    method ProcessPortTable(a: Arrival)
      modifies this
      ensures lines == After(old(lines), a)
    {
      hide DropOld, PointsOf, Line;
      PushAll(a.rows, a.now);
      Forget(Ports(a.rows));
    }
  }

  function AfterRow(lines: Lines, row: Row, now: real): Lines {
    lines[row.port := DropOld(Line(lines, row.port) + [Point(now, row.kbIn, row.kbOut)], now - WINDOW)]
  }

  /** A port's line after some of a table's rows. */
  function Pushed(lines: Lines, rows: seq<Row>, p: nat, now: real): seq<Point> {
    if p in Ports(rows) then DropOld(Line(lines, p) + PointsOf(rows, p, now), now - WINDOW) else Line(lines, p)
  }

  ghost predicate HasPushed(before: Lines, rows: seq<Row>, now: real, lines: Lines) {
    lines.Keys == before.Keys + Ports(rows) && forall p | p in lines :: lines[p] == Pushed(before, rows, p, now)
  }

  lemma NothingPushed(lines: Lines, now: real)
    ensures HasPushed(lines, [], now, lines)
  {}

  lemma PortsMore(rows: seq<Row>, i: nat)
    requires i < |rows|
    ensures Ports(rows[..i + 1]) == Ports(rows[..i]) + {rows[i].port}
  {
    assert rows[..i + 1] == rows[..i] + [rows[i]];
    forall p | p in Ports(rows[..i]) + {rows[i].port}
      ensures p in Ports(rows[..i + 1])
    {
      if p == rows[i].port {
        assert rows[i] in rows[..i + 1];
      } else {
        var r :| r in rows[..i] && r.port == p;
        assert r in rows[..i + 1];
      }
    }
  }

  lemma {:induction false} NoPoints(rows: seq<Row>, p: nat, now: real)
    ensures p !in Ports(rows) <==> PointsOf(rows, p, now) == []
  {
    if rows == [] {
    } else {
      NoPoints(rows[..|rows| - 1], p, now);
      PortsMore(rows, |rows| - 1);
      assert rows[..|rows|] == rows;
    }
  }

  lemma PushedMore(lines: Lines, rows: seq<Row>, i: nat, p: nat, now: real)
    requires i < |rows|
    ensures var point := Point(now, rows[i].kbIn, rows[i].kbOut);
            var before := Pushed(lines, rows[..i], p, now);
            Pushed(lines, rows[..i + 1], p, now) ==
            if p == rows[i].port then DropOld(before + [point], now - WINDOW) else before
  {
    hide DropOld;
    PortsMore(rows, i);
    assert rows[..i + 1][..i] == rows[..i];
    var old', points, point := Line(lines, p), PointsOf(rows[..i], p, now), Point(now, rows[i].kbIn, rows[i].kbOut);
    NoPoints(rows[..i], p, now);
    if p == rows[i].port {
      assert old' + (points + [point]) == old' + points + [point];
      if p in Ports(rows[..i]) {
        DropOldTwice(old' + points, point, now - WINDOW);
      } else {
        assert points + [point] == [point];
      }
    } else {
      assert points + [] == points;
    }
  }

  lemma PushMore(before: Lines, rows: seq<Row>, i: nat, now: real, lines: Lines)
    requires i < |rows| && HasPushed(before, rows[..i], now, lines)
    ensures HasPushed(before, rows[..i + 1], now, AfterRow(lines, rows[i], now))
  {
    hide DropOld, PointsOf, Ports, Pushed;
    PortsMore(rows, i);
    var port := rows[i].port;
    if port !in lines {
      PushedNone(before, rows[..i], port, now);
    }
    forall p
      ensures Pushed(before, rows[..i + 1], p, now) ==
              if p == port then DropOld(Pushed(before, rows[..i], p, now) + [Point(now, rows[i].kbIn, rows[i].kbOut)], now - WINDOW)
              else Pushed(before, rows[..i], p, now)
    {
      PushedMore(before, rows, i, p, now);
    }
  }

  lemma PushedNone(lines: Lines, rows: seq<Row>, p: nat, now: real)
    requires p !in lines && p !in Ports(rows)
    ensures Pushed(lines, rows, p, now) == []
  {}

  // ---- what the lines hold over a run

  /** All points pushed for a port during its current uninterrupted presence. */
  function Presence(run: seq<Arrival>, port: nat): seq<Point> {
    if run == [] || port !in Ports(run[|run| - 1].rows) then []
    else Presence(run[..|run| - 1], port) + PointsOf(run[|run| - 1].rows, port, run[|run| - 1].now)
  }

  /** The points not before the cutoff. */
  function Recent(points: seq<Point>, cutoff: real): seq<Point> {
    if points == [] then [] else (if points[0].t >= cutoff then [points[0]] else []) + Recent(points[1..], cutoff)
  }

  predicate InTimeOrder(points: seq<Point>) {
    forall i, j | 0 <= i < j < |points| :: points[i].t <= points[j].t
  }

  predicate ClockIsMonotone(run: seq<Arrival>) {
    forall i, j | 0 <= i < j < |run| :: run[i].now <= run[j].now
  }

  lemma {:induction false} RecentConcat(a: seq<Point>, b: seq<Point>, cutoff: real)
    ensures Recent(a + b, cutoff) == Recent(a, cutoff) + Recent(b, cutoff)
  {
    if a == [] {
      assert a + b == b;
    } else {
      RecentConcat(a[1..], b, cutoff);
      assert (a + b)[0] == a[0] && (a + b)[1..] == a[1..] + b;
      var head: seq<Point> := if a[0].t >= cutoff then [a[0]] else [];
      var x, y := Recent(a[1..], cutoff), Recent(b, cutoff);
      assert head + (x + y) == head + x + y;
    }
  }

  lemma {:induction false} RecentTwice(points: seq<Point>, early: real, late: real)
    requires early <= late
    ensures Recent(Recent(points, early), late) == Recent(points, late)
  {
    if points == [] {
    } else {
      RecentTwice(points[1..], early, late);
      var rest := Recent(points[1..], early);
      assert ([points[0]] + rest)[1..] == rest && [] + rest == rest;
    }
  }

  lemma {:induction false} AllRecent(points: seq<Point>, cutoff: real)
    requires forall p | p in points :: p.t >= cutoff
    ensures Recent(points, cutoff) == points
  {
    if points == [] {
    } else {
      AllRecent(points[1..], cutoff);
      assert points[0] in points;
    }
  }

  /** Filtering goes point by point and keeps those not before the cutoff. */
  lemma RecentMeans(a: seq<Point>, p: Point, cutoff: real)
    ensures Recent(a + [p], cutoff) == Recent(a, cutoff) + if p.t < cutoff then [] else [p]
  {
    RecentConcat(a, [p], cutoff);
    assert [p][1..] == [];
  }

  /** A table adds one point for each of the port's rows, with the row's own rates. */
  lemma PointsMean(rows: seq<Row>, row: Row, port: nat, now: real)
    ensures PointsOf(rows + [row], port, now) ==
            PointsOf(rows, port, now) + if row.port == port then [Point(now, row.kbIn, row.kbOut)] else []
    ensures PointsOf([], port, now) == []
  {
    assert (rows + [row])[..|rows|] == rows;
  }

  /** In a list in time order the old points are exactly those in front. */
  lemma {:induction false} DropOldIsRecent(points: seq<Point>, cutoff: real)
    requires InTimeOrder(points)
    ensures DropOld(points, cutoff) == Recent(points, cutoff)
  {
    if points == [] {
    } else {
      if points[0].t >= cutoff {
        forall p | p in points
          ensures p.t >= cutoff
        {}
        AllRecent(points, cutoff);
      } else {
        DropOldIsRecent(points[1..], cutoff);
        assert [] + Recent(points[1..], cutoff) == Recent(points[1..], cutoff);
      }
    }
  }

  lemma {:induction false} RecentInOrder(points: seq<Point>, cutoff: real)
    requires InTimeOrder(points)
    ensures InTimeOrder(Recent(points, cutoff))
    ensures forall p | p in Recent(points, cutoff) :: p in points
  {
    hide InTimeOrder;
    if points == [] {
      NoneInOrder();
    } else {
      var rest := Recent(points[1..], cutoff);
      FirstIsEarliest(points);
      RecentInOrder(points[1..], cutoff);
      assert points == [points[0]] + points[1..] && [] + rest == rest;
      Prepended(points[0], rest);
    }
  }

  lemma {:induction false} RecentMembers(points: seq<Point>, cutoff: real)
    ensures forall p :: p in Recent(points, cutoff) <==> p in points && p.t >= cutoff
  {
    if points == [] {
    } else {
      RecentMembers(points[1..], cutoff);
      assert points == [points[0]] + points[1..];
    }
  }

  lemma NoneInOrder()
    ensures InTimeOrder([])
  {}

  lemma FirstIsEarliest(points: seq<Point>)
    requires points != [] && InTimeOrder(points)
    ensures InTimeOrder(points[1..]) && forall p | p in points[1..] :: points[0].t <= p.t
  {
    forall p | p in points[1..]
      ensures points[0].t <= p.t
    {
      var i :| 1 <= i < |points| && points[i] == p;
    }
  }

  lemma Prepended(first: Point, rest: seq<Point>)
    requires InTimeOrder(rest) && forall p | p in rest :: first.t <= p.t
    ensures InTimeOrder([first] + rest)
  {
    var all := [first] + rest;
    forall i, j | 0 <= i < j < |all|
      ensures all[i].t <= all[j].t
    {
      assert all[j] == rest[j - 1];
      if i == 0 {
        assert rest[j - 1] in rest;
      } else {
        assert all[i] == rest[i - 1];
      }
    }
  }

  lemma {:induction false} PointsAreNow(rows: seq<Row>, port: nat, now: real)
    ensures forall p | p in PointsOf(rows, port, now) :: p.t == now
  {
    if rows == [] {
    } else {
      PointsAreNow(rows[..|rows| - 1], port, now);
    }
  }

  lemma {:induction false} PresenceInOrder(run: seq<Arrival>, port: nat)
    requires ClockIsMonotone(run)
    ensures InTimeOrder(Presence(run, port))
    ensures run != [] ==> forall p | p in Presence(run, port) :: p.t <= run[|run| - 1].now
  {
    hide Ports;
    if run == [] || port !in Ports(run[|run| - 1].rows) {
    } else {
      var front, last := run[..|run| - 1], run[|run| - 1];
      PresenceInOrder(front, port);
      PointsAreNow(last.rows, port, last.now);
      var a, b := Presence(front, port), PointsOf(last.rows, port, last.now);
      forall p | p in a
        ensures p.t <= last.now
      {
        assert front != [] && front[|front| - 1].now <= last.now;
      }
      Appended(a, b, last.now);
    }
  }

  lemma Appended(a: seq<Point>, b: seq<Point>, now: real)
    requires InTimeOrder(a)
    requires (forall p | p in a :: p.t <= now) && (forall p | p in b :: p.t == now)
    ensures InTimeOrder(a + b)
  {
    var c := a + b;
    forall i, j | 0 <= i < j < |c|
      ensures c[i].t <= c[j].t
    {
      assert c[j] in if j < |a| then a else b;
      assert c[i] in if i < |a| then a else b;
    }
  }

  /** With a clock that does not go back, after every table of a run a port's line
      is exactly the points of its current uninterrupted presence that are at most
      a minute old, in time order; and the lines are those of the table's ports. */
  lemma {:induction false} LinesAreWindows(run: seq<Arrival>, port: nat)
    requires run != [] && ClockIsMonotone(run)
    ensures AfterAll(run).Keys == Ports(run[|run| - 1].rows)
    ensures Line(AfterAll(run), port) == Recent(Presence(run, port), run[|run| - 1].now - WINDOW)
    ensures InTimeOrder(Line(AfterAll(run), port))
    ensures forall p :: p in Line(AfterAll(run), port) <==> p in Presence(run, port) && p.t >= run[|run| - 1].now - 60.0
  {
    hide DropOld, Recent, PointsOf, InTimeOrder, ClockIsMonotone, Ports;
    var front, last := run[..|run| - 1], run[|run| - 1];
    PresenceInOrder(run, port);
    RecentInOrder(Presence(run, port), last.now - WINDOW);
    RecentMembers(Presence(run, port), last.now - WINDOW);
    if port in Ports(last.rows) {
      var points, before := PointsOf(last.rows, port, last.now), Presence(front, port);
      if front == [] {
        assert [] + points == points;
        DropOldIsRecent(points, last.now - WINDOW);
      } else {
        ClockOfFront(run);
        LinesAreWindows(front, port);
        PointsAreNow(last.rows, port, last.now);
        WindowNext(before, points, front[|front| - 1].now - WINDOW, last.now);
      }
    } else {
      RecentOfNone(last.now - WINDOW);
    }
  }

  lemma RecentOfNone(cutoff: real)
    ensures Recent([], cutoff) == []
  {}

  lemma ClockOfFront(run: seq<Arrival>)
    requires |run| > 1 && ClockIsMonotone(run)
    ensures ClockIsMonotone(run[..|run| - 1]) && run[|run| - 2].now <= run[|run| - 1].now
  {}

  /** Adding points to a window and dropping the old ones gives the next window. */
  lemma WindowNext(before: seq<Point>, points: seq<Point>, early: real, now: real)
    requires InTimeOrder(before + points) && early <= now - WINDOW
    requires forall p | p in points :: p.t == now
    ensures DropOld(Recent(before, early) + points, now - WINDOW) == Recent(before + points, now - WINDOW)
  {
    hide DropOld, Recent, InTimeOrder;
    AllRecent(points, early);
    RecentConcat(before, points, early);
    RecentInOrder(before + points, early);
    DropOldIsRecent(Recent(before + points, early), now - WINDOW);
    RecentTwice(before + points, early, now - WINDOW);
  }
}
