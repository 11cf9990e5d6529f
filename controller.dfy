/** User input of src/controller.ts: touch and mouse events become velocity
    pushed into the wave solver. An event is given as the list of its
    touches (identifier and screen position) or as the screen position of
    the pointer; the conversion from page to screen coordinates and the
    registration of the handlers with the window are not part of this
    model. Where force goes is described by pure functions over cells
    (Inject, TapCells, StrokeCells, DragCells); the handlers are proved to
    push exactly that. */
module Input {
  import opened Util
  import opened Raster
  import opened Wave
  import opened TouchPositions

  /** One entry of event.touches, already in screen coordinates. */
  datatype TouchPoint = TouchPoint(identifier: int, pos: Vec2)

  /** The push of a new touch or a click. */
  const TapForce: real := 250000.0
  /** The push per cell along a drag. */
  const DragForce: real := 10000.0

  /** The cell a force at c lands on: c clamped into the grid. */
  function ClampCell(rows: nat, cols: nat, c: Cell): (r: Cell)
    requires rows >= 1 && cols >= 1
    ensures 0 <= r.x < rows && 0 <= r.y < cols
    ensures (0 <= c.x < rows && 0 <= c.y < cols) ==> r == c
  {
    Cell(Clamp(c.x, 0, rows - 1), Clamp(c.y, 0, cols - 1))
  }

  /** The velocity grid after adding amount at each of the cells in turn,
      each clamped into the grid. */
  function Inject(g: Grid, rows: nat, cols: nat, cells: seq<Cell>, amount: real): (r: Grid)
    requires rows >= 1 && cols >= 1 && Shaped(g, rows, cols)
    ensures Shaped(r, rows, cols)
    decreases |cells|
  {
    if cells == [] then g
    else
      var c := ClampCell(rows, cols, cells[|cells| - 1]);
      AddAt(Inject(g, rows, cols, cells[..|cells| - 1], amount), c.x, c.y, amount)
  }

  /** How many of the cells land on (i, j). */
  function Hits(rows: nat, cols: nat, cells: seq<Cell>, i: int, j: int): nat
    requires rows >= 1 && cols >= 1
    decreases |cells|
  {
    if cells == [] then 0
    else
      Hits(rows, cols, cells[..|cells| - 1], i, j)
        + (if ClampCell(rows, cols, cells[|cells| - 1]) == Cell(i, j) then 1 else 0)
  }

  /** The total force the cells push into (i, j). */
  function Pushed(rows: nat, cols: nat, cells: seq<Cell>, amount: real, i: int, j: int): real
    requires rows >= 1 && cols >= 1
    decreases |cells|
  {
    if cells == [] then 0.0
    else
      Pushed(rows, cols, cells[..|cells| - 1], amount, i, j)
        + (if ClampCell(rows, cols, cells[|cells| - 1]) == Cell(i, j) then amount else 0.0)
  }

  /** Each cell of the grid gains amount once per pushed cell landing on it,
      whatever the order of the pushes. */
  lemma InjectAdds(g: Grid, rows: nat, cols: nat, cells: seq<Cell>, amount: real, i: int, j: int)
    requires rows >= 1 && cols >= 1 && Shaped(g, rows, cols)
    requires 0 <= i < rows && 0 <= j < cols
    ensures Inject(g, rows, cols, cells, amount)[i][j] == g[i][j] + Hits(rows, cols, cells, i, j) as real * amount
  {
    InjectPushes(g, rows, cols, cells, amount, i, j);
    PushedCounts(rows, cols, cells, amount, i, j);
  }

  lemma {:induction false} InjectPushes(g: Grid, rows: nat, cols: nat, cells: seq<Cell>, amount: real, i: int, j: int)
    requires rows >= 1 && cols >= 1 && Shaped(g, rows, cols)
    requires 0 <= i < rows && 0 <= j < cols
    ensures Inject(g, rows, cols, cells, amount)[i][j] == g[i][j] + Pushed(rows, cols, cells, amount, i, j)
    decreases |cells|
  {
    if cells != [] {
      InjectPushes(g, rows, cols, cells[..|cells| - 1], amount, i, j);
      InjectLast(g, rows, cols, cells, amount, i, j);
    }
  }

  lemma {:induction false} PushedCounts(rows: nat, cols: nat, cells: seq<Cell>, amount: real, i: int, j: int)
    requires rows >= 1 && cols >= 1
    ensures Pushed(rows, cols, cells, amount, i, j) == Hits(rows, cols, cells, i, j) as real * amount
    decreases |cells|
  {
    if cells != [] {
      var pre := cells[..|cells| - 1];
      PushedCounts(rows, cols, pre, amount, i, j);
      var h := Hits(rows, cols, pre, i, j);
      var before := Pushed(rows, cols, pre, amount, i, j);
      if ClampCell(rows, cols, cells[|cells| - 1]) == Cell(i, j) {
        assert Hits(rows, cols, cells, i, j) == h + 1;
        assert Pushed(rows, cols, cells, amount, i, j) == before + amount;
        OneMore(h, amount);
      } else {
        assert Hits(rows, cols, cells, i, j) == h;
        assert Pushed(rows, cols, cells, amount, i, j) == before;
      }
    }
  }

  lemma OneMore(h: int, amount: real)
    ensures (h + 1) as real * amount == h as real * amount + amount
  {
  }

  /** The last pushed cell adds amount to the cell it lands on and nothing
      elsewhere. */
  lemma InjectLast(g: Grid, rows: nat, cols: nat, cells: seq<Cell>, amount: real, i: int, j: int)
    requires rows >= 1 && cols >= 1 && Shaped(g, rows, cols)
    requires 0 <= i < rows && 0 <= j < cols && cells != []
    ensures var before := Inject(g, rows, cols, cells[..|cells| - 1], amount);
      Inject(g, rows, cols, cells, amount)[i][j]
        == before[i][j] + if ClampCell(rows, cols, cells[|cells| - 1]) == Cell(i, j) then amount else 0.0
  {
  }

  /** The set of identifiers of an event's touches. */
  function EventIds(event: seq<TouchPoint>): (ids: set<int>)
    ensures forall k :: 0 <= k < |event| ==> event[k].identifier in ids
  {
    set t | t in event :: t.identifier
  }

  /** The cells a touchstart pushes: one for each touch whose identifier is
      not yet known, at the cell under it, in event order. */
  function TapCells(rows: nat, cols: nat, known: set<int>, event: seq<TouchPoint>): (cells: seq<Cell>)
    ensures |cells| <= |event|
    ensures known == {} ==> |cells| == |event|
    decreases |event|
  {
    if event == [] then []
    else
      var t := event[|event| - 1];
      TapCells(rows, cols, known, event[..|event| - 1])
        + (if t.identifier in known then [] else [WorldToCellCoords(rows, cols, t.pos)])
  }

  /** Every touch with an unknown identifier pushes at its cell, and every
      push comes from such a touch; touches already known push nothing. */
  lemma {:induction false} TapCellsExact(rows: nat, cols: nat, known: set<int>, event: seq<TouchPoint>)
    ensures forall k :: 0 <= k < |event| && event[k].identifier !in known ==>
      WorldToCellCoords(rows, cols, event[k].pos) in TapCells(rows, cols, known, event)
    ensures forall c :: c in TapCells(rows, cols, known, event) ==>
      exists k :: 0 <= k < |event| && event[k].identifier !in known && c == WorldToCellCoords(rows, cols, event[k].pos)
    ensures |TapCells(rows, cols, known, event)| <= |event|
    decreases |event|
  {
    if event != [] {
      var n := |event| - 1;
      var pre := event[..n];
      TapCellsExact(rows, cols, known, pre);
      var cells := TapCells(rows, cols, known, event);
      assert forall k :: 0 <= k < n ==> event[k] == pre[k];
      forall c | c in cells
        ensures exists k :: 0 <= k < |event| && event[k].identifier !in known && c == WorldToCellCoords(rows, cols, event[k].pos)
      {
        if c in TapCells(rows, cols, known, pre) {
          var k :| 0 <= k < n && pre[k].identifier !in known && c == WorldToCellCoords(rows, cols, pre[k].pos);
          assert event[k] == pre[k];
        } else {
          assert event[n].identifier !in known && c == WorldToCellCoords(rows, cols, event[n].pos);
        }
      }
    }
  }

  /** A touchstart in which every identifier is already known pushes
      nothing. */
  lemma {:induction false} TapCellsAllKnown(rows: nat, cols: nat, known: set<int>, event: seq<TouchPoint>)
    requires EventIds(event) <= known
    ensures TapCells(rows, cols, known, event) == []
    decreases |event|
  {
    if event != [] {
      var n := |event| - 1;
      assert EventIds(event[..n]) <= EventIds(event) by {
        forall x | x in EventIds(event[..n]) ensures x in EventIds(event) {
          var t :| t in event[..n] && t.identifier == x;
          assert t in event;
        }
      }
      TapCellsAllKnown(rows, cols, known, event[..n]);
    }
  }

  /** The cells a drag pushes for one pointer: the Bresenham walk from the
      cell of its previous position towards the cell of its current one. */
  function StrokeCells(rows: nat, cols: nat, t: Track): (cells: seq<Cell>)
    ensures var a, b := WorldToCellCoords(rows, cols, t.prev), WorldToCellCoords(rows, cols, t.pos);
      && |cells| == Max(Abs(b.x - a.x), Abs(b.y - a.y))
      && (cells != [] ==> cells[0] == a)
  {
    var a := WorldToCellCoords(rows, cols, t.prev);
    var b := WorldToCellCoords(rows, cols, t.pos);
    Line(Segment(a.x, a.y, b.x, b.y))
  }

  /** A touchstart pushes exactly once per touch whose identifier is not
      yet known. */
  lemma {:induction false} TapCellsCount(rows: nat, cols: nat, known: set<int>, event: seq<TouchPoint>)
    ensures |TapCells(rows, cols, known, event)| == |set k | 0 <= k < |event| && event[k].identifier !in known|
    decreases |event|
  {
    if event != [] {
      var n := |event| - 1;
      var pre := event[..n];
      TapCellsCount(rows, cols, known, pre);
      var before := set k | 0 <= k < |pre| && pre[k].identifier !in known;
      var after := set k | 0 <= k < |event| && event[k].identifier !in known;
      assert before == set k | 0 <= k < n && event[k].identifier !in known;
      if event[n].identifier in known {
        assert after == before;
      } else {
        assert after == before + {n};
        assert n !in before;
      }
    }
  }

  /** A stroke stays inside the grid, so clamping its cells changes
      nothing. */
  lemma StrokeInGrid(rows: nat, cols: nat, t: Track)
    requires rows >= 1 && cols >= 1
    ensures forall k :: 0 <= k < |StrokeCells(rows, cols, t)| ==>
      ClampCell(rows, cols, StrokeCells(rows, cols, t)[k]) == StrokeCells(rows, cols, t)[k]
  {
    var a := WorldToCellCoords(rows, cols, t.prev);
    var b := WorldToCellCoords(rows, cols, t.pos);
    LineInBox(Segment(a.x, a.y, b.x, b.y));
  }

  /** A pointer that stayed in its cell pushes nothing; one that moved
      pushes first at the cell it came from and never at the cell it is
      now in. */
  lemma StrokeEnds(rows: nat, cols: nat, t: Track)
    ensures var a, b := WorldToCellCoords(rows, cols, t.prev), WorldToCellCoords(rows, cols, t.pos);
      && (StrokeCells(rows, cols, t) == [] <==> a == b)
      && (a != b ==> StrokeCells(rows, cols, t)[0] == a)
      && b !in StrokeCells(rows, cols, t)
  {
    var a := WorldToCellCoords(rows, cols, t.prev);
    var b := WorldToCellCoords(rows, cols, t.pos);
    var seg := Segment(a.x, a.y, b.x, b.y);
    LineLength(seg);
    LineExcludesEnd(seg);
    if a != b {
      LineStartsAtStart(seg);
    }
  }

  /** The cells a touchmove pushes: the strokes of the tracked touches, in
      the order given. */
  function DragCells(rows: nat, cols: nat, tracks: map<int, Track>, ids: seq<int>): (cells: seq<Cell>)
    requires forall k :: 0 <= k < |ids| ==> ids[k] in tracks
    ensures forall p, c :: 0 <= p < |ids| && c in StrokeCells(rows, cols, tracks[ids[p]]) ==> c in cells
    decreases |ids|
  {
    if ids == [] then []
    else
      var pre := ids[..|ids| - 1];
      assert forall p :: 0 <= p < |pre| ==> pre[p] == ids[p];
      DragCells(rows, cols, tracks, pre) + StrokeCells(rows, cols, tracks[ids[|ids| - 1]])
  }

  /** One touch of a touchmove: a known touch moves to its new position, an
      unknown one starts being tracked there. */
  function MoveTouch(tracks: map<int, Track>, t: TouchPoint): (r: map<int, Track>)
    ensures t.identifier in r && r[t.identifier].pos == t.pos
    ensures r[t.identifier].prev == if t.identifier in tracks then tracks[t.identifier].pos else t.pos
  {
    tracks[t.identifier := if t.identifier in tracks then Shift(tracks[t.identifier], t.pos) else Start(t.pos)]
  }

  /** The tracked touches after the first loop of a touchmove. */
  function MoveTouches(tracks: map<int, Track>, event: seq<TouchPoint>): (r: map<int, Track>)
    ensures tracks.Keys <= r.Keys
    ensures forall k :: 0 <= k < |event| ==> event[k].identifier in r
    decreases |event|
  {
    if event == [] then tracks
    else MoveTouch(MoveTouches(tracks, event[..|event| - 1]), event[|event| - 1])
  }

  /** After a touchmove every touch of the event is tracked and no tracked
      touch is forgotten. */
  lemma {:induction false} MoveTouchesKeys(tracks: map<int, Track>, event: seq<TouchPoint>)
    ensures MoveTouches(tracks, event).Keys == tracks.Keys + EventIds(event)
    decreases |event|
  {
    if event != [] {
      var n := |event| - 1;
      MoveTouchesKeys(tracks, event[..n]);
      assert EventIds(event) == EventIds(event[..n]) + {event[n].identifier} by {
        assert event == event[..n] + [event[n]];
      }
    }
  }

  /** A tracked touch that is not in the event keeps its positions. */
  lemma {:induction false} MoveTouchesKeeps(tracks: map<int, Track>, event: seq<TouchPoint>, id: int)
    requires id in tracks && id !in EventIds(event)
    ensures id in MoveTouches(tracks, event) && MoveTouches(tracks, event)[id] == tracks[id]
    decreases |event|
  {
    if event != [] {
      var n := |event| - 1;
      assert EventIds(event[..n]) <= EventIds(event) by {
        forall x | x in EventIds(event[..n]) ensures x in EventIds(event) {
          var t :| t in event[..n] && t.identifier == x;
          assert t in event;
        }
      }
      MoveTouchesKeeps(tracks, event[..n], id);
    }
  }

  /** When the event's identifiers are distinct, as a browser gives them,
      each touch of the event has moved once: shifted to its new position if
      it was tracked, started there if it was not. */
  lemma {:induction false} MoveTouchesMovesOnce(tracks: map<int, Track>, event: seq<TouchPoint>, k: int)
    requires forall p, q :: 0 <= p < q < |event| ==> event[p].identifier != event[q].identifier
    requires 0 <= k < |event|
    ensures var id := event[k].identifier;
      && id in MoveTouches(tracks, event)
      && MoveTouches(tracks, event)[id]
        == if id in tracks then Shift(tracks[id], event[k].pos) else Start(event[k].pos)
    decreases |event|
  {
    var n := |event| - 1;
    var pre := event[..n];
    if k < n {
      MoveTouchesMovesOnce(tracks, pre, k);
      assert event[k] == pre[k];
    } else {
      forall t | t in pre
        ensures t.identifier != event[k].identifier
      {
        var p :| 0 <= p < n && pre[p] == t;
        assert event[p] == t;
      }
      if event[k].identifier in tracks {
        MoveTouchesKeeps(tracks, pre, event[k].identifier);
      } else {
        MoveTouchesKeys(tracks, pre);
      }
    }
  }

  /** A touch first seen in a touchmove is tracked at rest, so its stroke in
      that touchmove is empty. */
  lemma FirstMovePushesNothing(rows: nat, cols: nat, tracks: map<int, Track>, t: TouchPoint)
    requires t.identifier !in tracks
    ensures StrokeCells(rows, cols, MoveTouch(tracks, t)[t.identifier]) == []
  {
    StrokeEnds(rows, cols, Start(t.pos));
  }

  /** The keys of a JS Map in insertion order after the first loop of a
      touchmove: identifiers not yet present are appended. */
  function AddNew(order: seq<int>, event: seq<TouchPoint>): (r: seq<int>)
    ensures order <= r
    ensures forall k :: 0 <= k < |event| ==> event[k].identifier in r
    ensures forall k :: |order| <= k < |r| ==> r[k] in EventIds(event) && r[k] !in order
    decreases |event|
  {
    if event == [] then order
    else
      var o := AddNew(order, event[..|event| - 1]);
      var id := event[|event| - 1].identifier;
      if id in o then o else o + [id]
  }

  /** The insertion order without the identifiers in drop, the others in
      their order. */
  function Keep(order: seq<int>, drop: set<int>): (r: seq<int>)
    ensures |r| <= |order|
    decreases |order|
  {
    if order == [] then []
    else Keep(order[..|order| - 1], drop) + (if order[|order| - 1] in drop then [] else [order[|order| - 1]])
  }

  /** No identifier occurs twice. */
  ghost predicate Distinct(s: seq<int>)
  {
    forall p, q :: 0 <= p < q < |s| ==> s[p] != s[q]
  }

  /** Exactly the identifiers of order that are not in drop are kept. */
  lemma {:induction false} KeepMembers(order: seq<int>, drop: set<int>)
    ensures forall x :: x in Keep(order, drop) <==> x in order && x !in drop
    decreases |order|
  {
    if order != [] {
      var n := |order| - 1;
      KeepMembers(order[..n], drop);
      assert order == order[..n] + [order[n]];
    }
  }

  /** Appending an identifier not yet present keeps a sequence distinct. */
  lemma DistinctAppend(s: seq<int>, x: int)
    requires Distinct(s) && x !in s
    ensures Distinct(s + [x])
  {
    var r := s + [x];
    forall p, q | 0 <= p < q < |r|
      ensures r[p] != r[q]
    {
      assert r[p] == s[p];
      if q < |s| {
        assert r[q] == s[q];
      }
    }
  }

  /** Deleting identifiers keeps the others distinct. */
  lemma {:induction false} KeepDistinct(order: seq<int>, drop: set<int>)
    requires Distinct(order)
    ensures Distinct(Keep(order, drop))
    decreases |order|
  {
    if order != [] {
      var n := |order| - 1;
      var pre := order[..n];
      assert Distinct(pre) by {
        assert forall p :: 0 <= p < n ==> pre[p] == order[p];
      }
      KeepDistinct(pre, drop);
      KeepMembers(pre, drop);
      if order[n] !in drop {
        assert order[n] !in pre;
        DistinctAppend(Keep(pre, drop), order[n]);
      }
    }
  }

  /** Deleting nothing keeps the order as it is. */
  lemma {:induction false} KeepNothing(order: seq<int>)
    ensures Keep(order, {}) == order
    decreases |order|
  {
    if order != [] {
      KeepNothing(order[..|order| - 1]);
      assert order == order[..|order| - 1] + [order[|order| - 1]];
    }
  }

  /** Deleting identifiers one set after another is deleting their
      union. */
  lemma {:induction false} KeepTwice(order: seq<int>, a: set<int>, b: set<int>)
    ensures Keep(Keep(order, a), b) == Keep(order, a + b)
    decreases |order|
  {
    if order != [] {
      var n := |order| - 1;
      var x := order[n];
      var k := Keep(order[..n], a);
      KeepTwice(order[..n], a, b);
      if x in a {
        assert Keep(order, a) == k;
      } else {
        assert Keep(order, a) == k + [x];
        assert (k + [x])[..|k|] == k;
        assert Keep(k + [x], b) == Keep(k, b) + (if x in b then [] else [x]);
      }
    }
  }

  /** Pushing one more cell adds the force at its clamped position. */
  lemma InjectSnoc(g: Grid, rows: nat, cols: nat, cells: seq<Cell>, c: Cell, amount: real)
    requires rows >= 1 && cols >= 1 && Shaped(g, rows, cols)
    ensures var d := ClampCell(rows, cols, c);
      Inject(g, rows, cols, cells + [c], amount) == AddAt(Inject(g, rows, cols, cells, amount), d.x, d.y, amount)
  {
    assert (cells + [c])[..|cells|] == cells;
  }

  /** Pushing a + b is pushing a, then b. */
  lemma {:induction false} InjectAppend(g: Grid, rows: nat, cols: nat, a: seq<Cell>, b: seq<Cell>, amount: real)
    requires rows >= 1 && cols >= 1 && Shaped(g, rows, cols)
    ensures Inject(g, rows, cols, a + b, amount) == Inject(Inject(g, rows, cols, a, amount), rows, cols, b, amount)
    decreases |b|
  {
    if b == [] {
      assert a + b == a;
    } else {
      var b' := b[..|b| - 1];
      assert (a + b)[..|a + b| - 1] == a + b';
      assert (a + b)[|a + b| - 1] == b[|b| - 1];
      InjectAppend(g, rows, cols, a, b', amount);
    }
  }

  lemma TapCellsSnoc(rows: nat, cols: nat, known: set<int>, event: seq<TouchPoint>, k: int)
    requires 0 <= k < |event|
    ensures TapCells(rows, cols, known, event[..k + 1])
      == TapCells(rows, cols, known, event[..k])
         + if event[k].identifier in known then [] else [WorldToCellCoords(rows, cols, event[k].pos)]
  {
    assert event[..k + 1][..k] == event[..k];
  }

  lemma DragCellsSnoc(rows: nat, cols: nat, tracks: map<int, Track>, ids: seq<int>, k: int)
    requires 0 <= k < |ids| && forall p :: 0 <= p < |ids| ==> ids[p] in tracks
    ensures DragCells(rows, cols, tracks, ids[..k + 1])
      == DragCells(rows, cols, tracks, ids[..k]) + StrokeCells(rows, cols, tracks[ids[k]])
  {
    assert ids[..k + 1][..k] == ids[..k];
  }

  lemma MoveSnoc(tracks: map<int, Track>, order: seq<int>, event: seq<TouchPoint>, k: int)
    requires 0 <= k < |event|
    ensures MoveTouches(tracks, event[..k + 1]) == MoveTouch(MoveTouches(tracks, event[..k]), event[k])
    ensures var o := AddNew(order, event[..k]);
      AddNew(order, event[..k + 1]) == if event[k].identifier in o then o else o + [event[k].identifier]
  {
    assert event[..k + 1][..k] == event[..k];
  }

  /** One more touch of a touchmove, on values: MoveSnoc with the states
      before and after the touch named. */
  lemma MoveStep(t0: map<int, Track>, o0: seq<int>, event: seq<TouchPoint>, k: int,
                 before: map<int, Track>, after: map<int, Track>, orderBefore: seq<int>, orderAfter: seq<int>)
    requires 0 <= k < |event|
    requires before == MoveTouches(t0, event[..k]) && after == MoveTouch(before, event[k])
    requires orderBefore == AddNew(o0, event[..k])
    requires orderAfter == if event[k].identifier in orderBefore then orderBefore else orderBefore + [event[k].identifier]
    ensures after == MoveTouches(t0, event[..k + 1]) && orderAfter == AddNew(o0, event[..k + 1])
  {
    MoveSnoc(t0, o0, event, k);
  }

  /** One more stroke of touchmove's second loop, on values. */
  lemma DragStep(v0: Grid, rows: nat, cols: nat, tracks: map<int, Track>, ids: seq<int>, k: int, force: real,
                 before: Grid, after: Grid)
    requires rows >= 1 && cols >= 1 && Shaped(v0, rows, cols)
    requires 0 <= k < |ids| && forall p :: 0 <= p < |ids| ==> ids[p] in tracks
    requires before == Inject(v0, rows, cols, DragCells(rows, cols, tracks, ids[..k]), force)
    requires after == Inject(before, rows, cols, StrokeCells(rows, cols, tracks[ids[k]]), force)
    ensures after == Inject(v0, rows, cols, DragCells(rows, cols, tracks, ids[..k + 1]), force)
  {
    DragCellsSnoc(rows, cols, tracks, ids, k);
    InjectAppend(v0, rows, cols, DragCells(rows, cols, tracks, ids[..k]), StrokeCells(rows, cols, tracks[ids[k]]), force);
  }

  lemma EventIdsSnoc(event: seq<TouchPoint>, k: int)
    requires 0 <= k < |event|
    ensures EventIds(event[..k + 1]) == EventIds(event[..k]) + {event[k].identifier}
  {
    assert event[..k + 1] == event[..k] + [event[k]];
  }

  /** Deletes from ids, one by one, the identifier of each touch of the
      event, as touchend does with its temporary set. */
  method DropEventIdentifiers(ids: set<int>, event: seq<TouchPoint>) returns (r: set<int>)
    ensures r == ids - EventIds(event)
  {
    r := ids;
    for k := 0 to |event|
      invariant r == ids - EventIds(event[..k])
    {
      EventIdsSnoc(event, k);
      r := r - {event[k].identifier};
    }
    assert event[..|event|] == event;
  }

  /** The map from identifiers to records agrees with its insertion order,
      which lists each key once, and no record is shared. */
  ghost predicate TrackedBy(touches: map<int, TouchPos>, order: seq<int>)
  {
    && Distinct(order)
    && (forall id :: id in touches <==> id in order)
    && (forall a, b :: a in touches && b in touches && a != b ==> touches[a] != touches[b])
  }

  /** Deleting one set of keys after another from the map and its order is
      deleting their union; deleting nothing changes nothing. */
  lemma ForgetStep(touches: map<int, TouchPos>, order: seq<int>, gone: set<int>, more: set<int>)
    ensures (touches - gone) - more == touches - (gone + more)
    ensures Keep(Keep(order, gone), more) == Keep(order, gone + more)
    ensures touches - {} == touches && Keep(order, {}) == order
  {
    KeepTwice(order, gone, more);
    KeepNothing(order);
  }

  /** Deleting keys from the map and from its insertion order keeps them
      in agreement. */
  lemma ForgetKeepsTracked(touches: map<int, TouchPos>, order: seq<int>, drop: set<int>)
    requires TrackedBy(touches, order)
    ensures TrackedBy(touches - drop, Keep(order, drop))
  {
    KeepDistinct(order, drop);
    KeepMembers(order, drop);
  }

  /** Every identifier in the insertion order has a record, and every
      record's identifier is in the insertion order. */
  lemma TrackedOrder(touches: map<int, TouchPos>, order: seq<int>)
    requires TrackedBy(touches, order)
    ensures forall k :: 0 <= k < |order| ==> order[k] in touches
    ensures forall id :: id in touches ==> id in order
  {
    forall k | 0 <= k < |order|
      ensures order[k] in touches
    {
      assert order[k] in order;
    }
  }

  /** A new identifier with a record no other identifier holds keeps the map
      and its insertion order in step. */
  lemma TrackAdd(touches: map<int, TouchPos>, order: seq<int>, id: int, r: TouchPos)
    requires TrackedBy(touches, order) && id !in touches
    requires forall other :: other in touches ==> touches[other] != r
    ensures TrackedBy(touches[id := r], order + [id])
  {
    DistinctAppend(order, id);
  }

  /** The cells a mouse drag pushes: the walk runs from the cell of the
      current position towards the cell of the previous one, the reverse of
      a touch's stroke (the handler names the two cells the other way
      round). */
  function MouseStrokeCells(rows: nat, cols: nat, mouse: Track): (cells: seq<Cell>)
    ensures |cells| == |StrokeCells(rows, cols, mouse)|
    ensures cells != [] ==> cells[0] == WorldToCellCoords(rows, cols, mouse.pos)
  {
    StrokeCells(rows, cols, Track(mouse.prev, mouse.pos))
  }

  /** A mouse drag that changed cell pushes first at the cell the pointer
      is now in and never at the cell it came from. */
  lemma MouseStrokeStartsAtCurrent(rows: nat, cols: nat, mouse: Track)
    ensures var now, before := WorldToCellCoords(rows, cols, mouse.pos), WorldToCellCoords(rows, cols, mouse.prev);
      && (now != before ==> MouseStrokeCells(rows, cols, mouse)[0] == now)
      && before !in MouseStrokeCells(rows, cols, mouse)
  {
    StrokeEnds(rows, cols, Track(mouse.prev, mouse.pos));
  }

  class Controller {
    const waveSolver: WaveSolver
    /** The map from touch identifier to its position record. */
    var touches: map<int, TouchPos>
    /** The keys of touches in insertion order, the order in which the
        source's Map iterates. */
    var order: seq<int>
    var mousePos: Vec2
    var prevMousePos: Vec2
    var mouseDown: bool

    /** The solver's grids are well formed and the touch map agrees with
        its insertion order. */
    ghost predicate Valid()
      reads this, waveSolver
    {
      waveSolver.Valid() && TrackedBy(touches, order)
    }

    /** The solver has at least one cell, so every clamped cell exists. */
    predicate Ready()
      reads this, waveSolver
    {
      |waveSolver.velocity| >= 1 && waveSolver.Cols() >= 1
    }

    ghost function Records(): set<TouchPos>
      reads this
    {
      set id | id in touches :: touches[id]
    }

    /** The positions of every tracked touch. */
    ghost function Tracks(): map<int, Track>
      reads this, Records()
    {
      map id | id in touches :: touches[id].View()
    }

    function Mouse(): Track
      reads this
    {
      Track(mousePos, prevMousePos)
    }

    /** No touch is tracked and the mouse is up at the origin. */
    constructor (waveSolver: WaveSolver)
      requires waveSolver.Valid()
      ensures Valid() && this.waveSolver == waveSolver
      ensures touches == map[] && order == []
      ensures Mouse() == Start(Vec2(0.0, 0.0)) && !mouseDown
    {
      this.waveSolver := waveSolver;
      touches := map[];
      order := [];
      mousePos := Vec2(0.0, 0.0);
      prevMousePos := Vec2(0.0, 0.0);
      mouseDown := false;
    }

    /** The cell under a screen position: the same mapping as
        worldToCellCoords, for the solver's grid. */
    function ScreenToCellCoords(vec: Vec2): (c: Cell)
      reads this, waveSolver
      requires waveSolver.Valid() && Ready()
      ensures c == WorldToCellCoords(|waveSolver.velocity|, waveSolver.Cols(), vec)
      ensures 0 <= c.x < |waveSolver.velocity| && 0 <= c.y < waveSolver.Cols()
    {
      var countX := waveSolver.GetCellCountX();
      var countY := waveSolver.GetCellCountY();
      var unitX := (vec.x + 50.0) / 100.0;
      var unitY := (vec.y + 50.0) / 100.0;
      Cell(Clamp((unitX * (countX - 1) as real).Floor, 0, countX - 1),
           Clamp((unitY * (countY - 1) as real).Floor, 0, countY - 1))
    }

    /** Pushes force into the cell (x, y) clamped into the grid. */
    method ClampedAddVelocity(force: real, x: int, y: int)
      requires waveSolver.Valid() && Ready()
      modifies waveSolver
      ensures waveSolver.Valid() && |waveSolver.velocity| == old(|waveSolver.velocity|) && waveSolver.Cols() == old(waveSolver.Cols())
      ensures waveSolver.density == old(waveSolver.density)
      ensures waveSolver.velocity == Inject(old(waveSolver.velocity), |waveSolver.velocity|, waveSolver.Cols(), [Cell(x, y)], force)
    {
      var cellI := Clamp(x, 0, waveSolver.GetCellCountX() - 1);
      var cellJ := Clamp(y, 0, waveSolver.GetCellCountY() - 1);
      waveSolver.AddVelocity(force, cellI as real, cellJ as real);
    }

    /** The calls Bresenham makes to the bound ClampedAddVelocity: force
        pushed into each cell of pts in turn, clamped into the grid. */
    method PushAlong(force: real, pts: seq<Cell>)
      requires waveSolver.Valid() && Ready()
      modifies waveSolver
      ensures waveSolver.Valid() && |waveSolver.velocity| == old(|waveSolver.velocity|) && waveSolver.Cols() == old(waveSolver.Cols())
      ensures waveSolver.density == old(waveSolver.density)
      ensures waveSolver.velocity == Inject(old(waveSolver.velocity), |waveSolver.velocity|, waveSolver.Cols(), pts, force)
    {
      ghost var rows, cols := |waveSolver.velocity|, waveSolver.Cols();
      ghost var v0 := waveSolver.velocity;
      for m := 0 to |pts|
        modifies waveSolver
        invariant waveSolver.Valid() && |waveSolver.velocity| == rows && waveSolver.Cols() == cols
        invariant waveSolver.density == old(waveSolver.density)
        invariant waveSolver.velocity == Inject(v0, rows, cols, pts[..m], force)
      {
        ClampedAddVelocity(force, pts[m].x, pts[m].y);
        assert pts[..m + 1][..m] == pts[..m];
      }
      assert pts[..|pts|] == pts;
    }

    method UpdateMousePos(pos: Vec2)
      modifies this
      ensures Mouse() == Shift(old(Mouse()), pos)
      ensures touches == old(touches) && order == old(order) && mouseDown == old(mouseDown)
    {
      prevMousePos := mousePos;
      mousePos := pos;
    }

    method HandleMouseDown(pos: Vec2)
      requires Valid()
      modifies this
      ensures Valid() && mouseDown
      ensures Mouse() == Shift(old(Mouse()), pos)
      ensures touches == old(touches) && order == old(order)
    {
      mouseDown := true;
      UpdateMousePos(pos);
    }

    method HandleMouseUp(pos: Vec2)
      requires Valid()
      modifies this
      ensures Valid() && !mouseDown
      ensures Mouse() == Shift(old(Mouse()), pos)
      ensures touches == old(touches) && order == old(order)
    {
      mouseDown := false;
      UpdateMousePos(pos);
    }

    /** Follows the pointer; while the button is down, pushes DragForce
        along the mouse stroke. */
    method HandleMouseMove(pos: Vec2)
      requires Valid() && (mouseDown ==> Ready())
      modifies this, waveSolver
      ensures Valid() && mouseDown == old(mouseDown)
      ensures Mouse() == Shift(old(Mouse()), pos)
      ensures touches == old(touches) && order == old(order)
      ensures |waveSolver.velocity| == old(|waveSolver.velocity|) && waveSolver.Cols() == old(waveSolver.Cols())
      ensures waveSolver.density == old(waveSolver.density)
      ensures !mouseDown ==> waveSolver.velocity == old(waveSolver.velocity)
      ensures mouseDown ==>
        waveSolver.velocity == Inject(old(waveSolver.velocity), |waveSolver.velocity|, waveSolver.Cols(),
                  MouseStrokeCells(|waveSolver.velocity|, waveSolver.Cols(), Mouse()), DragForce)
    {
      UpdateMousePos(pos);
      if mouseDown {
        ghost var rows, cols := |waveSolver.velocity|, waveSolver.Cols();
        ghost var v0 := waveSolver.velocity;
        var force := DragForce;
        var prevCellCoord := ScreenToCellCoords(mousePos);
        var cellCoord := ScreenToCellCoords(prevMousePos);
        var pts := Bresenham(prevCellCoord.x, prevCellCoord.y, cellCoord.x, cellCoord.y);
        assert pts == MouseStrokeCells(rows, cols, Mouse());
        PushAlong(force, pts);
      }
    }

    /** The set of tracked identifiers, gathered by iterating over the
        map's keys as both touchstart and touchend do. */
    method CollectIdentifiers() returns (ids: set<int>)
      requires TrackedBy(touches, order)
      ensures ids == touches.Keys
    {
      ids := {};
      for k := 0 to |order|
        invariant ids == set p | 0 <= p < k :: order[p]
      {
        ids := ids + {order[k]};
      }
      forall id | id in touches
        ensures id in ids
      {
        var p :| 0 <= p < |order| && order[p] == id;
      }
      forall id | id in ids
        ensures id in touches
      {
        var p :| 0 <= p < |order| && order[p] == id;
      }
    }

    /** A touchstart pushes TapForce into the cell under each touch whose
        identifier is not yet tracked; it tracks nothing itself (the first
        touchmove does). */
    method HandleTouchStart(event: seq<TouchPoint>)
      requires Valid()
      requires (exists k :: 0 <= k < |event| && event[k].identifier !in touches) ==> Ready()
      modifies waveSolver
      ensures Valid() && touches == old(touches) && order == old(order)
      ensures |waveSolver.velocity| == old(|waveSolver.velocity|) && waveSolver.Cols() == old(waveSolver.Cols())
      ensures waveSolver.density == old(waveSolver.density)
      ensures !Ready() ==> waveSolver.velocity == old(waveSolver.velocity)
      ensures Ready() ==>
        var rows, cols := |waveSolver.velocity|, waveSolver.Cols();
        waveSolver.velocity == Inject(old(waveSolver.velocity), rows, cols, TapCells(rows, cols, touches.Keys, event), TapForce)
    {
      var knownIdentifiers := CollectIdentifiers();
      PushNewTouches(knownIdentifiers, event);
    }

    /** The second loop of HandleTouchStart: a tap at the cell of every
        touch of the event whose identifier is not among those known. */
    method PushNewTouches(knownIdentifiers: set<int>, event: seq<TouchPoint>)
      requires waveSolver.Valid()
      requires (exists k :: 0 <= k < |event| && event[k].identifier !in knownIdentifiers) ==> Ready()
      modifies waveSolver
      ensures waveSolver.Valid()
      ensures |waveSolver.velocity| == old(|waveSolver.velocity|) && waveSolver.Cols() == old(waveSolver.Cols())
      ensures waveSolver.density == old(waveSolver.density)
      ensures !Ready() ==> waveSolver.velocity == old(waveSolver.velocity)
      ensures Ready() ==>
        var rows, cols := |waveSolver.velocity|, waveSolver.Cols();
        waveSolver.velocity == Inject(old(waveSolver.velocity), rows, cols, TapCells(rows, cols, knownIdentifiers, event), TapForce)
    {
      ghost var rows, cols := |waveSolver.velocity|, waveSolver.Cols();
      ghost var v0 := waveSolver.velocity;
      var force := TapForce;
      for k := 0 to |event|
        modifies waveSolver
        invariant waveSolver.Valid() && |waveSolver.velocity| == rows && waveSolver.Cols() == cols
        invariant waveSolver.density == old(waveSolver.density)
        invariant !Ready() ==> waveSolver.velocity == v0
        invariant Ready() ==> waveSolver.velocity == Inject(v0, rows, cols, TapCells(rows, cols, knownIdentifiers, event[..k]), force)
      {
        var touch := event[k];
        TapCellsSnoc(rows, cols, knownIdentifiers, event, k);
        if touch.identifier !in knownIdentifiers {
          PushTap(force, touch.pos);
          InjectAppend(v0, rows, cols, TapCells(rows, cols, knownIdentifiers, event[..k]), [WorldToCellCoords(rows, cols, touch.pos)], force);
        } else {
          assert TapCells(rows, cols, knownIdentifiers, event[..k + 1]) == TapCells(rows, cols, knownIdentifiers, event[..k]);
        }
      }
      assert event[..|event|] == event;
    }

    /** The body of touchstart's second loop for a touch not yet known:
        force straight into the cell under pos. */
    method PushTap(force: real, pos: Vec2)
      requires waveSolver.Valid() && Ready()
      modifies waveSolver
      ensures waveSolver.Valid() && |waveSolver.velocity| == old(|waveSolver.velocity|) && waveSolver.Cols() == old(waveSolver.Cols())
      ensures waveSolver.density == old(waveSolver.density)
      ensures var rows, cols := |waveSolver.velocity|, waveSolver.Cols();
        waveSolver.velocity == Inject(old(waveSolver.velocity), rows, cols, [WorldToCellCoords(rows, cols, pos)], force)
    {
      ghost var rows, cols := |waveSolver.velocity|, waveSolver.Cols();
      var cellCoord := ScreenToCellCoords(pos);
      assert ClampCell(rows, cols, cellCoord) == cellCoord;
      assert (cellCoord.x as real).Floor == cellCoord.x && (cellCoord.y as real).Floor == cellCoord.y;
      InjectSnoc(waveSolver.velocity, rows, cols, [], cellCoord, force);
      waveSolver.AddVelocity(force, cellCoord.x as real, cellCoord.y as real);
    }

    /** Moves every touch of the event to its new position, the first loop
        of handleTouchMove: a known touch shifts its record, a new one gets
        a fresh record appended to the insertion order. Then drags force
        along the stroke of every tracked touch, in insertion order. */
    method HandleTouchMove(event: seq<TouchPoint>)
      requires Valid() && ((order != [] || event != []) ==> Ready())
      modifies this`touches, this`order, Records(), waveSolver
      ensures Valid()
      ensures Tracks() == MoveTouches(old(Tracks()), event)
      ensures order == AddNew(old(order), event)
      ensures forall id :: id in touches ==> touches[id] in old(Records()) || fresh(touches[id])
      ensures Mouse() == old(Mouse()) && mouseDown == old(mouseDown)
      ensures |waveSolver.velocity| == old(|waveSolver.velocity|) && waveSolver.Cols() == old(waveSolver.Cols())
      ensures waveSolver.density == old(waveSolver.density)
      ensures !Ready() ==> waveSolver.velocity == old(waveSolver.velocity)
      ensures Ready() ==>
        var rows, cols := |waveSolver.velocity|, waveSolver.Cols();
        waveSolver.velocity == Inject(old(waveSolver.velocity), rows, cols, DragCells(rows, cols, Tracks(), order), DragForce)
    {
      UpdateTouches(event);
      TrackedOrder(touches, order);
      PushStrokes();
    }

    /** The first loop of handleTouchMove. */
    method UpdateTouches(event: seq<TouchPoint>)
      requires TrackedBy(touches, order)
      modifies this`touches, this`order, Records()
      ensures TrackedBy(touches, order)
      ensures Tracks() == MoveTouches(old(Tracks()), event)
      ensures order == AddNew(old(order), event)
      ensures forall id :: id in touches ==> touches[id] in old(Records()) || fresh(touches[id])
    {
      ghost var t0, o0 := Tracks(), order;
      for k := 0 to |event|
        invariant TrackedBy(touches, order)
        invariant Tracks() == MoveTouches(t0, event[..k])
        invariant order == AddNew(o0, event[..k])
        invariant forall id :: id in touches ==> touches[id] in old(Records()) || fresh(touches[id])
      {
        ghost var before, orderBefore := Tracks(), order;
        MoveOne(event[k]);
        MoveStep(t0, o0, event, k, before, Tracks(), orderBefore, order);
      }
      assert event[..|event|] == event;
    }

    /** One touch of the first loop of handleTouchMove. */
    method MoveOne(t: TouchPoint)
      requires TrackedBy(touches, order)
      modifies this`touches, this`order, Records()
      ensures TrackedBy(touches, order)
      ensures Tracks() == MoveTouch(old(Tracks()), t)
      ensures order == if t.identifier in old(order) then old(order) else old(order) + [t.identifier]
      ensures forall id :: id in touches ==> touches[id] in old(Records()) || fresh(touches[id])
    {
      if t.identifier in touches {
        var touchPos := touches[t.identifier];
        touchPos.SetPos(t.pos.x, t.pos.y);
        forall id | id in touches && id != t.identifier
          ensures touches[id].View() == old(touches[id].View())
        {
          assert touches[id] != touchPos;
        }
      } else {
        var touchPos := new TouchPos(t.pos.x, t.pos.y);
        TrackAdd(touches, order, t.identifier, touchPos);
        touches := touches[t.identifier := touchPos];
        order := order + [t.identifier];
      }
    }

    /** The body of the second loop of handleTouchMove: force along the
        cells from the record's previous position to its current one. */
    method PushStroke(force: real, touchPos: TouchPos)
      requires waveSolver.Valid() && Ready()
      modifies waveSolver
      ensures waveSolver.Valid() && |waveSolver.velocity| == old(|waveSolver.velocity|) && waveSolver.Cols() == old(waveSolver.Cols())
      ensures waveSolver.density == old(waveSolver.density)
      ensures var rows, cols := |waveSolver.velocity|, waveSolver.Cols();
        waveSolver.velocity == Inject(old(waveSolver.velocity), rows, cols, StrokeCells(rows, cols, touchPos.View()), force)
    {
      var prevCellCoord := ScreenToCellCoords(Vec2(touchPos.GetPrevPosX(), touchPos.GetPrevPosY()));
      var cellCoord := ScreenToCellCoords(Vec2(touchPos.GetPosX(), touchPos.GetPosY()));
      var pts := Bresenham(prevCellCoord.x, prevCellCoord.y, cellCoord.x, cellCoord.y);
      PushAlong(force, pts);
    }

    /** The second loop of handleTouchMove: a drag along the stroke of
        every tracked touch, in the map's insertion order. */
    method PushStrokes()
      requires waveSolver.Valid() && (order != [] ==> Ready())
      requires forall k :: 0 <= k < |order| ==> order[k] in touches
      modifies waveSolver
      ensures Tracks() == old(Tracks())
      ensures waveSolver.Valid() && |waveSolver.velocity| == old(|waveSolver.velocity|) && waveSolver.Cols() == old(waveSolver.Cols())
      ensures waveSolver.density == old(waveSolver.density)
      ensures !Ready() ==> waveSolver.velocity == old(waveSolver.velocity)
      ensures Ready() ==>
        var rows, cols := |waveSolver.velocity|, waveSolver.Cols();
        waveSolver.velocity == Inject(old(waveSolver.velocity), rows, cols, DragCells(rows, cols, Tracks(), order), DragForce)
    {
      ghost var rows, cols := |waveSolver.velocity|, waveSolver.Cols();
      ghost var v0 := waveSolver.velocity;
      ghost var tracks := Tracks();
      var force := DragForce;
      for k := 0 to |order|
        modifies waveSolver
        invariant waveSolver.Valid() && |waveSolver.velocity| == rows && waveSolver.Cols() == cols
        invariant waveSolver.density == old(waveSolver.density)
        invariant !Ready() ==> waveSolver.velocity == v0
        invariant Ready() ==> waveSolver.velocity == Inject(v0, rows, cols, DragCells(rows, cols, tracks, order[..k]), force)
      {
        var touchPos := touches[order[k]];
        ghost var before := waveSolver.velocity;
        PushStroke(force, touchPos);
        if Ready() {
          DragStep(v0, rows, cols, tracks, order, k, force, before, waveSolver.velocity);
        }
      }
      assert order[..|order|] == order;
      forall id | id in touches
        ensures touches[id].View() == tracks[id]
      {
        assert touches[id] in old(Records());
      }
      assert Tracks() == tracks;
    }

    /** A touchend (or touchleave) forgets every tracked touch that is no
        longer in the event; the others keep their records, in their
        order. */
    method HandleTouchEnd(event: seq<TouchPoint>)
      requires Valid()
      modifies this
      ensures Valid()
      ensures touches.Keys == old(touches).Keys * EventIds(event)
      ensures forall id :: id in touches ==> touches[id] == old(touches)[id]
      ensures order == Keep(old(order), old(touches).Keys - EventIds(event))
      ensures Mouse() == old(Mouse()) && mouseDown == old(mouseDown)
    {
      assert TrackedBy(touches, order);
      var identifiersToRemove := CollectIdentifiers();
      identifiersToRemove := DropEventIdentifiers(identifiersToRemove, event);
      ForgetKeepsTracked(touches, order, identifiersToRemove);
      TrackedOrder(touches, order);
      Forget(identifiersToRemove);
    }

    /** Map.delete on the touch records, with the key leaving the
        insertion order as well. */
    method Delete(identifier: int)
      modifies this`touches, this`order
      ensures touches == old(touches) - {identifier}
      ensures order == Keep(old(order), {identifier})
    {
      touches := touches - {identifier};
      order := Keep(order, {identifier});
    }

    /** The last loop of touchend: deletes each of the identifiers from the
        map. The set iterates in the order its members were added, which
        is the map's insertion order, so the loop walks a snapshot of that
        order and skips the identifiers not in the set. */
    method Forget(identifiersToRemove: set<int>)
      requires identifiersToRemove <= touches.Keys
      requires forall id :: id in identifiersToRemove ==> id in order
      modifies this`touches, this`order
      ensures touches == old(touches) - identifiersToRemove
      ensures order == Keep(old(order), identifiersToRemove)
    {
      ghost var t0, o0 := touches, order;
      ghost var gone: set<int> := {};
      ForgetStep(t0, o0, {}, {});
      var keys := order;
      for k := 0 to |keys|
        invariant gone <= identifiersToRemove
        invariant forall p :: 0 <= p < k && keys[p] in identifiersToRemove ==> keys[p] in gone
        invariant touches == t0 - gone && order == Keep(o0, gone)
      {
        var identifier := keys[k];
        if identifier in identifiersToRemove && identifier in touches {
          ForgetStep(t0, o0, gone, {identifier});
          Delete(identifier);
          gone := gone + {identifier};
        }
      }
      forall id | id in identifiersToRemove
        ensures id in gone
      {
        var p :| 0 <= p < |keys| && keys[p] == id;
      }
      assert gone == identifiersToRemove;
    }

    /** A click pushes TapForce into the cell under the pointer. */
    method HandleMouseClick(pos: Vec2)
      requires Valid() && Ready()
      modifies this, waveSolver
      ensures Valid() && mouseDown == old(mouseDown)
      ensures Mouse() == Shift(old(Mouse()), pos)
      ensures touches == old(touches) && order == old(order)
      ensures |waveSolver.velocity| == old(|waveSolver.velocity|) && waveSolver.Cols() == old(waveSolver.Cols())
      ensures waveSolver.density == old(waveSolver.density)
      ensures waveSolver.velocity
        == Inject(old(waveSolver.velocity), |waveSolver.velocity|, waveSolver.Cols(),
                  [WorldToCellCoords(|waveSolver.velocity|, waveSolver.Cols(), pos)], TapForce)
    {
      UpdateMousePos(pos);
      var force := TapForce;
      var cellCoord := ScreenToCellCoords(mousePos);
      waveSolver.AddVelocity(force, cellCoord.x as real, cellCoord.y as real);
    }
  }
}
