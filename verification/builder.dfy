/** `BistellarFlip3D`: the incremental builder. It keeps the list of live cells
    and a LIFO stack of faces to re-check, inserts each point by splitting the
    live cell that contains it, and legalizes the faces on the stack with 2-3
    and 3-2 flips. Every geometric test is an oracle of `Geometry`. */
module Builder {
  import opened Wrappers
  import opened Simplex
  import opened Cells
  import opened CellMoves

  /** The floating-point tests the builder branches on, as total functions of
      the points they are asked about. */
  datatype Geometry = Geometry(
    /** `Tetrahedra.Contains(p, true)`: `p` is inside or on the tetrahedron. */
    contains: (Tet, Vertex) -> bool,
    /** `GetCircumscribedSphere().Contains(p)`. */
    inSphere: (Tet, Vertex) -> bool,
    /** `Triangle.Intersects(segment, ...)`: the segment crosses the triangle. */
    intersects: (Tri, Seg) -> bool,
    /** The `isOnEdge` flag that `Triangle.Intersects` hands back. */
    onEdge: (Tri, Seg) -> bool,
    /** `Util3D.IsIntersecting(SG(i, corner), edge, 1e-15)`, where `i` is the
        point computed by `Triangle.Intersects` for the triangle and segment. */
    beyond: (Tri, Seg, Vertex, Seg) -> bool
  )

  /** The ways the C# code throws, as errors. */
  datatype Error =
    | NoContainingCell   // `nodes.Find` returns null and `n.Split` dereferences it
    | NoRemainingPoint   // a cell owning `t` has no corner off `t`
    | NoFarVertex        // the `throw new Exception()` of the far-vertex choice
    | MissingThirdCell   // `GetFacingNode` returns null and `n3.tetrahedra` dereferences it
    | OutOfFuel          // the legalize loop ran longer than its bound

  /** The builder's fields: every cell ever made, the next fresh id, the live
      list `nodes` in order, and the work stack, top last. */
  datatype State = State(cells: Arena, next: nat, live: seq<CellId>, stack: seq<Tri>)

  /** The builder invariant: ids are fresh from `next`, links do not dangle,
      and the live list names arena cells, each once. */
  predicate Valid(s: State) {
    && Fresh(s.cells, s.next)
    && Closed(s.cells)
    && (forall i :: 0 <= i < |s.live| ==> s.live[i] in s.cells)
    && Distinct(s.live)
  }

  /** The arena only grows: old ids keep their tetrahedra. */
  predicate Grows(c1: Arena, c2: Arena) {
    c1.Keys <= c2.Keys && forall k :: k in c1 ==> c2[k].tet == c1[k].tet
  }

  /** The bounding tetrahedron, its corners named 0 to 3. */
  const Root := Tet(0, 1, 2, 3)

  /** The constructor's starting point: one live cell, the root, and no work. */
  function Initial(): (r: State)
    ensures Valid(r)
    ensures r.live == [0] && 0 in r.cells && r.cells[0].tet == Root && r.stack == []
  {
    State(map[0 := Cell(Root, [])], 1, [0], [])
  }

  // ----------------------------------------------------------- list helpers

  /** The position of the first `x` in `s`, or `|s|` when there is none. */
  function IndexOf(s: seq<CellId>, x: CellId): (r: nat)
    ensures r <= |s| && (r < |s| <==> x in s)
    ensures r < |s| ==> s[r] == x
    ensures forall j :: 0 <= j < r ==> s[j] != x
  {
    if |s| == 0 then 0
    else if s[0] == x then 0
    else IndexOf(s[1..], x) + 1
  }

  /** `List.Remove`: the first occurrence of `x` taken out, if there is one. */
  function Remove(s: seq<CellId>, x: CellId): (r: seq<CellId>)
    ensures x !in s ==> r == s
    ensures x in s ==> |r| == |s| - 1
  {
    if |s| == 0 then []
    else if s[0] == x then s[1..]
    else
      assert x in s[1..] <==> x in s;
      [s[0]] + Remove(s[1..], x)
  }

  /** Entries before the first `x` keep their places and those after it move
      up by one. */
  lemma {:induction false} RemoveAt(s: seq<CellId>, x: CellId)
    requires x in s
    ensures forall k {:trigger Remove(s, x)[k]} :: 0 <= k < |Remove(s, x)| ==>
              Remove(s, x)[k] == if k < IndexOf(s, x) then s[k] else s[k + 1]
  {
    if s[0] != x {
      assert x in s[1..];
      RemoveAt(s[1..], x);
      var r := Remove(s, x);
      assert r == [s[0]] + Remove(s[1..], x);
      assert IndexOf(s, x) == IndexOf(s[1..], x) + 1;
      forall k | 0 <= k < |r|
        ensures r[k] == if k < IndexOf(s, x) then s[k] else s[k + 1]
      {
        if k > 0 {
          var m := IndexOf(s[1..], x);
          assert r[k] == Remove(s[1..], x)[k - 1];
          if k - 1 < m {
            assert Remove(s[1..], x)[k - 1] == s[1..][k - 1] == s[k];
          } else {
            assert Remove(s[1..], x)[k - 1] == s[1..][k] == s[k + 1];
          }
        }
      }
    } else {
      assert Remove(s, x) == s[1..];
      assert IndexOf(s, x) == 0;
    }
  }

  /** Removing from a list without repeats drops exactly `x`: one entry fewer
      when `x` was there, every other entry kept, and still no repeats. */
  lemma RemoveDistinct(s: seq<CellId>, x: CellId)
    requires Distinct(s)
    ensures Distinct(Remove(s, x)) && x !in Remove(s, x)
    ensures forall y :: y in Remove(s, x) <==> y in s && y != x
    ensures |Remove(s, x)| == if x in s then |s| - 1 else |s|
  {
    if x in s {
      var i := IndexOf(s, x);
      var r := Remove(s, x);
      RemoveAt(s, x);
      forall y | y in s && y != x
        ensures y in r
      {
        var k :| 0 <= k < |s| && s[k] == y;
        if k < i { assert r[k] == y; } else { assert k > i && r[k - 1] == y; }
      }
      forall y | y in r
        ensures y in s && y != x
      {
        var k :| 0 <= k < |r| && r[k] == y;
        if k < i { assert s[k] == y; } else { assert s[k + 1] == y; }
      }
      forall a, b | 0 <= a < b < |r|
        ensures r[a] != r[b]
      {
        var a' := if a < i then a else a + 1;
        var b' := if b < i then b else b + 1;
        assert r[a] == s[a'] && r[b] == s[b'] && a' < b';
      }
    }
  }

  /** Appending fresh ids to a list of arena cells keeps it free of repeats. */
  lemma AppendFresh(cells: Arena, next: nat, s: seq<CellId>, n: nat)
    requires Fresh(cells, next) && Distinct(s)
    requires forall i :: 0 <= i < |s| ==> s[i] in cells
    ensures Distinct(s + Span(next, n))
  {
    var r := s + Span(next, n);
    forall i, j | 0 <= i < j < |r|
      ensures r[i] != r[j]
    {
      if j >= |s| && i < |s| {
        assert r[i] == s[i] && s[i] in cells && r[j] >= next;
      }
    }
  }

  /** `nodes.Find(n => n.Contains(p, true))`: the position of the first live
      cell whose tetrahedron contains `p`. */
  function FirstContaining(geo: Geometry, cells: Arena, live: seq<CellId>, p: Vertex): (r: Option<nat>)
    requires forall i :: 0 <= i < |live| ==> live[i] in cells
    ensures r.Some? ==> r.value < |live| && geo.contains(cells[live[r.value]].tet, p)
    ensures r.Some? ==> forall j :: 0 <= j < r.value ==> !geo.contains(cells[live[j]].tet, p)
    ensures r.None? ==> forall j :: 0 <= j < |live| ==> !geo.contains(cells[live[j]].tet, p)
  {
    if |live| == 0 then None
    else if geo.contains(cells[live[0]].tet, p) then Some(0)
    else match FirstContaining(geo, cells, live[1..], p)
      case None => None
      case Some(k) => Some(k + 1)
  }

  /** `nodes.FindAll(n => n.HasFacet(t))`: the live cells owning face `t`, in
      list order. */
  function Owners(cells: Arena, live: seq<CellId>, t: Tri): (r: seq<CellId>)
    ensures |r| <= |live|
    ensures forall x :: x in r <==> x in live && HasFacetAt(cells, x, t)
    ensures forall i :: 0 <= i < |r| ==> HasFacetAt(cells, r[i], t)
    ensures Distinct(live) ==> Distinct(r)
    ensures forall i, j :: 0 <= i < j < |r| ==> Before(live, r[i], r[j])
  {
    if |live| == 0 then []
    else
      var rest := Owners(cells, live[1..], t);
      assert forall x :: x in live <==> x == live[0] || x in live[1..];
      if HasFacetAt(cells, live[0], t) then
        assert Distinct(live) ==> Distinct(live[1..]) && live[0] !in live[1..];
        KeepHead(live, rest);
        [live[0]] + rest
      else
        assert Distinct(live) ==> Distinct(live[1..]);
        DropHead(live, rest);
        rest
  }

  /** `x` occurs in `s` at a position before an occurrence of `y`. */
  predicate Before(s: seq<CellId>, x: CellId, y: CellId) {
    exists a, b :: 0 <= a < b < |s| && s[a] == x && s[b] == y
  }

  /** Keeping the head of `s` in front of an order-keeping selection from its tail
      keeps the order. */
  lemma KeepHead(s: seq<CellId>, rest: seq<CellId>)
    requires |s| > 0 && forall x :: x in rest ==> x in s[1..]
    requires forall i, j :: 0 <= i < j < |rest| ==> Before(s[1..], rest[i], rest[j])
    ensures forall i, j :: 0 <= i < j < |[s[0]] + rest| ==> Before(s, ([s[0]] + rest)[i], ([s[0]] + rest)[j])
  {
    var r := [s[0]] + rest;
    forall i, j | 0 <= i < j < |r|
      ensures Before(s, r[i], r[j])
    {
      if i == 0 {
        assert r[j] == rest[j - 1] && rest[j - 1] in rest;
        BeforeHead(s, r[j]);
      } else {
        assert r[i] == rest[i - 1] && r[j] == rest[j - 1];
        BeforeShift(s, r[i], r[j]);
      }
    }
  }

  /** Dropping the head of `s` keeps an order-keeping selection from its tail in order. */
  lemma DropHead(s: seq<CellId>, rest: seq<CellId>)
    requires |s| > 0
    requires forall i, j :: 0 <= i < j < |rest| ==> Before(s[1..], rest[i], rest[j])
    ensures forall i, j :: 0 <= i < j < |rest| ==> Before(s, rest[i], rest[j])
  {
    forall i, j | 0 <= i < j < |rest|
      ensures Before(s, rest[i], rest[j])
    {
      BeforeShift(s, rest[i], rest[j]);
    }
  }

  lemma BeforeHead(s: seq<CellId>, y: CellId)
    requires |s| > 0 && y in s[1..]
    ensures Before(s, s[0], y)
  {
    var b :| 0 <= b < |s[1..]| && s[1..][b] == y;
    assert s[b + 1] == y;
  }

  lemma BeforeShift(s: seq<CellId>, x: CellId, y: CellId)
    requires |s| > 0 && Before(s[1..], x, y)
    ensures Before(s, x, y)
  {
    var a, b :| 0 <= a < b < |s[1..]| && s[1..][a] == x && s[1..][b] == y;
    assert s[a + 1] == x && s[b + 1] == y;
  }

  /** Live cells retired and `k` fresh ones appended: when the arena grew by
      exactly the ids `next` to `next + k` and kept its invariants, the builder
      invariant holds again. */
  lemma Relive(s: State, cells: Arena, k: nat, kept: seq<CellId>, stack: seq<Tri>)
    requires Valid(s)
    requires cells.Keys == s.cells.Keys + Ids(s.next, k) && Fresh(cells, s.next + k) && Closed(cells)
    requires Distinct(kept) && forall y :: y in kept ==> y in s.live
    ensures Valid(State(cells, s.next + k, kept + Span(s.next, k), stack))
  {
    forall j | 0 <= j < |kept|
      ensures kept[j] in s.cells
    {
      assert kept[j] in kept;
    }
    AppendFresh(s.cells, s.next, kept, k);
  }

  // ----------------------------------------------------------------- Split

  /** `BistellarFlip3D.Split(p)`: the first live cell containing `p` is split
      at `p`; it leaves the live list, its four children are appended, and the
      four faces of its tetrahedron are pushed. When no live cell contains `p`
      the C# code dereferences null. */
  method Insert(geo: Geometry, s: State, p: Vertex) returns (r: Result<State, Error>)
    requires Valid(s)
    ensures r.Failure? <==> FirstContaining(geo, s.cells, s.live, p).None?
    ensures r.Failure? ==> r.error == NoContainingCell
    ensures r.Success? ==> Inserted(geo, s, p, r.value)
  {
    match FirstContaining(geo, s.cells, s.live, p)
    case None =>
      r := Failure(NoContainingCell);
    case Some(i) =>
      var n := s.live[i];
      var o := Split(s.cells, s.next, n, p);
      RemoveDistinct(s.live, n);
      var kept := Remove(s.live, n);
      Relive(s, o.cells, 4, kept, s.stack + o.faces);
      r := Success(State(o.cells, s.next + 4, kept + o.born, s.stack + o.faces));
  }

  /** What `Split(p)` leaves: the first live cell containing `p` is out of the
      live list, its four children `next` to `next + 3` are appended, each the
      point with one face of the old tetrahedron, and those four faces are
      pushed. The invariant holds and the arena only grows. */
  predicate Inserted(geo: Geometry, s: State, p: Vertex, u: State) {
    && Valid(s)
    && FirstContaining(geo, s.cells, s.live, p).Some?
    && var n := s.live[FirstContaining(geo, s.cells, s.live, p).value];
       && Valid(u)
       && Grows(s.cells, u.cells)
       && u.next == s.next + 4
       && u.live == Remove(s.live, n) + Span(s.next, 4)
       && |u.live| == |s.live| + 3
       && u.stack == s.stack + SplitFaces(s.cells[n].tet)
       && forall i :: 0 <= i < 4 ==>
            && Span(s.next, 4)[i] in u.cells
            && u.cells[Span(s.next, 4)[i]].tet.Verts() == {p} + SplitFaces(s.cells[n].tet)[i].Verts()
  }

  // ------------------------------------------------------------- Leagalize

  /** What one turn of the legalize loop does with the face it pops. */
  datatype Plan =
    | Drop
    | Do23(n1: CellId, n2: CellId, p1: Vertex, p2: Vertex)
    | Do32(n1: CellId, n2: CellId, n3: CellId, p1: Vertex, far: Vertex, p2: Vertex, x: Vertex, y: Vertex)

  /** The far-vertex choice: the first corner of `t`, tried in the order a, b,
      c, for which the segment from the crossing point to it crosses the
      opposite edge. */
  function FarVertex(geo: Geometry, t: Tri, sg: Seg): (r: Option<Vertex>)
    ensures r.Some? ==> r.value in t.Verts()
    ensures geo.beyond(t, sg, t.a, Seg(t.b, t.c)) ==> r == Some(t.a)
    ensures !geo.beyond(t, sg, t.a, Seg(t.b, t.c)) && geo.beyond(t, sg, t.b, Seg(t.c, t.a)) ==> r == Some(t.b)
    ensures (!geo.beyond(t, sg, t.a, Seg(t.b, t.c)) && !geo.beyond(t, sg, t.b, Seg(t.c, t.a))
             && geo.beyond(t, sg, t.c, Seg(t.a, t.b))) ==> r == Some(t.c)
    ensures r.None? <==> && !geo.beyond(t, sg, t.a, Seg(t.b, t.c))
                         && !geo.beyond(t, sg, t.b, Seg(t.c, t.a))
                         && !geo.beyond(t, sg, t.c, Seg(t.a, t.b))
  {
    if geo.beyond(t, sg, t.a, Seg(t.b, t.c)) then Some(t.a)
    else if geo.beyond(t, sg, t.b, Seg(t.c, t.a)) then Some(t.b)
    else if geo.beyond(t, sg, t.c, Seg(t.a, t.b)) then Some(t.c)
    else None
  }

  /** The decision part of one turn of `Leagalize` for the popped face `t`. */
  function Classify(geo: Geometry, cells: Arena, live: seq<CellId>, t: Tri): (r: Result<Plan, Error>)
    requires forall i :: 0 <= i < |live| ==> live[i] in cells
    ensures |Owners(cells, live, t)| != 2 ==> r == Success(Drop)
    ensures r.Success? && r.value.Do23? ==>
              var pl := r.value;
              && Owners(cells, live, t) == [pl.n1, pl.n2]
              && HasFacetAt(cells, pl.n1, t) && HasFacetAt(cells, pl.n2, t)
              && cells[pl.n1].tet.RemainingPoint(t) == Some(pl.p1)
              && cells[pl.n2].tet.RemainingPoint(t) == Some(pl.p2)
              && geo.inSphere(cells[pl.n1].tet, pl.p2)
              && geo.intersects(t, Seg(pl.p1, pl.p2))
    ensures r.Success? && r.value.Do32? ==>
              var pl := r.value;
              && Owners(cells, live, t) == [pl.n1, pl.n2]
              && HasFacetAt(cells, pl.n1, t) && HasFacetAt(cells, pl.n2, t)
              && cells[pl.n1].tet.RemainingPoint(t) == Some(pl.p1)
              && cells[pl.n2].tet.RemainingPoint(t) == Some(pl.p2)
              && geo.inSphere(cells[pl.n1].tet, pl.p2)
              && !geo.intersects(t, Seg(pl.p1, pl.p2)) && !geo.onEdge(t, Seg(pl.p1, pl.p2))
              && FarVertex(geo, t, Seg(pl.p1, pl.p2)) == Some(pl.far)
              && t.Verts() == {pl.far, pl.x, pl.y}
              && FacingNode(cells, pl.n1, Tri(pl.x, pl.y, pl.p1)) == Some(pl.n3)
              && cells[pl.n3].tet.RemainingPoint(Tri(pl.x, pl.y, pl.p1)) == Some(pl.p2)
    ensures r.Failure? ==> |Owners(cells, live, t)| == 2
    ensures r == Failure(NoRemainingPoint) <==>
              && |Owners(cells, live, t)| == 2
              && (|| cells[Owners(cells, live, t)[0]].tet.RemainingPoint(t).None?
                  || cells[Owners(cells, live, t)[1]].tet.RemainingPoint(t).None?)
    ensures r == Failure(NoFarVertex) ==>
              var p1 := cells[Owners(cells, live, t)[0]].tet.RemainingPoint(t).value;
              var p2 := cells[Owners(cells, live, t)[1]].tet.RemainingPoint(t).value;
              FarVertex(geo, t, Seg(p1, p2)).None?
    ensures r.Failure? ==> r.error != NoContainingCell && r.error != OutOfFuel
    ensures Decided(cells, live, t) ==>
              var o := Owners(cells, live, t);
              var p1 := cells[o[0]].tet.RemainingPoint(t).value;
              var p2 := cells[o[1]].tet.RemainingPoint(t).value;
              && (!geo.inSphere(cells[o[0]].tet, p2) ==> r == Success(Drop))
              && (geo.inSphere(cells[o[0]].tet, p2) && geo.intersects(t, Seg(p1, p2))
                  ==> r == Success(Do23(o[0], o[1], p1, p2)))
              && (geo.inSphere(cells[o[0]].tet, p2) && !geo.intersects(t, Seg(p1, p2)) && geo.onEdge(t, Seg(p1, p2))
                  ==> r == Success(Drop))
              && (geo.inSphere(cells[o[0]].tet, p2) && !geo.intersects(t, Seg(p1, p2)) && !geo.onEdge(t, Seg(p1, p2))
                  ==> ThirdCase(geo, cells, t, o[0], o[1], p1, p2, r))
  {
    var owners := Owners(cells, live, t);
    if |owners| != 2 then Success(Drop)
    else
      var n1, n2 := owners[0], owners[1];
      assert n1 in owners && n2 in owners;
      var q1, q2 := cells[n1].tet.RemainingPoint(t), cells[n2].tet.RemainingPoint(t);
      if q1.None? || q2.None? then Failure(NoRemainingPoint)
      else
        var p1, p2 := q1.value, q2.value;
        if !geo.inSphere(cells[n1].tet, p2) then Success(Drop)
        else if geo.intersects(t, Seg(p1, p2)) then Success(Do23(n1, n2, p1, p2))
        else if geo.onEdge(t, Seg(p1, p2)) then Success(Drop)
        else
          match FarVertex(geo, t, Seg(p1, p2))
          case None => Failure(NoFarVertex)
          case Some(far) =>
            var cm := t.Remaining(far).value;
            var t3 := Tri(cm.a, cm.b, p1);
            match FacingNode(cells, n1, t3)
            case None => Failure(MissingThirdCell)
            case Some(n3) =>
              if cells[n3].tet.RemainingPoint(t3) != Some(p2) then Success(Drop)
              else Success(Do32(n1, n2, n3, p1, far, p2, cm.a, cm.b))
  }

  /** The face is owned by exactly two live cells, each with a corner off it. */
  predicate Decided(cells: Arena, live: seq<CellId>, t: Tri)
    requires forall i :: 0 <= i < |live| ==> live[i] in cells
  {
    var o := Owners(cells, live, t);
    && |o| == 2
    && (assert o[0] in o && o[1] in o; cells[o[0]].tet.RemainingPoint(t).Some? && cells[o[1]].tet.RemainingPoint(t).Some?)
  }

  /** The far-vertex branch of `Leagalize` (lines 161-176): no far vertex throws, a
      missing third cell is dereferenced, a third cell whose apex is not `p2` is
      skipped, and otherwise the 3-2 flip is planned over the edge opposite `far`. */
  predicate ThirdCase(geo: Geometry, cells: Arena, t: Tri, n1: CellId, n2: CellId, p1: Vertex, p2: Vertex,
                      r: Result<Plan, Error>)
    requires n1 in cells
  {
    match FarVertex(geo, t, Seg(p1, p2))
    case None => r == Failure(NoFarVertex)
    case Some(far) =>
      var cm := t.Remaining(far).value;
      var t3 := Tri(cm.a, cm.b, p1);
      match FacingNode(cells, n1, t3)
      case None => r == Failure(MissingThirdCell)
      case Some(n3) =>
        if cells[n3].tet.RemainingPoint(t3) == Some(p2) then r == Success(Do32(n1, n2, n3, p1, far, p2, cm.a, cm.b))
        else r == Success(Drop)
  }

  /** The face on top of the stack. */
  function Top(s: State): Tri
    requires |s.stack| > 0
  {
    s.stack[|s.stack| - 1]
  }

  /** The stack with its top popped. */
  function Popped(s: State): seq<Tri>
    requires |s.stack| > 0
  {
    s.stack[..|s.stack| - 1]
  }

  /** One turn of the `Leagalize` loop: pop the top face and carry out the
      plan `Classify` makes for it. A dropped face leaves everything else as
      it was; a 2-3 flip retires the two owners for three new cells (one more
      live cell) and a 3-2 flip retires three cells for two (one fewer when the
      third cell is live and differs from the owners); either pushes the six
      faces it hands back, and the new cells are the flip's tetrahedra. */
  method Step(geo: Geometry, s: State) returns (r: Result<State, Error>)
    requires Valid(s) && |s.stack| > 0
    ensures r.Failure? <==> Classify(geo, s.cells, s.live, Top(s)).Failure?
    ensures r.Failure? ==> r.error == Classify(geo, s.cells, s.live, Top(s)).error
    ensures r.Success? ==> Valid(r.value) && Grows(s.cells, r.value.cells)
    ensures Classify(geo, s.cells, s.live, Top(s)) == Success(Drop) ==> r == Success(s.(stack := Popped(s)))
    ensures Classify(geo, s.cells, s.live, Top(s)).Success? && Classify(geo, s.cells, s.live, Top(s)).value.Do23? ==>
              r.Success? && Flipped23(s, Classify(geo, s.cells, s.live, Top(s)).value, r.value)
    ensures Classify(geo, s.cells, s.live, Top(s)).Success? && Classify(geo, s.cells, s.live, Top(s)).value.Do32? ==>
              r.Success? && Flipped32(s, Classify(geo, s.cells, s.live, Top(s)).value, r.value)
  {
    var t := Top(s);
    match Classify(geo, s.cells, s.live, t)
    case Failure(e) =>
      r := Failure(e);
    case Success(Drop) =>
      r := Success(s.(stack := Popped(s)));
    case Success(Do23(n1, n2, p1, p2)) =>
      var u := Turn23(s, Do23(n1, n2, p1, p2));
      r := Success(u);
    case Success(Do32(n1, n2, n3, p1, far, p2, x, y)) =>
      assert n3 in s.cells;
      var u := Turn32(s, Do32(n1, n2, n3, p1, far, p2, x, y));
      r := Success(u);
  }

  /** What a 2-3 turn leaves: three fresh cells, edge `i` of the popped face
      joined with both apexes, in place of the two owners, and the six faces of
      the flip pushed. */
  predicate Flipped23(s: State, pl: Plan, u: State)
    requires |s.stack| > 0 && pl.Do23?
  {
    && u.next == s.next + 3
    && u.live == Remove(Remove(s.live, pl.n1), pl.n2) + Span(s.next, 3)
    && |u.live| == |s.live| + 1
    && u.stack == Popped(s) + Flip23Faces(Top(s), pl.p1, pl.p2)
    && BornAs(u.cells, s.next, Top(s).Edges(), {pl.p1, pl.p2})
  }

  /** The cells `next`, `next + 1`, ... are present, and cell `next + i` spans
      `sides[i]` together with `extra`. */
  predicate BornAs(g: Arena, next: nat, sides: seq<set<Vertex>>, extra: set<Vertex>)
  {
    forall i :: 0 <= i < |sides| ==> BornAt(g, next + i, sides[i] + extra)
  }

  /** Cell `k` is present and spans `corners`. */
  predicate BornAt(g: Arena, k: CellId, corners: set<Vertex>) {
    k in g && g[k].tet.Verts() == corners
  }

  /** What a 3-2 turn leaves: the two fresh cells p1-far-p2 joined with `x` and
      with `y`, in place of the three old cells, and the six faces pushed. */
  predicate Flipped32(s: State, pl: Plan, u: State)
    requires |s.stack| > 0 && pl.Do32?
  {
    && u.next == s.next + 2
    && u.live == Remove(Remove(Remove(s.live, pl.n1), pl.n2), pl.n3) + Span(s.next, 2)
    && |s.live| - 1 <= |u.live| <= |s.live|
    && (pl.n3 in s.live && pl.n3 != pl.n1 && pl.n3 != pl.n2 ==> |u.live| == |s.live| - 1)
    && u.stack == Popped(s) + Flip32Faces(pl.p1, pl.far, pl.p2, pl.x, pl.y)
    && s.next in u.cells && u.cells[s.next].tet.Verts() == {pl.p1, pl.far, pl.p2, pl.x}
    && s.next + 1 in u.cells && u.cells[s.next + 1].tet.Verts() == {pl.p1, pl.far, pl.p2, pl.y}
  }

  /** The 2-3 branch of a turn, for owners `n1` and `n2` of the top face. */
  method Turn23(s: State, pl: Plan) returns (u: State)
    requires Valid(s) && |s.stack| > 0 && pl.Do23?
    requires Owners(s.cells, s.live, Top(s)) == [pl.n1, pl.n2]
    ensures Valid(u) && Grows(s.cells, u.cells)
    ensures Flipped23(s, pl, u)
  {
    OwnedTwice(s, pl.n1, pl.n2);
    var o := Flip23(s.cells, s.next, pl.n1, pl.n2, pl.p1, pl.p2, Top(s));
    RemoveDistinct(s.live, pl.n1);
    RemoveDistinct(Remove(s.live, pl.n1), pl.n2);
    var kept := Remove(Remove(s.live, pl.n1), pl.n2);
    assert |kept| == |s.live| - 2;
    Relive(s, o.cells, 3, kept, Popped(s) + o.faces);
    u := State(o.cells, s.next + 3, kept + o.born, Popped(s) + o.faces);
    assert |u.live| == |s.live| + 1;
    assert forall i :: 0 <= i < 3 ==> o.born[i] in o.cells;
    BornTets(s.next, 3, o.born, o.cells, Top(s).Edges(), {pl.p1, pl.p2});
  }

  /** The tetrahedra a move reports for its born cells, restated by id. */
  lemma BornTets(next: nat, n: nat, born: seq<CellId>, g: Arena, sides: seq<set<Vertex>>, extra: set<Vertex>)
    requires born == Span(next, n) && |sides| == n
    requires forall i :: 0 <= i < n ==> born[i] in g && g[born[i]].tet.Verts() == sides[i] + extra
    ensures BornAs(g, next, sides, extra)
  {
    forall i | 0 <= i < n
      ensures BornAt(g, next + i, sides[i] + extra)
    {
      assert born[i] == next + i;
    }
  }

  /** The 3-2 branch of a turn, for owners `n1` and `n2` and the third cell `n3`. */
  method Turn32(s: State, pl: Plan) returns (u: State)
    requires Valid(s) && |s.stack| > 0 && pl.Do32?
    requires Owners(s.cells, s.live, Top(s)) == [pl.n1, pl.n2] && pl.n3 in s.cells
    ensures Valid(u) && Grows(s.cells, u.cells)
    ensures Flipped32(s, pl, u)
  {
    OwnedTwice(s, pl.n1, pl.n2);
    var o := Flip32(s.cells, s.next, pl.n1, pl.n2, pl.n3, pl.p1, pl.far, pl.p2, pl.x, pl.y);
    RemoveDistinct(s.live, pl.n1);
    RemoveDistinct(Remove(s.live, pl.n1), pl.n2);
    RemoveDistinct(Remove(Remove(s.live, pl.n1), pl.n2), pl.n3);
    var kept := Remove(Remove(Remove(s.live, pl.n1), pl.n2), pl.n3);
    Relive(s, o.cells, 2, kept, Popped(s) + o.faces);
    u := State(o.cells, s.next + 2, kept + o.born, Popped(s) + o.faces);
  }

  /** The two owners of the top face are different live cells, and the second
      survives removing the first. */
  lemma OwnedTwice(s: State, n1: CellId, n2: CellId)
    requires Valid(s) && |s.stack| > 0
    requires Owners(s.cells, s.live, Top(s)) == [n1, n2]
    ensures n1 in s.live && n2 in s.live && n1 != n2 && n1 in s.cells && n2 in s.cells
    ensures n2 in Remove(s.live, n1)
  {
    var own := Owners(s.cells, s.live, Top(s));
    assert own[0] == n1 && own[1] == n2;
    assert n1 in own && n2 in own;
    RemoveDistinct(s.live, n1);
  }

  /** Every face on the stack is owned by other than exactly two live cells,
      so each turn of the loop drops it. */
  predicate Boundary(s: State)
    requires Valid(s)
  {
    forall i :: 0 <= i < |s.stack| ==> |Owners(s.cells, s.live, s.stack[i])| != 2
  }

  /** `u` is what one successful turn leaves from `s`: the plan for the top
      face is made, a drop only pops, and a flip leaves what `Flipped23` or
      `Flipped32` describes. */
  predicate Turned(geo: Geometry, s: State, u: State) {
    && Valid(s) && |s.stack| > 0 && Valid(u) && Grows(s.cells, u.cells)
    && var plan := Classify(geo, s.cells, s.live, Top(s));
       && plan.Success?
       && match plan.value
          case Drop => u == s.(stack := Popped(s))
          case Do23(_, _, _, _) => Flipped23(s, plan.value, u)
          case Do32(_, _, _, _, _, _, _, _) => Flipped32(s, plan.value, u)
  }

  /** Each state of `trace` is one turn on from the one before it. */
  predicate Chain(geo: Geometry, trace: seq<State>) {
    forall k {:trigger Turned(geo, trace[k], trace[k + 1])} :: 0 <= k < |trace| - 1 ==> Turned(geo, trace[k], trace[k + 1])
  }

  /** In a chain, state `k + 1` is one turn on from state `k`. */
  lemma ChainAt(geo: Geometry, trace: seq<State>, k: nat)
    requires Chain(geo, trace) && k + 1 < |trace|
    ensures Turned(geo, trace[k], trace[k + 1])
  {
  }

  /** Where the loop stops without success: a face is left on the stack, and
      either the fuel is spent or the plan for that face is the error. */
  predicate Stuck(geo: Geometry, s: State, e: Error) {
    && Valid(s) && |s.stack| > 0
    && (e == OutOfFuel || Classify(geo, s.cells, s.live, Top(s)) == Failure(e))
  }

  /** A chain extended by one more turn from its last state is a chain. */
  lemma ChainExtend(geo: Geometry, trace: seq<State>, c: State, u: State)
    requires |trace| > 0 && trace[|trace| - 1] == c && Chain(geo, trace) && Turned(geo, c, u)
    ensures Chain(geo, trace + [u])
  {
    var t := trace + [u];
    forall k | 0 <= k < |t| - 1
      ensures Turned(geo, t[k], t[k + 1])
    {
      if k < |trace| - 1 {
        assert t[k] == trace[k] && t[k + 1] == trace[k + 1];
      } else {
        assert t[k] == c && t[k + 1] == u;
      }
    }
  }

  /** One turn of `Step` with its flips counted: `d23` and `d32` say which
      flip, if any, the plan for the top face carried out. */
  method Tally(geo: Geometry, s: State) returns (r: Result<State, Error>, d23: nat, d32: nat)
    requires Valid(s) && |s.stack| > 0
    ensures r.Failure? <==> Classify(geo, s.cells, s.live, Top(s)).Failure?
    ensures r.Failure? ==> r.error == Classify(geo, s.cells, s.live, Top(s)).error
    ensures r.Success? ==> Valid(r.value) && Grows(s.cells, r.value.cells)
    ensures r.Success? ==> Turned(geo, s, r.value)
    ensures r.Success? ==> |r.value.stack| + 1 == |s.stack| + 6 * (d23 + d32)
    ensures r.Success? ==> r.value.next == s.next + 3 * d23 + 2 * d32
    ensures r.Success? ==> |s.live| + d23 - d32 <= |r.value.live| <= |s.live| + d23
    ensures Classify(geo, s.cells, s.live, Top(s)) == Success(Drop) ==>
              r == Success(s.(stack := Popped(s))) && d23 == 0 && d32 == 0
    ensures Classify(geo, s.cells, s.live, Top(s)).Success? ==>
              && d23 == (if Classify(geo, s.cells, s.live, Top(s)).value.Do23? then 1 else 0)
              && d32 == (if Classify(geo, s.cells, s.live, Top(s)).value.Do32? then 1 else 0)
  {
    var plan := Classify(geo, s.cells, s.live, Top(s));
    r := Step(geo, s);
    d23 := if plan.Success? && plan.value.Do23? then 1 else 0;
    d32 := if plan.Success? && plan.value.Do32? then 1 else 0;
  }

  /** `Leagalize`: turns of `Step` until the stack is empty, at most `fuel` of
      them; `turns` counts the turns and `flips23` and `flips32` the flips among
      them. `trace` is the states the loop passes through, from `s` on, each one
      turn on from the one before. On success the last of them is the result,
      its stack empty; on failure a face is left on the last one's stack and the
      error is either the spent fuel or the plan for that face. Every turn pops
      one face and every flip pushes six, so on success the turns are the faces
      first on the stack plus six per flip; a 2-3 flip adds three ids and one
      live cell, a 3-2 flip two ids and at most one live cell fewer. With
      nothing to do it changes nothing, and when every face on the stack is a
      boundary face it just empties the stack without a flip. */
  method Legalize(geo: Geometry, s: State, fuel: nat)
    returns (r: Result<State, Error>, turns: nat, flips23: nat, flips32: nat, trace: seq<State>)
    requires Valid(s)
    ensures turns <= fuel
    ensures |trace| == turns + 1 && trace[0] == s && Valid(trace[|trace| - 1]) && Chain(geo, trace)
    ensures r.Success? ==> r.value == trace[|trace| - 1]
    ensures r.Failure? ==> Stuck(geo, trace[|trace| - 1], r.error)
    ensures r == Failure(OutOfFuel) ==> turns == fuel
    ensures r.Success? ==> Valid(r.value) && r.value.stack == [] && Grows(s.cells, r.value.cells)
    ensures r.Success? ==> turns == |s.stack| + 6 * (flips23 + flips32)
    ensures r.Success? ==> r.value.next == s.next + 3 * flips23 + 2 * flips32
    ensures r.Success? ==> |s.live| + flips23 - flips32 <= |r.value.live| <= |s.live| + flips23
    ensures s.stack == [] ==> r == Success(s) && turns == 0
    ensures Boundary(s) && |s.stack| <= fuel ==>
              r == Success(s.(stack := [])) && turns == |s.stack| && flips23 == 0 && flips32 == 0
    ensures fuel > 0 && |s.stack| > 0 && Classify(geo, s.cells, s.live, Top(s)).Failure? ==>
              r == Failure(Classify(geo, s.cells, s.live, Top(s)).error) && turns == 0
    ensures r.Success? && |s.stack| > 0 && Classify(geo, s.cells, s.live, Top(s)).Success? ==>
              && (Classify(geo, s.cells, s.live, Top(s)).value.Do23? ==> flips23 > 0)
              && (Classify(geo, s.cells, s.live, Top(s)).value.Do32? ==> flips32 > 0)
  {
    r, turns, flips23, flips32, trace := Drain(geo, s, fuel);
    Settled(geo, s, fuel, r, turns, flips23, flips32, trace);
  }

  /** The loop of `Leagalize`, turn by turn: the trace, the counts and the
      first plan's flip. */
  method Drain(geo: Geometry, s: State, fuel: nat)
    returns (r: Result<State, Error>, turns: nat, flips23: nat, flips32: nat, trace: seq<State>)
    requires Valid(s)
    ensures turns <= fuel
    ensures |trace| == turns + 1 && trace[0] == s && Valid(trace[|trace| - 1]) && Chain(geo, trace)
    ensures r.Success? ==> r.value == trace[|trace| - 1]
    ensures r.Failure? ==> Stuck(geo, trace[|trace| - 1], r.error)
    ensures r == Failure(OutOfFuel) ==> turns == fuel
    ensures r.Success? ==> Valid(r.value) && r.value.stack == [] && Grows(s.cells, r.value.cells)
    ensures r.Success? ==> turns == |s.stack| + 6 * (flips23 + flips32)
    ensures r.Success? ==> r.value.next == s.next + 3 * flips23 + 2 * flips32
    ensures r.Success? ==> |s.live| + flips23 - flips32 <= |r.value.live| <= |s.live| + flips23
    ensures r.Success? && |s.stack| > 0 && Classify(geo, s.cells, s.live, Top(s)).Success? ==>
              && (Classify(geo, s.cells, s.live, Top(s)).value.Do23? ==> flips23 > 0)
              && (Classify(geo, s.cells, s.live, Top(s)).value.Do32? ==> flips32 > 0)
  {
    var cur := s;
    var f := fuel;
    var g23: nat, g32: nat := 0, 0;
    turns, flips23, flips32 := 0, 0, 0;
    trace := [s];
    var stop: Option<Error> := None;
    while |cur.stack| > 0
      invariant Valid(cur) && Grows(s.cells, cur.cells)
      invariant |trace| == turns + 1 && trace[0] == s && trace[turns] == cur && Chain(geo, trace)
      invariant turns + f == fuel
      invariant turns + |cur.stack| == |s.stack| + 6 * (flips23 + flips32)
      invariant cur.next == s.next + 3 * flips23 + 2 * flips32
      invariant |s.live| + flips23 - flips32 <= |cur.live| <= |s.live| + flips23
      invariant turns == 0 ==> flips23 == 0 && flips32 == 0
      invariant turns > 0 ==> |s.stack| > 0 && Counted(geo, s, g23, g32) && g23 <= flips23 && g32 <= flips32
      invariant stop.None?
      decreases f
    {
      if f == 0 {
        stop := Some(OutOfFuel);
        break;
      }
      var st, d23, d32, longer := Advance(geo, cur, trace);
      if st.Failure? {
        stop := Some(st.error);
        break;
      }
      if turns == 0 {
        g23, g32 := d23, d32;
      }
      trace := longer;
      flips23, flips32 := flips23 + d23, flips32 + d32;
      cur := st.value;
      f := f - 1;
      turns := turns + 1;
    }
    assert trace[|trace| - 1] == cur;
    r := if stop.Some? then Failure(stop.value) else Success(cur);
    if r.Success? && |s.stack| > 0 {
      assert turns > 0;
    }
  }

  /** The flips counted for a turn from `s` are those of the plan for its top
      face. */
  predicate Counted(geo: Geometry, s: State, d23: nat, d32: nat)
    requires Valid(s) && |s.stack| > 0
  {
    var plan := Classify(geo, s.cells, s.live, Top(s));
    plan.Success? ==> d23 == (if plan.value.Do23? then 1 else 0) && d32 == (if plan.value.Do32? then 1 else 0)
  }

  /** One turn of the loop on the last state of `trace`, the trace extended
      by the state it leaves. */
  method Advance(geo: Geometry, cur: State, trace: seq<State>)
    returns (r: Result<State, Error>, d23: nat, d32: nat, longer: seq<State>)
    requires Valid(cur) && |cur.stack| > 0 && |trace| > 0 && trace[|trace| - 1] == cur && Chain(geo, trace)
    ensures r.Failure? ==> Stuck(geo, cur, r.error) && r.error != OutOfFuel
    ensures r.Success? ==> longer == trace + [r.value] && Chain(geo, longer)
    ensures r.Success? ==> Valid(r.value) && Grows(cur.cells, r.value.cells)
    ensures r.Success? ==> |r.value.stack| + 1 == |cur.stack| + 6 * (d23 + d32)
    ensures r.Success? ==> r.value.next == cur.next + 3 * d23 + 2 * d32
    ensures r.Success? ==> |cur.live| + d23 - d32 <= |r.value.live| <= |cur.live| + d23
    ensures r.Success? ==> Counted(geo, cur, d23, d32)
  {
    r, d23, d32 := Tally(geo, cur);
    longer := trace;
    if r.Success? {
      ChainExtend(geo, trace, cur, r.value);
      longer := trace + [r.value];
    }
  }

  /** What the trace of the legalize loop settles in the special cases: an
      empty stack takes no turn; a stack of boundary faces, given fuel enough,
      is popped face by face without a flip; and a first plan that is an error
      ends the loop at once with that error. */
  lemma Settled(geo: Geometry, s: State, fuel: nat, r: Result<State, Error>, turns: nat, flips23: nat, flips32: nat,
                trace: seq<State>)
    requires Valid(s) && turns <= fuel
    requires |trace| == turns + 1 && trace[0] == s && Valid(trace[|trace| - 1]) && Chain(geo, trace)
    requires r.Success? ==> r.value == trace[|trace| - 1] && r.value.stack == []
    requires r.Failure? ==> Stuck(geo, trace[|trace| - 1], r.error)
    requires r == Failure(OutOfFuel) ==> turns == fuel
    requires r.Success? ==> turns == |s.stack| + 6 * (flips23 + flips32)
    ensures s.stack == [] ==> r == Success(s) && turns == 0
    ensures Boundary(s) && |s.stack| <= fuel ==>
              r == Success(s.(stack := [])) && turns == |s.stack| && flips23 == 0 && flips32 == 0
    ensures fuel > 0 && |s.stack| > 0 && Classify(geo, s.cells, s.live, Top(s)).Failure? ==>
              r == Failure(Classify(geo, s.cells, s.live, Top(s)).error) && turns == 0
  {
    if turns > 0 {
      ChainAt(geo, trace, 0);
    }
    if Boundary(s) && |s.stack| <= fuel {
      BoundaryChain(geo, s, trace, turns);
    }
  }

  /** From a state whose stack holds only boundary faces, the `k`-th state of
      a chain has popped `k` faces and changed nothing else. */
  lemma {:induction false} BoundaryChain(geo: Geometry, s: State, trace: seq<State>, k: nat)
    requires Valid(s) && Boundary(s) && Chain(geo, trace) && |trace| > 0 && trace[0] == s && k < |trace|
    ensures k <= |s.stack| && trace[k] == s.(stack := s.stack[..|s.stack| - k])
  {
    if k > 0 {
      BoundaryChain(geo, s, trace, k - 1);
      ChainAt(geo, trace, k - 1);
      BoundaryTurn(geo, s, trace[k - 1], trace[k], k);
    }
  }

  /** A turn from a state that has popped `k - 1` boundary faces pops one more. */
  lemma BoundaryTurn(geo: Geometry, s: State, c: State, u: State, k: nat)
    requires Valid(s) && Boundary(s) && 0 < k && k - 1 <= |s.stack|
    requires c == s.(stack := s.stack[..|s.stack| - (k - 1)]) && Turned(geo, c, u)
    ensures k <= |s.stack| && u == s.(stack := s.stack[..|s.stack| - k])
  {
    BoundaryDrop(geo, s, c, |s.stack| - (k - 1));
    assert Popped(c) == s.stack[..|s.stack| - k];
  }

  /** With only boundary faces on the stack, a state that has popped some of
      them but not all plans to drop the face on top. */
  lemma BoundaryDrop(geo: Geometry, s: State, c: State, m: nat)
    requires Valid(s) && Boundary(s) && 0 < m <= |s.stack| && c == s.(stack := s.stack[..m])
    ensures Classify(geo, c.cells, c.live, Top(c)) == Success(Drop)
  {
    assert Top(c) == s.stack[m - 1];
  }

  // ----------------------------------------------------------- constructor

  /** One turn of the constructor loop: `Split(p)` and then `Leagalize()`.
      `run` is the states the turn passes through: the state `Split` leaves
      first, then each turn of the legalize loop. On success the last of them is
      the result, with an empty stack; the ids advance by the four children
      plus three per 2-3 flip and two per 3-2 flip. A point no live cell
      contains is an error, and any other error is where legalizing stopped,
      an `OutOfFuel` stop only once the fuel is spent.
      Inserting a point strictly inside the root, off its corners, into the
      initial state leaves exactly the four children of the root live: each
      face of the root bounds only one of them, so legalizing drops all four. */
  method Add(geo: Geometry, s: State, p: Vertex, fuel: nat)
    returns (r: Result<State, Error>, run: seq<State>, flips23: nat, flips32: nat)
    requires Valid(s)
    ensures r.Success? ==> Added(geo, s, p, run, r.value)
    ensures r.Success? ==> Valid(r.value) && r.value.stack == [] && Grows(s.cells, r.value.cells)
    ensures r.Success? ==> r.value.next == s.next + 4 + 3 * flips23 + 2 * flips32
    ensures FirstContaining(geo, s.cells, s.live, p).None? ==> r == Failure(NoContainingCell)
    ensures r.Failure? ==> AddFailed(geo, s, p, fuel, run, r.error)
    ensures s == Initial() && geo.contains(Root, p) && p !in Root.Verts() && fuel >= 4 ==>
              && r.Success? && r.value.live == [1, 2, 3, 4]
              && forall i :: 0 <= i < 4 ==>
                   && Span(1, 4)[i] in r.value.cells
                   && r.value.cells[Span(1, 4)[i]].tet.Verts() == {p} + SplitFaces(Root)[i].Verts()
  {
    var ins := Insert(geo, s, p);
    if ins.Failure? {
      return Failure(ins.error), [], 0, 0;
    }
    r, run, flips23, flips32 := Settle(geo, s, p, ins.value, fuel);
    if s == Initial() && geo.contains(Root, p) && p !in Root.Verts() && fuel >= 4 {
      FirstAdd(geo, p, ins.value, fuel, r);
    }
  }

  /** The first turn of the constructor loop for a point strictly inside the
      root, off its corners, leaves the root's four children live. */
  lemma FirstAdd(geo: Geometry, p: Vertex, u: State, fuel: nat, r: Result<State, Error>)
    requires Inserted(geo, Initial(), p, u) && geo.contains(Root, p) && p !in Root.Verts() && fuel >= 4
    requires Boundary(u) && |u.stack| <= fuel ==> r == Success(u.(stack := []))
    ensures r.Success? && r.value.live == [1, 2, 3, 4]
    ensures forall i :: 0 <= i < 4 ==>
              && Span(1, 4)[i] in r.value.cells
              && r.value.cells[Span(1, 4)[i]].tet.Verts() == {p} + SplitFaces(Root)[i].Verts()
  {
    FirstInsert(geo, p, u);
  }

  /** `Leagalize()` after `Split(p)`: legalizing from the state `u` the
      insertion left, as a turn of the constructor loop from `s`. When only
      boundary faces are on the stack and the fuel suffices, it just empties
      the stack. */
  method Settle(geo: Geometry, s: State, p: Vertex, u: State, fuel: nat)
    returns (r: Result<State, Error>, run: seq<State>, flips23: nat, flips32: nat)
    requires Inserted(geo, s, p, u)
    ensures r.Success? ==> Added(geo, s, p, run, r.value)
    ensures r.Success? ==> Grows(s.cells, r.value.cells) && r.value.next == s.next + 4 + 3 * flips23 + 2 * flips32
    ensures r.Failure? ==> AddFailed(geo, s, p, fuel, run, r.error)
    ensures Boundary(u) && |u.stack| <= fuel ==> r == Success(u.(stack := []))
  {
    var turns;
    r, turns, flips23, flips32, run := Legalize(geo, u, fuel);
    AddOutcome(geo, s, p, fuel, r, turns, run);
  }

  /** The legalize loop run after an insertion is a turn of the constructor
      loop: a run to an empty stack on success, a failed turn otherwise. */
  lemma AddOutcome(geo: Geometry, s: State, p: Vertex, fuel: nat, r: Result<State, Error>,
                   turns: nat, trace: seq<State>)
    requires |trace| == turns + 1 && Inserted(geo, s, p, trace[0]) && Chain(geo, trace)
    requires Valid(trace[|trace| - 1])
    requires r.Success? ==> r.value == trace[|trace| - 1] && r.value.stack == []
    requires r.Failure? ==> Stuck(geo, trace[|trace| - 1], r.error)
    requires r == Failure(OutOfFuel) ==> turns == fuel
    ensures r.Success? ==> AddRun(geo, s, p, trace)
    ensures r.Failure? ==> AddFailed(geo, s, p, fuel, trace, r.error)
  {
    if r.Failure? {
      var c := trace[|trace| - 1];
      assert r.error != NoContainingCell by {
        if r.error != OutOfFuel {
          assert Classify(geo, c.cells, c.live, Top(c)) == Failure(r.error);
        }
      }
    }
  }

  /** The first insertion of a point strictly inside the root, off its corners,
      leaves the root's four children live, each the point with one face of the
      root, and only boundary faces on the stack. */
  lemma FirstInsert(geo: Geometry, p: Vertex, u: State)
    requires Inserted(geo, Initial(), p, u) && geo.contains(Root, p) && p !in Root.Verts()
    ensures u.live == [1, 2, 3, 4] && u.stack == SplitFaces(Root) && Boundary(u)
    ensures forall i :: 0 <= i < 4 ==>
              Span(1, 4)[i] in u.cells && u.cells[Span(1, 4)[i]].tet.Verts() == {p} + SplitFaces(Root)[i].Verts()
  {
    assert FirstContaining(geo, Initial().cells, Initial().live, p) == Some(0);
    assert Remove([0], 0) == [];
    FirstSplitBoundary(u, p);
  }

  /** How one turn of the constructor loop from `s` for point `p` fails. With
      no live cell containing `p` it is `NoContainingCell` before anything
      happens. Otherwise `run` is the insertion and then the legalizing turns
      up to where the loop stopped with a face left: an `OutOfFuel` stop comes
      after exactly `fuel` turns, any other error is the plan for that face. */
  predicate AddFailed(geo: Geometry, s: State, p: Vertex, fuel: nat, run: seq<State>, e: Error) {
    && Valid(s)
    && if FirstContaining(geo, s.cells, s.live, p).None? then e == NoContainingCell && run == []
    else
      && |run| > 0 && Inserted(geo, s, p, run[0]) && Chain(geo, run)
      && Stuck(geo, run[|run| - 1], e) && e != NoContainingCell
      && (e == OutOfFuel ==> |run| == fuel + 1)
  }

  /** `run` is one turn of the constructor loop from `s` for point `p`: the
      insertion, then legalizing turns until the stack is empty. */
  predicate AddRun(geo: Geometry, s: State, p: Vertex, run: seq<State>) {
    && |run| > 0
    && Inserted(geo, s, p, run[0])
    && Chain(geo, run)
    && Valid(run[|run| - 1]) && run[|run| - 1].stack == []
  }

  /** `run` is one turn of the constructor loop from `s` for `p`, ending in `v`. */
  predicate Added(geo: Geometry, s: State, p: Vertex, run: seq<State>, v: State) {
    AddRun(geo, s, p, run) && v == run[|run| - 1]
  }

  /** `runs` are the constructor loop's turns from `s` for `points`, one run per
      point, each starting where the one before ended, and `e` is where the last
      ends. */
  predicate Sweep(geo: Geometry, s: State, points: seq<Vertex>, runs: seq<seq<State>>, e: State)
    decreases |points|
  {
    if |points| == 0 then runs == [] && e == s
    else
      && |runs| > 0
      && AddRun(geo, s, points[0], runs[0])
      && Sweep(geo, runs[0][|runs[0]| - 1], points[1..], runs[1..], e)
  }

  /** A sweep followed by one more run from its end is a sweep over one more
      point. */
  lemma {:induction false} SweepExtend(geo: Geometry, s: State, points: seq<Vertex>, runs: seq<seq<State>>,
                                       e: State, p: Vertex, run: seq<State>)
    requires Sweep(geo, s, points, runs, e) && AddRun(geo, e, p, run)
    ensures Sweep(geo, s, points + [p], runs + [run], run[|run| - 1])
    decreases |points|
  {
    if |points| == 0 {
      assert e == s && points + [p] == [p] && runs + [run] == [run];
      assert [p][0] == p && [run][0] == run && [p][1..] == [] && [run][1..] == [];
    } else {
      SweepExtend(geo, runs[0][|runs[0]| - 1], points[1..], runs[1..], e, p, run);
      assert (points + [p])[1..] == points[1..] + [p];
      assert (runs + [run])[1..] == runs[1..] + [run];
      assert (points + [p])[0] == points[0] && (runs + [run])[0] == runs[0];
    }
  }

  /** After the first insertion every face on the stack, a face of the root,
      is owned by exactly one live cell. */
  lemma FirstSplitBoundary(s: State, p: Vertex)
    requires Valid(s) && s.live == [1, 2, 3, 4] && s.stack == SplitFaces(Root) && p !in Root.Verts()
    requires forall i :: 0 <= i < 4 ==>
               Span(1, 4)[i] in s.cells && s.cells[Span(1, 4)[i]].tet.Verts() == {p} + SplitFaces(Root)[i].Verts()
    ensures Boundary(s)
  {
    forall i | 0 <= i < 4
      ensures |Owners(s.cells, s.live, s.stack[i])| != 2
    {
      var o := Owners(s.cells, s.live, s.stack[i]);
      forall j | 0 <= j < 4
        ensures HasFacetAt(s.cells, s.live[j], s.stack[i]) <==> i == j
      {
        assert s.live[j] == Span(1, 4)[j];
        SplitFacesApart(Root, p, i, j);
      }
      forall y | y in o
        ensures y == s.live[i]
      {
        var j :| 0 <= j < 4 && s.live[j] == y;
      }
      AtMostOne(o, s.live[i]);
    }
  }

  /** `new BistellarFlip3D(num)`: starting from the root alone, each point in
      turn is inserted and the stack legalized. The points stand for the
      `UR.value` draws. On success `runs` holds one run of `Add` per point, in
      order, each from where the one before ended, and the ids advance by four
      per point plus three per 2-3 flip and two per 3-2 flip. On failure point
      `k` is the one whose turn failed: `runs` are the turns of the points
      before it, ending in `last`, and `stuck` is how the turn for point `k`
      failed from there. With no points the root is the one live cell; one
      point inside the root leaves four live cells; a first point outside the
      root is an error. */
  method Build(geo: Geometry, points: seq<Vertex>, fuel: nat)
    returns (r: Result<State, Error>, runs: seq<seq<State>>, flips23: nat, flips32: nat,
             k: nat, last: State, stuck: seq<State>)
    ensures r.Success? ==> Sweep(geo, Initial(), points, runs, r.value)
    ensures r.Failure? ==>
              && k < |points| && Sweep(geo, Initial(), points[..k], runs, last)
              && Valid(last) && last.stack == [] && AddFailed(geo, last, points[k], fuel, stuck, r.error)
    ensures r.Success? ==> r.value.next == 1 + 4 * |points| + 3 * flips23 + 2 * flips32
    ensures r.Success? ==> Valid(r.value) && r.value.stack == [] && Grows(Initial().cells, r.value.cells)
    ensures points == [] ==> r == Success(Initial())
    ensures |points| > 0 && !geo.contains(Root, points[0]) ==> r == Failure(NoContainingCell)
    ensures |points| == 1 && geo.contains(Root, points[0]) && points[0] !in Root.Verts() && fuel >= 4 ==>
              r.Success? && |r.value.live| == 4
  {
    r, runs, flips23, flips32, k, last, stuck := Sow(geo, points, fuel);
    SweepCases(geo, points, fuel, r, runs, k, last, stuck);
  }

  /** The loop of the constructor: the sweep so far, and where it stopped. */
  method Sow(geo: Geometry, points: seq<Vertex>, fuel: nat)
    returns (r: Result<State, Error>, runs: seq<seq<State>>, flips23: nat, flips32: nat,
             k: nat, last: State, stuck: seq<State>)
    ensures r.Success? ==> Sweep(geo, Initial(), points, runs, r.value)
    ensures r.Failure? ==>
              && k < |points| && Sweep(geo, Initial(), points[..k], runs, last)
              && Valid(last) && last.stack == [] && AddFailed(geo, last, points[k], fuel, stuck, r.error)
    ensures r.Success? ==> r.value.next == 1 + 4 * |points| + 3 * flips23 + 2 * flips32
    ensures r.Success? ==> Valid(r.value) && r.value.stack == [] && Grows(Initial().cells, r.value.cells)
  {
    var cur := Initial();
    var stop: Option<Error> := None;
    runs, flips23, flips32, k, stuck := [], 0, 0, 0, [];
    while k < |points|
      invariant k <= |points|
      invariant Valid(cur) && cur.stack == [] && Grows(Initial().cells, cur.cells)
      invariant Sweep(geo, Initial(), points[..k], runs, cur)
      invariant cur.next == 1 + 4 * k + 3 * flips23 + 2 * flips32
      invariant stop.None?
    {
      assert points[..k + 1] == points[..k] + [points[k]];
      var step, longer, run, d23, d32 := Extend(geo, Initial(), points[..k], runs, cur, points[k], fuel);
      if step.Failure? {
        stop, stuck := Some(step.error), run;
        break;
      }
      runs := longer;
      flips23, flips32 := flips23 + d23, flips32 + d32;
      cur := step.value;
      k := k + 1;
    }
    last := cur;
    if stop.Some? {
      r := Failure(stop.value);
    } else {
      assert points[..|points|] == points;
      r := Success(cur);
    }
  }

  /** What the sweep and its stopping point say about no points, a first point
      outside the root, and a single point inside it. */
  lemma SweepCases(geo: Geometry, points: seq<Vertex>, fuel: nat, r: Result<State, Error>,
                   runs: seq<seq<State>>, k: nat, last: State, stuck: seq<State>)
    requires r.Success? ==> Sweep(geo, Initial(), points, runs, r.value)
    requires r.Failure? ==>
               && k < |points| && Sweep(geo, Initial(), points[..k], runs, last)
               && Valid(last) && last.stack == [] && AddFailed(geo, last, points[k], fuel, stuck, r.error)
    ensures points == [] ==> r == Success(Initial())
    ensures |points| > 0 && !geo.contains(Root, points[0]) ==> r == Failure(NoContainingCell)
    ensures |points| == 1 && geo.contains(Root, points[0]) && points[0] !in Root.Verts() && fuel >= 4 ==>
              r.Success? && |r.value.live| == 4
  {
    if |points| > 0 {
      var p := points[0];
      assert FirstContaining(geo, Initial().cells, Initial().live, p).None? <==> !geo.contains(Root, p);
      if r.Failure? && k > 0 {
        assert points[..k][0] == p;
      }
      if r.Failure? && k == 0 {
        assert points[..k] == [];
        if geo.contains(Root, p) && p !in Root.Verts() && fuel >= 4 {
          FirstTurns(geo, p, stuck);
        }
      }
      if r.Success? && |points| == 1 && geo.contains(Root, p) && p !in Root.Verts() {
        assert points == [p];
        SingleSweep(geo, p, runs, r.value);
      }
    }
  }

  /** While the first point's turn is still legalizing, fewer than the four
      faces of the root have been dropped and the face on top is a boundary
      face, so its plan is to drop it. */
  lemma FirstTurns(geo: Geometry, p: Vertex, trace: seq<State>)
    requires geo.contains(Root, p) && p !in Root.Verts()
    requires |trace| > 0 && Inserted(geo, Initial(), p, trace[0]) && Chain(geo, trace)
    requires Valid(trace[|trace| - 1]) && |trace[|trace| - 1].stack| > 0
    ensures |trace| <= 4
    ensures Classify(geo, trace[|trace| - 1].cells, trace[|trace| - 1].live, Top(trace[|trace| - 1])) == Success(Drop)
  {
    var u := trace[0];
    FirstInsert(geo, p, u);
    var j := |trace| - 1;
    BoundaryChain(geo, u, trace, j);
    BoundaryDrop(geo, u, trace[j], |u.stack| - j);
  }

  /** One turn of the constructor loop after a sweep: `Add` for point `p`
      from where the sweep ended, which on success extends the sweep by one
      run. */
  method Extend(geo: Geometry, s: State, points: seq<Vertex>, runs: seq<seq<State>>, cur: State,
                p: Vertex, fuel: nat)
    returns (r: Result<State, Error>, longer: seq<seq<State>>, run: seq<State>, d23: nat, d32: nat)
    requires Valid(cur) && Sweep(geo, s, points, runs, cur)
    ensures r.Success? ==> Sweep(geo, s, points + [p], longer, r.value)
    ensures r.Success? ==> Valid(r.value) && r.value.stack == [] && Grows(cur.cells, r.value.cells)
    ensures r.Success? ==> r.value.next == cur.next + 4 + 3 * d23 + 2 * d32
    ensures FirstContaining(geo, cur.cells, cur.live, p).None? ==> r == Failure(NoContainingCell)
    ensures r.Failure? ==> AddFailed(geo, cur, p, fuel, run, r.error)
    ensures cur == Initial() && geo.contains(Root, p) && p !in Root.Verts() && fuel >= 4 ==> r.Success?
  {
    r, run, d23, d32 := Add(geo, cur, p, fuel);
    longer := runs;
    if r.Success? {
      SweepExtend(geo, s, points, runs, cur, p, run);
      longer := runs + [run];
    }
  }

  /** A sweep over one point strictly inside the root, off its corners, ends
      with the root's four children live. */
  lemma SingleSweep(geo: Geometry, p: Vertex, runs: seq<seq<State>>, e: State)
    requires Sweep(geo, Initial(), [p], runs, e) && geo.contains(Root, p) && p !in Root.Verts()
    ensures e.live == [1, 2, 3, 4]
  {
    assert [p][1..] == [];
    var run := runs[0];
    FirstInsert(geo, p, run[0]);
    BoundaryChain(geo, run[0], run, |run| - 1);
  }

  /** A list without repeats whose every entry is `x` has at most one entry. */
  lemma AtMostOne(o: seq<CellId>, x: CellId)
    requires Distinct(o) && forall y :: y in o ==> y == x
    ensures |o| <= 1
  {
    FirstTwo(o);
    if |o| >= 2 {
      assert false;
    }
  }

  lemma FirstTwo(o: seq<CellId>)
    ensures |o| >= 2 ==> o[0] in o && o[1] in o
  {
  }

  // ------------------------------------------------- what the plans satisfy

  /** A 2-3 plan fits its cells: with non-degenerate owners, the owners are
      `t` plus their apexes, every face handed to `Flip23` lies on the owner
      it is spliced through, and neither owner holds the other's apex, so the
      flip's no-interference hypothesis reduces to the owners linking only
      to other cells. */
  lemma Do23Fits(geo: Geometry, cells: Arena, live: seq<CellId>, t: Tri)
    requires forall i :: 0 <= i < |live| ==> live[i] in cells
    requires Classify(geo, cells, live, t).Success? && Classify(geo, cells, live, t).value.Do23?
    requires var pl := Classify(geo, cells, live, t).value;
             NonDegenerate(cells[pl.n1].tet) && NonDegenerate(cells[pl.n2].tet) && TriNonDegenerate(t) && pl.p1 != pl.p2
    ensures var pl := Classify(geo, cells, live, t).value;
            && cells[pl.n1].tet.Verts() == t.Verts() + {pl.p1}
            && cells[pl.n2].tet.Verts() == t.Verts() + {pl.p2}
            && pl.p1 !in cells[pl.n2].tet.Verts() && pl.p2 !in cells[pl.n1].tet.Verts()
            && forall i :: 0 <= i < 6 ==>
                 HasFacetAt(cells, if i % 2 == 0 then pl.n1 else pl.n2, Flip23Faces(t, pl.p1, pl.p2)[i])
  {
    var pl := Classify(geo, cells, live, t).value;
    RemainingPointCompletes(cells[pl.n1].tet, t);
    RemainingPointCompletes(cells[pl.n2].tet, t);
    Flip23FacesVerts(t, pl.p1, pl.p2);
  }

  /** A 3-2 plan fits its cells: with non-degenerate cells and distinct
      apexes, the owners are `t` plus their apexes, the third cell is the
      edge x-y with both apexes, every face handed to `Flip32` lies on the
      cell it is spliced through, and `a`, `b`, `c` (`p1`, `far`, `p2`) are
      off `n2`, `n3`, `n1` as `Flip32Proper` asks. */
  lemma Do32Fits(geo: Geometry, cells: Arena, live: seq<CellId>, t: Tri)
    requires forall i :: 0 <= i < |live| ==> live[i] in cells
    requires Classify(geo, cells, live, t).Success? && Classify(geo, cells, live, t).value.Do32?
    requires var pl := Classify(geo, cells, live, t).value;
             && NonDegenerate(cells[pl.n1].tet) && NonDegenerate(cells[pl.n2].tet) && NonDegenerate(cells[pl.n3].tet)
             && TriNonDegenerate(t) && pl.p1 != pl.p2
    ensures var pl := Classify(geo, cells, live, t).value;
            && cells[pl.n1].tet.Verts() == t.Verts() + {pl.p1}
            && cells[pl.n2].tet.Verts() == t.Verts() + {pl.p2}
            && cells[pl.n3].tet.Verts() == {pl.x, pl.y, pl.p1, pl.p2}
            && pl.p1 !in cells[pl.n2].tet.Verts() && pl.far !in cells[pl.n3].tet.Verts()
            && pl.p2 !in cells[pl.n1].tet.Verts()
            && var f := Flip32Faces(pl.p1, pl.far, pl.p2, pl.x, pl.y);
               && cells[pl.n1].tet.HasFace(f[0]) && cells[pl.n1].tet.HasFace(f[3])
               && cells[pl.n2].tet.HasFace(f[1]) && cells[pl.n2].tet.HasFace(f[4])
               && cells[pl.n3].tet.HasFace(f[2]) && cells[pl.n3].tet.HasFace(f[5])
  {
    var pl := Classify(geo, cells, live, t).value;
    var t3 := Tri(pl.x, pl.y, pl.p1);
    var v1, v2, v3 := cells[pl.n1].tet.Verts(), cells[pl.n2].tet.Verts(), cells[pl.n3].tet.Verts();
    RemainingPointCompletes(cells[pl.n1].tet, t);
    RemainingPointCompletes(cells[pl.n2].tet, t);
    assert TriNonDegenerate(t3) by {
      assert |t.Verts()| == 3;
    }
    RemainingPointCompletes(cells[pl.n3].tet, t3);
    Flip32Fit(t, pl.p1, pl.far, pl.p2, pl.x, pl.y, v1, v2, v3);
  }

  /** The set reasoning behind `Do32Fits`. */
  lemma Flip32Fit(t: Tri, p1: Vertex, far: Vertex, p2: Vertex, x: Vertex, y: Vertex,
                  v1: set<Vertex>, v2: set<Vertex>, v3: set<Vertex>)
    requires TriNonDegenerate(t) && t.Verts() == {far, x, y}
    requires p1 !in t.Verts() && p2 !in t.Verts() && p1 != p2
    requires v1 == t.Verts() + {p1} && v2 == t.Verts() + {p2} && v3 == {x, y, p1} + {p2}
    ensures p1 !in v2 && far !in v3 && p2 !in v1
    ensures var f := Flip32Faces(p1, far, p2, x, y);
            && f[0].Verts() <= v1 && f[3].Verts() <= v1
            && f[1].Verts() <= v2 && f[4].Verts() <= v2
            && f[2].Verts() <= v3 && f[5].Verts() <= v3
  {
    assert |t.Verts()| == 3;
    assert far != x && far != y;
  }
}
