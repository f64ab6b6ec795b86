/** `VoronoiGraph3D` and the face grouping of `VoronoiGraphNode3D`: the dual graph
    read off a finished tetrahedralization. Every corner of a cell becomes a node;
    every cell/neighbour pair yields a segment between the two circumcentres, which
    is recorded under a corner when it is orthogonal to the edge towards another
    corner of the same cell. Circumcentres are named by their tetrahedra, and the
    tolerance test on the dot product is an oracle. */
module Voronoi {
  import opened Wrappers
  import opened Simplex
  import opened Cells

  /** The segment from the circumcentre of `from` to the circumcentre of `to` (`SG`). */
  datatype Dual = Dual(from: Tet, to: Tet)

  /** A recorded segment together with the vertex on the far side of its face. */
  datatype Tagged = Tagged(segment: Dual, pair: Vertex)

  /** `VoronoiGraphNode3D`: the centre vertex and the segments recorded under it. */
  datatype Node = Node(center: Vertex, segments: seq<Tagged>)

  /** The `nodes` dictionary, keyed by vertex. */
  type Graph = map<Vertex, Node>

  /** The tolerance test `|dot(pair - cntr, c1 - c)| < 1e-5` for a segment from `c` to `c1`. */
  type Orthogonal = (Vertex, Vertex, Dual) -> bool

  /** The twelve `(pair, cntr)` argument pairs of `AssignSegment`, in call order. */
  function Roles(t: Tet): (r: seq<(Vertex, Vertex)>)
    ensures |r| == 12
    ensures forall i :: 0 <= i < |r| ==> r[i].0 in t.Verts() && r[i].1 in t.Verts()
    ensures forall u, w :: (u, w) in r ==> u in t.Verts() && w in t.Verts()
    ensures NonDegenerate(t) ==> forall u, w :: (u, w) in r ==> u != w
  {
    [(t.b, t.a), (t.c, t.a), (t.d, t.a),
     (t.c, t.b), (t.d, t.b), (t.a, t.b),
     (t.d, t.c), (t.a, t.c), (t.b, t.c),
     (t.a, t.d), (t.b, t.d), (t.c, t.d)]
  }

  /** Every ordered pair of distinct corners is one of the roles. */
  lemma RolesCover(t: Tet, u: Vertex, w: Vertex)
    requires u in t.Verts() && w in t.Verts() && u != w
    ensures (u, w) in Roles(t)
  {
    var r := Roles(t);
    if w == t.a {
      if u == t.b { assert r[0] == (u, w); }
      else if u == t.c { assert r[1] == (u, w); }
      else { assert r[2] == (u, w); }
    } else if w == t.b {
      if u == t.c { assert r[3] == (u, w); }
      else if u == t.d { assert r[4] == (u, w); }
      else { assert r[5] == (u, w); }
    } else if w == t.c {
      if u == t.d { assert r[6] == (u, w); }
      else if u == t.a { assert r[7] == (u, w); }
      else { assert r[8] == (u, w); }
    } else {
      if u == t.a { assert r[9] == (u, w); }
      else if u == t.b { assert r[10] == (u, w); }
      else { assert r[11] == (u, w); }
    }
  }

  /** Adds a node for `v` unless one exists already; an existing node is kept as it is. */
  function AddNode(g: Graph, v: Vertex): (r: Graph)
    ensures r.Keys == g.Keys + {v}
    ensures forall k :: k in r ==> r[k] == if k in g then g[k] else Node(k, [])
  {
    if v in g then g else g[v := Node(v, [])]
  }

  /** `AssignSegment`: records `sg` under the node of `cntr`, tagged `pair`, when it is
      orthogonal to the edge; a missing node records nothing. */
  function Assign(orth: Orthogonal, g: Graph, pair: Vertex, cntr: Vertex, sg: Dual): (r: Graph)
    ensures r.Keys == g.Keys
    ensures cntr !in g || !orth(pair, cntr, sg) ==> r == g
    ensures forall k :: k in g && k != cntr ==> r[k] == g[k]
    ensures cntr in g && orth(pair, cntr, sg) ==>
      r[cntr] == g[cntr].(segments := g[cntr].segments + [Tagged(sg, pair)])
  {
    if orth(pair, cntr, sg) && cntr in g then
      g[cntr := g[cntr].(segments := g[cntr].segments + [Tagged(sg, pair)])]
    else g
  }

  /** Reference: the tagged segments a run over `roles` records under `v`, in order. */
  function Matching(orth: Orthogonal, roles: seq<(Vertex, Vertex)>, sg: Dual, v: Vertex): (r: seq<Tagged>)
    ensures |r| <= |roles|
    ensures (forall i :: 0 <= i < |roles| ==> roles[i].1 != v) ==> r == []
    ensures forall x :: x in r ==> x.segment == sg
    ensures forall u :: Tagged(sg, u) in r <==> (u, v) in roles && orth(u, v, sg)
  {
    if roles == [] then []
    else
      (if roles[0].1 == v && orth(roles[0].0, v, sg) then [Tagged(sg, roles[0].0)] else [])
      + Matching(orth, roles[1..], sg, v)
  }

  /** The calls of `AssignSegment` for one segment, one per role, in order. Each existing
      node gains exactly the segments `Matching` selects for it. */
  function AssignAll(orth: Orthogonal, g: Graph, roles: seq<(Vertex, Vertex)>, sg: Dual): (r: Graph)
    ensures r.Keys == g.Keys
    ensures forall v :: v in g ==>
      r[v] == g[v].(segments := g[v].segments + Matching(orth, roles, sg, v))
  {
    if roles == [] then g
    else
      var g1 := Assign(orth, g, roles[0].0, roles[0].1, sg);
      var r := AssignAll(orth, g1, roles[1..], sg);
      AssignAllStep(orth, g, roles, sg, g1, r);
      r
  }

  lemma AssignAllStep(orth: Orthogonal, g: Graph, roles: seq<(Vertex, Vertex)>, sg: Dual, g1: Graph, r: Graph)
    requires roles != [] && g1 == Assign(orth, g, roles[0].0, roles[0].1, sg)
    requires r.Keys == g1.Keys
    requires forall v :: v in g1 ==>
      r[v] == g1[v].(segments := g1[v].segments + Matching(orth, roles[1..], sg, v))
    ensures forall v :: v in g ==>
      r[v] == g[v].(segments := g[v].segments + Matching(orth, roles, sg, v))
  {
    forall v | v in g
      ensures r[v] == g[v].(segments := g[v].segments + Matching(orth, roles, sg, v))
    {
      var head := if roles[0].1 == v && orth(roles[0].0, v, sg) then [Tagged(sg, roles[0].0)] else [];
      NodeStep(g[v], g1[v], r[v], head, Matching(orth, roles[1..], sg, v), Matching(orth, roles, sg, v));
    }
  }

  /** Two appends to a node's segments are one append of both. */
  lemma NodeStep(n0: Node, n1: Node, n2: Node, head: seq<Tagged>, rest: seq<Tagged>, whole: seq<Tagged>)
    requires whole == head + rest
    requires n1 == n0.(segments := n0.segments + head)
    requires n2 == n1.(segments := n1.segments + rest)
    ensures n2 == n0.(segments := n0.segments + whole)
  {
    Regroup(n0.segments, head, rest);
  }

  /** Reference: what the neighbours `nbrs` of a cell with tetrahedron `t` record under `v`. */
  function Across(orth: Orthogonal, cells: Arena, t: Tet, nbrs: seq<CellId>, v: Vertex): (r: seq<Tagged>)
    requires forall i :: 0 <= i < |nbrs| ==> nbrs[i] in cells
    ensures v !in t.Verts() ==> r == []
  {
    if nbrs == [] then []
    else
      var m := Matching(orth, Roles(t), Dual(t, cells[nbrs[0]].tet), v);
      m + Across(orth, cells, t, nbrs[1..], v)
  }

  /** The `d.neighbor.ForEach` loop of the constructor for a cell with tetrahedron `t`. */
  function AssignNeighbours(orth: Orthogonal, cells: Arena, g: Graph, t: Tet, nbrs: seq<CellId>): (r: Graph)
    requires forall i :: 0 <= i < |nbrs| ==> nbrs[i] in cells
    ensures r.Keys == g.Keys
    ensures forall v :: v in g ==>
      r[v] == g[v].(segments := g[v].segments + Across(orth, cells, t, nbrs, v))
  {
    if nbrs == [] then g
    else
      var g1 := AssignAll(orth, g, Roles(t), Dual(t, cells[nbrs[0]].tet));
      var r := AssignNeighbours(orth, cells, g1, t, nbrs[1..]);
      AssignNeighboursStep(orth, cells, g, t, nbrs, g1, r);
      r
  }

  lemma AssignNeighboursStep(orth: Orthogonal, cells: Arena, g: Graph, t: Tet, nbrs: seq<CellId>, g1: Graph, r: Graph)
    requires nbrs != [] && forall i :: 0 <= i < |nbrs| ==> nbrs[i] in cells
    requires g1 == AssignAll(orth, g, Roles(t), Dual(t, cells[nbrs[0]].tet))
    requires r.Keys == g1.Keys
    requires forall v :: v in g1 ==>
      r[v] == g1[v].(segments := g1[v].segments + Across(orth, cells, t, nbrs[1..], v))
    ensures forall v :: v in g ==>
      r[v] == g[v].(segments := g[v].segments + Across(orth, cells, t, nbrs, v))
  {
    forall v | v in g
      ensures r[v] == g[v].(segments := g[v].segments + Across(orth, cells, t, nbrs, v))
    {
      NodeStep(g[v], g1[v], r[v], Matching(orth, Roles(t), Dual(t, cells[nbrs[0]].tet), v),
               Across(orth, cells, t, nbrs[1..], v), Across(orth, cells, t, nbrs, v));
    }
  }

  /** The four `nodes.Add` guarded by `ContainsKey`. */
  function AddCorners(g: Graph, t: Tet): (r: Graph)
    ensures r.Keys == g.Keys + t.Verts()
    ensures forall v :: v in r ==> r[v] == if v in g then g[v] else Node(v, [])
  {
    AddNode(AddNode(AddNode(AddNode(g, t.a), t.b), t.c), t.d)
  }

  /** One iteration of the constructor's `foreach (var d in dns)`: nodes for the four
      corners, then the segments towards every neighbour. */
  function Visit(orth: Orthogonal, cells: Arena, g: Graph, d: CellId): (r: Graph)
    requires d in cells && Closed(cells)
    ensures r.Keys == g.Keys + cells[d].tet.Verts()
    ensures forall v :: v in r ==>
      r[v].center == (if v in g then g[v].center else v) &&
      r[v].segments == (if v in g then g[v].segments else [])
                       + Across(orth, cells, cells[d].tet, cells[d].nbrs, v)
  {
    var t := cells[d].tet;
    AssignNeighbours(orth, cells, AddCorners(g, t), t, cells[d].nbrs)
  }

  /** Every cell of `dns` is in the arena. */
  predicate InArena(cells: Arena, dns: seq<CellId>) {
    forall i :: 0 <= i < |dns| ==> dns[i] in cells
  }

  /** The corners of the tetrahedra of `dns`. */
  function Corners(cells: Arena, dns: seq<CellId>): set<Vertex>
    requires InArena(cells, dns)
  {
    if dns == [] then {} else cells[dns[0]].tet.Verts() + Corners(cells, dns[1..])
  }

  /** Reference: every segment recorded under `v`, cell by cell, in visiting order. */
  function Recorded(orth: Orthogonal, cells: Arena, dns: seq<CellId>, v: Vertex): seq<Tagged>
    requires InArena(cells, dns) && Closed(cells)
  {
    if dns == [] then []
    else Across(orth, cells, cells[dns[0]].tet, cells[dns[0]].nbrs, v) + Recorded(orth, cells, dns[1..], v)
  }

  /** The constructor's loop from graph `g` on. */
  function Gather(orth: Orthogonal, cells: Arena, g: Graph, dns: seq<CellId>): Graph
    requires InArena(cells, dns) && Closed(cells)
    decreases |dns|
  {
    if dns == [] then g else Gather(orth, cells, Visit(orth, cells, g, dns[0]), dns[1..])
  }

  lemma {:induction false} GatherKeys(orth: Orthogonal, cells: Arena, g: Graph, dns: seq<CellId>)
    requires InArena(cells, dns) && Closed(cells)
    decreases |dns|
    ensures Gather(orth, cells, g, dns).Keys == g.Keys + Corners(cells, dns)
  {
    if dns != [] {
      GatherKeys(orth, cells, Visit(orth, cells, g, dns[0]), dns[1..]);
    }
  }

  /** A node keeps its centre, and a new node is centred on its vertex. */
  lemma {:induction false} GatherCenter(orth: Orthogonal, cells: Arena, g: Graph, dns: seq<CellId>, v: Vertex)
    requires InArena(cells, dns) && Closed(cells)
    requires v in Gather(orth, cells, g, dns)
    decreases |dns|
    ensures Gather(orth, cells, g, dns)[v].center == (if v in g then g[v].center else v)
  {
    if dns != [] {
      var g1 := Visit(orth, cells, g, dns[0]);
      GatherCenter(orth, cells, g1, dns[1..], v);
      if v in g1 {
        assert g1[v].center == (if v in g then g[v].center else v);
      } else {
        assert v !in g;
      }
    }
  }

  /** A node that exists is never reset, and one that does not exist yet starts empty
      the first time its vertex is seen: either way its segments are all that the
      remaining cells record under it, appended in order. */
  lemma {:induction false} GatherAt(orth: Orthogonal, cells: Arena, g: Graph, dns: seq<CellId>, v: Vertex)
    requires InArena(cells, dns) && Closed(cells)
    requires v in Gather(orth, cells, g, dns)
    decreases |dns|
    ensures Gather(orth, cells, g, dns)[v].segments ==
      (if v in g then g[v].segments else []) + Recorded(orth, cells, dns, v)
  {
    if dns != [] {
      var t := cells[dns[0]].tet;
      var g1 := Visit(orth, cells, g, dns[0]);
      GatherAt(orth, cells, g1, dns[1..], v);
      var here := Across(orth, cells, t, cells[dns[0]].nbrs, v);
      var later := Recorded(orth, cells, dns[1..], v);
      var before := if v in g then g[v].segments else [];
      assert Recorded(orth, cells, dns, v) == here + later;
      if v in g1 {
        assert g1[v].segments == before + here;
        Regroup(before, here, later);
      } else {
        assert v !in t.Verts();
        assert here + later == later;
      }
    }
  }

  /** The `VoronoiGraph3D` constructor over the cells `dns`. */
  function Construct(orth: Orthogonal, cells: Arena, dns: seq<CellId>): Graph
    requires InArena(cells, dns) && Closed(cells)
  {
    Gather(orth, cells, map[], dns)
  }

  /** Exactly one node per distinct corner, centred on it, holding exactly the segments
      recorded under it across all cells. */
  lemma ConstructMeaning(orth: Orthogonal, cells: Arena, dns: seq<CellId>)
    requires InArena(cells, dns) && Closed(cells)
    ensures Construct(orth, cells, dns).Keys == Corners(cells, dns)
    ensures forall v :: v in Construct(orth, cells, dns) ==>
      Construct(orth, cells, dns)[v] == Node(v, Recorded(orth, cells, dns, v))
  {
    GatherKeys(orth, cells, map[], dns);
    forall v | v in Construct(orth, cells, dns)
      ensures Construct(orth, cells, dns)[v] == Node(v, Recorded(orth, cells, dns, v))
    {
      GatherCenter(orth, cells, map[], dns, v);
      GatherAt(orth, cells, map[], dns, v);
    }
  }

  /** Every segment from a cell of `dns` to one of its neighbours that is orthogonal
      to the edge between two distinct corners `u` and `v` of the cell is recorded
      under `v`, tagged `u`. */
  lemma {:induction false} RecordedComplete(orth: Orthogonal, cells: Arena, dns: seq<CellId>, i: nat, j: nat, u: Vertex, v: Vertex)
    requires InArena(cells, dns) && Closed(cells)
    requires i < |dns| && j < |cells[dns[i]].nbrs|
    requires u in cells[dns[i]].tet.Verts() && v in cells[dns[i]].tet.Verts() && u != v
    ensures var sg := Dual(cells[dns[i]].tet, cells[cells[dns[i]].nbrs[j]].tet);
      orth(u, v, sg) ==> Tagged(sg, u) in Recorded(orth, cells, dns, v)
  {
    var sg := Dual(cells[dns[i]].tet, cells[cells[dns[i]].nbrs[j]].tet);
    if orth(u, v, sg) {
      if i == 0 {
        AcrossHas(orth, cells, cells[dns[0]].tet, cells[dns[0]].nbrs, j, u, v);
      } else {
        RecordedComplete(orth, cells, dns[1..], i - 1, j, u, v);
      }
    }
  }

  /** Conversely, a segment is recorded under `v` only if it leaves the tetrahedron
      of a cell of `dns` that has `v` and its tag as corners, reaches the tetrahedron
      of one of that cell's neighbours, and is orthogonal to the edge of the two. */
  lemma {:induction false} RecordedSound(orth: Orthogonal, cells: Arena, dns: seq<CellId>, v: Vertex, x: Tagged)
    requires InArena(cells, dns) && Closed(cells)
    requires x in Recorded(orth, cells, dns, v)
    ensures orth(x.pair, v, x.segment)
    ensures exists i :: 0 <= i < |dns| && x.segment.from == cells[dns[i]].tet
              && v in cells[dns[i]].tet.Verts() && x.pair in cells[dns[i]].tet.Verts()
              && exists j :: 0 <= j < |cells[dns[i]].nbrs| && x.segment.to == cells[cells[dns[i]].nbrs[j]].tet
  {
    var c := cells[dns[0]];
    if x in Across(orth, cells, c.tet, c.nbrs, v) {
      AcrossSound(orth, cells, c.tet, c.nbrs, v, x);
    } else {
      RecordedSound(orth, cells, dns[1..], v, x);
      var i :| 0 <= i < |dns[1..]| && x.segment.from == cells[dns[1..][i]].tet
               && v in cells[dns[1..][i]].tet.Verts() && x.pair in cells[dns[1..][i]].tet.Verts()
               && exists j :: 0 <= j < |cells[dns[1..][i]].nbrs| && x.segment.to == cells[cells[dns[1..][i]].nbrs[j]].tet;
      assert dns[1..][i] == dns[i + 1];
    }
  }

  /** Completeness of one cell's contribution. */
  lemma {:induction false} AcrossHas(orth: Orthogonal, cells: Arena, t: Tet, nbrs: seq<CellId>, j: nat, u: Vertex, v: Vertex)
    requires forall i :: 0 <= i < |nbrs| ==> nbrs[i] in cells
    requires j < |nbrs| && u in t.Verts() && v in t.Verts() && u != v
    requires orth(u, v, Dual(t, cells[nbrs[j]].tet))
    ensures Tagged(Dual(t, cells[nbrs[j]].tet), u) in Across(orth, cells, t, nbrs, v)
  {
    if j > 0 {
      AcrossHas(orth, cells, t, nbrs[1..], j - 1, u, v);
    } else {
      RolesCover(t, u, v);
    }
  }

  /** Soundness of one cell's contribution: what it records under `v` is a segment from
      `t` to a neighbour's tetrahedron, tagged with another corner of `t`. */
  lemma {:induction false} AcrossSound(orth: Orthogonal, cells: Arena, t: Tet, nbrs: seq<CellId>, v: Vertex, x: Tagged)
    requires forall i :: 0 <= i < |nbrs| ==> nbrs[i] in cells
    requires x in Across(orth, cells, t, nbrs, v)
    ensures x.segment.from == t && v in t.Verts() && x.pair in t.Verts()
    ensures orth(x.pair, v, x.segment)
    ensures exists j :: 0 <= j < |nbrs| && x.segment.to == cells[nbrs[j]].tet
  {
    var m := Matching(orth, Roles(t), Dual(t, cells[nbrs[0]].tet), v);
    if x in m {
      assert x == Tagged(Dual(t, cells[nbrs[0]].tet), x.pair);
      assert (x.pair, v) in Roles(t);
    } else {
      AcrossSound(orth, cells, t, nbrs[1..], v, x);
      var j :| 0 <= j < |nbrs[1..]| && x.segment.to == cells[nbrs[1..][j]].tet;
      assert x.segment.to == cells[nbrs[j + 1]].tet;
    }
  }

  // ---- `VoronoiGraphNode3D.Meshilify`: grouping the segments into faces ----

  /** `VoronoiGraphFace3D` as far as grouping goes: the key and its segments. */
  datatype Face = Face(key: Vertex, segments: seq<Dual>)

  /** The `pair` of every tagged segment, in order. */
  function Pairs(segs: seq<Tagged>): (r: seq<Vertex>)
    ensures |r| == |segs|
    ensures forall i :: 0 <= i < |segs| ==> r[i] == segs[i].pair
  {
    if segs == [] then [] else [segs[0].pair] + Pairs(segs[1..])
  }

  /** The position of the first occurrence of `x` in `s`. */
  function First(s: seq<Vertex>, x: Vertex): (r: nat)
    requires x in s
    ensures r < |s| && s[r] == x
    ensures forall k :: 0 <= k < r ==> s[k] != x
  {
    if s[0] == x then 0 else 1 + First(s[1..], x)
  }

  lemma {:induction false} FirstOfPrefix(s: seq<Vertex>, y: Vertex, x: Vertex)
    requires x in s
    ensures First(s + [y], x) == First(s, x)
  {
    if s[0] != x {
      assert (s + [y])[1..] == s[1..] + [y];
      FirstOfPrefix(s[1..], y, x);
    }
  }

  /** LINQ `Distinct`: each element once, in the order of first appearance. */
  function Dedup(s: seq<Vertex>): (r: seq<Vertex>)
    ensures Distinct(r)
    ensures forall x :: x in r <==> x in s
    ensures forall i, j :: 0 <= i < j < |r| ==> First(s, r[i]) < First(s, r[j])
  {
    if s == [] then []
    else
      var init := s[..|s| - 1];
      var last := s[|s| - 1];
      var d := Dedup(init);
      assert s == init + [last];
      forall x | x in d ensures First(s, x) == First(init, x) && First(s, x) < |s| - 1 {
        FirstOfPrefix(init, last, x);
      }
      if last in d then d
      else
        assert First(s, last) == |s| - 1;
        d + [last]
  }

  /** Reference: the segments tagged `key`, in order. */
  function Filter(segs: seq<Tagged>, key: Vertex): (r: seq<Dual>)
    ensures forall x :: x in r <==> Tagged(x, key) in segs
  {
    if segs == [] then []
    else (if segs[0].pair == key then [segs[0].segment] else []) + Filter(segs[1..], key)
  }

  /** The inner `foreach (var f in faces)`: `s` joins every face whose key is its pair. */
  function Offer(faces: seq<Face>, s: Tagged): (r: seq<Face>)
    ensures |r| == |faces|
    ensures forall i :: 0 <= i < |faces| ==> r[i].key == faces[i].key
    ensures forall i :: 0 <= i < |faces| ==>
      r[i].segments == faces[i].segments + (if faces[i].key == s.pair then [s.segment] else [])
  {
    seq(|faces|, i requires 0 <= i < |faces| =>
      if faces[i].key == s.pair then faces[i].(segments := faces[i].segments + [s.segment]) else faces[i])
  }

  /** The outer `foreach (var s in segments)`. */
  function Distribute(faces: seq<Face>, segs: seq<Tagged>): (r: seq<Face>)
    decreases |segs|
    ensures |r| == |faces|
    ensures forall i :: 0 <= i < |faces| ==>
      r[i] == Face(faces[i].key, faces[i].segments + Filter(segs, faces[i].key))
  {
    if segs == [] then faces
    else
      var f1 := Offer(faces, segs[0]);
      var r := Distribute(f1, segs[1..]);
      assert forall i :: 0 <= i < |faces| ==>
        Filter(segs, faces[i].key) ==
          (if faces[i].key == segs[0].pair then [segs[0].segment] else []) + Filter(segs[1..], faces[i].key);
      r
  }

  /** Empty faces, one per key. */
  function Blank(keys: seq<Vertex>): (r: seq<Face>)
    ensures |r| == |keys|
    ensures forall i :: 0 <= i < |keys| ==> r[i] == Face(keys[i], [])
  {
    seq(|keys|, i requires 0 <= i < |keys| => Face(keys[i], []))
  }

  /** The faces of one node: one per distinct pair key, in order of first appearance,
      each holding exactly the segments tagged with its key. */
  function Group(segs: seq<Tagged>): (r: seq<Face>)
    ensures |r| == |Dedup(Pairs(segs))|
    ensures forall i :: 0 <= i < |r| ==> r[i].key == Dedup(Pairs(segs))[i]
    ensures forall i :: 0 <= i < |r| ==> r[i].segments == Filter(segs, r[i].key)
  {
    Distribute(Blank(Dedup(Pairs(segs))), segs)
  }

  /** The faces have distinct keys, and every segment lands in the face whose key is
      its pair: so in exactly one face. */
  lemma GroupPlaces(segs: seq<Tagged>, k: nat)
    requires k < |segs|
    ensures forall i, j :: 0 <= i < j < |Group(segs)| ==> Group(segs)[i].key != Group(segs)[j].key
    ensures exists i :: 0 <= i < |Group(segs)| && Group(segs)[i].key == segs[k].pair &&
                        segs[k].segment in Group(segs)[i].segments
  {
    var r := Group(segs);
    var keys := Dedup(Pairs(segs));
    assert Pairs(segs)[k] == segs[k].pair;
    var i := First(keys, segs[k].pair);
    assert segs[k] == Tagged(segs[k].segment, segs[k].pair);
    assert segs[k].segment in r[i].segments;
  }

  /** Every face holds some segment, and only segments tagged with its key. */
  lemma GroupFaces(segs: seq<Tagged>, i: nat)
    requires i < |Group(segs)|
    ensures |Group(segs)[i].segments| > 0
    ensures forall x :: x in Group(segs)[i].segments ==> Tagged(x, Group(segs)[i].key) in segs
  {
    var r := Group(segs);
    var keys := Dedup(Pairs(segs));
    assert keys[i] in Pairs(segs);
    var k := First(Pairs(segs), keys[i]);
    assert segs[k] == Tagged(segs[k].segment, keys[i]);
    assert segs[k].segment in r[i].segments;
  }
}
