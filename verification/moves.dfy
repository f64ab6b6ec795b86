/** The three cell operations of `DelaunayGraphNode3D`: `Split`, `Flip23` and
    `Flip32`. Each adds its new cells under fresh ids and then performs its
    `SetNeighbor` calls in source order; the retired cells stay in the arena
    untouched, as the C# objects do once nothing refers to them. */
module CellMoves {
  import opened Wrappers
  import opened Simplex
  import opened Cells

  /** The result of a cell operation: the arena with the new cells spliced in,
      the faces handed back for re-checking, and the ids of the new cells. */
  datatype Replacement = Replacement(cells: Arena, faces: seq<Tri>, born: seq<CellId>)

  /** The ids `next` up to, but excluding, `next + n`, as a set. */
  function Ids(next: nat, n: nat): (r: set<nat>)
    ensures forall k :: k in r <==> next <= k < next + n
  {
    if n == 0 then {} else Ids(next, n - 1) + {next + n - 1}
  }

  /** The ids `next` up to, but excluding, `next + n`, in order. */
  function Span(next: nat, n: nat): (r: seq<CellId>)
    ensures |r| == n && forall i :: 0 <= i < n ==> r[i] == next + i
  {
    if n == 0 then [] else Span(next, n - 1) + [next + n - 1]
  }

  /** The arena with the cells `cs` added under the fresh ids `next`, `next + 1`, ... */
  function Extend(cells: Arena, next: nat, cs: seq<Cell>): (r: Arena)
    requires Fresh(cells, next)
    ensures r.Keys == cells.Keys + Ids(next, |cs|)
    ensures forall k :: k in cells ==> k in r && r[k] == cells[k]
    ensures forall i :: 0 <= i < |cs| ==> next + i in r && r[next + i] == cs[i]
  {
    map k: nat | k in cells.Keys + Ids(next, |cs|) :: if k < next then cells[k] else cs[k - next]
  }

  /** Every list of the cells `cs` names an old cell or one of `cs` itself. */
  predicate Local(cells: Arena, next: nat, cs: seq<Cell>) {
    forall i, j :: 0 <= i < |cs| && 0 <= j < |cs[i].nbrs| ==>
      cs[i].nbrs[j] in cells || next <= cs[i].nbrs[j] < next + |cs|
  }

  /** Every call goes from an old cell to one of the `n` cells added at `next`. */
  predicate Attaches(cells: Arena, next: nat, n: nat, links: seq<Link>) {
    forall i :: 0 <= i < |links| ==> links[i].src in cells && next <= links[i].born < next + n
  }

  /** Cell `k` links only to other cells of the arena. */
  predicate Proper(cells: Arena, k: CellId)
    requires k in cells
  {
    forall j :: 0 <= j < |cells[k].nbrs| ==> cells[k].nbrs[j] in cells && cells[k].nbrs[j] != k
  }

  /** The independence hypothesis of a graft: the sources link only to other
      old cells, and no face spliced through one source is a face of another. */
  predicate Clean(cells: Arena, links: seq<Link>)
    requires forall i :: 0 <= i < |links| ==> links[i].src in cells
  {
    && (forall i, j :: 0 <= i < |links| && 0 <= j < |cells[links[i].src].nbrs| ==>
          cells[links[i].src].nbrs[j] in cells && cells[links[i].src].nbrs[j] != links[i].src)
    && (forall i, j :: 0 <= i < |links| && 0 <= j < |links| && links[j].src != links[i].src ==>
          !HasFacetAt(cells, links[j].src, links[i].face))
  }

  /** The cells `cs` added at `next`, then the `SetNeighbor` calls `links` in
      order. Under `Clean` the calls compose without interference: the sources
      keep their lists, and new cell `i` ends with its own list followed by the
      neighbours its calls find in the arena as it was. */
  method Graft(cells: Arena, next: nat, cs: seq<Cell>, links: seq<Link>) returns (r: Arena)
    requires Fresh(cells, next) && Attaches(cells, next, |cs|, links)
    ensures r.Keys == cells.Keys + Ids(next, |cs|)
    ensures Fresh(r, next + |cs|)
    ensures forall k :: k in cells ==> r[k].tet == cells[k].tet
    ensures forall i :: 0 <= i < |cs| ==> r[next + i].tet == cs[i].tet
    ensures forall i :: 0 <= i < |cs| ==>
              |cs[i].nbrs| <= |r[next + i].nbrs| <= |cs[i].nbrs| + Born(links, next + i)
    ensures Closed(cells) && Local(cells, next, cs) ==> Closed(r)
    ensures Clean(cells, links) ==> forall i :: 0 <= i < |links| ==> r[links[i].src] == cells[links[i].src]
    ensures Clean(cells, links) ==> forall i :: 0 <= i < |cs| ==>
              r[next + i].nbrs == cs[i].nbrs + Found(cells, links, next + i)
    ensures Clean(cells, links) && Closed(cells) ==> forall i :: 0 <= i < |links| ==>
              Takes(cells, r, links, i) ==> Relinked(cells, r, Taken(cells, links[i]), links[i].face, links[i].born)
  {
    var c0 := Extend(cells, next, cs);
    assert Linkable(c0, links);
    assert Closed(cells) && Local(cells, next, cs) ==> Closed(c0);
    r := Splice(c0, links);
    if Clean(cells, links) {
      GraftClean(cells, next, cs, links, c0);
      if Closed(cells) {
        forall i | 0 <= i < |links| && Takes(cells, r, links, i)
          ensures Relinked(cells, r, Taken(cells, links[i]), links[i].face, links[i].born)
        {
          GraftRelinks(cells, next, cs, links, c0, i);
        }
      }
    }
  }

  /** Call `i` takes over a neighbour, alone, and attaches a cell of `r` that has the face. */
  predicate Takes(cells: Arena, r: Arena, links: seq<Link>, i: nat)
    requires forall j :: 0 <= j < |links| ==> links[j].src in cells
    requires i < |links|
  {
    && FacingNode(cells, links[i].src, links[i].face).Some?
    && HasFacetAt(r, links[i].born, links[i].face)
    && Sole(cells, links, i)
  }

  /** The neighbour a call takes over. */
  function Taken(cells: Arena, l: Link): CellId
    requires l.src in cells && FacingNode(cells, l.src, l.face).Some?
  {
    FacingNode(cells, l.src, l.face).value
  }

  /** The outside half of a splice: every neighbour that a call alone takes
      over ends relinked, its entries across the call's face pointing at the
      cell the call attaches. */
  predicate Relinks(cells: Arena, g: Arena, links: seq<Link>)
    requires forall i :: 0 <= i < |links| ==> links[i].src in cells
  {
    forall i :: 0 <= i < |links| ==>
      FacingNode(cells, links[i].src, links[i].face).Some? && Sole(cells, links, i) ==>
        Relinked(cells, g, FacingNode(cells, links[i].src, links[i].face).value, links[i].face, links[i].born)
  }

  /** When every attached cell has its face, each neighbour that a call alone
      takes over is relinked to the cell that call attaches. */
  lemma GraftRelinksAll(g: Arena, cells: Arena, links: seq<Link>)
    requires forall i :: 0 <= i < |links| ==> links[i].src in cells
    requires forall i :: 0 <= i < |links| ==> HasFacetAt(g, links[i].born, links[i].face)
    requires forall i :: 0 <= i < |links| ==>
               Takes(cells, g, links, i) ==> Relinked(cells, g, Taken(cells, links[i]), links[i].face, links[i].born)
    ensures Relinks(cells, g, links)
  {
    forall i | 0 <= i < |links| && FacingNode(cells, links[i].src, links[i].face).Some? && Sole(cells, links, i)
      ensures Relinked(cells, g, FacingNode(cells, links[i].src, links[i].face).value, links[i].face, links[i].born)
    {
      assert Takes(cells, g, links, i);
    }
  }

  lemma GraftRelinks(cells: Arena, next: nat, cs: seq<Cell>, links: seq<Link>, c0: Arena, i: nat)
    requires Fresh(cells, next) && Attaches(cells, next, |cs|, links) && Clean(cells, links) && Closed(cells)
    requires c0 == Extend(cells, next, cs) && i < |links|
    requires Linkable(c0, links) && Takes(cells, Splice(c0, links), links, i)
    ensures Relinked(cells, Splice(c0, links), Taken(cells, links[i]), links[i].face, links[i].born)
  {
    var q := Taken(cells, links[i]);
    ExtendIndependent(cells, next, cs, links);
    forall j | 0 <= j < |links|
      ensures FacingNode(c0, links[j].src, links[j].face) == FacingNode(cells, links[j].src, links[j].face)
    {
      FacingNodeFrame(c0, cells, links[j].src, links[j].face);
    }
    SpliceRelinks(c0, next, links, i);
    assert c0[q] == cells[q];
    SubstituteFrame(c0, cells, cells[q].nbrs, links[i].face, links[i].born);
  }

  lemma GraftClean(cells: Arena, next: nat, cs: seq<Cell>, links: seq<Link>, c0: Arena)
    requires Fresh(cells, next) && Attaches(cells, next, |cs|, links) && Clean(cells, links)
    requires c0 == Extend(cells, next, cs)
    ensures Linkable(c0, links)
    ensures forall i :: 0 <= i < |links| ==> Splice(c0, links)[links[i].src] == cells[links[i].src]
    ensures forall i :: 0 <= i < |cs| ==> Splice(c0, links)[next + i].nbrs == cs[i].nbrs + Found(cells, links, next + i)
  {
    ExtendIndependent(cells, next, cs, links);
    SpliceIndependent(c0, next, links);
    forall j | 0 <= j < |links|
      ensures FacingNode(c0, links[j].src, links[j].face) == FacingNode(cells, links[j].src, links[j].face)
    {
      FacingNodeFrame(c0, cells, links[j].src, links[j].face);
    }
    FoundFrame(c0, cells, links);
    forall i | 0 <= i < |cs|
      ensures Splice(c0, links)[next + i].nbrs == cs[i].nbrs + Found(cells, links, next + i)
    {
      assert c0[next + i] == cs[i];
    }
  }

  lemma ExtendIndependent(cells: Arena, next: nat, cs: seq<Cell>, links: seq<Link>)
    requires Fresh(cells, next) && Attaches(cells, next, |cs|, links) && Clean(cells, links)
    ensures Independent(Extend(cells, next, cs), next, links)
  {
    var c0 := Extend(cells, next, cs);
    forall i | 0 <= i < |links|
      ensures links[i].src in c0 && links[i].src < next && links[i].born in c0 && next <= links[i].born
    {
      assert links[i].born == next + (links[i].born - next);
    }
    forall i, j | 0 <= i < |links| && 0 <= j < |c0[links[i].src].nbrs|
      ensures c0[links[i].src].nbrs[j] < next && c0[links[i].src].nbrs[j] != links[i].src
    {
      assert c0[links[i].src] == cells[links[i].src];
    }
    forall i, j | 0 <= i < |links| && 0 <= j < |links| && links[j].src != links[i].src
      ensures !HasFacetAt(c0, links[j].src, links[i].face)
    {
      assert c0[links[j].src] == cells[links[j].src];
    }
  }

  // ---------------------------------------------------------------- Split

  /** The faces of `th` in the order the split visits them: abc, bcd, cda, dab. */
  function SplitFaces(th: Tet): (r: seq<Tri>)
    ensures |r| == 4 && forall i :: 0 <= i < 4 ==> th.HasFace(r[i])
  {
    var r := [Tri(th.a, th.b, th.c), Tri(th.b, th.c, th.d), Tri(th.c, th.d, th.a), Tri(th.d, th.a, th.b)];
    assert th.HasFace(r[0]) && th.HasFace(r[1]) && th.HasFace(r[2]) && th.HasFace(r[3]);
    r
  }

  /** The four new cells of a split before any external link: cell `i` is `p`
      joined with face `i` and lists the other three. */
  function SplitCells(next: nat, p: Vertex, faces: seq<Tri>): (r: seq<Cell>)
    requires |faces| == 4
    ensures |r| == 4
    ensures forall i :: 0 <= i < 4 ==> r[i].tet.Verts() == {p} + faces[i].Verts() && |r[i].nbrs| == 3
  {
    [Cell(Tet(p, faces[0].a, faces[0].b, faces[0].c), [next + 1, next + 2, next + 3]),
     Cell(Tet(p, faces[1].a, faces[1].b, faces[1].c), [next + 2, next + 3, next]),
     Cell(Tet(p, faces[2].a, faces[2].b, faces[2].c), [next + 3, next, next + 1]),
     Cell(Tet(p, faces[3].a, faces[3].b, faces[3].c), [next, next + 1, next + 2])]
  }

  /** New cell `i` of a split starts out listing new cell `j`, for each other `j`,
      and lists nothing else. */
  lemma SplitSiblings(next: nat, p: Vertex, faces: seq<Tri>, i: nat, j: nat)
    requires |faces| == 4 && i < 4 && j < 4
    ensures next + j in SplitCells(next, p, faces)[i].nbrs <==> i != j
  {
    var ns := SplitCells(next, p, faces)[i].nbrs;
    if i == 0 { assert ns == [next + 1, next + 2, next + 3]; }
    else if i == 1 { assert ns == [next + 2, next + 3, next]; }
    else if i == 2 { assert ns == [next + 3, next, next + 1]; }
    else { assert ns == [next, next + 1, next + 2]; }
  }

  lemma SplitLocal(cells: Arena, next: nat, p: Vertex, faces: seq<Tri>)
    requires |faces| == 4
    ensures Local(cells, next, SplitCells(next, p, faces))
  {
    var cs := SplitCells(next, p, faces);
    forall i, j | 0 <= i < 4 && 0 <= j < |cs[i].nbrs|
      ensures next <= cs[i].nbrs[j] < next + 4
    {
      if i == 0 { assert cs[i].nbrs == [next + 1, next + 2, next + 3]; }
      else if i == 1 { assert cs[i].nbrs == [next + 2, next + 3, next]; }
      else if i == 2 { assert cs[i].nbrs == [next + 3, next, next + 1]; }
      else { assert cs[i].nbrs == [next, next + 1, next + 2]; }
    }
  }

  /** The `SetNeighbor` calls of `Split`, all through the splitting cell. */
  function SplitLinks(self: CellId, next: nat, faces: seq<Tri>): (r: seq<Link>)
    requires |faces| == 4
    ensures |r| == 4 && forall i :: 0 <= i < 4 ==> r[i] == Link(self, next + i, faces[i])
  {
    [Link(self, next, faces[0]), Link(self, next + 1, faces[1]),
     Link(self, next + 2, faces[2]), Link(self, next + 3, faces[3])]
  }

  /** `DelaunayGraphNode3D.Split`: cell `self` is cut at `p` into four cells,
      one per face of its tetrahedron, each the face joined with `p`. When
      `self` links only to other cells of the arena, new cell `i` lists its
      three siblings (`SplitSiblings`) and then exactly the neighbour `self` had
      across face `i`, and `self` keeps its list. */
  method Split(cells: Arena, next: nat, self: CellId, p: Vertex) returns (r: Replacement)
    requires self in cells && Fresh(cells, next)
    ensures r.born == Span(next, 4)
    ensures r.cells.Keys == cells.Keys + Ids(next, 4)
    ensures Fresh(r.cells, next + 4)
    ensures forall k :: k in cells ==> r.cells[k].tet == cells[k].tet
    ensures r.faces == SplitFaces(cells[self].tet)
    ensures forall i :: 0 <= i < 4 ==> r.cells[r.born[i]].tet.Verts() == {p} + r.faces[i].Verts()
    ensures forall i :: 0 <= i < 4 ==> 3 <= |r.cells[r.born[i]].nbrs| <= 4
    ensures Closed(cells) ==> Closed(r.cells)
    ensures Proper(cells, self)
            ==> && r.cells[self] == cells[self]
                && forall i :: 0 <= i < 4 ==>
                     r.cells[r.born[i]].nbrs == SplitCells(next, p, r.faces)[i].nbrs
                                                + Listed(FacingNode(cells, self, r.faces[i]))
    ensures Proper(cells, self) && Closed(cells) ==> Relinks(cells, r.cells, SplitLinks(self, next, r.faces))
    ensures NonDegenerate(cells[self].tet) && p !in cells[self].tet.Verts() ==>
              forall i, j :: 0 <= i < 4 && 0 <= j < 4 ==> (r.cells[r.born[j]].tet.HasFace(r.faces[i]) <==> i == j)
  {
    var faces := SplitFaces(cells[self].tet);
    var cs := SplitCells(next, p, faces);
    var links := SplitLinks(self, next, faces);
    SplitLocal(cells, next, p, faces);
    var g := Graft(cells, next, cs, links);
    SplitNewCells(g, next, self, p, faces, cs, links);
    if NonDegenerate(cells[self].tet) && p !in cells[self].tet.Verts() {
      SplitOwners(g, cells[self].tet, next, p);
    }
    r := Replacement(g, faces, Span(next, 4));
    if Proper(cells, self) {
      SplitClean(cells, next, self, faces);
      SplitNewLists(g, cells, next, self, p, faces, cs, links);
      if Closed(cells) {
        SplitBornFaces(g, next, self, p, faces, links);
        GraftRelinksAll(g, cells, links);
      }
    }
  }

  /** Each new cell of a split has the face attached to it: face `i` lies on cell `i`. */
  lemma SplitBornFaces(g: Arena, next: nat, self: CellId, p: Vertex, faces: seq<Tri>, links: seq<Link>)
    requires |faces| == 4 && links == SplitLinks(self, next, faces)
    requires forall i :: 0 <= i < 4 ==> Span(next, 4)[i] in g && g[Span(next, 4)[i]].tet.Verts() == {p} + faces[i].Verts()
    ensures forall i :: 0 <= i < |links| ==> HasFacetAt(g, links[i].born, links[i].face)
  {
    forall i | 0 <= i < 4
      ensures HasFacetAt(g, links[i].born, links[i].face)
    {
      assert Span(next, 4)[i] == links[i].born;
    }
  }

  lemma SplitNewCells(g: Arena, next: nat, self: CellId, p: Vertex, faces: seq<Tri>, cs: seq<Cell>, links: seq<Link>)
    requires |faces| == 4 && cs == SplitCells(next, p, faces) && links == SplitLinks(self, next, faces)
    requires forall i :: 0 <= i < |cs| ==> next + i in g && g[next + i].tet == cs[i].tet
    requires forall i :: 0 <= i < |cs| ==> |cs[i].nbrs| <= |g[next + i].nbrs| <= |cs[i].nbrs| + Born(links, next + i)
    ensures forall i :: 0 <= i < 4 ==> Span(next, 4)[i] in g
    ensures forall i :: 0 <= i < 4 ==> g[Span(next, 4)[i]].tet.Verts() == {p} + faces[i].Verts()
    ensures forall i :: 0 <= i < 4 ==> 3 <= |g[Span(next, 4)[i]].nbrs| <= 4
  {
    forall i | 0 <= i < 4
      ensures Span(next, 4)[i] in g
      ensures g[Span(next, 4)[i]].tet.Verts() == {p} + faces[i].Verts()
      ensures 3 <= |g[Span(next, 4)[i]].nbrs| <= 4
    {
      BornOne(links, i, next + i);
    }
  }

  /** The calls of a split all go through `self`, so they are clean as soon
      as `self` links only to other cells of the arena. */
  lemma SplitClean(cells: Arena, next: nat, self: CellId, faces: seq<Tri>)
    requires self in cells && |faces| == 4 && Proper(cells, self)
    ensures Clean(cells, SplitLinks(self, next, faces))
  {
  }

  lemma SplitNewLists(g: Arena, cells: Arena, next: nat, self: CellId, p: Vertex, faces: seq<Tri>,
                      cs: seq<Cell>, links: seq<Link>)
    requires self in cells && |faces| == 4 && cs == SplitCells(next, p, faces) && links == SplitLinks(self, next, faces)
    requires forall i :: 0 <= i < |cs| ==> next + i in g && g[next + i].nbrs == cs[i].nbrs + Found(cells, links, next + i)
    ensures forall i :: 0 <= i < 4 ==>
              Span(next, 4)[i] in g && g[Span(next, 4)[i]].nbrs == cs[i].nbrs + Listed(FacingNode(cells, self, faces[i]))
  {
    forall i | 0 <= i < 4
      ensures Span(next, 4)[i] in g && g[Span(next, 4)[i]].nbrs == cs[i].nbrs + Listed(FacingNode(cells, self, faces[i]))
    {
      FoundOne(cells, links, i, next + i);
    }
  }

  /** On a non-degenerate tetrahedron split at a point off its corners, face
      `i` handed back belongs to new cell `j` exactly when `i == j`. */
  lemma SplitOwners(g: Arena, th: Tet, next: nat, p: Vertex)
    requires NonDegenerate(th) && p !in th.Verts()
    requires forall i :: 0 <= i < 4 ==> Span(next, 4)[i] in g
    requires forall i :: 0 <= i < 4 ==> g[Span(next, 4)[i]].tet.Verts() == {p} + SplitFaces(th)[i].Verts()
    ensures forall i, j :: 0 <= i < 4 && 0 <= j < 4 ==>
              (g[Span(next, 4)[j]].tet.HasFace(SplitFaces(th)[i]) <==> i == j)
  {
    forall i, j | 0 <= i < 4 && 0 <= j < 4
      ensures g[Span(next, 4)[j]].tet.HasFace(SplitFaces(th)[i]) <==> i == j
    {
      SplitFacesApart(th, p, i, j);
    }
  }

  /** Face `i` of a split lies in face `j` joined with the new point only when
      `i == j`: the corner face `j` misses is on every other face. */
  lemma SplitFacesApart(th: Tet, p: Vertex, i: nat, j: nat)
    requires NonDegenerate(th) && p !in th.Verts() && i < 4 && j < 4
    ensures SplitFaces(th)[i].Verts() <= {p} + SplitFaces(th)[j].Verts() <==> i == j
  {
    var f := SplitFaces(th);
    var m := if j == 0 then th.d else if j == 1 then th.a else if j == 2 then th.b else th.c;
    assert m !in {p} + f[j].Verts();
    if i != j {
      assert m in f[i].Verts();
    }
  }

  // --------------------------------------------------------------- Flip23

  /** The faces handed back by `Flip23`, in return order: ab+p1, ab+p2, bc+p1,
      bc+p2, ca+p1, ca+p2. */
  function Flip23Faces(t: Tri, p1: Vertex, p2: Vertex): (r: seq<Tri>)
    ensures |r| == 6
  {
    [Tri(t.a, t.b, p1), Tri(t.a, t.b, p2), Tri(t.b, t.c, p1), Tri(t.b, t.c, p2), Tri(t.c, t.a, p1), Tri(t.c, t.a, p2)]
  }

  /** Face `i` of a 2-3 flip is edge `i / 2` of `t` with apex `p1` for even `i`
      and `p2` for odd `i`. */
  lemma Flip23FacesVerts(t: Tri, p1: Vertex, p2: Vertex)
    ensures forall i :: 0 <= i < 6 ==>
              Flip23Faces(t, p1, p2)[i].Verts() == t.Edges()[i / 2] + {if i % 2 == 0 then p1 else p2}
  {
    var f := Flip23Faces(t, p1, p2);
    var e := t.Edges();
    assert f[0].Verts() == e[0] + {p1} && f[1].Verts() == e[0] + {p2};
    assert f[2].Verts() == e[1] + {p1} && f[3].Verts() == e[1] + {p2};
    assert f[4].Verts() == e[2] + {p1} && f[5].Verts() == e[2] + {p2};
  }

  /** The three new cells of a 2-3 flip before external links: edge `i` of `t`
      joined with both apexes, each listing the other two. */
  function Flip23Cells(next: nat, p1: Vertex, p2: Vertex, t: Tri): (r: seq<Cell>)
    ensures |r| == 3
    ensures forall i :: 0 <= i < 3 ==> r[i].tet.Verts() == t.Edges()[i] + {p1, p2} && |r[i].nbrs| == 2
  {
    [Cell(Tet(p1, p2, t.a, t.b), [next + 1, next + 2]),
     Cell(Tet(p1, p2, t.b, t.c), [next + 2, next]),
     Cell(Tet(p1, p2, t.c, t.a), [next, next + 1])]
  }

  /** New cell `i` of a 2-3 flip starts out listing new cell `j` exactly when `j != i`. */
  lemma Flip23Siblings(next: nat, p1: Vertex, p2: Vertex, t: Tri, i: nat, j: nat)
    requires i < 3 && j < 3
    ensures next + j in Flip23Cells(next, p1, p2, t)[i].nbrs <==> i != j
  {
    var ns := Flip23Cells(next, p1, p2, t)[i].nbrs;
    if i == 0 { assert ns == [next + 1, next + 2]; }
    else if i == 1 { assert ns == [next + 2, next]; }
    else { assert ns == [next, next + 1]; }
  }

  lemma Flip23Local(cells: Arena, next: nat, p1: Vertex, p2: Vertex, t: Tri)
    ensures Local(cells, next, Flip23Cells(next, p1, p2, t))
  {
    var cs := Flip23Cells(next, p1, p2, t);
    forall i, j | 0 <= i < 3 && 0 <= j < |cs[i].nbrs|
      ensures next <= cs[i].nbrs[j] < next + 3
    {
      if i == 0 { assert cs[i].nbrs == [next + 1, next + 2]; }
      else if i == 1 { assert cs[i].nbrs == [next + 2, next]; }
      else { assert cs[i].nbrs == [next, next + 1]; }
    }
  }

  /** The `SetNeighbor` calls of `Flip23`: even faces through `n1`, odd ones
      through `n2`, face `i` attaching new cell `i / 2`. */
  function Flip23Links(n1: CellId, n2: CellId, next: nat, faces: seq<Tri>): (r: seq<Link>)
    requires |faces| == 6
    ensures |r| == 6
    ensures forall i :: 0 <= i < 6 ==> r[i] == Link(if i % 2 == 0 then n1 else n2, next + i / 2, faces[i])
  {
    [Link(n1, next, faces[0]), Link(n2, next, faces[1]), Link(n1, next + 1, faces[2]),
     Link(n2, next + 1, faces[3]), Link(n1, next + 2, faces[4]), Link(n2, next + 2, faces[5])]
  }

  /** `DelaunayGraphNode3D.Flip23`: the cells `n1` and `n2`, meeting at `t` with
      apexes `p1` and `p2`, give way to three cells around the edge p1-p2. When
      both link only to other cells and neither holds the other's apex, they
      keep their lists, and new cell `i` lists its two siblings and then exactly
      the neighbours `n1` and `n2` had across its outer faces. */
  method Flip23(cells: Arena, next: nat, n1: CellId, n2: CellId, p1: Vertex, p2: Vertex, t: Tri)
    returns (r: Replacement)
    requires n1 in cells && n2 in cells && Fresh(cells, next)
    ensures r.born == Span(next, 3)
    ensures r.cells.Keys == cells.Keys + Ids(next, 3)
    ensures Fresh(r.cells, next + 3)
    ensures forall k :: k in cells ==> r.cells[k].tet == cells[k].tet
    ensures r.faces == Flip23Faces(t, p1, p2)
    ensures forall i :: 0 <= i < 3 ==> r.cells[r.born[i]].tet.Verts() == t.Edges()[i] + {p1, p2}
    ensures r.cells[r.born[0]].tet.Verts() + r.cells[r.born[1]].tet.Verts() + r.cells[r.born[2]].tet.Verts()
            == t.Verts() + {p1, p2}
    ensures forall i :: 0 <= i < 3 ==> 2 <= |r.cells[r.born[i]].nbrs| <= 4
    ensures Closed(cells) ==> Closed(r.cells)
    ensures Proper(cells, n1) && Proper(cells, n2) && p1 !in cells[n2].tet.Verts() && p2 !in cells[n1].tet.Verts()
            ==> && r.cells[n1] == cells[n1] && r.cells[n2] == cells[n2]
                && forall i :: 0 <= i < 3 ==>
                     r.cells[r.born[i]].nbrs == Flip23Cells(next, p1, p2, t)[i].nbrs
                                                + Listed(FacingNode(cells, n1, r.faces[2 * i]))
                                                + Listed(FacingNode(cells, n2, r.faces[2 * i + 1]))
    ensures Proper(cells, n1) && Proper(cells, n2) && p1 !in cells[n2].tet.Verts() && p2 !in cells[n1].tet.Verts()
            && Closed(cells)
            ==> Relinks(cells, r.cells, Flip23Links(n1, n2, next, r.faces))
  {
    var faces := Flip23Faces(t, p1, p2);
    var cs := Flip23Cells(next, p1, p2, t);
    var links := Flip23Links(n1, n2, next, faces);
    Flip23Local(cells, next, p1, p2, t);
    var g := Graft(cells, next, cs, links);
    Flip23NewCells(g, next, n1, n2, p1, p2, t, cs, links);
    r := Replacement(g, faces, Span(next, 3));
    EdgesCover(t.Edges(), t.Verts(), t.a, t.b, t.c, {p1, p2});
    if Proper(cells, n1) && Proper(cells, n2) && p1 !in cells[n2].tet.Verts() && p2 !in cells[n1].tet.Verts() {
      Flip23Clean(cells, next, n1, n2, p1, p2, t);
      Flip23NewLists(g, cells, next, n1, n2, faces, cs, links);
      if Closed(cells) {
        Flip23BornFaces(g, next, n1, n2, p1, p2, t, links);
        GraftRelinksAll(g, cells, links);
      }
    }
  }

  /** Each new cell of a 2-3 flip has the faces attached to it: face `i` lies on cell `i / 2`. */
  lemma Flip23BornFaces(g: Arena, next: nat, n1: CellId, n2: CellId, p1: Vertex, p2: Vertex, t: Tri, links: seq<Link>)
    requires links == Flip23Links(n1, n2, next, Flip23Faces(t, p1, p2))
    requires forall i :: 0 <= i < 3 ==> Span(next, 3)[i] in g && g[Span(next, 3)[i]].tet.Verts() == t.Edges()[i] + {p1, p2}
    ensures forall i :: 0 <= i < |links| ==> HasFacetAt(g, links[i].born, links[i].face)
  {
    Flip23FacesVerts(t, p1, p2);
    forall i | 0 <= i < 6
      ensures HasFacetAt(g, links[i].born, links[i].face)
    {
      assert Span(next, 3)[i / 2] == links[i].born;
    }
  }

  lemma Flip23NewCells(g: Arena, next: nat, n1: CellId, n2: CellId, p1: Vertex, p2: Vertex, t: Tri,
                       cs: seq<Cell>, links: seq<Link>)
    requires cs == Flip23Cells(next, p1, p2, t) && links == Flip23Links(n1, n2, next, Flip23Faces(t, p1, p2))
    requires forall i :: 0 <= i < |cs| ==> next + i in g && g[next + i].tet == cs[i].tet
    requires forall i :: 0 <= i < |cs| ==> |cs[i].nbrs| <= |g[next + i].nbrs| <= |cs[i].nbrs| + Born(links, next + i)
    ensures forall i :: 0 <= i < 3 ==> Span(next, 3)[i] in g
    ensures forall i :: 0 <= i < 3 ==> g[Span(next, 3)[i]].tet.Verts() == t.Edges()[i] + {p1, p2}
    ensures forall i :: 0 <= i < 3 ==> 2 <= |g[Span(next, 3)[i]].nbrs| <= 4
  {
    forall i | 0 <= i < 3
      ensures Span(next, 3)[i] in g
      ensures g[Span(next, 3)[i]].tet.Verts() == t.Edges()[i] + {p1, p2}
      ensures 2 <= |g[Span(next, 3)[i]].nbrs| <= 4
    {
      var c := cs[i];
      assert g[next + i].tet == c.tet;
      BornTwo(links, 2 * i, 2 * i + 1, next + i);
    }
  }

  /** The calls of a 2-3 flip are clean when both old cells link only to other
      cells and neither holds the other's apex: every face through `n1` carries
      `p1`, every face through `n2` carries `p2`. */
  lemma Flip23Clean(cells: Arena, next: nat, n1: CellId, n2: CellId, p1: Vertex, p2: Vertex, t: Tri)
    requires n1 in cells && n2 in cells && Proper(cells, n1) && Proper(cells, n2)
    requires p1 !in cells[n2].tet.Verts() && p2 !in cells[n1].tet.Verts()
    ensures Clean(cells, Flip23Links(n1, n2, next, Flip23Faces(t, p1, p2)))
  {
    var faces := Flip23Faces(t, p1, p2);
    var links := Flip23Links(n1, n2, next, faces);
    Flip23FacesVerts(t, p1, p2);
    forall i, j | 0 <= i < 6 && 0 <= j < 6 && links[j].src != links[i].src
      ensures !HasFacetAt(cells, links[j].src, links[i].face)
    {
      if i % 2 == 0 {
        assert p1 in faces[i].Verts();
      } else {
        assert p2 in faces[i].Verts();
      }
    }
  }

  lemma Flip23NewLists(g: Arena, cells: Arena, next: nat, n1: CellId, n2: CellId, faces: seq<Tri>,
                       cs: seq<Cell>, links: seq<Link>)
    requires n1 in cells && n2 in cells && |faces| == 6 && |cs| == 3
    requires links == Flip23Links(n1, n2, next, faces)
    requires forall i :: 0 <= i < |cs| ==> next + i in g && g[next + i].nbrs == cs[i].nbrs + Found(cells, links, next + i)
    ensures forall i :: 0 <= i < 3 ==>
              Span(next, 3)[i] in g
              && g[Span(next, 3)[i]].nbrs == cs[i].nbrs + Listed(FacingNode(cells, n1, faces[2 * i]))
                                                        + Listed(FacingNode(cells, n2, faces[2 * i + 1]))
  {
    forall i | 0 <= i < 3
      ensures Span(next, 3)[i] in g
      ensures g[Span(next, 3)[i]].nbrs == cs[i].nbrs + Listed(FacingNode(cells, n1, faces[2 * i]))
                                                     + Listed(FacingNode(cells, n2, faces[2 * i + 1]))
    {
      var c := cs[i];
      Flip23NewList(g, cells, next, n1, n2, faces, cs, links, i);
    }
  }

  /** New cell `i` of a 2-3 flip ends with its own list and what faces `2i` and `2i+1` found. */
  lemma Flip23NewList(g: Arena, cells: Arena, next: nat, n1: CellId, n2: CellId, faces: seq<Tri>,
                      cs: seq<Cell>, links: seq<Link>, i: nat)
    requires n1 in cells && n2 in cells && |faces| == 6 && |cs| == 3 && i < 3
    requires links == Flip23Links(n1, n2, next, faces)
    requires next + i in g && g[next + i].nbrs == cs[i].nbrs + Found(cells, links, next + i)
    ensures g[next + i].nbrs == cs[i].nbrs + Listed(FacingNode(cells, n1, faces[2 * i]))
                                           + Listed(FacingNode(cells, n2, faces[2 * i + 1]))
  {
    assert links == [Link(n1, next, faces[0]), Link(n2, next, faces[1]), Link(n1, next + 1, faces[2]),
                     Link(n2, next + 1, faces[3]), Link(n1, next + 2, faces[4]), Link(n2, next + 2, faces[5])];
    if i == 0 {
      FoundTwo(cells, links, 0, 1, next);
    } else if i == 1 {
      FoundTwo(cells, links, 2, 3, next + 1);
    } else {
      FoundTwo(cells, links, 4, 5, next + 2);
    }
  }

  /** The three edges of a triangle, each joined with `s`, together cover its corners and `s`. */
  lemma EdgesCover(e: seq<set<Vertex>>, v: set<Vertex>, a: Vertex, b: Vertex, c: Vertex, s: set<Vertex>)
    requires e == [{a, b}, {b, c}, {c, a}] && v == {a, b, c}
    ensures (e[0] + s) + (e[1] + s) + (e[2] + s) == v + s
  {
  }

  // --------------------------------------------------------------- Flip32

  /** The faces handed back by `Flip32`, in return order: xab, xbc, xca, yab,
      ybc, yca, for the triangle abc and the apexes x and y. */
  function Flip32Faces(a: Vertex, b: Vertex, c: Vertex, x: Vertex, y: Vertex): (r: seq<Tri>)
    ensures |r| == 6
  {
    [Tri(x, a, b), Tri(x, b, c), Tri(x, c, a), Tri(y, a, b), Tri(y, b, c), Tri(y, c, a)]
  }

  /** Faces `i` and `i + 3` of a 3-2 flip are edge `i` of abc with apex `x` and
      with apex `y`. */
  lemma Flip32FacesVerts(a: Vertex, b: Vertex, c: Vertex, x: Vertex, y: Vertex, i: nat)
    requires i < 3
    ensures Flip32Faces(a, b, c, x, y)[i].Verts() == Tri(a, b, c).Edges()[i] + {x}
    ensures Flip32Faces(a, b, c, x, y)[i + 3].Verts() == Tri(a, b, c).Edges()[i] + {y}
  {
  }

  /** The two new cells of a 3-2 flip: abc joined with each apex, each listing the other. */
  function Flip32Cells(next: nat, a: Vertex, b: Vertex, c: Vertex, x: Vertex, y: Vertex): (r: seq<Cell>)
    ensures |r| == 2
    ensures r[0].tet.Verts() == {a, b, c, x} && r[1].tet.Verts() == {a, b, c, y}
    ensures r[0].nbrs == [next + 1] && r[1].nbrs == [next]
  {
    [Cell(Tet(a, b, c, x), [next + 1]), Cell(Tet(a, b, c, y), [next])]
  }

  lemma Flip32Local(cells: Arena, next: nat, a: Vertex, b: Vertex, c: Vertex, x: Vertex, y: Vertex)
    ensures Local(cells, next, Flip32Cells(next, a, b, c, x, y))
  {
  }

  /** The `SetNeighbor` calls of `Flip32`: faces `i` and `i + 3` go through the
      `i`-th of `n1`, `n2`, `n3`, attaching the first and the second new cell. */
  function Flip32Links(n1: CellId, n2: CellId, n3: CellId, next: nat, faces: seq<Tri>): (r: seq<Link>)
    requires |faces| == 6
    ensures |r| == 6
    ensures forall i :: 0 <= i < 3 ==> r[i] == Link([n1, n2, n3][i], next, faces[i])
    ensures forall i :: 0 <= i < 3 ==> r[i + 3] == Link([n1, n2, n3][i], next + 1, faces[i + 3])
  {
    [Link(n1, next, faces[0]), Link(n2, next, faces[1]), Link(n3, next, faces[2]),
     Link(n1, next + 1, faces[3]), Link(n2, next + 1, faces[4]), Link(n3, next + 1, faces[5])]
  }

  /** The hypothesis under which a 3-2 flip is clean: the three old cells link
      only to other cells, and `a`, `b`, `c` are not corners of `n2`, `n3`, `n1`
      respectively, as when the three surround the edge x-y with `b` shared by
      `n1` and `n2`, `c` by `n2` and `n3`, and `a` by `n3` and `n1`. */
  predicate Flip32Proper(cells: Arena, n1: CellId, n2: CellId, n3: CellId, a: Vertex, b: Vertex, c: Vertex)
    requires n1 in cells && n2 in cells && n3 in cells
  {
    && Proper(cells, n1) && Proper(cells, n2) && Proper(cells, n3)
    && a !in cells[n2].tet.Verts() && b !in cells[n3].tet.Verts() && c !in cells[n1].tet.Verts()
  }

  /** `DelaunayGraphNode3D.Flip32`: the three cells `n1`, `n2`, `n3` around the
      edge x-y give way to the two cells abc+x and abc+y. Under `Flip32Proper`
      the three keep their lists, and each new cell lists the other and then
      exactly the neighbours the three had across its outer faces. */
  method Flip32(cells: Arena, next: nat, n1: CellId, n2: CellId, n3: CellId,
                a: Vertex, b: Vertex, c: Vertex, x: Vertex, y: Vertex) returns (r: Replacement)
    requires n1 in cells && n2 in cells && n3 in cells && Fresh(cells, next)
    ensures r.born == Span(next, 2)
    ensures r.cells.Keys == cells.Keys + Ids(next, 2)
    ensures Fresh(r.cells, next + 2)
    ensures forall k :: k in cells ==> r.cells[k].tet == cells[k].tet
    ensures r.faces == Flip32Faces(a, b, c, x, y)
    ensures r.cells[next].tet.Verts() == {a, b, c, x} && r.cells[next + 1].tet.Verts() == {a, b, c, y}
    ensures r.cells[next].tet.HasFace(Tri(a, b, c)) && r.cells[next + 1].tet.HasFace(Tri(a, b, c))
    ensures 1 <= |r.cells[next].nbrs| <= 4 && 1 <= |r.cells[next + 1].nbrs| <= 4
    ensures Closed(cells) ==> Closed(r.cells)
    ensures Flip32Proper(cells, n1, n2, n3, a, b, c)
            ==> && r.cells[n1] == cells[n1] && r.cells[n2] == cells[n2] && r.cells[n3] == cells[n3]
                && r.cells[next].nbrs == [next + 1] + Listed(FacingNode(cells, n1, r.faces[0]))
                                       + Listed(FacingNode(cells, n2, r.faces[1]))
                                       + Listed(FacingNode(cells, n3, r.faces[2]))
                && r.cells[next + 1].nbrs == [next] + Listed(FacingNode(cells, n1, r.faces[3]))
                                           + Listed(FacingNode(cells, n2, r.faces[4]))
                                           + Listed(FacingNode(cells, n3, r.faces[5]))
    ensures Flip32Proper(cells, n1, n2, n3, a, b, c) && Closed(cells)
            ==> Relinks(cells, r.cells, Flip32Links(n1, n2, n3, next, r.faces))
  {
    var faces := Flip32Faces(a, b, c, x, y);
    var cs := Flip32Cells(next, a, b, c, x, y);
    var links := Flip32Links(n1, n2, n3, next, faces);
    Flip32Local(cells, next, a, b, c, x, y);
    var g := Graft(cells, next, cs, links);
    Flip32NewCells(g, next, n1, n2, n3, a, b, c, x, y, cs, links);
    r := Replacement(g, faces, Span(next, 2));
    if Flip32Proper(cells, n1, n2, n3, a, b, c) {
      Flip32Clean(cells, next, n1, n2, n3, a, b, c, x, y);
      Flip32Found(cells, next, n1, n2, n3, faces, links);
      Flip32NewLists(g, cells, next, n1, n2, n3, faces, cs, links);
      if Closed(cells) {
        Flip32BornFaces(g, next, n1, n2, n3, a, b, c, x, y, links);
        GraftRelinksAll(g, cells, links);
      }
    }
  }

  /** Each new cell of a 3-2 flip has the faces attached to it: face `i` lies on cell `i / 3`. */
  lemma Flip32BornFaces(g: Arena, next: nat, n1: CellId, n2: CellId, n3: CellId,
                        a: Vertex, b: Vertex, c: Vertex, x: Vertex, y: Vertex, links: seq<Link>)
    requires links == Flip32Links(n1, n2, n3, next, Flip32Faces(a, b, c, x, y))
    requires next in g && next + 1 in g
    requires g[next].tet.Verts() == {a, b, c, x} && g[next + 1].tet.Verts() == {a, b, c, y}
    ensures forall i :: 0 <= i < |links| ==> HasFacetAt(g, links[i].born, links[i].face)
  {
    forall i | 0 <= i < 6
      ensures HasFacetAt(g, links[i].born, links[i].face)
    {
      Flip32FacesVerts(a, b, c, x, y, i % 3);
      assert links[i].born == next + i / 3;
    }
  }

  lemma Flip32NewCells(g: Arena, next: nat, n1: CellId, n2: CellId, n3: CellId,
                       a: Vertex, b: Vertex, c: Vertex, x: Vertex, y: Vertex, cs: seq<Cell>, links: seq<Link>)
    requires cs == Flip32Cells(next, a, b, c, x, y) && links == Flip32Links(n1, n2, n3, next, Flip32Faces(a, b, c, x, y))
    requires forall i :: 0 <= i < |cs| ==> next + i in g && g[next + i].tet == cs[i].tet
    requires forall i :: 0 <= i < |cs| ==> |cs[i].nbrs| <= |g[next + i].nbrs| <= |cs[i].nbrs| + Born(links, next + i)
    ensures next in g && next + 1 in g
    ensures g[next].tet.Verts() == {a, b, c, x} && g[next + 1].tet.Verts() == {a, b, c, y}
    ensures 1 <= |g[next].nbrs| <= 4 && 1 <= |g[next + 1].nbrs| <= 4
  {
    var c0, c1 := cs[0], cs[1];
    assert g[next + 0].tet == c0.tet && g[next + 1].tet == c1.tet;
    BornThree(links, 0, 1, 2, next + 0);
    BornThree(links, 3, 4, 5, next + 1);
  }

  /** Under `Flip32Proper`, no face spliced through one old cell is a face of another. */
  lemma Flip32Clean(cells: Arena, next: nat, n1: CellId, n2: CellId, n3: CellId,
                    a: Vertex, b: Vertex, c: Vertex, x: Vertex, y: Vertex)
    requires n1 in cells && n2 in cells && n3 in cells && Flip32Proper(cells, n1, n2, n3, a, b, c)
    ensures Clean(cells, Flip32Links(n1, n2, n3, next, Flip32Faces(a, b, c, x, y)))
  {
    var faces := Flip32Faces(a, b, c, x, y);
    var links := Flip32Links(n1, n2, n3, next, faces);
    forall i, j | 0 <= i < 6 && 0 <= j < 6 && links[j].src != links[i].src
      ensures !HasFacetAt(cells, links[j].src, links[i].face)
    {
      var e := if i < 3 then i else i - 3;
      Flip32FacesVerts(a, b, c, x, y, e);
      assert faces[i].Verts() >= Tri(a, b, c).Edges()[e];
      if e == 0 {
        assert a in faces[i].Verts() && b in faces[i].Verts();
      } else if e == 1 {
        assert b in faces[i].Verts() && c in faces[i].Verts();
      } else {
        assert c in faces[i].Verts() && a in faces[i].Verts();
      }
    }
  }

  lemma Flip32NewLists(g: Arena, cells: Arena, next: nat, n1: CellId, n2: CellId, n3: CellId,
                       faces: seq<Tri>, cs: seq<Cell>, links: seq<Link>)
    requires n1 in cells && n2 in cells && n3 in cells && |faces| == 6
    requires forall i :: 0 <= i < |links| ==> links[i].src in cells
    requires Found(cells, links, next) == Listed(FacingNode(cells, n1, faces[0]))
                                          + Listed(FacingNode(cells, n2, faces[1]))
                                          + Listed(FacingNode(cells, n3, faces[2]))
    requires Found(cells, links, next + 1) == Listed(FacingNode(cells, n1, faces[3]))
                                              + Listed(FacingNode(cells, n2, faces[4]))
                                              + Listed(FacingNode(cells, n3, faces[5]))
    requires |cs| == 2 && cs[0].nbrs == [next + 1] && cs[1].nbrs == [next]
    requires forall i :: 0 <= i < |cs| ==> next + i in g && g[next + i].nbrs == cs[i].nbrs + Found(cells, links, next + i)
    ensures next in g && next + 1 in g
    ensures g[next].nbrs == [next + 1] + Listed(FacingNode(cells, n1, faces[0]))
                                       + Listed(FacingNode(cells, n2, faces[1]))
                                       + Listed(FacingNode(cells, n3, faces[2]))
    ensures g[next + 1].nbrs == [next] + Listed(FacingNode(cells, n1, faces[3]))
                                       + Listed(FacingNode(cells, n2, faces[4]))
                                       + Listed(FacingNode(cells, n3, faces[5]))
  {
    var c0, c1 := cs[0], cs[1];
    assert g[next + 0].nbrs == c0.nbrs + Found(cells, links, next + 0);
    assert g[next + 1].nbrs == c1.nbrs + Found(cells, links, next + 1);
    var a0, b0, d0 := Listed(FacingNode(cells, n1, faces[0])), Listed(FacingNode(cells, n2, faces[1])),
                      Listed(FacingNode(cells, n3, faces[2]));
    Regroup(c0.nbrs, a0 + b0, d0);
    Regroup(c0.nbrs, a0, b0);
    var a1, b1, d1 := Listed(FacingNode(cells, n1, faces[3])), Listed(FacingNode(cells, n2, faces[4])),
                      Listed(FacingNode(cells, n3, faces[5]));
    Regroup(c1.nbrs, a1 + b1, d1);
    Regroup(c1.nbrs, a1, b1);
  }

  /** What the calls of a 3-2 flip find for each new cell, for any six faces. */
  lemma Flip32Found(cells: Arena, next: nat, n1: CellId, n2: CellId, n3: CellId, faces: seq<Tri>, links: seq<Link>)
    requires n1 in cells && n2 in cells && n3 in cells
    requires |faces| == 6 && links == Flip32Links(n1, n2, n3, next, faces)
    ensures Found(cells, links, next) == Listed(FacingNode(cells, n1, faces[0]))
                                         + Listed(FacingNode(cells, n2, faces[1]))
                                         + Listed(FacingNode(cells, n3, faces[2]))
    ensures Found(cells, links, next + 1) == Listed(FacingNode(cells, n1, faces[3]))
                                             + Listed(FacingNode(cells, n2, faces[4]))
                                             + Listed(FacingNode(cells, n3, faces[5]))
  {
    assert links[0].src == n1 && links[1].src == n2 && links[2].src == n3;
    assert links[3].src == n1 && links[4].src == n2 && links[5].src == n3;
    FoundThree(cells, links, 0, 1, 2, next);
    FoundThree(cells, links, 3, 4, 5, next + 1);
  }
}
