/** `DelaunayGraphNode3D`: cells of the tetrahedralization kept in an arena.
    A cell owns a tetrahedron and a list of neighbouring cell ids. Cells are never
    changed in place by a flip: new cells are added under fresh ids and spliced into
    the neighbour lists of the cells that bordered the retired ones. */
module Cells {
  import opened Wrappers
  import opened Simplex

  type CellId = nat

  datatype Cell = Cell(tet: Tet, nbrs: seq<CellId>)

  /** The store of every cell ever created, by id. */
  type Arena = map<CellId, Cell>

  /** `HasFacet` on a cell id; an id outside the arena has no facets. */
  predicate HasFacetAt(cells: Arena, id: CellId, t: Tri) {
    id in cells && cells[id].tet.HasFace(t)
  }

  /** Every id in the arena is below `next`, so `next` and above are fresh. */
  predicate Fresh(cells: Arena, next: nat) {
    forall k :: k in cells ==> k < next
  }

  /** Every neighbour link points at a cell of the arena (no dangling reference). */
  predicate Closed(cells: Arena) {
    forall k, i :: k in cells && 0 <= i < |cells[k].nbrs| ==> cells[k].nbrs[i] in cells
  }

  /** Same ids and same tetrahedra; only neighbour lists may differ. */
  predicate SameShape(c1: Arena, c2: Arena) {
    c1.Keys == c2.Keys && forall k :: k in c1 ==> c2[k].tet == c1[k].tet
  }

  /** The index of the first entry of `s` that has facet `t` (`List.Find`). */
  function FirstWithFacet(cells: Arena, s: seq<CellId>, t: Tri): (r: Option<nat>)
    ensures r.Some? ==> r.value < |s| && HasFacetAt(cells, s[r.value], t)
    ensures r.Some? ==> forall j :: 0 <= j < r.value ==> !HasFacetAt(cells, s[j], t)
    ensures r.None? ==> forall j :: 0 <= j < |s| ==> !HasFacetAt(cells, s[j], t)
  {
    if |s| == 0 then None
    else if HasFacetAt(cells, s[0], t) then Some(0)
    else match FirstWithFacet(cells, s[1..], t)
      case None => None
      case Some(k) => Some(k + 1)
  }

  /** `GetFacingNode`: the first neighbour of `self` that shares facet `t`, or
      `None` (C# `null`) when `self` lacks `t` or no neighbour has it. */
  function FacingNode(cells: Arena, self: CellId, t: Tri): (r: Option<CellId>)
    requires self in cells
    ensures r.Some? ==> cells[self].tet.HasFace(t) && HasFacetAt(cells, r.value, t)
    ensures r.Some? ==> exists i :: 0 <= i < |cells[self].nbrs| && cells[self].nbrs[i] == r.value
                          && forall j :: 0 <= j < i ==> !HasFacetAt(cells, cells[self].nbrs[j], t)
    ensures r.None? <==> !cells[self].tet.HasFace(t)
                         || forall j :: 0 <= j < |cells[self].nbrs| ==> !HasFacetAt(cells, cells[self].nbrs[j], t)
  {
    if !cells[self].tet.HasFace(t) then None
    else match FirstWithFacet(cells, cells[self].nbrs, t)
      case None => None
      case Some(i) => Some(cells[self].nbrs[i])
  }

  /** The neighbour list `s` with every entry that has facet `t` replaced by `replacer`. */
  function Substitute(cells: Arena, s: seq<CellId>, t: Tri, replacer: CellId): (r: seq<CellId>)
    ensures |r| == |s|
    ensures forall i :: 0 <= i < |s| ==> r[i] == if HasFacetAt(cells, s[i], t) then replacer else s[i]
  {
    if |s| == 0 then []
    else [if HasFacetAt(cells, s[0], t) then replacer else s[0]] + Substitute(cells, s[1..], t, replacer)
  }

  /** `ReplaceFacingNode`: in the neighbour list of `self`, every entry across `t`
      becomes `replacer`; nothing happens when `replacer` itself lacks `t`. */
  function ReplaceFacing(cells: Arena, self: CellId, t: Tri, replacer: CellId): (r: Arena)
    requires self in cells
    ensures !HasFacetAt(cells, replacer, t) ==> r == cells
    ensures SameShape(cells, r)
    ensures forall k :: k in cells && k != self ==> r[k] == cells[k]
    ensures |r[self].nbrs| == |cells[self].nbrs|
    ensures Closed(cells) && replacer in cells ==> Closed(r)
    ensures HasFacetAt(cells, replacer, t) ==>
              forall i :: 0 <= i < |cells[self].nbrs| ==>
                r[self].nbrs[i] == if HasFacetAt(cells, cells[self].nbrs[i], t) then replacer else cells[self].nbrs[i]
    ensures HasFacetAt(cells, replacer, t) ==>
              forall i :: 0 <= i < |r[self].nbrs| && HasFacetAt(r, r[self].nbrs[i], t) ==> r[self].nbrs[i] == replacer
  {
    if !HasFacetAt(cells, replacer, t) then cells
    else cells[self := cells[self].(nbrs := Substitute(cells, cells[self].nbrs, t, replacer))]
  }

  /** `SetNeighbor`: `n` takes over, across `t`, the neighbour that `self` had
      there. When there is one (`pair`), `n` appends it to its own list and `pair`
      has its entries across `t` replaced by `n`; otherwise nothing changes. */
  function SetNeighbor(cells: Arena, self: CellId, n: CellId, t: Tri): (r: Arena)
    requires self in cells && n in cells
    ensures SameShape(cells, r)
    ensures Closed(cells) ==> Closed(r)
    ensures FacingNode(cells, self, t).None? ==> r == cells
    ensures forall k :: k in cells && k != n ==> |r[k].nbrs| == |cells[k].nbrs|
    ensures |cells[n].nbrs| <= |r[n].nbrs| <= |cells[n].nbrs| + 1
    ensures FacingNode(cells, self, t).Some? ==>
              var pair := FacingNode(cells, self, t).value;
              && (forall k :: k in cells && k != n && k != pair ==> r[k] == cells[k])
              && (pair != n ==> r[n].nbrs == cells[n].nbrs + [pair])
              && (pair != n ==> forall i :: 0 <= i < |cells[pair].nbrs| ==>
                    r[pair].nbrs[i] == if HasFacetAt(cells, n, t) && HasFacetAt(cells, cells[pair].nbrs[i], t)
                                       then n else cells[pair].nbrs[i])
  {
    match FacingNode(cells, self, t)
    case None => cells
    case Some(pair) => TakeOver(cells, n, pair, t)
  }

  /** The found branch of `SetNeighbor`: `n` appends `pair`, and `pair` points
      its entries across `t` at `n`. */
  function TakeOver(cells: Arena, n: CellId, pair: CellId, t: Tri): (r: Arena)
    requires n in cells && pair in cells
    ensures SameShape(cells, r)
    ensures Closed(cells) ==> Closed(r)
    ensures forall k :: k in cells && k != n ==> |r[k].nbrs| == |cells[k].nbrs|
    ensures |r[n].nbrs| == |cells[n].nbrs| + 1
    ensures forall k :: k in cells && k != n && k != pair ==> r[k] == cells[k]
    ensures pair != n ==> r[n].nbrs == cells[n].nbrs + [pair]
    ensures pair != n ==> forall i :: 0 <= i < |cells[pair].nbrs| ==>
              r[pair].nbrs[i] == if HasFacetAt(cells, n, t) && HasFacetAt(cells, cells[pair].nbrs[i], t)
                                 then n else cells[pair].nbrs[i]
  {
    var linked := Attach(cells, n, pair);
    assert forall x :: HasFacetAt(linked, x, t) == HasFacetAt(cells, x, t);
    ReplaceFacing(linked, pair, t, n)
  }

  /** `n` appends `pair` to its list. */
  function Attach(cells: Arena, n: CellId, pair: CellId): (r: Arena)
    requires n in cells && pair in cells
    ensures SameShape(cells, r)
    ensures Closed(cells) ==> Closed(r)
    ensures forall k :: k in cells && k != n ==> r[k] == cells[k]
    ensures r[n].nbrs == cells[n].nbrs + [pair]
  {
    cells[n := cells[n].(nbrs := cells[n].nbrs + [pair])]
  }

  /** After `SetNeighbor`, the link between `n` and the neighbour it took over is
      symmetric, and that neighbour no longer lists the retiring cell `self`. */
  lemma SetNeighborSymmetric(cells: Arena, self: CellId, n: CellId, t: Tri)
    requires self in cells && n in cells
    requires FacingNode(cells, self, t).Some?
    requires FacingNode(cells, self, t).value != n && self != n
    requires self in cells[FacingNode(cells, self, t).value].nbrs
    requires cells[n].tet.HasFace(t)
    ensures var pair := FacingNode(cells, self, t).value;
            var r := SetNeighbor(cells, self, n, t);
            && pair in r[n].nbrs
            && n in r[pair].nbrs
            && self !in r[pair].nbrs
  {
    var pair := FacingNode(cells, self, t).value;
    var r := SetNeighbor(cells, self, n, t);
    assert HasFacetAt(cells, self, t);
    var i :| 0 <= i < |cells[pair].nbrs| && cells[pair].nbrs[i] == self;
    assert r[pair].nbrs[i] == n;
    assert r[n].nbrs[|r[n].nbrs| - 1] == pair;
  }

  /** One `SetNeighbor` call: `src.SetNeighbor(born, face)`. */
  datatype Link = Link(src: CellId, born: CellId, face: Tri)

  predicate Linkable(cells: Arena, links: seq<Link>) {
    forall i :: 0 <= i < |links| ==> links[i].src in cells && links[i].born in cells
  }

  /** How many of `links` attach to cell `k`. */
  function Born(links: seq<Link>, k: CellId): nat {
    if |links| == 0 then 0 else (if links[0].born == k then 1 else 0) + Born(links[1..], k)
  }

  /** The `SetNeighbor` calls of one cell operation, performed in order. */
  function Splice(cells: Arena, links: seq<Link>): (r: Arena)
    requires Linkable(cells, links)
    ensures SameShape(cells, r)
    ensures Closed(cells) ==> Closed(r)
    ensures forall k :: k in cells ==> |cells[k].nbrs| <= |r[k].nbrs| <= |cells[k].nbrs| + Born(links, k)
    decreases |links|
  {
    if |links| == 0 then cells
    else
      var c1 := SetNeighbor(cells, links[0].src, links[0].born, links[0].face);
      assert Linkable(c1, links[1..]);
      Splice(c1, links[1..])
  }

  /** No call attaches to `n`. */
  lemma {:induction false} BornNone(links: seq<Link>, n: CellId)
    requires forall j :: 0 <= j < |links| ==> links[j].born != n
    ensures Born(links, n) == 0
    decreases |links|
  {
    if |links| > 0 {
      assert forall j :: 0 <= j < |links[1..]| ==> links[1..][j] == links[j + 1];
      BornNone(links[1..], n);
    }
  }

  /** Only call `i` attaches to `n`. */
  lemma {:induction false} BornOne(links: seq<Link>, i: nat, n: CellId)
    requires i < |links| && links[i].born == n
    requires forall j :: 0 <= j < |links| && j != i ==> links[j].born != n
    ensures Born(links, n) == 1
    decreases |links|
  {
    var rest := links[1..];
    assert forall j :: 0 <= j < |rest| ==> rest[j] == links[j + 1];
    if i == 0 {
      BornNone(rest, n);
    } else {
      BornOne(rest, i - 1, n);
    }
  }

  /** Exactly calls `i` and `k` attach to `n`. */
  lemma {:induction false} BornTwo(links: seq<Link>, i: nat, k: nat, n: CellId)
    requires i < k < |links| && links[i].born == n && links[k].born == n
    requires forall j :: 0 <= j < |links| && j != i && j != k ==> links[j].born != n
    ensures Born(links, n) == 2
    decreases |links|
  {
    var rest := links[1..];
    assert forall j :: 0 <= j < |rest| ==> rest[j] == links[j + 1];
    if i == 0 {
      BornOne(rest, k - 1, n);
    } else {
      BornTwo(rest, i - 1, k - 1, n);
    }
  }

  /** Exactly calls `i`, `k` and `m` attach to `n`. */
  lemma {:induction false} BornThree(links: seq<Link>, i: nat, k: nat, m: nat, n: CellId)
    requires i < k < m < |links| && links[i].born == n && links[k].born == n && links[m].born == n
    requires forall j :: 0 <= j < |links| && j != i && j != k && j != m ==> links[j].born != n
    ensures Born(links, n) == 3
    decreases |links|
  {
    var rest := links[1..];
    assert forall j :: 0 <= j < |rest| ==> rest[j] == links[j + 1];
    if i == 0 {
      BornTwo(rest, k - 1, m - 1, n);
    } else {
      BornThree(rest, i - 1, k - 1, m - 1, n);
    }
  }

  /** The neighbours that the calls in `links` find for cell `n`, in call order. */
  function Found(cells: Arena, links: seq<Link>, n: CellId): seq<CellId>
    requires forall i :: 0 <= i < |links| ==> links[i].src in cells
  {
    if |links| == 0 then [] else FoundBy(cells, links[0], n) + Found(cells, links[1..], n)
  }

  /** What one call contributes to `Found` for cell `n`. */
  function FoundBy(cells: Arena, l: Link, n: CellId): seq<CellId>
    requires l.src in cells
  {
    if l.born == n then Listed(FacingNode(cells, l.src, l.face)) else []
  }

  /** The calls of `links` cannot disturb one another: every source is an old cell
      whose list holds only other old cells, every attached cell is new, and no
      face spliced through one source is a face of a different source. */
  predicate Independent(cells: Arena, next: nat, links: seq<Link>) {
    && (forall i :: 0 <= i < |links| ==>
          links[i].src in cells && links[i].src < next && links[i].born in cells && next <= links[i].born)
    && (forall i, j :: 0 <= i < |links| && 0 <= j < |cells[links[i].src].nbrs| ==>
          cells[links[i].src].nbrs[j] < next && cells[links[i].src].nbrs[j] != links[i].src)
    && (forall i, j :: 0 <= i < |links| && 0 <= j < |links| && links[j].src != links[i].src ==>
          !HasFacetAt(cells, links[j].src, links[i].face))
  }

  /** `FacingNode` reads only the list of `self` and the facets of its entries. */
  lemma FacingNodeFrame(c1: Arena, c2: Arena, self: CellId, t: Tri)
    requires self in c1 && self in c2 && c1[self] == c2[self]
    requires forall j :: 0 <= j < |c1[self].nbrs| ==>
               HasFacetAt(c1, c1[self].nbrs[j], t) == HasFacetAt(c2, c1[self].nbrs[j], t)
    ensures FacingNode(c1, self, t) == FacingNode(c2, self, t)
  {
    FirstWithFacetFrame(c1, c2, c1[self].nbrs, t);
  }

  lemma {:induction false} FirstWithFacetFrame(c1: Arena, c2: Arena, s: seq<CellId>, t: Tri)
    requires forall j :: 0 <= j < |s| ==> HasFacetAt(c1, s[j], t) == HasFacetAt(c2, s[j], t)
    ensures FirstWithFacet(c1, s, t) == FirstWithFacet(c2, s, t)
    decreases |s|
  {
    if |s| > 0 {
      FirstWithFacetFrame(c1, c2, s[1..], t);
    }
  }

  /** The neighbour that the first call of an independent list takes over is an
      old cell different from every source. */
  lemma TakenOverIsOutsider(cells: Arena, next: nat, links: seq<Link>)
    requires Independent(cells, next, links) && |links| > 0
    requires FacingNode(cells, links[0].src, links[0].face).Some?
    ensures var pair := FacingNode(cells, links[0].src, links[0].face).value;
            pair < next && forall j :: 0 <= j < |links| ==> links[j].src != pair
  {
    var l := links[0];
    var pair := FacingNode(cells, l.src, l.face).value;
    var i :| 0 <= i < |cells[l.src].nbrs| && cells[l.src].nbrs[i] == pair;
    assert cells[links[0].src].nbrs[i] < next && cells[links[0].src].nbrs[i] != links[0].src;
    forall j | 0 <= j < |links|
      ensures links[j].src != pair
    {
      if links[j].src != l.src {
        assert !HasFacetAt(cells, links[j].src, links[0].face);
      }
    }
  }

  /** One independent call leaves every source alone and appends what it found
      to the cell it attaches. */
  lemma SpliceStep(cells: Arena, next: nat, links: seq<Link>)
    requires Independent(cells, next, links) && |links| > 0
    ensures var c1 := SetNeighbor(cells, links[0].src, links[0].born, links[0].face);
            && SameShape(cells, c1)
            && (forall j :: 0 <= j < |links| ==> c1[links[j].src] == cells[links[j].src])
  {
    var l := links[0];
    if FacingNode(cells, l.src, l.face).Some? {
      TakenOverIsOutsider(cells, next, links);
    }
  }

  lemma SpliceStepAt(cells: Arena, next: nat, links: seq<Link>, n: CellId)
    requires Independent(cells, next, links) && |links| > 0
    requires n in cells && next <= n
    ensures SetNeighbor(cells, links[0].src, links[0].born, links[0].face)[n].nbrs
            == cells[n].nbrs + (if links[0].born == n then Listed(FacingNode(cells, links[0].src, links[0].face)) else [])
  {
    var l := links[0];
    var c1 := SetNeighbor(cells, l.src, l.born, l.face);
    if FacingNode(cells, l.src, l.face).Some? {
      TakenOverIsOutsider(cells, next, links);
      if n != l.born {
        assert c1[n] == cells[n];
      }
    }
  }

  lemma SpliceStepIndependent(cells: Arena, next: nat, links: seq<Link>)
    requires Independent(cells, next, links) && |links| > 0
    ensures var c1 := SetNeighbor(cells, links[0].src, links[0].born, links[0].face);
            && Independent(c1, next, links[1..])
            && (forall j :: 0 <= j < |links| - 1 ==>
                  FacingNode(c1, links[1..][j].src, links[1..][j].face)
                  == FacingNode(cells, links[1..][j].src, links[1..][j].face))
  {
    var c1 := SetNeighbor(cells, links[0].src, links[0].born, links[0].face);
    var rest := links[1..];
    SpliceStep(cells, next, links);
    assert forall x, u :: HasFacetAt(c1, x, u) == HasFacetAt(cells, x, u);
    forall j | 0 <= j < |rest|
      ensures c1[rest[j].src] == cells[rest[j].src]
    {
      assert rest[j] == links[j + 1];
    }
    forall i, j | 0 <= i < |rest| && 0 <= j < |rest| && rest[j].src != rest[i].src
      ensures !HasFacetAt(c1, rest[j].src, rest[i].face)
    {
      assert rest[i] == links[i + 1] && rest[j] == links[j + 1];
    }
    forall j | 0 <= j < |rest|
      ensures FacingNode(c1, rest[j].src, rest[j].face) == FacingNode(cells, rest[j].src, rest[j].face)
    {
      FacingNodeFrame(c1, cells, rest[j].src, rest[j].face);
    }
  }

  /** Call `i` is the only call of `links` whose source finds, across its face,
      the neighbour that call `i` finds. */
  predicate Sole(cells: Arena, links: seq<Link>, i: nat)
    requires forall j :: 0 <= j < |links| ==> links[j].src in cells
    requires i < |links|
  {
    forall j :: 0 <= j < |links| && j != i ==>
      FacingNode(cells, links[j].src, links[j].face) != FacingNode(cells, links[i].src, links[i].face)
  }

  /** Cell `q` of `r` is cell `q` of `cells` with every entry across `t`
      replaced by `n`: the `ReplaceFacingNode` half of a `SetNeighbor` call. */
  predicate Relinked(cells: Arena, r: Arena, q: CellId, t: Tri, n: CellId) {
    q in cells && q in r && r[q] == cells[q].(nbrs := Substitute(cells, cells[q].nbrs, t, n))
  }

  /** After a relink, `n` stands where `x` stood: a cell across `t` that was
      listed is listed no more, and `n` is. */
  lemma SubstituteBack(cells: Arena, s: seq<CellId>, t: Tri, n: CellId, x: CellId)
    requires HasFacetAt(cells, x, t) && x in s && x != n
    ensures n in Substitute(cells, s, t, n) && x !in Substitute(cells, s, t, n)
  {
    var r := Substitute(cells, s, t, n);
    var i :| 0 <= i < |s| && s[i] == x;
    assert r[i] == n;
  }

  lemma SubstituteFrame(c1: Arena, c2: Arena, s: seq<CellId>, t: Tri, n: CellId)
    requires forall j :: 0 <= j < |s| ==> HasFacetAt(c1, s[j], t) == HasFacetAt(c2, s[j], t)
    ensures Substitute(c1, s, t, n) == Substitute(c2, s, t, n)
  {
  }

  /** The call that takes over `q` relinks it, when the attached cell has the face. */
  lemma SetNeighborRelinks(cells: Arena, self: CellId, n: CellId, t: Tri)
    requires self in cells && n in cells
    requires FacingNode(cells, self, t).Some? && FacingNode(cells, self, t).value != n
    requires HasFacetAt(cells, n, t)
    ensures Relinked(cells, SetNeighbor(cells, self, n, t), FacingNode(cells, self, t).value, t, n)
  {
    var q := FacingNode(cells, self, t).value;
    var r := SetNeighbor(cells, self, n, t);
    assert |r[q].nbrs| == |cells[q].nbrs|;
  }

  /** A call that neither attaches to `x` nor takes it over leaves it alone. */
  lemma SetNeighborLeaves(cells: Arena, self: CellId, n: CellId, t: Tri, x: CellId)
    requires self in cells && n in cells && x in cells && x != n
    requires FacingNode(cells, self, t) != Some(x)
    ensures SetNeighbor(cells, self, n, t)[x] == cells[x]
  {
  }

  /** An old cell that no independent call takes over ends as it was. */
  lemma {:induction false} SpliceUntouched(cells: Arena, next: nat, links: seq<Link>, x: CellId)
    requires Independent(cells, next, links)
    requires x in cells && x < next
    requires forall j :: 0 <= j < |links| ==> FacingNode(cells, links[j].src, links[j].face) != Some(x)
    ensures Linkable(cells, links)
    ensures Splice(cells, links)[x] == cells[x]
    decreases |links|
  {
    if |links| > 0 {
      var rest := links[1..];
      var c1 := SetNeighbor(cells, links[0].src, links[0].born, links[0].face);
      SetNeighborLeaves(cells, links[0].src, links[0].born, links[0].face, x);
      SpliceStepIndependent(cells, next, links);
      assert forall j :: 0 <= j < |rest| ==> rest[j] == links[j + 1];
      SpliceUntouched(c1, next, rest, x);
    }
  }

  /** The outside half of an independent splice: the neighbour `q` that call `i`
      alone takes over ends relinked, its entries across the face pointing at
      the attached cell, provided that cell has the face. */
  lemma {:induction false} SpliceRelinks(cells: Arena, next: nat, links: seq<Link>, i: nat)
    requires Independent(cells, next, links) && i < |links|
    requires FacingNode(cells, links[i].src, links[i].face).Some?
    requires HasFacetAt(cells, links[i].born, links[i].face) && Sole(cells, links, i)
    ensures Linkable(cells, links)
    ensures Relinked(cells, Splice(cells, links), FacingNode(cells, links[i].src, links[i].face).value,
                     links[i].face, links[i].born)
    decreases |links|
  {
    var q := FacingNode(cells, links[i].src, links[i].face).value;
    var rest := links[1..];
    var c1 := SetNeighbor(cells, links[0].src, links[0].born, links[0].face);
    SpliceStepIndependent(cells, next, links);
    if i == 0 {
      var k :| 0 <= k < |cells[links[i].src].nbrs| && cells[links[i].src].nbrs[k] == q;
      assert q < next && q != links[i].born;
      assert forall j :: 0 <= j < |rest| ==> rest[j] == links[j + 1];
      SetNeighborRelinks(cells, links[0].src, links[0].born, links[0].face);
      SpliceUntouched(c1, next, rest, q);
    } else {
      RelinksStep(cells, next, links, i);
      SpliceRelinks(c1, next, rest, i - 1);
      SubstituteFrame(c1, cells, cells[q].nbrs, links[i].face, links[i].born);
    }
  }

  /** The step of `SpliceRelinks` past a first call other than `i`: the rest of
      the calls, on the arena the first call leaves, meet its hypotheses for
      call `i - 1`, which finds the same neighbour, left as it was. */
  lemma RelinksStep(cells: Arena, next: nat, links: seq<Link>, i: nat)
    requires Independent(cells, next, links) && 0 < i < |links|
    requires FacingNode(cells, links[i].src, links[i].face).Some?
    requires HasFacetAt(cells, links[i].born, links[i].face) && Sole(cells, links, i)
    ensures var c1 := SetNeighbor(cells, links[0].src, links[0].born, links[0].face);
            var rest := links[1..];
            var q := FacingNode(cells, links[i].src, links[i].face).value;
            && Independent(c1, next, rest) && rest[i - 1] == links[i]
            && FacingNode(c1, rest[i - 1].src, rest[i - 1].face) == Some(q)
            && HasFacetAt(c1, rest[i - 1].born, rest[i - 1].face)
            && Sole(c1, rest, i - 1)
            && q in c1 && c1[q] == cells[q]
            && forall j :: 0 <= j < |cells[q].nbrs| ==>
                 HasFacetAt(c1, cells[q].nbrs[j], links[i].face) == HasFacetAt(cells, cells[q].nbrs[j], links[i].face)
  {
    var q := FacingNode(cells, links[i].src, links[i].face).value;
    var rest := links[1..];
    var c1 := SetNeighbor(cells, links[0].src, links[0].born, links[0].face);
    assert forall j :: 0 <= j < |rest| ==> rest[j] == links[j + 1];
    var k :| 0 <= k < |cells[links[i].src].nbrs| && cells[links[i].src].nbrs[k] == q;
    assert q < next && q != links[i].born;
    SpliceStepIndependent(cells, next, links);
    assert FacingNode(cells, links[0].src, links[0].face) != Some(q);
    SetNeighborLeaves(cells, links[0].src, links[0].born, links[0].face, q);
    assert FacingNode(c1, rest[i - 1].src, rest[i - 1].face) == Some(q);
    assert forall j :: 0 <= j < |rest| && j != i - 1 ==>
      FacingNode(c1, rest[j].src, rest[j].face) != FacingNode(c1, rest[i - 1].src, rest[i - 1].face);
    assert forall x, u :: HasFacetAt(c1, x, u) == HasFacetAt(cells, x, u);
  }

  /** An old cell that no call can take over keeps its cell unchanged. */
  lemma {:induction false} SpliceKeeps(cells: Arena, next: nat, links: seq<Link>, x: CellId)
    requires Independent(cells, next, links)
    requires x in cells && x < next
    requires forall i :: 0 <= i < |links| ==> x == links[i].src || !HasFacetAt(cells, x, links[i].face)
    ensures Linkable(cells, links)
    ensures Splice(cells, links)[x] == cells[x]
    decreases |links|
  {
    if |links| > 0 {
      var rest := links[1..];
      var c1 := SetNeighbor(cells, links[0].src, links[0].born, links[0].face);
      SpliceStepIndependent(cells, next, links);
      SpliceKeepsStep(cells, next, links, x);
      assert forall i :: 0 <= i < |rest| ==> rest[i] == links[i + 1];
      SpliceKeeps(c1, next, rest, x);
    }
  }

  lemma SpliceKeepsStep(cells: Arena, next: nat, links: seq<Link>, x: CellId)
    requires Independent(cells, next, links) && |links| > 0
    requires x in cells && x < next
    requires x == links[0].src || !HasFacetAt(cells, x, links[0].face)
    ensures var c1 := SetNeighbor(cells, links[0].src, links[0].born, links[0].face);
            c1[x] == cells[x] && forall u :: HasFacetAt(c1, x, u) == HasFacetAt(cells, x, u)
  {
    var f := FacingNode(cells, links[0].src, links[0].face);
    if f.Some? {
      var i :| 0 <= i < |cells[links[0].src].nbrs| && cells[links[0].src].nbrs[i] == f.value;
      assert x != f.value;
    }
  }

  /** Under independence the calls compose cleanly: the sources keep their
      lists, and each new cell ends with its own list followed by the neighbours
      that its calls found in the arena as it was before any call. */
  lemma SpliceIndependent(cells: Arena, next: nat, links: seq<Link>)
    requires Independent(cells, next, links)
    ensures Linkable(cells, links)
    ensures forall i :: 0 <= i < |links| ==> Splice(cells, links)[links[i].src] == cells[links[i].src]
    ensures forall n :: n in cells && next <= n ==>
              Splice(cells, links)[n].nbrs == cells[n].nbrs + Found(cells, links, n)
  {
    forall i | 0 <= i < |links|
      ensures Splice(cells, links)[links[i].src] == cells[links[i].src]
    {
      SpliceKeeps(cells, next, links, links[i].src);
    }
    SpliceGrows(cells, next, links);
  }

  lemma {:induction false} SpliceGrows(cells: Arena, next: nat, links: seq<Link>)
    requires Independent(cells, next, links)
    ensures Linkable(cells, links)
    ensures forall n :: n in cells && next <= n ==>
              Splice(cells, links)[n].nbrs == cells[n].nbrs + Found(cells, links, n)
  {
    forall n | n in cells && next <= n
      ensures Splice(cells, links)[n].nbrs == cells[n].nbrs + Found(cells, links, n)
    {
      SpliceGrowsAt(cells, next, links, n);
    }
  }

  lemma {:induction false} SpliceGrowsAt(cells: Arena, next: nat, links: seq<Link>, n: CellId)
    requires Independent(cells, next, links)
    requires n in cells && next <= n
    ensures Linkable(cells, links)
    ensures Splice(cells, links)[n].nbrs == cells[n].nbrs + Found(cells, links, n)
    decreases |links|
  {
    if |links| > 0 {
      var rest := links[1..];
      var c1 := SetNeighbor(cells, links[0].src, links[0].born, links[0].face);
      SpliceStepAt(cells, next, links, n);
      SpliceStepIndependent(cells, next, links);
      SpliceGrowsAt(c1, next, rest, n);
      FoundFrame(c1, cells, rest);
      var head := FoundBy(cells, links[0], n);
      assert Splice(cells, links) == Splice(c1, rest);
      assert c1[n].nbrs == cells[n].nbrs + head;
      assert Found(cells, links, n) == head + Found(cells, rest, n);
      Regroup(cells[n].nbrs, head, Found(cells, rest, n));
    }
  }

  lemma {:induction false} FoundFrame(c1: Arena, c2: Arena, links: seq<Link>)
    requires forall j :: 0 <= j < |links| ==> links[j].src in c1 && links[j].src in c2
    requires forall j :: 0 <= j < |links| ==>
               FacingNode(c1, links[j].src, links[j].face) == FacingNode(c2, links[j].src, links[j].face)
    ensures forall n :: Found(c1, links, n) == Found(c2, links, n)
    decreases |links|
  {
    if |links| > 0 {
      var rest := links[1..];
      assert forall j :: 0 <= j < |rest| ==> rest[j] == links[j + 1];
      FoundFrame(c1, c2, rest);
    }
  }

  /** No call attaches to `n`: nothing is found for it. */
  lemma {:induction false} FoundNone(cells: Arena, links: seq<Link>, n: CellId)
    requires forall j :: 0 <= j < |links| ==> links[j].src in cells && links[j].born != n
    ensures Found(cells, links, n) == []
    decreases |links|
  {
    if |links| > 0 {
      assert forall j :: 0 <= j < |links[1..]| ==> links[1..][j] == links[j + 1];
      FoundNone(cells, links[1..], n);
    }
  }

  /** Only call `i` attaches to `n`: what is found for `n` is what that call finds. */
  lemma {:induction false} FoundOne(cells: Arena, links: seq<Link>, i: nat, n: CellId)
    requires forall j :: 0 <= j < |links| ==> links[j].src in cells
    requires i < |links| && links[i].born == n
    requires forall j :: 0 <= j < |links| && j != i ==> links[j].born != n
    ensures Found(cells, links, n) == Listed(FacingNode(cells, links[i].src, links[i].face))
    decreases |links|
  {
    var rest := links[1..];
    assert forall j :: 0 <= j < |rest| ==> rest[j] == links[j + 1];
    if i == 0 {
      FoundNone(cells, rest, n);
    } else {
      FoundOne(cells, rest, i - 1, n);
    }
  }

  /** Exactly calls `i` and `k` (`i < k`) attach to `n`: their finds, in order. */
  lemma {:induction false} FoundTwo(cells: Arena, links: seq<Link>, i: nat, k: nat, n: CellId)
    requires forall j :: 0 <= j < |links| ==> links[j].src in cells
    requires i < k < |links| && links[i].born == n && links[k].born == n
    requires forall j :: 0 <= j < |links| && j != i && j != k ==> links[j].born != n
    ensures Found(cells, links, n) == Listed(FacingNode(cells, links[i].src, links[i].face))
                                      + Listed(FacingNode(cells, links[k].src, links[k].face))
    decreases |links|
  {
    var rest := links[1..];
    assert forall j :: 0 <= j < |rest| ==> rest[j] == links[j + 1];
    if i == 0 {
      FoundOne(cells, rest, k - 1, n);
    } else {
      FoundTwo(cells, rest, i - 1, k - 1, n);
    }
  }

  /** Exactly calls `i`, `k` and `m` (`i < k < m`) attach to `n`: their finds, in order. */
  lemma {:induction false} FoundThree(cells: Arena, links: seq<Link>, i: nat, k: nat, m: nat, n: CellId)
    requires forall j :: 0 <= j < |links| ==> links[j].src in cells
    requires i < k < m < |links| && links[i].born == n && links[k].born == n && links[m].born == n
    requires forall j :: 0 <= j < |links| && j != i && j != k && j != m ==> links[j].born != n
    ensures Found(cells, links, n) == Listed(FacingNode(cells, links[i].src, links[i].face))
                                      + Listed(FacingNode(cells, links[k].src, links[k].face))
                                      + Listed(FacingNode(cells, links[m].src, links[m].face))
    decreases |links|
  {
    var rest := links[1..];
    assert forall j :: 0 <= j < |rest| ==> rest[j] == links[j + 1];
    var li := Listed(FacingNode(cells, links[i].src, links[i].face));
    var lk := Listed(FacingNode(cells, links[k].src, links[k].face));
    var lm := Listed(FacingNode(cells, links[m].src, links[m].face));
    assert Found(cells, links, n) == FoundBy(cells, links[0], n) + Found(cells, rest, n);
    if i == 0 {
      FoundTwo(cells, rest, k - 1, m - 1, n);
      assert rest[k - 1] == links[k] && rest[m - 1] == links[m];
      assert FoundBy(cells, links[0], n) == li;
      assert Found(cells, rest, n) == lk + lm;
      assert li + (lk + lm) == li + lk + lm;
    } else {
      FoundThree(cells, rest, i - 1, k - 1, m - 1, n);
      assert rest[i - 1] == links[i] && rest[k - 1] == links[k] && rest[m - 1] == links[m];
      assert Found(cells, rest, n) == li + lk + lm;
      assert FoundBy(cells, links[0], n) == [];
      assert Found(cells, links, n) == Found(cells, rest, n);
    }
  }
}
