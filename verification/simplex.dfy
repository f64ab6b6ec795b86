/** Combinatorial primitives: triangles and tetrahedra over abstract vertex ids.
    The triangulation only ever compares points by exact equality, so a point is
    an integer id and all coordinate geometry lives in oracles (module Builder). */
module Simplex {
  import opened Wrappers

  /** A point of the triangulation, identified by exact equality. */
  type Vertex = int

  /** A triangle `Triangle(a, b, c)`; its identity is its vertex set. */
  datatype Tri = Tri(a: Vertex, b: Vertex, c: Vertex) {
    function Verts(): set<Vertex> {
      {a, b, c}
    }

    /** The three edges of the triangle, in the order ab, bc, ca. */
    function Edges(): (r: seq<set<Vertex>>)
      ensures |r| == 3
      ensures forall k :: 0 <= k < 3 ==> |r[k]| <= 2 && r[k] <= Verts()
    {
      [{a, b}, {b, c}, {c, a}]
    }

    /** `Triangle.Remaining`: the edge left when corner `v` is taken away, read
        cyclically from the first corner equal to `v`; `None` when `v` is not a
        corner. */
    function Remaining(v: Vertex): (r: Option<Seg>)
      ensures r.Some? <==> v in Verts()
      ensures r.Some? ==> Verts() == {v, r.value.a, r.value.b}
    {
      if v == a then Some(Seg(b, c))
      else if v == b then Some(Seg(c, a))
      else if v == c then Some(Seg(a, b))
      else None
    }
  }

  /** A `Segment` between two points. */
  datatype Seg = Seg(a: Vertex, b: Vertex)

  /** A tetrahedron `Tetrahedra(a, b, c, d)`. */
  datatype Tet = Tet(a: Vertex, b: Vertex, c: Vertex, d: Vertex) {
    function Verts(): set<Vertex> {
      {a, b, c, d}
    }

    /** `Tetrahedra.HasFace`: all three corners of `t` are corners of this tetrahedron. */
    predicate HasFace(t: Tri) {
      t.Verts() <= Verts()
    }

    /** `Tetrahedra.RemainingPoint`: a corner that is not on `t`; there is none
        exactly when every corner lies on `t`. */
    function RemainingPoint(t: Tri): (r: Option<Vertex>)
      ensures r.Some? ==> r.value in Verts() && r.value !in t.Verts()
      ensures r.None? <==> Verts() <= t.Verts()
    {
      if a !in t.Verts() then Some(a)
      else if b !in t.Verts() then Some(b)
      else if c !in t.Verts() then Some(c)
      else if d !in t.Verts() then Some(d)
      else None
    }
  }

  /** The four corners are pairwise different. */
  predicate NonDegenerate(th: Tet) {
    && th.a != th.b && th.a != th.c && th.a != th.d
    && th.b != th.c && th.b != th.d && th.c != th.d
  }

  /** The three corners are pairwise different. */
  predicate TriNonDegenerate(t: Tri) {
    t.a != t.b && t.b != t.c && t.a != t.c
  }

  /** On a tetrahedron with four different corners that has `t` as a face, the
      remaining point is the one corner off `t`: the tetrahedron is `t` plus it. */
  lemma RemainingPointCompletes(th: Tet, t: Tri)
    requires NonDegenerate(th) && th.HasFace(t)
    requires TriNonDegenerate(t)
    ensures th.RemainingPoint(t).Some?
    ensures th.Verts() == t.Verts() + {th.RemainingPoint(t).value}
  {
    var q := th.RemainingPoint(t);
    assert |th.Verts()| == 4;
    assert |t.Verts()| == 3;
    if q.None? {
      SubsetCard(th.Verts(), t.Verts());
      assert false;
    }
    CompleteBy(th.Verts(), t.Verts(), q.value);
  }

  /** A set of three inside a set of four, plus the one element it misses, is the four. */
  lemma CompleteBy(s: set<Vertex>, f: set<Vertex>, v: Vertex)
    requires |s| == 4 && |f| == 3 && f <= s && v in s && v !in f
    ensures s == f + {v}
  {
    var rest := s - {v};
    assert |rest| == 3;
    SubsetCardEq(f, rest);
  }

  lemma SubsetCard(a: set<Vertex>, b: set<Vertex>)
    requires a <= b
    ensures |a| <= |b|
  {
    assert b == a + (b - a);
  }

  lemma SubsetCardEq(a: set<Vertex>, b: set<Vertex>)
    requires a <= b && |a| == |b|
    ensures a == b
  {
    assert b == a + (b - a);
    assert |b - a| == 0;
  }
}
