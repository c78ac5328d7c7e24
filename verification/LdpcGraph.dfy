/** The lifted quasi-cyclic parity-check graph, in its sparse (edge list) and dense (matrix) forms. */
module LdpcGraph {
  import opened Common
  import opened Gf2

  /** One base-graph entry: a shift for each of the eight lifting-set indices. */
  datatype BaseEdge = BaseEdge(row: nat, col: nat, shift: seq<int>)

  datatype Graph = Graph(mb: nat, nb: nat, kb: nat, zc: nat, iLs: nat, edges: seq<BaseEdge>) {
    function N(): nat { nb * zc }
    function K(): nat { kb * zc }
    function M(): nat { mb * zc }

    /** What decoding and the syndrome test need so that every index they form is in range. */
    ghost predicate Valid() {
      && zc > 0 && kb <= nb && iLs < 8
      && forall i | 0 <= i < |edges| :: edges[i].row < mb && edges[i].col < nb && |edges[i].shift| == 8
    }

    /** What encode_ge needs on top: the parity columns fit beside the information columns. */
    predicate Encodable() { kb + mb <= nb }
  }

  /** One entry of the lifted graph. */
  datatype SparseEdge = SparseEdge(check: nat, v: nat)

  function ModShift(v: int, zc: nat): (m: nat)
    requires zc > 0
    ensures m == v % zc
  {
    var m := TruncMod(v, zc);
    if m < 0 then
      NegativeRemainder(-v, zc);
      m + zc
    else
      NegativeRemainder(-v, zc);
      m
  }

  lemma NegativeRemainder(v: int, m: nat)
    requires m > 0
    ensures (-v) % m == if v % m == 0 then 0 else m - v % m
  {
    var q, r := v / m, v % m;
    assert v == m * q + r;
    if r == 0 {
      ModUnique(-v, m, -q, 0);
    } else {
      assert m * (-q - 1) == -(m * q) - m;
      ModUnique(-v, m, -q - 1, m - r);
    }
  }

  function LiftedVar(colBlock: nat, shift: nat, rowWithin: nat, zc: nat): nat
    requires zc > 0
  {
    colBlock * zc + Rem(rowWithin + shift, zc)
  }

  function LiftedEdge(g: Graph, e: BaseEdge, z: nat): (s: SparseEdge)
    requires g.Valid() && e in g.edges && z < g.zc
    ensures s.check < g.M() && s.v < g.N()
  {
    BlockIndex(e.row, g.mb, g.zc, z);
    var sh := ModShift(e.shift[g.iLs], g.zc);
    BlockIndex(e.col, g.nb, g.zc, Rem(z + sh, g.zc));
    SparseEdge(e.row * g.zc + z, LiftedVar(e.col, sh, z, g.zc))
  }

  /** The first n lifted copies of a base edge. */
  function Lifted(g: Graph, e: BaseEdge, n: nat): (s: seq<SparseEdge>)
    requires g.Valid() && e in g.edges && n <= g.zc
  {
    seq(n, z requires 0 <= z < n => LiftedEdge(g, e, z))
  }

  /** The lifted graph of the first n base edges; entries with a negative shift are absent. */
  function ExpandedTo(g: Graph, n: nat): (s: seq<SparseEdge>)
    requires g.Valid() && n <= |g.edges|
    ensures InRange(s, g.M(), g.N())
  {
    if n == 0 then []
    else
      var e := g.edges[n - 1];
      ExpandedTo(g, n - 1) + (if e.shift[g.iLs] < 0 then [] else Lifted(g, e, g.zc))
  }

  function Expanded(g: Graph): (s: seq<SparseEdge>)
    requires g.Valid()
    ensures InRange(s, g.M(), g.N())
  {
    ExpandedTo(g, |g.edges|)
  }

  ghost predicate InRange(s: seq<SparseEdge>, m: nat, n: nat) {
    forall i | 0 <= i < |s| :: s[i].check < m && s[i].v < n
  }

  ghost predicate VarsBelow(s: seq<SparseEdge>, n: nat) {
    forall i | 0 <= i < |s| :: s[i].v < n
  }

  /** The lifted graph joins check e.row * zc + z with variable e.col * zc + (z + shift) mod zc for every
      base edge e whose shift is not negative, and nothing else. */
  lemma ExpandedMeans(g: Graph, s: SparseEdge)
    requires g.Valid()
    ensures s in Expanded(g) <==> exists k, z :: 0 <= k < |g.edges| && 0 <= z < g.zc && Joins(g, g.edges[k], z, s)
  {
    ExpandedToMeans(g, |g.edges|, s);
  }

  ghost predicate Joins(g: Graph, e: BaseEdge, z: nat, s: SparseEdge)
    requires g.Valid() && e in g.edges
  {
    var shift := e.shift[g.iLs];
    shift >= 0 && s.check == e.row * g.zc + z && s.v == e.col * g.zc + (z + shift) % g.zc
  }

  lemma {:induction false} ExpandedToMeans(g: Graph, n: nat, s: SparseEdge)
    requires g.Valid() && n <= |g.edges|
    ensures s in ExpandedTo(g, n) <==> exists k, z :: 0 <= k < n && 0 <= z < g.zc && Joins(g, g.edges[k], z, s)
  {
    hide Joins;
    if n > 0 {
      var e := g.edges[n - 1];
      ExpandedToMeans(g, n - 1, s);
      LiftedMeans(g, e, s);
      if e.shift[g.iLs] < 0 { assert ExpandedTo(g, n) == ExpandedTo(g, n - 1); }
    }
  }

  lemma LiftedMeans(g: Graph, e: BaseEdge, s: SparseEdge)
    requires g.Valid() && e in g.edges
    ensures e.shift[g.iLs] >= 0 ==> (s in Lifted(g, e, g.zc) <==> exists z :: 0 <= z < g.zc && Joins(g, e, z, s))
    ensures e.shift[g.iLs] < 0 ==> forall z | 0 <= z < g.zc :: !Joins(g, e, z, s)
  {
    if e.shift[g.iLs] >= 0 {
      forall z | 0 <= z < g.zc ensures LiftedEdge(g, e, z) == s <==> Joins(g, e, z, s) {
        LiftedEdgeJoins(g, e, z);
      }
      if z :| 0 <= z < g.zc && Joins(g, e, z, s) { assert Lifted(g, e, g.zc)[z] == s; }
    }
  }

  lemma LiftedEdgeJoins(g: Graph, e: BaseEdge, z: nat)
    requires g.Valid() && e in g.edges && e.shift[g.iLs] >= 0 && z < g.zc
    ensures LiftedEdge(g, e, z)
      == SparseEdge(e.row * g.zc + z, e.col * g.zc + (z + e.shift[g.iLs]) % g.zc)
  {
    var shift: nat := e.shift[g.iLs];
    ModAdd(shift, z, g.zc);
    assert shift + z == z + shift && shift % g.zc + z == z + shift % g.zc;
  }

  /** Parity of check c on word w, taken along the edge list. */
  function CheckParity(edges: seq<SparseEdge>, c: nat, w: Bits): bool
    requires VarsBelow(edges, |w|)
  {
    if edges == [] then false
    else
      var i := |edges| - 1;
      CheckParity(edges[..i], c, w) != (edges[i].check == c && w[edges[i].v])
  }

  /** w satisfies every parity check of the lifted graph. */
  ghost predicate Codeword(g: Graph, w: Bits)
    requires g.Valid()
  {
    |w| == g.N() && forall c | 0 <= c < g.M() :: !CheckParity(Expanded(g), c, w)
  }

  // ---------------------------------------------------------------- the dense form

  /** Entry (r, c) of the matrix obtained by toggling one bit per listed edge. */
  function EdgeParity(edges: seq<SparseEdge>, r: nat, c: nat): bool {
    if edges == [] then false
    else EdgeParity(edges[..|edges| - 1], r, c) != (edges[|edges| - 1] == SparseEdge(r, c))
  }

  function DenseRow(edges: seq<SparseEdge>, r: nat, n: nat): (row: Bits)
    ensures |row| == n
  {
    seq(n, c requires 0 <= c < n => EdgeParity(edges, r, c))
  }

  /** Sparse and dense parities agree for every edge list, repeated edges included. */
  lemma {:induction false} SparseIsDense(edges: seq<SparseEdge>, r: nat, w: Bits)
    requires VarsBelow(edges, |w|)
    ensures CheckParity(edges, r, w) == Dot(DenseRow(edges, r, |w|), w, |w|)
  {
    var n := |w|;
    if edges == [] {
      DotAgree(DenseRow(edges, r, n), Zeros(n), w, Zeros(n), n);
      DotUnit(Zeros(n), Zeros(n), n, n);
    } else {
      var last := edges[|edges| - 1];
      var init := edges[..|edges| - 1];
      SparseIsDense(init, r, w);
      var unit := seq(n, c requires 0 <= c < n => last == SparseEdge(r, c));
      var row, row' := DenseRow(init, r, n), DenseRow(edges, r, n);
      assert row' == XorBits(row, unit);
      DotCommutes(row', w, n);
      DotXor(w, row, unit, n);
      DotCommutes(row, w, n);
      if last.check == r {
        DotCommutes(w, unit, n);
        DotUnit(unit, w, n, last.v);
      } else {
        DotCommutes(w, unit, n);
        DotUnit(unit, w, n, n);
      }
    }
  }

  /** Codewords form a linear space. */
  lemma {:induction false} CheckParityXor(edges: seq<SparseEdge>, c: nat, x: Bits, y: Bits)
    requires |x| == |y| && VarsBelow(edges, |x|)
    ensures CheckParity(edges, c, XorBits(x, y)) == (CheckParity(edges, c, x) != CheckParity(edges, c, y))
  {
    if edges != [] { CheckParityXor(edges[..|edges| - 1], c, x, y); }
  }

  lemma CodewordXor(g: Graph, x: Bits, y: Bits)
    requires g.Valid() && Codeword(g, x) && |y| == g.N()
    ensures Codeword(g, XorBits(x, y)) <==> Codeword(g, y)
  {
    forall c | 0 <= c < g.M() {
      CheckParityXor(Expanded(g), c, x, y);
    }
  }

  // ---------------------------------------------------------------- building both forms

  /** The edge list used by the decoder. */
  method ExpandEdges(g: Graph) returns (out: seq<SparseEdge>)
    requires g.Valid()
    ensures out == Expanded(g)
  {
    out := [];
    for i := 0 to |g.edges|
      invariant out == ExpandedTo(g, i)
    {
      var e := g.edges[i];
      if e.shift[g.iLs] < 0 { continue; }
      ghost var was := out;
      for z := 0 to g.zc
        invariant out == was + Lifted(g, e, z)
      {
        out := out + [LiftedEdge(g, e, z)];
      }
    }
  }

  /** h is the matrix obtained by toggling one bit per listed edge. */
  ghost predicate Toggled(h: array2<bool>, edges: seq<SparseEdge>)
    reads h
  {
    forall r, c | 0 <= r < h.Length0 && 0 <= c < h.Length1 :: h[r, c] == EdgeParity(edges, r, c)
  }

  lemma EdgeParitySnoc(edges: seq<SparseEdge>, e: SparseEdge)
    ensures forall r, c :: EdgeParity(edges + [e], r, c) == (EdgeParity(edges, r, c) != (e == SparseEdge(r, c)))
  {
    assert (edges + [e])[..|edges|] == edges;
  }

  method Toggle(h: array2<bool>, s: SparseEdge, ghost edges: seq<SparseEdge>)
    requires s.check < h.Length0 && s.v < h.Length1 && Toggled(h, edges)
    modifies h
    ensures Toggled(h, edges + [s])
  {
    EdgeParitySnoc(edges, s);
    h[s.check, s.v] := !h[s.check, s.v];
  }

  /** The dense parity-check matrix, one XOR per lifted edge. */
  method BuildH(g: Graph) returns (h: array2<bool>)
    requires g.Valid()
    ensures fresh(h) && h.Length0 == g.M() && h.Length1 == g.N()
    ensures Toggled(h, Expanded(g))
  {
    hide Toggled;
    h := new bool[g.M(), g.N()]((r, c) => false);
    assert Toggled(h, []) by { NothingToggled(h); }
    for i := 0 to |g.edges|
      invariant Toggled(h, ExpandedTo(g, i))
    {
      var e := g.edges[i];
      ghost var was := ExpandedTo(g, i);
      if e.shift[g.iLs] < 0 {
        assert ExpandedTo(g, i + 1) == was;
        continue;
      }
      assert was + Lifted(g, e, 0) == was;
      for z := 0 to g.zc
        invariant Toggled(h, was + Lifted(g, e, z))
      {
        var s := LiftedEdge(g, e, z);
        assert was + Lifted(g, e, z + 1) == was + Lifted(g, e, z) + [s];
        Toggle(h, s, was + Lifted(g, e, z));
      }
      assert ExpandedTo(g, i + 1) == was + Lifted(g, e, g.zc);
    }
  }

  lemma NothingToggled(h: array2<bool>)
    requires forall r, c | 0 <= r < h.Length0 && 0 <= c < h.Length1 :: !h[r, c]
    ensures Toggled(h, [])
  {
  }

  /** The dense syndrome test accepts exactly the words the sparse one accepts. */
  method SyndromeOk(g: Graph, w: Bits) returns (r: Option<bool>)
    requires g.Valid()
    ensures r == if |w| == g.N() then Some(Codeword(g, w)) else None
  {
    if |w| != g.N() { return None; }
    var h := BuildH(g);
    var n := g.N();
    for c := 0 to g.M()
      invariant Toggled(h, Expanded(g))
      invariant forall c' | 0 <= c' < c :: !CheckParity(Expanded(g), c', w)
    {
      ghost var row := DenseRow(Expanded(g), c, n);
      var s := false;
      for k := 0 to n
        invariant Toggled(h, Expanded(g)) && s == Dot(row, w, k)
      {
        if h[c, k] { s := s != w[k]; }
      }
      SparseIsDense(Expanded(g), c, w);
      if s { return Some(false); }
    }
    return Some(true);
  }
}
