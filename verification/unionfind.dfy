/** The disjoint-set forest that recomputeClusters builds over tile ids:
    flat parent and rank arrays, find with path halving, union by rank. */
module UnionFind {

  datatype UF = UF(parent: seq<nat>, rank: seq<nat>) {
    function Size(): nat {
      |parent|
    }
  }

  /** A well-formed forest: parents are in range and ranks strictly
      increase from a node to its parent, so following parents ends at a
      root (a node that is its own parent). */
  predicate Valid(uf: UF) {
    && |uf.rank| == |uf.parent|
    && (forall x :: 0 <= x < |uf.parent| ==> uf.parent[x] < |uf.parent|)
    && (forall x :: 0 <= x < |uf.parent| && uf.parent[x] != x ==>
          uf.rank[x] < uf.rank[uf.parent[x]])
  }

  function MaxRank(rank: seq<nat>): (m: nat)
    ensures forall i :: 0 <= i < |rank| ==> rank[i] <= m
  {
    if |rank| == 0 then 0
    else
      var m := MaxRank(rank[..|rank| - 1]);
      assert forall i :: 0 <= i < |rank| - 1 ==> rank[..|rank| - 1][i] == rank[i];
      if rank[|rank| - 1] > m then rank[|rank| - 1] else m
  }

  /** The root reached from x by following parents. */
  ghost function Root(uf: UF, x: nat): (r: nat)
    requires Valid(uf) && x < uf.Size()
    ensures r < uf.Size() && uf.parent[r] == r
    decreases MaxRank(uf.rank) - uf.rank[x]
  {
    if uf.parent[x] == x then x else Root(uf, uf.parent[x])
  }

  lemma RootIdempotent(uf: UF, x: nat)
    requires Valid(uf) && x < uf.Size()
    ensures Root(uf, Root(uf, x)) == Root(uf, x)
  {
  }

  /** The initial forest: every tile its own root, every rank zero. */
  function Init(n: nat): (uf: UF)
    ensures Valid(uf) && uf.Size() == n
    ensures forall x :: 0 <= x < n ==> Root(uf, x) == x
  {
    UF(seq(n, i => i), seq(n, _ => 0))
  }

  /** One path-halving step: x's parent pointer skips to its grandparent. */
  lemma {:induction false} HalvingStep(uf: UF, x: nat, y: nat)
    requires Valid(uf) && x < uf.Size() && y < uf.Size()
    ensures Valid(UF(uf.parent[x := uf.parent[uf.parent[x]]], uf.rank))
    ensures Root(UF(uf.parent[x := uf.parent[uf.parent[x]]], uf.rank), y) == Root(uf, y)
    decreases MaxRank(uf.rank) - uf.rank[y]
  {
    var p := uf.parent;
    var uf' := UF(p[x := p[p[x]]], uf.rank);
    assert Valid(uf');
    if y == x {
      if p[x] != x {
        HalvingStep(uf, x, p[p[x]]);
        assert Root(uf, p[x]) == Root(uf, p[p[x]]);
      }
    } else if p[y] != y {
      HalvingStep(uf, x, p[y]);
    }
  }

  /** uf2 assigns every node the root uf assigns it. */
  ghost predicate SameRoots(uf: UF, uf2: UF)
    requires Valid(uf) && Valid(uf2) && uf2.Size() == uf.Size()
  {
    forall y :: 0 <= y < uf.Size() ==> Root(uf2, y) == Root(uf, y)
  }

  /** find: follows parents from x to its root, pointing every node it
      passes at its grandparent (path halving). Halving never changes any
      node's root. */
  method Find(uf: UF, x: nat) returns (root: nat, uf': UF)
    requires Valid(uf) && x < uf.Size()
    ensures Valid(uf') && uf'.Size() == uf.Size() && uf'.rank == uf.rank
    ensures root == Root(uf, x) && root < uf.Size() && uf'.parent[root] == root
    ensures SameRoots(uf, uf')
  {
    uf' := uf;
    var current: nat := x;
    while uf'.parent[current] != current
      invariant Valid(uf') && uf'.Size() == uf.Size() && uf'.rank == uf.rank
      invariant current < uf.Size()
      invariant SameRoots(uf, uf')
      invariant Root(uf', current) == Root(uf, x)
      decreases MaxRank(uf.rank) - uf.rank[current]
    {
      var p := uf'.parent;
      forall y | 0 <= y < uf.Size()
        ensures Root(UF(p[current := p[p[current]]], uf.rank), y) == Root(uf', y)
      {
        HalvingStep(uf', current, y);
      }
      HalvingStep(uf', current, current);
      uf' := UF(p[current := p[p[current]]], uf.rank);
      current := uf'.parent[current];
    }
    root := current;
  }

  /** Making root lo a child of root hi moves exactly lo's set under hi. */
  lemma {:induction false} LinkRoots(uf: UF, uf': UF, lo: nat, hi: nat, y: nat)
    requires Valid(uf) && Valid(uf')
    requires lo < uf.Size() && hi < uf.Size() && y < uf.Size()
    requires uf.parent[lo] == lo && uf.parent[hi] == hi && lo != hi
    requires uf'.parent == uf.parent[lo := hi]
    ensures Root(uf', y) == if Root(uf, y) == lo then hi else Root(uf, y)
    decreases MaxRank(uf.rank) - uf.rank[y]
  {
    if uf.parent[y] != y {
      LinkRoots(uf, uf', lo, hi, uf.parent[y]);
    }
  }

  /** uf2 is uf with the sets of a and b merged and every other set kept. */
  ghost predicate Merged(uf: UF, uf2: UF, a: nat, b: nat)
    requires Valid(uf) && a < uf.Size() && b < uf.Size()
  {
    && Valid(uf2) && uf2.Size() == uf.Size()
    && Root(uf2, a) == Root(uf2, b)
    && (Root(uf2, a) == Root(uf, a) || Root(uf2, a) == Root(uf, b))
    && (forall y :: 0 <= y < uf.Size() ==>
          Root(uf2, y) == if Root(uf, y) == Root(uf, a) || Root(uf, y) == Root(uf, b)
                          then Root(uf2, a) else Root(uf, y))
  }

  /** Links root lo under root hi, raising hi's rank when asked. */
  method Link(uf: UF, lo: nat, hi: nat, raise: bool) returns (uf': UF)
    requires Valid(uf) && lo < uf.Size() && hi < uf.Size() && lo != hi
    requires uf.parent[lo] == lo && uf.parent[hi] == hi
    requires raise ==> uf.rank[lo] == uf.rank[hi]
    requires !raise ==> uf.rank[lo] < uf.rank[hi]
    ensures Valid(uf') && uf'.Size() == uf.Size()
    ensures forall y :: 0 <= y < uf.Size() ==>
              Root(uf', y) == if Root(uf, y) == lo then hi else Root(uf, y)
  {
    var rank := if raise then uf.rank[hi := uf.rank[hi] + 1] else uf.rank;
    uf' := UF(uf.parent[lo := hi], rank);
    forall y | 0 <= y < uf.Size() ensures Root(uf', y) == if Root(uf, y) == lo then hi else Root(uf, y) {
      LinkRoots(uf, uf', lo, hi, y);
    }
  }

  /** union: links the root of lower rank under the other; on equal ranks
      b's root goes under a's root, whose rank grows by one. The sets of a
      and b merge and every other set is unchanged. */
  method Union(uf: UF, a: nat, b: nat) returns (uf': UF)
    requires Valid(uf) && a < uf.Size() && b < uf.Size()
    ensures Merged(uf, uf', a, b)
  {
    var ra, uf1 := Find(uf, a);
    var rb, uf2 := Find(uf1, b);
    if ra == rb {
      uf' := uf2;
      return;
    }
    if uf2.rank[ra] < uf2.rank[rb] {
      uf' := Link(uf2, ra, rb, false);
      return;
    }
    if uf2.rank[rb] < uf2.rank[ra] {
      uf' := Link(uf2, rb, ra, false);
      return;
    }
    uf' := Link(uf2, rb, ra, true);
  }
}
