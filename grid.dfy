/**
 * The hyperparameter grid of datamining.execute_lda: five nested loops over
 * the number of topics, the Dirichlet prior, the random seed, the number of
 * passes and the iteration cap, visited in that nesting order.
 */
module Grid {
  import opened PathCodec

  /** Python `range(lo, hi)`. */
  function Range(lo: nat, hi: nat): (r: seq<nat>)
    requires lo <= hi
    ensures |r| == hi - lo
    ensures forall i :: 0 <= i < |r| ==> r[i] == lo + i
  {
    seq(hi - lo, i requires 0 <= i < hi - lo => lo + i)
  }

  const Ks: seq<nat> := Range(2, 20 + 1)
  const Priors: seq<string> := ["auto"]
  const Seeds: seq<nat> := [42, 99]
  const Passes: seq<nat> := [5, 10, 15, 20]
  const Iterations: seq<nat> := [200]

  /** 19 topic counts x 1 prior x 2 seeds x 4 pass counts x 1 iteration cap. */
  const GridSize: nat := 152

  /** The cell the loops reach at step `n` (the lists of priors and iteration caps have one entry each). */
  function CellAt(n: nat): Params
    requires n < GridSize
  {
    Params(Ks[n / 8], Priors[0], Seeds[n / 4 % 2], Passes[n % 4], Iterations[0])
  }

  /** Every cell of the grid in the order the nested loops visit it. */
  function Cells(): (g: seq<Params>)
    ensures |g| == GridSize
  {
    seq(GridSize, n requires 0 <= n < GridSize => CellAt(n))
  }

  /**
   * The loops' indices name the cell at their position in loop order. The
   * strides are the sizes of the inner lists multiplied out: 1 * 2 * 4 * 1 = 8
   * for a topic count, 2 * 4 * 1 = 8 for a prior, 4 * 1 = 4 for a seed, 1 for
   * a pass count and for an iteration cap.
   */
  lemma CellsAt(ki: nat, pi: nat, si: nat, pai: nat, ii: nat)
    requires ki < |Ks| && pi < |Priors| && si < |Seeds| && pai < |Passes| && ii < |Iterations|
    ensures ki * 8 + pi * 8 + si * 4 + pai + ii < GridSize
    ensures Cells()[ki * 8 + pi * 8 + si * 4 + pai + ii] == Params(Ks[ki], Priors[pi], Seeds[si], Passes[pai], Iterations[ii])
  {
    var n := ki * 8 + pi * 8 + si * 4 + pai + ii;
    assert n == 8 * ki + 4 * si + pai;
    assert n / 8 == ki;
    assert n / 4 == 2 * ki + si;
    assert n / 4 % 2 == si;
    assert n % 4 == pai;
  }

  /** A cell is in the grid exactly when each of its values is in the corresponding list. */
  lemma CellsMembership(c: Params)
    ensures c in Cells() <==>
              c.k in Ks && c.prior in Priors && c.seed in Seeds && c.passes in Passes && c.iterations in Iterations
  {
    if c in Cells() {
      var n :| 0 <= n < GridSize && Cells()[n] == c;
      CellAtValues(n);
    }
    if c.k in Ks && c.prior in Priors && c.seed in Seeds && c.passes in Passes && c.iterations in Iterations {
      var ki :| 0 <= ki < |Ks| && Ks[ki] == c.k;
      var si :| 0 <= si < |Seeds| && Seeds[si] == c.seed;
      var pai :| 0 <= pai < |Passes| && Passes[pai] == c.passes;
      CellsAt(ki, 0, si, pai, 0);
    }
  }

  /** Each value of the cell at step `n` comes from its list. */
  lemma CellAtValues(n: nat)
    requires n < GridSize
    ensures CellAt(n).k in Ks && CellAt(n).prior in Priors && CellAt(n).seed in Seeds
    ensures CellAt(n).passes in Passes && CellAt(n).iterations in Iterations
  {
    assert n / 8 < |Ks| && n / 4 % 2 < |Seeds| && n % 4 < |Passes|;
  }

  /** Every grid cell can be written as path components. */
  lemma CellsValid()
    ensures forall c :: c in Cells() ==> ValidParams(c)
  {
    forall c | c in Cells()
      ensures ValidParams(c)
    {
      CellsMembership(c);
    }
  }

  /** Nested-loop order: by topic count, then seed, then pass count (one prior, one iteration cap). */
  predicate Before(a: Params, b: Params)
  {
    a.k < b.k || (a.k == b.k && (a.seed < b.seed || (a.seed == b.seed && a.passes < b.passes)))
  }

  lemma CellAtBefore(i: nat, j: nat)
    requires i < j < GridSize
    ensures Before(CellAt(i), CellAt(j))
  {
    Digits(i);
    Digits(j);
    var ci, cj := CellAt(i), CellAt(j);
    assert ci.k == 2 + i / 8 && cj.k == 2 + j / 8;
    assert ci.passes == 5 + 5 * (i % 4) && cj.passes == 5 + 5 * (j % 4);
    assert (ci.seed < cj.seed) == (i / 4 % 2 < j / 4 % 2) && (ci.seed == cj.seed) == (i / 4 % 2 == j / 4 % 2);
  }

  /** A step number in mixed radix: topic count, seed, pass count. */
  lemma Digits(n: nat)
    ensures n == 8 * (n / 8) + 4 * (n / 4 % 2) + n % 4
    ensures 0 <= n / 4 % 2 < 2 && 0 <= n % 4 < 4
  {
  }

  /** The loops visit the cells in strictly increasing order, so no cell comes twice. */
  lemma CellsOrdered()
    ensures forall i, j :: 0 <= i < j < GridSize ==> Before(Cells()[i], Cells()[j])
    ensures forall i, j :: 0 <= i < j < GridSize ==> Cells()[i] != Cells()[j]
  {
    forall i, j | 0 <= i < j < GridSize
      ensures Before(Cells()[i], Cells()[j])
    {
      CellAtBefore(i, j);
    }
  }
}
