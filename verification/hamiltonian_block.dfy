/** The block object around the matrix: its dimension and the flag that
    guards the eigen-decomposition. The eigensolver is foreign code, so its
    results enter as parameters: `V` stands for the eigenvalue vector and `U`
    for the eigenvector matrix. */
module HamiltonianBlock {
  import opened Wrappers
  import opened Occupations
  import opened Combinatorics

  /** `dim`: the number of basis states with charge q among n modes. */
  function Dim(n: nat, q: nat): (d: nat)
    ensures q > n ==> d == 0
    ensures q <= n ==> d >= 1
  {
    Binomial(n, q)
  }

  /** The dimension counts the sector: state numbers 0 .. Dim(n, q) - 1 name
      every basis state exactly once, and it is n! / (q! (n - q)!). */
  lemma DimCountsSector(n: nat, q: nat)
    ensures forall s :: InSector(s, n, q) ==> Rank(s) < Dim(n, q) && Unrank(n, q, Rank(s)) == s
    ensures forall r :: 0 <= r < Dim(n, q) ==> InSector(Unrank(n, q, r), n, q) && Rank(Unrank(n, q, r)) == r
    ensures q <= n ==> Dim(n, q) * Factorial(q) * Factorial(n - q) == Factorial(n)
  {
    RankBijection(n, q);
    if q <= n {
      BinomialFactorial(n, q);
    }
  }

  /** What a block knows about its spectrum: the `diagonalized` flag and the
      `evs` and `U` attributes, `None` while the attribute is unset. */
  datatype Spectrum<V, U> = Spectrum(diagonalized: bool, evs: Option<V>, u: Option<U>)

  /** A freshly built block: not diagonalized, nothing computed. */
  function Fresh<V, U>(): (b: Spectrum<V, U>)
    ensures Consistent(b) && !b.diagonalized
  {
    Spectrum(false, None, None)
  }

  /** The flag is set exactly when eigenvalues are present, and eigenvectors
      are only ever present alongside them. */
  predicate Consistent<V, U>(b: Spectrum<V, U>) {
    (b.diagonalized <==> b.evs.Some?) && (b.u.Some? ==> b.diagonalized)
  }

  /** `diagonalize`: a no-op once the flag is set; otherwise stores the
      eigenvalues and, for a full diagonalization only, the eigenvectors, and
      sets the flag. `full` is the solver's (w, v) for `LA.eig`, `values`
      its result for `LA.eigvals`. */
  function Diagonalize<V, U>(b: Spectrum<V, U>, fullDiagonalization: bool, full: (V, U), values: V): (r: Spectrum<V, U>)
    ensures b.diagonalized ==> r == b
    ensures r.diagonalized
    ensures Consistent(b) ==> Consistent(r)
    ensures !b.diagonalized ==> r.evs == Some(if fullDiagonalization then full.0 else values)
    ensures !b.diagonalized && fullDiagonalization ==> r.u == Some(full.1)
    ensures !b.diagonalized && !fullDiagonalization ==> r.u == b.u
  {
    if b.diagonalized then b
    else if fullDiagonalization then Spectrum(true, Some(full.0), Some(full.1))
    else Spectrum(true, Some(values), b.u)
  }

  /** A second call changes nothing, whatever it asks for. */
  lemma DiagonalizeIdempotent<V, U>(b: Spectrum<V, U>, f1: bool, full1: (V, U), values1: V, f2: bool, full2: (V, U), values2: V)
    ensures Diagonalize(Diagonalize(b, f1, full1, values1), f2, full2, values2) == Diagonalize(b, f1, full1, values1)
  {
  }

  /** `eigenvalues`: the stored eigenvalues; `None` where the assertion on the
      flag fails. */
  function Eigenvalues<V, U>(b: Spectrum<V, U>): (r: Option<V>)
    ensures r.Some? ==> b.diagonalized && r == b.evs
    ensures Consistent(b) ==> (r.Some? <==> b.diagonalized)
  {
    if b.diagonalized then b.evs else None
  }

  /** `U_matrix`: the stored eigenvectors; `None` where the assertion on the
      flag fails or where only the eigenvalues were computed and `U` was never
      set. */
  function UMatrix<V, U>(b: Spectrum<V, U>): (r: Option<U>)
    ensures r.Some? <==> b.diagonalized && b.u.Some?
    ensures r.Some? ==> r == b.u
  {
    if b.diagonalized then b.u else None
  }

  /** `D_matrix`, reduced to its diagonal: entry a is eigenvalue a for a in
      [0, dim); `None` where the assertion on the flag fails or where fewer
      than dim eigenvalues are stored. Off-diagonal entries are zero. */
  function DMatrix<E, U>(b: Spectrum<seq<E>, U>, dim: nat): (r: Option<seq<E>>)
    ensures r.Some? <==> b.diagonalized && b.evs.Some? && |b.evs.value| >= dim
    ensures r.Some? ==> |r.value| == dim && forall a :: 0 <= a < dim ==> r.value[a] == Eigenvalues(b).value[a]
  {
    if b.diagonalized && b.evs.Some? && |b.evs.value| >= dim then Some(b.evs.value[..dim]) else None
  }

  /** From a fresh block, the eigenvectors are available exactly when the
      first call asked for a full diagonalization: a later full request does
      not compute them. */
  lemma EigenvectorsFromFirstCall<V, U>(f1: bool, full1: (V, U), values1: V, f2: bool, full2: (V, U), values2: V)
    ensures UMatrix(Diagonalize(Diagonalize(Fresh<V, U>(), f1, full1, values1), f2, full2, values2)).Some? <==> f1
    ensures Eigenvalues(Diagonalize(Diagonalize(Fresh<V, U>(), f1, full1, values1), f2, full2, values2)) == Some(if f1 then full1.0 else values1)
  {
    DiagonalizeIdempotent(Fresh<V, U>(), f1, full1, values1, f2, full2, values2);
  }
}
