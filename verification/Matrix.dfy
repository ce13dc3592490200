/** testa_matrix.c: the plain matrix product and its three blocked, unrolled forms.
    N, ib and kb are parameters here; integers do not overflow. */
module Matrix {
  import opened Arith

  /** The first k terms of the sum that belongs into row i, column j. */
  ghost function Dot(A: array2<int>, B: array2<int>, i: nat, j: nat, k: nat): int
    requires Square(A, k) && Square(B, k) && i < B.Length0 && j < A.Length1
    reads A, B
  {
    if k == 0 then 0 else Dot(A, B, i, j, k - 1) + A[k - 1, j] * B[i, k - 1]
  }

  /** M is square with at least k rows. */
  predicate Square(M: array2<int>, k: nat) {
    M.Length0 == M.Length1 >= k
  }

  predicate Shapes(C: array2<int>, A: array2<int>, B: array2<int>, n: nat) {
    && C != A && C != B
    && Square(A, n) && Square(B, n) && Square(C, n)
    && A.Length0 == B.Length0 == C.Length0 == n
  }

  /** Rows r0..r1, columns c0..c1 of C hold their sums up to term k. Nothing is said for k = 0. */
  ghost predicate Summed(C: array2<int>, A: array2<int>, B: array2<int>, n: nat,
                         r0: nat, r1: nat, c0: nat, c1: nat, k: nat)
    requires Shapes(C, A, B, n) && r1 <= n && c1 <= n && k <= n
    reads A, B, C
  {
    k > 0 ==> forall i, j :: r0 <= i < r1 && c0 <= j < c1 ==> C[i, j] == Dot(A, B, i, j, k)
  }

  method Multiply(C: array2<int>, A: array2<int>, B: array2<int>, n: nat)
    requires Shapes(C, A, B, n)
    modifies C
    ensures forall i, j :: 0 <= i < n && 0 <= j < n ==> C[i, j] == Dot(A, B, i, j, n)
  {
    for i := 0 to n
      invariant forall r, c :: 0 <= r < i && 0 <= c < n ==> C[r, c] == Dot(A, B, r, c, n)
    {
      for j := 0 to n
        invariant forall r, c :: 0 <= r < i && 0 <= c < n ==> C[r, c] == Dot(A, B, r, c, n)
        invariant forall c :: 0 <= c < j ==> C[i, c] == Dot(A, B, i, c, n)
      {
        C[i, j] := 0;
        for k := 0 to n
          invariant forall r, c :: 0 <= r < i && 0 <= c < n ==> C[r, c] == Dot(A, B, r, c, n)
          invariant forall c :: 0 <= c < j ==> C[i, c] == Dot(A, B, i, c, n)
          invariant C[i, j] == Dot(A, B, i, j, k)
        {
          C[i, j] := C[i, j] + A[k, j] * B[i, k];
        }
      }
    }
  }

  /** The body shared by the unrolled forms: four accumulators run over terms kk..kend for a block of 2 by 2. */
  method Update2x2(C: array2<int>, A: array2<int>, B: array2<int>, n: nat, i: nat, j: nat, kk: nat, kend: nat)
    requires Shapes(C, A, B, n) && i + 2 <= n && j + 2 <= n && kk <= kend <= n && kend > 0
    requires Summed(C, A, B, n, i, i + 2, j, j + 2, kk)
    modifies C
    ensures Summed(C, A, B, n, i, i + 2, j, j + 2, kend)
    ensures forall r, c :: 0 <= r < n && 0 <= c < n && !(i <= r < i + 2 && j <= c < j + 2) ==> C[r, c] == old(C[r, c])
  {
    var acc00, acc01, acc10, acc11 := 0, 0, 0, 0;
    if kk != 0 {
      acc00, acc01, acc10, acc11 := C[i, j], C[i, j + 1], C[i + 1, j], C[i + 1, j + 1];
    }
    for k := kk to kend
      invariant acc00 == Dot(A, B, i, j, k) && acc01 == Dot(A, B, i, j + 1, k)
      invariant acc10 == Dot(A, B, i + 1, j, k) && acc11 == Dot(A, B, i + 1, j + 1, k)
    {
      acc00 := acc00 + A[k, j] * B[i, k];
      acc01 := acc01 + A[k, j + 1] * B[i, k];
      acc10 := acc10 + A[k, j] * B[i + 1, k];
      acc11 := acc11 + A[k, j + 1] * B[i + 1, k];
    }
    C[i, j], C[i, j + 1], C[i + 1, j], C[i + 1, j + 1] := acc00, acc01, acc10, acc11;
  }

  /** A pair of columns j, j + 1 over rows r0..r1: the innermost block loop. */
  method UpdateStrip(C: array2<int>, A: array2<int>, B: array2<int>, n: nat,
                     r0: nat, r1: nat, j: nat, kk: nat, kend: nat)
    requires Shapes(C, A, B, n) && r0 <= r1 <= n && (r1 - r0) % 2 == 0 && j + 2 <= n && kk <= kend <= n && kend > 0
    requires Summed(C, A, B, n, r0, r1, j, j + 2, kk)
    modifies C
    ensures Summed(C, A, B, n, r0, r1, j, j + 2, kend)
    ensures forall r, c :: 0 <= r < n && 0 <= c < n && !(r0 <= r < r1 && j <= c < j + 2) ==> C[r, c] == old(C[r, c])
  {
    var i := r0;
    while i < r1
      invariant r0 <= i <= r1 && (r1 - i) % 2 == 0
      invariant Summed(C, A, B, n, r0, i, j, j + 2, kend)
      invariant Summed(C, A, B, n, i, r1, j, j + 2, kk)
      invariant forall r, c :: 0 <= r < n && 0 <= c < n && !(r0 <= r < r1 && j <= c < j + 2) ==> C[r, c] == old(C[r, c])
    {
      Update2x2(C, A, B, n, i, j, kk, kend);
      i := i + 2;
    }
  }

  /** Rows r0..r1 of C, all columns: the loop over j. */
  method UpdateBand(C: array2<int>, A: array2<int>, B: array2<int>, n: nat, r0: nat, r1: nat, kk: nat, kend: nat)
    requires Shapes(C, A, B, n) && r0 <= r1 <= n && (r1 - r0) % 2 == 0 && n % 2 == 0 && kk <= kend <= n && kend > 0
    requires Summed(C, A, B, n, r0, r1, 0, n, kk)
    modifies C
    ensures Summed(C, A, B, n, r0, r1, 0, n, kend)
    ensures forall r, c :: 0 <= r < n && 0 <= c < n && !(r0 <= r < r1) ==> C[r, c] == old(C[r, c])
  {
    var j := 0;
    while j < n
      invariant j <= n && j % 2 == 0
      invariant Summed(C, A, B, n, r0, r1, 0, j, kend)
      invariant Summed(C, A, B, n, r0, r1, j, n, kk)
      invariant forall r, c :: 0 <= r < n && 0 <= c < n && !(r0 <= r < r1) ==> C[r, c] == old(C[r, c])
    {
      UpdateStrip(C, A, B, n, r0, r1, j, kk, kend);
      j := j + 2;
    }
  }

  /** Unrolled two by two. */
  method Multiply1(C: array2<int>, A: array2<int>, B: array2<int>, n: nat)
    requires Shapes(C, A, B, n) && n % 2 == 0
    modifies C
    ensures forall i, j :: 0 <= i < n && 0 <= j < n ==> C[i, j] == Dot(A, B, i, j, n)
  {
    var i := 0;
    while i < n
      invariant i <= n && i % 2 == 0
      invariant Summed(C, A, B, n, 0, i, 0, n, n)
    {
      UpdatePair(C, A, B, n, i);
      i := i + 2;
    }
  }

  /** A pair of rows i, i + 1: the inner loop of the first unrolled form. */
  method UpdatePair(C: array2<int>, A: array2<int>, B: array2<int>, n: nat, i: nat)
    requires Shapes(C, A, B, n) && n % 2 == 0 && i + 2 <= n
    modifies C
    ensures Summed(C, A, B, n, i, i + 2, 0, n, n)
    ensures forall r, c :: 0 <= r < n && 0 <= c < n && !(i <= r < i + 2) ==> C[r, c] == old(C[r, c])
  {
    var j := 0;
    while j < n
      invariant j <= n && j % 2 == 0
      invariant Summed(C, A, B, n, i, i + 2, 0, j, n)
      invariant forall r, c :: 0 <= r < n && 0 <= c < n && !(i <= r < i + 2) ==> C[r, c] == old(C[r, c])
    {
      Update2x2(C, A, B, n, i, j, 0, n);
      j := j + 2;
    }
  }

  /** In bands of ib rows. */
  method Multiply2(C: array2<int>, A: array2<int>, B: array2<int>, n: nat, ib: nat)
    requires Shapes(C, A, B, n) && n % 2 == 0 && ib > 0 && ib % 2 == 0 && n % ib == 0
    modifies C
    ensures forall i, j :: 0 <= i < n && 0 <= j < n ==> C[i, j] == Dot(A, B, i, j, n)
  {
    var ii := 0;
    while ii < n
      invariant ii <= n && ii % ib == 0
      invariant Summed(C, A, B, n, 0, ii, 0, n, n)
    {
      NextMultiple(ii, n, ib);
      UpdateBand(C, A, B, n, ii, ii + ib, 0, n);
      ii := ii + ib;
    }
  }

  /** In bands of ib rows, each built up over blocks of kb terms, with the partial sums kept in C. */
  method Multiply3(C: array2<int>, A: array2<int>, B: array2<int>, n: nat, ib: nat, kb: nat)
    requires Shapes(C, A, B, n) && n % 2 == 0 && ib > 0 && ib % 2 == 0 && n % ib == 0 && kb > 0 && n % kb == 0
    modifies C
    ensures forall i, j :: 0 <= i < n && 0 <= j < n ==> C[i, j] == Dot(A, B, i, j, n)
  {
    var ii := 0;
    while ii < n
      invariant ii <= n && ii % ib == 0
      invariant Summed(C, A, B, n, 0, ii, 0, n, n)
    {
      NextMultiple(ii, n, ib);
      var kk := 0;
      while kk < n
        invariant kk <= n && kk % kb == 0
        invariant Summed(C, A, B, n, 0, ii, 0, n, n)
        invariant Summed(C, A, B, n, ii, ii + ib, 0, n, kk)
      {
        NextMultiple(kk, n, kb);
        UpdateBand(C, A, B, n, ii, ii + ib, kk, kk + kb);
        kk := kk + kb;
      }
      ii := ii + ib;
    }
  }

  /** A single term: if row i of B is zero up to k but for column m, that column decides. */
  lemma {:induction false} SingleTerm(A: array2<int>, B: array2<int>, i: nat, j: nat, k: nat, m: nat)
    requires Square(A, k) && Square(B, k) && i < B.Length0 && j < A.Length1
    requires forall l :: 0 <= l < k && l != m ==> B[i, l] == 0
    ensures Dot(A, B, i, j, k) == if m < k then A[m, j] * B[i, m] else 0
    decreases k
  {
    if k > 0 { SingleTerm(A, B, i, j, k - 1, m); }
  }

  /** Terms are added: a row that is the sum of two gives the sum of their results. Together
      with the single terms this leaves nothing of Dot open. */
  lemma {:induction false} Additive(A: array2<int>, B: array2<int>, B1: array2<int>, B2: array2<int>,
                                    i: nat, j: nat, k: nat)
    requires Square(A, k) && Square(B, k) && Square(B1, k) && Square(B2, k)
    requires i < B.Length0 && i < B1.Length0 && i < B2.Length0 && j < A.Length1
    requires forall l :: 0 <= l < k ==> B[i, l] == B1[i, l] + B2[i, l]
    ensures Dot(A, B, i, j, k) == Dot(A, B1, i, j, k) + Dot(A, B2, i, j, k)
    decreases k
  {
    if k > 0 {
      Additive(A, B, B1, B2, i, j, k - 1);
      var x, y, z := A[k - 1, j], B1[i, k - 1], B2[i, k - 1];
      assert x * (y + z) == x * y + x * z;
    }
  }

  predicate IsIdentity(M: array2<int>, n: nat)
    requires Square(M, n)
    reads M
  {
    forall i, j :: 0 <= i < n && 0 <= j < n ==> M[i, j] == if i == j then 1 else 0
  }

  /** An identity matrix on either side is neutral: the sums really are those of a matrix product. */
  lemma {:induction false} IdentityIsNeutral(A: array2<int>, B: array2<int>, n: nat, i: nat, j: nat, k: nat)
    requires Square(A, n) && Square(B, n) && i < n && j < n && k <= n
    ensures IsIdentity(A, n) ==> Dot(A, B, i, j, k) == if j < k then B[i, j] else 0
    ensures IsIdentity(B, n) ==> Dot(A, B, i, j, k) == if i < k then A[i, j] else 0
    decreases k
  {
    if k > 0 { IdentityIsNeutral(A, B, n, i, j, k - 1); }
  }
}
