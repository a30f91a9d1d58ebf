/**
 * The identity test used to check a computed pseudo-inverse.
 */
module MatrixUtils {
  import opened LinAlg

  /**
   * Every entry of the `rows`-by-`cols` matrix is within `accuracy` of the
   * identity's: 1 where the row and column indices agree, 0 elsewhere.
   */
  predicate NearIdentity(M: Matrix, cols: nat, accuracy: real)
    requires IsMatrix(M, cols)
  {
    forall i, j :: 0 <= i < |M| && 0 <= j < cols ==>
      Abs(M[i][j] - (if i == j then 1.0 else 0.0)) <= accuracy
  }

  /** `isIdentity`: entry by entry, returning false at the first entry too far off. */
  method IsIdentity(M: Matrix, cols: nat, accuracy: real) returns (ok: bool)
    requires IsMatrix(M, cols)
    ensures ok <==> NearIdentity(M, cols, accuracy)
  {
    for i := 0 to |M|
      invariant forall i', j :: 0 <= i' < i && 0 <= j < cols ==>
        Abs(M[i'][j] - (if i' == j then 1.0 else 0.0)) <= accuracy
    {
      for j := 0 to cols
        invariant forall j' :: 0 <= j' < j ==> Abs(M[i][j'] - (if i == j' then 1.0 else 0.0)) <= accuracy
      {
        if i == j {
          if Abs(M[i][j] - 1.0) > accuracy {
            return false;
          }
        } else {
          if Abs(M[i][j]) > accuracy {
            return false;
          }
        }
      }
    }
    return true;
  }

  /**
   * A matrix with no rows or no columns passes; more accuracy never turns a
   * pass into a failure; an exact identity (square or not) passes at every
   * accuracy from 0.
   */
  lemma {:induction false} NearIdentityFacts(M: Matrix, cols: nat, accuracy: real, accuracy': real)
    requires IsMatrix(M, cols)
    ensures |M| == 0 || cols == 0 ==> NearIdentity(M, cols, accuracy)
    ensures accuracy <= accuracy' && NearIdentity(M, cols, accuracy) ==> NearIdentity(M, cols, accuracy')
    ensures 0.0 <= accuracy && (forall i, j :: 0 <= i < |M| && 0 <= j < cols ==> M[i][j] == if i == j then 1.0 else 0.0)
            ==> NearIdentity(M, cols, accuracy)
  {
  }

  /** The square identity passes for every accuracy from 0. */
  lemma {:induction false} IdentityPasses(n: nat, accuracy: real)
    requires 0.0 <= accuracy
    ensures IsMatrix(Identity(n), n) && NearIdentity(Identity(n), n, accuracy)
  {
  }
}
