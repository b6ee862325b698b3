/** The draws' source of randomness. Each round of a draw calls Math.random() once;
    the model receives those values as a stream `rand`, the value of round i being
    rand(i), and scales them exactly as the draws do: Math.floor(u * n). */
module RandomSource {

  /** Every value of the stream lies in [0, 1), as Math.random() promises. */
  ghost predicate UnitInterval(rand: nat -> real) {
    forall i: nat :: 0.0 <= rand(i) < 1.0
  }

  /** Math.floor(u * n): a value in [0, 1) scaled by n floors to an index in [0, n),
      or to 0 when n is 0. */
  function ScaledFloor(u: real, n: nat): (k: int)
    ensures 0.0 <= u < 1.0 && n == 0 ==> k == 0
    ensures 0.0 <= u < 1.0 && n > 0 ==> 0 <= k < n
  {
    ScaleBounds(u, n);
    (u * n as real).Floor
  }

  /** A value in [0, 1) scaled by n lies in [0, n). */
  lemma ScaleBounds(u: real, n: nat)
    ensures 0.0 <= u < 1.0 ==> 0.0 <= u * n as real
    ensures 0.0 <= u < 1.0 && n > 0 ==> u * n as real < n as real
  {
    if 0.0 <= u < 1.0 {
      var x := u * n as real;
      assert 0.0 <= x by {
        assert 0.0 <= u && 0.0 <= n as real;
      }
      if n > 0 {
        assert x < n as real by {
          assert n as real - x == (1.0 - u) * n as real;
          assert 0.0 < (1.0 - u) * n as real;
        }
      }
    }
  }
}
