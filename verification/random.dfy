/** The pseudo-random source (Go's `math/rand.Rand`) as an explicit stream:
    the seed, taken from the clock in the program, is replaced by an
    arbitrary stream of integers, so the same stream always produces the
    same choices. */
module Random {
  datatype Rand = Rand(src: nat -> int, pos: nat)

  /** `rand.Intn(n)`: the next draw, reduced into [0, n). Go panics for
      n <= 0; every call in the program passes a positive constant or a
      length checked to be positive. */
  function Intn(r: Rand, n: int): (res: (int, Rand))
    requires n > 0
    ensures 0 <= res.0 < n
    ensures res.1 == Rand(r.src, r.pos + 1)
  {
    (r.src(r.pos) % n, Rand(r.src, r.pos + 1))
  }

  /** Every value in [0, n) can be drawn: the stream abstracts over the
      generator without excluding any outcome. */
  lemma IntnReachesAll(r: Rand, n: int, v: int)
    requires 0 <= v < n
    ensures Intn(Rand(i => v, r.pos), n).0 == v
  {
  }
}
