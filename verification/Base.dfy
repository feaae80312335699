/** What several parts of the model share. */
module Base {

  const U32: nat := 0x1_0000_0000
  const U64: nat := 0x1_0000_0000_0000_0000

  /** Bytes of the fixed segment header. */
  const HEADER_SIZE: nat := 256

  datatype Option<T> = None | Some(value: T)

  function Pow256(k: nat): (r: nat)
    ensures r >= 1
  {
    if k == 0 then 1 else 256 * Pow256(k - 1)
  }

  /** The naturals below `k`. */
  function FirstNats(k: nat): (r: set<nat>)
    ensures forall i: nat :: i in r <==> i < k
  {
    if k == 0 then {} else FirstNats(k - 1) + {k - 1}
  }

  lemma {:induction false} FirstNatsCount(k: nat)
    ensures |FirstNats(k)| == k
  {
    if k == 0 {
    } else {
      FirstNatsCount(k - 1);
    }
  }

  lemma ProductOrder(d: int, e: int, n: nat)
    ensures d > e ==> d * n >= e * n + n
  {
    if d > e {
      assert (d - e - 1) * n >= 0;
    }
  }
}
