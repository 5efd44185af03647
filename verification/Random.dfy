/** Random ids (`tkn_create` in src/p2p/token.c, `tdb_create_random_id` in src/p2p/transaction.c). */
module Random {
  import opened Bytes

  const TRIES := 1000

  /** Up to 1000 draws; the result is not in use exactly if one of them is not. */
  method Draw<V>(draws: seq<seq<Byte>>, used: map<seq<Byte>, V>) returns (id: seq<Byte>)
    requires |draws| >= 1000
    ensures id !in used <==> exists k :: 0 <= k < 1000 && draws[k] !in used
  {
    var i := 0;
    id := draws[i];
    i := 1;
    while id in used && i < TRIES
      invariant 1 <= i <= TRIES && id == draws[i - 1]
      invariant forall k :: 0 <= k < i - 1 ==> draws[k] in used
    {
      id := draws[i];
      i := i + 1;
    }
  }
}
