/** What the other modules share: a limit, optional values and edits of sequences. */
module Collections {

  const LONG_MAX := 0x7fff_ffff_ffff_ffff

  datatype Option<+T> = None | Some(value: T)

  function Inserted<T>(s: seq<T>, k: nat, x: T): (r: seq<T>)
    requires k <= |s|
  {
    s[..k] + [x] + s[k..]
  }

  function Removed<T>(s: seq<T>, k: nat): (r: seq<T>)
    requires k < |s|
  {
    s[..k] + s[k + 1..]
  }

  ghost predicate NoDuplicates<T>(s: seq<T>)
  {
    forall i, j :: 0 <= i < j < |s| ==> s[i] != s[j]
  }

  lemma RemovedIndex<T>(s: seq<T>, k: nat)
    requires k < |s|
    ensures |Removed(s, k)| == |s| - 1
    ensures forall i {:trigger Removed(s, k)[i]} :: 0 <= i < |s| - 1 ==> Removed(s, k)[i] == if i < k then s[i] else s[i + 1]
  {
  }

  lemma RemovedMembers<T>(s: seq<T>, k: nat)
    requires k < |s|
    ensures forall i :: 0 <= i < |s| && i != k ==> s[i] in Removed(s, k)
  {
    var a, b := s[..k], s[k + 1..];
    forall i | 0 <= i < |s| && i != k
      ensures s[i] in a + b
    {
      if i < k { assert s[i] == a[i]; } else { assert s[i] == b[i - k - 1]; }
    }
  }
}
