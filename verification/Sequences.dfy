/** Sequences without repetition, and taking one element out. */
module Sequences {
  ghost predicate Distinct<T(!new)>(c: seq<T>) {
    forall i, j :: 0 <= i < j < |c| ==> c[i] != c[j]
  }

  function Remove<T>(c: seq<T>, j: nat): seq<T>
    requires j < |c|
  {
    c[..j] + c[j + 1..]
  }

  lemma RemoveContents<T(!new)>(c: seq<T>, j: nat)
    requires Distinct(c) && j < |c|
    ensures Distinct(Remove(c, j))
    ensures forall e :: e in Remove(c, j) <==> e in c && e != c[j]
  {
    var r := Remove(c, j);
    forall e | e in c && e != c[j]
      ensures e in r
    {
      var i :| 0 <= i < |c| && c[i] == e;
      assert r[if i < j then i else i - 1] == e;
    }
  }
}
