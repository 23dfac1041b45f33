/** Sequences without duplicates, shared by the page tables, the owner rings and the wait queues. */
module Sequences {

  ghost predicate NoDuplicates<T>(s: seq<T>) {
    forall i, j :: 0 <= i < j < |s| ==> s[i] != s[j]
  }

  lemma NoDuplicatesConcat<T>(s: seq<T>, t: seq<T>)
    requires NoDuplicates(s) && NoDuplicates(t)
    requires forall x :: x in t ==> x !in s
    ensures NoDuplicates(s + t)
  {
    forall i, j | 0 <= i < j < |s + t|
      ensures (s + t)[i] != (s + t)[j]
    {
      if i < |s| && |s| <= j {
        assert t[j - |s|] in t;
      }
    }
  }

  function Delete<T>(s: seq<T>, k: nat): seq<T>
    requires k < |s|
  {
    s[..k] + s[k + 1..]
  }

  /** Deleting from a sequence without duplicates takes out just that element. */
  lemma DeleteIs<T>(s: seq<T>, k: nat)
    requires k < |s| && NoDuplicates(s)
    ensures forall x :: x in Delete(s, k) <==> x in s && x != s[k]
    ensures NoDuplicates(Delete(s, k))
  {
    forall x | x in s && x != s[k]
      ensures x in Delete(s, k)
    {
      var i :| 0 <= i < |s| && s[i] == x;
      assert i < k ==> Delete(s, k)[i] == x;
      assert i > k ==> Delete(s, k)[i - 1] == x;
    }
  }

  lemma TailIs<T>(s: seq<T>)
    requires s != [] && NoDuplicates(s)
    ensures forall x :: x in s[1..] <==> x in s && x != s[0]
    ensures NoDuplicates(s[1..])
  {
    DeleteIs(s, 0);
    assert Delete(s, 0) == s[1..];
  }
}
