/** The ordered-heuristic pattern shared by the content extractor and the
    next-link resolver: a fixed list of attempts is tried in order and the
    first one that succeeds decides the result. */
module RuleChain {
  import opened Common

  /** The first successful attempt, or None when every attempt fails. */
  function FirstSome<T>(attempts: seq<Option<T>>): (r: Option<T>)
    ensures r.None? <==> forall i :: 0 <= i < |attempts| ==> attempts[i].None?
    ensures r.Some? ==> exists i :: 0 <= i < |attempts| && attempts[i] == r
                           && forall j :: 0 <= j < i ==> attempts[j].None?
  {
    if attempts == [] then None
    else if attempts[0].Some? then attempts[0]
    else
      var r := FirstSome(attempts[1..]);
      assert forall i :: 1 <= i < |attempts| ==> attempts[i] == attempts[1..][i - 1];
      r
  }

  /** An attempt that succeeds after only failures decides the chain. */
  lemma FirstSomeAt<T>(attempts: seq<Option<T>>, i: nat)
    requires i < |attempts| && attempts[i].Some?
    requires forall j :: 0 <= j < i ==> attempts[j].None?
    ensures FirstSome(attempts) == attempts[i]
  {
    var r := FirstSome(attempts);
    var k :| 0 <= k < |attempts| && attempts[k] == r
               && forall j :: 0 <= j < k ==> attempts[j].None?;
    assert !(k < i) && !(i < k);
  }

  /** A chain made of two chains: the second is consulted only when every
      attempt of the first fails. */
  lemma {:induction false} FirstSomeAppend<T>(first: seq<Option<T>>, second: seq<Option<T>>)
    ensures FirstSome(first + second)
            == if FirstSome(first).Some? then FirstSome(first) else FirstSome(second)
  {
    if first == [] {
      assert first + second == second;
    } else {
      assert (first + second)[0] == first[0];
      assert (first + second)[1..] == first[1..] + second;
      FirstSomeAppend(first[1..], second);
    }
  }
}
