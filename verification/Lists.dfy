/** Linked lists as sequences of distinct nodes. */
module Lists {

  ghost predicate NoDup(q: seq<nat>)
  {
    forall i, j | 0 <= i < j < |q| :: q[i] != q[j]
  }

  function IndexOf(q: seq<nat>, s: nat): (i: nat)
    requires s in q
    ensures i < |q| && q[i] == s
  {
    if q[0] == s then 0 else 1 + IndexOf(q[1..], s)
  }

  /** Unlinking a node. */
  function Without(q: seq<nat>, s: nat): seq<nat>
    requires s in q
  {
    var i := IndexOf(q, s);
    q[..i] + q[i + 1..]
  }

  lemma WithoutMembers(q: seq<nat>, s: nat)
    requires NoDup(q) && s in q
    ensures NoDup(Without(q, s)) && |Without(q, s)| == |q| - 1
    ensures forall x :: x in Without(q, s) <==> x in q && x != s
  {
    var i := IndexOf(q, s);
    var w := Without(q, s);
    forall x | x in q && x != s
      ensures x in w
    {
      var j := IndexOf(q, x);
      assert if j < i then w[j] == x else w[j - 1] == x;
    }
  }

  /** Unlinking keeps the order of the others. */
  lemma WithoutOrder(q: seq<nat>, s: nat, i: nat, j: nat)
    requires s in q && i < j < |Without(q, s)|
    ensures var w := Without(q, s);
            exists i', j' :: 0 <= i' < j' < |q| && q[i'] == w[i] && q[j'] == w[j]
  {
    var at := IndexOf(q, s);
    var w := Without(q, s);
    var i' := if i < at then i else i + 1;
    var j' := if j < at then j else j + 1;
    assert q[i'] == w[i] && q[j'] == w[j];
  }
}
