/**
 * One pass of the select loop over the client table, as a function of the client list.
 *
 * A client that hung up is removed while the pass runs: its successors move down one slot, and the index moves on,
 * so the client right behind a removed one is not looked at in this pass.
 */
module ServicePass {
  import opened ClientLists
  import opened Subsequences

  /** The entries read, in order, and the clients left. */
  datatype PassResult = PassResult(served: seq<ClientInfo>, kept: seq<ClientInfo>)

  function Pass(cs: seq<ClientInfo>, ready: set<int>, hung: set<int>): PassResult {
    if cs == [] then PassResult([], [])
    else if cs[0].socket !in ready then
      var rest := Pass(cs[1..], ready, hung);
      PassResult(rest.served, [cs[0]] + rest.kept)
    else if cs[0].socket !in hung then
      var rest := Pass(cs[1..], ready, hung);
      PassResult([cs[0]] + rest.served, [cs[0]] + rest.kept)
    else if |cs| == 1 then PassResult([cs[0]], [])
    else
      var rest := Pass(cs[2..], ready, hung);
      PassResult([cs[0]] + rest.served, [cs[1]] + rest.kept)
  }

  /** The client that takes a removed client's slot, if there is one. */
  function MovedUp(cs: seq<ClientInfo>): seq<ClientInfo>
    requires cs != []
  {
    if |cs| == 1 then [] else [cs[1]]
  }

  /** What the pass still looks at after its first client was removed (or not). */
  function StillAhead(cs: seq<ClientInfo>, removed: bool): seq<ClientInfo>
    requires cs != []
  {
    if !removed then cs[1..] else if |cs| == 1 then [] else cs[2..]
  }

  /** One iteration of the in-place loop, between the entries already passed and those still ahead. */
  lemma PassAdvances(served: seq<ClientInfo>, passed: seq<ClientInfo>, cs: seq<ClientInfo>, ready: set<int>, hung: set<int>)
    requires cs != []
    ensures var read := cs[0].socket in ready;
            var removed := read && cs[0].socket in hung;
            var ahead := StillAhead(cs, removed);
            var behind := if removed then MovedUp(cs) else [cs[0]];
            && served + Pass(cs, ready, hung).served ==
               (if read then served + [cs[0]] else served) + Pass(ahead, ready, hung).served
            && passed + Pass(cs, ready, hung).kept == (passed + behind) + Pass(ahead, ready, hung).kept
            && passed + (if removed then cs[1..] else cs) == (passed + behind) + ahead
  {
    var read := cs[0].socket in ready;
    var removed := read && cs[0].socket in hung;
    var rest := Pass(StillAhead(cs, removed), ready, hung);
    PassUnfolds(cs, ready, hung);
    hide Pass;
    ConcatAssociates(served, if read then [cs[0]] else [], rest.served);
    ConcatAssociates(passed, if removed then MovedUp(cs) else [cs[0]], rest.kept);
    ConcatAssociates(passed, if removed then MovedUp(cs) else [cs[0]], StillAhead(cs, removed));
    SplitsBehindFirst(cs, removed);
    if !read {
      assert served + [] == served;
    }
  }

  lemma ConcatAssociates<T>(a: seq<T>, b: seq<T>, c: seq<T>)
    ensures a + (b + c) == (a + b) + c
  {
  }

  lemma SplitsBehindFirst(cs: seq<ClientInfo>, removed: bool)
    requires cs != []
    ensures (if removed then cs[1..] else cs) == (if removed then MovedUp(cs) else [cs[0]]) + StillAhead(cs, removed)
  {
  }

  lemma PassUnfolds(cs: seq<ClientInfo>, ready: set<int>, hung: set<int>)
    requires cs != []
    ensures var read := cs[0].socket in ready;
            var removed := read && cs[0].socket in hung;
            var rest := Pass(StillAhead(cs, removed), ready, hung);
            && Pass(cs, ready, hung).served == (if read then [cs[0]] else []) + rest.served
            && Pass(cs, ready, hung).kept == (if removed then MovedUp(cs) else [cs[0]]) + rest.kept
  {
  }

  lemma NothingAhead(ready: set<int>, hung: set<int>)
    ensures Pass([], ready, hung) == PassResult([], [])
  {
  }

  lemma {:induction false} SubsequenceConnected(xs: seq<ClientInfo>, ys: seq<ClientInfo>)
    requires Subsequence(xs, ys) && Connected(ys)
    ensures Connected(xs)
  {
    if xs != [] {
      assert Connected(ys[1..]);
      if xs[0] == ys[0] && Subsequence(xs[1..], ys[1..]) {
        SubsequenceConnected(xs[1..], ys[1..]);
        SubsequenceMembers(xs[1..], ys[1..]);
        forall j | 0 < j < |xs|
          ensures xs[0].socket != xs[j].socket
        {
          assert xs[j] == xs[1..][j - 1] && xs[j] in xs[1..];
          var k :| 0 <= k < |ys[1..]| && ys[1..][k] == xs[j];
        }
        forall i, j | 0 < i < j < |xs|
          ensures xs[i].socket != xs[j].socket
        {
          assert xs[i] == xs[1..][i - 1] && xs[j] == xs[1..][j - 1];
        }
        forall i | 0 <= i < |xs|
          ensures xs[i].socket > 0
        {
          if i > 0 {
            assert xs[i] == xs[1..][i - 1];
          }
        }
      } else {
        SubsequenceConnected(xs, ys[1..]);
      }
    }
  }

  /** Reads and remaining clients appear in connection order, and none appears that was not connected. */
  lemma {:induction false} PassKeepsOrder(cs: seq<ClientInfo>, ready: set<int>, hung: set<int>)
    ensures Subsequence(Pass(cs, ready, hung).served, cs)
    ensures Subsequence(Pass(cs, ready, hung).kept, cs)
  {
    if cs != [] {
      if cs[0].socket in ready && cs[0].socket in hung {
        if |cs| > 1 {
          PassKeepsOrder(cs[2..], ready, hung);
          var rest := Pass(cs[2..], ready, hung);
          assert cs[1..][1..] == cs[2..];
          SubsequenceSkips(rest.served, cs[1..]);
          assert ([cs[0]] + rest.served)[1..] == rest.served;
          assert ([cs[1]] + rest.kept)[1..] == rest.kept;
        }
      } else {
        PassKeepsOrder(cs[1..], ready, hung);
        var rest := Pass(cs[1..], ready, hung);
        assert ([cs[0]] + rest.served)[1..] == rest.served;
        assert ([cs[0]] + rest.kept)[1..] == rest.kept;
        SubsequenceSkips(rest.served, cs);
      }
    }
  }

  /** No client is read twice in a pass, and none is listed twice after it. */
  lemma NoClientReadTwice(cs: seq<ClientInfo>, ready: set<int>, hung: set<int>)
    requires Connected(cs)
    ensures Connected(Pass(cs, ready, hung).served) && Connected(Pass(cs, ready, hung).kept)
  {
    PassKeepsOrder(cs, ready, hung);
    SubsequenceConnected(Pass(cs, ready, hung).served, cs);
    SubsequenceConnected(Pass(cs, ready, hung).kept, cs);
  }

  ghost predicate Removed(cs: seq<ClientInfo>, ready: set<int>, hung: set<int>, j: int)
    requires 0 <= j < |cs|
  {
    cs[j] in Pass(cs, ready, hung).served && cs[j].socket in hung
  }

  /**
   * Exactly which clients a pass reads and which it drops: a ready client is passed over if and only if the one
   * just before it was removed in this pass, and a client is dropped if and only if it was read after hanging up.
   */
  lemma {:induction false} WhoIsReadAndDropped(cs: seq<ClientInfo>, ready: set<int>, hung: set<int>, j: int)
    requires Connected(cs) && 0 <= j < |cs|
    ensures cs[j] in Pass(cs, ready, hung).served <==>
            cs[j].socket in ready && !(j > 0 && Removed(cs, ready, hung, j - 1))
    ensures cs[j] in Pass(cs, ready, hung).kept <==> !Removed(cs, ready, hung, j)
    decreases |cs|
  {
    var step := if cs[0].socket in ready && cs[0].socket in hung then 2 else 1;
    PassStep(cs, ready, hung, j);
    if j > 0 {
      PassStep(cs, ready, hung, j - 1);
    }
    if step <= j {
      WhoIsReadAndDropped(cs[step..], ready, hung, j - step);
    }
  }

  /** What the first iteration decides, and what it leaves to the rest of the pass. */
  lemma PassStep(cs: seq<ClientInfo>, ready: set<int>, hung: set<int>, j: int)
    requires Connected(cs) && 0 <= j < |cs|
    ensures var first := cs[0].socket in ready;
            var drops := first && cs[0].socket in hung;
            var step := if drops then 2 else 1;
            var all := Pass(cs, ready, hung);
            && (j == 0 ==> (cs[j] in all.served <==> first) && (cs[j] in all.kept <==> !drops))
            && (j == 1 && drops ==> cs[j] !in all.served && cs[j] in all.kept)
            && (step <= j ==>
                  var rest := Pass(cs[step..], ready, hung);
                  && cs[j] == cs[step..][j - step] && Connected(cs[step..])
                  && (cs[j] in all.served <==> cs[j] in rest.served)
                  && (cs[j] in all.kept <==> cs[j] in rest.kept))
  {
    PassKeepsOrder(cs[1..], ready, hung);
    SubsequenceMembers(Pass(cs[1..], ready, hung).served, cs[1..]);
    SubsequenceMembers(Pass(cs[1..], ready, hung).kept, cs[1..]);
    assert forall k :: 0 <= k < |cs[1..]| ==> cs[1..][k] == cs[k + 1];
    assert cs[0] !in cs[1..];
    if |cs| > 1 {
      PassKeepsOrder(cs[2..], ready, hung);
      SubsequenceMembers(Pass(cs[2..], ready, hung).served, cs[2..]);
      SubsequenceMembers(Pass(cs[2..], ready, hung).kept, cs[2..]);
      assert forall k :: 0 <= k < |cs[2..]| ==> cs[2..][k] == cs[k + 2];
      assert cs[0] !in cs[2..] && cs[1] !in cs[2..];
    }
  }

  /** How many of the clients have hung up. */
  function HungCount(cs: seq<ClientInfo>, hung: set<int>): nat {
    if cs == [] then 0 else (if cs[0].socket in hung then 1 else 0) + HungCount(cs[1..], hung)
  }

  lemma FirstSocket(cs: seq<ClientInfo>)
    requires Connected(cs) && cs != []
    ensures Connected(cs[1..]) && cs[0].socket !in Sockets(cs[1..])
    ensures Sockets(cs) == {cs[0].socket} + Sockets(cs[1..])
  {
    var rest := cs[1..];
    assert forall k :: 0 <= k < |rest| ==> rest[k] == cs[k + 1];
    forall x | x in Sockets(cs)
      ensures x in {cs[0].socket} + Sockets(rest)
    {
      var k :| 0 <= k < |cs| && cs[k].socket == x;
      assert k > 0 ==> rest[k - 1].socket == x;
    }
  }

  lemma OneMoreInCommon(fd: int, rest: set<int>, hung: set<int>)
    requires fd !in rest
    ensures |({fd} + rest) * hung| == |rest * hung| + if fd in hung then 1 else 0
  {
    assert ({fd} + rest) * hung == if fd in hung then {fd} + rest * hung else rest * hung;
  }

  /** It is the number of listed descriptors among those hung up. */
  lemma {:induction false} HungCountIsSize(cs: seq<ClientInfo>, hung: set<int>)
    requires Connected(cs)
    ensures HungCount(cs, hung) == |Sockets(cs) * hung|
  {
    if cs == [] {
      assert Sockets(cs) * hung == {};
    } else {
      var fd, rest := cs[0].socket, Sockets(cs[1..]);
      FirstSocket(cs);
      HungCountIsSize(cs[1..], hung);
      OneMoreInCommon(fd, rest, hung);
      hide Sockets, Connected;
    }
  }

  /** A pass removes at least half of the clients that hung up. */
  lemma {:induction false} AtLeastHalfRemoved(cs: seq<ClientInfo>, ready: set<int>, hung: set<int>)
    requires forall i :: 0 <= i < |cs| && cs[i].socket in hung ==> cs[i].socket in ready
    ensures 2 * HungCount(Pass(cs, ready, hung).kept, hung) <= HungCount(cs, hung)
  {
    if cs != [] {
      if cs[0].socket in hung {
        assert cs[0].socket in ready;
        if |cs| > 1 {
          AtLeastHalfRemoved(cs[2..], ready, hung);
          assert ([cs[1]] + Pass(cs[2..], ready, hung).kept)[1..] == Pass(cs[2..], ready, hung).kept;
          assert cs[1..][1..] == cs[2..];
        }
      } else {
        AtLeastHalfRemoved(cs[1..], ready, hung);
        assert ([cs[0]] + Pass(cs[1..], ready, hung).kept)[1..] == Pass(cs[1..], ready, hung).kept;
      }
    }
  }

  /** The half is reached: when every client has hung up, every second one survives the pass. */
  lemma {:induction false} EverySecondSurvives(cs: seq<ClientInfo>, ready: set<int>, hung: set<int>)
    requires Sockets(cs) <= ready * hung
    ensures |Pass(cs, ready, hung).kept| == |cs| / 2
    ensures forall i :: 0 <= i < |cs| / 2 ==> Pass(cs, ready, hung).kept[i] == cs[2 * i + 1]
  {
    if cs != [] {
      assert cs[0].socket in Sockets(cs);
      if |cs| > 1 {
        assert forall i :: 0 <= i < |cs[2..]| ==> cs[2..][i] == cs[i + 2];
        assert Sockets(cs[2..]) <= Sockets(cs);
        EverySecondSurvives(cs[2..], ready, hung);
      }
    }
  }

  function Power(n: nat): nat { if n == 0 then 1 else 2 * Power(n - 1) }

  lemma {:induction false} HungCountConcat(xs: seq<ClientInfo>, ys: seq<ClientInfo>, hung: set<int>)
    ensures HungCount(xs + ys, hung) == HungCount(xs, hung) + HungCount(ys, hung)
  {
    if xs == [] {
      assert xs + ys == ys;
    } else {
      assert (xs + ys)[1..] == xs[1..] + ys;
      HungCountConcat(xs[1..], ys, hung);
    }
  }

  lemma {:induction false} NoneHung(cs: seq<ClientInfo>, hung: set<int>)
    requires forall i :: 0 <= i < |cs| ==> cs[i].socket !in hung
    ensures HungCount(cs, hung) == 0
  {
    if cs != [] {
      NoneHung(cs[1..], hung);
    }
  }

  lemma HalvesMultiply(a: nat, b: nat, p: nat)
    requires 2 * a <= b
    ensures a * (2 * p) <= b * p
  {
    assert (b - 2 * a) * p >= 0;
    assert b * p == (2 * a) * p + (b - 2 * a) * p;
  }

  lemma FactorVanishes(h: nat, p: nat, k: nat)
    requires h * p <= k
    ensures p > k ==> h == 0
  {
    if h > 0 {
      assert h * p == (h - 1) * p + p;
      assert (h - 1) * p >= 0;
    }
  }
}
