/** Whole runs of the client table. */
module ClientRuns {
  import opened ClientLists
  import opened ServicePass
  import opened Subsequences
  import opened ClientTable

  /** One iteration of the server loop: what arrives, which clients are ready, which of them have hung up. */
  datatype Event = Event(arrived: bool, accepted: int, role: int, ready: set<int>, hung: set<int>, emergency: bool)

  /** The client list after the connection was handled; role -1 means that the client was turned away. */
  function Arrived(cs: seq<ClientInfo>, e: Event): seq<ClientInfo> {
    if e.arrived && e.role != -1 then cs + [ClientInfo(e.accepted, e.role)] else cs
  }

  function After(cs: seq<ClientInfo>, e: Event): seq<ClientInfo> {
    if e.emergency then [] else Pass(Arrived(cs, e), e.ready, e.hung).kept
  }

  function RunFrom(cs: seq<ClientInfo>, events: seq<Event>): seq<ClientInfo> {
    if events == [] then cs else After(RunFrom(cs, events[..|events| - 1]), events[|events| - 1])
  }

  /** Runs of the server, which starts with nobody connected. */
  function Run(events: seq<Event>): seq<ClientInfo> { RunFrom([], events) }

  /** Every client ever let in, with the role its authentication gave it, in the order of connection. */
  function LetIn(events: seq<Event>): seq<ClientInfo> {
    if events == [] then [] else Arrived(LetIn(events[..|events| - 1]), events[|events| - 1])
  }

  /** The event lets this client in, under this descriptor and in this role. */
  ghost predicate LetsIn(e: Event, c: ClientInfo) {
    e.arrived && e.role != -1 && e.accepted == c.socket && e.role == c.role
  }

  /** LetIn lists exactly the clients that some event lets in, each in the place of its event. */
  lemma {:induction false} LetInMembers(events: seq<Event>, c: ClientInfo)
    ensures c in LetIn(events) <==> exists n :: 0 <= n < |events| && LetsIn(events[n], c)
    ensures LetIn([]) == []
    ensures events != [] ==>
              var e := events[|events| - 1];
              LetIn(events) == LetIn(events[..|events| - 1]) +
                               if e.arrived && e.role != -1 then [ClientInfo(e.accepted, e.role)] else []
  {
    if events != [] {
      var n := |events| - 1;
      LetInMembers(events[..n], c);
      assert forall k :: 0 <= k < n ==> events[..n][k] == events[k];
    }
  }

  /** The latest event that let a client in under its descriptor let it in as c. */
  ghost predicate LatestLetsIn(events: seq<Event>, n: nat, c: ClientInfo)
    requires n < |events|
  {
    LetsIn(events[n], c) &&
    forall m :: n < m < |events| && events[m].arrived && events[m].role != -1 ==> events[m].accepted != c.socket
  }

  lemma {:induction false} LastOfMeans(events: seq<Event>, c: ClientInfo)
    ensures LastOf(LetIn(events), c) <==> exists n :: 0 <= n < |events| && LatestLetsIn(events, n, c)
  {
    if events != [] {
      var last := |events| - 1;
      var before, e := events[..last], events[last];
      LastOfMeans(before, c);
      assert forall k :: 0 <= k < last ==> before[k] == events[k];
      if e.arrived && e.role != -1 {
        LastOfAppended(LetIn(before), ClientInfo(e.accepted, e.role), c);
      }
      hide LastOf;
      if LastOf(LetIn(events), c) {
        if LetsIn(e, c) {
          assert LatestLetsIn(events, last, c);
        } else {
          var n :| 0 <= n < |before| && LatestLetsIn(before, n, c);
          assert LatestLetsIn(events, n, c);
        }
      }
      if n :| 0 <= n < |events| && LatestLetsIn(events, n, c) {
        assert n < last ==> LatestLetsIn(before, n, c);
      }
    }
  }

  /** The entries with another descriptor. */
  function Without(cs: seq<ClientInfo>, fd: int): seq<ClientInfo> {
    if cs == [] then []
    else (if cs[0].socket == fd then [] else [cs[0]]) + Without(cs[1..], fd)
  }

  /** For each descriptor its latest acceptance, in the order of these acceptances. */
  function Latest(letIn: seq<ClientInfo>): seq<ClientInfo> {
    if letIn == [] then []
    else
      var last := letIn[|letIn| - 1];
      Without(Latest(letIn[..|letIn| - 1]), last.socket) + [last]
  }

  /** The entry stands in the list and no later one has its descriptor. */
  ghost predicate LastOf(letIn: seq<ClientInfo>, c: ClientInfo) {
    exists k :: 0 <= k < |letIn| && letIn[k] == c && forall j :: k < j < |letIn| ==> letIn[j].socket != c.socket
  }

  lemma {:induction false} WithoutDrops(cs: seq<ClientInfo>, fd: int)
    ensures forall c :: c in Without(cs, fd) <==> c in cs && c.socket != fd
    ensures Subsequence(Without(cs, fd), cs)
  {
    if cs != [] {
      WithoutDrops(cs[1..], fd);
      assert cs == [cs[0]] + cs[1..];
      if cs[0].socket != fd {
        assert Without(cs, fd)[1..] == Without(cs[1..], fd);
      } else {
        assert Without(cs, fd) == Without(cs[1..], fd);
        SubsequenceSkips(Without(cs, fd), cs);
      }
    }
  }

  lemma {:induction false} SubsequenceWithout(xs: seq<ClientInfo>, ys: seq<ClientInfo>, fd: int)
    requires Subsequence(xs, ys) && fd !in Sockets(xs)
    ensures Subsequence(xs, Without(ys, fd))
  {
    if xs != [] {
      assert xs[0].socket in Sockets(xs);
      if xs[0] == ys[0] && Subsequence(xs[1..], ys[1..]) {
        assert Sockets(xs[1..]) <= Sockets(xs) by {
          assert forall k :: 0 <= k < |xs[1..]| ==> xs[1..][k] == xs[k + 1];
        }
        SubsequenceWithout(xs[1..], ys[1..], fd);
        assert Without(ys, fd)[1..] == Without(ys[1..], fd);
      } else {
        SubsequenceWithout(xs, ys[1..], fd);
        if ys[0].socket != fd {
          assert Without(ys, fd)[1..] == Without(ys[1..], fd);
          SubsequenceSkips(xs, Without(ys, fd));
        } else {
          assert Without(ys, fd) == Without(ys[1..], fd);
        }
      }
    }
  }

  lemma LastOfAppended(before: seq<ClientInfo>, last: ClientInfo, c: ClientInfo)
    ensures LastOf(before + [last], c) <==> c == last || (LastOf(before, c) && c.socket != last.socket)
  {
    var all := before + [last];
    assert all[|before|] == last;
    if LastOf(before, c) && c.socket != last.socket {
      var k :| 0 <= k < |before| && before[k] == c && forall j :: k < j < |before| ==> before[j].socket != c.socket;
      assert all[k] == c && forall j :: k < j < |before| ==> all[j] == before[j];
    }
    if LastOf(all, c) && c != last {
      var k :| 0 <= k < |all| && all[k] == c && forall j :: k < j < |all| ==> all[j].socket != c.socket;
      assert before[k] == c && forall j :: k < j < |before| ==> before[j] == all[j];
    }
  }

  /** Latest lists exactly the entries that no later entry with the same descriptor follows, in the order let in. */
  lemma {:induction false} LatestAreLast(letIn: seq<ClientInfo>)
    ensures forall c :: c in Latest(letIn) <==> LastOf(letIn, c)
    ensures Subsequence(Latest(letIn), letIn)
  {
    if letIn != [] {
      var before, last := letIn[..|letIn| - 1], letIn[|letIn| - 1];
      assert letIn == before + [last];
      LatestAreLast(before);
      WithoutDrops(Latest(before), last.socket);
      SubsequenceTransitive(Without(Latest(before), last.socket), Latest(before), before);
      SubsequenceAppend(Without(Latest(before), last.socket), before, last);
      assert Latest(letIn) == Without(Latest(before), last.socket) + [last];
      hide Subsequence, LastOf, Without, Latest;
      forall c
        ensures c in Latest(letIn) <==> LastOf(letIn, c)
      {
        LastOfAppended(before, last, c);
      }
    }
  }

  /** The kernel hands out a descriptor that is not in use, and none above the table size. */
  ghost predicate Acceptable(d: Descriptors, cs: seq<ClientInfo>, e: Event) {
    e.arrived ==> 0 < e.accepted <= MAX_CLIENTS && e.accepted !in d.All() && e.accepted !in Sockets(cs)
  }

  ghost predicate Possible(d: Descriptors, events: seq<Event>) {
    forall n :: 0 <= n < |events| ==> Acceptable(d, Run(events[..n]), events[n])
  }

  ghost predicate Fits(d: Descriptors, cs: seq<ClientInfo>) {
    d.Valid(cs) && d.Largest() <= MAX_CLIENTS && forall i :: 0 <= i < |cs| ==> cs[i].socket <= MAX_CLIENTS
  }

  lemma ArrivalFits(d: Descriptors, cs: seq<ClientInfo>, e: Event)
    requires Fits(d, cs) && Acceptable(d, cs, e)
    ensures Fits(d, Arrived(cs, e))
  {
    assert forall i :: 0 <= i < |cs| ==> Arrived(cs, e)[i] == cs[i] && cs[i].socket in Sockets(cs);
  }

  lemma DroppingFits(d: Descriptors, xs: seq<ClientInfo>, ys: seq<ClientInfo>)
    requires Fits(d, ys) && Subsequence(xs, ys)
    ensures Fits(d, xs)
  {
    SubsequenceConnected(xs, ys);
    SubsequenceMembers(xs, ys);
    forall i | 0 <= i < |xs|
      ensures xs[i].socket <= MAX_CLIENTS && xs[i].socket in Sockets(ys)
    {
      assert xs[i] in xs;
      var k :| 0 <= k < |ys| && ys[k] == xs[i];
    }
  }

  lemma EventKeepsTheTable(d: Descriptors, cs: seq<ClientInfo>, letIn: seq<ClientInfo>, e: Event)
    requires Fits(d, cs) && Acceptable(d, cs, e) && Subsequence(cs, Latest(letIn))
    ensures Fits(d, After(cs, e)) && Subsequence(After(cs, e), Latest(Arrived(letIn, e)))
  {
    ArrivalFits(d, cs, e);
    PassKeepsOrder(Arrived(cs, e), e.ready, e.hung);
    DroppingFits(d, After(cs, e), Arrived(cs, e));
    if e.arrived && e.role != -1 {
      var c := ClientInfo(e.accepted, e.role);
      SubsequenceWithout(cs, Latest(letIn), e.accepted);
      SubsequenceAppend(cs, Without(Latest(letIn), e.accepted), c);
      assert (letIn + [c])[..|letIn|] == letIn;
      assert Latest(letIn + [c]) == Without(Latest(letIn), e.accepted) + [c];
    }
    SubsequenceTransitive(After(cs, e), Arrived(cs, e), Latest(Arrived(letIn, e)));
  }

  lemma PossiblePrefix(d: Descriptors, events: seq<Event>, n: nat)
    requires Possible(d, events) && n <= |events|
    ensures Possible(d, events[..n])
  {
    forall k | 0 <= k < n
      ensures Acceptable(d, Run(events[..n][..k]), events[..n][k])
    {
      assert events[..n][..k] == events[..k];
    }
  }

  /**
   * Over every run, from the empty table: at most 97 clients are connected and their descriptors are distinct,
   * positive and at most 100. Descriptors are reused, but each listed client is the latest to have been let in under
   * its descriptor, so it carries the role it was given then, and the clients stand in the order of these
   * acceptances.
   */
  lemma {:induction false} EveryRunKeepsTheTable(d: Descriptors, events: seq<Event>)
    requires d.Valid([]) && d.Largest() <= MAX_CLIENTS && Possible(d, events)
    ensures Fits(d, Run(events)) && |Run(events)| <= MAX_CLIENTS - 3
    ensures Subsequence(Run(events), Latest(LetIn(events)))
    ensures forall c :: c in Run(events) ==> exists n :: 0 <= n < |events| && LatestLetsIn(events, n, c)
  {
    if events != [] {
      var n := |events| - 1;
      PossiblePrefix(d, events, n);
      EveryRunKeepsTheTable(d, events[..n]);
      EventKeepsTheTable(d, Run(events[..n]), LetIn(events[..n]), events[n]);
    }
    NeverFull(d, Run(events));
    LatestAreLast(LetIn(events));
    SubsequenceMembers(Run(events), Latest(LetIn(events)));
    forall c | c in Run(events)
      ensures exists n :: 0 <= n < |events| && LatestLetsIn(events, n, c)
    {
      LastOfMeans(events, c);
    }
  }

  /** What the server loop relies on at its n-th iteration. */
  lemma IterationIsPossible(d: Descriptors, events: seq<Event>, n: nat)
    requires d.Valid([]) && d.Largest() <= MAX_CLIENTS && Possible(d, events) && n < |events|
    ensures |Run(events[..n])| <= MAX_CLIENTS && Scan(Slots(Run(events[..n])), 0, d.Largest()).Found?
    ensures Acceptable(d, Run(events[..n]), events[n])
    ensures Run(events[..n + 1]) == After(Run(events[..n]), events[n])
  {
    PossiblePrefix(d, events, n);
    EveryRunKeepsTheTable(d, events[..n]);
    ScanReachesEveryClient(d, Run(events[..n]));
    assert events[..n + 1][..n] == events[..n];
  }

  lemma NothingHappened(events: seq<Event>)
    ensures Run(events[..0]) == []
  {
  }

  /** The clients served by the n-th iteration. */
  function ServedIn(events: seq<Event>, n: nat): seq<ClientInfo>
    requires n < |events|
  {
    Pass(Arrived(Run(events[..n]), events[n]), events[n].ready, events[n].hung).served
  }

  /**
   * The server loop, run over the given events: the table follows Run, each pass serves what Pass says of it, and
   * the scan never leaves the table.
   */
  method ServeEvents(server: Server, events: seq<Event>) returns (served: seq<seq<ClientInfo>>)
    requires server.Valid() && server.Clients() == []
    requires server.descriptors.Largest() <= MAX_CLIENTS && Possible(server.descriptors, events)
    modifies server, server.connected_clients
    ensures server.Valid() && server.Clients() == Run(events)
    ensures |served| == |events| && forall n :: 0 <= n < |events| ==> served[n] == ServedIn(events, n)
  {
    hide Pass, Scan, Slots, Run, Possible;
    served := [];
    NothingHappened(events);
    for n := 0 to |events|
      invariant server.Valid() && server.Clients() == Run(events[..n])
      invariant |served| == n && forall k :: 0 <= k < n ==> served[k] == ServedIn(events, k)
    {
      var e := events[n];
      IterationIsPossible(server.descriptors, events, n);
      var now := server.ServeOnce(e.arrived, e.accepted, e.role, e.ready, e.hung, e.emergency);
      served := served + [now];
    }
    assert events[..|events|] == events;
  }

  /** The listed clients that have hung up are ready, and the newcomer, who may reuse a descriptor, is not one of them. */
  ghost predicate HangUpsAreReady(before: seq<ClientInfo>, e: Event) {
    (e.arrived ==> e.accepted !in e.hung) && Sockets(before) * e.hung <= e.ready
  }

  ghost predicate AlwaysReady(cs: seq<ClientInfo>, events: seq<Event>) {
    forall n :: 0 <= n < |events| ==> HangUpsAreReady(RunFrom(cs, events[..n]), events[n])
  }

  /** Listed clients that hang up at the n-th event; at the first one, all that have hung up by then. */
  function FreshHangUps(cs: seq<ClientInfo>, events: seq<Event>, n: nat): nat
    requires n < |events|
  {
    HungCount(RunFrom(cs, events[..n]), if n == 0 then events[0].hung else events[n].hung - events[n - 1].hung)
  }

  /** All hang-ups during the events, each doubled for every event before it. */
  function Weighted(cs: seq<ClientInfo>, events: seq<Event>): nat {
    if events == [] then 0
    else
      var n := |events| - 1;
      Weighted(cs, events[..n]) + FreshHangUps(cs, events, n) * Power(n)
  }

  /** One iteration removes at least half of the clients that have hung up. */
  lemma EventHalves(before: seq<ClientInfo>, e: Event)
    requires HangUpsAreReady(before, e)
    ensures 2 * HungCount(After(before, e), e.hung) <= HungCount(before, e.hung)
  {
    if !e.emergency {
      var arrived := Arrived(before, e);
      if arrived != before {
        HungCountConcat(before, [ClientInfo(e.accepted, e.role)], e.hung);
        NoneHung([ClientInfo(e.accepted, e.role)], e.hung);
      }
      forall i | 0 <= i < |arrived| && arrived[i].socket in e.hung
        ensures arrived[i].socket in e.ready
      {
        assert i < |before| ==> before[i].socket in Sockets(before);
      }
      AtLeastHalfRemoved(arrived, e.ready, e.hung);
    }
  }

  lemma {:induction false} HungCountSplits(cs: seq<ClientInfo>, now: set<int>, before: set<int>)
    ensures HungCount(cs, now) <= HungCount(cs, before) + HungCount(cs, now - before)
  {
    if cs != [] {
      HungCountSplits(cs[1..], now, before);
    }
  }

  lemma AlwaysReadyPrefix(cs: seq<ClientInfo>, events: seq<Event>, n: nat)
    requires AlwaysReady(cs, events) && n <= |events|
    ensures AlwaysReady(cs, events[..n])
  {
    forall k | 0 <= k < n
      ensures HangUpsAreReady(RunFrom(cs, events[..n][..k]), events[..n][k])
    {
      assert events[..n][..k] == events[..k];
    }
  }

  /**
   * Each iteration halves: after n of them at most 2^-n of the clients that had hung up at the first are left,
   * 2^-(n-1) of those that hung up at the second, and so on, whatever else is ready and whoever connects meanwhile.
   */
  lemma {:induction false} HangUpsHalve(cs: seq<ClientInfo>, events: seq<Event>)
    requires events != [] && AlwaysReady(cs, events)
    ensures HungCount(RunFrom(cs, events), events[|events| - 1].hung) * Power(|events|) <= Weighted(cs, events)
  {
    var n := |events| - 1;
    var before, e := RunFrom(cs, events[..n]), events[n];
    EventHalves(before, e);
    var m := HungCount(RunFrom(cs, events), e.hung);
    HalvesMultiply(m, HungCount(before, e.hung), Power(n));
    if n > 0 {
      AlwaysReadyPrefix(cs, events, n);
      HangUpsHalve(cs, events[..n]);
      HungCountSplits(before, e.hung, events[n - 1].hung);
      hide HungCount, After, AlwaysReady;
      SumsMultiply(HungCount(before, e.hung), HungCount(before, events[n - 1].hung), FreshHangUps(cs, events, n), Power(n));
    } else {
      assert events[..0] == [];
    }
  }

  lemma SumsMultiply(a: nat, b: nat, c: nat, p: nat)
    requires a <= b + c
    ensures a * p <= b * p + c * p
  {
    assert (b + c - a) * p >= 0;
  }

  lemma {:induction false} NothingFresh(cs: seq<ClientInfo>, events: seq<Event>)
    requires events != [] && forall n :: 1 <= n < |events| ==> FreshHangUps(cs, events, n) == 0
    ensures Weighted(cs, events) == HungCount(cs, events[0].hung)
  {
    var n := |events| - 1;
    if n > 0 {
      forall k | 1 <= k < n
        ensures FreshHangUps(cs, events[..n], k) == 0
      {
        assert events[..n][..k] == events[..k];
        assert FreshHangUps(cs, events, k) == 0;
      }
      NothingFresh(cs, events[..n]);
    } else {
      assert events[..0] == [];
    }
  }

  /** So when no other listed client hangs up, n iterations clear k hung-up clients once 2^n exceeds k. */
  lemma HungClientsAreCleared(cs: seq<ClientInfo>, events: seq<Event>)
    requires events != [] && AlwaysReady(cs, events)
    requires forall n :: 1 <= n < |events| ==> FreshHangUps(cs, events, n) == 0
    ensures var k, m := HungCount(cs, events[0].hung), HungCount(RunFrom(cs, events), events[|events| - 1].hung);
            m * Power(|events|) <= k && (Power(|events|) > k ==> m == 0)
  {
    HangUpsHalve(cs, events);
    NothingFresh(cs, events);
    FactorVanishes(HungCount(RunFrom(cs, events), events[|events| - 1].hung), Power(|events|), HungCount(cs, events[0].hung));
  }
}
