/** The list of connected clients as a value: descriptors, the scan for the largest one, the service pass. */
module ClientLists {

  const MAX_CLIENTS := 100

  datatype ClientInfo = ClientInfo(socket: int, role: int)

  /** A slot of the table that holds no client. */
  const FREE := ClientInfo(0, 0)

  function Sockets(cs: seq<ClientInfo>): set<int> {
    set i | 0 <= i < |cs| :: cs[i].socket
  }

  /** Live clients have positive descriptors, no two the same. */
  ghost predicate Connected(cs: seq<ClientInfo>) {
    && (forall i :: 0 <= i < |cs| ==> cs[i].socket > 0)
    && (forall i, j :: 0 <= i < j < |cs| ==> cs[i].socket != cs[j].socket)
  }

  lemma {:induction false} SocketsCount(cs: seq<ClientInfo>)
    requires Connected(cs)
    ensures |Sockets(cs)| == |cs|
  {
    if cs != [] {
      var n := |cs| - 1;
      SocketsCount(cs[..n]);
      assert Sockets(cs) == Sockets(cs[..n]) + {cs[n].socket};
      assert cs[n].socket !in Sockets(cs[..n]);
    }
  }

  /** The numbers from 1 to m. */
  function UpTo(m: nat): (s: set<int>)
    ensures (forall x :: x in s <==> 1 <= x <= m) && |s| == m
  {
    if m == 0 then {} else UpTo(m - 1) + {m}
  }

  /** Distinct positive numbers up to m are at most m. */
  lemma Pigeonhole(s: set<int>, m: nat)
    requires forall x :: x in s ==> 1 <= x <= m
    ensures |s| <= m
  {
    assert UpTo(m) == s + (UpTo(m) - s);
    assert |UpTo(m)| == |s| + |UpTo(m) - s|;
  }

  /** The server's own descriptors: listening socket, alert pipe, emergency pipe. */
  datatype Descriptors = Descriptors(server: int, alerts: int, emergencies: int) {
    function All(): set<int> { {server, alerts, emergencies} }

    ghost predicate Valid(cs: seq<ClientInfo>) {
      && server > 0 && alerts > 0 && emergencies > 0
      && server != alerts && server != emergencies && alerts != emergencies
      && Connected(cs) && All() !! Sockets(cs)
    }

    function Largest(): int {
      var m := if server > alerts then server else alerts;
      if m > emergencies then m else emergencies
    }
  }

  /** Removing a client leaves a valid list. */
  lemma RemovalStaysValid(d: Descriptors, cs: seq<ClientInfo>, i: nat)
    requires d.Valid(cs) && i < |cs|
    ensures d.Valid(cs[..i] + cs[i + 1..])
  {
    var after := cs[..i] + cs[i + 1..];
    assert forall k :: 0 <= k < |after| ==> after[k] == cs[if k < i then k else k + 1];
    assert Sockets(after) <= Sockets(cs);
  }

  /** With n clients and the three own descriptors below or at m, m is at least n + 3. */
  lemma LargestExceedsCount(d: Descriptors, cs: seq<ClientInfo>, m: int)
    requires d.Valid(cs)
    requires d.Largest() <= m && forall i :: 0 <= i < |cs| ==> cs[i].socket <= m
    ensures m >= |cs| + 3
  {
    SocketsCount(cs);
    assert |d.All()| == 3;
    assert |d.All() + Sockets(cs)| == |cs| + 3;
    Pigeonhole(d.All() + Sockets(cs), m);
  }

  /** A table of 100 slots never fills up while every descriptor is at most 100. */
  lemma NeverFull(d: Descriptors, cs: seq<ClientInfo>)
    requires d.Valid(cs)
    requires d.Largest() <= MAX_CLIENTS && forall i :: 0 <= i < |cs| ==> cs[i].socket <= MAX_CLIENTS
    ensures |cs| <= MAX_CLIENTS - 3
  {
    LargestExceedsCount(d, cs, MAX_CLIENTS);
  }

  /** The outcome of reading the slots while the index is below the growing maximum. */
  datatype ScanResult = OutOfBounds | Found(fd: int)

  function Scan(slots: seq<ClientInfo>, i: nat, max: int): ScanResult
    decreases |slots| - i
  {
    if i >= max then Found(max)
    else if i >= |slots| then OutOfBounds
    else Scan(slots, i + 1, if slots[i].socket > max then slots[i].socket else max)
  }

  /** The table as the scan sees it: the clients, then free slots. */
  function Slots(cs: seq<ClientInfo>): (s: seq<ClientInfo>)
    requires |cs| <= MAX_CLIENTS
    ensures |s| == MAX_CLIENTS && s[..|cs|] == cs && forall i :: |cs| <= i < MAX_CLIENTS ==> s[i] == FREE
  {
    cs + seq(MAX_CLIENTS - |cs|, _ => FREE)
  }

  ghost predicate IsLargest(d: Descriptors, cs: seq<ClientInfo>, m: int) {
    && (m in d.All() || exists i :: 0 <= i < |cs| && m == cs[i].socket)
    && d.Largest() <= m && forall i :: 0 <= i < |cs| ==> cs[i].socket <= m
  }

  lemma {:induction false} ScanFrom(d: Descriptors, cs: seq<ClientInfo>, i: nat, max: int)
    requires d.Valid(cs) && |cs| <= MAX_CLIENTS && i <= MAX_CLIENTS
    requires IsLargest(d, if i < |cs| then cs[..i] else cs, max)
    ensures var r := Scan(Slots(cs), i, max);
            && (r.Found? ==> IsLargest(d, cs, r.fd))
            && (r.Found? <==> max <= MAX_CLIENTS && forall j :: 0 <= j < |cs| ==> cs[j].socket <= MAX_CLIENTS)
    decreases MAX_CLIENTS - i
  {
    hide IsLargest, Slots;
    if i < |cs| {
      SeenExceedsIndex(d, cs, i, max);
      LargestGrows(d, cs, i, max);
      assert Slots(cs)[i] == Slots(cs)[..|cs|][i] == cs[i];
      ScanFrom(d, cs, i + 1, if cs[i].socket > max then cs[i].socket else max);
      LargestBoundsSeen(d, cs, i, max);
    } else {
      LargestBoundsSeen(d, cs, |cs|, max);
      if i < max && i < MAX_CLIENTS {
        assert Slots(cs)[i].socket == 0;
        ScanFrom(d, cs, i + 1, max);
      }
    }
  }

  lemma SeenExceedsIndex(d: Descriptors, cs: seq<ClientInfo>, i: nat, max: int)
    requires d.Valid(cs) && i < |cs| && IsLargest(d, cs[..i], max)
    ensures max >= i + 3
  {
    assert Connected(cs[..i]);
    assert Sockets(cs[..i]) <= Sockets(cs) by {
      assert forall j :: 0 <= j < i ==> cs[..i][j] == cs[j];
    }
    LargestExceedsCount(d, cs[..i], max);
  }

  lemma LargestBoundsSeen(d: Descriptors, cs: seq<ClientInfo>, i: nat, max: int)
    requires i <= |cs| && IsLargest(d, if i < |cs| then cs[..i] else cs, max)
    ensures forall j :: 0 <= j < i ==> cs[j].socket <= max
    ensures d.Largest() <= max
  {
    assert i < |cs| ==> forall j :: 0 <= j < i ==> cs[..i][j] == cs[j];
  }

  lemma LargestGrows(d: Descriptors, cs: seq<ClientInfo>, i: nat, max: int)
    requires i < |cs| && IsLargest(d, cs[..i], max)
    ensures IsLargest(d, if i + 1 < |cs| then cs[..i + 1] else cs, if cs[i].socket > max then cs[i].socket else max)
  {
    var seen := cs[..i + 1];
    assert i + 1 == |cs| ==> seen == cs;
    assert seen[i] == cs[i] && forall j :: 0 <= j < i ==> seen[j] == cs[..i][j];
    var next := if cs[i].socket > max then cs[i].socket else max;
    if max !in d.All() && next == max {
      var j :| 0 <= j < i && max == cs[..i][j].socket;
      assert seen[j].socket == max;
    }
  }

  /**
   * The scan is bounded by the largest descriptor seen so far, not by the number of clients, yet it reaches every
   * client; and it stays inside the table exactly when no descriptor exceeds the table's 100 slots.
   */
  lemma ScanReachesEveryClient(d: Descriptors, cs: seq<ClientInfo>)
    requires d.Valid(cs) && |cs| <= MAX_CLIENTS
    ensures var r := Scan(Slots(cs), 0, d.Largest());
            && (r.Found? ==> IsLargest(d, cs, r.fd) && r.fd >= |cs| + 3)
            && (r.Found? <==> d.Largest() <= MAX_CLIENTS && forall i :: 0 <= i < |cs| ==> cs[i].socket <= MAX_CLIENTS)
  {
    assert IsLargest(d, cs[..0], d.Largest());
    if cs == [] {
      assert cs[..0] == cs;
    }
    ScanFrom(d, cs, 0, d.Largest());
    var r := Scan(Slots(cs), 0, d.Largest());
    if r.Found? {
      LargestExceedsCount(d, cs, r.fd);
    }
  }

  /**
   * The server goes on accepting until 100 clients are listed, yet with 98 or more of them, whatever their
   * descriptors, the next scan reads past the table.
   */
  lemma CrowdedTableOverruns(d: Descriptors, cs: seq<ClientInfo>)
    requires d.Valid(cs) && MAX_CLIENTS - 3 < |cs| <= MAX_CLIENTS
    ensures Scan(Slots(cs), 0, d.Largest()) == OutOfBounds
  {
    ScanReachesEveryClient(d, cs);
    if d.Largest() <= MAX_CLIENTS && forall i :: 0 <= i < |cs| ==> cs[i].socket <= MAX_CLIENTS {
      NeverFull(d, cs);
    }
  }

  /** Behind descriptors 3 to 5, and 6 in use elsewhere, 94 clients can be scanned and the 95th, on 101, cannot. */
  lemma FirstOverrun()
    ensures var d, cs := Descriptors(3, 4, 5), seq(95, i => ClientInfo(i + 7, 0));
            && d.Valid(cs) && Scan(Slots(cs[..94]), 0, d.Largest()) == Found(100)
            && Scan(Slots(cs), 0, d.Largest()) == OutOfBounds
  {
    var d, cs := Descriptors(3, 4, 5), seq(95, i => ClientInfo(i + 7, 0));
    assert cs[94].socket == 101;
    ScanReachesEveryClient(d, cs);
    assert d.Valid(cs[..94]) && cs[..94][93].socket == 100;
    ScanReachesEveryClient(d, cs[..94]);
    hide Scan, Slots;
    assert Scan(Slots(cs), 0, d.Largest()) == OutOfBounds;
  }
}
