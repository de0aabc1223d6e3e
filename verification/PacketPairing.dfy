/**
 Packet events of a client log and a server log on one time line, and the pairing
 of every sent packet with a received one.
 */
module PacketPairing {
  import opened Wrappers

  datatype Role = Client | Server
  datatype Kind = Sent | Received | Internal
  datatype Direction = ClientToServer | ServerToClient

  /** What is known of a packet event at one moment. */
  datatype Event = Event(role: Role, kind: Kind, timestamp: real, packetNo: Option<int>,
                         direction: Option<Direction>, normTime: real)

  datatype Flow = Flow(direction: Direction, send: Event, recv: Option<Event>, normTime: real)

  // ----- the time line (normalize_times) -----

  function MinOf(s: seq<real>): (m: real)
    requires s != []
    ensures m in s
    ensures forall i :: 0 <= i < |s| ==> m <= s[i]
  {
    if |s| == 1 then s[0]
    else
      var m := MinOf(s[..|s| - 1]);
      if s[|s| - 1] < m then s[|s| - 1] else m
  }

  function ClientTimes(events: seq<Event>): seq<real> {
    if events == [] then [] else
      var e := events[|events| - 1];
      ClientTimes(events[..|events| - 1]) + (if e.role.Client? then [e.timestamp] else [])
  }

  /** The correction that puts the first client event at the given time; None without client events. */
  function Offset(events: seq<Event>, internals: seq<Event>, hello: Option<real>): Option<real> {
    OffsetFrom(ClientTimes(events) + ClientTimes(internals), hello)
  }

  function OffsetFrom(times: seq<real>, hello: Option<real>): Option<real> {
    if times == [] then None
    else Some((if hello.Some? then hello.value else 0.0) - MinOf(times))
  }

  function Normalised(events: seq<Event>, offset: Option<real>): (r: seq<Event>)
    ensures |r| == |events|
    ensures forall i :: 0 <= i < |r| ==>
      r[i] == if offset.None? then events[i] else events[i].(normTime := events[i].timestamp + offset.value)
  {
    seq(|events|, i requires 0 <= i < |events| =>
      if offset.None? then events[i] else events[i].(normTime := events[i].timestamp + offset.value))
  }

  lemma {:induction false} ClientTimesExact(events: seq<Event>, t: real)
    ensures t in ClientTimes(events) <==>
      exists i :: 0 <= i < |events| && events[i].role.Client? && events[i].timestamp == t
    decreases |events|
  {
    if events != [] {
      var before := events[..|events| - 1];
      ClientTimesExact(before, t);
      assert forall i :: 0 <= i < |before| ==> before[i] == events[i];
    }
  }

  ghost predicate ClientAt(events: seq<Event>, t: real) {
    exists i :: 0 <= i < |events| && events[i].role.Client? && events[i].normTime == t
  }

  lemma MovesFrom(events: seq<Event>, o: real, t: real)
    ensures t in ClientTimes(events) <==> ClientAt(Normalised(events, Some(o)), t + o)
  {
    ClientTimesExact(events, t);
    var r := Normalised(events, Some(o));
    forall i | 0 <= i < |events|
      ensures events[i].timestamp == t <==> r[i].normTime == t + o
      ensures r[i].role == events[i].role
    {
    }
    if t in ClientTimes(events) {
      var i :| 0 <= i < |events| && events[i].role.Client? && events[i].timestamp == t;
      assert r[i].normTime == t + o;
    }
    if ClientAt(r, t + o) {
      var i :| 0 <= i < |r| && r[i].role.Client? && r[i].normTime == t + o;
      assert events[i].timestamp == t;
    }
  }

  ghost predicate AnyClientAt(events: seq<Event>, internals: seq<Event>, o: real, t: real) {
    ClientAt(Normalised(events, Some(o)), t) || ClientAt(Normalised(internals, Some(o)), t)
  }

  lemma ClientsMove(events: seq<Event>, internals: seq<Event>, o: real, t: real)
    ensures AnyClientAt(events, internals, o, t) <==> t - o in ClientTimes(events) + ClientTimes(internals)
  {
    MovesFrom(events, o, t - o);
    MovesFrom(internals, o, t - o);
  }

  /** The time line starts at the hello, or at zero without one: a client event is there, and none
      is earlier. */
  lemma TimeLineStarts(events: seq<Event>, internals: seq<Event>, hello: Option<real>, start: real)
    requires Offset(events, internals, hello).Some? && start == if hello.Some? then hello.value else 0.0
    ensures var o := Offset(events, internals, hello).value;
      && AnyClientAt(events, internals, o, start)
      && forall t :: AnyClientAt(events, internals, o, t) ==> start <= t
  {
    var o := Offset(events, internals, hello).value;
    ClientsMove(events, internals, o, start);
    forall t | AnyClientAt(events, internals, o, t) ensures start <= t {
      ClientsMove(events, internals, o, t);
    }
  }

  // ----- directions -----

  function DirectionOf(e: Event): Option<Direction> {
    match (e.role, e.kind)
    case (Client, Sent) | (Server, Received) => Some(ClientToServer)
    case (Server, Sent) | (Client, Received) => Some(ServerToClient)
    case _ => None
  }

  function Directed(events: seq<Event>): (r: seq<Event>)
    ensures |r| == |events|
    ensures forall i :: 0 <= i < |r| ==> r[i] == events[i].(direction := DirectionOf(events[i]))
  {
    seq(|events|, i requires 0 <= i < |events| => events[i].(direction := DirectionOf(events[i])))
  }

  // ----- the event objects -----

  class PacketEvent {
    const role: Role
    const kind: Kind
    const timestamp: real
    const packetNo: Option<int>
    var direction: Option<Direction>
    var normTime: real

    constructor (role: Role, kind: Kind, timestamp: real, packetNo: Option<int>)
      ensures View() == Event(role, kind, timestamp, packetNo, None, 0.0)
    {
      this.role, this.kind, this.timestamp, this.packetNo := role, kind, timestamp, packetNo;
      direction, normTime := None, 0.0;
    }

    function View(): Event
      reads this
    {
      Event(role, kind, timestamp, packetNo, direction, normTime)
    }
  }

  function Views(events: seq<PacketEvent>): (r: seq<Event>)
    reads events
    ensures |r| == |events|
    ensures forall i :: 0 <= i < |r| ==> r[i] == events[i].View()
  {
    seq(|events|, i requires 0 <= i < |events| reads events => events[i].View())
  }

  /** Moves every event, whichever log it comes from, by the same amount. */
  method NormalizeTimes(events: seq<PacketEvent>, internals: seq<PacketEvent>, hello: Option<real>)
    modifies events, internals
    ensures var offset := old(Offset(Views(events), Views(internals), hello));
      && Views(events) == old(Normalised(Views(events), offset))
      && Views(internals) == old(Normalised(Views(internals), offset))
  {
    ghost var was, wasInternal := Views(events), Views(internals);
    var offset := Offset(Views(events), Views(internals), hello);
    if offset.Some? {
      MoveAll(events, internals, offset.value);
      MovedViews(was, Views(events), offset.value);
      MovedViews(wasInternal, Views(internals), offset.value);
    }
  }

  /** Sets the normalised time of all events, those of the first list first. */
  method MoveAll(events: seq<PacketEvent>, internals: seq<PacketEvent>, offset: real)
    modifies events, internals
    ensures forall i :: 0 <= i < |events| ==> events[i].normTime == events[i].timestamp + offset
    ensures forall i :: 0 <= i < |internals| ==> internals[i].normTime == internals[i].timestamp + offset
    ensures forall e :: e in events || e in internals ==> e.direction == old(e.direction)
  {
    for i := 0 to |events|
      invariant forall j :: 0 <= j < i ==> events[j].normTime == events[j].timestamp + offset
      invariant forall e :: e in events || e in internals ==> e.direction == old(e.direction)
    {
      events[i].normTime := events[i].timestamp + offset;
    }
    for i := 0 to |internals|
      invariant forall j :: 0 <= j < i ==> internals[j].normTime == internals[j].timestamp + offset
      invariant forall j :: 0 <= j < |events| ==> events[j].normTime == events[j].timestamp + offset
      invariant forall e :: e in events || e in internals ==> e.direction == old(e.direction)
    {
      internals[i].normTime := internals[i].timestamp + offset;
    }
  }

  lemma MovedViews(was: seq<Event>, now: seq<Event>, offset: real)
    requires |was| == |now| && forall i :: 0 <= i < |now| ==> now[i] == was[i].(normTime := was[i].timestamp + offset)
    ensures now == Normalised(was, Some(offset))
  {
  }

  method AssignDirections(packets: seq<PacketEvent>)
    modifies packets
    ensures Views(packets) == old(Directed(Views(packets)))
  {
    for i := 0 to |packets|
      invariant forall j :: 0 <= j < i ==> packets[j].direction == DirectionOf(old(packets[j].View()))
      invariant forall j :: 0 <= j < |packets| ==> packets[j].normTime == old(packets[j].normTime)
    {
      var e := packets[i];
      e.direction := match (e.role, e.kind)
        case (Client, Sent) | (Server, Received) => Some(ClientToServer)
        case (Server, Sent) | (Client, Received) => Some(ServerToClient)
        case _ => None;
    }
  }

  // ----- the pairing, declaratively -----

  /** The events of one direction and kind, in log order. */
  function Select(packets: seq<Event>, d: Direction, k: Kind): seq<Event> {
    if packets == [] then [] else
      var e := packets[|packets| - 1];
      Select(packets[..|packets| - 1], d, k) + (if e.direction == Some(d) && e.kind == k then [e] else [])
  }

  /** Stable insertion by time: equal times keep their order. */
  function InsertByTime(s: seq<Event>, e: Event): (r: seq<Event>)
    ensures |r| == |s| + 1
  {
    if s == [] || s[|s| - 1].normTime <= e.normTime then s + [e]
    else InsertByTime(s[..|s| - 1], e) + [s[|s| - 1]]
  }

  function SortByTime(s: seq<Event>): (r: seq<Event>)
    ensures |r| == |s|
  {
    if s == [] then [] else InsertByTime(SortByTime(s[..|s| - 1]), s[|s| - 1])
  }

  function InsertFlow(s: seq<Flow>, f: Flow): (r: seq<Flow>)
    ensures |r| == |s| + 1
  {
    if s == [] || s[|s| - 1].normTime <= f.normTime then s + [f]
    else InsertFlow(s[..|s| - 1], f) + [s[|s| - 1]]
  }

  function SortFlows(s: seq<Flow>): (r: seq<Flow>)
    ensures |r| == |s|
  {
    if s == [] then [] else InsertFlow(SortFlows(s[..|s| - 1]), s[|s| - 1])
  }

  /** The receive carries the number of the send. */
  predicate SameNumber(send: Event, recv: Event) {
    send.packetNo.Some? && recv.packetNo == send.packetNo
  }

  /** The first unused receive at or after `from` with the number of the send, or the length. */
  function FirstNumbered(send: Event, recvs: seq<Event>, used: seq<bool>, from: nat): (i: nat)
    requires |used| == |recvs| && from <= |recvs|
    ensures from <= i <= |recvs|
    ensures i < |recvs| ==> !used[i] && SameNumber(send, recvs[i])
    ensures forall j :: from <= j < i ==> used[j] || !SameNumber(send, recvs[j])
    decreases |recvs| - from
  {
    if from == |recvs| || (!used[from] && SameNumber(send, recvs[from])) then from
    else FirstNumbered(send, recvs, used, from + 1)
  }

  function FirstUnused(used: seq<bool>, from: nat): (i: nat)
    requires from <= |used|
    ensures from <= i <= |used|
    ensures i < |used| ==> !used[i]
    ensures forall j :: from <= j < i ==> used[j]
    decreases |used| - from
  {
    if from == |used| || !used[from] then from else FirstUnused(used, from + 1)
  }

  /** The choice of a receive: one with the same number if any is unused, else any unused one. */
  function Choose(send: Event, recvs: seq<Event>, used: seq<bool>): (c: Option<nat>)
    requires |used| == |recvs|
    ensures c.Some? ==> c.value < |recvs| && !used[c.value]
    ensures c.None? ==> forall i :: 0 <= i < |used| ==> used[i]
    ensures (exists i :: 0 <= i < |recvs| && !used[i] && SameNumber(send, recvs[i])) ==>
      c.Some? && SameNumber(send, recvs[c.value])
    ensures c.Some? ==> forall j :: 0 <= j < c.value && !used[j] ==>
      SameNumber(send, recvs[c.value]) && !SameNumber(send, recvs[j])
  {
    var n := FirstNumbered(send, recvs, used, 0);
    if n < |recvs| then Some(n)
    else
      var u := FirstUnused(used, 0);
      if u < |recvs| then Some(u) else None
  }

  /** The receives taken by some choices. */
  function UsedBy(choices: seq<Option<nat>>, n: nat): (used: seq<bool>)
    ensures |used| == n
    ensures forall i :: 0 <= i < n ==> (used[i] <==> Some(i) in choices)
  {
    seq(n, i requires 0 <= i < n => Some(i) in choices)
  }

  /** The choices for all sends, in order. */
  function Choices(sends: seq<Event>, recvs: seq<Event>): (c: seq<Option<nat>>)
    ensures |c| == |sends|
  {
    if sends == [] then [] else
      var before := Choices(sends[..|sends| - 1], recvs);
      before + [Choose(sends[|sends| - 1], recvs, UsedBy(before, |recvs|))]
  }

  function FlowOf(d: Direction, send: Event, recvs: seq<Event>, c: Option<nat>): Flow
    requires c.Some? ==> c.value < |recvs|
  {
    Flow(d, send, if c.Some? then Some(recvs[c.value]) else None, send.normTime)
  }

  /** The flows of sorted sends and receives, in the order of the sends. */
  function FlowsOf(d: Direction, sends: seq<Event>, recvs: seq<Event>): (f: seq<Flow>)
    ensures |f| == |sends|
  {
    if sends == [] then [] else
      var before := Choices(sends[..|sends| - 1], recvs);
      var c := Choose(sends[|sends| - 1], recvs, UsedBy(before, |recvs|));
      FlowsOf(d, sends[..|sends| - 1], recvs) + [FlowOf(d, sends[|sends| - 1], recvs, c)]
  }

  function Sends(packets: seq<Event>, d: Direction): seq<Event> { SortByTime(Select(packets, d, Sent)) }
  function Recvs(packets: seq<Event>, d: Direction): seq<Event> { SortByTime(Select(packets, d, Received)) }

  function Unsorted(packets: seq<Event>): seq<Flow> {
    FlowsOf(ClientToServer, Sends(packets, ClientToServer), Recvs(packets, ClientToServer))
    + FlowsOf(ServerToClient, Sends(packets, ServerToClient), Recvs(packets, ServerToClient))
  }

  function Paired(packets: seq<Event>): seq<Flow> {
    SortFlows(Unsorted(packets))
  }

  // ----- the program -----

  /** Marks and returns the chosen receive. */
  method MatchReceive(send: Event, recvs: seq<Event>, used: array<bool>) returns (idx: Option<nat>)
    requires used.Length == |recvs|
    modifies used
    ensures idx == Choose(send, recvs, old(used[..]))
    ensures used[..] == if idx.Some? then old(used[..])[idx.value := true] else old(used[..])
  {
    ghost var before := used[..];
    for i := 0 to |recvs|
      invariant used[..] == before
      invariant FirstNumbered(send, recvs, before, 0) == FirstNumbered(send, recvs, before, i)
    {
      if used[i] {
        continue;
      }
      if send.packetNo.Some? && recvs[i].packetNo == send.packetNo {
        used[i] := true;
        return Some(i);
      }
    }
    for i := 0 to |recvs|
      invariant used[..] == before
      invariant FirstUnused(before, 0) == FirstUnused(before, i)
    {
      if !used[i] {
        used[i] := true;
        return Some(i);
      }
    }
    idx := None;
  }

  method FlowsInOneDirection(d: Direction, sends: seq<Event>, recvs: seq<Event>) returns (flows: seq<Flow>)
    ensures flows == FlowsOf(d, sends, recvs)
  {
    flows := [];
    var used := new bool[|recvs|](_ => false);
    assert used[..] == UsedBy([], |recvs|);
    for i := 0 to |sends|
      invariant flows == FlowsOf(d, sends[..i], recvs)
      invariant used[..] == UsedBy(Choices(sends[..i], recvs), |recvs|)
    {
      assert sends[..i + 1][..i] == sends[..i];
      var idx := MatchReceive(sends[i], recvs, used);
      UsedByNext(Choices(sends[..i], recvs), idx, |recvs|);
      flows := flows + [FlowOf(d, sends[i], recvs, idx)];
    }
    assert sends[..|sends|] == sends;
  }

  /** Marking the chosen receive keeps the flags in step with the choices. */
  lemma UsedByNext(before: seq<Option<nat>>, idx: Option<nat>, n: nat)
    requires idx.Some? ==> idx.value < n
    ensures UsedBy(before + [idx], n) == if idx.Some? then UsedBy(before, n)[idx.value := true] else UsedBy(before, n)
  {
  }

  method PairPackets(packets: seq<Event>) returns (flows: seq<Flow>)
    ensures flows == Paired(Directed(packets))
  {
    var directed := Directed(packets);
    var up, down, atServer, atClient := [], [], [], [];
    for i := 0 to |directed|
      invariant up == Select(directed[..i], ClientToServer, Sent)
      invariant atServer == Select(directed[..i], ClientToServer, Received)
      invariant down == Select(directed[..i], ServerToClient, Sent)
      invariant atClient == Select(directed[..i], ServerToClient, Received)
    {
      var e := directed[i];
      assert directed[..i + 1][..i] == directed[..i];
      match e.direction
      case None =>
      case Some(ClientToServer) =>
        if e.kind == Sent { up := up + [e]; } else if e.kind == Received { atServer := atServer + [e]; }
      case Some(ServerToClient) =>
        if e.kind == Sent { down := down + [e]; } else if e.kind == Received { atClient := atClient + [e]; }
    }
    assert directed[..|directed|] == directed;
    var first := FlowsInOneDirection(ClientToServer, SortByTime(up), SortByTime(atServer));
    var second := FlowsInOneDirection(ServerToClient, SortByTime(down), SortByTime(atClient));
    flows := SortFlows(first + second);
  }

  // ----- one flow for each send, in time order -----

  ghost predicate InOrder(s: seq<Flow>) {
    forall i, j :: 0 <= i < j < |s| ==> s[i].normTime <= s[j].normTime
  }

  lemma InOrderAppend(s: seq<Flow>, f: Flow)
    requires InOrder(s) && forall i :: 0 <= i < |s| ==> s[i].normTime <= f.normTime
    ensures InOrder(s + [f])
  {
  }

  lemma {:induction false} InsertFlowSorts(s: seq<Flow>, f: Flow)
    requires InOrder(s)
    ensures InOrder(InsertFlow(s, f)) && multiset(InsertFlow(s, f)) == multiset(s) + multiset{f}
    decreases |s|
  {
    if s == [] || s[|s| - 1].normTime <= f.normTime {
      InOrderAppend(s, f);
    } else {
      var a, z := s[..|s| - 1], s[|s| - 1];
      InsertFlowSorts(a, f);
      assert s == a + [z];
      var r := InsertFlow(a, f);
      forall i | 0 <= i < |r| ensures r[i].normTime <= z.normTime {
        assert r[i] in multiset(r);
        assert r[i] in multiset(a) || r[i] == f;
      }
      InOrderAppend(r, z);
    }
  }

  lemma {:induction false} SortFlowsSorts(s: seq<Flow>)
    ensures InOrder(SortFlows(s)) && multiset(SortFlows(s)) == multiset(s)
    decreases |s|
  {
    if s != [] {
      SortFlowsSorts(s[..|s| - 1]);
      InsertFlowSorts(SortFlows(s[..|s| - 1]), s[|s| - 1]);
      assert s == s[..|s| - 1] + [s[|s| - 1]];
    }
  }

  lemma {:induction false} InsertByTimePermutes(s: seq<Event>, e: Event)
    ensures multiset(InsertByTime(s, e)) == multiset(s) + multiset{e}
    decreases |s|
  {
    if s != [] && !(s[|s| - 1].normTime <= e.normTime) {
      InsertByTimePermutes(s[..|s| - 1], e);
      assert s == s[..|s| - 1] + [s[|s| - 1]];
    }
  }

  lemma {:induction false} SortByTimePermutes(s: seq<Event>)
    ensures multiset(SortByTime(s)) == multiset(s)
    decreases |s|
  {
    if s != [] {
      SortByTimePermutes(s[..|s| - 1]);
      InsertByTimePermutes(SortByTime(s[..|s| - 1]), s[|s| - 1]);
      assert s == s[..|s| - 1] + [s[|s| - 1]];
    }
  }

  function SendersOf(flows: seq<Flow>): (r: seq<Event>)
    ensures |r| == |flows|
    ensures forall i :: 0 <= i < |r| ==> r[i] == flows[i].send
  {
    seq(|flows|, i requires 0 <= i < |flows| => flows[i].send)
  }

  lemma {:induction false} FlowsKeepSends(d: Direction, sends: seq<Event>, recvs: seq<Event>)
    ensures SendersOf(FlowsOf(d, sends, recvs)) == sends
    decreases |sends|
  {
    if sends != [] {
      FlowsKeepSends(d, sends[..|sends| - 1], recvs);
      assert sends == sends[..|sends| - 1] + [sends[|sends| - 1]];
    }
  }

  // ----- no receive twice, and as many matches as possible -----

  /** No receive is chosen twice. */
  ghost predicate Injective(c: seq<Option<nat>>) {
    forall i, j :: 0 <= i < j < |c| && c[i].Some? ==> c[i] != c[j]
  }

  lemma {:induction false} ChoicesInjective(sends: seq<Event>, recvs: seq<Event>)
    ensures Injective(Choices(sends, recvs))
    decreases |sends|
  {
    if sends != [] { ChoicesInjective(sends[..|sends| - 1], recvs); }
  }

  ghost function Taken(c: seq<Option<nat>>): set<nat> {
    set i | 0 <= i < |c| && c[i].Some? :: c[i].value
  }

  lemma TakenAppend(c: seq<Option<nat>>, x: Option<nat>)
    ensures Taken(c + [x]) == Taken(c) + if x.Some? then {x.value} else {}
  {
    var d := c + [x];
    assert d[|c|] == x;
    assert forall i :: 0 <= i < |c| ==> d[i] == c[i];
  }

  ghost function Range(n: nat): (r: set<nat>)
    ensures |r| == n && forall i: nat :: i in r <==> i < n
  {
    if n == 0 then {} else Range(n - 1) + {n - 1}
  }

  lemma SubsetOfRange(s: set<nat>, n: nat)
    requires forall x :: x in s ==> x < n
    ensures |s| <= n && (|s| == n ==> s == Range(n))
  {
    assert Range(n) == s + (Range(n) - s);
  }

  /** The k-th send in time order is matched exactly when there are more than k receives,
      so exactly as many packets are matched as both sides allow. */
  lemma {:induction false} MatchedWhilePossible(sends: seq<Event>, recvs: seq<Event>)
    ensures var c := Choices(sends, recvs);
      && (forall k :: 0 <= k < |c| ==> (c[k].Some? <==> k < |recvs|))
      && (forall x :: x in Taken(c) ==> x < |recvs|)
      && |Taken(c)| == if |sends| < |recvs| then |sends| else |recvs|
    decreases |sends|
  {
    if sends != [] {
      var before := Choices(sends[..|sends| - 1], recvs);
      MatchedWhilePossible(sends[..|sends| - 1], recvs);
      ChooseExtends(before, sends[|sends| - 1], recvs);
    }
  }

  /** A choice is possible exactly while fewer receives are taken than there are. */
  lemma ChooseExtends(before: seq<Option<nat>>, send: Event, recvs: seq<Event>)
    requires forall x :: x in Taken(before) ==> x < |recvs|
    ensures var x := Choose(send, recvs, UsedBy(before, |recvs|));
      && (x.Some? <==> |Taken(before)| < |recvs|)
      && |Taken(before + [x])| == |Taken(before)| + (if x.Some? then 1 else 0)
      && (forall y :: y in Taken(before + [x]) ==> y < |recvs|)
  {
    var n := |recvs|;
    var x := Choose(send, recvs, UsedBy(before, n));
    TakenAppend(before, x);
    SubsetOfRange(Taken(before), n);
    UsedIsTaken(before, n);
    if x.Some? {
      assert x.value !in Taken(before) && x.value in Range(n);
    } else {
      assert Taken(before) == Range(n);
    }
  }

  lemma UsedIsTaken(c: seq<Option<nat>>, n: nat)
    ensures forall i :: 0 <= i < n ==> (UsedBy(c, n)[i] <==> i in Taken(c))
  {
    forall i | 0 <= i < n ensures UsedBy(c, n)[i] <==> i in Taken(c) {
      if Some(i) in c {
        var k :| 0 <= k < |c| && c[k] == Some(i);
        assert c[k].value in Taken(c);
      }
    }
  }

  /** A send gets an equal-numbered receive whenever one is left by the sends before it. */
  lemma {:induction false} PrefersEqualNumber(sends: seq<Event>, recvs: seq<Event>, k: nat, i: nat)
    requires k < |sends| && i < |recvs| && SameNumber(sends[k], recvs[i])
    requires Some(i) !in Choices(sends, recvs)[..k]
    ensures var c := Choices(sends, recvs)[k]; c.Some? && c.value < |recvs| && SameNumber(sends[k], recvs[c.value])
    decreases |sends|
  {
    var before := Choices(sends[..|sends| - 1], recvs);
    var c := Choices(sends, recvs);
    if k < |sends| - 1 {
      assert c[..k] == before[..k];
      PrefersEqualNumber(sends[..|sends| - 1], recvs, k, i);
    } else {
      assert c[..k] == before;
      assert !UsedBy(before, |recvs|)[i];
    }
  }

  /** Every flow takes the receive chosen for its send. */
  lemma {:induction false} FlowsFollowChoices(d: Direction, sends: seq<Event>, recvs: seq<Event>, k: nat)
    requires k < |sends|
    ensures var c := Choices(sends, recvs)[k];
      (c.Some? ==> c.value < |recvs|) && FlowsOf(d, sends, recvs)[k] == FlowOf(d, sends[k], recvs, c)
    decreases |sends|
  {
    if k < |sends| - 1 { FlowsFollowChoices(d, sends[..|sends| - 1], recvs, k); }
  }

  lemma {:induction false} InsertFlowKeepsSends(s: seq<Flow>, f: Flow)
    ensures multiset(SendersOf(InsertFlow(s, f))) == multiset(SendersOf(s)) + multiset{f.send}
    decreases |s|
  {
    if s == [] || s[|s| - 1].normTime <= f.normTime {
      assert SendersOf(s + [f]) == SendersOf(s) + [f.send];
    } else {
      var a, z := s[..|s| - 1], s[|s| - 1];
      InsertFlowKeepsSends(a, f);
      assert SendersOf(InsertFlow(a, f) + [z]) == SendersOf(InsertFlow(a, f)) + [z.send];
      assert SendersOf(s) == SendersOf(a) + [z.send];
    }
  }

  lemma {:induction false} SortFlowsKeepsSends(s: seq<Flow>)
    ensures multiset(SendersOf(SortFlows(s))) == multiset(SendersOf(s))
    decreases |s|
  {
    if s != [] {
      SortFlowsKeepsSends(s[..|s| - 1]);
      InsertFlowKeepsSends(SortFlows(s[..|s| - 1]), s[|s| - 1]);
      assert SendersOf(s) == SendersOf(s[..|s| - 1]) + [s[|s| - 1].send];
    }
  }

  /** The sent packets of a log. */
  function SentOf(packets: seq<Event>): seq<Event> {
    if packets == [] then [] else
      var e := packets[|packets| - 1];
      SentOf(packets[..|packets| - 1]) + (if e.kind == Sent then [e] else [])
  }

  lemma {:induction false} SentByDirection(packets: seq<Event>)
    requires forall i :: 0 <= i < |packets| ==> packets[i].direction == DirectionOf(packets[i])
    ensures multiset(SentOf(packets))
         == multiset(Select(packets, ClientToServer, Sent)) + multiset(Select(packets, ServerToClient, Sent))
    decreases |packets|
  {
    if packets != [] { SentByDirection(packets[..|packets| - 1]); }
  }

  /** The pairing has exactly one flow for each sent packet, and lists them by time. */
  lemma OneFlowPerSend(packets: seq<Event>)
    ensures var flows := Paired(Directed(packets));
      InOrder(flows) && multiset(SendersOf(flows)) == multiset(SentOf(Directed(packets)))
  {
    var p := Directed(packets);
    PairedSends(p);
    DirectedSends(packets);
  }

  lemma PairedSends(p: seq<Event>)
    ensures InOrder(Paired(p))
    ensures multiset(SendersOf(Paired(p)))
         == multiset(Select(p, ClientToServer, Sent)) + multiset(Select(p, ServerToClient, Sent))
  {
    SortFlowsSorts(Unsorted(p));
    SortFlowsKeepsSends(Unsorted(p));
    UnsortedSends(p);
  }

  lemma DirectedSends(packets: seq<Event>)
    ensures var p := Directed(packets);
      multiset(SentOf(p)) == multiset(Select(p, ClientToServer, Sent)) + multiset(Select(p, ServerToClient, Sent))
  {
    SentByDirection(Directed(packets));
  }

  lemma UnsortedSends(p: seq<Event>)
    ensures multiset(SendersOf(Unsorted(p)))
         == multiset(Select(p, ClientToServer, Sent)) + multiset(Select(p, ServerToClient, Sent))
  {
    var up, down := Sends(p, ClientToServer), Sends(p, ServerToClient);
    var first := FlowsOf(ClientToServer, up, Recvs(p, ClientToServer));
    var second := FlowsOf(ServerToClient, down, Recvs(p, ServerToClient));
    FlowsKeepSends(ClientToServer, up, Recvs(p, ClientToServer));
    FlowsKeepSends(ServerToClient, down, Recvs(p, ServerToClient));
    SendersAppend(first, second);
    SortByTimePermutes(Select(p, ClientToServer, Sent));
    SortByTimePermutes(Select(p, ServerToClient, Sent));
  }

  lemma SendersAppend(a: seq<Flow>, b: seq<Flow>)
    ensures SendersOf(a + b) == SendersOf(a) + SendersOf(b)
  {
  }

  // ----- the order of time -----

  /** The events at one time, in order. */
  function AtTime(s: seq<Event>, t: real): seq<Event> {
    if s == [] then [] else
      AtTime(s[..|s| - 1], t) + (if s[|s| - 1].normTime == t then [s[|s| - 1]] else [])
  }

  ghost predicate Ascending(s: seq<Event>) {
    forall i, j :: 0 <= i < j < |s| ==> s[i].normTime <= s[j].normTime
  }

  lemma AscendingAppend(s: seq<Event>, e: Event)
    requires Ascending(s) && (s != [] ==> s[|s| - 1].normTime <= e.normTime)
    ensures Ascending(s + [e])
  {
  }

  lemma {:induction false} InsertAscends(s: seq<Event>, e: Event)
    requires Ascending(s)
    ensures var r := InsertByTime(s, e);
      && Ascending(r)
      && (r[|r| - 1].normTime ==
            if s != [] && e.normTime < s[|s| - 1].normTime then s[|s| - 1].normTime else e.normTime)
    decreases |s|
  {
    if s == [] || s[|s| - 1].normTime <= e.normTime {
      AscendingAppend(s, e);
    } else {
      var a, z := s[..|s| - 1], s[|s| - 1];
      InsertAscends(a, e);
      if a != [] { assert a[|a| - 1].normTime <= z.normTime; }
      AscendingAppend(InsertByTime(a, e), z);
    }
  }

  lemma AtTimeAppend(s: seq<Event>, e: Event, t: real)
    ensures AtTime(s + [e], t) == AtTime(s, t) + (if e.normTime == t then [e] else [])
  {
    assert (s + [e])[..|s|] == s;
  }

  lemma {:induction false} InsertIsStable(s: seq<Event>, e: Event, t: real)
    requires Ascending(s)
    ensures AtTime(InsertByTime(s, e), t) == AtTime(s + [e], t)
    decreases |s|
  {
    AtTimeAppend(s, e, t);
    if s != [] && !(s[|s| - 1].normTime <= e.normTime) {
      var a, z := s[..|s| - 1], s[|s| - 1];
      InsertIsStable(a, e, t);
      AtTimeAppend(a, e, t);
      AtTimeAppend(InsertByTime(a, e), z, t);
    }
  }

  /** Sorting by time puts earlier events first and keeps the order of simultaneous ones. */
  lemma {:induction false} SortByTimeExact(s: seq<Event>, t: real)
    ensures Ascending(SortByTime(s)) && AtTime(SortByTime(s), t) == AtTime(s, t)
    decreases |s|
  {
    if s != [] {
      var a, z := s[..|s| - 1], s[|s| - 1];
      SortByTimeExact(a, t);
      InsertAscends(SortByTime(a), z);
      InsertIsStable(SortByTime(a), z, t);
      AtTimeAppend(SortByTime(a), z, t);
    }
  }

  /** The flows of one direction, in order. */
  function Only(flows: seq<Flow>, d: Direction): seq<Flow> {
    if flows == [] then [] else
      var f := flows[|flows| - 1];
      Only(flows[..|flows| - 1], d) + (if f.direction == d then [f] else [])
  }

  lemma OnlyAppendOne(s: seq<Flow>, f: Flow, d: Direction)
    ensures Only(s + [f], d) == Only(s, d) + (if f.direction == d then [f] else [])
  {
    assert (s + [f])[..|s|] == s;
  }

  lemma {:induction false} OnlyAppend(a: seq<Flow>, b: seq<Flow>, d: Direction)
    ensures Only(a + b, d) == Only(a, d) + Only(b, d)
    decreases |b|
  {
    if b == [] {
      assert a + b == a;
    } else {
      OnlyAppend(a, b[..|b| - 1], d);
      assert (a + b)[..|a + b| - 1] == a + b[..|b| - 1];
    }
  }

  /** Every flow of direction `d` in the list is at or before time `t`. */
  ghost predicate OnlyUpTo(s: seq<Flow>, d: Direction, t: real) {
    forall i :: 0 <= i < |s| && s[i].direction == d ==> s[i].normTime <= t
  }

  /** Inserting goes behind the flows of its direction that are not later, past the others. */
  lemma {:induction false} InsertKeepsOnly(s: seq<Flow>, f: Flow, d: Direction)
    requires f.direction == d ==> OnlyUpTo(s, d, f.normTime)
    ensures Only(InsertFlow(s, f), d) == Only(s + [f], d)
    decreases |s|
  {
    OnlyAppendOne(s, f, d);
    if s != [] && !(s[|s| - 1].normTime <= f.normTime) {
      var a, z := s[..|s| - 1], s[|s| - 1];
      InsertKeepsOnly(a, f, d);
      OnlyAppendOne(a, f, d);
      OnlyAppendOne(InsertFlow(a, f), z, d);
    }
  }

  /** The times of one direction's flows do not fall. */
  ghost predicate OnlyAscending(s: seq<Flow>, d: Direction) {
    forall i, j :: 0 <= i < j < |s| && s[i].direction == d && s[j].direction == d ==> s[i].normTime <= s[j].normTime
  }

  lemma {:induction false} SortKeepsOnly(s: seq<Flow>, d: Direction)
    requires OnlyAscending(s, d)
    ensures Only(SortFlows(s), d) == Only(s, d)
    decreases |s|
  {
    if s != [] {
      var a, z := s[..|s| - 1], s[|s| - 1];
      SortKeepsOnly(a, d);
      SortFlowsSorts(a);
      if z.direction == d {
        forall i | 0 <= i < |SortFlows(a)| && SortFlows(a)[i].direction == d
          ensures SortFlows(a)[i].normTime <= z.normTime
        {
          assert SortFlows(a)[i] in multiset(a);
          var j :| 0 <= j < |a| && a[j] == SortFlows(a)[i];
        }
      }
      InsertKeepsOnly(SortFlows(a), z, d);
      OnlyAppendOne(SortFlows(a), z, d);
    }
  }

  lemma {:induction false} AllOneDirection(d: Direction, sends: seq<Event>, recvs: seq<Event>, e: Direction)
    ensures Only(FlowsOf(d, sends, recvs), e) == if d == e then FlowsOf(d, sends, recvs) else []
    decreases |sends|
  {
    if sends != [] {
      var n := |sends| - 1;
      AllOneDirection(d, sends[..n], recvs, e);
      OnlyAppendOne(FlowsOf(d, sends[..n], recvs), FlowsOf(d, sends, recvs)[n], e);
    }
  }

  ghost predicate OneDirection(s: seq<Flow>, d: Direction) {
    forall i :: 0 <= i < |s| ==> s[i].direction == d
  }

  lemma FlowsAscend(d: Direction, sends: seq<Event>, recvs: seq<Event>)
    requires Ascending(sends)
    ensures var f := FlowsOf(d, sends, recvs); OneDirection(f, d) && InOrder(f)
  {
    var f := FlowsOf(d, sends, recvs);
    forall k | 0 <= k < |sends| ensures f[k].direction == d && f[k].normTime == sends[k].normTime {
      FlowsFollowChoices(d, sends, recvs, k);
    }
  }

  lemma JoinAscends(a: seq<Flow>, b: seq<Flow>, d: Direction)
    requires OneDirection(a, ClientToServer) && OneDirection(b, ServerToClient) && InOrder(a) && InOrder(b)
    ensures OnlyAscending(a + b, d)
  {
  }

  lemma UnsortedAscends(p: seq<Event>, d: Direction)
    ensures OnlyAscending(Unsorted(p), d)
  {
    SortByTimeExact(Select(p, ClientToServer, Sent), 0.0);
    SortByTimeExact(Select(p, ServerToClient, Sent), 0.0);
    FlowsAscend(ClientToServer, Sends(p, ClientToServer), Recvs(p, ClientToServer));
    FlowsAscend(ServerToClient, Sends(p, ServerToClient), Recvs(p, ServerToClient));
    JoinAscends(FlowsOf(ClientToServer, Sends(p, ClientToServer), Recvs(p, ClientToServer)),
                FlowsOf(ServerToClient, Sends(p, ServerToClient), Recvs(p, ServerToClient)), d);
  }

  lemma UnsortedOnly(p: seq<Event>, d: Direction)
    ensures Only(Unsorted(p), d) == FlowsOf(d, Sends(p, d), Recvs(p, d))
  {
    OnlyAppend(FlowsOf(ClientToServer, Sends(p, ClientToServer), Recvs(p, ClientToServer)),
               FlowsOf(ServerToClient, Sends(p, ServerToClient), Recvs(p, ServerToClient)), d);
    AllOneDirection(ClientToServer, Sends(p, ClientToServer), Recvs(p, ClientToServer), d);
    AllOneDirection(ServerToClient, Sends(p, ServerToClient), Recvs(p, ServerToClient), d);
  }

  /** Of each direction, the pairing lists the flows in the order of the sends. */
  lemma PairedByDirection(p: seq<Event>, d: Direction)
    ensures Only(Paired(p), d) == FlowsOf(d, Sends(p, d), Recvs(p, d))
  {
    UnsortedAscends(p, d);
    UnsortedOnly(p, d);
    SortKeepsOnly(Unsorted(p), d);
  }

  /** Flow `k` of a direction: its send is the `k`-th in time; it has a receive exactly when there
      are more than `k`, so a later flow has one only if all earlier ones have; and that receive is
      the earliest one left with the number of the send or, without any, the earliest one left. */
  lemma FlowExact(p: seq<Event>, d: Direction, k: nat)
    requires k < |Sends(p, d)|
    ensures var flows, sends, recvs := Only(Paired(p), d), Sends(p, d), Recvs(p, d);
      var c := Choices(sends, recvs);
      && |flows| == |sends| && flows[k].send == sends[k] && flows[k].normTime == sends[k].normTime
      && (flows[k].recv.Some? <==> k < |recvs|)
      && (k < |recvs| ==>
            && c[k].Some? && c[k].value < |recvs| && flows[k].recv == Some(recvs[c[k].value])
            && EarliestLeft(sends[k], recvs, c[..k], c[k].value))
  {
    PairedByDirection(p, d);
    FlowsFollowChoices(d, Sends(p, d), Recvs(p, d), k);
    MatchedWhilePossible(Sends(p, d), Recvs(p, d));
    if k < |Recvs(p, d)| { ChoiceIsEarliest(Sends(p, d), Recvs(p, d), k); }
  }

  /** Not taken before; of those left, the first with the number of the send, or the first of all
      when none has it. */
  ghost predicate EarliestLeft(send: Event, recvs: seq<Event>, before: seq<Option<nat>>, i: nat) {
    && i < |recvs| && Some(i) !in before
    && (if SameNumber(send, recvs[i])
        then forall j: nat :: j < i && SameNumber(send, recvs[j]) ==> Some(j) in before
        else forall j: nat :: j < |recvs| && (j < i || SameNumber(send, recvs[j])) ==> Some(j) in before)
  }

  lemma {:induction false} ChoiceIsEarliest(sends: seq<Event>, recvs: seq<Event>, k: nat)
    requires k < |sends| && Choices(sends, recvs)[k].Some?
    ensures var c := Choices(sends, recvs); EarliestLeft(sends[k], recvs, c[..k], c[k].value)
    decreases |sends|
  {
    var n := |sends| - 1;
    var before, c := Choices(sends[..n], recvs), Choices(sends, recvs);
    if k < n {
      assert c[..k] == before[..k];
      ChoiceIsEarliest(sends[..n], recvs, k);
    } else {
      assert c[..k] == before;
      FirstOfAll(sends[k], recvs, before, c[k].value);
    }
  }

  lemma FirstOfAll(send: Event, recvs: seq<Event>, before: seq<Option<nat>>, i: nat)
    requires Choose(send, recvs, UsedBy(before, |recvs|)) == Some(i)
    ensures EarliestLeft(send, recvs, before, i)
  {
    var used := UsedBy(before, |recvs|);
    forall j: nat | j < |recvs| ensures used[j] <==> Some(j) in before {
    }
  }

  // ----- what becomes of the receives -----

  /** The receives in the flows of one direction. */
  function ReceivesOf(flows: seq<Flow>, d: Direction): seq<Event> {
    if flows == [] then [] else
      var f := flows[|flows| - 1];
      ReceivesOf(flows[..|flows| - 1], d) + (if f.direction == d && f.recv.Some? then [f.recv.value] else [])
  }

  lemma ReceivesAppendOne(s: seq<Flow>, f: Flow, d: Direction)
    ensures ReceivesOf(s + [f], d) == ReceivesOf(s, d) + ReceivesOf([f], d)
  {
    assert (s + [f])[..|s|] == s && [f][..0] == [];
  }

  lemma {:induction false} ReceivesAppend(a: seq<Flow>, b: seq<Flow>, d: Direction)
    ensures ReceivesOf(a + b, d) == ReceivesOf(a, d) + ReceivesOf(b, d)
    decreases |b|
  {
    if b == [] {
      assert a + b == a;
    } else {
      ReceivesAppend(a, b[..|b| - 1], d);
      assert (a + b)[..|a + b| - 1] == a + b[..|b| - 1];
    }
  }

  /** How often the flows of one direction hold a receive. */
  function CountReceive(flows: seq<Flow>, d: Direction, e: Event): nat {
    if flows == [] then 0 else
      var f := flows[|flows| - 1];
      CountReceive(flows[..|flows| - 1], d, e) + (if f.direction == d && f.recv == Some(e) then 1 else 0)
  }

  lemma {:induction false} CountIsMultiplicity(flows: seq<Flow>, d: Direction, e: Event)
    ensures multiset(ReceivesOf(flows, d))[e] == CountReceive(flows, d, e)
    decreases |flows|
  {
    if flows != [] { CountIsMultiplicity(flows[..|flows| - 1], d, e); }
  }

  lemma {:induction false} InsertKeepsCount(s: seq<Flow>, f: Flow, d: Direction, e: Event)
    ensures CountReceive(InsertFlow(s, f), d, e) == CountReceive(s + [f], d, e)
    decreases |s|
  {
    assert (s + [f])[..|s|] == s;
    if s != [] && !(s[|s| - 1].normTime <= f.normTime) {
      var a, z := s[..|s| - 1], s[|s| - 1];
      InsertKeepsCount(a, f, d, e);
      assert (a + [f])[..|a|] == a;
      assert (InsertFlow(a, f) + [z])[..|s|] == InsertFlow(a, f);
    }
  }

  lemma {:induction false} SortKeepsCount(s: seq<Flow>, d: Direction, e: Event)
    ensures CountReceive(SortFlows(s), d, e) == CountReceive(s, d, e)
    decreases |s|
  {
    if s != [] {
      var a, z := s[..|s| - 1], s[|s| - 1];
      SortKeepsCount(a, d, e);
      InsertKeepsCount(SortFlows(a), z, d, e);
      assert (SortFlows(a) + [z])[..|a|] == SortFlows(a);
    }
  }

  lemma SortKeepsReceives(s: seq<Flow>, d: Direction)
    ensures multiset(ReceivesOf(SortFlows(s), d)) == multiset(ReceivesOf(s, d))
  {
    forall e: Event ensures multiset(ReceivesOf(SortFlows(s), d))[e] == multiset(ReceivesOf(s, d))[e] {
      CountIsMultiplicity(SortFlows(s), d, e);
      SortKeepsCount(s, d, e);
      CountIsMultiplicity(s, d, e);
    }
  }

  /** The receives that no flag marks. */
  function Unused(recvs: seq<Event>, used: seq<bool>): seq<Event>
    requires |used| == |recvs|
  {
    if recvs == [] then [] else
      var n := |recvs| - 1;
      Unused(recvs[..n], used[..n]) + (if used[n] then [] else [recvs[n]])
  }

  lemma {:induction false} UseOne(recvs: seq<Event>, used: seq<bool>, i: nat)
    requires |used| == |recvs| && i < |recvs| && !used[i]
    ensures multiset(Unused(recvs, used)) == multiset(Unused(recvs, used[i := true])) + multiset{recvs[i]}
    decreases |recvs|
  {
    var n := |recvs| - 1;
    if i < n {
      UseOne(recvs[..n], used[..n], i);
      assert used[i := true][..n] == used[..n][i := true];
    } else {
      assert used[i := true][..n] == used[..n];
    }
  }

  lemma {:induction false} AllUnused(recvs: seq<Event>, used: seq<bool>)
    requires |used| == |recvs| && forall i :: 0 <= i < |used| ==> !used[i]
    ensures Unused(recvs, used) == recvs
    decreases |recvs|
  {
    if recvs != [] {
      AllUnused(recvs[..|recvs| - 1], used[..|recvs| - 1]);
    }
  }

  /** Nothing is lost or doubled: the receives in the flows and the unused ones are all receives. */
  lemma {:induction false} ReceivesConserved(d: Direction, sends: seq<Event>, recvs: seq<Event>)
    ensures multiset(ReceivesOf(FlowsOf(d, sends, recvs), d))
          + multiset(Unused(recvs, UsedBy(Choices(sends, recvs), |recvs|))) == multiset(recvs)
    decreases |sends|
  {
    if sends == [] {
      AllUnused(recvs, UsedBy([], |recvs|));
    } else {
      var shorter, send := sends[..|sends| - 1], sends[|sends| - 1];
      ReceivesConserved(d, shorter, recvs);
      NextReceive(d, FlowsOf(d, shorter, recvs), send, recvs, Choices(shorter, recvs));
    }
  }

  lemma NextReceive(d: Direction, flows: seq<Flow>, send: Event, recvs: seq<Event>, before: seq<Option<nat>>)
    ensures var c := Choose(send, recvs, UsedBy(before, |recvs|));
      multiset(ReceivesOf(flows + [FlowOf(d, send, recvs, c)], d))
      + multiset(Unused(recvs, UsedBy(before + [c], |recvs|)))
      == multiset(ReceivesOf(flows, d)) + multiset(Unused(recvs, UsedBy(before, |recvs|)))
  {
    var c := Choose(send, recvs, UsedBy(before, |recvs|));
    UsedByNext(before, c, |recvs|);
    ReceivesAppendOne(flows, FlowOf(d, send, recvs, c), d);
    OneReceive(d, send, recvs, c);
    if c.Some? { UseOne(recvs, UsedBy(before, |recvs|), c.value); }
  }

  lemma OneReceive(d: Direction, send: Event, recvs: seq<Event>, c: Option<nat>)
    requires c.Some? ==> c.value < |recvs|
    ensures ReceivesOf([FlowOf(d, send, recvs, c)], d) == if c.Some? then [recvs[c.value]] else []
  {
    assert [FlowOf(d, send, recvs, c)][..0] == [];
  }

  function Min(a: nat, b: nat): nat { if a < b then a else b }

  lemma {:induction false} ReceivesCount(d: Direction, sends: seq<Event>, recvs: seq<Event>)
    ensures |ReceivesOf(FlowsOf(d, sends, recvs), d)| == Min(|sends|, |recvs|)
    decreases |sends|
  {
    if sends != [] {
      var n := |sends| - 1;
      ReceivesCount(d, sends[..n], recvs);
      MatchedWhilePossible(sends, recvs);
      var c := Choices(sends, recvs)[n];
      ReceivesAppendOne(FlowsOf(d, sends[..n], recvs), FlowOf(d, sends[n], recvs, c), d);
      OneReceive(d, sends[n], recvs, c);
    }
  }

  lemma {:induction false} OtherDirection(d: Direction, sends: seq<Event>, recvs: seq<Event>, e: Direction)
    requires d != e
    ensures ReceivesOf(FlowsOf(d, sends, recvs), e) == []
    decreases |sends|
  {
    if sends != [] { OtherDirection(d, sends[..|sends| - 1], recvs, e); }
  }

  lemma UnsortedReceives(p: seq<Event>, d: Direction)
    ensures ReceivesOf(Unsorted(p), d) == ReceivesOf(FlowsOf(d, Sends(p, d), Recvs(p, d)), d)
  {
    var first := FlowsOf(ClientToServer, Sends(p, ClientToServer), Recvs(p, ClientToServer));
    var second := FlowsOf(ServerToClient, Sends(p, ServerToClient), Recvs(p, ServerToClient));
    ReceivesAppend(first, second, d);
    match d
    case ClientToServer => OtherDirection(ServerToClient, Sends(p, ServerToClient), Recvs(p, ServerToClient), d);
    case ServerToClient => OtherDirection(ClientToServer, Sends(p, ClientToServer), Recvs(p, ClientToServer), d);
  }

  /** In each direction the flows hold received packets of that direction, none more often than
      it was received, and as many as there are sends or receives, whichever are fewer. */
  lemma ReceivesOnce(packets: seq<Event>, d: Direction)
    ensures var p := Directed(packets);
      var r := ReceivesOf(Paired(p), d);
      && multiset(r) <= multiset(Select(p, d, Received))
      && |r| == Min(|Select(p, d, Sent)|, |Select(p, d, Received)|)
  {
    var p := Directed(packets);
    var sends, recvs := Sends(p, d), Recvs(p, d);
    SortKeepsReceives(Unsorted(p), d);
    UnsortedReceives(p, d);
    ReceivesConserved(d, sends, recvs);
    ReceivesCount(d, sends, recvs);
    SortByTimePermutes(Select(p, d, Received));
    assert |multiset(ReceivesOf(Paired(p), d))| == |multiset(ReceivesOf(Unsorted(p), d))|;
  }

  // ----- a common shift of both clocks changes nothing -----

  function Shift(e: Event, d: real): Event { e.(timestamp := e.timestamp + d) }

  function ShiftAll(s: seq<Event>, d: real): (r: seq<Event>)
    ensures |r| == |s|
    ensures forall i :: 0 <= i < |s| ==> r[i] == Shift(s[i], d)
  {
    seq(|s|, i requires 0 <= i < |s| => Shift(s[i], d))
  }

  function ShiftFlow(f: Flow, d: real): Flow {
    f.(send := Shift(f.send, d), recv := if f.recv.Some? then Some(Shift(f.recv.value, d)) else None)
  }

  function ShiftFlows(s: seq<Flow>, d: real): (r: seq<Flow>)
    ensures |r| == |s|
    ensures forall i :: 0 <= i < |s| ==> r[i] == ShiftFlow(s[i], d)
  {
    seq(|s|, i requires 0 <= i < |s| => ShiftFlow(s[i], d))
  }

  function AddTo(s: seq<real>, d: real): (r: seq<real>)
    ensures |r| == |s|
    ensures forall i :: 0 <= i < |s| ==> r[i] == s[i] + d
  {
    seq(|s|, i requires 0 <= i < |s| => s[i] + d)
  }

  lemma {:induction false} ClientTimesShift(s: seq<Event>, d: real)
    ensures ClientTimes(ShiftAll(s, d)) == AddTo(ClientTimes(s), d)
    decreases |s|
  {
    if s != [] {
      ClientTimesShift(s[..|s| - 1], d);
      assert ShiftAll(s, d)[..|s| - 1] == ShiftAll(s[..|s| - 1], d);
    }
  }

  lemma {:induction false} MinShift(s: seq<real>, d: real)
    requires s != []
    ensures MinOf(AddTo(s, d)) == MinOf(s) + d
    decreases |s|
  {
    if |s| > 1 {
      MinShift(s[..|s| - 1], d);
      assert AddTo(s, d)[..|s| - 1] == AddTo(s[..|s| - 1], d);
    }
  }

  lemma OffsetShift(events: seq<Event>, internals: seq<Event>, hello: Option<real>, d: real)
    ensures var o := Offset(events, internals, hello);
      Offset(ShiftAll(events, d), ShiftAll(internals, d), hello) == if o.None? then None else Some(o.value - d)
  {
    ClientTimesShift(events, d);
    ClientTimesShift(internals, d);
    AddToAppend(ClientTimes(events), ClientTimes(internals), d);
    OffsetFromShift(ClientTimes(events) + ClientTimes(internals), hello, d);
  }

  lemma AddToAppend(a: seq<real>, b: seq<real>, d: real)
    ensures AddTo(a, d) + AddTo(b, d) == AddTo(a + b, d)
  {
  }

  lemma OffsetFromShift(times: seq<real>, hello: Option<real>, d: real)
    ensures var o := OffsetFrom(times, hello);
      OffsetFrom(AddTo(times, d), hello) == if o.None? then None else Some(o.value - d)
  {
    if times != [] { MinShift(times, d); }
  }

  /** Shifted stamps with the offset of the shifted logs give the same normalised times. */
  lemma NormalisedShift(events: seq<Event>, o: Option<real>, d: real)
    ensures Normalised(ShiftAll(events, d), if o.None? then None else Some(o.value - d))
         == ShiftAll(Normalised(events, o), d)
  {
    var o' := if o.None? then None else Some(o.value - d);
    var a, b := Normalised(ShiftAll(events, d), o'), ShiftAll(Normalised(events, o), d);
    forall i | 0 <= i < |events| ensures a[i] == b[i] {
      assert ShiftAll(events, d)[i] == Shift(events[i], d);
    }
  }

  lemma {:induction false} SelectShift(s: seq<Event>, dir: Direction, k: Kind, d: real)
    ensures Select(ShiftAll(s, d), dir, k) == ShiftAll(Select(s, dir, k), d)
    decreases |s|
  {
    if s != [] {
      SelectShift(s[..|s| - 1], dir, k, d);
      assert ShiftAll(s, d)[..|s| - 1] == ShiftAll(s[..|s| - 1], d);
    }
  }

  lemma {:induction false} InsertShift(s: seq<Event>, e: Event, d: real)
    ensures InsertByTime(ShiftAll(s, d), Shift(e, d)) == ShiftAll(InsertByTime(s, e), d)
    decreases |s|
  {
    if s != [] {
      InsertShift(s[..|s| - 1], e, d);
      assert ShiftAll(s, d)[..|s| - 1] == ShiftAll(s[..|s| - 1], d);
    }
  }

  lemma {:induction false} SortShift(s: seq<Event>, d: real)
    ensures SortByTime(ShiftAll(s, d)) == ShiftAll(SortByTime(s), d)
    decreases |s|
  {
    if s != [] {
      SortShift(s[..|s| - 1], d);
      InsertShift(SortByTime(s[..|s| - 1]), s[|s| - 1], d);
      assert ShiftAll(s, d)[..|s| - 1] == ShiftAll(s[..|s| - 1], d);
    }
  }

  lemma {:induction false} FirstNumberedShift(send: Event, recvs: seq<Event>, used: seq<bool>, from: nat, d: real)
    requires |used| == |recvs| && from <= |recvs|
    ensures FirstNumbered(Shift(send, d), ShiftAll(recvs, d), used, from) == FirstNumbered(send, recvs, used, from)
    decreases |recvs| - from
  {
    if from < |recvs| { FirstNumberedShift(send, recvs, used, from + 1, d); }
  }

  lemma {:induction false} ChoicesShift(sends: seq<Event>, recvs: seq<Event>, d: real)
    ensures Choices(ShiftAll(sends, d), ShiftAll(recvs, d)) == Choices(sends, recvs)
    decreases |sends|
  {
    if sends != [] {
      var shorter, last := sends[..|sends| - 1], sends[|sends| - 1];
      ChoicesShift(shorter, recvs, d);
      assert ShiftAll(sends, d)[..|sends| - 1] == ShiftAll(shorter, d);
      ChooseShift(last, recvs, UsedBy(Choices(shorter, recvs), |recvs|), d);
      assert ShiftAll(sends, d)[|sends| - 1] == Shift(last, d);
    }
  }

  lemma ChooseShift(send: Event, recvs: seq<Event>, used: seq<bool>, d: real)
    requires |used| == |recvs|
    ensures Choose(Shift(send, d), ShiftAll(recvs, d), used) == Choose(send, recvs, used)
  {
    FirstNumberedShift(send, recvs, used, 0, d);
  }

  lemma FlowsShift(dir: Direction, sends: seq<Event>, recvs: seq<Event>, d: real)
    ensures FlowsOf(dir, ShiftAll(sends, d), ShiftAll(recvs, d)) == ShiftFlows(FlowsOf(dir, sends, recvs), d)
  {
    ChoicesShift(sends, recvs, d);
    forall k | 0 <= k < |sends|
      ensures FlowsOf(dir, ShiftAll(sends, d), ShiftAll(recvs, d))[k] == ShiftFlow(FlowsOf(dir, sends, recvs)[k], d)
    {
      FlowsFollowChoices(dir, sends, recvs, k);
      FlowsFollowChoices(dir, ShiftAll(sends, d), ShiftAll(recvs, d), k);
    }
  }

  lemma {:induction false} InsertFlowShift(s: seq<Flow>, f: Flow, d: real)
    ensures InsertFlow(ShiftFlows(s, d), ShiftFlow(f, d)) == ShiftFlows(InsertFlow(s, f), d)
    decreases |s|
  {
    if s != [] {
      InsertFlowShift(s[..|s| - 1], f, d);
      assert ShiftFlows(s, d)[..|s| - 1] == ShiftFlows(s[..|s| - 1], d);
    }
  }

  lemma {:induction false} SortFlowsShift(s: seq<Flow>, d: real)
    ensures SortFlows(ShiftFlows(s, d)) == ShiftFlows(SortFlows(s), d)
    decreases |s|
  {
    if s != [] {
      SortFlowsShift(s[..|s| - 1], d);
      InsertFlowShift(SortFlows(s[..|s| - 1]), s[|s| - 1], d);
      assert ShiftFlows(s, d)[..|s| - 1] == ShiftFlows(s[..|s| - 1], d);
    }
  }

  lemma DirectionShift(p: seq<Event>, dir: Direction, d: real)
    ensures Sends(ShiftAll(p, d), dir) == ShiftAll(Sends(p, dir), d)
    ensures Recvs(ShiftAll(p, d), dir) == ShiftAll(Recvs(p, dir), d)
  {
    SelectShift(p, dir, Sent, d);
    SortShift(Select(p, dir, Sent), d);
    SelectShift(p, dir, Received, d);
    SortShift(Select(p, dir, Received), d);
  }

  lemma ShiftFlowsAppend(a: seq<Flow>, b: seq<Flow>, d: real)
    ensures ShiftFlows(a + b, d) == ShiftFlows(a, d) + ShiftFlows(b, d)
  {
  }

  lemma PairedShift(p: seq<Event>, d: real)
    ensures Paired(ShiftAll(p, d)) == ShiftFlows(Paired(p), d)
  {
    DirectionShift(p, ClientToServer, d);
    DirectionShift(p, ServerToClient, d);
    FlowsShift(ClientToServer, Sends(p, ClientToServer), Recvs(p, ClientToServer), d);
    FlowsShift(ServerToClient, Sends(p, ServerToClient), Recvs(p, ServerToClient), d);
    ShiftFlowsAppend(FlowsOf(ClientToServer, Sends(p, ClientToServer), Recvs(p, ClientToServer)),
                     FlowsOf(ServerToClient, Sends(p, ServerToClient), Recvs(p, ServerToClient)), d);
    SortFlowsShift(Unsorted(p), d);
  }

  lemma DirectedShift(p: seq<Event>, d: real)
    ensures Directed(ShiftAll(p, d)) == ShiftAll(Directed(p), d)
  {
  }

  /** Moving all time stamps of both logs by the same amount pairs the same packets in the
      same order at the same normalised times. */
  lemma PairingIgnoresCommonShift(packets: seq<Event>, internals: seq<Event>, hello: Option<real>, d: real)
    ensures var shifted, shiftedInternals := ShiftAll(packets, d), ShiftAll(internals, d);
      Paired(Directed(Normalised(shifted, Offset(shifted, shiftedInternals, hello))))
      == ShiftFlows(Paired(Directed(Normalised(packets, Offset(packets, internals, hello)))), d)
  {
    var n := Normalised(packets, Offset(packets, internals, hello));
    OffsetShift(packets, internals, hello, d);
    NormalisedShift(packets, Offset(packets, internals, hello), d);
    DirectedShift(n, d);
    PairedShift(Directed(n), d);
  }
}
