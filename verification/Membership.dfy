/**
 * The peer network of A4/python/first_peer/peer.py: peers register with one bootstrap peer,
 * which answers with its whole list and then informs the others. Requests are handled by
 * concurrent threads, so answers, information and further requests interleave freely. An
 * address that travels is changed as its 16-byte field changes it.
 */
module Membership {
  import opened Arithmetic
  import opened Options
  import opened PeerBlocks

  const COMMAND_REGISTER := 1
  const COMMAND_INFORM := 3
  const COLON: Byte := 58

  /** A listed address can be split at its colon again. */
  predicate NoColon(h: Host) { COLON !in h.ip }

  /** What the bootstrap peer asks of a registering peer. */
  predicate Admissible(h: Host) { h.ip != [] && h.port != 0 }

  // ----- Lists without duplicates

  predicate NoDuplicates(s: seq<Host>) {
    forall i, j :: 0 <= i < j < |s| ==> s[i] != s[j]
  }

  function AddIfAbsent(list: seq<Host>, a: Host): (r: seq<Host>)
    ensures forall x :: x in r <==> x in list || x == a
    ensures list <= r && |r| == if a in list then |list| else |list| + 1
    ensures NoDuplicates(list) ==> NoDuplicates(r)
  {
    if a in list then list else list + [a]
  }

  function Merge(list: seq<Host>, data: seq<Host>): (r: seq<Host>)
    ensures forall x :: x in r <==> x in list || x in data
    ensures list <= r
    ensures NoDuplicates(list) ==> NoDuplicates(r)
  {
    if data == [] then list
    else
      assert data == data[..|data| - 1] + [data[|data| - 1]];
      AddIfAbsent(Merge(list, data[..|data| - 1]), data[|data| - 1])
  }

  lemma MergeNothing(list: seq<Host>)
    ensures Merge(list, []) == list
  {}

  lemma MergeNext(list: seq<Host>, data: seq<Host>, k: nat)
    requires k < |data|
    ensures Merge(list, data[..k + 1]) == AddIfAbsent(Merge(list, data[..k]), data[k])
  {
    assert data[..k + 1][..k] == data[..k];
  }

  // ----- Answering a registration

  datatype Registration = Declined(status: int) | Answered(payload: Bytes)

  function ListAfter(list: seq<Host>, a: Host): seq<Host> {
    if Admissible(a) then AddIfAbsent(list, a) else list
  }

  /** A listed address that does not split raises, after the new one has been put on the list. */
  function AnswerTo(list: seq<Host>, a: Host): Registration {
    if !Admissible(a) then Declined(STATUS_BAD_REQUEST)
    else if a in list then Declined(STATUS_PEER_EXISTS)
    else if exists q :: q in list + [a] && !NoColon(q) then Declined(STATUS_OTHER)
    else Answered(EncodeHosts(list + [a]))
  }

  lemma {:induction false} Inadmissible(list: seq<Host>, a: Host)
    requires a.ip == [] || a.port == 0
    ensures AnswerTo(list, a) == Declined(3) && ListAfter(list, a) == list
  {}

  /** An address on the list is declined with the status for a known peer. */
  lemma {:induction false} AlreadyListed(list: seq<Host>, a: Host)
    requires a.ip != [] && a.port != 0 && a in list
    ensures AnswerTo(list, a) == Declined(2) && ListAfter(list, a) == list
  {}

  /** A new address goes to the end of the list; a colon (58) in any address spoils the answer. */
  lemma {:induction false} NewlyListed(list: seq<Host>, a: Host)
    requires a.ip != [] && a.port != 0 && a !in list
    ensures ListAfter(list, a) == list + [a]
    ensures (exists q :: q in list + [a] && 58 in q.ip) ==> AnswerTo(list, a) == Declined(4)
    ensures (forall q :: q in list + [a] ==> 58 !in q.ip) ==>
            && AnswerTo(list, a).Answered?
            && var hosts := HostsIn(AnswerTo(list, a).payload);
              && |hosts| == |list| + 1 && hosts[|list|] == Kept(a)
              && forall i :: 0 <= i < |list| ==> hosts[i] == Kept(list[i])
  {
    hide EncodeHosts, Kept, HostsIn;
    var l := list + [a];
    assert forall q :: NoColon(q) <==> 58 !in q.ip;
    if forall q :: q in l ==> 58 !in q.ip {
      assert AnswerTo(list, a) == Answered(EncodeHosts(l));
      HostsKept(l);
    }
  }

  /**
   * The peers that are told about a new one: in list order all but the teller and the new peer,
   * up to the first whose address does not split or where nobody listens, which raises.
   */
  function Targets(list: seq<Host>, me: Host, newAddress: Host, up: set<Host>): (r: seq<Host>)
    ensures |r| <= |list|
    ensures forall q :: q in r ==> q in list && q in up && q != me && q != newAddress
    ensures (forall q :: q in list ==> q in up && NoColon(q)) ==>
            forall q :: q in list && q != me && q != newAddress ==> q in r
    ensures NoDuplicates(list) ==> NoDuplicates(r)
  {
    if list == [] then []
    else
      var q := list[0];
      assert list == [q] + list[1..];
      if q == me || q == newAddress then Targets(list[1..], me, newAddress, up)
      else if !NoColon(q) || q !in up then []
      else
        assert NoDuplicates(list) ==> q !in list[1..];
        [q] + Targets(list[1..], me, newAddress, up)
  }

  /** The hosts picked are at these positions before stop, in order. */
  predicate Picks(at: seq<nat>, list: seq<Host>, stop: nat, picked: seq<Host>)
    requires stop <= |list|
  {
    && |at| == |picked|
    && (forall k :: 0 <= k < |at| ==> at[k] < stop && picked[k] == list[at[k]])
    && (forall j, k :: 0 <= j < k < |at| ==> at[j] < at[k])
  }

  /** Among them is every entry before stop other than two hosts. */
  predicate AllBut(at: seq<nat>, list: seq<Host>, stop: nat, me: Host, newAddress: Host)
    requires stop <= |list|
  {
    forall i :: 0 <= i < stop && list[i] != me && list[i] != newAddress ==> i in at
  }

  function Shifted(at: seq<nat>): (r: seq<nat>)
    ensures |r| == |at| && forall k :: 0 <= k < |at| ==> r[k] == at[k] + 1
  {
    seq(|at|, k requires 0 <= k < |at| => at[k] + 1)
  }

  lemma ShiftedHas(at: seq<nat>, i: nat)
    requires i in at
    ensures i + 1 in Shifted(at)
  {
    var k :| 0 <= k < |at| && at[k] == i;
    assert Shifted(at)[k] == i + 1;
  }

  lemma AllButNext(at: seq<nat>, list: seq<Host>, stop: nat, me: Host, newAddress: Host)
    requires 0 < stop <= |list| && AllBut(at, list[1..], stop - 1, me, newAddress)
    ensures list[0] == me || list[0] == newAddress ==> AllBut(Shifted(at), list, stop, me, newAddress)
    ensures AllBut([0] + Shifted(at), list, stop, me, newAddress)
  {
    forall i | 0 < i < stop && list[i] != me && list[i] != newAddress ensures i in Shifted(at) {
      assert list[1..][i - 1] == list[i];
      ShiftedHas(at, i - 1);
    }
  }

  lemma PicksNext(at: seq<nat>, list: seq<Host>, stop: nat, picked: seq<Host>)
    requires 0 < stop <= |list| && Picks(at, list[1..], stop - 1, picked)
    ensures Picks(Shifted(at), list, stop, picked)
  {}

  lemma PicksFirst(at: seq<nat>, list: seq<Host>, stop: nat, picked: seq<Host>)
    requires 0 < stop <= |list| && Picks(at, list, stop, picked) && forall k :: 0 <= k < |at| ==> at[k] > 0
    ensures Picks([0] + at, list, stop, [list[0]] + picked)
  {}

  /** The entries before stop do not keep the others from being called, the one there does. */
  ghost predicate StopsAt(list: seq<Host>, stop: nat, me: Host, newAddress: Host, up: set<Host>)
    requires stop <= |list|
  {
    && (forall i :: 0 <= i < stop ==>
          list[i] == me || list[i] == newAddress || (58 !in list[i].ip && list[i] in up))
    && (stop < |list| ==>
          list[stop] != me && list[stop] != newAddress && (58 in list[stop].ip || list[stop] !in up))
  }

  lemma StopsLater(list: seq<Host>, stop: nat, me: Host, newAddress: Host, up: set<Host>)
    requires 0 < stop <= |list| && StopsAt(list, stop, me, newAddress, up)
    ensures StopsAt(list[1..], stop - 1, me, newAddress, up)
    ensures list[0] == me || list[0] == newAddress || (NoColon(list[0]) && list[0] in up)
  {
    assert forall i :: 0 <= i < |list| - 1 ==> list[1..][i] == list[i + 1];
  }

  lemma TargetsNone(list: seq<Host>, me: Host, newAddress: Host, up: set<Host>)
    requires StopsAt(list, 0, me, newAddress, up)
    ensures Targets(list, me, newAddress, up) == []
  {}

  /** Those told about a new peer are the entries, in order, before the first that cannot be called, but for two. */
  lemma {:induction false} TargetsInOrder(list: seq<Host>, me: Host, newAddress: Host, up: set<Host>, stop: nat)
    returns (at: seq<nat>)
    requires stop <= |list| && StopsAt(list, stop, me, newAddress, up)
    ensures Picks(at, list, stop, Targets(list, me, newAddress, up)) && AllBut(at, list, stop, me, newAddress)
  {
    hide StopsAt, NoColon, NoDuplicates;
    if stop == 0 {
      TargetsNone(list, me, newAddress, up);
      return [];
    }
    StopsLater(list, stop, me, newAddress, up);
    at := TargetsInOrder(list[1..], me, newAddress, up, stop - 1);
    hide Picks, AllBut;
    AllButNext(at, list, stop, me, newAddress);
    PicksNext(at, list, stop, Targets(list[1..], me, newAddress, up));
    at := Shifted(at);
    if list[0] != me && list[0] != newAddress {
      PicksFirst(at, list, stop, Targets(list[1..], me, newAddress, up));
      at := [0] + at;
    }
  }

  datatype Call = Call(to: Host, message: Bytes)

  function InformMessage(me: Host, about: Host): Bytes {
    AssembleMessage(me.ip, me.port, COMMAND_INFORM, HostField(about))
  }

  function Calls(targets: seq<Host>, me: Host, about: Host): (r: seq<Call>)
    ensures |r| == |targets|
    ensures forall i :: 0 <= i < |r| ==> r[i] == Call(targets[i], InformMessage(me, about))
  {
    seq(|targets|, i requires 0 <= i < |targets| => Call(targets[i], InformMessage(me, about)))
  }

  /** The calls for the list from a position on, and what each entry adds to them. */
  function CallsFrom(list: seq<Host>, i: nat, me: Host, about: Host, up: set<Host>): seq<Call>
    requires i <= |list|
  {
    Calls(Targets(list[i..], me, about, up), me, about)
  }

  lemma CallsFromNext(list: seq<Host>, i: nat, me: Host, about: Host, up: set<Host>)
    requires i < |list|
    ensures CallsFrom(list, i, me, about, up) ==
            if list[i] == me || list[i] == about then CallsFrom(list, i + 1, me, about, up)
            else if !NoColon(list[i]) || list[i] !in up then []
            else [Call(list[i], InformMessage(me, about))] + CallsFrom(list, i + 1, me, about, up)
  {
    hide InformMessage, NoDuplicates, NoColon;
    assert list[i..][1..] == list[i + 1..];
  }

  lemma CallsFromEnds(list: seq<Host>, me: Host, about: Host, up: set<Host>)
    ensures CallsFrom(list, 0, me, about, up) == Calls(Targets(list, me, about, up), me, about)
    ensures CallsFrom(list, |list|, me, about, up) == []
  {
    assert list[0..] == list && list[|list|..] == [];
  }

  /** What arrives of a request to register: the address as its field keeps it. */
  lemma RequestArrives(p: Host)
    ensures ParseMessage(AssembleMessage(p.ip, p.port, COMMAND_REGISTER, []))
         == Some(Message(Kept(p).ip, p.port, 1, 0, []))
  {
    MessageRoundTrip(p.ip, p.port, COMMAND_REGISTER, []);
  }

  /** What arrives of an inform message: one host, as its field keeps it. */
  lemma InformArrives(me: Host, about: Host)
    ensures var m := ParseMessage(InformMessage(me, about));
      m.Some? && m.value.code == 3 && m.value.length == |m.value.payload| == 20
      && m.value.ip == Kept(me).ip && m.value.port == me.port
      && HostAt(m.value.payload, 0) == Kept(about)
  {
    hide HostAt, HostField;
    MessageRoundTrip(me.ip, me.port, COMMAND_INFORM, HostField(about));
    FieldIsKept(about);
  }

  // ----- One peer

  /** The process-wide list of a peer, each method one stretch under the network mutex. */
  class Peer {
    const me: Host
    var network: seq<Host>

    constructor (me: Host)
      ensures this.me == me && network == [me]
    {
      this.me := me;
      network := [me];
    }

    /**
     * The guards and the locked part of handling a registration. The variables ip and port are
     * reused by the loop over the payload; what they hold after it is still the new address.
     */
    method Register(newIp: Bytes, newPort: Port) returns (answer: Registration, ip: Bytes, port: Port)
      modifies this
      ensures answer == AnswerTo(old(network), Host(newIp, newPort))
      ensures network == ListAfter(old(network), Host(newIp, newPort))
      ensures answer.Answered? ==> Host(ip, port) == Host(newIp, newPort)
    {
      ip, port := newIp, newPort;
      if ip == [] { return Declined(STATUS_BAD_REQUEST), ip, port; }
      if port == 0 { return Declined(STATUS_BAD_REQUEST), ip, port; }
      var newAddress := Host(ip, port);
      if newAddress in network { return Declined(STATUS_PEER_EXISTS), ip, port; }
      network := network + [newAddress];
      var payload: Bytes := [];
      for i := 0 to |network|
        invariant payload == EncodeHosts(network[..i])
        invariant forall q :: q in network[..i] ==> NoColon(q)
        invariant i > 0 ==> Host(ip, port) == network[i - 1]
      {
        if COLON in network[i].ip {
          assert network[i] in old(network) + [newAddress] && !NoColon(network[i]);
          return Declined(STATUS_OTHER), ip, port;
        }
        ip, port := network[i].ip, network[i].port;
        payload := payload + (IpField(ip) + Pack(port));
        assert network[..i + 1] == network[..i] + [network[i]];
      }
      assert network[..|network|] == network;
      answer := Answered(payload);
    }

    /** The second locked part: informing everyone else, with ip and port as Register left them. */
    method InformOthers(newAddress: Host, ip: Bytes, port: Port, up: set<Host>)
      returns (sent: seq<Call>)
      requires Host(ip, port) == newAddress
      ensures sent == Calls(Targets(network, me, newAddress, up), me, newAddress)
    {
      hide Targets, Calls, CallsFrom, AssembleMessage, IpField, Pack;
      CallsFromEnds(network, me, newAddress, up);
      sent := [];
      for i := 0 to |network|
        invariant sent + CallsFrom(network, i, me, newAddress, up) == CallsFrom(network, 0, me, newAddress, up)
      {
        var peer := network[i];
        CallsFromNext(network, i, me, newAddress, up);
        if peer != me && peer != newAddress {
          if COLON in peer.ip || peer !in up {
            return;
          }
          var msg := IpField(ip) + Pack(port);
          sent := sent + [Call(peer, AssembleMessage(me.ip, me.port, COMMAND_INFORM, msg))];
        }
      }
    }

    /** Handling an inform message; one that is too short for a host raises. */
    method AddToNetwork(message: Bytes) returns (raised: bool)
      modifies this
      ensures raised == (|message| < LEN_HOST)
      ensures network == if raised then old(network) else AddIfAbsent(old(network), HostAt(message, 0))
    {
      if |message| < LEN_HOST { return true; }
      raised := false;
      var ip := Strip(message[0..LEN_IP]);
      var port := Unpack(message[LEN_IP..LEN_IP + LEN_WORD]);
      var address := Host(ip, port);
      if address in network { return; }
      network := network + [address];
    }

    /** What a registering peer does with the answer; an entry that is cut short raises. */
    method MergeReply(data: Bytes) returns (raised: bool)
      modifies this
      ensures raised == (|data| % LEN_HOST != 0)
      ensures network == Merge(old(network), HostsIn(data))
    {
      hide Unpack, Strip, Merge, NoDuplicates;
      MergeNothing(network);
      var i := 0;
      ghost var k := 0;
      assert HostsIn(data)[..0] == [];
      while i < |data|
        invariant i == LEN_HOST * k && 0 <= k <= |data| / LEN_HOST
        invariant network == Merge(old(network), HostsIn(data)[..k])
        decreases |data| - i
      {
        if i + LEN_HOST > |data| {
          assert k == |data| / LEN_HOST && HostsIn(data)[..k] == HostsIn(data);
          return true;
        }
        var ip := Strip(data[i..i + LEN_IP]);
        var port := Unpack(data[i + LEN_IP..i + LEN_IP + LEN_WORD]);
        var address := Host(ip, port);
        assert address == HostsIn(data)[k];
        MergeNext(old(network), HostsIn(data), k);
        if address !in network {
          network := network + [address];
        }
        i, k := i + LEN_HOST, k + 1;
      }
      assert HostsIn(data)[..k] == HostsIn(data);
      raised := false;
    }
  }

  // ----- The network

  datatype Answer = Answer(to: Host, data: Bytes)

  datatype Inform = Inform(to: Host, about: Host)

  /**
   * The lists of all started peers and the messages and work in flight. A peer is named by the
   * address it was configured with, which is also where it listens; a registration it sent is a
   * request, and a registered address the others are still to be told about is pending.
   */
  datatype Net = Net(lists: map<Host, seq<Host>>, requests: set<Host>, pending: set<Host>,
                     answers: set<Answer>, informs: set<Inform>)

  datatype Step =
    | Start(p: Host)
    | Handle(p: Host)
    | SendInforms(a: Host)
    | DeliverAnswer(r: Answer)
    | DeliverInform(m: Inform)

  function Initial(b: Host): Net {
    Net(map[b := [b]], {}, {}, {}, {})
  }

  predicate Enabled(s: Net, step: Step) {
    match step
    case Start(p) => p !in s.lists
    case Handle(p) => p in s.requests
    case SendInforms(a) => a in s.pending
    case DeliverAnswer(r) => r in s.answers
    case DeliverInform(m) => m in s.informs
  }

  function InformsFor(targets: seq<Host>, about: Host): (r: set<Inform>)
    ensures forall m :: m in r <==> m.to in targets && m.about == about
    ensures |r| <= |targets|
  {
    if targets == [] then {}
    else
      var q := targets[|targets| - 1];
      assert targets == targets[..|targets| - 1] + [q];
      InformsFor(targets[..|targets| - 1], about) + {Inform(q, about)}
  }

  /** Everyone is addressed. */
  predicate Addressed(s: Net, b: Host) {
    && b in s.lists
    && (forall r :: r in s.answers ==> r.to in s.lists)
    && (forall m :: m in s.informs ==> m.to in s.lists)
  }

  function Handled(s: Net, b: Host, p: Host): Net
    requires b in s.lists
  {
    var a, list := Kept(p), s.lists[b];
    var lists, requests := s.lists[b := ListAfter(list, a)], s.requests - {p};
    match AnswerTo(list, a)
    case Declined(_) => s.(lists := lists, requests := requests)
    case Answered(payload) => Net(lists, requests, s.pending + {a}, s.answers + {Answer(p, payload)}, s.informs)
  }

  function Next(s: Net, b: Host, step: Step): Net
    requires Addressed(s, b) && Enabled(s, step)
  {
    match step
    case Start(p) => s.(lists := s.lists[p := [p]], requests := s.requests + {p})
    case Handle(p) => Handled(s, b, p)
    case SendInforms(a) =>
      s.(pending := s.pending - {a},
         informs := s.informs + InformsFor(Targets(s.lists[b], b, a, s.lists.Keys), Kept(a)))
    case DeliverAnswer(r) =>
      s.(lists := s.lists[r.to := Merge(s.lists[r.to], HostsIn(r.data))], answers := s.answers - {r})
    case DeliverInform(m) =>
      s.(lists := s.lists[m.to := AddIfAbsent(s.lists[m.to], m.about)], informs := s.informs - {m})
  }

  // ----- The invariant

  /** a is how the address of a started peer arrives. */
  ghost predicate Came(s: Net, b: Host, a: Host) {
    exists x :: x in s.lists && x != b && Kept(x) == a
  }

  /** The bootstrap's list holds no duplicates, itself, and otherwise acceptable addresses as they arrive. */
  ghost predicate BootstrapOk(s: Net, b: Host) {
    && Addressed(s, b)
    && NoDuplicates(s.lists[b]) && b in s.lists[b]
    && forall a :: a in s.lists[b] && a != b ==> Admissible(a) && Came(s, b, a)
  }

  /** An address others may hear of: a registered one, or the bootstrap's as it arrives. */
  predicate Public(s: Net, b: Host, a: Host)
    requires b in s.lists
  {
    a == Kept(b) || (a != b && a in s.lists[b])
  }

  predicate ListOk(s: Net, b: Host, p: Host)
    requires b in s.lists && p in s.lists
  {
    NoDuplicates(s.lists[p]) && p in s.lists[p] && forall a :: a in s.lists[p] ==> a == p || Public(s, b, a)
  }

  predicate ListsOk(s: Net, b: Host)
    requires b in s.lists
  {
    forall p :: p in s.lists && p != b ==> ListOk(s, b, p)
  }

  /** An answer, and any word of the bootstrap, is only for peers whose address splits. */
  predicate MayAnswer(b: Host, p: Host) { p != b && NoColon(b) && NoColon(Kept(p)) }

  predicate MessagesOk(s: Net, b: Host)
    requires b in s.lists
  {
    && (forall p :: p in s.requests ==> p in s.lists && p != b)
    && (forall a :: a in s.pending ==> a in s.lists[b] && a != b)
    && (forall r :: r in s.answers ==> MayAnswer(b, r.to) && forall a :: a in HostsIn(r.data) ==> Public(s, b, a))
    && (forall m :: m in s.informs ==> m.to != b && m.about != b && m.about in s.lists[b])
    && (forall p :: p in s.lists && p != b && b in s.lists[p] ==> MayAnswer(b, p))
  }

  /** Every address is acceptable, splits, and is not changed on the way. */
  predicate Proper(s: Net, b: Host) {
    && NoColon(b) && Survives(b)
    && forall p :: p in s.lists && p != b ==> Admissible(p) && NoColon(p) && Survives(p)
  }

  /** A registered peer knows a, or is about to learn of it. */
  predicate Learns(s: Net, p: Host, a: Host)
    requires p in s.lists
  {
    || a in s.lists[p]
    || a in s.pending
    || Inform(p, a) in s.informs
    || exists r :: r in s.answers && r.to == p && a in HostsIn(r.data)
  }

  /** Every peer is registered or on its way to be, and will learn of every registered one. */
  predicate AllLearn(s: Net, b: Host)
    requires b in s.lists
  {
    && (forall p :: p in s.lists ==> p in s.requests || p in s.lists[b])
    && forall p, a :: p in s.lists && p in s.lists[b] && a in s.lists[b] ==> Learns(s, p, a)
  }

  ghost predicate Inv(s: Net, b: Host) {
    BootstrapOk(s, b) && ListsOk(s, b) && MessagesOk(s, b) && (Proper(s, b) ==> AllLearn(s, b))
  }

  lemma SingleNoDuplicates(p: Host)
    ensures NoDuplicates([p])
  {}

  lemma InitialInv(b: Host)
    ensures Inv(Initial(b), b)
  {
    SingleNoDuplicates(b);
  }

  /** Addresses on the bootstrap's list other than its own have been on the way and do not change again. */
  lemma RegisteredKept(s: Net, b: Host, a: Host)
    requires BootstrapOk(s, b) && a in s.lists[b] && a != b
    ensures Kept(a) == a
  {
    var x :| x in s.lists && x != b && Kept(x) == a;
    KeptTwice(x);
  }

  lemma ProperKept(s: Net, b: Host, p: Host)
    requires Proper(s, b) && p in s.lists
    ensures Kept(p) == p
  {
    SurvivesIffKept(p);
    SurvivesIffKept(b);
  }

  /** With proper addresses only, registered peers are started ones. */
  lemma ProperRegistered(s: Net, b: Host, a: Host)
    requires Proper(s, b) && BootstrapOk(s, b) && a in s.lists[b]
    ensures a in s.lists && Kept(a) == a && NoColon(a)
  {
    if a != b {
      var x :| x in s.lists && x != b && Kept(x) == a;
      ProperKept(s, b, x);
    } else {
      ProperKept(s, b, b);
    }
  }

  lemma InEncoded(list: seq<Host>, a: Host)
    ensures a in HostsIn(EncodeHosts(list)) <==> exists q :: q in list && Kept(q) == a
  {
    hide Kept, EncodeHosts, HostsIn;
    HostsKept(list);
    if a in HostsIn(EncodeHosts(list)) {
      var i :| 0 <= i < |list| && HostsIn(EncodeHosts(list))[i] == a;
      assert list[i] in list;
    }
    if q :| q in list && Kept(q) == a {
      var i :| 0 <= i < |list| && list[i] == q;
      assert HostsIn(EncodeHosts(list))[i] == a;
    }
  }

  // ----- Every step keeps the invariant

  lemma StartOk(s: Net, b: Host, p: Host)
    requires Inv(s, b) && Enabled(s, Start(p))
    ensures var t := Next(s, b, Start(p)); BootstrapOk(t, b) && ListsOk(t, b) && MessagesOk(t, b)
  {
    hide AllLearn, Proper, NoDuplicates, Kept, NoColon, HostsIn, Admissible;
    var t := Next(s, b, Start(p));
    SingleNoDuplicates(p);
    assert BootstrapOk(t, b) by { CameStays(s, t, b); }
    assert forall q, a :: q in s.lists && Public(s, b, a) ==> Public(t, b, a);
  }

  lemma CameStays(s: Net, t: Net, b: Host)
    requires s.lists.Keys <= t.lists.Keys
    ensures forall a :: Came(s, b, a) ==> Came(t, b, a)
  {
    forall a | Came(s, b, a) ensures Came(t, b, a) {
      var x :| x in s.lists && x != b && Kept(x) == a;
      assert x in t.lists;
    }
  }

  /** What handling a request does to the bootstrap's list. */
  lemma HandleBootstrapOk(s: Net, b: Host, p: Host)
    requires Inv(s, b) && Enabled(s, Handle(p))
    ensures BootstrapOk(Next(s, b, Handle(p)), b)
    ensures forall a :: Public(s, b, a) ==> Public(Next(s, b, Handle(p)), b, a)
  {
    hide AllLearn, Proper, NoDuplicates, Kept, NoColon, HostsIn, Admissible, EncodeHosts, ListsOk, AddIfAbsent;
    var t := Next(s, b, Handle(p));
    CameStays(s, t, b);
    assert Came(t, b, Kept(p)) by { assert p in t.lists && p != b; }
  }

  lemma HandleOk(s: Net, b: Host, p: Host)
    requires Inv(s, b) && Enabled(s, Handle(p))
    ensures var t := Next(s, b, Handle(p)); BootstrapOk(t, b) && ListsOk(t, b) && MessagesOk(t, b)
  {
    hide AllLearn, Proper, NoDuplicates, Kept, NoColon, HostsIn, Admissible, EncodeHosts, AddIfAbsent;
    HandleBootstrapOk(s, b, p);
    var t := Next(s, b, Handle(p));
    if AnswerTo(s.lists[b], Kept(p)).Answered? {
      AnswerPublic(s, b, p);
    }
  }

  /** The answer holds public addresses only, and goes to a peer it may go to. */
  lemma AnswerPublic(s: Net, b: Host, p: Host)
    requires Inv(s, b) && Enabled(s, Handle(p)) && AnswerTo(s.lists[b], Kept(p)).Answered?
    ensures MayAnswer(b, p)
    ensures forall a :: a in HostsIn(AnswerTo(s.lists[b], Kept(p)).payload) ==> Public(Next(s, b, Handle(p)), b, a)
  {
    hide AllLearn, Proper, NoDuplicates, Kept, NoColon, HostsIn, Admissible, EncodeHosts, ListsOk, AddIfAbsent;
    HandleBootstrapOk(s, b, p);
    var t := Next(s, b, Handle(p));
    var list := s.lists[b] + [Kept(p)];
    assert Kept(p) in list && b in list;
    forall a | a in HostsIn(EncodeHosts(list)) ensures Public(t, b, a) {
      InEncoded(list, a);
      var q :| q in list && Kept(q) == a;
      if q != b { RegisteredKept(t, b, q); }
    }
  }

  lemma SendOk(s: Net, b: Host, a: Host)
    requires Inv(s, b) && Enabled(s, SendInforms(a))
    ensures var t := Next(s, b, SendInforms(a)); BootstrapOk(t, b) && ListsOk(t, b) && MessagesOk(t, b)
  {
    hide AllLearn, Proper, NoDuplicates, Kept, NoColon, HostsIn, Admissible, Targets, InformsFor;
    RegisteredKept(s, b, a);
    CameStays(s, Next(s, b, SendInforms(a)), b);
  }

  /** Delivery changes the list of one peer other than the bootstrap, by public addresses only. */
  lemma DeliveryOk(s: Net, b: Host, to: Host, list: seq<Host>)
    requires BootstrapOk(s, b) && ListsOk(s, b) && to in s.lists && to != b
    requires NoDuplicates(list) && to in list && forall a :: a in list ==> a == to || Public(s, b, a)
    ensures var t := s.(lists := s.lists[to := list]); BootstrapOk(t, b) && ListsOk(t, b)
  {
    hide NoDuplicates, Kept, Admissible;
    CameStays(s, s.(lists := s.lists[to := list]), b);
  }

  lemma AnswerOk(s: Net, b: Host, r: Answer)
    requires Inv(s, b) && Enabled(s, DeliverAnswer(r))
    ensures var t := Next(s, b, DeliverAnswer(r)); BootstrapOk(t, b) && ListsOk(t, b) && MessagesOk(t, b)
  {
    hide AllLearn, Proper, NoDuplicates, Kept, NoColon, HostsIn, Admissible, Merge, Came;
    DeliveryOk(s, b, r.to, Merge(s.lists[r.to], HostsIn(r.data)));
    CameStays(s, Next(s, b, DeliverAnswer(r)), b);
  }

  lemma InformOk(s: Net, b: Host, m: Inform)
    requires Inv(s, b) && Enabled(s, DeliverInform(m))
    ensures var t := Next(s, b, DeliverInform(m)); BootstrapOk(t, b) && ListsOk(t, b) && MessagesOk(t, b)
  {
    hide AllLearn, Proper, NoDuplicates, Kept, NoColon, HostsIn, Admissible, AddIfAbsent, Came;
    DeliveryOk(s, b, m.to, AddIfAbsent(s.lists[m.to], m.about));
    CameStays(s, Next(s, b, DeliverInform(m)), b);
  }

  /** No list ever loses an address. */
  lemma ListsGrow(s: Net, b: Host, step: Step, p: Host, a: Host)
    requires Inv(s, b) && Enabled(s, step) && p in s.lists && a in s.lists[p]
    ensures p in Next(s, b, step).lists && a in Next(s, b, step).lists[p]
  {
    hide NoDuplicates, AllLearn, Merge, AddIfAbsent, InformsFor, Targets, Kept, HostsIn, EncodeHosts, ListsOk;
  }

  lemma ProperBefore(s: Net, b: Host, step: Step)
    requires Inv(s, b) && Enabled(s, step) && Proper(Next(s, b, step), b)
    ensures Proper(s, b) && AllLearn(s, b)
  {
    hide NoDuplicates, Merge, AddIfAbsent, InformsFor, Targets, Kept, HostsIn, EncodeHosts, ListsOk, Admissible;
    assert s.lists.Keys <= Next(s, b, step).lists.Keys;
  }

  /** With proper addresses, what a peer knows or is about to learn survives every step. */
  lemma LearnsNext(s: Net, b: Host, step: Step, p: Host, a: Host)
    requires Inv(s, b) && Enabled(s, step) && Proper(s, b)
    requires p in s.lists && p in s.lists[b] && a in s.lists[b]
    ensures p in Next(s, b, step).lists && Learns(Next(s, b, step), p, a)
  {
    hide NoDuplicates, Merge, AddIfAbsent, InformsFor, Targets, Kept, HostsIn, EncodeHosts, MessagesOk, ListsOk;
    assert Learns(s, p, a);
    var t := Next(s, b, step);
    assert p in s.lists[p] && b in s.lists[b] by { OwnAddress(s, b, p); }
    ListsGrow(s, b, step, p, p);
    if a in s.lists[p] {
      ListsGrow(s, b, step, p, a);
    } else if a in s.pending {
      if step == SendInforms(a) { SentToAll(s, b, p, a); }
    } else if Inform(p, a) !in s.informs {
      var r :| r in s.answers && r.to == p && a in HostsIn(r.data);
      assert r in t.answers || a in t.lists[p];
    }
  }

  lemma OwnAddress(s: Net, b: Host, p: Host)
    requires Inv(s, b) && p in s.lists
    ensures p in s.lists[p]
  {}

  lemma SentToAll(s: Net, b: Host, p: Host, a: Host)
    requires Inv(s, b) && Proper(s, b) && a in s.pending
    requires p in s.lists && p in s.lists[b] && a !in s.lists[p]
    ensures Inform(p, a) in Next(s, b, SendInforms(a)).informs
  {
    hide NoDuplicates, Kept, HostsIn, AllLearn, Targets;
    OwnAddress(s, b, p);
    ProperRegistered(s, b, a);
    forall q | q in s.lists[b] ensures q in s.lists.Keys && NoColon(q) {
      ProperRegistered(s, b, q);
    }
    assert p in Targets(s.lists[b], b, a, s.lists.Keys);
  }

  /** Only handling a registration registers a peer: the peer gets the list, the others are pending. */
  lemma RegistrationLearns(s: Net, b: Host, step: Step, p: Host, a: Host)
    requires Inv(s, b) && Enabled(s, step) && Proper(s, b) && Proper(Next(s, b, step), b)
    requires var t := Next(s, b, step); p in t.lists && p in t.lists[b] && a in t.lists[b]
    requires !(p in s.lists && p in s.lists[b] && a in s.lists[b])
    ensures Learns(Next(s, b, step), p, a)
  {
    hide NoDuplicates, AllLearn, Merge, AddIfAbsent, InformsFor, Targets, Kept, HostsIn, EncodeHosts;
    var t := Next(s, b, step);
    if step.Start? {
      ProperRegistered(s, b, p);
      assert false;
    }
    assert step.Handle?;
    HandledProper(s, b, step.p);
    if p == step.p {
      assert Answer(p, EncodeHosts(s.lists[b] + [p])) in t.answers;
    }
  }

  /** Handling the request of a new peer with proper addresses all around. */
  lemma HandledProper(s: Net, b: Host, p: Host)
    requires Inv(s, b) && Enabled(s, Handle(p)) && Proper(s, b)
    ensures Kept(p) == p
    ensures p !in s.lists[b] ==> AnswerTo(s.lists[b], p) == Answered(EncodeHosts(s.lists[b] + [p]))
    ensures forall a :: a in s.lists[b] + [p] ==> a in HostsIn(EncodeHosts(s.lists[b] + [p]))
  {
    hide NoDuplicates, AllLearn, Kept, HostsIn, EncodeHosts;
    ProperKept(s, b, p);
    var list := s.lists[b] + [p];
    forall a | a in list ensures NoColon(a) && a in HostsIn(EncodeHosts(list)) {
      if a != p { ProperRegistered(s, b, a); }
      InEncoded(list, a);
    }
  }

  lemma AllLearnNext(s: Net, b: Host, step: Step)
    requires Inv(s, b) && Enabled(s, step) && Proper(Next(s, b, step), b)
    requires BootstrapOk(Next(s, b, step), b)
    ensures AllLearn(Next(s, b, step), b)
  {
    hide NoDuplicates, Merge, AddIfAbsent, InformsFor, Targets, Kept, HostsIn, EncodeHosts, Learns, Inv, Next, Proper,
         BootstrapOk, Enabled;
    InvBootstrap(s, b);
    var t := Next(s, b, step);
    InBootstrapOk(t, b);
    ProperBefore(s, b, step);
    forall p | p in t.lists ensures p in t.requests || p in t.lists[b] {
      RequestedOrListed(s, b, step, p);
    }
    forall p, a | p in t.lists && p in t.lists[b] && a in t.lists[b] ensures Learns(t, p, a) {
      if p in s.lists && p in s.lists[b] && a in s.lists[b] {
        LearnsNext(s, b, step, p, a);
      } else {
        RegistrationLearns(s, b, step, p, a);
      }
    }
  }

  lemma InvBootstrap(s: Net, b: Host)
    requires Inv(s, b)
    ensures Addressed(s, b) && BootstrapOk(s, b) && b in s.lists[b]
  {}

  lemma RequestedOrListed(s: Net, b: Host, step: Step, p: Host)
    requires Inv(s, b) && Enabled(s, step) && Proper(s, b) && p in Next(s, b, step).lists
    ensures var t := Next(s, b, step); p in t.requests || p in t.lists[b]
  {
    hide NoDuplicates, Merge, AddIfAbsent, InformsFor, Targets, Kept, HostsIn, EncodeHosts, Learns;
    if p in s.lists[b] {
      ListsGrow(s, b, step, b, p);
    } else if step.Handle? {
      HandledProper(s, b, step.p);
    }
  }

  /** Every step keeps the invariant, whatever else is going on. */
  lemma InvNext(s: Net, b: Host, step: Step)
    requires Inv(s, b) && Enabled(s, step)
    ensures Inv(Next(s, b, step), b)
  {
    hide Enabled, BootstrapOk, ListsOk, MessagesOk, AllLearn, Proper, Next, Addressed;
    assert Addressed(s, b) by { InvBootstrap(s, b); }
    var t := Next(s, b, step);
    match step {
      case Start(p) => StartOk(s, b, p);
      case Handle(p) => HandleOk(s, b, p);
      case SendInforms(a) => SendOk(s, b, a);
      case DeliverAnswer(r) => AnswerOk(s, b, r);
      case DeliverInform(m) => InformOk(s, b, m);
    }
    assert b in t.lists by { InBootstrapOk(t, b); }
    if Proper(t, b) { AllLearnNext(s, b, step); }
  }

  lemma InBootstrapOk(s: Net, b: Host)
    requires BootstrapOk(s, b)
    ensures Addressed(s, b)
  {}

  // ----- Runs

  /** Every step of the run is enabled where it is taken; messages have receivers throughout (RunInv). */
  predicate Legal(s: Net, b: Host, steps: seq<Step>)
    decreases |steps|
  {
    steps == [] || (Addressed(s, b) && Enabled(s, steps[0]) && Legal(Next(s, b, steps[0]), b, steps[1..]))
  }

  function Run(s: Net, b: Host, steps: seq<Step>): Net
    requires Legal(s, b, steps)
    decreases |steps|
  {
    if steps == [] then s else Run(Next(s, b, steps[0]), b, steps[1..])
  }

  /** A step can be taken wherever it is enabled, and the invariant holds all along. */
  lemma {:induction false} RunInv(s: Net, b: Host, steps: seq<Step>)
    requires Inv(s, b) && Legal(s, b, steps)
    ensures Inv(Run(s, b, steps), b) && Addressed(Run(s, b, steps), b)
    decreases |steps|
  {
    hide Inv, Next, Enabled, Addressed;
    InvBootstrap(s, b);
    if steps != [] {
      InvNext(s, b, steps[0]);
      RunInv(Next(s, b, steps[0]), b, steps[1..]);
    }
  }

  predicate Quiet(s: Net) {
    s.requests == {} && s.pending == {} && s.answers == {} && s.informs == {}
  }

  /** Every started peer's list holds every started peer exactly once, and nobody else. */
  predicate AllListed(s: Net) {
    forall p :: p in s.lists ==>
      NoDuplicates(s.lists[p]) && s.lists.Keys == set a | a in s.lists[p]
  }

  // ----- When the network becomes complete

  /** With nothing in flight and proper addresses, the network is complete. */
  lemma ProperQuietComplete(s: Net, b: Host)
    requires Inv(s, b) && Quiet(s) && Proper(s, b)
    ensures AllListed(s)
  {
    hide NoDuplicates, Kept, HostsIn, NoColon, Admissible, Survives;
    ProperKept(s, b, b);
    forall p | p in s.lists ensures NoDuplicates(s.lists[p]) && s.lists.Keys == set a | a in s.lists[p] {
      forall a | a in s.lists[p] ensures a in s.lists {
        if a in s.lists[b] { ProperRegistered(s, b, a); }
      }
      forall a | a in s.lists ensures a in s.lists[p] {
        assert Learns(s, p, a);
      }
    }
  }

  /** With an improper address among those of two peers or more, it never is, quiet or not. */
  lemma ImproperIncomplete(s: Net, b: Host, p: Host)
    requires Inv(s, b) && p in s.lists && p != b && !Proper(s, b)
    ensures !AllListed(s)
  {
    hide Inv, Survives, NoColon, Admissible, AllListed;
    if !NoColon(b) || !Survives(b) {
      UnreachableHost(s, b, p);
    } else {
      var q :| q in s.lists && q != b && !(Admissible(q) && NoColon(q) && Survives(q));
      ImproperPeer(s, b, q);
    }
  }

  /** The bootstrap's own address cannot get to anyone. */
  lemma UnreachableHost(s: Net, b: Host, p: Host)
    requires Inv(s, b) && p in s.lists && p != b && (!NoColon(b) || !Survives(b))
    ensures b !in s.lists[p] && !AllListed(s)
  {
    hide NoDuplicates, Kept, HostsIn, NoColon, Admissible, Survives, AllLearn;
    SurvivesIffKept(b);
    assert b in s.lists.Keys;
  }

  /** The peer's address cannot get onto the bootstrap's list, or nothing is told to the peer. */
  lemma ImproperPeer(s: Net, b: Host, q: Host)
    requires Inv(s, b) && q in s.lists && q != b && !(Admissible(q) && NoColon(q) && Survives(q))
    ensures (q !in s.lists[b] || b !in s.lists[q]) && !AllListed(s)
  {
    hide NoDuplicates, Kept, HostsIn, NoColon, Admissible, Survives, AllLearn;
    assert q in s.lists.Keys && b in s.lists.Keys;
    if q in s.lists[b] {
      RegisteredKept(s, b, q);
      SurvivesIffKept(q);
    }
  }

  lemma AloneComplete(s: Net, b: Host)
    requires Inv(s, b) && s.lists.Keys == {b}
    ensures AllListed(s)
  {
    hide NoDuplicates, Kept, HostsIn, NoColon, Admissible, AllLearn;
    assert s.lists.Keys == set a | a in s.lists[b];
  }

  /**
   * A network with nothing in flight is complete if and only if the bootstrap peer is alone, or every
   * host survives its field and has no colon, and every other host is not empty and its port not zero.
   */
  lemma QuietMeansComplete(s: Net, b: Host)
    requires Inv(s, b) && Quiet(s)
    ensures AllListed(s) <==> s.lists.Keys == {b} || Proper(s, b)
  {
    hide AllListed, Proper, Quiet, ListsOk, MessagesOk, AllLearn;
    if Proper(s, b) {
      ProperQuietComplete(s, b);
    } else if s.lists.Keys == {b} {
      AloneComplete(s, b);
    } else {
      assert exists p :: p in s.lists.Keys && p != b;
      var p :| p in s.lists.Keys && p != b;
      ImproperIncomplete(s, b, p);
    }
  }

  // ----- Everything in flight is delivered eventually

  lemma OneLess(k: nat, n: nat)
    requires k > 0
    ensures (k - 1) * n == k * n - n
  {}

  lemma AtMostOneMore(k: nat, l: nat, n: nat)
    requires l <= k + 1
    ensures l * n <= k * n + n
  {
    MulNonNegative(k + 1 - l, n);
    assert (k + 1 - l) * n == (k + 1) * n - l * n;
    assert (k + 1) * n == k * n + n;
  }

  /** A request costs more than its answer and its turn to inform, which costs more than it sends. */
  function Load(n: nat, requests: nat, pending: nat, answers: nat, informs: nat): nat {
    MulNonNegative(requests, n + 3);
    MulNonNegative(pending, n + 1);
    requests * (n + 3) + pending * (n + 1) + answers + informs
  }

  function Weight(s: Net): nat {
    Load(|s.lists|, |s.requests|, |s.pending|, |s.answers|, |s.informs|)
  }

  lemma AnswerLoad(n: nat, requests: nat, pending: nat, answers: nat, informs: nat, pending': nat, answers': nat)
    requires requests > 0 && pending' <= pending + 1 && answers' <= answers + 1
    ensures Load(n, requests - 1, pending', answers', informs) < Load(n, requests, pending, answers, informs)
  {
    OneLess(requests, n + 3);
    AtMostOneMore(pending, pending', n + 1);
  }

  lemma SendLoad(n: nat, requests: nat, pending: nat, answers: nat, informs: nat, informs': nat)
    requires pending > 0 && informs' <= informs + n
    ensures Load(n, requests, pending - 1, answers, informs') < Load(n, requests, pending, answers, informs)
  {
    OneLess(pending, n + 1);
  }

  lemma {:induction false} NoMoreThan(list: seq<Host>, all: set<Host>)
    requires NoDuplicates(list) && forall a :: a in list ==> a in all
    ensures |list| <= |all|
  {
    if list != [] {
      var last := list[|list| - 1];
      var rest := list[..|list| - 1];
      assert last in list;
      forall a | a in rest ensures a in all - {last} {
        assert a in list;
      }
      NoMoreThan(rest, all - {last});
    }
  }

  lemma FewInforms(s: Net, b: Host, a: Host)
    requires Inv(s, b)
    ensures |InformsFor(Targets(s.lists[b], b, a, s.lists.Keys), Kept(a))| <= |s.lists|
  {
    hide NoDuplicates, Kept, InformsFor;
    NoMoreThan(Targets(s.lists[b], b, a, s.lists.Keys), s.lists.Keys);
  }

  lemma Removed<T>(s: set<T>, x: T)
    requires x in s
    ensures |s - {x}| == |s| - 1
  {}

  lemma UnionSize<T>(s: set<T>, t: set<T>)
    ensures |s + t| <= |s| + |t|
  {
    assert |s + t| == |s| + |t - s|;
    assert |t - s| <= |t|;
  }

  lemma SameSize<K, V>(m: map<K, V>, k: K, v: V)
    requires k in m
    ensures |m[k := v]| == |m|
  {
    assert m[k := v].Keys == m.Keys;
  }

  lemma HandleDecreases(s: Net, b: Host, p: Host)
    requires Inv(s, b) && Enabled(s, Handle(p))
    ensures Weight(Next(s, b, Handle(p))) < Weight(s)
  {
    hide Inv, ListAfter, Kept, AnswerTo, Load;
    InvBootstrap(s, b);
    var t, a := Next(s, b, Handle(p)), Kept(p);
    Removed(s.requests, p);
    SameSize(s.lists, b, ListAfter(s.lists[b], a));
    if AnswerTo(s.lists[b], a).Answered? {
      UnionSize(s.pending, {a});
      UnionSize(s.answers, {Answer(p, AnswerTo(s.lists[b], a).payload)});
    }
    AnswerLoad(|s.lists|, |s.requests|, |s.pending|, |s.answers|, |s.informs|, |t.pending|, |t.answers|);
  }

  lemma SendDecreases(s: Net, b: Host, a: Host)
    requires Inv(s, b) && Enabled(s, SendInforms(a))
    ensures Weight(Next(s, b, SendInforms(a))) < Weight(s)
  {
    hide Inv, InformsFor, Targets, Kept, Load;
    InvBootstrap(s, b);
    var sent := InformsFor(Targets(s.lists[b], b, a, s.lists.Keys), Kept(a));
    Removed(s.pending, a);
    FewInforms(s, b, a);
    UnionSize(s.informs, sent);
    SendLoad(|s.lists|, |s.requests|, |s.pending|, |s.answers|, |s.informs|, |s.informs + sent|);
  }

  lemma DeliverDecreases(s: Net, b: Host, step: Step)
    requires Inv(s, b) && Enabled(s, step) && (step.DeliverAnswer? || step.DeliverInform?)
    ensures Weight(Next(s, b, step)) < Weight(s)
  {
    hide Inv, AddIfAbsent, Merge, HostsIn;
    InvBootstrap(s, b);
    if step.DeliverAnswer? {
      Removed(s.answers, step.r);
      SameSize(s.lists, step.r.to, Merge(s.lists[step.r.to], HostsIn(step.r.data)));
    } else {
      Removed(s.informs, step.m);
      SameSize(s.lists, step.m.to, AddIfAbsent(s.lists[step.m.to], step.m.about));
    }
  }

  /** Every step but a new peer starting leaves less to be done. */
  lemma DeliveryDecreases(s: Net, b: Host, step: Step)
    requires Inv(s, b) && Enabled(s, step) && !step.Start?
    ensures Weight(Next(s, b, step)) < Weight(s)
  {
    hide Inv, Weight;
    InvBootstrap(s, b);
    match step
    case Handle(p) => HandleDecreases(s, b, p);
    case SendInforms(a) => SendDecreases(s, b, a);
    case DeliverAnswer(_) => DeliverDecreases(s, b, step);
    case DeliverInform(_) => DeliverDecreases(s, b, step);
  }

  lemma SomeDelivery(s: Net) returns (step: Step)
    requires !Quiet(s)
    ensures Enabled(s, step) && !step.Start?
  {
    if s.requests != {} {
      var p :| p in s.requests;
      step := Handle(p);
    } else if s.pending != {} {
      var a :| a in s.pending;
      step := SendInforms(a);
    } else if s.answers != {} {
      var r :| r in s.answers;
      step := DeliverAnswer(r);
    } else {
      var m :| m in s.informs;
      step := DeliverInform(m);
    }
  }

  lemma SamePeers(s: Net, b: Host, step: Step)
    requires Inv(s, b) && Enabled(s, step) && !step.Start?
    ensures Next(s, b, step).lists.Keys == s.lists.Keys
  {
    hide NoDuplicates, AllLearn, Merge, AddIfAbsent, InformsFor, Targets, Kept, HostsIn, EncodeHosts;
  }

  /** While no new peer starts, every run is bounded by what there is to do, among the same peers. */
  lemma {:induction false} RunsDrain(s: Net, b: Host, steps: seq<Step>)
    requires Inv(s, b) && Legal(s, b, steps) && forall step :: step in steps ==> !step.Start?
    ensures |steps| + Weight(Run(s, b, steps)) <= Weight(s)
    ensures Run(s, b, steps).lists.Keys == s.lists.Keys
    decreases |steps|
  {
    hide Inv, Weight, Next;
    if steps != [] {
      InvBootstrap(s, b);
      InvNext(s, b, steps[0]);
      DeliveryDecreases(s, b, steps[0]);
      SamePeers(s, b, steps[0]);
      RunsDrain(Next(s, b, steps[0]), b, steps[1..]);
    }
  }

  /** A run that only a starting peer could continue ends complete, exactly under the condition above. */
  lemma MaximalRunsComplete(s: Net, b: Host, steps: seq<Step>)
    requires Inv(s, b) && Legal(s, b, steps)
    requires forall step :: Enabled(Run(s, b, steps), step) ==> step.Start?
    ensures var t := Run(s, b, steps); AllListed(t) <==> t.lists.Keys == {b} || Proper(t, b)
  {
    hide Inv, Next, AllListed, Proper;
    RunInv(s, b, steps);
    var t := Run(s, b, steps);
    if !Quiet(t) { var step := SomeDelivery(t); }
    QuietMeansComplete(t, b);
  }

  /** The same from the bootstrap peer alone, over any starts and any interleaving. */
  lemma NetworksComplete(b: Host, steps: seq<Step>)
    requires Legal(Initial(b), b, steps)
    requires forall step :: Enabled(Run(Initial(b), b, steps), step) ==> step.Start?
    ensures var t := Run(Initial(b), b, steps); AllListed(t) <==> t.lists.Keys == {b} || Proper(t, b)
  {
    InitialInv(b);
    MaximalRunsComplete(Initial(b), b, steps);
  }

  // ----- Addresses that do not get through

  /** A declined peer stays as it started. */
  lemma {:induction false} DeclinedRun(b: Host, p: Host)
    requires p != b && AnswerTo([b], Kept(p)).Declined?
    ensures Legal(Initial(b), b, [Start(p), Handle(p)])
    ensures var t := Run(Initial(b), b, [Start(p), Handle(p)]);
      t == Net(map[b := ListAfter([b], Kept(p)), p := [p]], {}, {}, {}, {}) && !AllListed(t)
  {
    hide Kept, AnswerTo, ListAfter, NoDuplicates;
    var s0 := Initial(b);
    var s1 := Next(s0, b, Start(p));
    assert s1.lists[b] == [b] && s1.lists == map[b := [b], p := [p]];
    var s2 := Next(s1, b, Handle(p));
    assert s2 == Net(map[b := ListAfter([b], Kept(p)), p := [p]], {}, {}, {}, {});
    assert [Start(p), Handle(p)][1..] == [Handle(p)] && [Handle(p)][1..] == [];
    assert Legal(s2, b, []) && Legal(s1, b, [Handle(p)]);
    assert Run(s1, b, [Handle(p)]) == s2;
    assert b in s2.lists && b !in s2.lists[p];
  }

  /** A peer that is accepted under a changed name: it lists both names, and the second is nobody's. */
  lemma {:induction false} RenamedRun(b: Host, p: Host) returns (steps: seq<Step>)
    requires p != b && Kept(b) == b && AnswerTo([b], Kept(p)).Answered? && Kept(p) != p
    ensures Legal(Initial(b), b, steps)
    ensures var t := Run(Initial(b), b, steps);
      t == Net(map[b := [b, Kept(p)], p := [p, b, Kept(p)]], {}, {}, {}, {}) && !AllListed(t)
  {
    hide Kept, AnswerTo, Next, NoDuplicates, Legal, Run;
    var a, data := Kept(p), AnswerTo([b], Kept(p)).payload;
    assert a != b && data == EncodeHosts([b, a]) by { AnsweredAlone(b, a); }
    steps := [Start(p), Handle(p), SendInforms(a), DeliverAnswer(Answer(p, data))];
    var s1 := Net(map[b := [b], p := [p]], {p}, {}, {}, {});
    var s2 := Net(map[b := [b, a], p := [p]], {}, {a}, {Answer(p, data)}, {});
    var s3 := Net(map[b := [b, a], p := [p]], {}, {}, {Answer(p, data)}, {});
    var s4 := Net(map[b := [b, a], p := [p, b, a]], {}, {}, {}, {});
    assert Next(Initial(b), b, Start(p)) == s1 by { StartAlone(b, p); }
    assert Next(s1, b, Handle(p)) == s2 by { HandleAlone(b, p); }
    assert Next(s2, b, SendInforms(a)) == s3 by { SendAlone(s2, b, a); }
    assert Next(s3, b, DeliverAnswer(Answer(p, data))) == s4 by { DeliverAlone(s3, b, p); }
    FourSteps(Initial(b), s1, s2, s3, s4, b, steps);
    assert s4.lists[p][2] == a && a !in s4.lists;
  }

  lemma AnsweredAlone(b: Host, a: Host)
    requires AnswerTo([b], a).Answered?
    ensures AnswerTo([b], a).payload == EncodeHosts([b, a]) && a != b
    ensures ListAfter([b], a) == [b, a]
  {
    assert b in [b] && [b] + [a] == [b, a];
  }

  lemma StartAlone(b: Host, p: Host)
    requires p != b
    ensures Next(Initial(b), b, Start(p)) == Net(map[b := [b], p := [p]], {p}, {}, {}, {})
  {}

  lemma HandleAlone(b: Host, p: Host)
    requires p != b && AnswerTo([b], Kept(p)).Answered?
    ensures Next(Net(map[b := [b], p := [p]], {p}, {}, {}, {}), b, Handle(p))
         == Net(map[b := [b, Kept(p)], p := [p]], {}, {Kept(p)}, {Answer(p, EncodeHosts([b, Kept(p)]))}, {})
  {
    hide Kept, AnswerTo, ListAfter, EncodeHosts;
    AnsweredAlone(b, Kept(p));
  }

  lemma SendAlone(s: Net, b: Host, a: Host)
    requires Addressed(s, b) && s.lists[b] == [b, a] && s.pending == {a}
    ensures Next(s, b, SendInforms(a)) == s.(pending := {})
  {
    hide Kept, InformsFor, Targets;
    NobodyToTell(b, a, s.lists.Keys);
  }

  lemma DeliverAlone(s: Net, b: Host, p: Host)
    requires p != b && Kept(b) == b && Kept(p) != p && Kept(p) != b
    requires s.lists == map[b := [b, Kept(p)], p := [p]]
    requires s.answers == {Answer(p, EncodeHosts([b, Kept(p)]))} && s.informs == {}
    ensures Next(s, b, DeliverAnswer(Answer(p, EncodeHosts([b, Kept(p)]))))
         == s.(lists := map[b := [b, Kept(p)], p := [p, b, Kept(p)]], answers := {})
  {
    hide Kept, EncodeHosts, HostsIn, Merge;
    BothMerged(b, p);
  }

  lemma NobodyToTell(b: Host, a: Host, up: set<Host>)
    ensures InformsFor(Targets([b, a], b, a, up), Kept(a)) == {}
  {
    assert [b, a][1..] == [a] && [a][1..] == [];
  }

  lemma BothMerged(b: Host, p: Host)
    requires p != b && Kept(b) == b && Kept(p) != p && Kept(p) != b
    ensures Merge([p], HostsIn(EncodeHosts([b, Kept(p)]))) == [p, b, Kept(p)]
  {
    hide Kept, EncodeHosts, HostsIn;
    var a := Kept(p);
    HostsKept([b, a]);
    KeptTwice(p);
    assert HostsIn(EncodeHosts([b, a])) == [b, a];
    assert [b, a][..1] == [b] && [b][..0] == [];
    assert Merge([p], []) == [p];
    assert Merge([p], [b]) == [p, b];
  }

  lemma {:induction false} FourSteps(s0: Net, s1: Net, s2: Net, s3: Net, s4: Net, b: Host, steps: seq<Step>)
    requires |steps| == 4
    requires Addressed(s0, b) && Enabled(s0, steps[0]) && Next(s0, b, steps[0]) == s1
    requires Addressed(s1, b) && Enabled(s1, steps[1]) && Next(s1, b, steps[1]) == s2
    requires Addressed(s2, b) && Enabled(s2, steps[2]) && Next(s2, b, steps[2]) == s3
    requires Addressed(s3, b) && Enabled(s3, steps[3]) && Next(s3, b, steps[3]) == s4
    ensures Legal(s0, b, steps) && Run(s0, b, steps) == s4
  {
    hide Next, Enabled, Addressed;
    assert steps[1..][0] == steps[1] && steps[2..][0] == steps[2] && steps[3..][0] == steps[3];
    assert steps[1..][1..] == steps[2..] && steps[2..][1..] == steps[3..] && steps[3..][1..] == [];
    assert Legal(s4, b, []) && Run(s4, b, []) == s4;
    assert Legal(s3, b, steps[3..]) && Run(s3, b, steps[3..]) == s4;
    assert Legal(s2, b, steps[2..]) && Run(s2, b, steps[2..]) == s4;
    assert Legal(s1, b, steps[1..]) && Run(s1, b, steps[1..]) == s4;
  }

  const EMPTY_HOST := Host([], 80)
  const NO_PORT := Host([49], 0)
  const COLON_HOST := Host([58, 49], 80)
  const LONG_HOST := Host(seq(17, _ => 49), 80)
  const NUL_HOST := Host([49, 0], 80)

  /** One host of each kind: the bootstrap peer declines the first three, the others are changed on the way. */
  lemma FailingHosts(b: Host)
    requires NoColon(b)
    ensures AnswerTo([b], Kept(EMPTY_HOST)) == Declined(STATUS_BAD_REQUEST)
    ensures AnswerTo([b], Kept(NO_PORT)) == Declined(STATUS_BAD_REQUEST)
    ensures b != COLON_HOST ==> AnswerTo([b], Kept(COLON_HOST)) == Declined(STATUS_OTHER)
    ensures Kept(LONG_HOST) == Host(seq(16, _ => 49), 80) != LONG_HOST
    ensures Kept(NUL_HOST) == Host([49], 80) != NUL_HOST
    ensures b != Kept(LONG_HOST) ==> AnswerTo([b], Kept(LONG_HOST)).Answered?
    ensures b != Kept(NUL_HOST) ==> AnswerTo([b], Kept(NUL_HOST)).Answered?
  {
    SurvivesIffKept(EMPTY_HOST);
    SurvivesIffKept(NO_PORT);
    SurvivesIffKept(COLON_HOST);
    assert COLON in COLON_HOST.ip by { assert COLON_HOST.ip[0] == COLON; }
    assert COLON_HOST in [b] + [COLON_HOST] by { assert ([b] + [COLON_HOST])[1] == COLON_HOST; }
    CutHost();
    NulHost();
  }

  lemma CutHost()
    ensures Kept(LONG_HOST) == Host(seq(16, _ => 49), 80)
    ensures NoColon(Kept(LONG_HOST)) && Admissible(Kept(LONG_HOST)) && |LONG_HOST.ip| == 17
  {
    var h: Host := Host(seq(16, _ => 49), 80);
    SurvivesIffKept(h);
    assert LONG_HOST.ip[..LEN_IP] == h.ip;
    assert IpField(LONG_HOST.ip) == IpField(h.ip);
  }

  lemma NulHost()
    ensures Kept(NUL_HOST) == Host([49], 80)
    ensures NoColon(Kept(NUL_HOST)) && Admissible(Kept(NUL_HOST))
  {
    var h: Host := Host([49], 80);
    SurvivesIffKept(h);
    assert [49] + Zeros(15) == [49, 0] + Zeros(14);
    assert IpField(NUL_HOST.ip) == IpField(h.ip);
  }
}
