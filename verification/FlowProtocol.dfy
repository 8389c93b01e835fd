/** The composition of manager and client over two ordered channels: token updates travel to the
    client, acknowledgements and packets travel to the manager. */
module FlowProtocol {
  import opened Common
  import opened FlowControl

  datatype Message = Ack(tokens: int) | Packet

  /** `running` is true between a manager start and the next stop; `started` once it was started.
      `taken` and `returned` count the tokens that packets took and that were put back since the
      last start. */
  datatype System = System(
    manager: Manager, client: Client, updates: seq<int>, inbox: seq<Message>,
    running: bool, started: bool, taken: int, returned: int)

  const INITIAL := System(NEW_MANAGER, NEW_CLIENT, [], [], false, false, 0, 0)

  datatype Action =
    | StartManager(total: int)
    | StopManager
    | ReturnTokens(count: int)
    | StartClient
    | StopClient
    | SendPacket
    | DeliverUpdate
    | DeliverAck
    | DeliverPacket

  predicate Enabled(s: System, a: Action) {
    match a
    case StartManager(total) => 0 <= total <= U16_MAX
    case ReturnTokens(count) => 0 <= count <= U16_MAX
    case SendPacket => Ready(s.client) && !s.client.cancelled
    case DeliverUpdate => s.updates != []
    case DeliverAck => s.inbox != [] && s.inbox[0].Ack?
    case DeliverPacket => s.inbox != [] && s.inbox[0].Packet?
    case _ => true
  }

  function Next(s: System, a: Action): System
    requires Enabled(s, a)
  {
    match a
    case StartManager(total) =>
      var m := ManagerStart(s.manager, total);
      s.(manager := m, updates := s.updates + [m.lastUpdate], running := true, started := true,
         taken := 0, returned := 0)
    case StopManager =>
      s.(manager := ManagerStop(s.manager), running := false)
    case ReturnTokens(count) =>
      var m := AddToken(s.manager, count);
      s.(manager := m, returned := s.returned + (if Credits(s.manager, count) then count else 0),
         updates := if OffersAfterCredit(Credit(s.manager, count)) then s.updates + [m.lastUpdate] else s.updates)
    case StartClient =>
      s.(inbox := s.inbox + [Ack(s.client.tokens)])
    case StopClient =>
      s.(client := Cancel(s.client))
    case SendPacket =>
      s.(client := TakeToken(s.client), inbox := s.inbox + [Packet])
    case DeliverUpdate =>
      s.(client := TakeUpdate(s.client, s.updates[0]), updates := s.updates[1..],
         inbox := s.inbox + [Ack(s.updates[0])])
    case DeliverAck =>
      var tokens := s.inbox[0].tokens;
      var m := ProcessAck(s.manager, tokens);
      s.(manager := m, inbox := s.inbox[1..],
         updates := if AcceptsAck(s.manager, tokens) then s.updates else s.updates + [m.lastUpdate])
    case DeliverPacket =>
      s.(manager := RemoveToken(s.manager), inbox := s.inbox[1..],
         taken := s.taken + (if Removes(s.manager) then 1 else 0))
  }

  // ---------- runs ----------

  ghost predicate IsRun(s: System, actions: seq<Action>, t: System)
    decreases |actions|
  {
    if actions == [] then s == t
    else Enabled(s, actions[0]) && IsRun(Next(s, actions[0]), actions[1..], t)
  }

  ghost predicate Reachable(s: System) {
    exists actions :: IsRun(INITIAL, actions, s)
  }

  // ---------- invariant ----------

  /** What the client may still spend after the acknowledgement it sent last: the packets it sent
      since, and the tokens it holds. For an earlier acknowledgement, the packets before the next. */
  function Spend(inbox: seq<Message>, tokens: int): int {
    if inbox == [] then tokens
    else if inbox[0].Packet? then 1 + Spend(inbox[1..], tokens)
    else 0
  }

  predicate HasAck(inbox: seq<Message>) {
    exists i :: 0 <= i < |inbox| && inbox[i].Ack?
  }

  /** Every acknowledgement in flight covers the packets behind it, and the last one covers also
      the tokens the client still holds, exactly. */
  predicate AcksCover(inbox: seq<Message>, tokens: int) {
    inbox != [] ==>
      && AcksCover(inbox[1..], tokens)
      && (inbox[0].Ack? ==>
            && Spend(inbox[1..], tokens) <= inbox[0].tokens
            && (!HasAck(inbox[1..]) ==> Spend(inbox[1..], tokens) == inbox[0].tokens))
  }

  predicate ManagerInv(m: Manager, running: bool) {
    && 0 <= m.shadow <= m.available <= m.total <= U16_MAX
    && (running && m.ackPending ==> m.shadow == m.lastUpdate)
    && (!running ==> m.total == 0)
  }

  predicate Inv(s: System) {
    && ManagerInv(s.manager, s.running)
    && 0 <= s.client.tokens
    && (forall i :: 0 <= i < |s.updates| ==> 0 <= s.updates[i])
    && AcksCover(s.inbox, s.client.tokens)
    && (s.running && !s.manager.ackPending ==>
          && Spend(s.inbox, s.client.tokens) <= s.manager.shadow
          && (!HasAck(s.inbox) ==> Spend(s.inbox, s.client.tokens) == s.manager.shadow))
    && (s.running ==> s.started && s.manager.available + s.taken == s.manager.total + s.returned)
    && (s.started && s.manager.ackPending ==> s.updates != [] || HasAck(s.inbox))
  }

  lemma {:induction false} SpendNonNegative(inbox: seq<Message>, tokens: int)
    requires 0 <= tokens
    ensures 0 <= Spend(inbox, tokens)
  {
    if inbox != [] {
      SpendNonNegative(inbox[1..], tokens);
    }
  }

  lemma HasAckTail(inbox: seq<Message>)
    requires inbox != []
    ensures HasAck(inbox) <==> inbox[0].Ack? || HasAck(inbox[1..])
  {
  }

  lemma HasAckAppend(inbox: seq<Message>, m: Message)
    ensures HasAck(inbox + [m]) <==> HasAck(inbox) || m.Ack?
  {
    if HasAck(inbox) {
      var i :| 0 <= i < |inbox| && inbox[i].Ack?;
      assert (inbox + [m])[i].Ack?;
    }
    if m.Ack? {
      assert (inbox + [m])[|inbox|].Ack?;
    }
  }

  /** A packet costs the client one token, so what it may spend does not change. */
  lemma {:induction false} SendCovered(inbox: seq<Message>, tokens: int)
    requires AcksCover(inbox, tokens)
    ensures AcksCover(inbox + [Packet], tokens - 1)
    ensures Spend(inbox + [Packet], tokens - 1) == Spend(inbox, tokens)
  {
    if inbox == [] {
      assert inbox + [Packet] == [Packet] && [Packet][1..] == [];
      assert Spend([Packet], tokens - 1) == 1 + Spend([], tokens - 1);
    } else {
      assert (inbox + [Packet])[1..] == inbox[1..] + [Packet];
      SendCovered(inbox[1..], tokens);
      HasAckAppend(inbox[1..], Packet);
    }
  }

  /** An acknowledgement of the tokens the client now holds covers itself, and lowers what the
      earlier ones have to cover. */
  lemma {:induction false} AckCovered(inbox: seq<Message>, tokens: int, granted: int)
    requires AcksCover(inbox, tokens) && 0 <= tokens
    ensures AcksCover(inbox + [Ack(granted)], granted)
    ensures Spend(inbox + [Ack(granted)], granted) <= Spend(inbox, tokens)
  {
    var ack := Ack(granted);
    if inbox == [] {
      assert inbox + [ack] == [ack] && [ack][1..] == [];
    } else {
      assert (inbox + [ack])[1..] == inbox[1..] + [ack];
      AckCovered(inbox[1..], tokens, granted);
      HasAckAppend(inbox[1..], ack);
    }
  }

  lemma ClientStepKeepsInv(s: System, a: Action)
    requires Inv(s) && Enabled(s, a)
    requires a.StartClient? || a.StopClient? || a.SendPacket? || a.DeliverUpdate?
    ensures Inv(Next(s, a))
  {
    match a
    case StartClient =>
      AckCovered(s.inbox, s.client.tokens, s.client.tokens);
      HasAckAppend(s.inbox, Ack(s.client.tokens));
    case StopClient =>
    case SendPacket =>
      SendCovered(s.inbox, s.client.tokens);
      HasAckAppend(s.inbox, Packet);
    case DeliverUpdate =>
      AckCovered(s.inbox, s.client.tokens, s.updates[0]);
      HasAckAppend(s.inbox, Ack(s.updates[0]));
  }

  lemma ManagerStepKeepsInv(s: System, a: Action)
    requires Inv(s) && Enabled(s, a)
    requires a.StartManager? || a.StopManager? || a.ReturnTokens? || a.DeliverAck? || a.DeliverPacket?
    ensures Inv(Next(s, a))
  {
    if a.DeliverAck? || a.DeliverPacket? {
      HasAckTail(s.inbox);
      SpendNonNegative(s.inbox[1..], s.client.tokens);
    }
  }

  lemma {:induction false} RunKeepsInv(s: System, actions: seq<Action>, t: System)
    requires Inv(s) && IsRun(s, actions, t)
    ensures Inv(t)
    decreases |actions|
  {
    if actions != [] {
      var a := actions[0];
      if a.StartClient? || a.StopClient? || a.SendPacket? || a.DeliverUpdate? {
        ClientStepKeepsInv(s, a);
      } else {
        ManagerStepKeepsInv(s, a);
      }
      RunKeepsInv(Next(s, a), actions[1..], t);
    }
  }

  // ---------- token safety ----------

  /** In every run, with any number of manager stops and restarts, the counts stay ordered and a
      packet never takes the shadow count below zero; while the manager runs, a packet is turned
      away only for a pending acknowledgement. */
  lemma TokenSafety(s: System)
    requires Reachable(s)
    ensures 0 <= s.manager.shadow <= s.manager.available <= s.manager.total <= U16_MAX
    ensures Enabled(s, DeliverPacket) && Removes(s.manager) ==> s.manager.shadow > 0
    ensures Enabled(s, DeliverPacket) && s.running ==> (Removes(s.manager) <==> !s.manager.ackPending)
    ensures !s.running ==> s.manager.available == s.manager.total == 0
  {
    var actions :| IsRun(INITIAL, actions, s);
    RunKeepsInv(INITIAL, actions, s);
    if Enabled(s, DeliverPacket) {
      SpendNonNegative(s.inbox[1..], s.client.tokens);
    }
  }

  /** In every run the tokens are conserved: what is available is the total, less what packets
      took, plus what was put back; so tokens are refused exactly when more would be put back than
      were taken. */
  lemma TokenConservation(s: System, count: int)
    requires Reachable(s) && s.running && Enabled(s, ReturnTokens(count))
    ensures s.manager.available == s.manager.total - s.taken + s.returned
    ensures Next(s, ReturnTokens(count)).manager.available
         == s.manager.available + (if s.returned + count <= s.taken then count else 0)
  {
    var actions :| IsRun(INITIAL, actions, s);
    RunKeepsInv(INITIAL, actions, s);
  }

  /** The manager by itself gives no such guarantee: these calls, each one legal, wrap the shadow
      count. */
  lemma ManagerAloneWraps()
    ensures var m1 := ProcessAck(ManagerStart(NEW_MANAGER, 3), 3);
      var m2 := AddToken(RemoveToken(m1), 1);
      var m3 := RemoveToken(RemoveToken(m2));
      Removes(m3) && m3.shadow == 0 && RemoveToken(m3).shadow == U16_MAX
  {
  }

  /** The exact guard, for a manager by itself: the shadow count grows over a removal if and only if
      the removal is granted at shadow zero. */
  lemma ManagerWrapsExactly(m: Manager)
    requires 0 <= m.shadow <= U16_MAX
    ensures RemoveToken(m).shadow > m.shadow <==> Removes(m) && m.shadow == 0
    ensures RemoveToken(m).shadow != m.shadow - (if Removes(m) then 1 else 0) <==> Removes(m) && m.shadow == 0
  {
  }

  // ---------- convergence of the handshake ----------

  predicate NoPackets(inbox: seq<Message>) {
    forall i :: 0 <= i < |inbox| ==> inbox[i].Ack?
  }

  predicate Deliveries(actions: seq<Action>) {
    forall i :: 0 <= i < |actions| ==> actions[i].DeliverUpdate? || actions[i].DeliverAck?
  }

  /** No control message can be delivered any more. */
  predicate Quiet(s: System) {
    !Enabled(s, DeliverUpdate) && !Enabled(s, DeliverAck)
  }

  function StaleUpdates(updates: seq<int>, available: int): nat {
    if updates == [] then 0
    else StaleUpdates(updates[1..], available) + (if updates[0] == available then 0 else 1)
  }

  function StaleAcks(inbox: seq<Message>, available: int): nat {
    if inbox == [] then 0
    else StaleAcks(inbox[1..], available) + (if inbox[0] == Ack(available) then 0 else 1)
  }

  lemma {:induction false} StaleAppend(updates: seq<int>, inbox: seq<Message>, u: int, available: int)
    ensures StaleUpdates(updates + [u], available)
         == StaleUpdates(updates, available) + (if u == available then 0 else 1)
    ensures StaleAcks(inbox + [Ack(u)], available)
         == StaleAcks(inbox, available) + (if u == available then 0 else 1)
    decreases |updates| + |inbox|
  {
    if updates != [] {
      assert (updates + [u])[1..] == updates[1..] + [u];
      StaleAppend(updates[1..], inbox, u, available);
    } else if inbox != [] {
      assert (inbox + [Ack(u)])[1..] == inbox[1..] + [Ack(u)];
      StaleAppend(updates, inbox[1..], u, available);
    } else {
      assert updates + [u] == [u] && inbox + [Ack(u)] == [Ack(u)];
    }
  }

  /** A bound on the deliveries still possible: two for an offer that is out of date, two for each
      message that does not carry the available tokens, three for each message, two when the
      manager is not waiting, and one for each update still to be turned into an acknowledgement. */
  function Remaining(s: System): nat {
    var m := s.manager;
    (if m.lastUpdate == m.available then 0 else 2)
    + 2 * (StaleUpdates(s.updates, m.available) + StaleAcks(s.inbox, m.available))
    + 3 * (|s.updates| + |s.inbox|)
    + (if m.ackPending then 0 else 2)
    + |s.updates|
  }

  lemma DeliveryDecreases(s: System, a: Action)
    requires NoPackets(s.inbox) && Enabled(s, a) && (a.DeliverUpdate? || a.DeliverAck?)
    ensures var t := Next(s, a);
      && Remaining(t) < Remaining(s) && NoPackets(t.inbox)
      && t.manager.available == s.manager.available && t.running == s.running
  {
    var available := s.manager.available;
    if a.DeliverUpdate? {
      StaleAppend([], s.inbox, s.updates[0], available);
    } else {
      StaleAppend(s.updates, [], available, available);
    }
  }

  /** A running manager and its client that have nothing in flight agree: no acknowledgement is
      pending, and the client holds exactly the tokens the manager believes it has. */
  lemma QuietAgrees(s: System)
    requires Reachable(s) && s.running && s.updates == [] && s.inbox == []
    ensures !s.manager.ackPending && s.client.tokens == s.manager.shadow
  {
    var actions :| IsRun(INITIAL, actions, s);
    RunKeepsInv(INITIAL, actions, s);
  }

  lemma {:induction false} DeliveriesBounded(s: System, actions: seq<Action>, t: System)
    requires NoPackets(s.inbox) && Deliveries(actions) && IsRun(s, actions, t)
    ensures |actions| + Remaining(t) <= Remaining(s)
    ensures NoPackets(t.inbox) && t.running == s.running
    decreases |actions|
  {
    if actions != [] {
      DeliveryDecreases(s, actions[0]);
      DeliveriesBounded(Next(s, actions[0]), actions[1..], t);
    }
  }

  lemma {:induction false} RunsCompose(s: System, first: seq<Action>, t: System, second: seq<Action>, u: System)
    requires IsRun(s, first, t) && IsRun(t, second, u)
    ensures IsRun(s, first + second, u)
    decreases |first|
  {
    if first == [] {
      assert first + second == second;
    } else {
      assert (first + second)[1..] == first[1..] + second;
      RunsCompose(Next(s, first[0]), first[1..], t, second, u);
    }
  }

  /** From every reachable state of a running manager with no packet in flight, every schedule of
      control deliveries is finite, with a bound known in advance; a schedule that cannot be
      extended leaves both channels empty, no acknowledgement pending, and the client with exactly
      the tokens the manager believes it has. */
  lemma HandshakeConverges(s: System, actions: seq<Action>, t: System)
    requires Reachable(s) && s.running && NoPackets(s.inbox)
    requires Deliveries(actions) && IsRun(s, actions, t)
    ensures |actions| <= Remaining(s)
    ensures Quiet(t) <==> t.updates == [] && t.inbox == []
    ensures Quiet(t) ==> !t.manager.ackPending && t.client.tokens == t.manager.shadow
  {
    DeliveriesBounded(s, actions, t);
    if Quiet(t) {
      var before :| IsRun(INITIAL, before, s);
      RunsCompose(INITIAL, before, s, actions, t);
      QuietAgrees(t);
    }
  }

  // ---------- offers ----------

  /** Deliveries of control messages leave an up-to-date offer up to date. */
  lemma {:induction false} DeliveriesKeepOffer(s: System, actions: seq<Action>, t: System)
    requires Deliveries(actions) && IsRun(s, actions, t) && s.manager.shadow == s.manager.available
    ensures t.manager.shadow == t.manager.available == s.manager.available
    decreases |actions|
  {
    if actions != [] {
      DeliveriesKeepOffer(Next(s, actions[0]), actions[1..], t);
    }
  }

  lemma {:induction false} SpendIsPackets(inbox: seq<Message>, tokens: int)
    requires !HasAck(inbox)
    ensures Spend(inbox, tokens) == |inbox| + tokens
  {
    if inbox != [] {
      HasAckTail(inbox);
      assert !inbox[0].Ack?;
      SpendIsPackets(inbox[1..], tokens);
    }
  }

  /** Once the handshake has settled, returned tokens make the manager send an update if and only if
      the client has spent everything it was given: it holds no token and no packet is under way. The
      update is for all tokens then available. */
  lemma OffersExactly(s: System, count: int)
    requires Reachable(s) && s.running && !s.manager.ackPending && !HasAck(s.inbox)
    requires Enabled(s, ReturnTokens(count))
    ensures var t := Next(s, ReturnTokens(count));
      t.updates == s.updates
                   + if s.client.tokens == 0 && s.inbox == [] && t.manager.available > 0 then [t.manager.available] else []
  {
    var actions :| IsRun(INITIAL, actions, s);
    RunKeepsInv(INITIAL, actions, s);
    SpendIsPackets(s.inbox, s.client.tokens);
  }

  /** Whatever ran before, every schedule of control deliveries from this state that cannot be
      extended ends with the client holding exactly the tokens available. */
  ghost predicate ReachesClient(s: System) {
    forall actions, t ::
      Deliveries(actions) && IsRun(s, actions, t) && Quiet(t) ==> t.client.tokens == s.manager.available
  }

  lemma OfferReachesClient(s: System)
    requires Reachable(s) && s.running && NoPackets(s.inbox) && s.manager.shadow == s.manager.available
    ensures ReachesClient(s)
  {
    forall actions, t | Deliveries(actions) && IsRun(s, actions, t) && Quiet(t)
      ensures t.client.tokens == s.manager.available
    {
      HandshakeConverges(s, actions, t);
      DeliveriesKeepOffer(s, actions, t);
    }
  }

  lemma {:induction false} RunExtends(s: System, actions: seq<Action>, t: System, a: Action)
    requires IsRun(s, actions, t) && Enabled(t, a)
    ensures IsRun(s, actions + [a], Next(t, a))
    decreases |actions|
  {
    if actions == [] {
      assert (actions + [a])[1..] == [];
      assert IsRun(Next(s, a), [], Next(t, a));
    } else {
      assert (actions + [a])[1..] == actions[1..] + [a];
      RunExtends(Next(s, actions[0]), actions[1..], t, a);
    }
  }

  lemma ReachableNext(s: System, a: Action)
    requires Reachable(s) && Enabled(s, a)
    ensures Reachable(Next(s, a))
  {
    var actions :| IsRun(INITIAL, actions, s);
    RunExtends(INITIAL, actions, s, a);
  }

  /** A starved client is served: with nothing in flight and no token left, returning tokens sends an
      update for all that are then available, which every schedule of deliveries brings to the
      client. */
  lemma ReturnServesClient(s: System, count: int)
    requires Reachable(s) && s.running && s.updates == [] && s.inbox == [] && s.client.tokens == 0
    requires Enabled(s, ReturnTokens(count)) && Next(s, ReturnTokens(count)).manager.available > 0
    ensures var t := Next(s, ReturnTokens(count));
      t.updates == [t.manager.available] && ReachesClient(t)
  {
    QuietAgrees(s);
    OffersExactly(s, count);
    ReachableNext(s, ReturnTokens(count));
    OfferReachesClient(Next(s, ReturnTokens(count)));
  }

  /** A start gives the client all tokens, whatever the channels still hold besides packets. */
  lemma StartServesClient(s: System, total: int)
    requires Reachable(s) && NoPackets(s.inbox) && Enabled(s, StartManager(total))
    ensures var t := Next(s, StartManager(total));
      t.manager.available == total && ReachesClient(t)
  {
    ReachableNext(s, StartManager(total));
    OfferReachesClient(Next(s, StartManager(total)));
  }

  /** Between two returns of tokens nothing is offered, so a client can starve while tokens are
      available: two tokens, one packet, one token returned while the client still holds one, and a
      second packet. */
  lemma StarvedExample()
    ensures exists s :: Reachable(s) && s.running && s.updates == [] && s.inbox == []
                        && s.client.tokens == 0 && s.manager.available == 1
  {
    var run := [StartManager(2), DeliverUpdate, DeliverAck, SendPacket, DeliverPacket, ReturnTokens(1),
                SendPacket, DeliverPacket];
    assert IsRun(INITIAL, [], INITIAL);
    var s := INITIAL;
    ReachableNext(s, run[0]);
    s := Next(s, run[0]);
    ReachableNext(s, run[1]);
    s := Next(s, run[1]);
    ReachableNext(s, run[2]);
    s := Next(s, run[2]);
    ReachableNext(s, run[3]);
    s := Next(s, run[3]);
    ReachableNext(s, run[4]);
    s := Next(s, run[4]);
    ReachableNext(s, run[5]);
    s := Next(s, run[5]);
    ReachableNext(s, run[6]);
    s := Next(s, run[6]);
    ReachableNext(s, run[7]);
    s := Next(s, run[7]);
  }

  /** The exact condition: as the last packet under way arrives, the client is left without tokens
      while some are available if and only if the manager then has more than it believes the client
      to hold, which is what was returned since its last update. */
  lemma StarvesExactly(s: System)
    requires Reachable(s) && s.running && !s.manager.ackPending
    requires s.updates == [] && s.inbox == [Packet] && s.client.tokens == 0
    ensures var t := Next(s, DeliverPacket);
      && t.updates == [] && t.inbox == [] && t.client.tokens == 0
      && (t.manager.available > 0 <==> s.manager.available > s.manager.shadow)
  {
    var actions :| IsRun(INITIAL, actions, s);
    RunKeepsInv(INITIAL, actions, s);
    SpendIsPackets(s.inbox, s.client.tokens);
  }

  // ---------- stopping the client ----------

  /** A stopped client never sends a packet again. */
  lemma {:induction false} StoppedForGood(s: System, actions: seq<Action>, t: System)
    requires IsRun(Next(s, StopClient), actions, t)
    ensures !Enabled(t, SendPacket)
  {
    StaysStopped(Next(s, StopClient), actions, t);
  }

  lemma {:induction false} StaysStopped(s: System, actions: seq<Action>, t: System)
    requires s.client.cancelled && IsRun(s, actions, t)
    ensures t.client.cancelled
    decreases |actions|
  {
    if actions != [] {
      StaysStopped(Next(s, actions[0]), actions[1..], t);
    }
  }

  /** A start of the client announces the tokens it holds: every schedule of deliveries that follows it
      and brings the message to a manager waiting for another count makes that manager offer again. */
  lemma StartAnnounces(s: System)
    requires s.inbox == [] && s.client.tokens != s.manager.lastUpdate
    ensures var t := Next(s, StartClient);
      && Enabled(t, DeliverAck)
      && Next(t, DeliverAck).updates == s.updates + [s.manager.available] && Next(t, DeliverAck).manager.ackPending
  {
  }

  /** Any other client sends whenever it holds a token, and each packet costs it one. */
  lemma SendsWithToken(s: System)
    ensures Enabled(s, SendPacket) <==> s.client.tokens != 0 && !s.client.cancelled
    ensures Enabled(s, SendPacket) ==> Next(s, SendPacket).client.tokens == s.client.tokens - 1
  {
  }
}
