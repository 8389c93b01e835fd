/** The two ends of token flow control (rust/emane-core/src/flow_control_manager.rs and
    rust/emane-core/src/flow_control_client.rs). Each end is a record of fields that its
    operations change; the functions give each operation's new fields, the classes carry them
    out in place. Counts are 16 bits wide. */
module FlowControl {
  import opened Common

  // ---------- manager ----------

  datatype Manager = Manager(
    available: int, total: int, shadow: int, lastUpdate: int, ackPending: bool)

  const NEW_MANAGER := Manager(0, 0, 0, 0, true)

  /** `update_shadow_and_ack`: offer all available tokens and wait for the acknowledgement. */
  function Offer(m: Manager): Manager {
    m.(shadow := m.available, lastUpdate := m.available, ackPending := true)
  }

  function ManagerStart(m: Manager, tokens: int): Manager {
    Offer(m.(total := tokens, available := tokens))
  }

  function ManagerStop(m: Manager): Manager {
    m.(total := 0, available := 0, shadow := 0)
  }

  /** Tokens are put back only up to the total. */
  predicate Credits(m: Manager, tokens: int) {
    m.available + tokens <= m.total
  }

  function Credit(m: Manager, tokens: int): Manager {
    if Credits(m, tokens) then m.(available := m.available + tokens) else m
  }

  predicate OffersAfterCredit(m: Manager) {
    m.shadow == 0 && m.available > 0
  }

  function AddToken(m: Manager, tokens: int): Manager {
    var c := Credit(m, tokens);
    if OffersAfterCredit(c) then Offer(c) else c
  }

  predicate Removes(m: Manager) {
    !m.ackPending && m.available != 0
  }

  /** `remove_token`: the shadow count is not guarded; at zero it wraps. */
  function RemoveToken(m: Manager): Manager {
    if Removes(m) then
      m.(available := m.available - 1, shadow := if m.shadow == 0 then U16_MAX else m.shadow - 1)
    else m
  }

  predicate AcceptsAck(m: Manager, tokens: int) {
    m.ackPending && tokens == m.lastUpdate
  }

  function ProcessAck(m: Manager, tokens: int): Manager {
    if AcceptsAck(m, tokens) then m.(ackPending := false) else Offer(m)
  }

  class FlowControlManager {
    var available: int
    var total: int
    var shadow: int
    var lastUpdate: int
    var ackPending: bool

    ghost function Fields(): Manager
      reads this
    {
      Manager(available, total, shadow, lastUpdate, ackPending)
    }

    constructor ()
      ensures Fields() == NEW_MANAGER
    {
      available, total, shadow, lastUpdate, ackPending := 0, 0, 0, 0, true;
    }

    method UpdateShadowAndAck() returns (tokens: int)
      modifies this
      ensures Fields() == Offer(old(Fields())) && tokens == old(available)
    {
      tokens := available;
      shadow := tokens;
      lastUpdate := tokens;
      ackPending := true;
    }

    method Start(totalTokens: int) returns (update: int)
      modifies this
      ensures Fields() == ManagerStart(old(Fields()), totalTokens) && update == totalTokens
    {
      total := totalTokens;
      available := totalTokens;
      update := UpdateShadowAndAck();
    }

    method Stop()
      modifies this
      ensures Fields() == ManagerStop(old(Fields()))
    {
      total := 0;
      available := 0;
      shadow := 0;
    }

    method Add(tokens: int) returns (left: int, status: bool, update: Option<int>)
      modifies this
      ensures Fields() == AddToken(old(Fields()), tokens) && left == available
      ensures status == Credits(old(Fields()), tokens)
      ensures update == if OffersAfterCredit(Credit(old(Fields()), tokens)) then Some(available) else None
    {
      status := available + tokens <= total;
      if status {
        available := available + tokens;
      }
      update := None;
      if shadow == 0 && available > 0 {
        var sent := UpdateShadowAndAck();
        update := Some(sent);
      }
      left := available;
    }

    method Remove() returns (left: int, status: bool)
      modifies this
      ensures Fields() == RemoveToken(old(Fields())) && left == available
      ensures status == Removes(old(Fields()))
    {
      if ackPending || available == 0 {
        return available, false;
      }
      available := available - 1;
      shadow := if shadow == 0 then U16_MAX else shadow - 1;
      return available, true;
    }

    method ProcessFlowControlMessage(tokens: int) returns (update: Option<int>)
      modifies this
      ensures Fields() == ProcessAck(old(Fields()), tokens)
      ensures update == if AcceptsAck(old(Fields()), tokens) then None else Some(available)
    {
      if ackPending && tokens == lastUpdate {
        ackPending := false;
        return None;
      }
      var sent := UpdateShadowAndAck();
      return Some(sent);
    }
  }

  // ---------- client ----------

  datatype Client = Client(tokens: int, cancelled: bool)

  /** A call for a token need not wait. */
  predicate Ready(c: Client) {
    c.tokens != 0 || c.cancelled
  }

  const NEW_CLIENT := Client(0, false)

  function Cancel(c: Client): Client {
    c.(cancelled := true)
  }

  function TakeToken(c: Client): Client {
    if c.cancelled then c else c.(tokens := c.tokens - 1)
  }

  function TakeUpdate(c: Client, update: int): Client {
    c.(tokens := update)
  }

  /** The first of these states in which a waiting call goes on. */
  function FirstReady(states: seq<Client>): (k: nat)
    ensures k <= |states| && (k < |states| ==> states[k].tokens != 0 || states[k].cancelled)
    ensures forall i :: 0 <= i < k ==> states[i].tokens == 0 && !states[i].cancelled
  {
    if states == [] || Ready(states[0]) then 0 else 1 + FirstReady(states[1..])
  }

  /** `FlowControlClient`. The control message that a call sends to the manager is its result. */
  class FlowControlClient {
    var tokens: int
    var cancelled: bool

    ghost function Fields(): Client
      reads this
    {
      Client(tokens, cancelled)
    }

    constructor ()
      ensures Fields() == NEW_CLIENT
    {
      tokens, cancelled := 0, false;
    }

    method Start() returns (ack: int)
      ensures ack == Fields().tokens
    {
      ack := tokens;
    }

    method Stop()
      modifies this`cancelled
      ensures Fields() == Cancel(old(Fields())) && cancelled
    {
      cancelled := true;
    }

    /** While no token is there the call waits and lets others change the fields; `wakes` are the
        fields each time it looks again. It goes on in the first state that is ready, and without
        one has not returned. */
    method RemoveToken(wakes: seq<Client>) returns (r: Option<(int, bool)>)
      modifies this
      ensures var states := [old(Fields())] + wakes;
        var k := FirstReady(states);
        if k == |states| then r == None && Fields() == states[k - 1]
        else
          && Fields() == (if states[k].cancelled then states[k] else Client(states[k].tokens - 1, false))
          && r == Some(if states[k].cancelled then (0, false) else (states[k].tokens - 1, true))
    {
      ghost var states := [Fields()] + wakes;
      var i := 0;
      while tokens == 0 && !cancelled
        invariant 0 <= i < |states| && Fields() == states[i]
        invariant forall j :: 0 <= j < i ==> !Ready(states[j])
        decreases |wakes| - i
      {
        if i == |wakes| {
          return None;
        }
        tokens, cancelled := wakes[i].tokens, wakes[i].cancelled;
        i := i + 1;
      }
      if cancelled {
        return Some((0, false));
      }
      tokens := tokens - 1;
      return Some((tokens, true));
    }

    method ProcessFlowControlMessage(update: int) returns (ack: int)
      modifies this`tokens
      ensures Fields() == TakeUpdate(old(Fields()), update) && tokens == ack == update
    {
      tokens := update;
      ack := tokens;
    }
  }
}
