/**
 * The decision logic of `WaConnect(phoneNumber, attempt = 0)`.
 *
 * One call loads the session's state through the registry, opens a socket and then takes one of
 * two paths. With unregistered credentials it checks the number against the known country-code
 * prefixes and either throws or, after a settle delay, requests a pairing code; on that path no
 * connection, message or error handler is ever attached. With registered credentials it attaches
 * those handlers and returns the socket. Each handler's reaction to an event is given here as an
 * `Action` value; the delayed re-invocations of `WaConnect` become `Reconnect(n)` and
 * `ClearAndRepair` instead of real timers and recursion.
 */
module Connection {
  import opened Wrappers
  import opened Phone
  import PairingCode
  import Dispatch
  import opened Registry

  /** `lastDisconnect.error.output.statusCode` of a close that the credentials were rejected with. */
  const LoggedOut := 401
  /** The `attempt` below which an error event still schedules a reconnect. */
  const MaxAttempts := 5
  /** The message of the error thrown for an unregistered number without a known prefix. */
  const InvalidNumberMessage :=
    "Invalid phone number. Enter the phone number with your country code, e.g., +628XXXXXXXX"

  /** A socket after `WaConnect` set it up: awaiting its pairing code (only `creds.update` is
      handled), or listening with every handler attached and the `attempt` they capture. */
  datatype Connection = Pairing(number: string) | Listening(number: string, attempt: nat)

  /** What a call of `WaConnect` comes to before any event arrives: the thrown invalid-number
      error with its message, or a socket set up on one of the two paths. */
  datatype Start = InvalidNumber(message: string) | Started(conn: Connection)

  /** Why the promise of the pairing path is rejected. */
  datatype PairingFailure = RequestFailed | Unformattable(error: PairingCode.FormatError)

  /** The `connection` field of a `connection.update` event. */
  datatype ConnectionState = Open | Close | Other

  datatype Event =
    | CredsUpdate
      /** `lastDisconnect` is `None` when the event carries none; its payload is the optional
          status code found under it. */
    | ConnectionUpdate(connection: ConnectionState, lastDisconnect: Option<Option<int>>)
    | MessagesUpsert(messages: seq<Dispatch.Message>)
    | SocketError

  /** A handler's reaction. `Reconnect(n)` is `WaConnect(phoneNumber, n)` after 5000 ms;
      `ClearAndRepair` clears the session and awaits `WaConnect(phoneNumber)` at once;
      `ClearSession` only clears; `Fault` is an exception thrown inside the handler. */
  datatype Action =
    | Nothing
    | SaveCreds
    | Reconnect(attempt: nat)
    | ClearAndRepair
    | ClearSession
    | Respond(to: string, text: string, quoted: Dispatch.Message)
    | Fault

  /** Some known prefix starts the sanitised number (`Object.keys(PHONENUMBER_MCC).some(...)`). */
  predicate HasKnownPrefix(number: string, prefixes: set<string>) {
    exists v :: v in prefixes && v <= number
  }

  /** The path `WaConnect` takes for the sanitised number once the credentials are loaded. Only
      unregistered credentials can be refused; a socket always belongs to the number it was opened
      for; and only registered credentials get the listening handlers, with the caller's attempt. */
  function Begin(number: string, attempt: nat, registered: bool, prefixes: set<string>): (r: Start)
    ensures r.InvalidNumber? ==> !registered && r.message == InvalidNumberMessage
    ensures r.Started? ==> r.conn.number == number
    ensures r.Started? && r.conn.Listening? ==> registered && r.conn.attempt == attempt
    ensures registered ==> r.Started? && r.conn.Listening?
  {
    if !registered then
      if !HasKnownPrefix(number, prefixes) then InvalidNumber(InvalidNumberMessage)
      else Started(Pairing(number))
    else Started(Listening(number, attempt))
  }

  /** The settle-delay callback of the pairing path: the engine's reply (`None` when
      `requestPairingCode` rejects) is formatted and resolves or rejects the promise. */
  function CompletePairing(reply: Option<string>): (r: Result<string, PairingFailure>)
    ensures reply.None? ==> r == Err(RequestFailed)
    ensures r.Ok? ==> reply.Some? && |r.value| > 0
  {
    match reply
    case None => Err(RequestFailed)
    case Some(code) =>
      match PairingCode.Format(code)
      case Ok(shown) => Ok(shown)
      case Err(e) => Err(Unformattable(e))
  }

  /** The reaction of the socket's handlers to one event. The handlers stay attached, so a
      socket reacts to every event it receives, not just to the first. Only a listening socket
      ever reconnects or clears; a reconnect always uses the socket's own attempt plus one; a
      reconnect after an error never uses an attempt above 5, however many errors arrive; 401
      on close is the only way to `ClearAndRepair`, and an error at attempt 5 or more the only
      way to `ClearSession`. */
  function Handle(c: Connection, e: Event): (r: Action)
    ensures c.Pairing? ==> r == SaveCreds || r == Nothing
    ensures r.Reconnect? ==> c.Listening? && r.attempt == c.attempt + 1
    ensures e == SocketError && r.Reconnect? ==> c.attempt < MaxAttempts && r.attempt <= MaxAttempts
    ensures r == ClearAndRepair ==> c.Listening? && e == ConnectionUpdate(Close, Some(Some(LoggedOut)))
    ensures r == ClearSession ==> c.Listening? && e == SocketError && c.attempt >= MaxAttempts
  {
    match c
    case Pairing(_) => if e.CredsUpdate? then SaveCreds else Nothing
    case Listening(_, attempt) =>
      match e
      case CredsUpdate => SaveCreds
      case ConnectionUpdate(Close, None) => Fault
      case ConnectionUpdate(Close, Some(status)) =>
        if status != Some(LoggedOut) then Reconnect(attempt + 1) else ClearAndRepair
      case ConnectionUpdate(_, _) => Nothing
      case MessagesUpsert(messages) =>
        (match Dispatch.OnMessages(messages)
         case Ignore => Nothing
         case Reply(to, text, quoted) => Respond(to, text, quoted)
         case Fault => Fault)
      case SocketError => if attempt < MaxAttempts then Reconnect(attempt + 1) else ClearSession
  }

  /** One line of descent of registered connections for one number: each socket contributes
      exactly one event of `endings`, and a `Reconnect(n)` opens the next socket with attempt `n`.
      The line stops at the first reaction that is not a reconnect. This follows one path through
      the source's behaviour: a real socket keeps reacting to later events after it has scheduled
      a reconnect, and so can start several successors (see `OneSocketManyErrors`). */
  function Retries(number: string, attempt: nat, endings: seq<Event>): (actions: seq<Action>)
    ensures |actions| <= |endings|
    ensures endings != [] ==> |actions| > 0
    decreases |endings|
  {
    if endings == [] then []
    else
      match Handle(Listening(number, attempt), endings[0])
      case Reconnect(next) => [Reconnect(next)] + Retries(number, next, endings[1..])
      case other => [other]
  }

  function CountReconnects(actions: seq<Action>): nat {
    if actions == [] then 0
    else (if actions[0].Reconnect? then 1 else 0) + CountReconnects(actions[1..])
  }

  /** A close that is not a credential rejection: no disconnect status, or one other than 401. */
  predicate IsTransientClose(e: Event) {
    e.ConnectionUpdate? && e.connection == Close && e.lastDisconnect.Some? &&
    e.lastDisconnect.value != Some(LoggedOut)
  }

  // ---------------------------------------------------------------- properties

  /** With unregistered credentials and no known prefix, the call fails with the invalid-number
      error and no pairing code is ever requested; with a known prefix it awaits its code; with
      registered credentials the prefixes play no part. */
  lemma BeginPaths(number: string, attempt: nat, registered: bool, prefixes: set<string>)
    ensures Begin(number, attempt, registered, prefixes).InvalidNumber? <==>
      !registered && forall v :: v in prefixes ==> !(v <= number)
    ensures Begin(number, attempt, registered, prefixes).Started? &&
            Begin(number, attempt, registered, prefixes).conn.Pairing? <==>
      !registered && exists v :: v in prefixes && v <= number
    ensures registered ==> Begin(number, attempt, registered, prefixes) == Started(Listening(number, attempt))
  {
  }

  /** A socket on the pairing path never reconnects or clears anything, whatever happens to it:
      its only handler saves credentials. */
  lemma PairingNeverReconnects(number: string, e: Event)
    ensures Handle(Pairing(number), e) in {Nothing, SaveCreds}
  {
  }

  /** A close reconnects exactly when its status is not 401, a missing status included, and the
      reconnect uses `attempt + 1`; a 401 clears the session and re-pairs. */
  lemma CloseClassification(number: string, attempt: nat, status: Option<int>)
    ensures Handle(Listening(number, attempt), ConnectionUpdate(Close, Some(status))).Reconnect? <==>
      status != Some(401)
    ensures status != Some(401) ==>
      Handle(Listening(number, attempt), ConnectionUpdate(Close, Some(status))) == Reconnect(attempt + 1)
    ensures status == Some(401) ==>
      Handle(Listening(number, attempt), ConnectionUpdate(Close, Some(status))) == ClearAndRepair
    ensures Handle(Listening(number, attempt), ConnectionUpdate(Close, Some(None))) == Reconnect(attempt + 1)
  {
  }

  /** An open leaves the attempt counter as it is: nothing happens. */
  lemma OpenChangesNothing(number: string, attempt: nat, last: Option<Option<int>>)
    ensures Handle(Listening(number, attempt), ConnectionUpdate(Open, last)) == Nothing
  {
  }

  /** Every reconnect of a chain from `attempt` uses the attempt number one above the previous
      connection's, so the `k`-th action, if it is a reconnect, is `Reconnect(attempt + k + 1)`. */
  lemma {:induction false} RetriesCount(number: string, attempt: nat, endings: seq<Event>, k: nat)
    requires k < |Retries(number, attempt, endings)|
    ensures Retries(number, attempt, endings)[k].Reconnect? ==>
      Retries(number, attempt, endings)[k] == Reconnect(attempt + k + 1)
    ensures k + 1 < |Retries(number, attempt, endings)| ==> Retries(number, attempt, endings)[k].Reconnect?
    decreases |endings|
  {
    var first := Handle(Listening(number, attempt), endings[0]);
    if first.Reconnect? {
      assert first == Reconnect(attempt + 1);
      if k > 0 {
        RetriesCount(number, attempt + 1, endings[1..], k - 1);
      }
    }
  }

  /** Along one line of descent, error events alone schedule at most `5 - attempt` reconnects: a
      chain of errors from
      `attempt <= 5` is `Reconnect(attempt + 1), ..., Reconnect(5), ClearSession` as far as the
      events go. */
  lemma {:induction false} ErrorChainBounded(number: string, attempt: nat, endings: seq<Event>)
    requires attempt <= MaxAttempts
    requires forall i :: 0 <= i < |endings| ==> endings[i] == SocketError
    ensures CountReconnects(Retries(number, attempt, endings)) <= MaxAttempts - attempt
    ensures |endings| > MaxAttempts - attempt ==>
      |Retries(number, attempt, endings)| == MaxAttempts - attempt + 1 &&
      Retries(number, attempt, endings)[MaxAttempts - attempt] == ClearSession
    decreases |endings|
  {
    if endings != [] {
      ErrorStep(number, attempt, endings);
      if attempt < MaxAttempts {
        var rest := Retries(number, attempt + 1, endings[1..]);
        assert forall i :: 0 <= i < |endings[1..]| ==> endings[1..][i] == endings[i + 1];
        ErrorChainBounded(number, attempt + 1, endings[1..]);
        assert ([Reconnect(attempt + 1)] + rest)[1..] == rest;
      }
    }
  }

  /** One link of an error chain. */
  lemma ErrorStep(number: string, attempt: nat, endings: seq<Event>)
    requires endings != [] && endings[0] == SocketError
    ensures Retries(number, attempt, endings) ==
      if attempt < MaxAttempts then [Reconnect(attempt + 1)] + Retries(number, attempt + 1, endings[1..])
      else [ClearSession]
  {
  }

  /** Whatever events a listening socket receives, each error it answers with a reconnect asks
      for an attempt of at most 5: the source bounds the attempt number, not how many
      reconnects are scheduled. A corollary of `Handle`'s contract, stated over a whole stream of
      events for one socket. */
  lemma ErrorReconnectCapped(number: string, attempt: nat, events: seq<Event>)
    ensures forall i ::
      (0 <= i < |events| && events[i] == SocketError && Handle(Listening(number, attempt), events[i]).Reconnect?) ==>
      attempt < MaxAttempts && Handle(Listening(number, attempt), events[i]).attempt <= MaxAttempts
  {
  }

  /** A single socket below the cap answers each of `k` error events with its own reconnect at the
      same attempt, so one socket can schedule any number of follow-up connections. A corollary of
      `Handle`, which keeps no state between events. */
  lemma OneSocketManyErrors(number: string, attempt: nat, k: nat)
    requires attempt < MaxAttempts
    ensures seq(k, _ => Handle(Listening(number, attempt), SocketError)) == seq(k, _ => Reconnect(attempt + 1))
  {
  }

  /** From a fresh connect, six consecutive error events give exactly five reconnects and then
      clear the session. */
  lemma ErrorChainFromZero(number: string)
    ensures Retries(number, 0, seq(6, _ => SocketError)) ==
      [Reconnect(1), Reconnect(2), Reconnect(3), Reconnect(4), Reconnect(5), ClearSession]
  {
    var endings := seq(6, _ => SocketError);
    ErrorChainBounded(number, 0, endings);
    var actions := Retries(number, 0, endings);
    forall k | 0 <= k < 5 ensures actions[k] == Reconnect(k + 1) {
      RetriesCount(number, 0, endings, k);
    }
  }

  /** Transient closes are never capped: every one of them reconnects, with attempts rising
      without bound. */
  lemma {:induction false} CloseChainUnbounded(number: string, attempt: nat, endings: seq<Event>)
    requires forall i :: 0 <= i < |endings| ==> IsTransientClose(endings[i])
    ensures |Retries(number, attempt, endings)| == |endings|
    ensures forall k :: 0 <= k < |endings| ==> Retries(number, attempt, endings)[k] == Reconnect(attempt + k + 1)
    decreases |endings|
  {
    if endings != [] {
      CloseChainUnbounded(number, attempt + 1, endings[1..]);
      var rest := Retries(number, attempt + 1, endings[1..]);
      assert Retries(number, attempt, endings) == [Reconnect(attempt + 1)] + rest;
      forall k | 0 < k < |endings|
        ensures Retries(number, attempt, endings)[k] == Reconnect(attempt + k + 1)
      {
        assert Retries(number, attempt, endings)[k] == rest[k - 1];
      }
    }
  }

  /** The counter is shared by both kinds of reconnect and never reset: after `k` transient closes
      from `attempt`, an error event gives up exactly when `attempt + k >= 5`. */
  lemma ClosesThenError(number: string, attempt: nat, closes: seq<Event>)
    requires forall i :: 0 <= i < |closes| ==> IsTransientClose(closes[i])
    ensures
      var actions := Retries(number, attempt, closes + [SocketError]);
      |actions| == |closes| + 1 &&
      (actions[|closes|] == ClearSession <==> attempt + |closes| >= MaxAttempts)
  {
    ClosesThenErrorAux(number, attempt, closes);
  }

  lemma {:induction false} ClosesThenErrorAux(number: string, attempt: nat, closes: seq<Event>)
    requires forall i :: 0 <= i < |closes| ==> IsTransientClose(closes[i])
    ensures
      var actions := Retries(number, attempt, closes + [SocketError]);
      |actions| == |closes| + 1 &&
      actions[|closes|] == Handle(Listening(number, attempt + |closes|), SocketError)
    decreases |closes|
  {
    if closes == [] {
      assert closes + [SocketError] == [SocketError];
    } else {
      var endings := closes + [SocketError];
      assert endings[0] == closes[0];
      assert endings[1..] == closes[1..] + [SocketError];
      ClosesThenErrorAux(number, attempt + 1, closes[1..]);
      var rest := Retries(number, attempt + 1, endings[1..]);
      assert Retries(number, attempt, endings) == [Reconnect(attempt + 1)] + rest;
      assert Retries(number, attempt, endings)[|closes|] == rest[|closes| - 1];
    }
  }

  /** The promise of the pairing path resolves exactly when the engine answered with a code that
      has a character outside the line terminators; the resolved value lost no character but the
      dashes. */
  lemma PairingResolves(reply: Option<string>)
    ensures CompletePairing(reply).Ok? <==> reply.Some? && PairingCode.Visible(reply.value) != ""
    ensures CompletePairing(reply).Ok? && PairingCode.NoDashes(reply.value) ==>
      PairingCode.Strip(CompletePairing(reply).value, PairingCode.Dash) == PairingCode.Visible(reply.value)
  {
    if reply.Some? {
      if PairingCode.NoDashes(reply.value) && PairingCode.Visible(reply.value) != "" {
        PairingCode.FormatRoundTrip(reply.value);
      }
    }
  }

  // ---------------------------------------------------------------- effects on the registry

  /** `WaConnect(phoneNumber, attempt)` up to the first event: the session is looked up (and
      created on first access) BEFORE the prefix check, so even a rejected number leaves an entry
      and a partition behind. `registered` is the flag of the credentials stored in the number's
      partition. When that partition did not exist, `createSession` makes it empty and the loaded
      credentials are unregistered whatever `registered` says, so the call never listens. */
  method WaConnect(m: SessionManager, phoneNumber: string, attempt: nat, registered: bool, prefixes: set<string>)
      returns (start: Start, auth: AuthHandle)
    requires m.Valid()
    modifies m
    ensures m.Valid()
    ensures start == Begin(Sanitize(phoneNumber), attempt,
                           registered && Sanitize(phoneNumber) in old(m.partitions), prefixes)
    ensures Sanitize(phoneNumber) !in old(m.partitions) ==>
      start.InvalidNumber? || start == Started(Pairing(Sanitize(phoneNumber)))
    ensures Sanitize(phoneNumber) in m.sessions && auth == m.sessions[Sanitize(phoneNumber)]
    ensures Sanitize(phoneNumber) in old(m.sessions) ==>
      auth == old(m.sessions)[Sanitize(phoneNumber)] &&
      m.sessions == old(m.sessions) && m.partitions == old(m.partitions) && m.created == old(m.created)
    ensures Sanitize(phoneNumber) !in old(m.sessions) ==>
      auth == AuthHandle(Sanitize(phoneNumber), old(m.created)) &&
      m.sessions == old(m.sessions)[Sanitize(phoneNumber) := auth] &&
      m.partitions == old(m.partitions) + {Sanitize(phoneNumber)} &&
      m.created == old(m.created) + 1
  {
    var number := Sanitize(phoneNumber);
    var stored := number in m.partitions;
    auth := m.GetSession(phoneNumber);
    if !(registered && stored) {
      if !HasKnownPrefix(number, prefixes) {
        start := InvalidNumber(InvalidNumberMessage);
        return;
      }
      start := Started(Pairing(number));
      return;
    }
    start := Started(Listening(number, attempt));
  }

  /** Carries out a handler's reaction on the registry: a reconnect when its timer fires, the
      two clears at once inside the handler. `registered` is the flag of the credentials stored
      in the number's partition, and `prefixes` are those the follow-up call sees. A reconnect keeps the session and its stored state when the entry is
      still there; when it was cleared in the meantime (the same socket's error handler can give
      up after its close handler scheduled the reconnect), the entry is created again from an
      empty partition, so the reconnect is on the pairing path and never listens. A 401 repair
      drops the entry and its partition first, and so always starts over on the pairing path,
      with attempt 0. Giving up after errors only clears. */
  method Perform(m: SessionManager, phoneNumber: string, action: Action, registered: bool, prefixes: set<string>)
      returns (next: Option<Start>)
    requires m.Valid()
    modifies m
    ensures m.Valid()
    ensures action.Reconnect? ==>
      next == Some(Begin(Sanitize(phoneNumber), action.attempt,
                         registered && Sanitize(phoneNumber) in old(m.partitions), prefixes)) &&
      Sanitize(phoneNumber) in m.sessions &&
      (Sanitize(phoneNumber) in old(m.sessions) ==>
        m.sessions == old(m.sessions) && m.partitions == old(m.partitions) && m.created == old(m.created)) &&
      (Sanitize(phoneNumber) !in old(m.sessions) ==>
        m.sessions == old(m.sessions)[Sanitize(phoneNumber) := AuthHandle(Sanitize(phoneNumber), old(m.created))] &&
        m.partitions == old(m.partitions) + {Sanitize(phoneNumber)} &&
        m.created == old(m.created) + 1) &&
      (Sanitize(phoneNumber) !in old(m.partitions) ==>
        next.value.InvalidNumber? || next.value == Started(Pairing(Sanitize(phoneNumber))))
    ensures action == ClearAndRepair ==>
      next == Some(Begin(Sanitize(phoneNumber), 0, false, prefixes)) &&
      (next.value.InvalidNumber? || next.value == Started(Pairing(Sanitize(phoneNumber)))) &&
      m.sessions == old(m.sessions)[Sanitize(phoneNumber) := AuthHandle(Sanitize(phoneNumber), old(m.created))] &&
      m.partitions == old(m.partitions) + {Sanitize(phoneNumber)} &&
      m.created == old(m.created) + 1 &&
      forall k :: k in old(m.sessions) ==> old(m.sessions)[k] != m.sessions[Sanitize(phoneNumber)]
    ensures action == ClearSession ==>
      next == None &&
      m.sessions == old(m.sessions) - {Sanitize(phoneNumber)} &&
      m.partitions == old(m.partitions) - {Sanitize(phoneNumber)} &&
      m.created == old(m.created)
    ensures !action.Reconnect? && action != ClearAndRepair && action != ClearSession ==>
      next == None && m.sessions == old(m.sessions) && m.partitions == old(m.partitions) &&
      m.created == old(m.created)
  {
    match action
    case Reconnect(n) =>
      var start, _ := WaConnect(m, phoneNumber, n, registered, prefixes);
      next := Some(start);
    case ClearAndRepair =>
      m.ClearSession(phoneNumber);
      var start, _ := WaConnect(m, phoneNumber, 0, registered, prefixes);
      next := Some(start);
    case ClearSession =>
      m.ClearSession(phoneNumber);
      next := None;
    case _ =>
      next := None;
  }

  /** A socket's close handler schedules a reconnect and its error handler then gives up and
      clears the session before the timer fires: the reconnect never listens, whatever the flag
      the partition once held. */
  method ClearedReconnectNeverListens(m: SessionManager, phoneNumber: string, n: nat,
                                      registered: bool, prefixes: set<string>)
      returns (next: Option<Start>)
    requires m.Valid()
    modifies m
    ensures m.Valid()
    ensures next.Some? && (next.value.InvalidNumber? || next.value == Started(Pairing(Sanitize(phoneNumber))))
    ensures m.partitions == old(m.partitions) + {Sanitize(phoneNumber)}
    ensures m.sessions == old(m.sessions)[Sanitize(phoneNumber) := AuthHandle(Sanitize(phoneNumber), old(m.created))]
  {
    var _ := Perform(m, phoneNumber, ClearSession, registered, prefixes);
    next := Perform(m, phoneNumber, Reconnect(n), registered, prefixes);
  }
}
