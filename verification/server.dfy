/**
 * The socket `connection` handler of `src/server.js` (lines 70-108) as a pure
 * transition function.  The weak map `socketUsers` becomes the session table
 * `sessions`; the store is the `Db` value of `VoteStore`.  The external user service
 * and the rate limiter are oracles: each event carries the answers they give.  Every
 * transition reports the messages it emits and the calls it makes to the user
 * service, the rate limiter and the store.
 */
module Server {
  import opened Wrappers
  import opened JsValues
  import opened VoteStore
  import opened DerpiApi

  type SocketId = nat

  /** The value `socketUsers` holds for an authenticated socket: `{ id: user.id }`. */
  datatype Binding = Binding(id: JsValue)

  /** The options of the vote rate limiter. */
  datatype LimiterOptions = LimiterOptions(threshold: int, ttl: int)

  /** Ten tokens per user, refilled over 50 seconds. */
  const VoteLimiterOptions := LimiterOptions(10, 50)

  datatype Message =
    | AuthSucceeded(user: JsValue, version: string)   // 'auth' { status: true, user, version }
    | AuthFailed                                      // 'auth' { status: false }
    | ScoresAck(reply: ScoresReply)                   // the 'get-scores' acknowledgement
    | VoteLimitReached(allowVotingIn: int)            // 'vote-limit-reached' { allowVotingIn }
    | RateLimit(options: LimiterOptions)              // 'rate-limit' with the limiter options
    | VoteCastNotice(cast: VoteCast)                  // 'vote-cast'

  /** `socket.emit` (or the acknowledgement callback) versus `io.sockets.emit`. */
  datatype Emit = ToSocket(socket: SocketId, msg: Message) | ToAll(msg: Message)

  /** Calls out of the handler. */
  datatype Call =
    | UserLookup(key: string)
    | Consume(userId: UserId)
    | TokenCheck(userId: UserId)
    | StoreVote(userId: UserId, entityType: string, id: int, direction: string)
    | StoreGetScores(userId: UserId)

  /**
   * Incoming socket events.  `serviceResponse` is what the user service answers,
   * `consumeAllowed` whether the limiter's `consume` resolves, `tokensLeft` what
   * `hasTokenSync` returns afterwards.
   */
  datatype Event =
    | Auth(socket: SocketId, apiKey: JsValue, serviceResponse: JsValue)
    | GetScoresRequest(socket: SocketId, entities: JsValue)
    | VoteRequest(socket: SocketId, entityType: string, id: int, direction: string,
                  consumeAllowed: bool, tokensLeft: bool)
    | Disconnect(socket: SocketId)

  datatype State = State(sessions: map<SocketId, Binding>, db: Db)

  datatype Transition = Transition(state: State, emits: seq<Emit>, calls: seq<Call>)

  /** The guard of 'get-scores' and 'vote': the socket has a binding whose id is truthy; the caller acts as that id. */
  function Caller(sessions: map<SocketId, Binding>, socket: SocketId): (r: Option<UserId>)
    ensures r.Some? <==> socket in sessions && Truthy(sessions[socket].id)
    ensures r.Some? ==> r.value == sessions[socket].id
  {
    if socket in sessions && Truthy(sessions[socket].id) then Some(sessions[socket].id) else None
  }

  /** 'auth': check the key; bind `{ id: user.id }` and reply `status: true`, or reply `status: false`. */
  function OnAuth(st: State, socket: SocketId, apiKey: JsValue, serviceResponse: JsValue, version: string)
    : (r: Transition)
    ensures r.state.db == st.db
    ensures forall s :: s != socket ==> (s in r.state.sessions <==> s in st.sessions)
    ensures forall s :: s != socket && s in st.sessions ==> r.state.sessions[s] == st.sessions[s]
    ensures !KeyGuardPasses(apiKey) ==> r == Transition(st, [ToSocket(socket, AuthFailed)], [])
    ensures KeyGuardPasses(apiKey) && IsObject(serviceResponse) ==>
              r.state.sessions == st.sessions[socket := Binding(Get(serviceResponse, "id"))] &&
              r.emits == [ToSocket(socket, AuthSucceeded(serviceResponse, version))] &&
              r.calls == [UserLookup(apiKey.s)]
    ensures KeyGuardPasses(apiKey) && !IsObject(serviceResponse) ==>
              r == Transition(st, [], [UserLookup(apiKey.s)])
  {
    var check := CheckApiKey(apiKey, serviceResponse);
    var calls := if check.fetched.Some? then [UserLookup(check.fetched.value)] else [];
    match check.outcome
    case Resolved(user) =>
      Transition(st.(sessions := st.sessions[socket := Binding(Get(user, "id"))]),
                 [ToSocket(socket, AuthSucceeded(user, version))], calls)
    case Rejected => Transition(st, [ToSocket(socket, AuthFailed)], calls)
    case Unsettled => Transition(st, [], calls)
  }

  /** 'get-scores': for an authenticated socket, acknowledge with the store's scores. */
  function OnGetScores(st: State, socket: SocketId, entities: JsValue): (r: Transition)
    ensures r.state == st
    ensures Caller(st.sessions, socket).None? ==> r.emits == [] && r.calls == []
    ensures Caller(st.sessions, socket).Some? ==> r.calls == [StoreGetScores(Caller(st.sessions, socket).value)]
    ensures r.emits != [] <==>
              Caller(st.sessions, socket).Some? &&
              GetScores(st.db, entities, Caller(st.sessions, socket).value).Some?
    ensures r.emits != [] ==>
              r.emits == [ToSocket(socket, ScoresAck(GetScores(st.db, entities, Caller(st.sessions, socket).value).value))]
  {
    match Caller(st.sessions, socket)
    case None => Transition(st, [], [])
    case Some(userId) =>
      match GetScores(st.db, entities, userId)
      case Some(reply) => Transition(st, [ToSocket(socket, ScoresAck(reply))], [StoreGetScores(userId)])
      case None => Transition(st, [], [StoreGetScores(userId)])
  }

  /**
   * What follows the store's answer to a vote.  A resolved vote checks the caller's
   * remaining tokens, warns the caller when none is left and broadcasts 'vote-cast' to
   * every socket.  A rejected vote emits nothing: the handler has no rejection path.
   */
  function AfterStoreVote(st: State, socket: SocketId, userId: UserId, outcome: VoteOutcome, tokensLeft: bool)
    : (r: Transition)
    ensures r.state.sessions == st.sessions
    ensures outcome.Rejected? ==> r == Transition(st, [], [])
    ensures outcome.Cast? ==> r.state.db == outcome.db && r.calls == [TokenCheck(userId)]
    ensures outcome.Cast? ==> |r.emits| > 0 && r.emits[|r.emits| - 1] == ToAll(VoteCastNotice(outcome.cast))
    ensures ToSocket(socket, VoteLimitReached(VoteLimiterOptions.ttl)) in r.emits <==> outcome.Cast? && !tokensLeft
    ensures forall e :: e in r.emits ==>
              (e.ToSocket? && e.socket == socket) || (outcome.Cast? && e == ToAll(VoteCastNotice(outcome.cast)))
  {
    match outcome
    case Rejected => Transition(st, [], [])
    case Cast(db', cast) =>
      var broadcast := ToAll(VoteCastNotice(cast));
      var warning := ToSocket(socket, VoteLimitReached(VoteLimiterOptions.ttl));
      var emits := if tokensLeft then [broadcast] else [warning, broadcast];
      Transition(st.(db := db'), emits, [TokenCheck(userId)])
  }

  /**
   * 'vote': for an authenticated socket, consume a rate-limit token; if it is denied,
   * send the caller 'rate-limit' with the limiter options and do not touch the store;
   * otherwise vote and continue with `AfterStoreVote`.
   */
  function OnVote(st: State, socket: SocketId, entityType: string, id: int, direction: string,
                  consumeAllowed: bool, tokensLeft: bool): (r: Transition)
    ensures r.state.sessions == st.sessions
    ensures Caller(st.sessions, socket).None? ==> r == Transition(st, [], [])
    ensures !consumeAllowed ==> r.state == st
    ensures !consumeAllowed && Caller(st.sessions, socket).Some? ==>
              r.emits == [ToSocket(socket, RateLimit(VoteLimiterOptions))] &&
              r.calls == [Consume(Caller(st.sessions, socket).value)]
    ensures consumeAllowed && Caller(st.sessions, socket).Some? ==>
              var userId := Caller(st.sessions, socket).value;
              var after := AfterStoreVote(st, socket, userId, Vote(st.db, userId, entityType, id, direction), tokensLeft);
              r == Transition(after.state, after.emits, [Consume(userId), StoreVote(userId, entityType, id, direction)] + after.calls)
  {
    match Caller(st.sessions, socket)
    case None => Transition(st, [], [])
    case Some(userId) =>
      if !consumeAllowed then
        Transition(st, [ToSocket(socket, RateLimit(VoteLimiterOptions))], [Consume(userId)])
      else
        var after := AfterStoreVote(st, socket, userId, Vote(st.db, userId, entityType, id, direction), tokensLeft);
        Transition(after.state, after.emits, [Consume(userId), StoreVote(userId, entityType, id, direction)] + after.calls)
  }

  /** 'disconnect': drop the socket's binding; the store and the limiter are not touched. */
  function OnDisconnect(st: State, socket: SocketId): (r: Transition)
    ensures r.state.db == st.db
    ensures r.state.sessions.Keys == st.sessions.Keys - {socket}
    ensures forall s :: s in r.state.sessions ==> r.state.sessions[s] == st.sessions[s]
    ensures r.emits == [] && r.calls == []
  {
    Transition(st.(sessions := st.sessions - {socket}), [], [])
  }

  /** One event handled to completion. */
  function Step(st: State, e: Event, version: string): Transition
  {
    match e
    case Auth(socket, apiKey, response) => OnAuth(st, socket, apiKey, response, version)
    case GetScoresRequest(socket, entities) => OnGetScores(st, socket, entities)
    case VoteRequest(socket, t, i, dir, allowed, left) => OnVote(st, socket, t, i, dir, allowed, left)
    case Disconnect(socket) => OnDisconnect(st, socket)
  }
}
