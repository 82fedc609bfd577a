/**
 * Properties of the connection handler over single events and over runs of events:
 * the store stays valid, a socket that never authenticates is never addressed, and a
 * 'vote-cast' broadcast only ever carries the acting user's own vote.
 */
module ServerProofs {
  import opened Wrappers
  import opened JsValues
  import opened EntityKeys
  import opened VoteStore
  import opened VoteStoreProofs
  import opened Server

  /** Events handled one after another; emits and calls are collected in order. */
  function Run(st: State, events: seq<Event>, version: string): Transition
    decreases |events|
  {
    if |events| == 0 then Transition(st, [], [])
    else
      var first := Step(st, events[0], version);
      var rest := Run(first.state, events[1..], version);
      Transition(rest.state, first.emits + rest.emits, first.calls + rest.calls)
  }

  /** Every event leaves a valid store valid. */
  lemma StepPreservesValid(st: State, e: Event, version: string)
    requires Valid(st.db)
    ensures Valid(Step(st, e, version).state.db)
  {
    match e
    case VoteRequest(socket, entityType, id, direction, consumeAllowed, tokensLeft) =>
      var caller := Caller(st.sessions, socket);
      if caller.Some? && consumeAllowed {
        VotePreservesValid(st.db, caller.value, entityType, id, direction);
      }
    case _ =>
  }

  /** Any run of events leaves a valid store valid. */
  lemma {:induction false} RunPreservesValid(st: State, events: seq<Event>, version: string)
    requires Valid(st.db)
    ensures Valid(Run(st, events, version).state.db)
    decreases |events|
  {
    if |events| > 0 {
      StepPreservesValid(st, events[0], version);
      RunPreservesValid(Step(st, events[0], version).state, events[1..], version);
    }
  }

  /** No event on another socket, and no event but 'auth' on this one, binds a socket. */
  lemma StepKeepsSocketUnbound(st: State, e: Event, version: string, socket: SocketId)
    requires Caller(st.sessions, socket).None?
    requires !(e.Auth? && e.socket == socket)
    ensures Caller(Step(st, e, version).state.sessions, socket).None?
    ensures forall m :: m in Step(st, e, version).emits ==> !(m.ToSocket? && m.socket == socket)
  {
    match e
    case Auth(s, apiKey, response) =>
      assert s != socket;
    case GetScoresRequest(s, entities) =>
    case VoteRequest(s, entityType, id, direction, consumeAllowed, tokensLeft) =>
    case Disconnect(s) =>
  }

  /**
   * A socket that is not authenticated and sends no 'auth' stays unauthenticated for
   * the whole run, and no message is ever addressed to it: its score queries and votes
   * are ignored without an answer.  Broadcasts still reach it like every socket.
   */
  lemma {:induction false} UnboundSocketStaysSilent(st: State, events: seq<Event>, version: string, socket: SocketId)
    requires Caller(st.sessions, socket).None?
    requires forall j :: 0 <= j < |events| ==> !(events[j].Auth? && events[j].socket == socket)
    ensures Caller(Run(st, events, version).state.sessions, socket).None?
    ensures forall m :: m in Run(st, events, version).emits ==> !(m.ToSocket? && m.socket == socket)
    decreases |events|
  {
    if |events| > 0 {
      var first := Step(st, events[0], version);
      StepKeepsSocketUnbound(st, events[0], version, socket);
      UnboundSocketStaysSilent(first.state, events[1..], version, socket);
      var rest := Run(first.state, events[1..], version);
      assert Run(st, events, version).emits == first.emits + rest.emits;
    }
  }

  /** The broadcast after a vote carries the voted entity and the acting user only. */
  lemma VoteBroadcastCarriesOnlyTheVoter(st: State, socket: SocketId, entityType: string, id: int, direction: string,
                                         consumeAllowed: bool, tokensLeft: bool)
    ensures forall m :: m in OnVote(st, socket, entityType, id, direction, consumeAllowed, tokensLeft).emits && m.ToAll? ==>
              Caller(st.sessions, socket).Some? &&
              m.msg.VoteCastNotice? &&
              m.msg.cast.userVotes == map[EntityKey(entityType, id) :=
                                            BroadcastVote(Caller(st.sessions, socket).value, RequestedDirection(direction))]
  {
    var caller := Caller(st.sessions, socket);
    var r := OnVote(st, socket, entityType, id, direction, consumeAllowed, tokensLeft);
    if caller.None? || !consumeAllowed {
      assert forall m :: m in r.emits ==> m.ToSocket?;
    } else {
      var v := Vote(st.db, caller.value, entityType, id, direction);
      var after := AfterStoreVote(st, socket, caller.value, v, tokensLeft);
      assert r.emits == after.emits;
      forall m | m in r.emits && m.ToAll?
        ensures m.msg.VoteCastNotice?
        ensures m.msg.cast.userVotes == map[EntityKey(entityType, id) := BroadcastVote(caller.value, RequestedDirection(direction))]
      {
        assert v.Cast? && m == ToAll(VoteCastNotice(v.cast));
      }
    }
  }

  /**
   * The only broadcast is 'vote-cast' after a resolved vote of an authenticated user;
   * it carries the one entity voted on and that user's own vote on it.
   */
  lemma BroadcastCarriesOnlyTheVoter(st: State, e: Event, version: string)
    ensures forall m :: m in Step(st, e, version).emits && m.ToAll? ==>
              e.VoteRequest? && Caller(st.sessions, e.socket).Some? &&
              m.msg.VoteCastNotice? &&
              m.msg.cast.userVotes == map[EntityKey(e.entityType, e.id) :=
                                            BroadcastVote(Caller(st.sessions, e.socket).value, RequestedDirection(e.direction))]
  {
    match e
    case VoteRequest(socket, entityType, id, direction, consumeAllowed, tokensLeft) =>
      VoteBroadcastCarriesOnlyTheVoter(st, socket, entityType, id, direction, consumeAllowed, tokensLeft);
    case Auth(socket, apiKey, response) =>
      assert forall m :: m in Step(st, e, version).emits ==> m.ToSocket?;
    case GetScoresRequest(socket, entities) =>
      assert forall m :: m in Step(st, e, version).emits ==> m.ToSocket?;
    case Disconnect(socket) =>
  }
}
