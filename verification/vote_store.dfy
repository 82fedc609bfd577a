/**
 * The vote state engine of `src/store.js`.
 *
 * The two embedded collections become one immutable value `Db`: `votes` holds the
 * documents `{userId, type, id, value}` and `scores` the documents `{type, id, score}`.
 * Each storage call the source makes (findOne, find, update, upsert, insert, remove)
 * is a pure function over these sequences; a `find` returns the matching documents in
 * collection order, and `findOne`/`update`/`remove` without `multi` act on the first
 * matching document.
 */
module VoteStore {
  import opened Wrappers
  import opened JsValues
  import opened EntityKeys

  /** A user id is whatever the external user service reported as `user.id`. */
  type UserId = JsValue

  /** The entity types `getScores` looks up, in the order it builds its query. */
  const SupportedEntityTypes: seq<string> := ["comment", "post"]

  /** A vote document; a `None` value is JavaScript's `null`. */
  datatype VoteDoc = VoteDoc(userId: UserId, entityType: string, id: int, value: Option<int>)

  /** A score document: the cached aggregate of one entity. */
  datatype ScoreDoc = ScoreDoc(entityType: string, id: int, score: int)

  datatype Db = Db(votes: seq<VoteDoc>, scores: seq<ScoreDoc>)

  datatype Direction = Up | Down

  /** One entry of the broadcast `userVotes` object; `direction: None` is `null`, a retraction. */
  datatype BroadcastVote = BroadcastVote(userId: UserId, direction: Option<Direction>)

  /** The `{ scores, userVotes }` object `vote` resolves with. */
  datatype VoteCast = VoteCast(scores: map<string, int>, userVotes: map<string, BroadcastVote>)

  /** `vote` either resolves (with the new state) or rejects without touching the store. */
  datatype VoteOutcome = Cast(db: Db, cast: VoteCast) | Rejected

  /** The `{ scores, userVotes }` object `getScores` resolves with. */
  datatype ScoresReply = ScoresReply(scores: map<string, int>, userVotes: map<string, Direction>)

  // ---------------------------------------------------------------------------
  // Matching documents

  predicate OfEntity(d: VoteDoc, entityType: string, id: int)
  {
    d.entityType == entityType && d.id == id
  }

  /** `d` matches the query `{ userId, type, id }`. */
  predicate IsVoteOf(d: VoteDoc, userId: UserId, entityType: string, id: int)
  {
    d.userId == userId && d.entityType == entityType && d.id == id
  }

  predicate SameVoteKey(d: VoteDoc, e: VoteDoc)
  {
    IsVoteOf(e, d.userId, d.entityType, d.id)
  }

  /** JavaScript coerces `null` to 0 both in `a + doc.value` and in `doc.value > 0`. */
  function NumericValue(v: Option<int>): int
  {
    if v.Some? then v.value else 0
  }

  /** The amount a document adds to the score of entity (`entityType`, `id`). */
  function Contribution(d: VoteDoc, entityType: string, id: int): int
  {
    if OfEntity(d, entityType, id) then NumericValue(d.value) else 0
  }

  /** The score an entity must have: the sum of `value` over its vote documents. */
  function Score(votes: seq<VoteDoc>, entityType: string, id: int): int
  {
    if |votes| == 0 then 0
    else Score(votes[..|votes| - 1], entityType, id) + Contribution(votes[|votes| - 1], entityType, id)
  }

  /** Index of the first vote document matching `{ userId, type, id }`, as `findOne` picks it. */
  function Locate(votes: seq<VoteDoc>, userId: UserId, entityType: string, id: int): (r: Option<nat>)
    ensures r.Some? ==> r.value < |votes| && IsVoteOf(votes[r.value], userId, entityType, id)
    ensures r.Some? ==> forall j :: 0 <= j < r.value ==> !IsVoteOf(votes[j], userId, entityType, id)
    ensures r.None? ==> forall j :: 0 <= j < |votes| ==> !IsVoteOf(votes[j], userId, entityType, id)
  {
    if |votes| == 0 then None
    else if IsVoteOf(votes[0], userId, entityType, id) then Some(0)
    else
      match Locate(votes[1..], userId, entityType, id)
      case None => None
      case Some(k) => Some(k + 1)
  }

  /** Index of the first score document of an entity, as an upsert on `{ type, id }` picks it. */
  function LocateScore(scores: seq<ScoreDoc>, entityType: string, id: int): (r: Option<nat>)
    ensures r.Some? ==> r.value < |scores| && scores[r.value].entityType == entityType && scores[r.value].id == id
    ensures r.Some? ==> forall j :: 0 <= j < r.value ==> !(scores[j].entityType == entityType && scores[j].id == id)
    ensures r.None? ==> forall j :: 0 <= j < |scores| ==> !(scores[j].entityType == entityType && scores[j].id == id)
  {
    if |scores| == 0 then None
    else if scores[0].entityType == entityType && scores[0].id == id then Some(0)
    else
      match LocateScore(scores[1..], entityType, id)
      case None => None
      case Some(k) => Some(k + 1)
  }

  /** Keeps the documents satisfying `p`, in order: the result of a `find`. */
  function Filter<T(!new)>(s: seq<T>, p: T -> bool): (r: seq<T>)
    ensures |r| <= |s|
    ensures forall x :: x in r <==> x in s && p(x)
  {
    if |s| == 0 then []
    else if p(s[0]) then [s[0]] + Filter(s[1..], p)
    else Filter(s[1..], p)
  }

  function RemoveAt<T>(s: seq<T>, k: nat): (r: seq<T>)
    requires k < |s|
    ensures |r| == |s| - 1
    ensures forall j :: 0 <= j < k ==> r[j] == s[j]
    ensures forall j :: k <= j < |r| ==> r[j] == s[j + 1]
  {
    s[..k] + s[k + 1..]
  }

  // ---------------------------------------------------------------------------
  // What the store keeps true between calls

  /** At most one vote document per (userId, type, id). */
  ghost predicate UniqueVotes(votes: seq<VoteDoc>)
  {
    forall j, l :: 0 <= j < l < |votes| ==> !SameVoteKey(votes[j], votes[l])
  }

  /** Every stored vote value is +1 or -1. */
  ghost predicate UnitValues(votes: seq<VoteDoc>)
  {
    forall j :: 0 <= j < |votes| ==> votes[j].value == Some(1) || votes[j].value == Some(-1)
  }

  /** At most one score document per (type, id). */
  ghost predicate UniqueScores(scores: seq<ScoreDoc>)
  {
    forall j, l :: 0 <= j < l < |scores| ==>
      !(scores[j].entityType == scores[l].entityType && scores[j].id == scores[l].id)
  }

  /** Every cached score is the sum of its entity's current votes. */
  ghost predicate ScoresAreSums(db: Db)
  {
    forall j :: 0 <= j < |db.scores| ==> db.scores[j].score == Score(db.votes, db.scores[j].entityType, db.scores[j].id)
  }

  /** Every entity somebody voted on has a score document. */
  ghost predicate VotedEntitiesScored(db: Db)
  {
    forall j :: 0 <= j < |db.votes| ==> LocateScore(db.scores, db.votes[j].entityType, db.votes[j].id).Some?
  }

  ghost predicate Valid(db: Db)
  {
    UniqueVotes(db.votes) && UnitValues(db.votes) && UniqueScores(db.scores) &&
    ScoresAreSums(db) && VotedEntitiesScored(db)
  }

  // ---------------------------------------------------------------------------
  // calcScore, updateScore, getUserVote

  /** calcScore: `find({type, id})` reduced with `(a, doc) => a + doc.value` from 0. */
  method CalcScore(votes: seq<VoteDoc>, entityType: string, id: int) returns (score: int)
    ensures score == Score(votes, entityType, id)
  {
    score := 0;
    var k := 0;
    while k < |votes|
      invariant 0 <= k <= |votes|
      invariant score == Score(votes[..k], entityType, id)
    {
      if OfEntity(votes[k], entityType, id) {
        score := score + NumericValue(votes[k].value);
      }
      assert votes[..k + 1][..k] == votes[..k];
      k := k + 1;
    }
    assert votes[..|votes|] == votes;
  }

  /**
   * updateScore: recompute the entity's score from all of its votes and upsert
   * `{type, id, score}` on `{type, id}`; resolves with the upserted document.
   */
  function UpdateScore(db: Db, entityType: string, id: int): (r: (Db, ScoreDoc))
    ensures r.1 == ScoreDoc(entityType, id, Score(db.votes, entityType, id))
    ensures r.0.votes == db.votes
    ensures r.1 in r.0.scores
    ensures forall d: ScoreDoc :: !(d.entityType == entityType && d.id == id) ==> (d in r.0.scores <==> d in db.scores)
  {
    var doc := ScoreDoc(entityType, id, Score(db.votes, entityType, id));
    match LocateScore(db.scores, entityType, id)
    case Some(k) =>
      var scores' := db.scores[k := doc];
      assert scores'[k] == doc;
      assert forall d: ScoreDoc :: !(d.entityType == entityType && d.id == id) ==> (d in scores' <==> d in db.scores) by {
        forall d: ScoreDoc | !(d.entityType == entityType && d.id == id)
          ensures d in scores' <==> d in db.scores
        {
          if d in scores' {
            var j :| 0 <= j < |scores'| && scores'[j] == d;
            assert db.scores[j] == d;
          }
          if d in db.scores {
            var j :| 0 <= j < |db.scores| && db.scores[j] == d;
            assert scores'[j] == d;
          }
        }
      }
      (db.(scores := scores'), doc)
    case None => (db.(scores := db.scores + [doc]), doc)
  }

  /** getUserVote: `findOne({userId, type, id})`. */
  function GetUserVote(votes: seq<VoteDoc>, userId: UserId, entityType: string, id: int): (r: Option<VoteDoc>)
    ensures r.Some? ==> r.value in votes && IsVoteOf(r.value, userId, entityType, id)
    ensures r.None? <==> forall d :: d in votes ==> !IsVoteOf(d, userId, entityType, id)
  {
    match Locate(votes, userId, entityType, id)
    case Some(k) => Some(votes[k])
    case None => None
  }

  // ---------------------------------------------------------------------------
  // The transform* helpers

  /**
   * `docs.forEach(doc => obj[key(doc)] = val(doc))` on an empty object: every
   * document's key is present, and a key holds the value of the last document with it
   * (`IndexByLastWins`).
   */
  function IndexBy<D(!new), V>(docs: seq<D>, key: D -> string, val: D -> V): (r: map<string, V>)
    ensures r.Keys == set d | d in docs :: key(d)
    ensures |docs| == 1 ==> r == map[key(docs[0]) := val(docs[0])]
  {
    if |docs| == 0 then map[]
    else
      var init := docs[..|docs| - 1];
      var last := docs[|docs| - 1];
      assert docs == init + [last];
      assert |docs| == 1 ==> init == [];
      assert (set d | d in docs :: key(d)) == (set d | d in init :: key(d)) + {key(last)};
      IndexBy(init, key, val)[key(last) := val(last)]
  }

  /** A document whose key no later document repeats is the one whose value `IndexBy` keeps. */
  lemma {:induction false} IndexByLastWins<D(!new), V>(docs: seq<D>, key: D -> string, val: D -> V, j: nat)
    requires j < |docs|
    requires forall l :: j < l < |docs| ==> key(docs[l]) != key(docs[j])
    ensures IndexBy(docs, key, val)[key(docs[j])] == val(docs[j])
    decreases |docs|
  {
    var init := docs[..|docs| - 1];
    if j < |docs| - 1 {
      assert init[j] == docs[j];
      forall l | j < l < |init| ensures key(init[l]) != key(init[j]) {
        assert init[l] == docs[l];
      }
      IndexByLastWins(init, key, val, j);
      assert key(docs[|docs| - 1]) != key(docs[j]);
    }
  }

  lemma IndexByLastWinsAll<D(!new), V>(docs: seq<D>, key: D -> string, val: D -> V)
    ensures forall j :: 0 <= j < |docs| && (forall l :: j < l < |docs| ==> key(docs[l]) != key(docs[j])) ==>
                          IndexBy(docs, key, val)[key(docs[j])] == val(docs[j])
  {
    forall j | 0 <= j < |docs| && (forall l :: j < l < |docs| ==> key(docs[l]) != key(docs[j])) {
      IndexByLastWins(docs, key, val, j);
    }
  }

  function VoteKey(d: VoteDoc): string
  {
    EntityKey(d.entityType, d.id)
  }

  function ScoreKey(d: ScoreDoc): string
  {
    EntityKey(d.entityType, d.id)
  }

  /** `doc.value > 0 ? 'up' : 'down'` (a `null` value compares as 0). */
  function DirectionOf(value: Option<int>): Direction
  {
    if NumericValue(value) > 0 then Up else Down
  }

  /** `doc.value === null ? null : doc.value > 0 ? 'up' : 'down'`. */
  function BroadcastDirectionOf(value: Option<int>): Option<Direction>
  {
    if value.None? then None else Some(DirectionOf(value))
  }

  /** transformUserVotes: `type_id` to the direction of that vote. */
  function TransformUserVotes(docs: seq<VoteDoc>): (r: map<string, Direction>)
    ensures r.Keys == set d | d in docs :: VoteKey(d)
    ensures forall j :: 0 <= j < |docs| && (forall l :: j < l < |docs| ==> VoteKey(docs[l]) != VoteKey(docs[j])) ==>
                          r[VoteKey(docs[j])] == (if NumericValue(docs[j].value) > 0 then Up else Down)
  {
    var val := (d: VoteDoc) => DirectionOf(d.value);
    IndexByLastWinsAll(docs, VoteKey, val);
    IndexBy(docs, VoteKey, val)
  }

  /** transformBroacastVotes: `type_id` to the voter and their direction, `null` when retracted. */
  function TransformBroadcastVotes(docs: seq<VoteDoc>): (r: map<string, BroadcastVote>)
    ensures r.Keys == set d | d in docs :: VoteKey(d)
    ensures forall j :: 0 <= j < |docs| && (forall l :: j < l < |docs| ==> VoteKey(docs[l]) != VoteKey(docs[j])) ==>
                          r[VoteKey(docs[j])] ==
                          BroadcastVote(docs[j].userId,
                                        if docs[j].value.None? then None
                                        else if docs[j].value.value > 0 then Some(Up) else Some(Down))
  {
    var val := (d: VoteDoc) => BroadcastVote(d.userId, BroadcastDirectionOf(d.value));
    IndexByLastWinsAll(docs, VoteKey, val);
    IndexBy(docs, VoteKey, val)
  }

  /** transformScores: `type_id` to the score. */
  function TransformScores(docs: seq<ScoreDoc>): (r: map<string, int>)
    ensures r.Keys == set d | d in docs :: ScoreKey(d)
    ensures forall j :: 0 <= j < |docs| && (forall l :: j < l < |docs| ==> ScoreKey(docs[l]) != ScoreKey(docs[j])) ==>
                          r[ScoreKey(docs[j])] == docs[j].score
  {
    var val := (d: ScoreDoc) => d.score;
    IndexByLastWinsAll(docs, ScoreKey, val);
    IndexBy(docs, ScoreKey, val)
  }

  // ---------------------------------------------------------------------------
  // vote

  /** The `switch (direction)`: 'up' is +1, 'down' is -1, anything else is a retraction. */
  function DirectionValue(direction: string): Option<int>
  {
    if direction == "up" then Some(1)
    else if direction == "down" then Some(-1)
    else None
  }

  /** The direction announced for a request: `null` for a retraction. */
  function RequestedDirection(direction: string): Option<Direction>
  {
    if direction == "up" then Some(Up)
    else if direction == "down" then Some(Down)
    else None
  }

  /**
   * The exclusive three-way mutation of the vote documents, and the document handed
   * to the broadcast: remove the existing vote, rewrite its value, or insert.
   */
  function Mutate(votes: seq<VoteDoc>, userId: UserId, entityType: string, id: int, value: Option<int>)
    : (r: (seq<VoteDoc>, VoteDoc))
    requires value.Some? || GetUserVote(votes, userId, entityType, id).Some?
    ensures r.1 == VoteDoc(userId, entityType, id, value)
  {
    match Locate(votes, userId, entityType, id)
    case Some(k) =>
      if value.None? then (RemoveAt(votes, k), votes[k].(value := None))
      else (votes[k := votes[k].(value := value)], votes[k].(value := value))
    case None =>
      var doc := VoteDoc(userId, entityType, id, value);
      (votes + [doc], doc)
  }

  /**
   * vote, with its three mutation branches mutually exclusive: remove the user's
   * vote (retract), rewrite its value (existing vote, new direction) or insert a new
   * one (no existing vote).  A retraction with nothing to retract rejects.  The
   * entity's score is then recomputed and upserted, and the broadcast payload built
   * from the score document and the (possibly retracted) vote document.
   *
   * The source's existing-vote branch (store.js lines 141-155) does not return, so
   * the insert at line 157 runs after it too; `VoteStoreAsWritten` models that.
   */
  function Vote(db: Db, userId: UserId, entityType: string, id: int, direction: string): (r: VoteOutcome)
    ensures r.Rejected? <==>
              direction != "up" && direction != "down" &&
              forall d :: d in db.votes ==> !IsVoteOf(d, userId, entityType, id)
    ensures r.Cast? ==> r.cast.scores == map[EntityKey(entityType, id) := Score(r.db.votes, entityType, id)]
    ensures r.Cast? ==> r.cast.userVotes == map[EntityKey(entityType, id) := BroadcastVote(userId, RequestedDirection(direction))]
    ensures r.Cast? ==> ScoreDoc(entityType, id, Score(r.db.votes, entityType, id)) in r.db.scores
  {
    var existing := GetUserVote(db.votes, userId, entityType, id);
    var value := DirectionValue(direction);
    if value.None? && existing.None? then Rejected
    else
      var mutated := Mutate(db.votes, userId, entityType, id, value);
      var updated := UpdateScore(Db(mutated.0, db.scores), entityType, id);
      var key := EntityKey(entityType, id);
      assert TransformScores([updated.1]) == map[key := updated.1.score];
      assert TransformBroadcastVotes([mutated.1]) == map[key := BroadcastVote(userId, RequestedDirection(direction))];
      Cast(updated.0, VoteCast(TransformScores([updated.1]), TransformBroadcastVotes([mutated.1])))
  }

  // ---------------------------------------------------------------------------
  // getScores

  /** `entities[type]`, when it is an array (`_.isArray`). */
  function RequestedIds(entities: JsValue, entityType: string): Option<seq<JsValue>>
    requires !entities.JsUndefined? && !entities.JsNull?
  {
    var v := Get(entities, entityType);
    if v.JsArray? then Some(v.items) else None
  }

  /** Entity (`entityType`, `id`) is matched by one of the `$or` clauses `{ type, id: { $in: ids } }`. */
  predicate Requested(entities: JsValue, entityType: string, id: int)
    requires !entities.JsUndefined? && !entities.JsNull?
  {
    entityType in SupportedEntityTypes &&
    var ids := RequestedIds(entities, entityType);
    ids.Some? && JsNumber(id) in ids.value
  }

  /** The score-document filter `{ $or: [...] }`. */
  function ScoreDocRequested(entities: JsValue): ScoreDoc -> bool
    requires !entities.JsUndefined? && !entities.JsNull?
  {
    (d: ScoreDoc) => Requested(entities, d.entityType, d.id)
  }

  /** The vote-document filter `{ $or: [...], userId }`. */
  function OwnVoteRequested(entities: JsValue, userId: UserId): VoteDoc -> bool
    requires !entities.JsUndefined? && !entities.JsNull?
  {
    (d: VoteDoc) => d.userId == userId && Requested(entities, d.entityType, d.id)
  }

  /**
   * getScores: the score documents and the caller's own vote documents of the
   * requested entities, keyed `type_id`.  Reading `entities[type]` throws when
   * `entities` is undefined or null; the promise then never resolves (`None`).
   */
  function GetScores(db: Db, entities: JsValue, userId: UserId): (r: Option<ScoresReply>)
    ensures r.None? <==> entities.JsUndefined? || entities.JsNull?
    ensures r.Some? ==>
              r.value.scores.Keys ==
              set d | d in db.scores && Requested(entities, d.entityType, d.id) :: ScoreKey(d)
    ensures r.Some? ==>
              r.value.userVotes.Keys ==
              set d | d in db.votes && d.userId == userId && Requested(entities, d.entityType, d.id) :: VoteKey(d)
    ensures r.Some? && (forall t :: t in SupportedEntityTypes ==> RequestedIds(entities, t) in {None, Some([])}) ==>
              r.value == ScoresReply(map[], map[])
  {
    if entities.JsUndefined? || entities.JsNull? then None
    else
      var scoreDocs := Filter(db.scores, ScoreDocRequested(entities));
      var voteDocs := Filter(db.votes, OwnVoteRequested(entities, userId));
      Some(ScoresReply(TransformScores(scoreDocs), TransformUserVotes(voteDocs)))
  }
}
