/**
 * A worked run of the store on post 42: user 1 votes up, user 2 votes down, user 1
 * changes to down, user 1 retracts, and user 2 then asks for the scores of post 42.
 * Each step is stated on the concrete store documents it produces and the
 * 'vote-cast' payload it broadcasts.
 */
module Scenario {
  import opened Wrappers
  import opened JsValues
  import opened EntityKeys
  import opened VoteStore
  import opened VoteStoreProofs

  const UserA: UserId := JsNumber(1)
  const UserB: UserId := JsNumber(2)

  /** `{ userId, type: 'post', id: 42, value }`. */
  function PostVote(userId: UserId, value: int): VoteDoc
  {
    VoteDoc(userId, "post", 42, Some(value))
  }

  /** `{ type: 'post', id: 42, score }`. */
  function PostScore(score: int): ScoreDoc
  {
    ScoreDoc("post", 42, score)
  }

  /** The 'vote-cast' payload for post 42. */
  function PostCast(score: int, userId: UserId, direction: Option<Direction>): VoteCast
  {
    VoteCast(map["post_42" := score], map["post_42" := BroadcastVote(userId, direction)])
  }

  /** `{ post: [42] }`. */
  function PostQuery(): JsValue
  {
    JsObject(map["post" := JsArray([JsNumber(42)])])
  }

  lemma Post42Key()
    ensures EntityKey("post", 42) == "post_42"
  {
    assert NatToString(4) == "4";
    assert NatToString(42) == NatToString(4) + [DigitChar(2)] == "42";
  }

  lemma FirstUpVote()
    ensures Vote(Db([], []), UserA, "post", 42, "up") ==
            Cast(Db([PostVote(UserA, 1)], [PostScore(1)]), PostCast(1, UserA, Some(Up)))
  {
    Post42Key();
    var votes := [PostVote(UserA, 1)];
    assert Score(votes, "post", 42) == 1 by {
      assert votes[..0] == [];
    }
  }

  lemma SecondUserDownVote()
    ensures Vote(Db([PostVote(UserA, 1)], [PostScore(1)]), UserB, "post", 42, "down") ==
            Cast(Db([PostVote(UserA, 1), PostVote(UserB, -1)], [PostScore(0)]), PostCast(0, UserB, Some(Down)))
  {
    var db := Db([PostVote(UserA, 1)], [PostScore(1)]);
    var votes := [PostVote(UserA, 1), PostVote(UserB, -1)];
    Post42Key();
    VoteSteps(db, UserB, "post", 42, "down");
    assert db.votes[1..] == [];
    assert Locate(db.votes, UserB, "post", 42) == None;
    assert Mutate(db.votes, UserB, "post", 42, Some(-1)).0 == votes;
    assert Score(votes, "post", 42) == 0 by {
      assert votes[..1] == [PostVote(UserA, 1)];
      assert votes[..1][..0] == [];
      assert Score(votes[..1], "post", 42) == 1;
      assert Contribution(votes[1], "post", 42) == -1;
    }
    assert LocateScore(db.scores, "post", 42) == Some(0);
    assert UpdateScore(Db(votes, db.scores), "post", 42).0 == Db(votes, [PostScore(0)]);
  }

  lemma FirstUserChangesToDown()
    ensures Vote(Db([PostVote(UserA, 1), PostVote(UserB, -1)], [PostScore(0)]), UserA, "post", 42, "down") ==
            Cast(Db([PostVote(UserA, -1), PostVote(UserB, -1)], [PostScore(-2)]), PostCast(-2, UserA, Some(Down)))
  {
    var db := Db([PostVote(UserA, 1), PostVote(UserB, -1)], [PostScore(0)]);
    var votes := [PostVote(UserA, -1), PostVote(UserB, -1)];
    Post42Key();
    VoteSteps(db, UserA, "post", 42, "down");
    assert Locate(db.votes, UserA, "post", 42) == Some(0);
    assert Mutate(db.votes, UserA, "post", 42, Some(-1)).0 == votes;
    assert Score(votes, "post", 42) == -2 by {
      assert votes[..1] == [PostVote(UserA, -1)];
      assert votes[..1][..0] == [];
      assert Score(votes[..1], "post", 42) == -1;
      assert Contribution(votes[1], "post", 42) == -1;
    }
    assert LocateScore(db.scores, "post", 42) == Some(0);
    assert UpdateScore(Db(votes, db.scores), "post", 42).0 == Db(votes, [PostScore(-2)]);
  }

  lemma RetractIsNoDirection()
    ensures DirectionValue("retract") == None && RequestedDirection("retract") == None
  {
    assert "retract"[0] != "up"[0] && "retract"[0] != "down"[0];
  }

  /** A resolved vote is determined by the store it leaves and the entity's new score. */
  lemma CastOutcome(db: Db, userId: UserId, entityType: string, id: int, direction: string, db': Db)
    requires Vote(db, userId, entityType, id, direction).Cast?
    requires Vote(db, userId, entityType, id, direction).db == db'
    ensures Vote(db, userId, entityType, id, direction) ==
            Cast(db', VoteCast(map[EntityKey(entityType, id) := Score(db'.votes, entityType, id)],
                               map[EntityKey(entityType, id) := BroadcastVote(userId, RequestedDirection(direction))]))
  {
  }

  lemma RetractStore()
    ensures var r := Vote(Db([PostVote(UserA, -1), PostVote(UserB, -1)], [PostScore(-2)]), UserA, "post", 42, "retract");
            r.Cast? && r.db == Db([PostVote(UserB, -1)], [PostScore(-1)])
  {
    var db := Db([PostVote(UserA, -1), PostVote(UserB, -1)], [PostScore(-2)]);
    var votes := [PostVote(UserB, -1)];
    VoteSteps(db, UserA, "post", 42, "retract");
    RetractIsNoDirection();
    assert Locate(db.votes, UserA, "post", 42) == Some(0);
    assert Mutate(db.votes, UserA, "post", 42, None).0 == votes by {
      assert RemoveAt(db.votes, 0) == votes;
    }
    assert Score(votes, "post", 42) == -1 by {
      assert votes[..0] == [];
    }
    assert LocateScore(db.scores, "post", 42) == Some(0);
    assert UpdateScore(Db(votes, db.scores), "post", 42).0 == Db(votes, [PostScore(-1)]);
  }

  lemma FirstUserRetracts()
    ensures Vote(Db([PostVote(UserA, -1), PostVote(UserB, -1)], [PostScore(-2)]), UserA, "post", 42, "retract") ==
            Cast(Db([PostVote(UserB, -1)], [PostScore(-1)]), PostCast(-1, UserA, None))
  {
    var db' := Db([PostVote(UserB, -1)], [PostScore(-1)]);
    RetractStore();
    RetractIsNoDirection();
    Post42Key();
    CastOutcome(Db([PostVote(UserA, -1), PostVote(UserB, -1)], [PostScore(-2)]), UserA, "post", 42, "retract", db');
    assert Score(db'.votes, "post", 42) == -1 by {
      assert db'.votes[..0] == [];
    }
  }

  lemma SecondUserReadsScores()
    ensures GetScores(Db([PostVote(UserB, -1)], [PostScore(-1)]), PostQuery(), UserB) ==
            Some(ScoresReply(map["post_42" := -1], map["post_42" := Down]))
  {
    Post42Key();
    assert Requested(PostQuery(), "post", 42);
    assert Filter([PostScore(-1)], ScoreDocRequested(PostQuery())) == [PostScore(-1)];
    assert Filter([PostVote(UserB, -1)], OwnVoteRequested(PostQuery(), UserB)) == [PostVote(UserB, -1)];
  }
}
