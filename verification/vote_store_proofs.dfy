/**
 * Properties of the vote state engine: the score-equals-sum and one-vote-per-user
 * invariants survive every `Vote`, a repeated vote changes nothing, a vote touches no
 * other user's record and no other entity, and `GetScores` reports exactly the stored
 * scores and the caller's own votes.
 */
module VoteStoreProofs {
  import opened Wrappers
  import opened JsValues
  import opened EntityKeys
  import opened VoteStore

  // ---------------------------------------------------------------------------
  // Score algebra

  lemma {:induction false} ScoreConcat(a: seq<VoteDoc>, b: seq<VoteDoc>, entityType: string, id: int)
    ensures Score(a + b, entityType, id) == Score(a, entityType, id) + Score(b, entityType, id)
    decreases |b|
  {
    if |b| == 0 {
      assert a + b == a;
    } else {
      var b' := b[..|b| - 1];
      assert (a + b)[..|a + b| - 1] == a + b';
      ScoreConcat(a, b', entityType, id);
    }
  }

  /** The score splits around any one document. */
  lemma ScoreAround(votes: seq<VoteDoc>, k: nat, entityType: string, id: int)
    requires k < |votes|
    ensures Score(votes, entityType, id) ==
            Score(votes[..k], entityType, id) + Contribution(votes[k], entityType, id) + Score(votes[k + 1..], entityType, id)
  {
    assert votes == votes[..k] + [votes[k]] + votes[k + 1..];
    ScoreConcat(votes[..k] + [votes[k]], votes[k + 1..], entityType, id);
    ScoreConcat(votes[..k], [votes[k]], entityType, id);
    assert [votes[k]][..0] == [];
  }

  /** An entity nobody voted on scores 0. */
  lemma {:induction false} ScoreWithoutVotesIsZero(votes: seq<VoteDoc>, entityType: string, id: int)
    requires forall d :: d in votes ==> !OfEntity(d, entityType, id)
    ensures Score(votes, entityType, id) == 0
    decreases |votes|
  {
    if |votes| > 0 {
      var init := votes[..|votes| - 1];
      assert votes[|votes| - 1] in votes;
      assert forall d :: d in init ==> d in votes;
      ScoreWithoutVotesIsZero(init, entityType, id);
    }
  }

  // ---------------------------------------------------------------------------
  // First matches

  lemma LocateIsFirstMatch(votes: seq<VoteDoc>, userId: UserId, entityType: string, id: int, k: nat)
    requires k < |votes| && IsVoteOf(votes[k], userId, entityType, id)
    requires forall j :: 0 <= j < k ==> !IsVoteOf(votes[j], userId, entityType, id)
    ensures Locate(votes, userId, entityType, id) == Some(k)
  {
  }

  lemma LocateScoreIsFirstMatch(scores: seq<ScoreDoc>, entityType: string, id: int, k: nat)
    requires k < |scores| && scores[k].entityType == entityType && scores[k].id == id
    requires forall j :: 0 <= j < k ==> !(scores[j].entityType == entityType && scores[j].id == id)
    ensures LocateScore(scores, entityType, id) == Some(k)
  {
  }

  // ---------------------------------------------------------------------------
  // The mutation step

  /**
   * The mutation changes any entity's score by exactly what the replaced document
   * took away and the new one adds: recomputing equals patching incrementally.
   */
  lemma MutateScore(votes: seq<VoteDoc>, userId: UserId, entityType: string, id: int, value: Option<int>,
                    otherType: string, otherId: int)
    requires value.Some? || GetUserVote(votes, userId, entityType, id).Some?
    ensures var prev := GetUserVote(votes, userId, entityType, id);
            var r := Mutate(votes, userId, entityType, id, value);
            Score(r.0, otherType, otherId) ==
              Score(votes, otherType, otherId)
              - (if prev.Some? then Contribution(prev.value, otherType, otherId) else 0)
              + (if value.Some? then Contribution(r.1, otherType, otherId) else 0)
  {
    var r := Mutate(votes, userId, entityType, id, value);
    match Locate(votes, userId, entityType, id)
    case Some(k) =>
      ScoreAround(votes, k, otherType, otherId);
      if value.None? {
        ScoreConcat(votes[..k], votes[k + 1..], otherType, otherId);
      } else {
        ScoreAround(r.0, k, otherType, otherId);
        assert r.0[..k] == votes[..k];
        assert r.0[k + 1..] == votes[k + 1..];
      }
    case None =>
      ScoreConcat(votes, [r.1], otherType, otherId);
      assert [r.1][..0] == [];
  }

  /** Documents of other (userId, type, id) keys are neither added nor removed. */
  lemma MutateFrame(votes: seq<VoteDoc>, userId: UserId, entityType: string, id: int, value: Option<int>)
    requires value.Some? || GetUserVote(votes, userId, entityType, id).Some?
    ensures var r := Mutate(votes, userId, entityType, id, value);
            forall d :: !IsVoteOf(d, userId, entityType, id) ==> (d in r.0 <==> d in votes)
  {
    var r := Mutate(votes, userId, entityType, id, value);
    match Locate(votes, userId, entityType, id)
    case Some(k) =>
      forall d | !IsVoteOf(d, userId, entityType, id)
        ensures d in r.0 <==> d in votes
      {
        if d in votes {
          var j :| 0 <= j < |votes| && votes[j] == d;
          if j < k { assert r.0[j] == d; }
          else if value.None? { assert r.0[j - 1] == d; }
          else { assert r.0[j] == d; }
        }
        if d in r.0 {
          var j :| 0 <= j < |r.0| && r.0[j] == d;
          if j < k || value.Some? { assert votes[j] == d; }
          else { assert votes[j + 1] == d; }
        }
      }
    case None =>
  }

  lemma MutateKeepsUniqueVotes(votes: seq<VoteDoc>, userId: UserId, entityType: string, id: int, value: Option<int>)
    requires value.Some? || GetUserVote(votes, userId, entityType, id).Some?
    requires UniqueVotes(votes)
    ensures UniqueVotes(Mutate(votes, userId, entityType, id, value).0)
  {
    var r := Mutate(votes, userId, entityType, id, value).0;
    match Locate(votes, userId, entityType, id)
    case Some(k) =>
      if value.None? {
        forall j, l | 0 <= j < l < |r| ensures !SameVoteKey(r[j], r[l]) {
          var j' := if j < k then j else j + 1;
          var l' := if l < k then l else l + 1;
          assert r[j] == votes[j'] && r[l] == votes[l'];
        }
      } else {
        forall j, l | 0 <= j < l < |r| ensures !SameVoteKey(r[j], r[l]) {
          assert SameVoteKey(r[j], r[l]) <==> SameVoteKey(votes[j], votes[l]);
        }
      }
    case None =>
      forall j, l | 0 <= j < l < |r| ensures !SameVoteKey(r[j], r[l]) {
        if l == |votes| {
          assert !IsVoteOf(votes[j], userId, entityType, id);
        } else {
          assert r[j] == votes[j] && r[l] == votes[l];
        }
      }
  }

  lemma MutateKeepsUnitValues(votes: seq<VoteDoc>, userId: UserId, entityType: string, id: int, value: Option<int>)
    requires value.Some? || GetUserVote(votes, userId, entityType, id).Some?
    requires value == None || value == Some(1) || value == Some(-1)
    requires UnitValues(votes)
    ensures UnitValues(Mutate(votes, userId, entityType, id, value).0)
  {
    var r := Mutate(votes, userId, entityType, id, value).0;
    match Locate(votes, userId, entityType, id)
    case Some(k) =>
      if value.None? {
        forall j | 0 <= j < |r| ensures r[j].value == Some(1) || r[j].value == Some(-1) {
          if j >= k { assert r[j] == votes[j + 1]; }
        }
      }
    case None =>
  }

  // ---------------------------------------------------------------------------
  // The score upsert

  lemma PresentScoreIsLocated(scores: seq<ScoreDoc>, sd: ScoreDoc)
    requires sd in scores
    ensures LocateScore(scores, sd.entityType, sd.id).Some?
    ensures UniqueScores(scores) ==> scores[LocateScore(scores, sd.entityType, sd.id).value] == sd
  {
    var x :| 0 <= x < |scores| && scores[x] == sd;
  }

  lemma UpdateScoreKeepsUniqueScores(db: Db, entityType: string, id: int)
    requires UniqueScores(db.scores)
    ensures UniqueScores(UpdateScore(db, entityType, id).0.scores)
  {
    var s' := UpdateScore(db, entityType, id).0.scores;
    match LocateScore(db.scores, entityType, id)
    case Some(k) =>
      forall j, l | 0 <= j < l < |s'|
        ensures !(s'[j].entityType == s'[l].entityType && s'[j].id == s'[l].id)
      {
        assert s'[j].entityType == db.scores[j].entityType && s'[j].id == db.scores[j].id;
        assert s'[l].entityType == db.scores[l].entityType && s'[l].id == db.scores[l].id;
      }
    case None =>
      forall j, l | 0 <= j < l < |s'|
        ensures !(s'[j].entityType == s'[l].entityType && s'[j].id == s'[l].id)
      {
        if l < |db.scores| {
          assert s'[j] == db.scores[j] && s'[l] == db.scores[l];
        }
      }
  }

  // ---------------------------------------------------------------------------
  // vote

  /** After the upsert, every score document holds its entity's recomputed sum. */
  lemma UpsertKeepsScoresAreSums(db: Db, userId: UserId, entityType: string, id: int, value: Option<int>)
    requires value.Some? || GetUserVote(db.votes, userId, entityType, id).Some?
    requires ScoresAreSums(db) && UniqueScores(db.scores)
    ensures var m := Mutate(db.votes, userId, entityType, id, value);
            ScoresAreSums(UpdateScore(Db(m.0, db.scores), entityType, id).0)
  {
    var m := Mutate(db.votes, userId, entityType, id, value);
    var u := UpdateScore(Db(m.0, db.scores), entityType, id);
    var s' := u.0.scores;
    UpdateScoreKeepsUniqueScores(Db(m.0, db.scores), entityType, id);
    var x :| 0 <= x < |s'| && s'[x] == u.1;
    forall j | 0 <= j < |s'|
      ensures s'[j].score == Score(m.0, s'[j].entityType, s'[j].id)
    {
      var sd := s'[j];
      if sd.entityType == entityType && sd.id == id {
        assert j == x;
      } else {
        assert sd in db.scores;
        var y :| 0 <= y < |db.scores| && db.scores[y] == sd;
        MutateScore(db.votes, userId, entityType, id, value, sd.entityType, sd.id);
      }
    }
  }

  /** After the upsert, every entity with a vote still has a score document. */
  lemma UpsertKeepsVotedEntitiesScored(db: Db, userId: UserId, entityType: string, id: int, value: Option<int>)
    requires value.Some? || GetUserVote(db.votes, userId, entityType, id).Some?
    requires VotedEntitiesScored(db)
    ensures var m := Mutate(db.votes, userId, entityType, id, value);
            VotedEntitiesScored(UpdateScore(Db(m.0, db.scores), entityType, id).0)
  {
    var m := Mutate(db.votes, userId, entityType, id, value);
    var u := UpdateScore(Db(m.0, db.scores), entityType, id);
    var s' := u.0.scores;
    MutateFrame(db.votes, userId, entityType, id, value);
    forall j | 0 <= j < |m.0|
      ensures LocateScore(s', m.0[j].entityType, m.0[j].id).Some?
    {
      var e := m.0[j];
      if e.entityType == entityType && e.id == id {
        PresentScoreIsLocated(s', u.1);
      } else {
        assert e in db.votes;
        var y :| 0 <= y < |db.votes| && db.votes[y] == e;
        var z := LocateScore(db.scores, e.entityType, e.id).value;
        assert db.scores[z] in s';
        PresentScoreIsLocated(s', db.scores[z]);
      }
    }
  }

  /** A `Vote` that resolves is the mutation followed by the score upsert. */
  lemma VoteSteps(db: Db, userId: UserId, entityType: string, id: int, direction: string)
    ensures var r := Vote(db, userId, entityType, id, direction);
            var value := DirectionValue(direction);
            r.Cast? ==>
              (value.Some? || GetUserVote(db.votes, userId, entityType, id).Some?) &&
              r.db == UpdateScore(Db(Mutate(db.votes, userId, entityType, id, value).0, db.scores), entityType, id).0
  {
  }

  /**
   * Every `Vote` that resolves leaves the store valid: one vote per user and entity,
   * unit values, one score document per entity, each the sum of its entity's votes.
   */
  lemma VotePreservesValid(db: Db, userId: UserId, entityType: string, id: int, direction: string)
    requires Valid(db)
    ensures var r := Vote(db, userId, entityType, id, direction);
            r.Cast? ==> Valid(r.db)
  {
    var r := Vote(db, userId, entityType, id, direction);
    VoteSteps(db, userId, entityType, id, direction);
    if r.Cast? {
      var value := DirectionValue(direction);
      var m := Mutate(db.votes, userId, entityType, id, value);
      MutateKeepsUniqueVotes(db.votes, userId, entityType, id, value);
      MutateKeepsUnitValues(db.votes, userId, entityType, id, value);
      UpdateScoreKeepsUniqueScores(Db(m.0, db.scores), entityType, id);
      UpsertKeepsScoresAreSums(db, userId, entityType, id, value);
      UpsertKeepsVotedEntitiesScored(db, userId, entityType, id, value);
    }
  }

  /** Writing the same up/down value twice leaves the vote documents as the first write did. */
  lemma MutateTwice(votes: seq<VoteDoc>, userId: UserId, entityType: string, id: int, value: Option<int>)
    requires value.Some?
    ensures var votes1 := Mutate(votes, userId, entityType, id, value).0;
            Mutate(votes1, userId, entityType, id, value).0 == votes1
  {
    var votes1 := Mutate(votes, userId, entityType, id, value).0;
    var k: nat :| k < |votes1| && votes1[k] == VoteDoc(userId, entityType, id, value) &&
                  forall j :: 0 <= j < k ==> !IsVoteOf(votes1[j], userId, entityType, id) by {
      match Locate(votes, userId, entityType, id)
      case Some(k0) =>
        assert votes1[k0] == VoteDoc(userId, entityType, id, value);
      case None =>
        assert votes1[|votes|] == VoteDoc(userId, entityType, id, value);
    }
    LocateIsFirstMatch(votes1, userId, entityType, id, k);
  }

  /** Recomputing a score that was just recomputed changes nothing. */
  lemma UpdateScoreIdempotent(db: Db, entityType: string, id: int)
    ensures var db1 := UpdateScore(db, entityType, id).0;
            UpdateScore(db1, entityType, id) == UpdateScore(db, entityType, id)
  {
    var u1 := UpdateScore(db, entityType, id);
    var s1 := u1.0.scores;
    var x: nat :| x < |s1| && s1[x] == u1.1 &&
                  forall j :: 0 <= j < x ==> !(s1[j].entityType == entityType && s1[j].id == id) by {
      match LocateScore(db.scores, entityType, id)
      case Some(x0) =>
        assert s1[x0] == u1.1;
      case None =>
        assert s1[|db.scores|] == u1.1;
    }
    LocateScoreIsFirstMatch(s1, entityType, id, x);
    assert s1[x := u1.1] == s1;
  }

  /**
   * Voting the same direction twice in a row: the second vote changes nothing and
   * broadcasts exactly what the first one did (no double counting).
   */
  lemma VoteTwiceIsIdempotent(db: Db, userId: UserId, entityType: string, id: int, direction: string)
    requires direction == "up" || direction == "down"
    ensures Vote(db, userId, entityType, id, direction).Cast?
    ensures var r1 := Vote(db, userId, entityType, id, direction);
            Vote(r1.db, userId, entityType, id, direction) == r1
  {
    var value := DirectionValue(direction);
    var r1 := Vote(db, userId, entityType, id, direction);
    var m1 := Mutate(db.votes, userId, entityType, id, value);
    var u1 := UpdateScore(Db(m1.0, db.scores), entityType, id);
    VoteSteps(db, userId, entityType, id, direction);
    assert r1.db == u1.0;
    MutateTwice(db.votes, userId, entityType, id, value);
    UpdateScoreIdempotent(Db(m1.0, db.scores), entityType, id);
    var m2 := Mutate(r1.db.votes, userId, entityType, id, value);
    assert m2.0 == m1.0 && m2.1 == m1.1;
    assert Db(m2.0, r1.db.scores) == u1.0;
  }

  /**
   * The recomputed score equals the old score patched by the change of this one
   * user's vote: minus the value it replaced (if any), plus the value cast (if any).
   */
  lemma VoteScoreIsPatchedScore(db: Db, userId: UserId, entityType: string, id: int, direction: string)
    ensures var r := Vote(db, userId, entityType, id, direction);
            var prev := GetUserVote(db.votes, userId, entityType, id);
            r.Cast? ==>
              Score(r.db.votes, entityType, id) ==
                Score(db.votes, entityType, id)
                - (if prev.Some? then NumericValue(prev.value.value) else 0)
                + NumericValue(DirectionValue(direction))
  {
    var r := Vote(db, userId, entityType, id, direction);
    VoteSteps(db, userId, entityType, id, direction);
    if r.Cast? {
      MutateScore(db.votes, userId, entityType, id, DirectionValue(direction), entityType, id);
    }
  }

  /**
   * A vote touches nothing but the caller's record for the entity and the entity's
   * score document: every other user's record and every other entity's score stay.
   */
  lemma VoteFrame(db: Db, userId: UserId, entityType: string, id: int, direction: string)
    ensures var r := Vote(db, userId, entityType, id, direction);
            r.Cast? ==>
              (forall d :: !IsVoteOf(d, userId, entityType, id) ==> (d in r.db.votes <==> d in db.votes)) &&
              (forall t, i :: !(t == entityType && i == id) ==> Score(r.db.votes, t, i) == Score(db.votes, t, i)) &&
              (forall sd: ScoreDoc :: !(sd.entityType == entityType && sd.id == id) ==> (sd in r.db.scores <==> sd in db.scores))
  {
    var r := Vote(db, userId, entityType, id, direction);
    VoteSteps(db, userId, entityType, id, direction);
    if r.Cast? {
      var value := DirectionValue(direction);
      MutateFrame(db.votes, userId, entityType, id, value);
      forall t, i | !(t == entityType && i == id)
        ensures Score(r.db.votes, t, i) == Score(db.votes, t, i)
      {
        MutateScore(db.votes, userId, entityType, id, value, t, i);
      }
    }
  }

  /**
   * With one vote per user and entity, after a resolved vote the caller has a record
   * for the entity exactly when they voted up or down, holding +1 or -1 accordingly.
   */
  lemma VoteLeavesUserVote(db: Db, userId: UserId, entityType: string, id: int, direction: string)
    requires UniqueVotes(db.votes)
    ensures var r := Vote(db, userId, entityType, id, direction);
            r.Cast? ==>
              GetUserVote(r.db.votes, userId, entityType, id) ==
                if direction == "up" then Some(VoteDoc(userId, entityType, id, Some(1)))
                else if direction == "down" then Some(VoteDoc(userId, entityType, id, Some(-1)))
                else None
  {
    var r := Vote(db, userId, entityType, id, direction);
    VoteSteps(db, userId, entityType, id, direction);
    if r.Cast? {
      var value := DirectionValue(direction);
      var votes1 := Mutate(db.votes, userId, entityType, id, value).0;
      if value.Some? {
        MutateTwice(db.votes, userId, entityType, id, value);
      } else {
        var k := Locate(db.votes, userId, entityType, id).value;
        forall j | 0 <= j < |votes1| ensures !IsVoteOf(votes1[j], userId, entityType, id) {
          if j < k {
            assert votes1[j] == db.votes[j];
          } else {
            assert votes1[j] == db.votes[j + 1];
            assert !SameVoteKey(db.votes[k], db.votes[j + 1]);
          }
        }
      }
    }
  }

  /**
   * Changing or repeating an existing up/down vote rewrites the user's record in place:
   * the collection keeps its size, that one record takes the new value, and every other
   * document stays where it was.
   */
  lemma VoteChangeRewritesInPlace(db: Db, userId: UserId, entityType: string, id: int, direction: string)
    requires direction == "up" || direction == "down"
    requires GetUserVote(db.votes, userId, entityType, id).Some?
    ensures var r := Vote(db, userId, entityType, id, direction);
            var k := Locate(db.votes, userId, entityType, id).value;
            r.Cast? &&
            |r.db.votes| == |db.votes| &&
            r.db.votes[k] == VoteDoc(userId, entityType, id, DirectionValue(direction)) &&
            forall j :: 0 <= j < |db.votes| && j != k ==> r.db.votes[j] == db.votes[j]
  {
    VoteSteps(db, userId, entityType, id, direction);
  }

  /** With one vote per user and entity, `getUserVote` finds a stored vote document itself. */
  lemma PresentVoteIsFound(votes: seq<VoteDoc>, d: VoteDoc)
    requires UniqueVotes(votes)
    requires d in votes
    ensures GetUserVote(votes, d.userId, d.entityType, d.id) == Some(d)
  {
    var k := Locate(votes, d.userId, d.entityType, d.id).value;
    var y :| 0 <= y < |votes| && votes[y] == d;
    assert !(k < y) && !(y < k) by {
      if k < y { assert SameVoteKey(votes[k], votes[y]); }
      if y < k { assert IsVoteOf(votes[y], d.userId, d.entityType, d.id); }
    }
  }

  /** A vote by one user leaves another user's vote on the same or any entity as it was. */
  lemma VoteKeepsOtherUsersVotes(db: Db, userId: UserId, entityType: string, id: int, direction: string,
                                 other: UserId, t: string, i: int)
    requires Valid(db)
    requires other != userId
    ensures var r := Vote(db, userId, entityType, id, direction);
            r.Cast? ==> GetUserVote(r.db.votes, other, t, i) == GetUserVote(db.votes, other, t, i)
  {
    var r := Vote(db, userId, entityType, id, direction);
    if r.Cast? {
      VoteFrame(db, userId, entityType, id, direction);
      VotePreservesValid(db, userId, entityType, id, direction);
      var before := GetUserVote(db.votes, other, t, i);
      if before.Some? {
        assert !IsVoteOf(before.value, userId, entityType, id);
        PresentVoteIsFound(r.db.votes, before.value);
      } else {
        forall d | d in r.db.votes ensures !IsVoteOf(d, other, t, i) {
          if IsVoteOf(d, other, t, i) {
            // d is not the caller's vote, so the frame keeps it in the old store
            assert false;
          }
        }
      }
    }
  }

  // ---------------------------------------------------------------------------
  // getScores

  ghost predicate DistinctKeys<D>(docs: seq<D>, key: D -> string)
  {
    forall j, l :: 0 <= j < l < |docs| ==> key(docs[j]) != key(docs[l])
  }

  /** Filtering keeps documents whose keys were pairwise distinct among the kept ones distinct. */
  lemma {:induction false} FilterKeepsKeysDistinct<T(!new)>(s: seq<T>, p: T -> bool, key: T -> string)
    requires forall j, l :: 0 <= j < l < |s| && p(s[j]) && p(s[l]) ==> key(s[j]) != key(s[l])
    ensures DistinctKeys(Filter(s, p), key)
    decreases |s|
  {
    if |s| > 0 {
      var rest := Filter(s[1..], p);
      forall j, l | 0 <= j < l < |s[1..]| && p(s[1..][j]) && p(s[1..][l])
        ensures key(s[1..][j]) != key(s[1..][l])
      {
        assert s[1..][j] == s[j + 1] && s[1..][l] == s[l + 1];
      }
      FilterKeepsKeysDistinct(s[1..], p, key);
      if p(s[0]) {
        forall x | x in rest ensures key(x) != key(s[0]) {
          assert x in s[1..] && p(x);
          var l :| 0 <= l < |s[1..]| && s[1..][l] == x;
          assert s[l + 1] == x;
        }
        var f := [s[0]] + rest;
        assert Filter(s, p) == f;
        assert f[0] == s[0];
        forall j, l | 0 <= j < l < |f| ensures key(f[j]) != key(f[l]) {
          if j == 0 {
            assert f[l] == rest[l - 1];
            assert f[l] in rest;
            assert key(f[l]) != key(s[0]);
            assert f[j] == s[0];
          } else {
            assert f[j] == rest[j - 1] && f[l] == rest[l - 1];
            assert key(rest[j - 1]) != key(rest[l - 1]);
          }
        }
      }
    }
  }

  /** In a sequence without repeated keys, every document is the last one with its key. */
  lemma DistinctKeysAreLast<D>(docs: seq<D>, key: D -> string, j: nat)
    requires j < |docs|
    requires DistinctKeys(docs, key)
    ensures forall l :: j < l < |docs| ==> key(docs[l]) != key(docs[j])
  {
  }

  lemma TransformScoresOfDistinct(f: seq<ScoreDoc>)
    requires DistinctKeys(f, ScoreKey)
    ensures forall sd :: sd in f ==> TransformScores(f)[ScoreKey(sd)] == sd.score
  {
    forall sd | sd in f ensures TransformScores(f)[ScoreKey(sd)] == sd.score {
      var j :| 0 <= j < |f| && f[j] == sd;
      DistinctKeysAreLast(f, ScoreKey, j);
    }
  }

  lemma TransformUserVotesOfDistinct(f: seq<VoteDoc>)
    requires DistinctKeys(f, VoteKey)
    ensures forall d :: d in f ==> TransformUserVotes(f)[VoteKey(d)] == DirectionOf(d.value)
  {
    forall d | d in f ensures TransformUserVotes(f)[VoteKey(d)] == DirectionOf(d.value) {
      var j :| 0 <= j < |f| && f[j] == d;
      DistinctKeysAreLast(f, VoteKey, j);
    }
  }

  /** One score document per entity means one per `type_id` key among those requested. */
  lemma RequestedScoresDistinct(scores: seq<ScoreDoc>, entities: JsValue)
    requires UniqueScores(scores)
    requires !entities.JsUndefined? && !entities.JsNull?
    ensures DistinctKeys(Filter(scores, ScoreDocRequested(entities)), ScoreKey)
  {
    var p := ScoreDocRequested(entities);
    forall j, l | 0 <= j < l < |scores| && p(scores[j]) && p(scores[l])
      ensures ScoreKey(scores[j]) != ScoreKey(scores[l])
    {
      if ScoreKey(scores[j]) == ScoreKey(scores[l]) {
        EntityKeyInjective(scores[j].entityType, scores[j].id, scores[l].entityType, scores[l].id);
      }
    }
    FilterKeepsKeysDistinct(scores, p, ScoreKey);
  }

  /** One vote per user and entity means one per `type_id` key among the caller's own. */
  lemma OwnVotesDistinct(votes: seq<VoteDoc>, entities: JsValue, userId: UserId)
    requires UniqueVotes(votes)
    requires !entities.JsUndefined? && !entities.JsNull?
    ensures DistinctKeys(Filter(votes, OwnVoteRequested(entities, userId)), VoteKey)
  {
    var p := OwnVoteRequested(entities, userId);
    forall j, l | 0 <= j < l < |votes| && p(votes[j]) && p(votes[l])
      ensures VoteKey(votes[j]) != VoteKey(votes[l])
    {
      if VoteKey(votes[j]) == VoteKey(votes[l]) {
        EntityKeyInjective(votes[j].entityType, votes[j].id, votes[l].entityType, votes[l].id);
      }
    }
    FilterKeepsKeysDistinct(votes, p, VoteKey);
  }

  /**
   * `GetScores` reports, for every requested entity with a score document, that
   * document's score, which on a valid store is the sum of the entity's votes.
   */
  lemma GetScoresReportsStoredScores(db: Db, entities: JsValue, userId: UserId)
    requires Valid(db)
    requires !entities.JsUndefined? && !entities.JsNull?
    ensures var r := GetScores(db, entities, userId).value;
            forall sd :: sd in db.scores && Requested(entities, sd.entityType, sd.id) ==>
              r.scores[ScoreKey(sd)] == sd.score == Score(db.votes, sd.entityType, sd.id)
  {
    var f := Filter(db.scores, ScoreDocRequested(entities));
    assert GetScores(db, entities, userId).value.scores == TransformScores(f);
    RequestedScoresDistinct(db.scores, entities);
    TransformScoresOfDistinct(f);
    forall sd | sd in db.scores && Requested(entities, sd.entityType, sd.id)
      ensures sd in f && sd.score == Score(db.votes, sd.entityType, sd.id)
    {
      assert ScoreDocRequested(entities)(sd);
      var y :| 0 <= y < |db.scores| && db.scores[y] == sd;
    }
  }

  /**
   * With one vote per user and entity, `GetScores` reports the direction of each of
   * the caller's votes on the requested entities (its key set, stated by `GetScores`
   * itself, holds those entities and no others).
   */
  lemma GetScoresReportsOwnVotes(db: Db, entities: JsValue, userId: UserId)
    requires UniqueVotes(db.votes)
    requires !entities.JsUndefined? && !entities.JsNull?
    ensures var r := GetScores(db, entities, userId).value;
            forall d :: d in db.votes && d.userId == userId && Requested(entities, d.entityType, d.id) ==>
              r.userVotes[VoteKey(d)] == DirectionOf(d.value)
  {
    var f := Filter(db.votes, OwnVoteRequested(entities, userId));
    assert GetScores(db, entities, userId).value.userVotes == TransformUserVotes(f);
    OwnVotesDistinct(db.votes, entities, userId);
    TransformUserVotesOfDistinct(f);
    forall d | d in db.votes && d.userId == userId && Requested(entities, d.entityType, d.id)
      ensures d in f
    {
      assert OwnVoteRequested(entities, userId)(d);
    }
  }
}
