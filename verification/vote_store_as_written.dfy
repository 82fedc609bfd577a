/**
 * `vote` as `src/store.js` has it at lines 141-161.  The branch for an existing vote
 * (remove it on a retraction, otherwise update it) has no `return`, so the insert of
 * `{ userId, type, id, value }` at line 157 runs after it as well, with
 * `value === null` on a retraction.
 *
 * The store is nedb.  Its `update(query, { value })` has no `$` operator, so it
 * replaces the whole first matching document with `{ value }` (keeping only the
 * internal `_id`); `remove(query)` deletes the first matching document.  A replaced
 * document has no `userId`, `type` or `id` any more, so no query of the store matches
 * it again: it is an orphan.  Only the resulting documents are modelled; which of the
 * two completions resolves the promise first is a scheduling matter.
 *
 * `VoteStore.Vote` is the exclusive three-way version the rest of the model uses.
 */
module VoteStoreAsWritten {
  import opened Wrappers
  import opened JsValues
  import opened VoteStore
  import opened VoteStoreProofs

  /** A document of the votes collection: a vote record, or the `{ value }` an update leaves. */
  datatype StoredVote = Record(doc: VoteDoc) | Orphan(value: Option<int>)

  /** The collection as every query sees it: the vote records in order, without orphans. */
  function Records(stored: seq<StoredVote>): (r: seq<VoteDoc>)
    ensures |r| <= |stored|
    ensures forall d :: d in r <==> Record(d) in stored
  {
    if |stored| == 0 then []
    else
      assert stored == [stored[0]] + stored[1..];
      (if stored[0].Record? then [stored[0].doc] else []) + Records(stored[1..])
  }

  /** `s` matches the query `{ userId, type, id }`. */
  predicate IsRecordOf(s: StoredVote, userId: UserId, entityType: string, id: int)
  {
    s.Record? && IsVoteOf(s.doc, userId, entityType, id)
  }

  /** Index of the first document matching `{ userId, type, id }`: the one `update` or `remove` acts on. */
  function LocateRecord(stored: seq<StoredVote>, userId: UserId, entityType: string, id: int): (r: Option<nat>)
    ensures r.Some? ==> r.value < |stored| && IsRecordOf(stored[r.value], userId, entityType, id)
    ensures r.Some? ==> forall j :: 0 <= j < r.value ==> !IsRecordOf(stored[j], userId, entityType, id)
    ensures r.None? ==> forall j :: 0 <= j < |stored| ==> !IsRecordOf(stored[j], userId, entityType, id)
  {
    if |stored| == 0 then None
    else if IsRecordOf(stored[0], userId, entityType, id) then Some(0)
    else
      match LocateRecord(stored[1..], userId, entityType, id)
      case None => None
      case Some(k) => Some(k + 1)
  }

  /** At most one vote record per (userId, type, id); orphans do not count. */
  ghost predicate OneRecordEach(stored: seq<StoredVote>)
  {
    forall j, l :: 0 <= j < l < |stored| && stored[j].Record? && stored[l].Record? ==>
      !SameVoteKey(stored[j].doc, stored[l].doc)
  }

  /**
   * The first matching document is the one `getUserVote` finds among the records, and
   * there is none exactly when `getUserVote` resolves with nothing.
   */
  lemma {:induction false} LocateRecordIsFindOne(stored: seq<StoredVote>, userId: UserId, entityType: string, id: int)
    ensures LocateRecord(stored, userId, entityType, id).None? <==>
            GetUserVote(Records(stored), userId, entityType, id).None?
    ensures LocateRecord(stored, userId, entityType, id).Some? ==>
            GetUserVote(Records(stored), userId, entityType, id) ==
            Some(stored[LocateRecord(stored, userId, entityType, id).value].doc)
  {
    if |stored| > 0 {
      if IsRecordOf(stored[0], userId, entityType, id) {
        FirstRecordIsFound(stored, userId, entityType, id);
      } else {
        LocateRecordIsFindOne(stored[1..], userId, entityType, id);
        SkipNonMatching(stored, userId, entityType, id);
        match LocateRecord(stored[1..], userId, entityType, id)
        case None =>
        case Some(k) => assert stored[k + 1] == stored[1..][k];
      }
    }
  }

  /** `Records` unfolded once. */
  lemma RecordsCons(stored: seq<StoredVote>)
    requires |stored| > 0
    ensures Records(stored) == (if stored[0].Record? then [stored[0].doc] else []) + Records(stored[1..])
  {
  }

  /** A matching first document is what `getUserVote` finds. */
  lemma FirstRecordIsFound(stored: seq<StoredVote>, userId: UserId, entityType: string, id: int)
    requires |stored| > 0 && IsRecordOf(stored[0], userId, entityType, id)
    ensures GetUserVote(Records(stored), userId, entityType, id) == Some(stored[0].doc)
  {
    RecordsCons(stored);
  }

  /** `findOne` passes over a first vote document that does not match. */
  lemma GetUserVoteSkips(d: VoteDoc, rest: seq<VoteDoc>, userId: UserId, entityType: string, id: int)
    requires !IsVoteOf(d, userId, entityType, id)
    ensures GetUserVote([d] + rest, userId, entityType, id) == GetUserVote(rest, userId, entityType, id)
  {
    assert ([d] + rest)[1..] == rest;
  }

  /** `findOne` passes over a first document that does not match, an orphan included. */
  lemma SkipNonMatching(stored: seq<StoredVote>, userId: UserId, entityType: string, id: int)
    requires |stored| > 0 && !IsRecordOf(stored[0], userId, entityType, id)
    ensures GetUserVote(Records(stored), userId, entityType, id) == GetUserVote(Records(stored[1..]), userId, entityType, id)
  {
    RecordsCons(stored);
    var rest := Records(stored[1..]);
    if stored[0].Record? {
      GetUserVoteSkips(stored[0].doc, rest, userId, entityType, id);
    } else {
      assert [] + rest == rest;
    }
  }

  /** The documents after `vote` as written; `None` is the rejected retraction. */
  function VoteAsWritten(stored: seq<StoredVote>, userId: UserId, entityType: string, id: int, direction: string)
    : (r: Option<seq<StoredVote>>)
    ensures r.None? <==>
              direction != "up" && direction != "down" &&
              forall d :: d in Records(stored) ==> !IsVoteOf(d, userId, entityType, id)
    ensures r.Some? ==> |r.value| > 0 && r.value[|r.value| - 1] == Record(VoteDoc(userId, entityType, id, DirectionValue(direction)))
  {
    var value := DirectionValue(direction);
    var inserted := Record(VoteDoc(userId, entityType, id, value));
    match LocateRecord(stored, userId, entityType, id)
    case None =>
      assert forall d :: Record(d) in stored ==> !IsVoteOf(d, userId, entityType, id);
      if value.None? then None else Some(stored + [inserted])
    case Some(k) =>
      assert stored[k].doc in Records(stored);
      var afterExisting := if value.None? then RemoveAt(stored, k) else stored[k := Orphan(value)];
      Some(afterExisting + [inserted])
  }

  /** No document matches `{ userId, type, id }`. */
  predicate NoRecordOf(stored: seq<StoredVote>, userId: UserId, entityType: string, id: int)
  {
    forall j :: 0 <= j < |stored| ==> !IsRecordOf(stored[j], userId, entityType, id)
  }

  /** A matching document with no earlier match is the one `update` and `remove` act on. */
  lemma LocateRecordIsFirstMatch(stored: seq<StoredVote>, userId: UserId, entityType: string, id: int, k: nat)
    requires k < |stored| && IsRecordOf(stored[k], userId, entityType, id)
    requires forall j :: 0 <= j < k ==> !IsRecordOf(stored[j], userId, entityType, id)
    ensures LocateRecord(stored, userId, entityType, id) == Some(k)
  {
    var r := LocateRecord(stored, userId, entityType, id);
    assert r.Some?;
    assert !(r.value < k) && !(k < r.value);
  }

  /** Appending the caller's record where none matched keeps one record per key, and it is found last. */
  lemma InsertKeepsOneRecordEach(rest: seq<StoredVote>, d: VoteDoc)
    requires OneRecordEach(rest)
    requires NoRecordOf(rest, d.userId, d.entityType, d.id)
    ensures OneRecordEach(rest + [Record(d)])
    ensures LocateRecord(rest + [Record(d)], d.userId, d.entityType, d.id) == Some(|rest|)
  {
    var r := rest + [Record(d)];
    forall j, l | 0 <= j < l < |r| && r[j].Record? && r[l].Record?
      ensures !SameVoteKey(r[j].doc, r[l].doc)
    {
      assert r[j] == rest[j];
      if l == |rest| {
        assert !IsRecordOf(rest[j], d.userId, d.entityType, d.id);
      } else {
        assert r[l] == rest[l];
      }
    }
    forall j | 0 <= j < |rest| ensures !IsRecordOf(r[j], d.userId, d.entityType, d.id) {
      assert r[j] == rest[j];
    }
    LocateRecordIsFirstMatch(r, d.userId, d.entityType, d.id, |rest|);
  }

  /** Removing the first match of a key leaves no record of that key. */
  lemma RemoveClearsKey(stored: seq<StoredVote>, k: nat, userId: UserId, entityType: string, id: int)
    requires OneRecordEach(stored)
    requires k < |stored| && IsRecordOf(stored[k], userId, entityType, id)
    ensures OneRecordEach(RemoveAt(stored, k))
    ensures NoRecordOf(RemoveAt(stored, k), userId, entityType, id)
  {
    var rest := RemoveAt(stored, k);
    forall j | 0 <= j < |rest| ensures !IsRecordOf(rest[j], userId, entityType, id) {
      if j < k {
        assert !(stored[j].Record? && SameVoteKey(stored[j].doc, stored[k].doc));
      } else {
        assert !(stored[j + 1].Record? && SameVoteKey(stored[k].doc, stored[j + 1].doc));
      }
    }
  }

  /** Replacing the first match of a key by an orphan leaves no record of that key. */
  lemma ReplaceClearsKey(stored: seq<StoredVote>, k: nat, v: Option<int>, userId: UserId, entityType: string, id: int)
    requires OneRecordEach(stored)
    requires k < |stored| && IsRecordOf(stored[k], userId, entityType, id)
    ensures OneRecordEach(stored[k := Orphan(v)])
    ensures NoRecordOf(stored[k := Orphan(v)], userId, entityType, id)
  {
    var rest := stored[k := Orphan(v)];
    forall j | 0 <= j < |rest| ensures !IsRecordOf(rest[j], userId, entityType, id) {
      if j < k {
        assert !(stored[j].Record? && SameVoteKey(stored[j].doc, stored[k].doc));
      } else if j > k {
        assert !(stored[j].Record? && SameVoteKey(stored[k].doc, stored[j].doc));
      }
    }
  }

  /**
   * As written, a vote still leaves one record per user and entity, and the caller's
   * record is the document inserted last.
   */
  lemma AsWrittenKeepsOneRecordEach(stored: seq<StoredVote>, userId: UserId, entityType: string, id: int, direction: string)
    requires OneRecordEach(stored)
    ensures var r := VoteAsWritten(stored, userId, entityType, id, direction);
            r.Some? ==> OneRecordEach(r.value) && LocateRecord(r.value, userId, entityType, id) == Some(|r.value| - 1)
  {
    var value := DirectionValue(direction);
    var d := VoteDoc(userId, entityType, id, value);
    match LocateRecord(stored, userId, entityType, id)
    case None =>
      if value.Some? {
        InsertKeepsOneRecordEach(stored, d);
      }
    case Some(k) =>
      if value.None? {
        RemoveClearsKey(stored, k, userId, entityType, id);
        InsertKeepsOneRecordEach(RemoveAt(stored, k), d);
      } else {
        ReplaceClearsKey(stored, k, value, userId, entityType, id);
        InsertKeepsOneRecordEach(stored[k := Orphan(value)], d);
      }
  }

  /**
   * Changing or repeating an existing up/down vote turns the matched record into an
   * orphan `{ value }` and inserts a fresh record: the collection gains a document that
   * no query ever matches again.
   */
  lemma AsWrittenChangedVoteLeavesOrphan(stored: seq<StoredVote>, userId: UserId, entityType: string, id: int, direction: string)
    requires direction == "up" || direction == "down"
    requires LocateRecord(stored, userId, entityType, id).Some?
    ensures var r := VoteAsWritten(stored, userId, entityType, id, direction);
            r.Some? &&
            |r.value| == |stored| + 1 &&
            r.value[LocateRecord(stored, userId, entityType, id).value] == Orphan(DirectionValue(direction))
  {
  }

  /**
   * Retracting an existing vote leaves a record with a `null` value behind: the caller
   * still has a vote on the entity, so a second retraction is accepted instead of
   * rejected, and `getScores` reports the vote as 'down'.
   */
  lemma AsWrittenRetractLeavesNullVote(stored: seq<StoredVote>, userId: UserId, entityType: string, id: int, direction: string)
    requires direction != "up" && direction != "down"
    requires OneRecordEach(stored)
    requires LocateRecord(stored, userId, entityType, id).Some?
    ensures var r := VoteAsWritten(stored, userId, entityType, id, direction);
            r.Some? &&
            GetUserVote(Records(r.value), userId, entityType, id) == Some(VoteDoc(userId, entityType, id, None)) &&
            VoteAsWritten(r.value, userId, entityType, id, direction).Some? &&
            DirectionOf(GetUserVote(Records(r.value), userId, entityType, id).value.value) == Down
  {
    var r := VoteAsWritten(stored, userId, entityType, id, direction).value;
    AsWrittenKeepsOneRecordEach(stored, userId, entityType, id, direction);
    LocateRecordIsFindOne(r, userId, entityType, id);
  }

  /** User 1's single up-vote on post 42. */
  function OneUpVote(): seq<VoteDoc>
  {
    [VoteDoc(JsNumber(1), "post", 42, Some(1))]
  }

  /**
   * Concrete input: as written, a second 'up' turns the first record into the orphan
   * `{ value: 1 }` and appends a fresh record; the score is still 1, but the collection
   * now holds two documents.  The exclusive version keeps the single record.
   */
  lemma AsWrittenUpTwiceLeavesOrphan()
    ensures VoteAsWritten([Record(OneUpVote()[0])], JsNumber(1), "post", 42, "up") ==
            Some([Orphan(Some(1)), Record(OneUpVote()[0])])
    ensures Records([Orphan(Some(1)), Record(OneUpVote()[0])]) == OneUpVote()
    ensures Score(OneUpVote(), "post", 42) == 1
    ensures Vote(Db(OneUpVote(), []), JsNumber(1), "post", 42, "up").db.votes == OneUpVote()
  {
    var up := OneUpVote()[0];
    assert up == VoteDoc(JsNumber(1), "post", 42, DirectionValue("up"));
    assert LocateRecord([Record(up)], JsNumber(1), "post", 42) == Some(0);
    assert [Record(up)][0 := Orphan(Some(1))] == [Orphan(Some(1))];
    assert [Record(up)][0 := Orphan(Some(1))] + [Record(up)] == [Orphan(Some(1)), Record(up)];
    assert [Orphan(Some(1)), Record(up)][1..] == [Record(up)];
    assert [Record(up)][1..] == [];
    LocateIsFirstMatch(OneUpVote(), JsNumber(1), "post", 42, 0);
    assert OneUpVote()[0 := OneUpVote()[0].(value := Some(1))] == OneUpVote();
    assert OneUpVote()[..0] == [];
  }

  /** Concrete input: a retraction leaves `{userId: 1, type: 'post', id: 42, value: null}`. */
  lemma AsWrittenRetractConcrete()
    ensures VoteAsWritten([Record(OneUpVote()[0])], JsNumber(1), "post", 42, "retract") ==
            Some([Record(VoteDoc(JsNumber(1), "post", 42, None))])
    ensures Vote(Db(OneUpVote(), []), JsNumber(1), "post", 42, "retract").db.votes == []
  {
    var up := OneUpVote()[0];
    assert LocateRecord([Record(up)], JsNumber(1), "post", 42) == Some(0);
    LocateIsFirstMatch(OneUpVote(), JsNumber(1), "post", 42, 0);
    assert RemoveAt(OneUpVote(), 0) == [];
    assert RemoveAt([Record(up)], 0) == [];
    assert DirectionValue("retract") == None by {
      assert "retract"[0] != "up"[0] && "retract"[0] != "down"[0];
    }
    var nullVote := Record(VoteDoc(JsNumber(1), "post", 42, None));
    assert RemoveAt([Record(up)], 0) + [nullVote] == [nullVote];
  }
}
