/** The `POST /stories/<id>/votes` handler: reads `direction` from the JSON
    body, appends one vote, and answers with the selection of the whole
    votes table. */
module Voting {

  import opened Records
  import opened Query
  import Ranking

  /** The parsed JSON body. Anything that is not an object (null, a list, a
      string, a number) cannot be indexed by a key. */
  datatype RequestBody = JsonObject(fields: map<string, string>) | NotAnObject

  datatype VoteReply = VoteListed(votes: seq<Vote>) | VoteFailed(message: string)
  {
    function Status(): int
    {
      if VoteListed? then 200 else 400
    }
  }

  const UnableToVote := "Unable to vote for stories."
  const MalformedBody := "Malformed request body."

  /** The handler, returning the database after the request and the reply.
      Indexing a non-object body raises the same exception class as an empty
      selection; a missing key raises the other one, before any insert. */
  function RecordVote(db: Db, storyId: nat, body: RequestBody): (r: (Db, VoteReply))
    ensures body.NotAnObject? ==> r == (db, VoteFailed(UnableToVote)) && r.1.Status() == 400
    ensures body.JsonObject? && "direction" !in body.fields ==>
      r == (db, VoteFailed(MalformedBody)) && r.1.Status() == 400
    ensures body.JsonObject? && "direction" in body.fields ==>
      && r.0 == db.(votes := db.votes + [Vote(db.nextVoteId, body.fields["direction"], storyId)],
                    nextVoteId := db.nextVoteId + 1)
      && r.1 == VoteListed(r.0.votes)
      && r.1.Status() == 200
  {
    match body
    case NotAnObject => (db, VoteFailed(UnableToVote))
    case JsonObject(fields) =>
      if "direction" !in fields then (db, VoteFailed(MalformedBody))
      else
        var db' := db.(votes := db.votes + [Vote(db.nextVoteId, fields["direction"], storyId)],
                       nextVoteId := db.nextVoteId + 1);
        match ExecuteDbQuery(db'.votes)
        case NoMatches => (db', VoteFailed(UnableToVote))
        case Rows(rows) => (db', VoteListed(rows))
  }

  /** A failed request leaves the votes table exactly as it was. */
  lemma FailureWritesNothing(db: Db, storyId: nat, body: RequestBody)
    requires RecordVote(db, storyId, body).1.VoteFailed?
    ensures RecordVote(db, storyId, body).0 == db
  {
  }

  /** An up vote raises the story's score by exactly 1, a down vote lowers
      it by exactly 1, any other text leaves it, and no other story's score
      moves. */
  lemma {:induction false} VoteMovesScore(db: Db, storyId: nat, direction: string, other: nat)
    requires other != storyId
    ensures var db' := RecordVote(db, storyId, JsonObject(map["direction" := direction])).0;
      && Ranking.Score(db'.votes, storyId)
         == Ranking.Score(db.votes, storyId) + (if direction == "up" then 1 else if direction == "down" then -1 else 0)
      && Ranking.Score(db'.votes, other) == Ranking.Score(db.votes, other)
  {
    var v := Vote(db.nextVoteId, direction, storyId);
    Ranking.ScoreAppend(db.votes, v, storyId);
    Ranking.ScoreAppend(db.votes, v, other);
  }

  /** Voting keeps the integrity of the database: the new vote id is fresh. */
  lemma VoteKeepsValid(db: Db, storyId: nat, body: RequestBody)
    requires Valid(db)
    ensures Valid(RecordVote(db, storyId, body).0)
  {
    var db' := RecordVote(db, storyId, body).0;
    if db' != db {
      assert db'.votes == db.votes + [db'.votes[|db.votes|]];
      assert db'.votes[|db.votes|].id == db.nextVoteId;
    }
  }
}
