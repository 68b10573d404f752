/** The `GET /stories` listing: every story with its net vote score,
    ordered by score, highest first. */
module Ranking {

  import opened Records
  import opened Query

  /** The contribution of one vote: the SQL `CASE direction WHEN 'up' THEN 1
      WHEN 'down' THEN -1 ELSE 0 END`. */
  function Weight(direction: string): int
  {
    if direction == "up" then 1 else if direction == "down" then -1 else 0
  }

  /** The `SUM(...)` over the votes the left join attaches to a story. A
      story with no vote meets one all-NULL row, whose weight is 0. */
  function Score(votes: seq<Vote>, storyId: nat): int
  {
    if votes == [] then 0
    else (if votes[0].storyId == storyId then Weight(votes[0].direction) else 0) + Score(votes[1..], storyId)
  }

  /** How many votes on `storyId` have exactly the text `direction`. */
  function CountVotes(votes: seq<Vote>, storyId: nat, direction: string): (n: nat)
    ensures n <= |votes|
  {
    if votes == [] then 0
    else (if votes[0].storyId == storyId && votes[0].direction == direction then 1 else 0)
         + CountVotes(votes[1..], storyId, direction)
  }

  /** A score is the number of up votes minus the number of down votes;
      every other direction text counts for nothing. */
  lemma {:induction false} ScoreIsUpsMinusDowns(votes: seq<Vote>, storyId: nat)
    ensures Score(votes, storyId) == CountVotes(votes, storyId, "up") - CountVotes(votes, storyId, "down")
  {
    if votes != [] {
      ScoreIsUpsMinusDowns(votes[1..], storyId);
    }
  }

  /** A story nobody voted on scores 0. */
  lemma {:induction false} UnvotedScoresZero(votes: seq<Vote>, storyId: nat)
    requires forall v :: v in votes ==> v.storyId != storyId
    ensures Score(votes, storyId) == 0
  {
    if votes != [] {
      assert votes[0] in votes;
      UnvotedScoresZero(votes[1..], storyId);
    }
  }

  /** Appending a vote moves the score of its own story by the vote's
      weight and leaves every other story's score alone. */
  lemma {:induction false} ScoreAppend(votes: seq<Vote>, v: Vote, storyId: nat)
    ensures Score(votes + [v], storyId)
         == Score(votes, storyId) + (if v.storyId == storyId then Weight(v.direction) else 0)
  {
    if votes == [] {
      assert [v][1..] == [];
    } else {
      assert (votes + [v])[1..] == votes[1..] + [v];
      ScoreAppend(votes[1..], v, storyId);
    }
  }

  /** One row of the listing (timestamps are not modelled). */
  datatype ScoredStory = ScoredStory(id: nat, title: string, url: string, score: int)

  /** The grouped rows before ordering: one per story row, in table order. */
  function ScoredRows(db: Db): (rows: seq<ScoredStory>)
    ensures |rows| == |db.stories|
    ensures forall i :: 0 <= i < |rows| ==>
      rows[i] == ScoredStory(db.stories[i].id, db.stories[i].title, db.stories[i].url,
                             Score(db.votes, db.stories[i].id))
  {
    seq(|db.stories|, i requires 0 <= i < |db.stories| =>
      ScoredStory(db.stories[i].id, db.stories[i].title, db.stories[i].url, Score(db.votes, db.stories[i].id)))
  }

  /** Non-increasing by score. */
  predicate SortedByScore(rows: seq<ScoredStory>)
  {
    forall i, j :: 0 <= i < j < |rows| ==> rows[i].score >= rows[j].score
  }

  predicate DistinctIds(rows: seq<ScoredStory>)
  {
    forall i, j :: 0 <= i < j < |rows| ==> rows[i].id != rows[j].id
  }

  /** Where `x` goes in a sorted `rows`: after every row scoring strictly
      more, before the rest (so rows of equal score keep their order). */
  function InsertPosition(x: ScoredStory, rows: seq<ScoredStory>): (p: nat)
    ensures p <= |rows|
    ensures forall i :: 0 <= i < p ==> rows[i].score > x.score
    ensures SortedByScore(rows) ==> forall i :: p <= i < |rows| ==> rows[i].score <= x.score
  {
    if rows == [] || rows[0].score <= x.score then 0
    else 1 + InsertPosition(x, rows[1..])
  }

  function Insert(x: ScoredStory, rows: seq<ScoredStory>): (r: seq<ScoredStory>)
    requires SortedByScore(rows)
    ensures SortedByScore(r)
    ensures multiset(r) == multiset(rows) + multiset{x}
    ensures forall y :: y in r <==> y == x || y in rows
  {
    var p := InsertPosition(x, rows);
    assert rows == rows[..p] + rows[p..];
    var r := rows[..p] + [x] + rows[p..];
    assert forall i :: 0 <= i < |r| ==> r[i] == (if i < p then rows[i] else if i == p then x else rows[i - 1]);
    r
  }

  /** Insertion sort by score, highest first; the stand-in for
      `ORDER BY score DESC`. */
  function SortByScore(rows: seq<ScoredStory>): (r: seq<ScoredStory>)
    ensures SortedByScore(r)
    ensures multiset(r) == multiset(rows)
    ensures |r| == |rows|
  {
    if rows == [] then []
    else
      var rest := SortByScore(rows[1..]);
      assert rows == [rows[0]] + rows[1..];
      var r := Insert(rows[0], rest);
      assert |r| == |rows| by {
        assert |multiset(r)| == |multiset(rows)|;
      }
      r
  }

  /** Sorting only reorders rows, so distinct ids stay distinct. */
  lemma {:induction false} SortKeepsDistinctIds(rows: seq<ScoredStory>)
    requires DistinctIds(rows)
    ensures DistinctIds(SortByScore(rows))
  {
    if rows != [] {
      var rest := SortByScore(rows[1..]);
      SortKeepsDistinctIds(rows[1..]);
      forall k | 0 <= k < |rest|
        ensures rest[k].id != rows[0].id
      {
        assert rest[k] in multiset(rows[1..]);
        var m :| 0 <= m < |rows[1..]| && rows[1..][m] == rest[k];
        assert rows[m + 1] == rest[k];
      }
      DistinctInsert(rows[0], rest);
    }
  }

  lemma DistinctInsert(x: ScoredStory, rows: seq<ScoredStory>)
    requires SortedByScore(rows) && DistinctIds(rows)
    requires forall k :: 0 <= k < |rows| ==> rows[k].id != x.id
    ensures DistinctIds(Insert(x, rows))
  {
    var p := InsertPosition(x, rows);
    var r := Insert(x, rows);
    assert r == rows[..p] + [x] + rows[p..];
    assert forall i :: 0 <= i < p ==> r[i] == rows[i];
    assert r[p] == x;
    assert forall i :: p < i < |r| ==> r[i] == rows[i - 1];
  }

  datatype StoriesReply =
    | StoriesListed(stories: seq<ScoredStory>, success: bool, totalStories: nat)
    | StoriesFailed(message: string)
  {
    function Status(): int
    {
      if StoriesListed? then 200 else 500
    }
  }

  const UnableToRetrieve := "Unable to retrieve stories."

  /** `GET /stories`. */
  function ListStories(db: Db): (r: StoriesReply)
    ensures r.StoriesFailed? <==> |db.stories| == 0
    ensures r.StoriesFailed? ==> r.message == UnableToRetrieve && r.Status() == 500
    ensures r.StoriesListed? ==>
      && r.Status() == 200
      && r.success
      && r.totalStories == |r.stories| == |db.stories|
      && SortedByScore(r.stories)
      && multiset(r.stories) == multiset(ScoredRows(db))
  {
    match ExecuteDbQuery(SortByScore(ScoredRows(db)))
    case NoMatches => StoriesFailed(UnableToRetrieve)
    case Rows(rows) => StoriesListed(rows, true, |rows|)
  }

  /** Every listed row is a story of the table carrying its net score: up
      votes minus down votes. */
  lemma ListedScores(db: Db)
    requires ListStories(db).StoriesListed?
    ensures forall row :: row in ListStories(db).stories ==>
      exists s :: s in db.stories && row.id == s.id && row.title == s.title && row.url == s.url
                && row.score == CountVotes(db.votes, s.id, "up") - CountVotes(db.votes, s.id, "down")
  {
    var scored := ScoredRows(db);
    var rows := ListStories(db).stories;
    assert multiset(rows) == multiset(scored);
    forall row | row in rows
      ensures exists s :: s in db.stories && row.id == s.id && row.title == s.title && row.url == s.url
                && row.score == CountVotes(db.votes, s.id, "up") - CountVotes(db.votes, s.id, "down")
    {
      assert row in multiset(scored);
      var i :| 0 <= i < |scored| && scored[i] == row;
      var s := db.stories[i];
      ScoreIsUpsMinusDowns(db.votes, s.id);
      assert s in db.stories;
    }
  }

  /** With distinct story ids every story is listed exactly once, and one
      without votes is listed with score 0. */
  lemma EveryStoryListedOnce(db: Db)
    requires StoryIdsValid(db) && |db.stories| > 0
    ensures ListStories(db).StoriesListed?
    ensures DistinctIds(ListStories(db).stories)
    ensures forall s :: s in db.stories ==>
      ScoredStory(s.id, s.title, s.url, Score(db.votes, s.id)) in ListStories(db).stories
    ensures forall s :: s in db.stories && (forall v :: v in db.votes ==> v.storyId != s.id) ==>
      ScoredStory(s.id, s.title, s.url, 0) in ListStories(db).stories
  {
    var rows := ScoredRows(db);
    assert DistinctIds(rows);
    SortKeepsDistinctIds(rows);
    forall s | s in db.stories
      ensures ScoredStory(s.id, s.title, s.url, Score(db.votes, s.id)) in ListStories(db).stories
    {
      var i :| 0 <= i < |db.stories| && db.stories[i] == s;
      assert rows[i] in multiset(SortByScore(rows));
    }
    forall s | s in db.stories && (forall v :: v in db.votes ==> v.storyId != s.id)
      ensures ScoredStory(s.id, s.title, s.url, 0) in ListStories(db).stories
    {
      UnvotedScoresZero(db.votes, s.id);
    }
  }

  /** Story A with one up vote is listed before story B with none. */
  lemma TwoStoryExample(a: Story, b: Story)
    requires a.id != b.id
    ensures var db := Db([a, b], [Vote(1, "up", a.id)], [], [], 3, 2, 1);
      ListStories(db) == StoriesListed([ScoredStory(a.id, a.title, a.url, 1),
                                        ScoredStory(b.id, b.title, b.url, 0)], true, 2)
  {
    var db := Db([a, b], [Vote(1, "up", a.id)], [], [], 3, 2, 1);
    var rowA := ScoredStory(a.id, a.title, a.url, 1);
    var rowB := ScoredStory(b.id, b.title, b.url, 0);
    ExampleScores(a, b, db.votes);
    assert ScoredRows(db) == [rowA, rowB];
    ExampleSort(rowA, rowB);
  }

  lemma ExampleScores(a: Story, b: Story, votes: seq<Vote>)
    requires a.id != b.id && votes == [Vote(1, "up", a.id)]
    ensures Score(votes, a.id) == 1 && Score(votes, b.id) == 0
  {
    assert votes[1..] == [];
  }

  lemma ExampleSort(rowA: ScoredStory, rowB: ScoredStory)
    requires rowA.score > rowB.score
    ensures SortByScore([rowA, rowB]) == [rowA, rowB]
  {
    assert [rowA, rowB][1..] == [rowB];
    assert [rowB][1..] == [];
    assert SortByScore([rowB]) == Insert(rowB, []) == [rowB];
    assert InsertPosition(rowA, [rowB]) == 0;
    assert Insert(rowA, [rowB]) == [rowA, rowB];
  }
}
