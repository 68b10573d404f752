/** The database of the news service as an immutable value: the four tables
    `stories`, `votes`, `tags` and `metadata` as sequences in row order, and
    the serial counters the database draws fresh ids from. */
module Records {

  datatype Story = Story(id: nat, title: string, url: string)

  /** `direction` is kept as the raw text the request supplied. */
  datatype Vote = Vote(id: nat, direction: string, storyId: nat)

  datatype Tag = Tag(id: nat, description: string)

  /** A row of the join table linking a story to a tag. */
  datatype Metadata = Metadata(storyId: nat, tagId: nat)

  datatype Db = Db(
    stories: seq<Story>,
    votes: seq<Vote>,
    tags: seq<Tag>,
    metadata: seq<Metadata>,
    nextStoryId: nat,
    nextVoteId: nat,
    nextTagId: nat)

  /** A fresh database: empty tables, serial counters at 1. */
  function EmptyDb(): Db
  {
    Db([], [], [], [], 1, 1, 1)
  }

  predicate HasStory(stories: seq<Story>, id: nat)
  {
    exists s :: s in stories && s.id == id
  }

  predicate HasTag(tags: seq<Tag>, id: nat)
  {
    exists t :: t in tags && t.id == id
  }

  /** Story ids are distinct and below the counter. */
  predicate StoryIdsValid(db: Db)
  {
    && (forall i :: 0 <= i < |db.stories| ==> db.stories[i].id < db.nextStoryId)
    && (forall i, j :: 0 <= i < j < |db.stories| ==> db.stories[i].id != db.stories[j].id)
  }

  predicate VoteIdsValid(db: Db)
  {
    && (forall i :: 0 <= i < |db.votes| ==> db.votes[i].id < db.nextVoteId)
    && (forall i, j :: 0 <= i < j < |db.votes| ==> db.votes[i].id != db.votes[j].id)
  }

  predicate TagIdsValid(db: Db)
  {
    && (forall i :: 0 <= i < |db.tags| ==> db.tags[i].id < db.nextTagId)
    && (forall i, j :: 0 <= i < j < |db.tags| ==> db.tags[i].id != db.tags[j].id)
  }

  /** No metadata row is orphaned. */
  predicate MetadataLinked(db: Db)
  {
    forall m :: m in db.metadata ==> HasStory(db.stories, m.storyId) && HasTag(db.tags, m.tagId)
  }

  /** The integrity the model's operations keep: primary keys drawn from the
      serial counters, and metadata rows referring to existing rows. */
  predicate Valid(db: Db)
  {
    StoryIdsValid(db) && VoteIdsValid(db) && TagIdsValid(db) && MetadataLinked(db)
  }

  /** No two tags share a description. Nothing in the code relies on a
      schema constraint for it; the ingestion keeps it. */
  predicate UniqueDescriptions(tags: seq<Tag>)
  {
    forall i, j :: 0 <= i < j < |tags| ==> tags[i].description != tags[j].description
  }

  lemma EmptyDbValid()
    ensures Valid(EmptyDb()) && UniqueDescriptions(EmptyDb().tags)
  {
  }
}
