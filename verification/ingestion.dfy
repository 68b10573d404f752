/** The scraper's batch insert: for each entry, a story row, the tag row if
    its description is new, and metadata rows joining every story with the
    entry's url to every tag with the entry's description. */
module Ingestion {

  import opened Records
  import opened Seqs
  import opened Scraper
  import TagText
  import Search

  function StoriesWithUrl(stories: seq<Story>, url: string): seq<Story>
  {
    Filter(stories, (s: Story) => s.url == url)
  }

  function TagsWithDescription(tags: seq<Tag>, d: string): seq<Tag>
  {
    Filter(tags, (t: Tag) => t.description == d)
  }

  predicate HasDescription(tags: seq<Tag>, d: string)
  {
    exists t :: t in tags && t.description == d
  }

  /** `INSERT INTO stories (title, url)`: always a new row, no check for a
      known url. */
  function InsertStory(db: Db, e: Entry): (r: Db)
    ensures r.stories == db.stories + [Story(db.nextStoryId, e.title, e.url)]
    ensures r.votes == db.votes && r.tags == db.tags && r.metadata == db.metadata
  {
    db.(stories := db.stories + [Story(db.nextStoryId, e.title, e.url)], nextStoryId := db.nextStoryId + 1)
  }

  /** `INSERT INTO tags ... WHERE NOT EXISTS (... description = d)`: the
      description is stored as given, with no case normalisation. */
  function InsertTag(db: Db, d: string): (r: Db)
    ensures HasDescription(r.tags, d)
    ensures HasDescription(db.tags, d) ==> r == db
    ensures !HasDescription(db.tags, d) ==> r.tags == db.tags + [Tag(db.nextTagId, d)]
    ensures r.stories == db.stories && r.votes == db.votes && r.metadata == db.metadata
  {
    if HasDescription(db.tags, d) then db
    else
      var t := Tag(db.nextTagId, d);
      assert t in db.tags + [t];
      db.(tags := db.tags + [t], nextTagId := db.nextTagId + 1)
  }

  /** `INSERT INTO metadata SELECT stories.id, tags.id FROM stories, tags
      WHERE url = .. AND description = ..`. */
  function Links(db: Db, url: string, d: string): (links: seq<Metadata>)
    ensures |links| == |StoriesWithUrl(db.stories, url)| * |TagsWithDescription(db.tags, d)|
  {
    Product(StoriesWithUrl(db.stories, url), TagsWithDescription(db.tags, d),
            (s: Story, t: Tag) => Metadata(s.id, t.id))
  }

  /** A metadata row is added exactly for each pair of a story with the url
      and a tag with the description. */
  lemma LinksMembership(db: Db, url: string, d: string, m: Metadata)
    ensures m in Links(db, url, d) <==>
      exists s, t :: s in db.stories && t in db.tags && s.url == url && t.description == d
        && m == Metadata(s.id, t.id)
  {
    var ss := StoriesWithUrl(db.stories, url);
    var ts := TagsWithDescription(db.tags, d);
    var f := (s: Story, t: Tag) => Metadata(s.id, t.id);
    ProductMembership(ss, ts, f, m);
    if m in Links(db, url, d) {
      var s, t :| s in ss && t in ts && m == f(s, t);
      FilterMembership(db.stories, (s: Story) => s.url == url, s);
      FilterMembership(db.tags, (t: Tag) => t.description == d, t);
    }
    if exists s, t :: s in db.stories && t in db.tags && s.url == url && t.description == d
        && m == Metadata(s.id, t.id) {
      var s, t :| s in db.stories && t in db.tags && s.url == url && t.description == d
        && m == Metadata(s.id, t.id);
      FilterMembership(db.stories, (s: Story) => s.url == url, s);
      FilterMembership(db.tags, (t: Tag) => t.description == d, t);
      assert s in ss && t in ts && m == f(s, t);
    }
  }

  function IngestOne(db: Db, e: Entry): (r: Db)
    ensures r.stories == db.stories + [Story(db.nextStoryId, e.title, e.url)]
    ensures r.nextStoryId == db.nextStoryId + 1
    ensures r.votes == db.votes
    ensures r.tags == InsertTag(db, e.tag).tags && r.nextTagId == InsertTag(db, e.tag).nextTagId
    ensures r.metadata == db.metadata + Links(r, e.url, e.tag)
  {
    var withTag := InsertTag(InsertStory(db, e), e.tag);
    withTag.(metadata := withTag.metadata + Links(withTag, e.url, e.tag))
  }

  /** The insert loop, one entry after the other. */
  function Ingest(db: Db, entries: seq<Entry>): (r: Db)
    decreases |entries|
  {
    if entries == [] then db else Ingest(IngestOne(db, entries[0]), entries[1..])
  }

  /** One story row per entry, duplicates by url included. */
  lemma {:induction false} IngestAddsOneStoryEach(db: Db, entries: seq<Entry>)
    decreases |entries|
    ensures |Ingest(db, entries).stories| == |db.stories| + |entries|
    ensures db.stories <= Ingest(db, entries).stories
    ensures Ingest(db, entries).nextStoryId == db.nextStoryId + |entries|
  {
    if entries != [] {
      IngestAddsOneStoryEach(IngestOne(db, entries[0]), entries[1..]);
    }
  }

  /** The story row the k-th entry appends carries that entry's title and
      url under the k-th fresh id. */
  lemma {:induction false} IngestStoryAt(db: Db, entries: seq<Entry>, k: nat)
    requires k < |entries|
    decreases |entries|
    ensures |db.stories| + k < |Ingest(db, entries).stories|
    ensures Ingest(db, entries).stories[|db.stories| + k]
         == Story(db.nextStoryId + k, entries[k].title, entries[k].url)
  {
    var db1 := IngestOne(db, entries[0]);
    var rest := entries[1..];
    var after := Ingest(db1, rest).stories;
    assert Ingest(db, entries).stories == after;
    IngestAddsOneStoryEach(db1, rest);
    assert |db1.stories| == |db.stories| + 1 && db1.nextStoryId == db.nextStoryId + 1;
    if k > 0 {
      IngestStoryAt(db1, rest, k - 1);
      var i := |db1.stories| + (k - 1);
      assert i == |db.stories| + k;
      assert entries[k] == rest[k - 1];
      assert after[i] == Story(db1.nextStoryId + (k - 1), rest[k - 1].title, rest[k - 1].url);
    } else {
      PrefixAt(db1.stories, after, |db.stories|);
    }
  }

  lemma PrefixAt(front: seq<Story>, whole: seq<Story>, i: nat)
    requires front <= whole && i < |front|
    ensures whole[i] == front[i]
  {
  }

  /** Ingestion never touches the votes. */
  lemma {:induction false} IngestKeepsVotes(db: Db, entries: seq<Entry>)
    decreases |entries|
    ensures Ingest(db, entries).votes == db.votes
  {
    if entries != [] {
      IngestKeepsVotes(IngestOne(db, entries[0]), entries[1..]);
    }
  }

  /** Tag descriptions stay unique, and an ingested entry's tag is then
      held by exactly one row. */
  lemma IngestOneKeepsTagsUnique(db: Db, e: Entry)
    requires UniqueDescriptions(db.tags)
    ensures UniqueDescriptions(IngestOne(db, e).tags)
    ensures |TagsWithDescription(IngestOne(db, e).tags, e.tag)| == 1
  {
    var tags := IngestOne(db, e).tags;
    if !HasDescription(db.tags, e.tag) {
      assert tags == db.tags + [Tag(db.nextTagId, e.tag)];
      forall i | 0 <= i < |db.tags|
        ensures db.tags[i].description != e.tag
      {
        assert db.tags[i] in db.tags;
      }
    }
    OneTagWithDescription(tags, e.tag);
  }

  lemma {:induction false} OneTagWithDescription(tags: seq<Tag>, d: string)
    requires UniqueDescriptions(tags) && HasDescription(tags, d)
    ensures |TagsWithDescription(tags, d)| == 1
  {
    var t :| t in tags && t.description == d;
    var rest := tags[1..];
    if tags[0].description == d {
      forall i | 0 <= i < |rest|
        ensures rest[i].description != d
      {
        assert rest[i] == tags[i + 1];
      }
      FilterNone(rest, (t: Tag) => t.description == d);
      assert TagsWithDescription(tags, d) == [tags[0]] + TagsWithDescription(rest, d);
    } else {
      assert t in rest;
      assert UniqueDescriptions(rest) by {
        forall i, j | 0 <= i < j < |rest|
          ensures rest[i].description != rest[j].description
        {
          assert rest[i] == tags[i + 1] && rest[j] == tags[j + 1];
        }
      }
      OneTagWithDescription(rest, d);
      assert TagsWithDescription(tags, d) == [] + TagsWithDescription(rest, d);
    }
  }

  /** Ingesting an entry whose tag is already known leaves the tags table
      as it was. */
  lemma KnownTagUnchanged(db: Db, e: Entry)
    requires HasDescription(db.tags, e.tag)
    ensures IngestOne(db, e).tags == db.tags
  {
  }

  /** The tag row carries the scraped text verbatim. */
  lemma TagStoredVerbatim(db: Db, e: Entry)
    ensures exists t :: t in IngestOne(db, e).tags && t.description == e.tag
  {
    var withTag := InsertTag(InsertStory(db, e), e.tag);
    assert IngestOne(db, e).tags == withTag.tags;
  }

  /** Because the tag is stored verbatim while the search looks for the
      title form of its query, an entry whose tag is not in title form
      ("UK Politics") is ingested but no search ever finds it. */
  lemma UntitledTagUnsearchable(db: Db, e: Entry, q: string)
    requires |q| > 0 && !TagText.IsTitleForm(e.tag)
    ensures forall row :: row in Search.Matches(IngestOne(db, e), TagText.Normalize(q)) ==>
      row.description != e.tag
  {
    Search.UntitledDescriptionUnsearchable(IngestOne(db, e), q, e.tag);
  }

  /** With unique descriptions, an entry adds one metadata row per story
      sharing its url, the new story included: a url seen before yields a
      second row for the earlier story. */
  lemma LinksPerStoryWithUrl(db: Db, e: Entry)
    requires UniqueDescriptions(db.tags)
    ensures var r := IngestOne(db, e);
      |r.metadata| == |db.metadata| + |StoriesWithUrl(r.stories, e.url)|
  {
    IngestOneKeepsTagsUnique(db, e);
  }

  /** The same entry ingested twice into an empty database: two stories,
      one tag, and the pair (story 1, tag 1) linked twice. */
  lemma RepeatedUrlDuplicatesLinks(e: Entry)
    ensures var r := Ingest(EmptyDb(), [e, e]);
      && r.stories == [Story(1, e.title, e.url), Story(2, e.title, e.url)]
      && r.tags == [Tag(1, e.tag)]
      && r.metadata == [Metadata(1, 1), Metadata(1, 1), Metadata(2, 1)]
  {
    var db1 := Db([Story(1, e.title, e.url)], [], [Tag(1, e.tag)], [Metadata(1, 1)], 2, 1, 2);
    FirstIngest(e);
    SecondIngest(e, db1);
    assert [e, e][1..] == [e];
    assert Ingest(EmptyDb(), [e, e]) == Ingest(db1, [e]);
  }

  lemma FirstIngest(e: Entry)
    ensures IngestOne(EmptyDb(), e)
         == Db([Story(1, e.title, e.url)], [], [Tag(1, e.tag)], [Metadata(1, 1)], 2, 1, 2)
  {
    var withTag := InsertTag(InsertStory(EmptyDb(), e), e.tag);
    assert withTag.tags == [Tag(1, e.tag)];
    assert StoriesWithUrl(withTag.stories, e.url) == [Story(1, e.title, e.url)];
    assert TagsWithDescription(withTag.tags, e.tag) == [Tag(1, e.tag)];
    assert Links(withTag, e.url, e.tag) == [Metadata(1, 1)];
  }

  lemma SecondIngest(e: Entry, db1: Db)
    requires db1 == Db([Story(1, e.title, e.url)], [], [Tag(1, e.tag)], [Metadata(1, 1)], 2, 1, 2)
    ensures IngestOne(db1, e)
         == Db([Story(1, e.title, e.url), Story(2, e.title, e.url)], [], [Tag(1, e.tag)],
               [Metadata(1, 1), Metadata(1, 1), Metadata(2, 1)], 3, 1, 2)
  {
    var withStory := InsertStory(db1, e);
    assert Tag(1, e.tag) in withStory.tags;
    var withTag := InsertTag(withStory, e.tag);
    assert withTag == withStory;
    SecondLinks(e, withTag);
  }

  lemma SecondLinks(e: Entry, db: Db)
    requires db.stories == [Story(1, e.title, e.url), Story(2, e.title, e.url)]
    requires db.tags == [Tag(1, e.tag)]
    ensures Links(db, e.url, e.tag) == [Metadata(1, 1), Metadata(2, 1)]
  {
    var ts := [Tag(1, e.tag)];
    var s2 := [Story(2, e.title, e.url)];
    var f := (s: Story, t: Tag) => Metadata(s.id, t.id);
    assert StoriesWithUrl(db.stories[1..], e.url) == s2;
    assert StoriesWithUrl(db.stories, e.url) == db.stories;
    assert TagsWithDescription(db.tags, e.tag) == ts;
    assert Product(s2, ts, f) == [Metadata(2, 1)] by {
      assert Row(s2[0], ts, f) == [Metadata(2, 1)];
      assert s2[1..] == [];
    }
    assert db.stories[1..] == s2;
    assert Row(db.stories[0], ts, f) == [Metadata(1, 1)];
    assert Product(db.stories, ts, f) == [Metadata(1, 1)] + Product(s2, ts, f);
  }

  /** Ingestion keeps the integrity of the database: fresh ids, and every
      metadata row it adds refers to an existing story and tag. */
  lemma IngestOneKeepsValid(db: Db, e: Entry)
    requires Valid(db)
    ensures Valid(IngestOne(db, e))
  {
    InsertStoryKeepsIds(db, e);
    InsertTagKeepsIds(InsertStory(db, e), e.tag);
    IngestOneKeepsLinks(db, e);
  }

  lemma InsertStoryKeepsIds(db: Db, e: Entry)
    requires StoryIdsValid(db)
    ensures StoryIdsValid(InsertStory(db, e))
  {
  }

  lemma InsertTagKeepsIds(db: Db, d: string)
    requires TagIdsValid(db)
    ensures TagIdsValid(InsertTag(db, d))
  {
  }

  lemma IngestOneKeepsLinks(db: Db, e: Entry)
    requires MetadataLinked(db)
    ensures MetadataLinked(IngestOne(db, e))
  {
    var withTag := InsertTag(InsertStory(db, e), e.tag);
    var r := IngestOne(db, e);
    assert r.metadata == db.metadata + Links(withTag, e.url, e.tag);
    assert db.stories <= r.stories && db.tags <= r.tags;
    forall m | m in r.metadata
      ensures HasStory(r.stories, m.storyId) && HasTag(r.tags, m.tagId)
    {
      if m in db.metadata {
        var s :| s in db.stories && s.id == m.storyId;
        var t :| t in db.tags && t.id == m.tagId;
        assert s in r.stories;
        assert t in r.tags;
      } else {
        assert m in Links(withTag, e.url, e.tag);
        LinksMembership(withTag, e.url, e.tag, m);
      }
    }
  }

  lemma {:induction false} IngestKeepsValid(db: Db, entries: seq<Entry>)
    decreases |entries|
    requires Valid(db) && UniqueDescriptions(db.tags)
    ensures Valid(Ingest(db, entries)) && UniqueDescriptions(Ingest(db, entries).tags)
  {
    if entries != [] {
      IngestOneKeepsValid(db, entries[0]);
      IngestOneKeepsTagsUnique(db, entries[0]);
      IngestKeepsValid(IngestOne(db, entries[0]), entries[1..]);
    }
  }
}
