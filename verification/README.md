# social_news: a Dafny model of the news aggregator's data logic

The service scrapes headline stories from the BBC homepage into a Postgres
database (`stories`, `votes`, `tags` and the `metadata` join table) and
offers three HTTP endpoints: the story listing ranked by net vote score,
casting a vote, and searching stories by tag. Most of its logic lives in
SQL strings and short Python loops. This project models that logic as pure
functions over an immutable database value and proves what the endpoints
and the ingestion loop guarantee.

Modules, one per component of the program:

- `Records` (`records.dfy`): the four tables as sequences of rows in table
  order, plus the serial counters that ids are drawn from. Also the
  integrity the operations keep: fresh, distinct ids and no orphaned
  metadata row.
- `Query` (`query.dfy`): `execute_db_query`, which reports an empty
  selection as a failure.
- `Ranking` (`ranking.dfy`): `GET /stories`. It holds the `SUM(CASE ...)`
  score over the left join, the ordering by score, and the reply.
- `Voting` (`voting.dfy`): `POST /stories/<id>/votes`.
- `TagText` (`tagtext.dfy`): Python's `split(",")` and the normalisation
  `tag[0].upper() + tag[1:].lower()`.
- `Search` (`search.dfy`): `GET /search`. It holds the join query per tag,
  the concatenation of results, and the abort on the first tag without
  matches.
- `Scraper` (`scraper.dfy`): `get_story_info`. Each HTML block is
  abstracted to its three optional fields.
- `Ingestion` (`ingestion.dfy`): the insert loop of the scraper's main
  block.
- `Seqs`, `Optional` (`seqs.dfy`, `optional.dfy`): row selection, cross
  product and an option type.

In these places the model follows the code as written:
- An empty stories table yields the 500 "Unable to retrieve stories." reply.
  It does not yield an empty list.
- Directions are not validated by the handler.
- A vote reply is the whole votes table.
- Tags are stored verbatim, not in a canonical case.
- The search aborts on the first tag without matches.

## Model

| member | source | states |
|---|---|---|
| Query.ExecuteDbQuery | social_news/api.py:11-18 | an empty selection becomes the "no matches" failure, for every query; a non-empty selection is passed through unchanged |
| Ranking.ScoreIsUpsMinusDowns | social_news/api.py:30-31 | a story's score equals its number of `'up'` votes minus its number of `'down'` votes; any other direction text counts 0 |
| Ranking.UnvotedScoresZero | social_news/api.py:30-31 | a story no vote refers to gets score 0 from the left join, not NULL and not exclusion |
| Ranking.ScoreAppend | social_news/api.py:30-31 | appending one vote moves its own story's score by that vote's weight and no other story's score |
| Ranking.SortByScore | social_news/api.py:33 | the ordering step returns a permutation (same multiset, same length) of its rows that is non-increasing by score |
| Ranking.ListStories | social_news/api.py:25-41 | the listing fails with status 500 and "Unable to retrieve stories." exactly when the stories table is empty; otherwise status 200, `success` set, `total_stories` equal to the number of returned rows and of stories, rows sorted non-increasing by score and a permutation of one scored row per story row |
| Ranking.ListedScores | social_news/api.py:29-33 | every listed row is a story of the table (same id, title, url) carrying up-votes minus down-votes as its score |
| Ranking.EveryStoryListedOnce | social_news/api.py:29-33 | with distinct story ids the listing succeeds on a non-empty table; every story appears, no id appears twice, and a story without votes appears with score 0 |
| Ranking.TwoStoryExample | social_news/api.py:29-37 | story A with one up vote and story B with none are listed as [A with score 1, B with score 0], total 2 |
| Voting.RecordVote | social_news/api.py:43-62 | a body that is not a JSON object fails with "Unable to vote for stories." and no insert; an object without `direction` fails with "Malformed request body." (status 400) and no insert; otherwise exactly one vote with the given direction, story id and next vote id is appended, nothing else changes, and the reply (status 200) is the whole votes table |
| Voting.FailureWritesNothing | social_news/api.py:47-62 | every failed vote request leaves the database unchanged |
| Voting.VoteMovesScore | social_news/api.py:49-53 | after a vote the story's score is higher by exactly 1 for `up`, lower by exactly 1 for `down`, unchanged for any other text; other stories' scores do not move |
| Voting.VoteKeepsValid | social_news/api.py:49-50 | recording a vote keeps ids fresh and distinct and metadata linked |
| TagText.Normalize | social_news/api.py:74 | the normalised tag has the input's length and letters (equal ignoring case), a non-lower-case first character and no upper-case character after it; only non-empty tags can be normalised |
| TagText.NormalizeFixesTitleForm | social_news/api.py:74 | a tag is left unchanged by normalisation if and only if it is already in title form |
| TagText.NormalizeIdempotent | social_news/api.py:74 | normalising twice equals normalising once |
| TagText.NormalizeIgnoresCase | social_news/api.py:74 | two tags equal up to ASCII case normalise to the same text |
| TagText.PoliticsExample | social_news/api.py:74 | every case spelling of "politics" ("politics", "POLITICS", "pOLITICS", ...) normalises to "Politics" |
| TagText.Split | social_news/api.py:67 | splitting yields at least one piece and no piece contains the separator |
| TagText.JoinSplit | social_news/api.py:67 | joining the pieces of a split with the separator gives back the query text |
| TagText.SplitJoin | social_news/api.py:67 | splitting the join of separator-free pieces gives back exactly those pieces, empty ones included |
| Search.LinkRows | social_news/api.py:70-73 | which rows one metadata row contributes: a row occurs exactly when it is the (title, url, description) of a story with its story id and a tag with its tag id and the searched description |
| Search.LinkRowsAtMostOne | social_news/api.py:70-73 | with primary-key ids a metadata row contributes at most one row |
| Search.LinkRowsExactly | social_news/api.py:70-73 | with primary-key ids a metadata row that joins contributes exactly its joined row, once |
| Search.JoinRowsAppend | social_news/api.py:70-73 | the join's rows follow the metadata table's order: the rows of concatenated metadata are the rows of each part in turn |
| Search.DuplicateLinkRepeatsRow | social_news/api.py:70-87 | a metadata row stored twice yields its joined row twice, in metadata order, since nothing deduplicates the result |
| Search.JoinRowsMembership | social_news/api.py:70-73 | a row is selected for a description exactly when some metadata row joins a story and a tag of that description into it |
| Search.SearchEachMeaning | social_news/api.py:67-88 | the search succeeds if and only if every tag is non-empty and matches something, and then returns the per-tag matches concatenated in tag order; otherwise the first failing tag decides: "Invalid tag." (dropping every row gathered so far) if it matched nothing, an uncaught exception if it is empty |
| Search.SearchIgnoresCase | social_news/api.py:67-78 | two queries equal up to ASCII case get the same reply |
| Search.UntitledDescriptionUnsearchable | social_news/api.py:73-74 | a stored description not in title form ("POLITICS") never matches a search, whatever the query |
| Search.SearchTags | social_news/api.py:64-88 | a request without a `tags` parameter crashes (status 500); otherwise the reply is found exactly when every comma-separated tag is non-empty and matches something, and is then every tag's matches concatenated in tag order; "Invalid tag." is answered exactly when the first tag that cannot be searched is non-empty |
| Search.RepeatedTagRepeatsRows | social_news/api.py:67-88 | rows are not deduplicated: a tag given twice returns its matches twice |
| Scraper.EntryOf | social_news/news_scaper.py:8-49 | every entry's url starts with "http://bbc.co.uk" |
| Scraper.ExtractAppend | social_news/news_scaper.py:44-54 | extraction distributes over concatenation of block lists, so surviving entries keep block order |
| Scraper.ExtractMembership | social_news/news_scaper.py:45-54 | an entry is produced exactly when some complete block yields it; incomplete blocks are skipped |
| Scraper.ExtractComplete | social_news/news_scaper.py:45-54 | when every block is complete, none is skipped |
| Scraper.GetStoryInfo | social_news/news_scaper.py:40-54 | the loop returns the extraction of the first 10 blocks only: at most 10 entries, each url prefixed with the base url |
| Ingestion.InsertStory | social_news/news_scaper.py:62-71 | a story row with the entry's title and url and the next id is appended, with no check for a known url; other tables unchanged |
| Ingestion.InsertTag | social_news/news_scaper.py:64-72 | a tag row is appended exactly when no tag has the description; afterwards some tag has it, and a known description leaves the database unchanged |
| Ingestion.Links | social_news/news_scaper.py:67-70 | the metadata insert adds (stories with the url) times (tags with the description) rows |
| Ingestion.LinksMembership | social_news/news_scaper.py:67-70 | an added metadata row is exactly a (story id, tag id) pair of a story with the url and a tag with the description |
| Ingestion.IngestOne | social_news/news_scaper.py:61-73 | one entry runs the three inserts in order: exactly one story is appended, the tags table becomes what the conditional tag insert makes of it, and the metadata table gains exactly the links between stories with the entry's url and tags with its description, computed after both inserts; votes are kept |
| Ingestion.IngestAddsOneStoryEach | social_news/news_scaper.py:61-73 | a run appends exactly one story row per entry, duplicated urls included, after the existing rows |
| Ingestion.IngestStoryAt | social_news/news_scaper.py:61-73 | the k-th appended story carries the k-th entry's title and url under the k-th fresh id |
| Ingestion.IngestKeepsVotes | social_news/news_scaper.py:61-74 | ingestion never changes the votes table |
| Ingestion.IngestOneKeepsTagsUnique | social_news/news_scaper.py:64-66 | unique tag descriptions stay unique, and the entry's description is then held by exactly one tag |
| Ingestion.KnownTagUnchanged | social_news/news_scaper.py:64-66 | re-ingesting a known tag leaves the tags table unchanged |
| Ingestion.TagStoredVerbatim | social_news/news_scaper.py:64-66 | the tag is stored with exactly the scraped text, without the normalisation the search applies |
| Ingestion.UntitledTagUnsearchable | social_news/news_scaper.py:64-66 | a scraped tag not in title form ("UK Politics") is stored, but no search query ever returns a row with that description |
| Ingestion.LinksPerStoryWithUrl | social_news/news_scaper.py:67-73 | with unique descriptions an entry adds one metadata row per story sharing its url, earlier stories included |
| Ingestion.RepeatedUrlDuplicatesLinks | social_news/news_scaper.py:61-73 | ingesting one entry twice into an empty database gives two stories, one tag, and metadata [(1,1), (1,1), (2,1)]: the pair (story 1, tag 1) twice |
| Ingestion.IngestOneKeepsValid | social_news/news_scaper.py:62-73 | ingesting an entry keeps ids fresh and distinct, and every metadata row refers to an existing story and tag |
| Ingestion.IngestKeepsValid | social_news/news_scaper.py:61-74 | a whole run keeps that integrity and the uniqueness of tag descriptions |

## Left out

- Flask routing, JSON serialisation, the static homepage (`social_news/api.py:20-23`) and `social_news/static/index.js`. These are HTTP plumbing and browser UI. Replies are modelled as datatypes carrying the status and body fields.
- psycopg2 connections, cursors, the process-wide shared connection, and commit and transaction semantics. The database is an in-memory value, and every handler's write counts as applied. The API module never commits, and that is not modelled.
- The snapshot rule of Postgres for `WITH ... INSERT ... SELECT * FROM votes`. The model's selection sees the table after the insert, so the empty-selection branch of the vote handler cannot be reached in the model.
- Voting.RecordVote: in Postgres the `SELECT` of a data-modifying `WITH` reads the table as it was before the statement, so a 200 reply omits the vote just cast; the model's reply includes it.
- Voting.FailureWritesNothing: holds only under the model's post-insert selection. In Postgres the first vote into an empty votes table inserts its row and is still answered "Unable to vote for stories." with status 400, so that failure does change the database.
- Voting.RecordVote: direction and story-id validation by the database (an enum type or a foreign key) is not visible in the code and is not modelled. The model stores any direction text for any story id, and a database error (an uncaught exception, status 500) does not occur in it.
- Voting.RecordVote: `direction` values that are JSON numbers, booleans or objects are not modelled; the body's fields are strings. A request whose body is not JSON at all depends on the Flask version and is not modelled either.
- Database-side id generation and timestamps are not modelled. Ids are drawn from a counter per table, starting at 1. `created_at` and `updated_at` are left out of rows and replies.
- SQL leaves row order unspecified without `ORDER BY`. The model fixes one order: ties in score keep table order, and join rows follow the metadata table.
- Search.SearchEachMeaning: database errors inside the search's `try`, which would also produce "Invalid tag.", are not modelled because the model's queries do not fail.
- Python's full Unicode `upper`/`lower` is not modelled; case mapping is ASCII only.
- `urlopen`, BeautifulSoup parsing, `get_db_connection` and `dotenv` loading (`social_news/news_scaper.py:10-38`) are foreign library calls, I/O or configuration. Each HTML block is a triple of optional strings.
- Console logging (`print`) is not modelled.
