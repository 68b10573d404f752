/** The `GET /search?tags=...` handler: one join query per comma-separated
    tag, the matching rows concatenated in tag order; the first tag without
    matches turns the whole reply into "Invalid tag.". */
module Search {

  import opened Optional
  import opened Records
  import opened Seqs
  import opened Query
  import opened TagText

  /** One `(title, url, tags.description)` row of the join. */
  datatype SearchRow = SearchRow(title: string, url: string, description: string)

  /** The joined rows contributed by the metadata rows `meta` for the tag
      description `d`: `stories JOIN metadata JOIN tags WHERE description = d`,
      row order following the metadata table. */
  function JoinRows(db: Db, meta: seq<Metadata>, d: string): (rows: seq<SearchRow>)
    ensures forall k :: 0 <= k < |rows| ==> rows[k].description == d
  {
    if meta == [] then [] else LinkRows(db, meta[0], d) + JoinRows(db, meta[1..], d)
  }

  /** The join keeps the metadata table's order: the rows of a
      concatenation of metadata rows are the rows of each part in turn. */
  lemma {:induction false} JoinRowsAppend(db: Db, a: seq<Metadata>, b: seq<Metadata>, d: string)
    ensures JoinRows(db, a + b, d) == JoinRows(db, a, d) + JoinRows(db, b, d)
  {
    if a != [] {
      assert (a + b)[0] == a[0] && (a + b)[1..] == a[1..] + b;
      JoinRowsAppend(db, a[1..], b, d);
      var head := LinkRows(db, a[0], d);
      assert JoinRows(db, a + b, d) == head + JoinRows(db, a[1..] + b, d);
      assert JoinRows(db, a, d) == head + JoinRows(db, a[1..], d);
      assert head + (JoinRows(db, a[1..], d) + JoinRows(db, b, d))
          == (head + JoinRows(db, a[1..], d)) + JoinRows(db, b, d);
    } else {
      assert a + b == b;
    }
  }

  /** With primary-key ids, a metadata row contributes at most one row:
      at most one story and at most one tag carry its ids. */
  lemma LinkRowsAtMostOne(db: Db, m: Metadata, d: string)
    requires StoryIdsValid(db) && TagIdsValid(db)
    ensures |LinkRows(db, m, d)| <= 1
  {
    FilterAtMostOne(db.stories, (s: Story) => s.id == m.storyId);
    FilterAtMostOne(db.tags, (t: Tag) => t.id == m.tagId && t.description == d);
  }

  /** Hence a metadata row that joins contributes exactly its joined row,
      once. */
  lemma LinkRowsExactly(db: Db, m: Metadata, d: string, row: SearchRow)
    requires StoryIdsValid(db) && TagIdsValid(db) && JoinedBy(db, m, d, row)
    ensures LinkRows(db, m, d) == [row]
  {
    LinkRowsAtMostOne(db, m, d);
    assert row in LinkRows(db, m, d);
  }

  /** The search does not deduplicate: a metadata row stored twice (as a
      repeated url makes the ingestion do) yields its joined row twice, in
      metadata order. */
  lemma DuplicateLinkRepeatsRow(db: Db, a: seq<Metadata>, m: Metadata, b: seq<Metadata>,
                                c: seq<Metadata>, d: string, row: SearchRow)
    requires StoryIdsValid(db) && TagIdsValid(db) && JoinedBy(db, m, d, row)
    ensures JoinRows(db, a + [m] + b + [m] + c, d)
         == JoinRows(db, a, d) + [row] + JoinRows(db, b, d) + [row] + JoinRows(db, c, d)
  {
    LinkRowsExactly(db, m, d, row);
    assert JoinRows(db, [m], d) == [row] by {
      assert [m][1..] == [];
    }
    JoinRowsAppend(db, a + [m] + b + [m], c, d);
    JoinRowsAppend(db, a + [m] + b, [m], d);
    JoinRowsAppend(db, a + [m], b, d);
    JoinRowsAppend(db, a, [m], d);
  }

  /** The rows one metadata row `m` contributes. */
  function LinkRows(db: Db, m: Metadata, d: string): (rows: seq<SearchRow>)
    ensures forall row :: row in rows <==> JoinedBy(db, m, d, row)
    ensures forall k :: 0 <= k < |rows| ==> rows[k].description == d
  {
    var ss := Filter(db.stories, (s: Story) => s.id == m.storyId);
    var ts := Filter(db.tags, (t: Tag) => t.id == m.tagId && t.description == d);
    var f := (s: Story, t: Tag) => SearchRow(s.title, s.url, t.description);
    var rows := Product(ss, ts, f);
    assert forall row :: row in rows <==> JoinedBy(db, m, d, row) by {
      forall row
        ensures row in rows <==> JoinedBy(db, m, d, row)
      {
        ProductMembership(ss, ts, f, row);
        if row in rows {
          var s, t :| s in ss && t in ts && row == f(s, t);
          FilterMembership(db.stories, (s: Story) => s.id == m.storyId, s);
          FilterMembership(db.tags, (t: Tag) => t.id == m.tagId && t.description == d, t);
        }
        if JoinedBy(db, m, d, row) {
          var s, t :| s in db.stories && t in db.tags
            && s.id == m.storyId && t.id == m.tagId && t.description == d
            && row == SearchRow(s.title, s.url, t.description);
          FilterMembership(db.stories, (s: Story) => s.id == m.storyId, s);
          FilterMembership(db.tags, (t: Tag) => t.id == m.tagId && t.description == d, t);
          assert s in ss && t in ts;
        }
      }
    }
    assert forall k :: 0 <= k < |rows| ==> rows[k].description == d by {
      forall k | 0 <= k < |rows|
        ensures rows[k].description == d
      {
        assert rows[k] in rows;
      }
    }
    rows
  }

  /** `row` is what joining metadata row `m` with a story and a tag of
      description `d` selects. */
  predicate JoinedBy(db: Db, m: Metadata, d: string, row: SearchRow)
  {
    exists s, t :: s in db.stories && t in db.tags
      && s.id == m.storyId && t.id == m.tagId && t.description == d
      && row == SearchRow(s.title, s.url, t.description)
  }

  /** A row is selected exactly when some metadata row joins a story and a
      tag of the searched description into it. */
  lemma {:induction false} JoinRowsMembership(db: Db, meta: seq<Metadata>, d: string, row: SearchRow)
    ensures row in JoinRows(db, meta, d) <==> exists m :: m in meta && JoinedBy(db, m, d, row)
  {
    if meta != [] {
      JoinRowsMembership(db, meta[1..], d, row);
      assert meta == [meta[0]] + meta[1..];
      if row in JoinRows(db, meta[1..], d) {
        var m :| m in meta[1..] && JoinedBy(db, m, d, row);
        assert m in meta;
      }
    }
  }

  function Matches(db: Db, d: string): seq<SearchRow>
  {
    JoinRows(db, db.metadata, d)
  }

  datatype SearchReply =
    | Found(rows: seq<SearchRow>)
    | InvalidTag
    | Crashed
  {
    /** `Crashed` is an exception the handler does not catch; the web
        framework answers it with 500. */
    function Status(): int
    {
      match this
      case Found(_) => 200
      case InvalidTag => 400
      case Crashed => 500
    }
  }

  /** The handler's loop from the tag at hand on, with the rows gathered so
      far in `acc`. */
  function SearchEach(db: Db, tags: seq<string>, acc: seq<SearchRow>): SearchReply
    decreases |tags|
  {
    if tags == [] then Found(acc)
    else if |tags[0]| == 0 then Crashed
    else
      match ExecuteDbQuery(Matches(db, Normalize(tags[0])))
      case NoMatches => InvalidTag
      case Rows(rows) => SearchEach(db, tags[1..], acc + rows)
  }

  /** `GET /search`; a missing `tags` parameter makes `.split` fail. A
      present one is answered with every tag's matches in tag order when
      each comma-separated tag matches something, and otherwise by the
      first tag that does not. */
  function SearchTags(db: Db, query: Option<string>): (r: SearchReply)
    ensures query.None? ==> r == Crashed
    ensures query.Some? ==> (r.Found? <==> AllSearchable(db, Split(query.value, ',')))
    ensures query.Some? && AllSearchable(db, Split(query.value, ',')) ==>
      r == Found(Concat(db, Split(query.value, ',')))
    ensures query.Some? ==>
      (r == InvalidTag <==> exists k :: FailsFirstAt(db, Split(query.value, ','), k)
                                        && |Split(query.value, ',')[k]| > 0)
  {
    match query
    case None => Crashed
    case Some(q) =>
      var tags := Split(q, ',');
      SearchEachMeaning(db, tags, []);
      assert AllSearchable(db, tags) ==> [] + Concat(db, tags) == Concat(db, tags);
      SearchEach(db, tags, [])
  }

  /** A tag the search gets past: non-empty, and its normalised form
      matches at least one row. */
  predicate Searchable(db: Db, t: string)
  {
    |t| > 0 && |Matches(db, Normalize(t))| > 0
  }

  predicate AllSearchable(db: Db, tags: seq<string>)
  {
    forall i :: 0 <= i < |tags| ==> Searchable(db, tags[i])
  }

  /** The tag at `k` is the first the search cannot get past. */
  predicate FailsFirstAt(db: Db, tags: seq<string>, k: int)
  {
    && 0 <= k < |tags|
    && (forall i :: 0 <= i < k ==> Searchable(db, tags[i]))
    && !Searchable(db, tags[k])
  }

  /** The reference result: each tag's matches, in tag order, duplicates
      kept. */
  function Concat(db: Db, tags: seq<string>): seq<SearchRow>
    requires forall i :: 0 <= i < |tags| ==> |tags[i]| > 0
  {
    if tags == [] then [] else Matches(db, Normalize(tags[0])) + Concat(db, tags[1..])
  }

  /** What the loop returns, stated without the loop: the concatenation when
      every tag matches; otherwise the first failing tag decides — a crash if
      it is empty, "Invalid tag." if it matched nothing, and every row
      gathered before it is dropped. */
  lemma {:induction false} SearchEachMeaning(db: Db, tags: seq<string>, acc: seq<SearchRow>)
    ensures SearchEach(db, tags, acc).Found? <==> AllSearchable(db, tags)
    ensures AllSearchable(db, tags) ==> SearchEach(db, tags, acc) == Found(acc + Concat(db, tags))
    ensures SearchEach(db, tags, acc) == InvalidTag <==>
      exists k :: FailsFirstAt(db, tags, k) && |tags[k]| > 0
    ensures SearchEach(db, tags, acc) == Crashed <==>
      exists k :: FailsFirstAt(db, tags, k) && |tags[k]| == 0
  {
    if tags == [] {
    } else if !Searchable(db, tags[0]) {
      assert FailsFirstAt(db, tags, 0);
      forall k | FailsFirstAt(db, tags, k)
        ensures k == 0
      {
      }
    } else {
      var rows := Matches(db, Normalize(tags[0]));
      var tail := tags[1..];
      SearchEachMeaning(db, tail, acc + rows);
      assert AllSearchable(db, tags) <==> AllSearchable(db, tail) by {
        assert forall i :: 0 <= i < |tail| ==> tail[i] == tags[i + 1];
        if AllSearchable(db, tail) {
          forall i | 0 <= i < |tags|
            ensures Searchable(db, tags[i])
          {
            if i > 0 {
              assert tags[i] == tail[i - 1];
            }
          }
        }
      }
      if AllSearchable(db, tags) {
        assert acc + rows + Concat(db, tail) == acc + (rows + Concat(db, tail));
      }
      forall k | FailsFirstAt(db, tags, k)
        ensures FailsFirstAt(db, tail, k - 1) && tail[k - 1] == tags[k]
      {
        assert k != 0;
        forall i | 0 <= i < k - 1
          ensures Searchable(db, tail[i])
        {
          assert tail[i] == tags[i + 1];
        }
      }
      forall k | FailsFirstAt(db, tail, k)
        ensures FailsFirstAt(db, tags, k + 1) && tail[k] == tags[k + 1]
      {
        forall i | 0 <= i < k + 1
          ensures Searchable(db, tags[i])
        {
          if i > 0 {
            assert tags[i] == tail[i - 1];
          }
        }
      }
    }
  }

  /** The search ignores the case of its query: "politics", "POLITICS" and
      "Politics" return the same reply. */
  lemma SearchIgnoresCase(db: Db, a: string, b: string)
    requires SameIgnoringCase(a, b)
    ensures SearchTags(db, Some(a)) == SearchTags(db, Some(b))
  {
    SearchLowered(db, a);
    SearchLowered(db, b);
  }

  lemma SearchLowered(db: Db, q: string)
    ensures SearchTags(db, Some(q)) == SearchTags(db, Some(LowerAll(q)))
  {
    var tags := Split(q, ',');
    SplitLowerAll(q);
    SearchEachLowered(db, tags, []);
  }

  lemma {:induction false} SearchEachLowered(db: Db, tags: seq<string>, acc: seq<SearchRow>)
    ensures SearchEach(db, tags, acc) == SearchEach(db, LowerEach(tags), acc)
  {
    var lowered := LowerEach(tags);
    if tags != [] {
      assert lowered[1..] == LowerEach(tags[1..]);
      if |tags[0]| > 0 {
        assert SameIgnoringCase(tags[0], lowered[0]) by {
          LowerAllIdempotent(tags[0]);
        }
        NormalizeIgnoresCase(tags[0], lowered[0]);
        var rows := Matches(db, Normalize(tags[0]));
        SearchEachLowered(db, tags[1..], acc + rows);
      }
    }
  }

  lemma LowerAllIdempotent(s: string)
    ensures LowerAll(LowerAll(s)) == LowerAll(s)
  {
    assert forall i :: 0 <= i < |s| ==> Lower(Lower(s[i])) == Lower(s[i]);
  }

  /** A stored description that is not in title form ("POLITICS",
      "politics") is never the key of a search, so its rows are never
      found. */
  lemma UntitledDescriptionUnsearchable(db: Db, q: string, d: string)
    requires |q| > 0 && !IsTitleForm(d)
    ensures forall row :: row in Matches(db, Normalize(q)) ==> row.description != d
  {
    NormalizeFixesTitleForm(Normalize(q));
  }

  /** Rows are not merged across tags: a tag given twice returns its rows
      twice. */
  lemma RepeatedTagRepeatsRows(db: Db, t: string)
    requires Searchable(db, t) && ',' !in t
    ensures SearchTags(db, Some(t + "," + t))
         == Found(Matches(db, Normalize(t)) + Matches(db, Normalize(t)))
  {
    SplitJoin([t, t], ',');
    assert Join([t, t], ',') == t + "," + t;
    SearchEachMeaning(db, [t, t], []);
    assert [t, t][1..] == [t];
    assert [t][1..] == [];
    var m := Matches(db, Normalize(t));
    assert Concat(db, [t]) == m + [] == m;
    assert Concat(db, [t, t]) == m + m;
    assert [] + (m + m) == m + m;
  }
}
