/** `get_story_info`: turns the story blocks of the news homepage into
    `[url, title, tag]` entries. The HTML parsing is abstracted: a block is
    what the three element lookups found in it. */
module Scraper {

  import opened Optional

  const BaseUrl: string := "http://bbc.co.uk"

  /** Only this many leading blocks are looked at. */
  const MaxBlocks: nat := 10

  /** The link target, headline text and tag text of one block, each absent
      when its element (or the link's `href`) is missing. */
  datatype Block = Block(href: Option<string>, title: Option<string>, tag: Option<string>)

  datatype Entry = Entry(url: string, title: string, tag: string)

  predicate Complete(b: Block)
  {
    b.href.Some? && b.title.Some? && b.tag.Some?
  }

  function EntryOf(b: Block): (e: Entry)
    requires Complete(b)
    ensures BaseUrl <= e.url
  {
    Entry(BaseUrl + b.href.value, b.title.value, b.tag.value)
  }

  /** The entries of the complete blocks, in block order: the reference the
      loop is measured against. */
  function Extract(blocks: seq<Block>): (entries: seq<Entry>)
    ensures |entries| <= |blocks|
  {
    if blocks == [] then []
    else (if Complete(blocks[0]) then [EntryOf(blocks[0])] else []) + Extract(blocks[1..])
  }

  /** Extraction keeps block order: it distributes over concatenation. */
  lemma {:induction false} ExtractAppend(a: seq<Block>, b: seq<Block>)
    ensures Extract(a + b) == Extract(a) + Extract(b)
  {
    if a == [] {
      assert a + b == b;
    } else {
      var head := if Complete(a[0]) then [EntryOf(a[0])] else [];
      assert (a + b)[0] == a[0];
      assert (a + b)[1..] == a[1..] + b;
      assert Extract(a + b) == head + Extract(a[1..] + b);
      ExtractAppend(a[1..], b);
      assert head + (Extract(a[1..]) + Extract(b)) == (head + Extract(a[1..])) + Extract(b);
    }
  }

  /** An entry is extracted exactly when some complete block yields it. */
  lemma {:induction false} ExtractMembership(blocks: seq<Block>, e: Entry)
    ensures e in Extract(blocks) <==> exists b :: b in blocks && Complete(b) && e == EntryOf(b)
  {
    if blocks != [] {
      ExtractMembership(blocks[1..], e);
      assert blocks == [blocks[0]] + blocks[1..];
      if e in Extract(blocks[1..]) {
        var b :| b in blocks[1..] && Complete(b) && e == EntryOf(b);
        assert b in blocks;
      }
    }
  }

  /** Nothing is skipped when every block is complete. */
  lemma {:induction false} ExtractComplete(blocks: seq<Block>)
    requires forall i :: 0 <= i < |blocks| ==> Complete(blocks[i])
    ensures |Extract(blocks)| == |blocks|
  {
    if blocks != [] {
      ExtractComplete(blocks[1..]);
    }
  }

  /** The scraping loop over the first `MaxBlocks` blocks; an incomplete
      block raises inside the `try` and is skipped. */
  method GetStoryInfo(blocks: seq<Block>) returns (stories: seq<Entry>)
    ensures var n := if |blocks| < MaxBlocks then |blocks| else MaxBlocks;
      stories == Extract(blocks[..n])
    ensures |stories| <= MaxBlocks
    ensures forall k :: 0 <= k < |stories| ==> BaseUrl <= stories[k].url
  {
    var n := if |blocks| < MaxBlocks then |blocks| else MaxBlocks;
    stories := [];
    var i := 0;
    while i < n
      invariant 0 <= i <= n
      invariant stories == Extract(blocks[..i])
      invariant forall k :: 0 <= k < |stories| ==> BaseUrl <= stories[k].url
    {
      var b := blocks[i];
      assert blocks[..i + 1] == blocks[..i] + [b];
      ExtractAppend(blocks[..i], [b]);
      if b.href.Some? && b.title.Some? && b.tag.Some? {
        stories := stories + [Entry(BaseUrl + b.href.value, b.title.value, b.tag.value)];
      }
      i := i + 1;
    }
  }
}
