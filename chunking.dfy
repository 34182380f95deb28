/** Cutting the extracted article into the pieces that are summarized one
    by one: consecutive slices of at most 2800 characters, taken at the
    offsets 0, 2800, 5600, ... below the article's length. */
module Chunking {
  import opened Builtins

  /** The maximum number of characters in one chunk. */
  const ChunkSize: nat := 2800

  /** The slices of at most ChunkSize characters that start at the offsets
      0, ChunkSize, 2 * ChunkSize, ... below the article's length, the last
      one cut short by the end of the article. */
  function Chunks(article: string): (chunks: seq<string>)
    ensures chunks == [] <==> article == ""
    ensures forall k :: 0 <= k < |chunks| ==> |chunks[k]| <= ChunkSize
  {
    var starts := Range(0, |article|, ChunkSize);
    seq(|starts|, k requires 0 <= k < |starts| => Slice(article, starts[k], starts[k] + ChunkSize))
  }

  /** The k-th chunk is the article's characters from k * 2800 up to
      (k + 1) * 2800 or the end of the article, whichever comes first. */
  lemma ChunkAt(article: string, k: nat)
    requires k < |Chunks(article)|
    ensures k * ChunkSize < |article|
    ensures Chunks(article)[k] == article[k * ChunkSize..Min((k + 1) * ChunkSize, |article|)]
  {
    RangeAt(|article|, ChunkSize, k);
  }

  /** There are ceil(len(article) / 2800) chunks; in particular an empty
      article has none. */
  lemma ChunkCount(article: string)
    ensures |Chunks(article)| == (|article| + ChunkSize - 1) / ChunkSize
    ensures |Chunks(article)| == 0 <==> article == ""
  {
    var m := |Chunks(article)|;
    if m > 0 {
      ChunkAt(article, m - 1);
      var r := Range(0, |article|, ChunkSize);
      assert r[m - 1] + ChunkSize >= |article|;
      RangeAt(|article|, ChunkSize, m - 1);
    }
  }

  /** Every chunk is non-empty and at most 2800 characters long, and every
      chunk except the last is exactly 2800 characters long. */
  lemma ChunkBounds(article: string)
    ensures forall k :: 0 <= k < |Chunks(article)| ==> 0 < |Chunks(article)[k]| <= ChunkSize
    ensures forall k :: 0 <= k < |Chunks(article)| - 1 ==> |Chunks(article)[k]| == ChunkSize
  {
    var chunks := Chunks(article);
    forall k | 0 <= k < |chunks|
      ensures 0 < |chunks[k]| <= ChunkSize
      ensures k < |chunks| - 1 ==> |chunks[k]| == ChunkSize
    {
      ChunkAt(article, k);
      if k < |chunks| - 1 {
        ChunkAt(article, k + 1);
      }
    }
  }

  /** The first k chunks, concatenated, are the article's first k * 2800
      characters (or the whole article). */
  lemma {:induction false} ChunksPrefix(article: string, k: nat)
    requires 1 <= k <= |Chunks(article)|
    ensures Join(Chunks(article)[..k], "") == article[..Min(k * ChunkSize, |article|)]
  {
    var chunks := Chunks(article);
    var n := |article|;
    ChunkAt(article, k - 1);
    var lo, hi := (k - 1) * ChunkSize, Min(k * ChunkSize, n);
    assert (k - 1 + 1) * ChunkSize == k * ChunkSize;
    assert chunks[k - 1] == article[lo..hi];
    if k == 1 {
      assert chunks[..k] == [chunks[0]];
    } else {
      ChunksPrefix(article, k - 1);
      var front := chunks[..k - 1];
      assert Join(front, "") == article[..lo];
      assert chunks[..k] == front + [chunks[k - 1]];
      JoinAppend(front, [chunks[k - 1]], "");
      assert Join([chunks[k - 1]], "") == article[lo..hi];
      assert Join(chunks[..k], "") == article[..lo] + article[lo..hi];
      PrefixExtend(article, lo, hi);
    }
  }

  /** Extending a prefix by the slice that follows it gives the longer prefix. */
  lemma PrefixExtend(s: string, lo: nat, hi: nat)
    requires lo <= hi <= |s|
    ensures s[..lo] + s[lo..hi] == s[..hi]
  {
  }

  /** Concatenating the chunks in order gives back exactly the article. */
  lemma ChunksConcat(article: string)
    ensures Join(Chunks(article), "") == article
  {
    var chunks := Chunks(article);
    ChunkCount(article);
    if |chunks| > 0 {
      ChunksPrefix(article, |chunks|);
      ChunkAt(article, |chunks| - 1);
      assert chunks[..|chunks|] == chunks;
    }
  }
}
