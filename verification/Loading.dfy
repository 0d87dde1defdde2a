/** Storing a manager's pages and building a manager from stored pages (blman_create). */
module Loading {
  import opened Bytes
  import opened Pages
  import opened Manager

  // ----- the index from the pages

  /** avl_insert of every record key of one page; a key that is present already stays as it is. */
  function IndexPage(index: map<uint64, nat>, rs: seq<Record>, b: nat): map<uint64, nat> {
    if rs == [] then index
    else
      var before, key := IndexPage(index, rs[..|rs| - 1], b), rs[|rs| - 1].key;
      if key in before then before else before[key := b]
  }

  function IndexPages(pages: seq<Page>, n: nat): map<uint64, nat>
    requires n <= |pages|
  {
    if n == 0 then map[] else IndexPage(IndexPages(pages, n - 1), pages[n - 1].records, n - 1)
  }

  lemma KeysLast(rs: seq<Record>)
    requires rs != []
    ensures Keys(rs) == Keys(rs[..|rs| - 1]) + {rs[|rs| - 1].key}
  {
    assert rs == rs[..|rs| - 1] + [rs[|rs| - 1]];
  }

  lemma {:induction false} IndexPageCorrect(index: map<uint64, nat>, rs: seq<Record>, b: nat)
    ensures var i := IndexPage(index, rs, b);
            && i.Keys == index.Keys + Keys(rs)
            && forall k :: k in i ==> i[k] == if k in index then index[k] else b
  {
    if rs != [] {
      IndexPageCorrect(index, rs[..|rs| - 1], b);
      KeysLast(rs);
    }
  }

  lemma {:induction false} IndexPagesCorrect(m: Man, n: nat)
    requires Agree(m.pages, m.index) && n <= |m.pages|
    ensures IndexPages(m.pages, n) == map k | k in m.index && m.index[k] < n :: m.index[k]
  {
    hide Keys;
    if n > 0 {
      IndexPagesCorrect(m, n - 1);
      IndexPageCorrect(IndexPages(m.pages, n - 1), m.pages[n - 1].records, n - 1);
    }
  }

  /** Rebuilding the index from the pages gives back the index. */
  lemma IndexRebuilt(m: Man)
    requires Agree(m.pages, m.index)
    ensures IndexPages(m.pages, |m.pages|) == m.index
  {
    hide Keys;
    IndexPagesCorrect(m, |m.pages|);
  }

  // ----- pages as bytes

  ghost predicate AllFit(pages: seq<Page>) {
    forall b :: 0 <= b < |pages| ==> Fits(pages[b].records)
  }

  /** The image of consecutive pages. */
  ghost function EncodeAll(pages: seq<Page>): (s: seq<byte>)
    requires AllFit(pages)
    ensures |s| == BLOCK_SIZE * |pages|
  {
    if pages == [] then [] else EncodeAll(pages[..|pages| - 1]) + Encode(pages[|pages| - 1])
  }

  function Chunk(s: seq<byte>, b: nat): (c: seq<byte>)
    requires BLOCK_SIZE * (b + 1) <= |s|
    ensures |c| == BLOCK_SIZE
  {
    s[BLOCK_SIZE * b..BLOCK_SIZE * (b + 1)]
  }

  lemma {:induction false} ChunkOfEncodeAll(pages: seq<Page>, b: nat)
    requires AllFit(pages) && b < |pages|
    ensures Chunk(EncodeAll(pages), b) == Encode(pages[b])
  {
    hide Encode, Fits;
    var n := |pages| - 1;
    if b < n {
      ChunkOfEncodeAll(pages[..n], b);
      assert Chunk(EncodeAll(pages), b) == Chunk(EncodeAll(pages[..n]), b);
    }
  }

  lemma {:induction false} EncodeAllByChunks(pages: seq<Page>, s: seq<byte>)
    requires AllFit(pages) && |s| == BLOCK_SIZE * |pages|
    requires forall b :: 0 <= b < |pages| ==> Chunk(s, b) == Encode(pages[b])
    ensures s == EncodeAll(pages)
  {
    hide Encode, Fits;
    if pages != [] {
      var n := |pages| - 1;
      var t := s[..BLOCK_SIZE * n];
      forall b | 0 <= b < n ensures Chunk(t, b) == Encode(pages[..n][b]) {
        assert Chunk(t, b) == Chunk(s, b);
      }
      EncodeAllByChunks(pages[..n], t);
      assert s == t + Chunk(s, n);
    }
  }

  function DecodeAll(s: seq<byte>, n: nat): (pages: seq<Page>)
    requires |s| == BLOCK_SIZE * n
    ensures |pages| == n
    ensures forall b :: 0 <= b < n ==> pages[b] == DecodePage(Chunk(s, b))
  {
    seq(n, b requires 0 <= b < n => DecodePage(Chunk(s, b)))
  }

  /** blman_create on blocks read from disk. */
  function Load(s: seq<byte>, n: nat): (m: Man)
    requires |s| == BLOCK_SIZE * n
    ensures |m.pages| == n
  {
    var pages := DecodeAll(s, n);
    Man(pages, IndexPages(pages, n))
  }

  lemma DecodeEncodeAll(pages: seq<Page>)
    requires AllFit(pages)
    ensures DecodeAll(EncodeAll(pages), |pages|) == pages
  {
    hide Encode, Fits, DecodePage, Chunk;
    forall b | 0 <= b < |pages| ensures DecodeAll(EncodeAll(pages), |pages|)[b] == pages[b] {
      ChunkOfEncodeAll(pages, b);
      DecodeEncode(pages[b]);
    }
  }

  lemma ValidFits(m: Man)
    requires Valid(m)
    ensures AllFit(m.pages)
  {
  }

  /** Round trip: a manager written page by page and read back is the same manager. */
  lemma LoadEncoded(m: Man)
    requires AllFit(m.pages) && Agree(m.pages, m.index)
    ensures Load(EncodeAll(m.pages), |m.pages|) == m
  {
    hide Keys, Agree, DecodeAll, EncodeAll, AllFit;
    DecodeEncodeAll(m.pages);
    IndexRebuilt(m);
  }

  // ----- clean pages

  function CleanPage(p: Page): Page {
    Page(p.records, ClearDirty(p.flags))
  }

  /** All dirty flags cleared: what a flush leaves in memory and on disk. */
  function Cleaned(m: Man): (c: Man)
    ensures |c.pages| == |m.pages|
  {
    Man(seq(|m.pages|, b requires 0 <= b < |m.pages| => CleanPage(m.pages[b])), m.index)
  }

  ghost predicate AllClean(pages: seq<Page>) {
    forall b :: 0 <= b < |pages| ==> !IsDirty(pages[b].flags)
  }

  lemma SameRecordsOk(p: Page, q: Page)
    requires p.records == q.records && PageOk(p)
    ensures PageOk(q)
  {
  }

  lemma SameLookup(m: Man, c: Man, k: uint64)
    requires |c.pages| == |m.pages| && c.index == m.index
    requires forall b :: 0 <= b < |m.pages| ==> c.pages[b].records == m.pages[b].records
    ensures Lookup(c, k) == Lookup(m, k)
  {
  }

  /** Only the records matter for validity and contents. */
  lemma SameRecords(m: Man, c: Man)
    requires Valid(m) && |c.pages| == |m.pages| && c.index == m.index
    requires forall b :: 0 <= b < |m.pages| ==> c.pages[b].records == m.pages[b].records
    ensures Valid(c) && Contents(c) == Contents(m)
  {
    hide Keys, PageOk, Lookup;
    forall k | k in m.index ensures Lookup(c, k) == Lookup(m, k) {
      SameLookup(m, c, k);
    }
    forall b | 0 <= b < |c.pages| ensures PageOk(c.pages[b]) {
      SameRecordsOk(m.pages[b], c.pages[b]);
    }
    forall b, k | 0 <= b < |c.pages|
      ensures k in Keys(c.pages[b].records) <==> k in c.index && c.index[k] == b
    {
      assert k in Keys(m.pages[b].records) <==> k in m.index && m.index[k] == b;
    }
  }

  lemma CleanedValid(m: Man)
    requires Valid(m)
    ensures Valid(Cleaned(m)) && AllClean(Cleaned(m).pages) && Contents(Cleaned(m)) == Contents(m)
  {
    hide Valid, Contents;
    SameRecords(m, Cleaned(m));
  }

  // ----- editing stored pages

  lemma EncodeAllUpdate(pages: seq<Page>, b: nat, q: Page)
    requires AllFit(pages) && b < |pages| && Fits(q.records)
    ensures AllFit(pages[b := q])
    ensures Splice(EncodeAll(pages), BLOCK_SIZE * b, Encode(q)) == EncodeAll(pages[b := q])
  {
    hide Encode, Fits, EncodeAll, Chunk, Splice;
    var s := Splice(EncodeAll(pages), BLOCK_SIZE * b, Encode(q));
    forall c | 0 <= c < |pages| ensures Chunk(s, c) == Encode(pages[b := q][c]) {
      SpliceChunk(EncodeAll(pages), b, Encode(q), c);
      ChunkOfEncodeAll(pages, c);
    }
    EncodeAllByChunks(pages[b := q], s);
  }

  lemma SpliceChunk(s: seq<byte>, b: nat, x: seq<byte>, c: nat)
    requires |x| == BLOCK_SIZE && BLOCK_SIZE * (b + 1) <= |s| && BLOCK_SIZE * (c + 1) <= |s|
    ensures Chunk(Splice(s, BLOCK_SIZE * b, x), c) == if c == b then x else Chunk(s, c)
  {
    if c != b {
      SpliceReadOther(s, BLOCK_SIZE * b, x, BLOCK_SIZE * c, BLOCK_SIZE * (c + 1));
    }
  }

  lemma EncodeAllAppend(pages: seq<Page>, q: Page)
    requires AllFit(pages) && Fits(q.records)
    ensures AllFit(pages + [q])
    ensures EncodeAll(pages + [q]) == EncodeAll(pages) + Encode(q)
  {
    hide Encode, Fits;
    assert (pages + [q])[..|pages|] == pages;
  }
}
