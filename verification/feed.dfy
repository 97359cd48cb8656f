/** `readlist` and its helpers: the page window of a feed page, the cached
    copy of a window stored as a page of its own, and the slow path that
    fetches the window's posts one by one, newest first. */
module Feed {
  import opened Wrappers
  import opened Naming
  import opened Discovery
  import opened Store

  /** One feed item, `{"name": ..., "content": ...}` in core.py. */
  datatype Entry = Entry(name: string, content: string)

  type Posts = seq<Entry>

  function Min(a: int, b: int): int {
    if a <= b then a else b
  }

  function Max(a: int, b: int): int {
    if a >= b then a else b
  }

  // ------------------------------------------------------ window arithmetic

  /** Inclusive range of post indices shown on one feed page. */
  datatype Window = Window(start: int, end: int) {
    predicate Contains(k: int) {
      start <= k <= end
    }
  }

  /** Page `pageNo` of `pageSize` posts, counted back from the newest post
      `total`. A non-empty window holds the `pageSize` newest indices at or
      below its end, or all of them down to 1 when there are fewer. */
  function PageWindow(total: int, pageNo: int, pageSize: int): (w: Window)
    ensures pageSize >= 1 && w.end >= 1 ==> 1 <= w.start <= w.end
    ensures pageSize >= 1 && w.end >= 1 ==> w.end - w.start + 1 == Min(pageSize, w.end)
    ensures pageNo >= 1 && pageSize >= 0 ==> w.end <= total
  {
    var end := total - (pageNo - 1) * pageSize;
    Window(Max(1, end - pageSize + 1), end)
  }

  lemma DivUnique(a: int, s: int, q: int)
    requires s > 0 && q * s <= a < q * s + s
    ensures q == a / s
  {
    var d := a / s;
    assert a == d * s + a % s;
    if q < d {
      MulMono(q + 1, d, s);
    } else if q > d {
      MulMono(d + 1, q, s);
    }
  }

  lemma MulMono(x: int, y: int, s: int)
    requires x <= y && s >= 0
    ensures x * s <= y * s
  {
  }

  /** The pages tile the posts: each index 1..total lies in the window of
      exactly one page, page `(total - k) / pageSize + 1`. */
  lemma PagesPartition(total: int, pageSize: int, k: int)
    requires pageSize >= 1 && 1 <= k <= total
    ensures (total - k) / pageSize + 1 >= 1
    ensures PageWindow(total, (total - k) / pageSize + 1, pageSize).Contains(k)
    ensures forall p :: p >= 1 && PageWindow(total, p, pageSize).Contains(k) ==> p == (total - k) / pageSize + 1
  {
    var q := (total - k) / pageSize;
    assert q >= 0;
    assert total - k == q * pageSize + (total - k) % pageSize;
    assert PageWindow(total, q + 1, pageSize).end == total - q * pageSize;
    forall p | p >= 1 && PageWindow(total, p, pageSize).Contains(k)
      ensures p == q + 1
    {
      var end := total - (p - 1) * pageSize;
      assert PageWindow(total, p, pageSize) == Window(Max(1, end - pageSize + 1), end);
      assert end - pageSize + 1 <= k <= end;
      DivUnique(total - k, pageSize, p - 1);
    }
  }

  // ----------------------------------------------------------- list cache

  /** `page["content"][0]["children"][0]`, when the body has that shape and
      the node found there is a text; any other shape raises in core.py and
      moves on to the next field. */
  function ContentText(page: Page): Option<string> {
    match page.content
    case Some(nodes) =>
      if |nodes| > 0 && nodes[0].Element? && nodes[0].children.Some?
         && |nodes[0].children.value| > 0 && nodes[0].children.value[0].Text?
      then Some(nodes[0].children.value[0].text)
      else None
    case None => None
  }

  /** `page["description"]`, when present and non-empty. */
  function DescriptionText(page: Page): Option<string> {
    match page.description
    case Some(d) => if d != "" then Some(d) else None
    case None => None
  }

  function ParseOpt(text: Option<string>, parse: string -> Option<Posts>): Option<Posts> {
    match text
    case Some(t) => parse(t)
    case None => None
  }

  /** What `read_cache` makes of a fetched cache page: the content field is
      tried before the description, and `[]` comes back when neither
      parses. `parse` stands for `json.loads`. */
  function CachedPosts(page: Page, parse: string -> Option<Posts>): (posts: Posts)
    ensures ParseOpt(ContentText(page), parse).Some? ==> posts == ParseOpt(ContentText(page), parse).value
    ensures ParseOpt(ContentText(page), parse).None? && ParseOpt(DescriptionText(page), parse).Some?
            ==> posts == ParseOpt(DescriptionText(page), parse).value
    ensures ParseOpt(ContentText(page), parse).None? && ParseOpt(DescriptionText(page), parse).None? ==> posts == []
  {
    match ParseOpt(ContentText(page), parse)
    case Some(ps) => ps
    case None => ParseOpt(DescriptionText(page), parse).GetOr([])
  }

  /** `read_cache(channel, start, end)`: raises only when the cache page
      cannot be fetched; a fetched page yields the list its payload parses
      to. */
  function ReadCache(r: Remote, channel: Option<string>, w: Window, date: Date, parse: string -> Option<Posts>)
    : (res: Result<Posts, Error>)
    ensures res.Failure? <==> CacheUrl(channel, w.start, w.end, date) !in r.pages
    ensures res.Failure? ==> res.error == NotFound
    ensures res.Success? ==> res.value == CachedPosts(r.pages[CacheUrl(channel, w.start, w.end, date)], parse)
  {
    match GetPage(r, CacheUrl(channel, w.start, w.end, date))
    case Some(page) => Success(CachedPosts(page, parse))
    case None => Failure(NotFound)
  }

  /** `save_cache(channel, start, end, posts)`: a page whose one paragraph is
      the serialised list. `dump` stands for `json.dumps`; the page is taken
      to land at the window's cache address, with the paragraph text as its
      description. The page's author is not modelled (it is left `None`),
      since `read_cache` never reads it. */
  function SaveCache(r: Remote, channel: Option<string>, w: Window, posts: Posts, date: Date, dump: Posts -> string)
    : (res: Result<Remote, Error>)
    ensures res.Failure? <==> !r.writable
    ensures res.Success? ==> res.value.writable == r.writable
    ensures res.Success? ==> forall url :: url != CacheUrl(channel, w.start, w.end, date) ==> GetPage(res.value, url) == GetPage(r, url)
  {
    if !r.writable then Failure(WriteRefused)
    else
      var text := dump(posts);
      Success(r.(pages := r.pages[CacheUrl(channel, w.start, w.end, date) := Page(Some(text), None, Some(Paragraph(text)))]))
  }

  /** A saved window reads back as the list saved, provided the serialiser
      and the parser agree on it; another window of the same channel reads
      as before. */
  lemma CacheRoundTrip(r: Remote, channel: Option<string>, w: Window, posts: Posts, date: Date,
                       parse: string -> Option<Posts>, dump: Posts -> string, other: Window)
    requires SaveCache(r, channel, w, posts, date, dump).Success?
    requires parse(dump(posts)) == Some(posts)
    ensures ReadCache(SaveCache(r, channel, w, posts, date, dump).value, channel, w, date, parse) == Success(posts)
    ensures 0 <= w.start && 0 <= w.end && 0 <= other.start && 0 <= other.end && other != w ==>
            ReadCache(SaveCache(r, channel, w, posts, date, dump).value, channel, other, date, parse)
            == ReadCache(r, channel, other, date, parse)
  {
    if 0 <= w.start && 0 <= w.end && 0 <= other.start && 0 <= other.end && other != w {
      CacheUrlInjective(channel, w.start, w.end, other.start, other.end, date);
    }
  }

  /** Saving a cache window never changes what a post read returns, so it
      never changes the post count either. */
  lemma SaveCacheKeepsPosts(r: Remote, channel: Option<string>, w: Window, posts: Posts, date: Date,
                            dump: Posts -> string, postChannel: Option<string>, index: int)
    requires SaveCache(r, channel, w, posts, date, dump).Success?
    ensures Read(SaveCache(r, channel, w, posts, date, dump).value, postChannel, index, date) == Read(r, postChannel, index, date)
  {
    PostAndCacheDisjoint(postChannel, index, channel, w.start, w.end, date);
  }

  // ------------------------------------------------------------ slow path

  /** The entry a fetched post contributes: none when its description is
      missing or empty; the author's name, or "Anonymous" when the page has
      none. */
  function AsEntry(page: Page): (e: Option<Entry>)
    ensures e.Some? <==> DescriptionText(page).Some?
    ensures e.Some? ==> e.value.content == page.description.value && e.value.content != ""
    ensures e.Some? && page.authorName.None? ==> e.value.name == "Anonymous"
    ensures e.Some? && page.authorName.Some? ==> e.value.name == page.authorName.value
  {
    match DescriptionText(page)
    case Some(d) => Some(Entry(page.authorName.GetOr("Anonymous"), d))
    case None => None
  }

  /** What index `i` contributes on the slow path: nothing when `read`
      raises or the post has no text. */
  function EntryAt(r: Remote, channel: Option<string>, date: Date, i: int): Option<Entry> {
    match Read(r, channel, i, date)
    case Some(page) => AsEntry(page)
    case None => None
  }

  /** The contributions of every index of a channel, as one function. */
  function Entries(r: Remote, channel: Option<string>, date: Date): int -> Option<Entry> {
    i => EntryAt(r, channel, date, i)
  }

  function AsSeq(e: Option<Entry>): Posts {
    match e
    case Some(x) => [x]
    case None => []
  }

  /** Reference definition of the slow path over `[lo, hi]`: visit `hi`
      first and `lo` last, keep what each index contributes. `entry` is
      what an index contributes; on a store it is `Entries`. */
  function Collect(entry: int -> Option<Entry>, lo: int, hi: int): (posts: Posts)
    ensures |posts| <= if lo <= hi then hi - lo + 1 else 0
    decreases hi - lo
  {
    if lo > hi then [] else Collect(entry, lo + 1, hi) + AsSeq(entry(lo))
  }

  /** The indices the slow path keeps, in the order it keeps them. */
  function Kept(entry: int -> Option<Entry>, lo: int, hi: int): (ks: seq<int>)
    ensures forall k :: 0 <= k < |ks| ==> lo <= ks[k] <= hi && entry(ks[k]).Some?
    ensures forall a, b :: 0 <= a < b < |ks| ==> ks[a] > ks[b]
    decreases hi - lo
  {
    if lo > hi then []
    else Kept(entry, lo + 1, hi) + (if entry(lo).Some? then [lo] else [])
  }

  /** Every index of the window that contributes is kept. */
  lemma {:induction false} KeptComplete(entry: int -> Option<Entry>, lo: int, hi: int, i: int)
    ensures i in Kept(entry, lo, hi) <==> lo <= i <= hi && entry(i).Some?
    decreases hi - lo
  {
    if lo <= hi {
      KeptComplete(entry, lo + 1, hi, i);
      var rest := Kept(entry, lo + 1, hi);
      if entry(lo).Some? {
        assert Kept(entry, lo, hi) == rest + [lo];
        assert i in rest + [lo] <==> i in rest || i == lo;
      } else {
        assert Kept(entry, lo, hi) == rest + [];
        assert rest + [] == rest;
      }
    }
  }

  /** The slow path's entries are the contributions of the kept indices, in
      the same order: strictly descending index, newest first. */
  lemma {:induction false} CollectFollowsKept(entry: int -> Option<Entry>, lo: int, hi: int)
    ensures |Collect(entry, lo, hi)| == |Kept(entry, lo, hi)|
    ensures forall k :: 0 <= k < |Kept(entry, lo, hi)| ==> Collect(entry, lo, hi)[k] == entry(Kept(entry, lo, hi)[k]).value
    decreases hi - lo
  {
    if lo <= hi {
      CollectFollowsKept(entry, lo + 1, hi);
    }
  }

  /** When every index of the window contributes, the slow path returns one
      entry per index, index `hi - k` at position `k`. */
  lemma {:induction false} CollectFullWindow(entry: int -> Option<Entry>, lo: int, hi: int)
    requires lo <= hi + 1
    requires forall i :: lo <= i <= hi ==> entry(i).Some?
    ensures |Collect(entry, lo, hi)| == hi - lo + 1
    ensures forall k :: 0 <= k <= hi - lo ==> Collect(entry, lo, hi)[k] == entry(hi - k).value
    decreases hi - lo
  {
    if lo <= hi {
      CollectFullWindow(entry, lo + 1, hi);
      assert AsSeq(entry(lo)) == [entry(lo).value];
    }
  }

  /** One index of the window that fails costs exactly one entry: the rest of
      the window still comes back. */
  lemma {:induction false} CollectOneMissing(entry: int -> Option<Entry>, lo: int, hi: int, j: int)
    requires lo <= j <= hi
    requires entry(j).None?
    requires forall i :: lo <= i <= hi && i != j ==> entry(i).Some?
    ensures |Collect(entry, lo, hi)| == hi - lo
    decreases hi - lo
  {
    if lo == j {
      CollectFullWindow(entry, lo + 1, hi);
    } else {
      CollectOneMissing(entry, lo + 1, hi, j);
    }
  }

  /** The loop `for i in range(end, start - 1, -1)` of `readlist`. */
  method CollectPosts(r: Remote, channel: Option<string>, date: Date, start: int, end: int) returns (posts: Posts)
    ensures posts == Collect(Entries(r, channel, date), start, end)
  {
    posts := [];
    var i := end;
    while i >= start
      invariant i <= end
      invariant start <= end + 1 ==> start - 1 <= i
      invariant start > end + 1 ==> i == end
      invariant posts == Collect(Entries(r, channel, date), i + 1, end)
      decreases i - start
    {
      match Read(r, channel, i, date) {
        case Some(page) =>
          if DescriptionText(page).Some? {
            posts := posts + [Entry(page.authorName.GetOr("Anonymous"), page.description.value)];
          }
        case None =>
      }
      i := i - 1;
    }
  }

  // -------------------------------------------------------------- readlist

  /** `readlist` from the point where the post count is known: an empty list
      past the last page; a cached window returned as it is, even when it is
      empty; otherwise the slow path, whose result is saved as the window's
      cache before it is returned. The save is not guarded, so a refused
      save makes the whole call raise. */
  function ReadListFrom(r: Remote, channel: Option<string>, pageNo: int, pageSize: int, date: Date,
                        parse: string -> Option<Posts>, dump: Posts -> string, total: int)
    : (out: (Result<Posts, Error>, Remote))
    ensures var w := PageWindow(total, pageNo, pageSize);
            w.end <= 0 ==> out == (Success([]), r)
    ensures var w := PageWindow(total, pageNo, pageSize);
            w.end > 0 && CacheUrl(channel, w.start, w.end, date) in r.pages ==> out == (ReadCache(r, channel, w, date, parse), r)
    ensures var w := PageWindow(total, pageNo, pageSize);
            w.end > 0 && CacheUrl(channel, w.start, w.end, date) !in r.pages && r.writable
            ==> out.0 == Success(Collect(Entries(r, channel, date), w.start, w.end))
    ensures var w := PageWindow(total, pageNo, pageSize);
            forall url :: url != CacheUrl(channel, w.start, w.end, date) ==> GetPage(out.1, url) == GetPage(r, url)
    ensures out.0.Failure? ==> out.0.error == WriteRefused && !r.writable && out.1 == r
  {
    var w := PageWindow(total, pageNo, pageSize);
    if w.end <= 0 then (Success([]), r)
    else match ReadCache(r, channel, w, date, parse)
      case Success(posts) => (Success(posts), r)
      case Failure(_) =>
        var posts := Collect(Entries(r, channel, date), w.start, w.end);
        match SaveCache(r, channel, w, posts, date, dump)
        case Success(r') => (Success(posts), r')
        case Failure(e) => (Failure(e), r)
  }

  /** `readlist(channel, pageNo, pageSize)`. The count `find_total_posts`
      settled on is returned as `total` so that contracts can speak of it. */
  method ReadList(r: Remote, channel: Option<string>, pageNo: int, pageSize: int, date: Date,
                  parse: string -> Option<Posts>, dump: Posts -> string)
    returns (res: Result<Posts, Error>, r': Remote, total: int)
    ensures IsCount(PostProbe(r, channel, date), total)
    ensures forall n: nat :: Dense(PostProbe(r, channel, date), n) ==> total == n
    ensures (res, r') == ReadListFrom(r, channel, pageNo, pageSize, date, parse, dump, total)
    ensures res.Failure? ==> res.error == WriteRefused && !r.writable && r' == r
    ensures forall i :: PostProbe(r', channel, date)(i) == PostProbe(r, channel, date)(i)
  {
    PostProbeFinite(r, channel, date);
    var count, _ := FindTotalPosts(PostProbe(r, channel, date));
    total := count;
    var w := PageWindow(count, pageNo, pageSize);
    if w.end <= 0 {
      return Success([]), r, total;
    }
    var cached := ReadCache(r, channel, w, date, parse);
    if cached.Success? {
      return cached, r, total;
    }
    var posts := CollectPosts(r, channel, date, w.start, w.end);
    var saved := SaveCache(r, channel, w, posts, date, dump);
    if saved.Failure? {
      return Failure(saved.error), r, total;
    }
    forall i
      ensures PostProbe(saved.value, channel, date)(i) == PostProbe(r, channel, date)(i)
    {
      SaveCacheKeepsPosts(r, channel, w, posts, date, dump, channel, i);
    }
    return Success(posts), saved.value, total;
  }

  /** `readlist` succeeds exactly when the page lies past the last post, its
      window is already cached, or the store accepts the cache save. */
  lemma ReadListSucceeds(r: Remote, channel: Option<string>, pageNo: int, pageSize: int, date: Date,
                         parse: string -> Option<Posts>, dump: Posts -> string, total: int)
    ensures var w := PageWindow(total, pageNo, pageSize);
            ReadListFrom(r, channel, pageNo, pageSize, date, parse, dump, total).0.Success?
            <==> w.end <= 0 || CacheUrl(channel, w.start, w.end, date) in r.pages || r.writable
  {
    var w := PageWindow(total, pageNo, pageSize);
    if w.end > 0 && CacheUrl(channel, w.start, w.end, date) !in r.pages {
      assert ReadCache(r, channel, w, date, parse).Failure?;
    }
  }

  /** `readlist` with the cache save made best effort: the cache only saves
      later calls work, so a refused save returns the posts just collected
      and leaves the store as it was, instead of costing the caller the
      whole page. */
  function ReadListFromBestEffort(r: Remote, channel: Option<string>, pageNo: int, pageSize: int, date: Date,
                                  parse: string -> Option<Posts>, dump: Posts -> string, total: int)
    : (out: (Result<Posts, Error>, Remote))
    ensures out.0.Success?
    ensures ReadListFrom(r, channel, pageNo, pageSize, date, parse, dump, total).0.Success?
            ==> out == ReadListFrom(r, channel, pageNo, pageSize, date, parse, dump, total)
    ensures var w := PageWindow(total, pageNo, pageSize);
            ReadListFrom(r, channel, pageNo, pageSize, date, parse, dump, total).0.Failure?
            ==> out == (Success(Collect(Entries(r, channel, date), w.start, w.end)), r)
  {
    var w := PageWindow(total, pageNo, pageSize);
    if w.end <= 0 then (Success([]), r)
    else match ReadCache(r, channel, w, date, parse)
      case Success(posts) => (Success(posts), r)
      case Failure(_) =>
        var posts := Collect(Entries(r, channel, date), w.start, w.end);
        match SaveCache(r, channel, w, posts, date, dump)
        case Success(r') => (Success(posts), r')
        case Failure(_) => (Success(posts), r)
  }

  /** On a cache miss against a store that refuses the save, `readlist` as
      written raises and loses the posts it collected, where the best-effort
      reading returns them. */
  lemma SaveRefusalLosesFeed(r: Remote, channel: Option<string>, pageNo: int, pageSize: int, date: Date,
                             parse: string -> Option<Posts>, dump: Posts -> string, total: int)
    requires !r.writable
    requires var w := PageWindow(total, pageNo, pageSize);
             w.end >= 1 && CacheUrl(channel, w.start, w.end, date) !in r.pages
    ensures ReadListFrom(r, channel, pageNo, pageSize, date, parse, dump, total).0 == Failure(WriteRefused)
    ensures var w := PageWindow(total, pageNo, pageSize);
            ReadListFromBestEffort(r, channel, pageNo, pageSize, date, parse, dump, total)
            == (Success(Collect(Entries(r, channel, date), w.start, w.end)), r)
  {
    var w := PageWindow(total, pageNo, pageSize);
    assert ReadCache(r, channel, w, date, parse).Failure?;
  }

  /** The cache heals itself: once a call has succeeded, repeating it on the
      store it left returns the same feed and changes nothing, provided the
      serialiser and parser agree on the list it saved. The repeated call
      also sees the same posts, hence the same count. */
  lemma ReadListSelfHealing(r: Remote, channel: Option<string>, pageNo: int, pageSize: int, date: Date,
                            parse: string -> Option<Posts>, dump: Posts -> string, total: int)
    requires var w := PageWindow(total, pageNo, pageSize);
             w.end <= 0 || CacheUrl(channel, w.start, w.end, date) in r.pages || r.writable
    requires var w := PageWindow(total, pageNo, pageSize);
             var posts := Collect(Entries(r, channel, date), w.start, w.end);
             parse(dump(posts)) == Some(posts)
    ensures var out := ReadListFrom(r, channel, pageNo, pageSize, date, parse, dump, total);
            ReadListFrom(out.1, channel, pageNo, pageSize, date, parse, dump, total) == out
    ensures var out := ReadListFrom(r, channel, pageNo, pageSize, date, parse, dump, total);
            forall i :: PostProbe(out.1, channel, date)(i) == PostProbe(r, channel, date)(i)
  {
    var w := PageWindow(total, pageNo, pageSize);
    var out := ReadListFrom(r, channel, pageNo, pageSize, date, parse, dump, total);
    if w.end > 0 && ReadCache(r, channel, w, date, parse).Failure? {
      var posts := Collect(Entries(r, channel, date), w.start, w.end);
      assert SaveCache(r, channel, w, posts, date, dump).Success?;
      CacheRoundTrip(r, channel, w, posts, date, parse, dump, w);
      forall i
        ensures PostProbe(out.1, channel, date)(i) == PostProbe(r, channel, date)(i)
      {
        SaveCacheKeepsPosts(r, channel, w, posts, date, dump, channel, i);
      }
    }
  }

  /** `res` is a complete page for window `w`, newest first: it succeeded
      with min(pageSize, w.end) entries, and position `k` holds post
      `w.end - k`. */
  predicate NewestFirstPage(res: Result<Posts, Error>, entry: int -> Option<Entry>, w: Window, pageSize: int) {
    && res.Success?
    && |res.value| == Min(pageSize, w.end)
    && forall k :: 0 <= k < |res.value| ==> entry(w.end - k) == Some(res.value[k])
  }

  /** On a cache miss against a store that accepts the save, with
      `pageSize >= 1` and every index of the window yielding an entry
      (readable, with a non-empty description), a page comes back complete
      and newest first: position `k` holds the entry of post `end - k`. */
  lemma ReadListNewestFirst(r: Remote, channel: Option<string>, pageNo: int, pageSize: int, date: Date,
                            parse: string -> Option<Posts>, dump: Posts -> string, total: int)
    requires pageSize >= 1 && r.writable
    requires var w := PageWindow(total, pageNo, pageSize);
             && w.end >= 1
             && CacheUrl(channel, w.start, w.end, date) !in r.pages
             && forall i :: w.start <= i <= w.end ==> EntryAt(r, channel, date, i).Some?
    ensures NewestFirstPage(ReadListFrom(r, channel, pageNo, pageSize, date, parse, dump, total).0,
                            Entries(r, channel, date), PageWindow(total, pageNo, pageSize), pageSize)
  {
    var w := PageWindow(total, pageNo, pageSize);
    var res := ReadListFrom(r, channel, pageNo, pageSize, date, parse, dump, total).0;
    assert res == Success(Collect(Entries(r, channel, date), w.start, w.end)) by {
      ReadListMiss(r, channel, pageNo, pageSize, date, parse, dump, total);
    }
    FullPage(Entries(r, channel, date), w, pageSize, res);
  }

  /** A successful slow path over a full window of a page: one entry per
      index, newest first. */
  lemma FullPage(entry: int -> Option<Entry>, w: Window, pageSize: int, res: Result<Posts, Error>)
    requires pageSize >= 1 && w.end >= 1 && w.end - w.start + 1 == Min(pageSize, w.end)
    requires forall i :: w.start <= i <= w.end ==> entry(i).Some?
    requires res == Success(Collect(entry, w.start, w.end))
    ensures NewestFirstPage(res, entry, w, pageSize)
  {
    CollectFullWindow(entry, w.start, w.end);
  }

  /** A cache miss on a writable store takes the slow path and succeeds. */
  lemma ReadListMiss(r: Remote, channel: Option<string>, pageNo: int, pageSize: int, date: Date,
                     parse: string -> Option<Posts>, dump: Posts -> string, total: int)
    requires r.writable
    requires var w := PageWindow(total, pageNo, pageSize);
             w.end >= 1 && CacheUrl(channel, w.start, w.end, date) !in r.pages
    ensures var w := PageWindow(total, pageNo, pageSize);
            ReadListFrom(r, channel, pageNo, pageSize, date, parse, dump, total).0
            == Success(Collect(Entries(r, channel, date), w.start, w.end))
  {
    var w := PageWindow(total, pageNo, pageSize);
    assert ReadCache(r, channel, w, date, parse).Failure?;
  }
}
