# rnw core: addressing, post counting and feed assembly

rnw is a small microblog that runs on top of the telegra.ph page service. The
service offers no "list the posts of a channel" operation. So `core.py` does
three things:

- it names every post and every cached feed window by a deterministic
  address;
- it finds the number of posts by probing those addresses;
- it rebuilds a reverse-chronological feed page by page.

This project models that core in Dafny and proves properties of the model.

| file | module | models |
|---|---|---|
| `wrappers.dfy` | `Wrappers` | `Option` and `Result`, standing in for absent values and raised exceptions |
| `decimal.dfy` | `Decimal` | `str(int)` as f-strings render an index, with its inverse |
| `quote.dfy` | `UrlQuote` | `urllib.parse.quote` with `safe='/'`: UTF-8 encoding, then `%XX` for every unsafe byte, plus the inverse `Unquote` |
| `naming.dfy` | `Naming` | `generate_url`, the post address used by `read`/`valid`, and the cache address used by `read_cache` |
| `discovery.dfy` | `Discovery` | `find_total_posts` over an abstract probe `valid: int -> bool` |
| `store.dfy` | `Store` | the page store as a map from address to page record, `read`, the `valid` closure, and `write` as a store update |
| `feed.dfy` | `Feed` | page-window arithmetic, `read_cache`, `save_cache`, the slow-path loop, and `readlist` |

Modelling choices:

- **The date is a parameter.** The program reads it from the UTC wall clock;
  here it is a `Date(month, day)` parameter.
- **The remote store is a record.** It is `Remote(pages, writable)`. An
  address missing from `pages` stands for every way `get_page` can raise.
  `writable` says whether `create_account` and `create_page` succeed.
- **JSON is a pair of parameters.** `json.loads` is `parse: string -> Option<Posts>`
  and `json.dumps` is `dump: Posts -> string`.
- **The search returns its probe trace.** `FindTotalPosts` returns the count
  together with the indices it probed, in order. That makes "one probe for an
  empty channel" and the logarithmic bound on probes statable.
- **The slow path is stated over contributions.** `Collect` and `Kept` take
  `entry: int -> Option<Entry>`, what each index adds to the feed. On a store
  that is `Entries(r, channel, date)`, which reads the post and applies the
  `description`/`author_name` rule of core.py:80-82.
- **Division needs no adjustment.** Python's `//` at core.py:44 is applied only
  to positive operands, where Dafny's `/` agrees with it.

What is proved, in short:

- **Quoting round-trips.** `Quote` is inverted by `Unquote`, so it is injective.
- **The suffix rule.** Index 1, and any index below it, gets the bare address.
  A larger index appends `-` and its digits.
- **Addresses are injective in each argument.** With the other arguments
  fixed, the address separates indices from 1 upward (index 0 and index 1
  share an address), type names, valid calendar days, and cache windows with
  non-negative bounds.
  Post addresses and cache addresses never coincide.
- **The search finds a switch point.** For any probe, the count is a place
  where the probe turns from true to false.
- **On dense posts the count is exact.** When posts are numbered 1..n with no
  gaps, the count is `n`. The probe count is at most `2*log2(n) + 6`.
- **Feed pages tile the posts.** For a page size of at least 1, the page
  windows partition `1..total`.
- **The slow path is newest first.** It visits the window in strictly
  descending order and keeps exactly the posts it can read that have a
  non-empty description.
- **A saved cache window reads back.** It returns the saved list, given a JSON
  codec that round-trips. A repeated `readlist` is then served from the cache
  with the same result.

Two properties of the source that the proofs expose:

- **A failed cache save fails the read.** `save_cache` at core.py:84 is not
  guarded. When the save raises, `readlist` raises too, and the posts just
  fetched are lost. `ReadListFrom` and `ReadList` follow the code and return
  `Failure(WriteRefused)` in that case. `ReadListFromBestEffort` makes the
  save best effort. The cache only saves later calls work, so a refused save
  should not cost the caller the page. As written, the terminal interface
  catches the exception and shows an empty feed (rnw.py:141-143). See
  "## Findings".
- **Addresses of different channels can collide.** `Naming.ChannelCollision`
  exhibits this on 10-10, 11-11 and 12-12 (month equal to day, two digits).
  On 10-10, the first post of channel `c + "-10"` and post 10 of channel `c`
  derive the same address.

## Model

| member | source | states |
|---|---|---|
| `Decimal.NatToStringInjective` | core.py:15 | distinct indices render as distinct decimal suffixes (via the parse-back inverse) |
| `Decimal.NatToStringLength` | core.py:15 | an index of at least 10^k renders in more than k digits |
| `UrlQuote.UnquoteQuote` | core.py:16 | percent-decoding then UTF-8 decoding recovers any quoted type name |
| `UrlQuote.QuoteInjective` | core.py:16 | two type names quote to the same text exactly when they are equal |
| `UrlQuote.QuoteAppend` | core.py:16 | quoting a concatenation is the concatenation of the quotings |
| `UrlQuote.QuoteSafeText` | core.py:16 | text of ASCII letters, digits and `_.-~/` is left unchanged by quoting |
| `Naming.UrlSuffix` | core.py:15-16 | the address equals the index-1 address exactly when index <= 1; otherwise it is that address followed by `-` and the index's digits |
| `Naming.UrlInjectiveInIndex` | core.py:15-16 | for fixed type name and date, indices >= 1 have equal addresses only if they are equal |
| `Naming.UrlInjectiveInType` | core.py:16 | for fixed index and date, type names have equal addresses only if they are equal |
| `Naming.FormatDateInjective` | core.py:14 | `%m-%d` of a calendar day is five characters and distinct days format differently |
| `Naming.UrlDependsOnDate` | core.py:14-16 | the same type name and index give equal addresses on two days only if the days are equal |
| `Naming.CacheUrlInjective` | core.py:49-50 | within one channel and day, cache windows with non-negative bounds share an address only if both bounds agree |
| `Naming.PostAndCacheDisjoint` | core.py:24-25 | no post address (`rnwpost...`) equals any cache address (`rnwlist...`) |
| `Naming.ChannelCollision` | core.py:13-16 | on a day with month == day >= 10, the first post of channel `c-DD` and post DD of channel `c` share an address |
| `Discovery.FindTotalPosts` | core.py:27-47 | the result is a switch point of the probe; it equals n when posts are dense 1..n; an absent index 1 gives 0 after the single probe of 1; a positive result costs at most 2*log2(result)+6 probes |
| `Discovery.DenseCount` | core.py:43-47 | on dense posts 1..n the only switch point is n |
| `Store.Read` | core.py:24-25 | the read succeeds exactly when the post address is stored, and then returns the page stored there; indices <= 1 all read the first post |
| `Store.Write` | core.py:18-22 | fails exactly when the account or page cannot be created; on success the post reads back with its text, the author and a one-paragraph body, and every other address is unchanged |
| `Store.WriteExtendsDense` | core.py:18-22 | writing post n+1 into a channel holding posts 1..n leaves it holding posts 1..n+1 |
| `Store.PostProbeFinite` | core.py:36-38 | for any store some index bounds every post that exists, so the doubling loop stops |
| `Feed.PageWindow` | core.py:69-72 | a non-empty window satisfies 1 <= start <= end, holds min(pageSize, end) indices, and for pageNo >= 1 and pageSize >= 0 never ends past the total |
| `Feed.PagesPartition` | core.py:69-72 | for pageSize >= 1, every index 1..total lies in the window of exactly one page >= 1, namely (total-k)/pageSize + 1 |
| `Feed.CachedPosts` | core.py:53-60 | the content paragraph is tried before the description; the first that parses is returned; `[]` when neither parses |
| `Feed.ReadCache` | core.py:49-60 | raises (not found) exactly when the cache page cannot be fetched; a fetched page yields `CachedPosts` of that page |
| `Feed.SaveCache` | core.py:62-65 | fails exactly when creation is refused; on success only the window's cache address changes |
| `Feed.CacheRoundTrip` | core.py:49-65 | after a save, the same window reads back the saved list (given a round-tripping codec) and any other window with non-negative bounds reads as before |
| `Feed.SaveCacheKeepsPosts` | core.py:62-65 | saving a cache window does not change any post read, hence not the count |
| `Feed.AsEntry` | core.py:81-82 | a post yields an entry exactly when its description is non-empty; the entry carries that description and the author name, or "Anonymous" when absent |
| `Feed.Collect` | core.py:77-83 | the slow path over [lo, hi] emits at most hi-lo+1 entries |
| `Feed.Kept` | core.py:78-83 | the kept indices lie in [lo, hi], are strictly descending and each yields an entry |
| `Feed.KeptComplete` | core.py:78-83 | an index is kept exactly when it lies in [lo, hi] and yields an entry |
| `Feed.CollectFollowsKept` | core.py:77-83 | the k-th emitted entry is the entry of the k-th kept index, so entries come out in visit order |
| `Feed.CollectFullWindow` | core.py:78-83 | when every index yields an entry, the result has one entry per index with index hi-k at position k |
| `Feed.CollectOneMissing` | core.py:79-83 | one failing index in the window yields a feed exactly one entry shorter than the window |
| `Feed.CollectPosts` | core.py:77-83 | the descending loop computes the reference slow path `Collect` |
| `Feed.ReadListFrom` | core.py:67-85 | past the last page the result is [] with the store untouched; a cached window is returned verbatim, even when empty; a cache miss on a writable store returns the slow path's `Collect` over the window; only the window's cache address may change; the only failure is a refused cache save, which leaves the store as it was |
| `Feed.ReadList` | core.py:67-85 | the count used is a switch point of the post probe, and the exact count on dense posts; the result is `ReadListFrom` at that count; a failure is a refused save that leaves the store as it was; no post read changes |
| `Feed.SaveRefusalLosesFeed` | core.py:74-85 | on a cache miss against a store that refuses the save, the call as written raises, while the best-effort reading returns the collected posts with the store unchanged |
| `Feed.ReadListFromBestEffort` | core.py:74-85 | with the save made best effort, every call succeeds; it agrees with `ReadListFrom` whenever that succeeds, and otherwise returns the collected posts with the store unchanged |
| `Feed.ReadListSucceeds` | core.py:72-85 | a call succeeds exactly when the page lies past the last post, its window is cached, or the store accepts the cache save |
| `Feed.ReadListSelfHealing` | core.py:74-85 | when the call succeeds (the condition of `ReadListSucceeds`) and the codec round-trips the collected list, repeating it on the resulting store returns the same feed, leaves the store unchanged, and sees the same post probe |
| `Feed.ReadListNewestFirst` | core.py:69-85 | on a cache miss against a store that accepts the save, with pageSize >= 1 and every index of the window yielding an entry (readable, non-empty description), the page holds min(pageSize, end) entries, the entry of post end-k at position k |

## Left out

- telegraph.py is not part of this model. It is the HTTP and JSON wrapper
  over the page service. Its answers are the `Remote` record; its failures are
  absent addresses or `writable == false`.
- rnw.py is not part of this model. It holds the terminal interface:
  rendering, key handling, channel switching, paging and message entry. It
  calls `readlist` once per page load (rnw.py:137-143) and `write` to post.
- `create_account` (core.py:10-11) has no separate member. Its only effect
  that matters here is success or failure, which `Remote.writable` carries
  inside `Write` and `SaveCache`.
- The `print` in `write` (core.py:22) and the usage demo (core.py:87-93) are
  not modelled. They are console output.
- The page path the service assigns on `createPage` is an assumption, not
  derived. `Write` takes the index the service assigns as a parameter.
  `SaveCache` places the cache page at index 1 of its label. The service is
  also taken to copy the paragraph text into the description.
- `datetime.now` (core.py:14) and `getpass.getuser()` (core.py:11, 21) are not
  modelled: they become the `date` and `user` parameters.
- `json.loads` and `json.dumps` are not modelled; they are the parameters
  `parse` and `dump`. Only list-of-entry payloads are represented, so a cache
  page whose JSON is some other value is out of scope.
- The date is fixed for a whole operation. `generate_url` reads the UTC clock
  on every call (core.py:14): on every probe, on `read_cache` and on every
  `read`. A `readlist` that crosses UTC midnight can count posts under one
  day's addresses and read the window under the next day's. The model passes
  one `date` to every address of a call, so it cannot express that.
- Transient network failures are not modelled. The store is a fixed map, so
  the same address answers the same way on every call in one operation.
- `Discovery.FindTotalPosts` requires that some index bounds every valid index.
  Without such a bound the doubling loop at core.py:38 never ends.
  `Store.PostProbeFinite` proves the requirement holds for every store.
- `Discovery.FindTotalPosts` assumes nothing about gaps. If a post is missing
  in the middle, the result is still a switch point of the probe, but it may
  fall before the gap rather than at the last post.
- `Naming.CacheUrlInjective` and `Feed.CacheRoundTrip`: only non-negative window bounds are covered.
  `readlist` only ever builds windows with `start >= 1`.

## Findings

| source | as written | input that shows it | evidently intended | confidence | as-written member | corrected member |
|---|---|---|---|---|---|---|
| core.py:84 | `save_cache` runs unguarded inside the `except:` branch of `readlist`, so a refused save makes `readlist` raise and drops the posts it just collected | any page with `end >= 1` whose window has no cache page, against a store where `create_account`/`create_page` fail | the cache only saves later calls work, so its write is best effort: the collected posts are returned and the failure ignored (as written, rnw.py:141-143 shows an empty feed) | medium, not executed | `Feed.SaveRefusalLosesFeed` (about `Feed.ReadListFrom`) | `Feed.ReadListFromBestEffort` |
