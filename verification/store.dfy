/** The remote page store as core.py uses it, and the two operations of
    core.py that touch single posts: `read` and `write`. The HTTP wrapper
    around the page service is not part of this model; what it returns is
    folded into a map from address to page, and what its write calls do is
    folded into an update of that map. */
module Store {
  import opened Wrappers
  import opened Decimal
  import opened Naming
  import opened Discovery

  /** A node of a page body: a text, or an element whose `children` key may
      be missing. */
  datatype Node = Text(text: string) | Element(tag: string, children: Option<seq<Node>>)

  /** The fields of a fetched page that core.py looks at; each may be absent. */
  datatype Page = Page(description: Option<string>, authorName: Option<string>, content: Option<seq<Node>>)

  /** The page service as the client sees it. `pages` holds every address
      that `get_page` answers; an address outside it stands for every way
      `get_page` can raise (not found, network error, malformed reply).
      `writable` says whether account and page creation succeed. */
  datatype Remote = Remote(pages: map<string, Page>, writable: bool)

  /** Why an operation raised: a fetch that failed, a write that failed. */
  datatype Error = NotFound | WriteRefused

  /** `api.get_page(url, True)`. */
  function GetPage(r: Remote, url: string): Option<Page> {
    if url in r.pages then Some(r.pages[url]) else None
  }

  /** `read(channel, index)`: the page at the post address for `index`.
      Every index up to 1 reads the first post, since none of them gets a
      suffix. */
  function Read(r: Remote, channel: Option<string>, index: int, date: Date): (page: Option<Page>)
    ensures index <= 1 ==> page == GetPage(r, PostUrl(channel, 1, date))
    ensures page.Some? <==> PostUrl(channel, index, date) in r.pages
    ensures page.Some? ==> page.value == r.pages[PostUrl(channel, index, date)]
  {
    GetPage(r, PostUrl(channel, index, date))
  }

  /** The `valid` closure of `find_total_posts`: whether `read` succeeds. */
  function PostProbe(r: Remote, channel: Option<string>, date: Date): int -> bool {
    i => Read(r, channel, i, date).Some?
  }

  /** The body core.py gives every page it creates: one paragraph holding
      one text. */
  function Paragraph(text: string): seq<Node> {
    [Element("p", Some([Text(text)]))]
  }

  /** `write(content, channel)`: create an account, then a page titled
      `rnwpost{channel}` with `content` as its only paragraph. Which index
      the service puts into the new page's address is its own decision; the
      model takes it as `index`. The service is taken to derive the
      description from the paragraph text. */
  function Write(r: Remote, content: string, channel: Option<string>, user: string, date: Date, index: int)
    : (res: Result<Remote, Error>)
    ensures res.Failure? <==> !r.writable
    ensures res.Success? ==> res.value.writable == r.writable
    ensures res.Success? ==> Read(res.value, channel, index, date) == Some(Page(Some(content), Some(user), Some(Paragraph(content))))
    ensures res.Success? ==> forall url :: url != PostUrl(channel, index, date) ==> GetPage(res.value, url) == GetPage(r, url)
  {
    if !r.writable then Failure(WriteRefused)
    else
      var page := Page(Some(content), Some(user), Some(Paragraph(content)));
      Success(r.(pages := r.pages[PostUrl(channel, index, date) := page]))
  }

  /** Writing post `n + 1` to a channel that holds posts 1..n leaves it
      holding posts 1..n+1, on the same day. */
  lemma WriteExtendsDense(r: Remote, content: string, channel: Option<string>, user: string, date: Date, n: nat)
    requires Dense(PostProbe(r, channel, date), n)
    requires Write(r, content, channel, user, date, n + 1).Success?
    ensures Dense(PostProbe(Write(r, content, channel, user, date, n + 1).value, channel, date), n + 1)
  {
    var r' := Write(r, content, channel, user, date, n + 1).value;
    forall i | i >= 1
      ensures PostProbe(r', channel, date)(i) <==> i <= n + 1
    {
      UrlInjectiveInIndex("post" + ChannelTag(channel), i, n + 1, date);
      assert PostProbe(r, channel, date)(i) <==> i <= n;
    }
  }

  /** The longest address held by the store. */
  ghost function MaxLength(keys: set<string>): (m: nat)
    ensures forall k :: k in keys ==> |k| <= m
    decreases keys
  {
    if keys == {} then 0
    else
      var k :| k in keys;
      var rest := MaxLength(keys - {k});
      if |k| > rest then |k| else rest
  }

  /** A store holds finitely many pages, so from some index on no post
      exists: the doubling phase of the count discovery ends. */
  lemma PostProbeFinite(r: Remote, channel: Option<string>, date: Date)
    ensures exists bound :: FinitelyValid(PostProbe(r, channel, date), bound)
  {
    var len := MaxLength(r.pages.Keys);
    var bound := Pow10(len) + 2;
    forall i | i >= bound
      ensures !PostProbe(r, channel, date)(i)
    {
      var t := "post" + ChannelTag(channel);
      UrlSuffix(t, i, date);
      NatToStringLength(i, len);
      assert |PostUrl(channel, i, date)| > len;
    }
    assert FinitelyValid(PostProbe(r, channel, date), bound);
  }
}
