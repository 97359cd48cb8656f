/** The addressing scheme of core.py: every post and every cached feed window
    lives at an address derived from a type name, a calendar date and an
    ordinal index. */
module Naming {
  import opened Wrappers
  import opened Decimal
  import opened UrlQuote

  /** A UTC calendar day; only `%m-%d` of it enters an address. The program
      reads it from the wall clock, the model takes it as a parameter. */
  datatype Date = Date(month: int, day: int) {
    predicate Valid() {
      1 <= month <= 12 && 1 <= day <= 31
    }
  }

  /** `%m` / `%d` of strftime: zero-padded to two digits. */
  function TwoDigits(n: int): string {
    if 0 <= n < 10 then "0" + IntToString(n) else IntToString(n)
  }

  function FormatDate(d: Date): string {
    TwoDigits(d.month) + "-" + TwoDigits(d.day)
  }

  /** `-{index}` for an index above 1, nothing otherwise. */
  function Suffix(index: int): string {
    if index > 1 then "-" + IntToString(index) else ""
  }

  /** `generate_url`: `rnw`, the quoted type name, `-`, the date, the suffix. */
  function GenerateUrl(typeName: string, index: int, date: Date): string {
    "rnw" + Quote(typeName) + "-" + FormatDate(date) + Suffix(index)
  }

  /** `channel or ''`: an absent channel and the empty channel name the same
      namespace. */
  function ChannelTag(channel: Option<string>): string {
    channel.GetOr("")
  }

  /** The address that `read` and the existence probe fetch for post `index`. */
  function PostUrl(channel: Option<string>, index: int, date: Date): string {
    GenerateUrl("post" + ChannelTag(channel), index, date)
  }

  /** The address of the cached feed window `[start, end]`. */
  function CacheUrl(channel: Option<string>, start: int, end: int, date: Date): string {
    GenerateUrl(CacheLabel(channel, start, end), 1, date)
  }

  /** The type name `list{channel}-{start}-{end}` of a cached window. */
  function CacheLabel(channel: Option<string>, start: int, end: int): string {
    "list" + ChannelTag(channel) + "-" + WindowTag(start, end)
  }

  /** `{start}-{end}`. */
  function WindowTag(start: int, end: int): string {
    IntToString(start) + "-" + IntToString(end)
  }

  // ------------------------------------------------------------- lemmas

  /** Index 1 (and anything below) gets the bare address; a larger index gets
      the bare address followed by `-` and its decimal digits. */
  lemma UrlSuffix(t: string, index: int, date: Date)
    ensures index <= 1 ==> GenerateUrl(t, index, date) == GenerateUrl(t, 1, date)
    ensures index > 1 ==> GenerateUrl(t, index, date) == GenerateUrl(t, 1, date) + "-" + NatToString(index)
    ensures GenerateUrl(t, index, date) == GenerateUrl(t, 1, date) <==> index <= 1
  {
    if index > 1 {
      assert |GenerateUrl(t, index, date)| > |GenerateUrl(t, 1, date)|;
    }
  }

  /** For a fixed type name and date, indices from 1 up get pairwise distinct
      addresses. */
  lemma UrlInjectiveInIndex(t: string, i: int, j: int, date: Date)
    requires i >= 1 && j >= 1
    ensures GenerateUrl(t, i, date) == GenerateUrl(t, j, date) <==> i == j
  {
    var base := GenerateUrl(t, 1, date);
    if GenerateUrl(t, i, date) == GenerateUrl(t, j, date) {
      UrlSuffix(t, i, date);
      UrlSuffix(t, j, date);
      assert GenerateUrl(t, i, date)[|base|..] == Suffix(i);
      assert GenerateUrl(t, j, date)[|base|..] == Suffix(j);
      if i > 1 && j > 1 {
        assert Suffix(i)[1..] == NatToString(i);
        assert Suffix(j)[1..] == NatToString(j);
        NatToStringInjective(i, j);
      }
    }
  }

  /** Strings that agree on a prefix and a suffix agree in between. */
  lemma CancelAround(p: string, x: string, y: string, tail: string)
    requires p + x + tail == p + y + tail
    ensures x == y
  {
    var l, r := p + x + tail, p + y + tail;
    assert |x| == |y|;
    assert l[|p|..|p| + |x|] == x;
    assert r[|p|..|p| + |y|] == y;
  }

  /** The part of an address after the quoted type name. */
  function UrlTail(index: int, date: Date): string {
    "-" + FormatDate(date) + Suffix(index)
  }

  lemma UrlParts(t: string, index: int, date: Date)
    ensures GenerateUrl(t, index, date) == "rnw" + Quote(t) + UrlTail(index, date)
  {
  }

  /** For a fixed index and date, distinct type names get distinct addresses. */
  lemma UrlInjectiveInType(s: string, t: string, index: int, date: Date)
    ensures GenerateUrl(s, index, date) == GenerateUrl(t, index, date) <==> s == t
  {
    if GenerateUrl(s, index, date) == GenerateUrl(t, index, date) {
      UrlParts(s, index, date);
      UrlParts(t, index, date);
      CancelAround("rnw", Quote(s), Quote(t), UrlTail(index, date));
      QuoteInjective(s, t);
    }
  }

  lemma TwoDigitsOf(n: int)
    requires 0 <= n < 100
    ensures TwoDigits(n) == [DigitChar(n / 10), DigitChar(n % 10)]
  {
    if n >= 10 {
      assert NatToString(n / 10) == [DigitChar(n / 10)];
      assert NatToString(n) == NatToString(n / 10) + [DigitChar(n % 10)];
    }
  }

  /** Distinct calendar days format differently, always in five characters. */
  lemma FormatDateInjective(d1: Date, d2: Date)
    requires d1.Valid() && d2.Valid()
    ensures |FormatDate(d1)| == 5
    ensures FormatDate(d1) == FormatDate(d2) <==> d1 == d2
  {
    TwoDigitsOf(d1.month);
    TwoDigitsOf(d1.day);
    TwoDigitsOf(d2.month);
    TwoDigitsOf(d2.day);
    if FormatDate(d1) == FormatDate(d2) {
      var f1, f2 := FormatDate(d1), FormatDate(d2);
      assert f1[0] == f2[0] && f1[1] == f2[1] && f1[3] == f2[3] && f1[4] == f2[4];
      assert d1.month / 10 == d2.month / 10 && d1.month % 10 == d2.month % 10;
      assert d1.day / 10 == d2.day / 10 && d1.day % 10 == d2.day % 10;
    }
  }

  /** The address embeds the date it is computed on: the same post looked up
      on another day is looked up at another address. */
  lemma UrlDependsOnDate(t: string, index: int, d1: Date, d2: Date)
    requires d1.Valid() && d2.Valid()
    ensures GenerateUrl(t, index, d1) == GenerateUrl(t, index, d2) <==> d1 == d2
  {
    if GenerateUrl(t, index, d1) == GenerateUrl(t, index, d2) {
      FormatDateInjective(d1, d2);
      FormatDateInjective(d2, d1);
      var k := 4 + |Quote(t)|;
      assert GenerateUrl(t, index, d1)[k..k + 5] == FormatDate(d1);
      assert GenerateUrl(t, index, d2)[k..k + 5] == FormatDate(d2);
    }
  }

  /** Two digit strings joined by `-` split back uniquely. */
  lemma SplitAtDash(a: string, b: string, c: string, d: string)
    requires AllDigits(a) && AllDigits(c)
    requires a + "-" + b == c + "-" + d
    ensures a == c && b == d
  {
    var x, y := a + "-" + b, c + "-" + d;
    assert x[|a|] == '-' && y[|c|] == '-';
    assert forall k :: 0 <= k < |a| ==> x[k] == a[k];
    assert forall k :: 0 <= k < |c| ==> y[k] == c[k];
    assert |a| == |c|;
    assert x[..|a|] == a && y[..|c|] == c;
    assert x[|a| + 1..] == b && y[|c| + 1..] == d;
  }

  lemma WindowTagInjective(s1: nat, e1: nat, s2: nat, e2: nat)
    requires WindowTag(s1, e1) == WindowTag(s2, e2)
    ensures s1 == s2 && e1 == e2
  {
    SplitAtDash(NatToString(s1), NatToString(e1), NatToString(s2), NatToString(e2));
    NatToStringInjective(s1, s2);
    NatToStringInjective(e1, e2);
  }

  lemma CacheLabelInjective(channel: Option<string>, s1: nat, e1: nat, s2: nat, e2: nat)
    requires CacheLabel(channel, s1, e1) == CacheLabel(channel, s2, e2)
    ensures s1 == s2 && e1 == e2
  {
    var head := "list" + ChannelTag(channel) + "-";
    CancelAround(head, WindowTag(s1, e1), WindowTag(s2, e2), "");
    WindowTagInjective(s1, e1, s2, e2);
  }

  /** Cache windows of one channel never share an address: a different
      `[start, end]` is a different page, so a lookup never reuses a window
      that only overlaps. */
  lemma CacheUrlInjective(channel: Option<string>, s1: nat, e1: nat, s2: nat, e2: nat, date: Date)
    ensures CacheUrl(channel, s1, e1, date) == CacheUrl(channel, s2, e2, date) <==> s1 == s2 && e1 == e2
  {
    if CacheUrl(channel, s1, e1, date) == CacheUrl(channel, s2, e2, date) {
      UrlInjectiveInType(CacheLabel(channel, s1, e1), CacheLabel(channel, s2, e2), 1, date);
      CacheLabelInjective(channel, s1, e1, s2, e2);
    }
  }

  lemma QuoteKeepsHead(word: string, rest: string)
    requires |word| == 4
    requires forall k :: 0 <= k < 4 ==> IsSafeChar(word[k])
    ensures Quote(word + rest) == word + Quote(rest)
  {
    QuoteAppend(word, rest);
    QuoteSafeText(word);
  }

  lemma PostUrlHead(channel: Option<string>, index: int, date: Date)
    ensures |PostUrl(channel, index, date)| > 3 && PostUrl(channel, index, date)[3] == 'p'
  {
    var t := ChannelTag(channel);
    QuoteKeepsHead("post", t);
    UrlTypeHead("post" + t, index, date);
  }

  lemma CacheUrlHead(channel: Option<string>, start: int, end: int, date: Date)
    ensures |CacheUrl(channel, start, end, date)| > 3 && CacheUrl(channel, start, end, date)[3] == 'l'
  {
    var t := ChannelTag(channel) + "-" + WindowTag(start, end);
    assert CacheLabel(channel, start, end) == "list" + t;
    QuoteKeepsHead("list", t);
    UrlTypeHead("list" + t, 1, date);
  }

  /** Post addresses and cache addresses never coincide, whatever the
      channels, indices and windows. */
  lemma PostAndCacheDisjoint(c1: Option<string>, index: int, c2: Option<string>, start: int, end: int, date: Date)
    ensures PostUrl(c1, index, date) != CacheUrl(c2, start, end, date)
  {
    PostUrlHead(c1, index, date);
    CacheUrlHead(c2, start, end, date);
  }

  lemma UrlTypeHead(t: string, index: int, date: Date)
    requires |Quote(t)| > 0
    ensures |GenerateUrl(t, index, date)| > 3 && GenerateUrl(t, index, date)[3] == Quote(t)[0]
  {
    UrlParts(t, index, date);
  }

  /** On a day whose month and day numbers agree and have two digits
      (10-10, 11-11, 12-12), the first post of channel `ch + "-" + day` and
      post number `day` of channel `ch` get the same address. */
  lemma ChannelCollision(ch: string, date: Date)
    requires date.Valid() && date.month == date.day && date.day >= 10
    ensures "post" + ch + "-" + IntToString(date.day) != "post" + ch
    ensures PostUrl(Some(ch + "-" + IntToString(date.day)), 1, date) == PostUrl(Some(ch), date.day, date)
  {
    var dd := IntToString(date.day);
    TwoDigitsOf(date.day);
    assert dd == [DigitChar(date.day / 10), DigitChar(date.day % 10)];
    assert forall k :: 0 <= k < |"-" + dd| ==> IsSafeChar(("-" + dd)[k]);
    QuoteSafeText("-" + dd);
    assert "post" + (ch + "-" + dd) == ("post" + ch) + ("-" + dd);
    QuoteAppend("post" + ch, "-" + dd);
    assert |"post" + ch + "-" + dd| > |"post" + ch|;
  }
}
