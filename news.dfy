/** Feed snapshots, their diff, and the Discord text of one item (src/news.rs). */
module News {
  import opened Common
  import Decimal

  /** One feed entry. The derived deserialiser fills all four fields. */
  datatype NewsItem = NewsItem(id: U64, title: string, summary: string, platforms: seq<string>)

  /** One fetched snapshot, newest first. */
  datatype News = News(news: seq<NewsItem>)

  /** `PartialEq for NewsItem`: items are the same item when their ids agree. */
  predicate Eq(a: NewsItem, b: NewsItem) {
    a.id == b.id
  }

  /** Equality ignores title, summary and platforms, and is an equivalence. */
  lemma EqIsIdentityById(a: NewsItem, b: NewsItem, c: NewsItem)
    ensures Eq(a, b) <==> a.id == b.id
    ensures Eq(a, b.(title := a.title, summary := a.summary, platforms := a.platforms)) <==> Eq(a, b)
    ensures Eq(a, a)
    ensures Eq(a, b) ==> Eq(b, a)
    ensures Eq(a, b) && Eq(b, c) ==> Eq(a, c)
  {
  }

  /** `News::new()`: the empty snapshot. */
  function Empty(): (r: News)
    ensures |r.news| == 0
  {
    News([])
  }

  /** `Vec::contains` under `Eq`: some element has the id of `x`. */
  predicate Contains(items: seq<NewsItem>, x: NewsItem) {
    exists k :: 0 <= k < |items| && Eq(items[k], x)
  }

  function Ids(items: seq<NewsItem>): (r: seq<U64>)
    ensures |r| == |items|
    ensures forall k :: 0 <= k < |items| ==> r[k] == items[k].id
  {
    if items == [] then [] else Ids(items[..|items| - 1]) + [items[|items| - 1].id]
  }

  lemma ContainsIffIdOccurs(items: seq<NewsItem>, x: NewsItem)
    ensures Contains(items, x) <==> x.id in Ids(items)
  {
  }

  /** Reference definition of the diff: the items of `s`, in order, whose id is
      absent from `seen`. */
  function Different(s: seq<NewsItem>, seen: seq<NewsItem>): (r: seq<NewsItem>)
    ensures |r| <= |s|
  {
    if s == [] then []
    else Different(s[..|s| - 1], seen) + (if Contains(seen, s[|s| - 1]) then [] else [s[|s| - 1]])
  }

  /** `News::get_different_items`. */
  method GetDifferentItems(self: News, oldNews: News) returns (result: seq<NewsItem>)
    ensures result == Different(self.news, oldNews.news)
  {
    result := [];
    var i := 0;
    while i < |self.news|
      invariant 0 <= i <= |self.news|
      invariant result == Different(self.news[..i], oldNews.news)
    {
      var item := self.news[i];
      assert self.news[..i + 1][..i] == self.news[..i];
      if !Contains(oldNews.news, item) {
        result := result + [item];
      }
      i := i + 1;
    }
    assert self.news[..i] == self.news;
  }

  /** Soundness: every reported item is in the new snapshot and its id is not in the old one. */
  lemma {:induction false} DifferentSound(s: seq<NewsItem>, seen: seq<NewsItem>, x: NewsItem)
    requires x in Different(s, seen)
    ensures x in s && !Contains(seen, x)
  {
    if s != [] {
      var init := s[..|s| - 1];
      if x in Different(init, seen) {
        DifferentSound(init, seen, x);
        assert x in init;
      }
    }
  }

  /** Completeness: every item of the new snapshot whose id is not in the old one is reported. */
  lemma {:induction false} DifferentComplete(s: seq<NewsItem>, seen: seq<NewsItem>, x: NewsItem)
    requires x in s && !Contains(seen, x)
    ensures x in Different(s, seen)
  {
    var init := s[..|s| - 1];
    if x != s[|s| - 1] {
      assert s == init + [s[|s| - 1]];
      DifferentComplete(init, seen, x);
    }
  }

  /** The positions in `s` of the items the diff keeps, in increasing order. */
  function KeptIndices(s: seq<NewsItem>, seen: seq<NewsItem>): seq<nat> {
    if s == [] then []
    else KeptIndices(s[..|s| - 1], seen) + (if Contains(seen, s[|s| - 1]) then [] else [|s| - 1])
  }

  /** Order is preserved: the result is `s` restricted to the strictly increasing
      positions `KeptIndices`, which are exactly the positions of unseen ids. */
  lemma {:induction false} DifferentIsSubsequence(s: seq<NewsItem>, seen: seq<NewsItem>)
    ensures var r, idx := Different(s, seen), KeptIndices(s, seen);
      && |idx| == |r|
      && (forall k :: 0 <= k < |idx| ==> idx[k] < |s| && r[k] == s[idx[k]])
      && (forall k, l :: 0 <= k < l < |idx| ==> idx[k] < idx[l])
      && (forall j :: 0 <= j < |s| ==> (j in idx <==> !Contains(seen, s[j])))
  {
    if s != [] {
      var init := s[..|s| - 1];
      DifferentIsSubsequence(init, seen);
      var idx := KeptIndices(s, seen);
      forall j | 0 <= j < |s|
        ensures j in idx <==> !Contains(seen, s[j])
      {
        if j < |s| - 1 {
          assert s[j] == init[j];
        }
      }
    }
  }

  /** Diffing a snapshot against itself reports nothing. */
  lemma {:induction false} DifferentFromItself(s: seq<NewsItem>)
    ensures Different(s, s) == []
  {
    forall j | 0 <= j < |s|
      ensures Contains(s, s[j])
    {
      assert Eq(s[j], s[j]);
    }
    DifferentOfCovered(s, s);
  }

  /** Nothing is reported when every item of `s` is already contained in `seen`. */
  lemma {:induction false} DifferentOfCovered(s: seq<NewsItem>, seen: seq<NewsItem>)
    requires forall j :: 0 <= j < |s| ==> Contains(seen, s[j])
    ensures Different(s, seen) == []
  {
    if s != [] {
      DifferentOfCovered(s[..|s| - 1], seen);
    }
  }

  /** Diffing against `News::new()` reports the whole snapshot. */
  lemma {:induction false} DifferentFromEmpty(s: seq<NewsItem>)
    ensures Different(s, Empty().news) == s
  {
    if s != [] {
      DifferentFromEmpty(s[..|s| - 1]);
      assert !Contains([], s[|s| - 1]);
    }
  }

  // ---------------------------------------------------------------------------
  // Rendering (`NewsItem::get_msg_str`)

  /** Fixed parts of the rendered links. */
  const ArticlePrefix := "https://playstartrekonline.com/en/news/article/"
  const GamesPrefix := "<https://www.arcgames.com/en/games"
  const DetailPath := "/star-trek-online/news/detail/"

  /** The canonical article address of an item. */
  function ArticleUrl(id: U64): string {
    ArticlePrefix + Decimal.Show(id)
  }

  /** Bold title, summary, and the bracketed article address, one per line. */
  function Header(item: NewsItem): string {
    "**" + item.title + "**\n" + item.summary + "\n<" + ArticleUrl(item.id) + ">\n"
  }

  /** The path segment of a platform code; unknown codes add none. */
  function Segment(platform: string): string {
    if platform == "ps" then "/playstation"
    else if platform == "xbox" then "/xbox"
    else ""
  }

  /** The deep link line appended for one platform. */
  function PlatformLine(id: U64, platform: string): string {
    GamesPrefix + Segment(platform) + DetailPath + Decimal.Show(id) + ">\n"
  }

  /** The deep link lines of a platform list, one per platform, in order. */
  function Links(id: U64, platforms: seq<string>): seq<string> {
    seq(|platforms|, k requires 0 <= k < |platforms| => PlatformLine(id, platforms[k]))
  }

  /** Concatenation of lines. */
  function Join(lines: seq<string>): string {
    if lines == [] then "" else Join(lines[..|lines| - 1]) + lines[|lines| - 1]
  }

  lemma {:induction false} JoinAppend(a: seq<string>, b: seq<string>)
    ensures Join(a + b) == Join(a) + Join(b)
  {
    if b == [] {
      assert a + b == a;
    } else {
      assert (a + b)[..|a + b| - 1] == a + b[..|b| - 1];
      JoinAppend(a, b[..|b| - 1]);
    }
  }

  lemma JoinSingle(line: string)
    ensures Join([line]) == line
  {
  }

  /** Appending a line in six pieces is appending their concatenation. */
  lemma AppendPieces(r: string, a: string, b: string, c: string, d: string, e: string)
    ensures r + a + b + c + d + e == r + (a + b + c + d + e)
  {
  }

  lemma Associative(a: string, b: string, c: string)
    ensures (a + b) + c == a + (b + c)
  {
  }

  /** Everything appended after the header: one deep link line per platform. */
  function PlatformLines(id: U64, platforms: seq<string>): string {
    Join(Links(id, platforms))
  }

  /** Reference definition of the message text. */
  function Message(item: NewsItem): string {
    Header(item) + PlatformLines(item.id, item.platforms)
  }

  /** `NewsItem::get_msg_str`. */
  method GetMsgStr(item: NewsItem) returns (result: string)
    ensures result == Message(item)
  {
    var newUrl := ArticlePrefix + Decimal.Show(item.id);
    result := "**" + item.title + "**\n" + item.summary + "\n<" + newUrl + ">\n";
    assert result == Header(item);
    assert item.platforms[..0] == [] && Links(item.id, []) == [];
    assert Header(item) + PlatformLines(item.id, item.platforms[..0]) == Header(item) + "";
    assert Header(item) + "" == Header(item);
    var i := 0;
    while i < |item.platforms|
      invariant 0 <= i <= |item.platforms|
      invariant result == Header(item) + PlatformLines(item.id, item.platforms[..i])
    {
      var platform := item.platforms[i];
      ghost var before := result;
      result := result + GamesPrefix;
      if platform == "ps" {
        result := result + "/playstation";
      } else if platform == "xbox" {
        result := result + "/xbox";
      }
      assert result == before + GamesPrefix + Segment(platform);
      result := result + DetailPath + Decimal.Show(item.id) + ">\n";
      AppendPieces(before, GamesPrefix, Segment(platform), DetailPath, Decimal.Show(item.id), ">\n");
      assert result == before + PlatformLine(item.id, platform);
      assert item.platforms[..i + 1] == item.platforms[..i] + [platform];
      PlatformLinesAppend(item.id, item.platforms[..i], [platform]);
      PlatformLinesSingle(item.id, platform);
      Associative(Header(item), PlatformLines(item.id, item.platforms[..i]), PlatformLine(item.id, platform));
      i := i + 1;
    }
    assert item.platforms[..i] == item.platforms;
  }

  /** The message starts with the three-line header; with no platforms it is exactly that. */
  lemma MessageStartsWithHeader(item: NewsItem)
    ensures var m, h := Message(item), Header(item);
      |h| <= |m| && m[..|h|] == h
    ensures item.platforms == [] ==> Message(item) == Header(item)
  {
  }

  /** Deep links of consecutive platform lists concatenate, and a single platform
      contributes exactly its own line: the lines follow the platforms one for one. */
  lemma PlatformLinesAppend(id: U64, ps: seq<string>, qs: seq<string>)
    ensures PlatformLines(id, ps + qs) == PlatformLines(id, ps) + PlatformLines(id, qs)
  {
    assert Links(id, ps + qs) == Links(id, ps) + Links(id, qs);
    JoinAppend(Links(id, ps), Links(id, qs));
  }

  lemma PlatformLinesSingle(id: U64, p: string)
    ensures PlatformLines(id, [p]) == PlatformLine(id, p)
  {
    assert Links(id, [p]) == [PlatformLine(id, p)];
    JoinSingle(PlatformLine(id, p));
  }
}
