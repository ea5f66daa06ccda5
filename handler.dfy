/** The bot's state and its two event handlers (src/handler.rs): registering a
    channel on `!stobot`, priming the baseline id, and one pass of the poll loop.
    The Discord client is replaced by the list of messages a step would send, the
    feed fetch by the JSON document it returned, and `channels.txt` by a
    `TextFile` object holding its lines. */
module Handler {
  import opened Common
  import Decimal
  import News
  import Json
  import Lib

  /** A text file on disk, as the sequence of its lines. */
  class TextFile {
    var lines: seq<string>

    constructor (lines: seq<string>)
      ensures this.lines == lines
    {
      this.lines := lines;
    }
  }

  /** An incoming Discord message: its text and the channel it was posted in. */
  datatype Message = Message(content: string, channelId: U64)

  /** One outgoing `ChannelId::say`: the text posted into a channel. */
  datatype Send = Send(channel: U64, text: string)

  /** What one poll step does: the sends it makes, or the panic of the slice `[..10]`. */
  datatype PollOutcome = Sent(sends: seq<Send>) | SlicePanic

  const RegisterCommand := "!stobot"
  const RegisteredReply := "This channel will now have STO news posted."

  /** The number of ids each poll fetches, and the number announced when the
      baseline id is not among them. */
  const PollCount: U64 := 10

  // ---------------------------------------------------------------------------
  // Specification of the poll step

  /** `iter().position(|&i| i == x)`: the first index holding `x`. */
  function Position(ids: seq<U64>, x: U64): (r: Option<nat>)
    ensures r.None? <==> x !in ids
    ensures r.Some? ==> r.value < |ids| && ids[r.value] == x && x !in ids[..r.value]
  {
    if ids == [] then None
    else if ids[0] == x then Some(0)
    else match Position(ids[1..], x)
      case None => None
      case Some(p) => Some(p + 1)
  }

  /** The ids one poll step announces, newest first: those before the baseline id,
      or the first `PollCount` when the baseline is absent; `None` when that slice
      is longer than what was fetched. */
  function NewIds(ids: seq<U64>, latest: U64): (r: Option<seq<U64>>)
    ensures latest in ids ==> r.Some? && |r.value| < |ids| && r.value == ids[..|r.value|]
                              && ids[|r.value|] == latest && latest !in r.value
    ensures latest !in ids ==> (r.Some? <==> PollCount <= |ids|)
    ensures latest !in ids && r.Some? ==> r.value == ids[..PollCount]
  {
    match Position(ids, latest)
    case Some(p) => Some(ids[..p])
    case None => if PollCount <= |ids| then Some(ids[..PollCount]) else None
  }

  /** The order of `iter().rev()`. */
  function Reverse(s: seq<U64>): (r: seq<U64>)
    ensures |r| == |s|
    ensures forall k :: 0 <= k < |s| ==> r[k] == s[|s| - 1 - k]
  {
    if s == [] then [] else Reverse(s[1..]) + [s[0]]
  }

  /** `block` posts `text` once into every channel of `chans` and nowhere else. */
  predicate Broadcast(block: seq<Send>, chans: set<U64>, text: string) {
    && |block| == |chans|
    && (forall i :: 0 <= i < |block| ==> block[i].text == text && block[i].channel in chans)
    && (forall c :: c in chans ==> exists i :: 0 <= i < |block| && block[i].channel == c)
    && (forall i, j :: 0 <= i < j < |block| ==> block[i].channel != block[j].channel)
  }

  /** `sends` announces the ids of `order` one after the other, each as one
      broadcast of its article address to `chans`. */
  predicate FanOut(sends: seq<Send>, order: seq<U64>, chans: set<U64>)
    decreases |order|
  {
    if order == [] then sends == []
    else
      && |chans| <= |sends|
      && FanOut(sends[..|sends| - |chans|], order[..|order| - 1], chans)
      && Broadcast(sends[|sends| - |chans|..], chans, News.ArticleUrl(order[|order| - 1]))
  }

  lemma FanOutExtend(sends: seq<Send>, order: seq<U64>, chans: set<U64>, block: seq<Send>, id: U64)
    requires FanOut(sends, order, chans)
    requires Broadcast(block, chans, News.ArticleUrl(id))
    ensures FanOut(sends + block, order + [id], chans)
  {
  }

  /** One send per (id, channel) pair. */
  lemma {:induction false} FanOutLength(sends: seq<Send>, order: seq<U64>, chans: set<U64>)
    requires FanOut(sends, order, chans)
    ensures |sends| == |order| * |chans|
    decreases |order|
  {
    if order != [] {
      FanOutLength(sends[..|sends| - |chans|], order[..|order| - 1], chans);
      assert |sends| == (|order| - 1) * |chans| + |chans|;
    }
  }

  /** A send happens exactly when its channel is registered and its text is the
      address of an announced id. */
  lemma {:induction false} FanOutSends(sends: seq<Send>, order: seq<U64>, chans: set<U64>, s: Send)
    requires FanOut(sends, order, chans)
    ensures s in sends <==> s.channel in chans && exists id :: id in order && s.text == News.ArticleUrl(id)
    decreases |order|
  {
    if order != [] {
      var init, block := sends[..|sends| - |chans|], sends[|sends| - |chans|..];
      var last := order[|order| - 1];
      FanOutSends(init, order[..|order| - 1], chans, s);
      assert sends == init + block;
      assert order == order[..|order| - 1] + [last];
      if s.channel in chans && s.text == News.ArticleUrl(last) {
        var i :| 0 <= i < |block| && block[i].channel == s.channel;
        assert block[i] == s;
      }
      if exists id :: id in order && s.text == News.ArticleUrl(id) {
        var id :| id in order && s.text == News.ArticleUrl(id);
        if id != last {
          assert id in order[..|order| - 1];
        }
      }
    }
  }

  /** A sequence without repeats holds each of its elements exactly once. */
  lemma {:induction false} DistinctMultiset(b: seq<Send>)
    requires forall i, j :: 0 <= i < j < |b| ==> b[i] != b[j]
    ensures multiset(b) == multiset(set x | x in b)
    decreases |b|
  {
    if b != [] {
      var init, last := b[..|b| - 1], b[|b| - 1];
      DistinctMultiset(init);
      assert b == init + [last];
      assert forall i :: 0 <= i < |init| ==> init[i] == b[i] != last;
      assert (set x | x in b) == (set x | x in init) + {last};
    }
  }

  /** Two broadcasts of the same text to the same channels post the same sends,
      each exactly once, whatever the order of channels. */
  lemma BroadcastMultiset(b1: seq<Send>, b2: seq<Send>, chans: set<U64>, text: string)
    requires Broadcast(b1, chans, text) && Broadcast(b2, chans, text)
    ensures multiset(b1) == multiset(b2)
  {
    DistinctMultiset(b1);
    DistinctMultiset(b2);
    forall x | x in b1
      ensures x in b2
    {
      var i :| 0 <= i < |b1| && b1[i] == x;
      var j :| 0 <= j < |b2| && b2[j].channel == x.channel;
      assert b2[j] == x;
    }
    forall x | x in b2
      ensures x in b1
    {
      var j :| 0 <= j < |b2| && b2[j] == x;
      var i :| 0 <= i < |b1| && b1[i].channel == x.channel;
      assert b1[i] == x;
    }
    assert (set x | x in b1) == (set x | x in b2);
  }

  /** Two fan-outs of the same ids to the same channels make the same sends the
      same number of times. */
  lemma {:induction false} FanOutMultiset(s1: seq<Send>, s2: seq<Send>, order: seq<U64>, chans: set<U64>)
    requires FanOut(s1, order, chans) && FanOut(s2, order, chans)
    ensures multiset(s1) == multiset(s2)
    decreases |order|
  {
    if order != [] {
      var n1, n2 := |s1| - |chans|, |s2| - |chans|;
      FanOutMultiset(s1[..n1], s2[..n2], order[..|order| - 1], chans);
      BroadcastMultiset(s1[n1..], s2[n2..], chans, News.ArticleUrl(order[|order| - 1]));
      assert s1 == s1[..n1] + s1[n1..];
      assert s2 == s2[..n2] + s2[n2..];
    }
  }

  /** The inner send loop: `text` to each channel of the set, in the set's
      (unspecified) iteration order. */
  method SendToAll(channels: set<U64>, text: string) returns (block: seq<Send>)
    ensures Broadcast(block, channels, text)
  {
    block := [];
    var remaining := channels;
    while remaining != {}
      invariant remaining <= channels
      invariant |block| + |remaining| == |channels|
      invariant forall i :: 0 <= i < |block| ==> block[i].text == text && block[i].channel in channels - remaining
      invariant forall c :: c in channels - remaining ==> exists i :: 0 <= i < |block| && block[i].channel == c
      invariant forall i, j :: 0 <= i < j < |block| ==> block[i].channel != block[j].channel
      decreases remaining
    {
      var channelId :| channelId in remaining;
      ghost var before := block;
      assert forall c :: c in channels - remaining ==> exists i :: 0 <= i < |before| && before[i].channel == c;
      block := block + [Send(channelId, text)];
      forall c | c in channels - (remaining - {channelId})
        ensures exists i :: 0 <= i < |block| && block[i].channel == c
      {
        if c == channelId {
          assert block[|before|].channel == c;
        } else {
          assert c in channels - remaining;
          var i :| 0 <= i < |before| && before[i].channel == c;
          assert block[i].channel == c;
        }
      }
      remaining := remaining - {channelId};
    }
    assert channels - remaining == channels;
  }

  // ---------------------------------------------------------------------------
  // The handler

  class Handler {
    var latestNews: U64
    var channelIds: set<U64>
    /** `channels.txt`, which `add_channel` rewrites. */
    const file: TextFile

    /** `Handler::build`. */
    constructor Build(file: TextFile)
      ensures latestNews == 0 && channelIds == {}
      ensures this.file == file && file.lines == old(file.lines)
    {
      latestNews := 0;
      channelIds := {};
      this.file := file;
    }

    method GetLatestId() returns (value: U64)
      ensures value == latestNews
    {
      value := latestNews;
    }

    method SetLatestId(value: U64)
      modifies this
      ensures latestNews == value
      ensures channelIds == old(channelIds)
    {
      latestNews := value;
    }

    /** `get_channels`: a copy of the registered set. */
    method GetChannels() returns (channels: set<U64>)
      ensures channels == channelIds
    {
      channels := channelIds;
    }

    /** `add_channel`, as written: the set gains `id`, then every id of the set
        re-creates `channels.txt` and writes itself into it, so the file is left
        holding one line, the id visited last. */
    method AddChannel(id: U64)
      modifies this, file
      ensures channelIds == old(channelIds) + {id}
      ensures id in old(channelIds) ==> channelIds == old(channelIds)
      ensures latestNews == old(latestNews)
      ensures |file.lines| == 1 && exists c :: c in channelIds && file.lines[0] == Decimal.Show(c)
    {
      channelIds := channelIds + {id};
      var remaining := channelIds;
      while remaining != {}
        invariant remaining <= channelIds
        invariant id in channelIds && latestNews == old(latestNews)
        invariant channelIds == old(channelIds) + {id}
        invariant remaining != channelIds ==>
          |file.lines| == 1 && exists c :: c in channelIds && file.lines[0] == Decimal.Show(c)
        decreases remaining
      {
        var c :| c in remaining;
        file.lines := [];
        file.lines := file.lines + [Decimal.Show(c)];
        remaining := remaining - {c};
      }
    }

    /** `add_channel` as evidently intended: `channels.txt` is created once and
        receives one line per registered id. */
    method AddChannelAllLines(id: U64)
      modifies this, file
      ensures channelIds == old(channelIds) + {id}
      ensures latestNews == old(latestNews)
      ensures |file.lines| == |channelIds|
      ensures forall c :: c in channelIds <==> Decimal.Show(c) in file.lines
    {
      channelIds := channelIds + {id};
      file.lines := [];
      var remaining := channelIds;
      ghost var written: set<U64> := {};
      while remaining != {}
        invariant remaining <= channelIds
        invariant written == channelIds - remaining
        invariant channelIds == old(channelIds) + {id} && latestNews == old(latestNews)
        invariant |file.lines| == |written|
        invariant forall c :: c in written <==> Decimal.Show(c) in file.lines
        decreases remaining
      {
        var c :| c in remaining;
        forall d | Decimal.Show(d) == Decimal.Show(c)
          ensures d == c
        {
          Decimal.ShowInjective(d, c);
        }
        file.lines := file.lines + [Decimal.Show(c)];
        written := written + {c};
        remaining := remaining - {c};
      }
    }

    /** The `!stobot` branch of `message`: register the channel and confirm it there. */
    method OnMessage(msg: Message) returns (sends: seq<Send>)
      modifies this, file
      ensures latestNews == old(latestNews)
      ensures msg.content == RegisterCommand ==>
        && channelIds == old(channelIds) + {msg.channelId}
        && sends == [Send(msg.channelId, RegisteredReply)]
        && |file.lines| == 1
        && exists c :: c in channelIds && file.lines[0] == Decimal.Show(c)
      ensures msg.content != RegisterCommand ==>
        channelIds == old(channelIds) && file.lines == old(file.lines) && sends == []
    {
      sends := [];
      if msg.content == RegisterCommand {
        var id := msg.channelId;
        AddChannel(id);
        sends := [Send(id, RegisteredReply)];
      }
    }

    /** The start of `ready`: the first id of a one-entry fetch becomes the baseline;
        without one the baseline keeps its value. */
    method Prime(fetched: Json.Value)
      modifies this
      ensures var first := Lib.NewsIds(fetched, 1);
        latestNews == (if first != [] then first[0] else old(latestNews))
      ensures channelIds == old(channelIds)
    {
      var newsIds := Lib.GetNewsIds(fetched, 1);
      if |newsIds| > 0 {
        SetLatestId(newsIds[0]);
      }
    }

    /** The nested send loops: for each id in reverse order, its article address to
        every registered channel. */
    method Announce(announced: seq<U64>) returns (sends: seq<Send>)
      ensures FanOut(sends, Reverse(announced), channelIds)
    {
      sends := [];
      var k := |announced|;
      while k > 0
        invariant 0 <= k <= |announced|
        invariant FanOut(sends, Reverse(announced[k..]), channelIds)
      {
        k := k - 1;
        var newsId := announced[k];
        var url := News.ArticleUrl(newsId);
        var channels := GetChannels();
        var block := SendToAll(channels, url);
        assert announced[k..][1..] == announced[k + 1..];
        FanOutExtend(sends, Reverse(announced[k + 1..]), channelIds, block, newsId);
        sends := sends + block;
      }
    }

    /** One pass of the `ready` poll loop, as written, on the document a ten-entry
        fetch returned. */
    method PollStep(fetched: Json.Value) returns (outcome: PollOutcome)
      ensures match NewIds(Lib.NewsIds(fetched, PollCount), latestNews)
        case None => outcome == SlicePanic
        case Some(announced) => outcome.Sent? && FanOut(outcome.sends, Reverse(announced), channelIds)
    {
      var newsIds := Lib.GetNewsIds(fetched, PollCount);
      var latest := GetLatestId();
      var newNewsCount := match Position(newsIds, latest)
        case Some(i) => i
        case None => PollCount;
      if newNewsCount > |newsIds| {
        return SlicePanic;
      }
      var sends := Announce(newsIds[..newNewsCount]);
      outcome := Sent(sends);
    }

    /** One pass of the poll loop with the slice clamped to what was fetched. */
    method PollStepClamped(fetched: Json.Value) returns (sends: seq<Send>)
      ensures FanOut(sends, Reverse(NewIdsClamped(Lib.NewsIds(fetched, PollCount), latestNews)), channelIds)
    {
      var newsIds := Lib.GetNewsIds(fetched, PollCount);
      var latest := GetLatestId();
      var newNewsCount := match Position(newsIds, latest)
        case Some(i) => i
        case None => if PollCount <= |newsIds| then PollCount else |newsIds|;
      sends := Announce(newsIds[..newNewsCount]);
    }

    /** As written, a pass never moves the baseline, so two passes over the same
        fetch make the same sends (up to the order of channels within an id). */
    method TwoPolls(fetched: Json.Value) returns (first: PollOutcome, second: PollOutcome)
      ensures first.SlicePanic? <==> second.SlicePanic?
      ensures first.Sent? ==> |first.sends| == |second.sends|
      ensures first.Sent? ==> forall s :: s in first.sends <==> s in second.sends
      ensures first.Sent? ==> multiset(first.sends) == multiset(second.sends)
    {
      first := PollStep(fetched);
      second := PollStep(fetched);
      match NewIds(Lib.NewsIds(fetched, PollCount), latestNews)
      case None =>
      case Some(announced) =>
        var order := Reverse(announced);
        FanOutLength(first.sends, order, channelIds);
        FanOutLength(second.sends, order, channelIds);
        forall s
          ensures s in first.sends <==> s in second.sends
        {
          FanOutSends(first.sends, order, channelIds, s);
          FanOutSends(second.sends, order, channelIds, s);
        }
        FanOutMultiset(first.sends, second.sends, order, channelIds);
    }

    /** The corrected pass: the clamped slice, then the newest fetched id becomes the
        baseline. The ids are read again from the same document; nothing is refetched. */
    method PollStepCorrected(fetched: Json.Value) returns (sends: seq<Send>)
      modifies this
      ensures var ids := Lib.NewsIds(fetched, PollCount);
        && FanOut(sends, Reverse(NewIdsClamped(ids, old(latestNews))), channelIds)
        && latestNews == (if ids != [] then ids[0] else old(latestNews))
      ensures channelIds == old(channelIds)
    {
      sends := PollStepClamped(fetched);
      var newsIds := Lib.GetNewsIds(fetched, PollCount);
      if |newsIds| > 0 {
        SetLatestId(newsIds[0]);
      }
    }

    /** With the corrected pass, a second pass over the same fetch sends nothing. */
    method TwoPollsCorrected(fetched: Json.Value) returns (first: seq<Send>, second: seq<Send>)
      modifies this
      ensures channelIds == old(channelIds)
      ensures FanOut(first, Reverse(NewIdsClamped(Lib.NewsIds(fetched, PollCount), old(latestNews))), channelIds)
      ensures second == []
    {
      ghost var before := latestNews;
      first := PollStepCorrected(fetched);
      AdvancedBaselineAnnouncesNothing(Lib.NewsIds(fetched, PollCount), before);
      second := PollStepCorrected(fetched);
    }
  }

  /** The corrected choice of ids: as `NewIds`, but with at most as many ids as were fetched. */
  function NewIdsClamped(ids: seq<U64>, latest: U64): (r: seq<U64>)
    ensures |r| <= |ids| && r == ids[..|r|]
    ensures latest in ids ==> |r| < |ids| && ids[|r|] == latest && latest !in r
    ensures latest !in ids ==> |r| == if PollCount <= |ids| then PollCount else |ids|
  {
    match Position(ids, latest)
    case Some(p) => ids[..p]
    case None => if PollCount <= |ids| then ids[..PollCount] else ids
  }

  /** Once the newest fetched id is the baseline, the same ids announce nothing. */
  lemma AdvancedBaselineAnnouncesNothing(ids: seq<U64>, latest: U64)
    ensures NewIdsClamped(ids, if ids != [] then ids[0] else latest) == []
  {
  }

  /** The clamped choice agrees with the source wherever the source does not panic. */
  lemma ClampedAgrees(ids: seq<U64>, latest: U64)
    ensures NewIds(ids, latest).Some? ==> NewIdsClamped(ids, latest) == NewIds(ids, latest).value
  {
  }

  /** A poll that finds the baseline 5 in `[7, 6, 5, 4, 3]` announces 6, then 7. */
  lemma PollScenario()
    ensures NewIds([7, 6, 5, 4, 3], 5) == Some([7, 6])
    ensures Reverse([7, 6]) == [6, 7]
  {
    var ids: seq<U64> := [7, 6, 5, 4, 3];
    assert ids[1..][1..] == [5, 4, 3];
    assert Position(ids, 5) == Some(2);
    assert ids[..2] == [7, 6];
    var r: seq<U64> := [7, 6];
    assert r[1..] == [6] && r[1..][1..] == [];
  }

  /** As written, a poll whose fetch failed (a `Null` document, hence no ids) panics
      whenever the baseline is absent, which with no ids it always is. */
  lemma FailedFetchPanics(latest: U64)
    ensures NewIds(Lib.NewsIds(Json.Null, PollCount), latest) == None
  {
  }

  /** As written, once two channels are registered the single line `add_channel`
      leaves in `channels.txt` misses one of them. */
  lemma OneLineLosesChannels(chans: set<U64>, lines: seq<string>)
    requires |chans| >= 2
    requires exists c :: c in chans && lines == [Decimal.Show(c)]
    ensures exists d :: d in chans && Decimal.Show(d) !in lines
  {
    var c :| c in chans && lines == [Decimal.Show(c)];
    assert chans - {c} != {} by {
      assert |chans - {c}| == |chans| - 1;
    }
    var d :| d in chans - {c};
    if Decimal.Show(d) in lines {
      Decimal.ShowInjective(d, c);
    }
  }
}
