# stobot relay core in Dafny

A model of how the stobot Discord bot relays Star Trek Online news into Discord
channels. It covers four things:

- **Item diff and message text** (`news.dfy`, module `News`). A `NewsItem`
  equals another when their ids are equal. `GetDifferentItems` keeps the items
  of a new snapshot whose id is not in the old snapshot, in their original
  order. `GetMsgStr` builds the Discord text of one item: a bold title, the
  summary, the article link, then one deep link per platform.
- **JSON id extraction** (`json.dfy` and `lib.dfy`, modules `Json` and `Lib`).
  `get_news_ids` reads `json["news"][i]["id"]` for each `i` below `count`. It
  keeps the values that are JSON numbers fitting a `u64`. `Json` models the
  part of `serde_json::Value` this code touches: the value shapes,
  `Number::as_u64`, and `[key]`/`[i]` indexing. That indexing gives `Null` for
  a missing key, an index past the end, or a value of the wrong shape.
- **Handler state** (`handler.dfy`, module `Handler`). Class `Handler` has the
  two fields the source keeps behind mutexes: `latestNews`, the baseline id,
  and `channelIds`, the set of registered channels. The file `channels.txt` is
  a `TextFile` object that holds its lines. `add_channel` rewrites that file.
- **One poll step** (`handler.dfy`). Priming and one pass of the `ready` loop
  are modelled. The result is the list of `(channel, text)` sends the pass
  makes, or a `SlicePanic` outcome when the source's `[..10]` slice would
  panic.

`decimal.dfy` models Rust's `{}` formatting of a `u64` and proves that the text
can be read back, so the text determines the id. `common.dfy` holds `U64` and
`Option`.

The network is replaced by inputs. A fetch is the JSON document it returned,
or `Null` when the request or the parse failed, which is what
`get_news_json` returns then. Each Discord `say` becomes an element of the
returned send list.

`HashSet` iteration order is unspecified. Loops over the channel set therefore
pick each next element with `:|`, so every contract holds in every iteration
order.

What the bot, as this code stands, does not do:
- The poll loop never moves the baseline. `ready` sets `latest_news` once, at
  priming, and no later pass calls `set_latest_id`. Every 60-second pass
  therefore re-sends every fetched id newer than the primed one to every
  channel (`TwoPolls`, and the third row of "## Findings").
- A fetch that returns fewer ids than asked for is not rejected. When the
  baseline is among them, the ids before it are announced. When it is not, the
  `[..10]` slice panics (`PollStep`, `FailedFetchPanics`).
- There is no window of items checked for novelty. There is no freshness test,
  no platform filter and no scan of channel history.
- There is no unregister command, and `channels.txt` is never read back at
  start-up.

## Model

| member | source | states |
|---|---|---|
| Decimal.Show | src/news.rs:62 | The `{}` text of an id is a non-empty string of decimal digits with no leading zero. Zero is written `"0"`. |
| Decimal.ReadShow | src/news.rs:62 | Reading the decimal text of an id back gives the id (round trip). |
| Decimal.ShowInjective | src/handler.rs:46 | Different ids get different lines in `channels.txt`. |
| News.Eq | src/news.rs:77-81 | Definition of `PartialEq for NewsItem`: two items are equal when their ids are equal. |
| News.Contains | src/news.rs:43 | Definition of `Vec::contains` under `Eq`: some element of the snapshot has the item's id. |
| News.EqIsIdentityById | src/news.rs:77-81 | Two items are equal exactly when their ids are equal, whatever their title, summary and platforms. This equality is reflexive, symmetric and transitive. |
| News.Empty | src/news.rs:10-14 | `News::new()` holds no items. |
| News.Ids | src/news.rs:43 | The id list of a snapshot: one id per item, at the same position. |
| News.ContainsIffIdOccurs | src/news.rs:43 | `contains` under the id equality holds exactly when the item's id occurs among the snapshot's ids. |
| News.Different | src/news.rs:40-48 | The diff never has more items than the new snapshot. |
| News.GetDifferentItems | src/news.rs:40-48 | The loop returns exactly the reference diff `Different(self.news, old_news.news)`. |
| News.DifferentSound | src/news.rs:40-48 | Every reported item is in the new snapshot, and its id is not in the old one. |
| News.DifferentComplete | src/news.rs:42-46 | Every item of the new snapshot whose id is absent from the old one is reported. |
| News.DifferentIsSubsequence | src/news.rs:42-45 | The result is the new snapshot taken at strictly increasing positions. Those positions are exactly the items whose id is unseen, so the original order is kept. |
| News.DifferentFromItself | src/news.rs:40-48 | Diffing a snapshot against itself reports nothing. |
| News.DifferentOfCovered | src/news.rs:42-46 | Nothing is reported when every new item's id is already in the old snapshot. |
| News.DifferentFromEmpty | src/news.rs:40-48 | Diffing against `News::new()` reports the whole snapshot. |
| News.ArticleUrl | src/news.rs:62 | Definition of the article address: `https://playstartrekonline.com/en/news/article/` followed by the decimal text of the id. The poll loop sends the same address (src/handler.rs:96). |
| News.Header | src/news.rs:62-63 | Definition of the header: `**title**`, the summary and `<https://playstartrekonline.com/en/news/article/{id}>`, each followed by a newline. |
| News.Segment | src/news.rs:66-70 | Definition of the path segment: `/playstation` for `ps`, `/xbox` for `xbox`, and empty for any other code. |
| News.PlatformLine | src/news.rs:65-71 | Definition of one deep link: `<https://www.arcgames.com/en/games`, the segment, `/star-trek-online/news/detail/{id}>` and a newline. |
| News.PlatformLines | src/news.rs:64-72 | Definition of everything appended after the header: the `PlatformLine` of each platform, concatenated in list order. |
| News.Message | src/news.rs:61-74 | Definition of the message text: the header, then the deep links of the platforms in order. |
| News.GetMsgStr | src/news.rs:61-74 | The loop builds exactly the header followed by the deep links of the platforms, in order. |
| News.MessageStartsWithHeader | src/news.rs:62-64 | The message begins with `**title**\nsummary\n<article url>\n`. With no platforms it is exactly that header. |
| News.PlatformLinesAppend | src/news.rs:64-72 | The links of a concatenated platform list are the links of the two parts, concatenated. |
| News.PlatformLinesSingle | src/news.rs:64-72 | A single platform adds exactly its own deep link line, `PlatformLine`. |
| Json.AsU64 | src/lib.rs:38 | Definition of `Number::as_u64`: the value for a non-negative integer, and nothing for a negative integer or a float. |
| Json.Field | src/lib.rs:37 | Definition of `value[key]`: the field of an object, or `Null` when the key is missing or the value is not an object. |
| Json.At | src/lib.rs:37 | Definition of `value[i]`: element `i` of an array, or `Null` when `i` is past the end or the value is not an array. |
| Lib.IdAt | src/lib.rs:37-38 | Definition of the id of entry `i`: `json["news"][i]["id"]` when it is a number with an `as_u64` value. |
| Lib.IdAtCases | src/lib.rs:37-38 | Entry i gives an id exactly when `news` is an array longer than i and entry i has an `id` that is a JSON non-negative integer. The id is that integer. A missing key, a short array, a string, a negative or a fractional number gives nothing. |
| Lib.NewsIds | src/lib.rs:35-42 | There are never more ids than entries asked for. |
| Lib.GetNewsIds | src/lib.rs:29-45 | The loop, including the early return for `Null`, returns exactly `NewsIds(json, count)`, hence at most `count` ids. |
| Lib.NullHasNoIds | src/lib.rs:32-34 | A `Null` document (a failed fetch) yields no ids. |
| Lib.NewsIdsOfOne | src/handler.rs:76-78 | A one-entry fetch yields the id of entry 0 when it is usable, and nothing otherwise. |
| Lib.NewsIdsAreTheU64Ids | src/lib.rs:35-41 | The result lists, in increasing index order, exactly the entries below `count` whose id is a `u64` number. All other entries are skipped. |
| Lib.AllNumericIds | src/lib.rs:35-42 | When every entry below `count` has a `u64` id, the result has `count` elements and element i is the id of entry i. |
| Lib.MixedEntries | src/lib.rs:37-38 | Take a document whose entries have ids 7, "8", none, -1, 2.5 and 9. Asking for ten entries gives `[7, 9]`. |
| Handler.Position | src/handler.rs:90 | `position` returns the first index holding the baseline id, or nothing when the id is absent. |
| Handler.NewIds | src/handler.rs:90-94 | When the baseline is present, the announced ids are the prefix before its first occurrence. When it is absent, they are the first 10 ids, and there is no result when fewer than 10 were fetched. |
| Handler.Reverse | src/handler.rs:95 | `rev()` puts element k of the result at position n-1-k of its input. |
| Handler.Broadcast | src/handler.rs:97-104 | Definition of one inner-loop pass: the text is posted exactly once into each channel of the set, and into no other channel, in any order. |
| Handler.FanOut | src/handler.rs:95-105 | Definition of the nested loops: for each id of the order, one `Broadcast` of its article address to the channel set, the blocks following one another. |
| Handler.FanOutLength | src/handler.rs:95-105 | A fan-out makes one send per (announced id, registered channel) pair. |
| Handler.FanOutSends | src/handler.rs:95-105 | A send occurs exactly when its channel is registered and its text is the article address of an announced id. |
| Handler.DistinctMultiset | src/handler.rs:97-104 | A send list without repeats, such as one broadcast, holds each of its sends exactly once. |
| Handler.BroadcastMultiset | src/handler.rs:97-104 | Two broadcasts of one text to one channel set hold the same sends the same number of times, whatever the set's iteration order. |
| Handler.FanOutMultiset | src/handler.rs:95-105 | Two fan-outs of one id order to one channel set hold the same sends the same number of times. |
| Handler.SendToAll | src/handler.rs:97-104 | The inner loop posts the text once into every channel of the set, and nowhere else. |
| Handler.TextFile.constructor | src/handler.rs:44-46 | `channels.txt` is modelled as the sequence of its lines. A new file object holds the lines it is given. |
| Handler.Handler.Build | src/handler.rs:24-29 | A new handler has baseline 0 and no channels, and leaves the file alone. |
| Handler.Handler.GetLatestId | src/handler.rs:31-33 | Returns the baseline. |
| Handler.Handler.SetLatestId | src/handler.rs:35-38 | The baseline becomes the given value, so a following `GetLatestId` returns it. The channel set is unchanged. |
| Handler.Handler.GetChannels | src/handler.rs:50-52 | Returns a copy equal to the channel set and changes nothing. |
| Handler.Handler.AddChannel | src/handler.rs:40-48 | The set becomes old set ∪ {id}, and adding an id already present changes nothing. Afterwards the file holds exactly one line: the decimal text of some registered id. |
| Handler.OneLineLosesChannels | src/handler.rs:43-47 | With two or more registered channels, that single line misses some registered channel. |
| Handler.Handler.AddChannelAllLines | src/handler.rs:40-48 | Corrected version: the set becomes old set ∪ {id}, and the file holds exactly one line per registered id. |
| Handler.Handler.OnMessage | src/handler.rs:57-73 | Only content exactly `!stobot` changes state. It adds the message's channel, as `add_channel` does, and replies in that channel. Any other message changes nothing and sends nothing. |
| Handler.Handler.Prime | src/handler.rs:75-84 | If the one-entry fetch yields an id, the baseline becomes it. Otherwise the baseline keeps its previous value. |
| Handler.Handler.Announce | src/handler.rs:95-105 | For each announced id in reverse order (oldest first), its article address goes to every registered channel. |
| Handler.Handler.PollStep | src/handler.rs:89-105 | A 10-entry fetch announces `NewIds` of its ids, or panics when the baseline is absent and fewer than 10 ids came back. Baseline and channel set are unchanged. |
| Handler.FailedFetchPanics | src/handler.rs:90-94 | As written, a failed fetch makes the poll step panic, whatever the baseline. |
| Handler.PollScenario | src/handler.rs:90-95 | With baseline 5 and ids `[7, 6, 5, 4, 3]`, the step announces 6, then 7. |
| Handler.NewIdsClamped | src/handler.rs:90-94 | Corrected choice: the prefix before the baseline, or at most 10 fetched ids. It never exceeds what was fetched. |
| Handler.ClampedAgrees | src/handler.rs:90-94 | The corrected choice agrees with the source wherever the source does not panic. |
| Handler.Handler.PollStepClamped | src/handler.rs:89-105 | Corrected poll: it never panics, and it announces `NewIdsClamped` in reverse order to every channel. |
| Handler.Handler.TwoPolls | src/handler.rs:85-106 | As written, two passes over the same fetch both panic or neither does. When they send, both have the same length, the same set of sends, and the same multiset of sends: each send occurs equally often in both. |
| Handler.Handler.PollStepCorrected | src/handler.rs:85-106 | Corrected pass: it fans out `NewIdsClamped` for the old baseline, then the newest fetched id becomes the baseline. The channel set is unchanged. |
| Handler.AdvancedBaselineAnnouncesNothing | src/handler.rs:90-94 | Once the newest fetched id is the baseline, the same ids announce nothing. |
| Handler.Handler.TwoPollsCorrected | src/handler.rs:85-106 | With the corrected pass, a second pass over the same fetch sends nothing. |

## Left out

- `src/main.rs` is not part of this model. It covers argument parsing, environment lookup, printing and client start-up. It calls a `Handler::new` with freshness, message-count and platform arguments that the handler shown does not have.
- The HTTP requests and JSON parsing (`News::get_news_json`, `News::get_news_from_json`, lib `get_news_json`) are foreign library calls. A fetch is an input document, which is `Null` on failure.
- The serde deserialisation of `News` is not modelled. `NewsItem` is built directly.
- The serenity event plumbing, the `ctx.http` sends, `sleep` and the infinite `loop` are left out. One pass of the loop returns its list of sends. A failed send only logs an error, so sends are listed whether or not they succeed.
- `Mutex` locking is left out: the guarded values are plain fields. Concurrent registration during a poll is not modelled.
- `out_log`/`err_log` and `Utc::now()` are left out. This includes the "Registered channels:" log line that `message` builds from `get_channels`.
- File-system errors are left out: the `expect` panics when `channels.txt` cannot be created or written.
- The `usize::try_from` in `get_news_ids` is left out. It cannot fail on a 64-bit target.
- `Json.Number.Float` holds a real. Floating-point precision does not matter here, because `as_u64` rejects every float.
- `get_different_items` returns references into the new snapshot. The model returns the items themselves.
- Ids sent as JSON strings are skipped by `get_news_ids`, as its code does. `NewsItem` deserialisation accepts such strings, but that path is not modelled.

## Findings

| source | as written | input that shows it | evidently intended | confidence | as-written member | corrected member |
|---|---|---|---|---|---|---|
| src/handler.rs:43-47 | `File::create` runs inside the loop over the channel set, so each id truncates the file before writing itself. | Register channel 1, then channel 2: `channels.txt` is left with one line. | One line per registered id. | high; not executed | Handler.Handler.AddChannel, Handler.OneLineLosesChannels | Handler.Handler.AddChannelAllLines |
| src/handler.rs:90-94 | When the baseline id is absent, the slice is `[..10]` whatever the number of ids fetched. | Any fetch that fails (a `Null` document, no ids), or that returns fewer than 10 usable ids without the baseline: the slice panics and ends the poll loop. | `[..min(10, len)]`. | high; not executed | Handler.Handler.PollStep, Handler.FailedFetchPanics | Handler.Handler.PollStepClamped, Handler.ClampedAgrees |
| src/handler.rs:85-106 | No pass of the poll loop calls `set_latest_id`, so the baseline stays at the primed id. | Priming reads id 5, then the feed publishes 6: every later pass sends the address of 6 to every channel again. | After announcing, the newest fetched id becomes the baseline. | high; not executed | Handler.Handler.TwoPolls | Handler.Handler.PollStepCorrected, Handler.AdvancedBaselineAnnouncesNothing, Handler.Handler.TwoPollsCorrected |

`OnMessage` models `message` as written. It therefore calls `AddChannel`, the
as-written member. `AddChannelAllLines` gives the intended file contents.
`PollStepCorrected` builds on `PollStepClamped` and gives the intended poll
pass, which fixes both the slice and the baseline.
