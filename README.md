# podcast-downloader: the episode pipeline of `rss.py`

This project models and proves the in-memory episode pipeline of the podcast
downloader, `podcast_downloader/rss.py`. The pipeline has four steps:

1. **Extraction.** Each already-fetched feed entry shrinks to its publish
   time plus its `audio/mpeg` links. Entries without such a link are dropped.
2. **Construction.** A pair becomes an episode entity of one of two classes,
   `RSSEntitySimpleName` or `RSSEntityWithDate`. The entity takes the pair's
   date and the href of the pair's first audio link.
3. **Naming.** Each entity gets a file name. The simple name is the link's
   last path segment, lower-cased. If the first `?` of that segment is past
   position 0, the name is cut just before the segment's *last* `?`. So
   `"ep.mp3?a?b"` keeps `"?a"`, and `"?x=1"` keeps its whole query (see the
   paragraph on the query rule below). The dated name puts `"[YYYYMMDD] "` in
   front of the simple name.
4. **Policies.** The newest-first list of entities is cut down by one of
   three policies:
   - "only new": take episodes until one has the file name already downloaded;
   - "only last": the first episode only;
   - "from date": the episodes published on or after a calendar day.

Most source functions are single expressions. The two `to_file_name`
methods are a few statements each, but they only assign local names. The
functions are compositions of `filter`, `map`, `takewhile` and `islice`, or
string operations, and nothing is updated in place. So the model is pure: datatypes, recursive functions and lemmas, in three modules.

- `Seqs` (`seqs.dfy`): Python's `filter`, `map`, `itertools.takewhile` and
  `itertools.islice` on finite sequences, and tuple `<`. It also has the
  facts about them the pipeline needs: membership, order preservation,
  uniqueness, idempotence, concatenation, and filter-after-map.
- `Text` (`text.dfy`): ASCII `str.lower`, `str.find`, `str.rpartition`, and
  the zero-padded decimal fields that `strftime` prints. It includes the
  round trip from printed digits back to the number.
- `Rss` (`rss.dfy`): the entities, the two naming rules, the extraction
  chain, `build_rss_entity` and the three policies.

The query rule in `to_file_name` has a quirk. The guard
`filename.find("?") > 0` looks at the position of the *first* `?`. The cut
`rpartition('?')` happens at the *last* `?`. So a segment that starts with a
`?` is never cut, even if it has a later `?`: `"?a?b"` stays `"?a?b"`. A
segment such as `"ep.mp3?a?b"` becomes `"ep.mp3?a"`. The model keeps both
behaviours, and `Rss.QueryCutKeeps` and `Rss.QueryCutAtLast` state them.

## Model

| member | source | states |
|---|---|---|
| Rss.RssEntity.ToFileName | podcast_downloader/rss.py:16-30 | An entity's file name never contains '/'. A `SimpleName` entity is named by the simple rule; a `WithDate` entity by the dated rule, applied to its own date and link. |
| Rss.LastSegment | podcast_downloader/rss.py:20 | The text after the last '/' of a link contains no '/'. |
| Rss.QueryCut | podcast_downloader/rss.py:21-22 | The query rule only ever shortens a name, to one of its prefixes. |
| Rss.SimpleFileName | podcast_downloader/rss.py:19-23 | The simple name contains no '/'. It is a prefix of the link's lower-cased last segment. |
| Rss.QueryCutKeeps | podcast_downloader/rss.py:21 | With no '?', or with a '?' as the first character, the name is left whole. |
| Rss.QueryCutAtLast | podcast_downloader/rss.py:21-22 | If the first character is not '?' and the last '?' is at index i > 0, the name is cut to its first i characters. |
| Rss.LastSegmentOf | podcast_downloader/rss.py:20 | When `head` is empty or ends in '/', and `seg` has no '/', the last segment of `head + seg` is `seg`. So a link without '/' is its own last segment. |
| Rss.SimpleFileNameOfSegment | podcast_downloader/rss.py:20-22 | The simple name of such a link is the query rule applied to `seg` lower-cased. With `head` empty, that is the whole link lower-cased. |
| Rss.SimpleFileNameKeepsSegment | podcast_downloader/rss.py:20-23 | If the last segment has no '?', or starts with '?', the simple name is exactly that segment lower-cased. |
| Rss.SimpleFileNameCutsAtLastQuery | podcast_downloader/rss.py:20-23 | If the last segment does not start with '?' and its last '?' is at index i, the simple name is the first i characters of the segment, lower-cased. |
| Rss.LowerQueryCut | podcast_downloader/rss.py:20-22 | Lower-casing and then applying the query rule is the same as cutting the original segment at its last '?' and lower-casing that. |
| Rss.SimpleFileNameExampleQuery | podcast_downloader/rss.py:19-23 | The simple name of `https://x.com/A/Ep1.mp3?x=1` is `ep1.mp3`. |
| Rss.SimpleFileNameExamplePlain | podcast_downloader/rss.py:19-23 | The simple name of `https://x.com/A/Ep1.mp3` is `ep1.mp3`. |
| Rss.SimpleFileNameExampleLeadingQuery | podcast_downloader/rss.py:19-23 | The simple name of `https://x.com/?episode.mp3` is `?episode.mp3`: a leading '?' is kept. |
| Rss.FormatYmd | podcast_downloader/rss.py:30 | `strftime("%Y%m%d")` gives eight decimal digits. They read back as the year (first four), the month (next two) and the day (last two). |
| Rss.DatedFileName | podcast_downloader/rss.py:28-30 | The dated name contains no '/' and is 11 characters longer than the simple name. It is '[', then the eight-digit stamp, then "] ", then the simple name. |
| Rss.DatedFileNameInjective | podcast_downloader/rss.py:28-30 | Two dated names are equal only when the calendar days and the simple names are equal. |
| Rss.FormatYmdExample | podcast_downloader/rss.py:30 | 2023-07-04 prints as `20230704`. |
| Rss.DatedFileNameFrom | podcast_downloader/rss.py:29-30 | The dated name is `"[" + stamp + "] " + name`, where stamp and name are the date's stamp and the link's simple name. |
| Rss.DatedFileNameExample | podcast_downloader/rss.py:28-30 | 2023-07-04 with `https://x.com/A/Ep1.mp3` is named `[20230704] ep1.mp3`. |
| Rss.IsAudio | podcast_downloader/rss.py:38-39 | A link is audio exactly when its type is exactly `audio/mpeg`. `Rss.OnlyAudio` and `Rss.StripData` say what keeping these links means. |
| Rss.OnlyAudio | podcast_downloader/rss.py:38-42 | The result is a subsequence of the links that keeps their order. Every link in it has type exactly `audio/mpeg`. A link is in the result exactly when it is in the input and is audio. |
| Rss.OnlyAudioUnique | podcast_downloader/rss.py:41-42 | Any order-preserving subsequence of audio links that is at least as long as the `only_audio` output is that output. So `only_audio` keeps every audio link. |
| Rss.StripData | podcast_downloader/rss.py:44-45 | The pair carries the entry's publish time and the `only_audio` links. The list is non-empty exactly when the entry has an audio link. |
| Rss.HasEntryPodcastLink | podcast_downloader/rss.py:47-48 | A pair passes exactly when its audio list is non-empty. |
| Rss.HasEntryPodcastLinkOfStripped | podcast_downloader/rss.py:44-48 | A stripped entry passes `has_entry_podcast_link` exactly when the raw entry has an audio link. `Rss.PrepareRssDataSurvivors` gives the meaning for a whole feed. |
| Rss.PrepareRssDataFrom | podcast_downloader/rss.py:47-53 | There are no more pairs than entries. Every pair has a non-empty audio list, and every link in it is `audio/mpeg`. |
| Rss.PrepareRssDataSurvivors | podcast_downloader/rss.py:47-53 | The output is `strip_data` mapped over exactly the entries with an audio link, in their original order. |
| Rss.PrepareRssDataConcat | podcast_downloader/rss.py:50-53 | Extraction works entry by entry: extracting a concatenation is concatenating the extractions. |
| Rss.PrepareRssDataSingle | podcast_downloader/rss.py:47-53 | One entry gives its stripped pair if it has an audio link, and nothing otherwise. |
| Rss.PrepareRssDataDrops | podcast_downloader/rss.py:47-53 | An entry without an audio link disappears. The entries around it are untouched. |
| Rss.PrepareRssDataKeeps | podcast_downloader/rss.py:47-53 | An entry with an audio link leaves its pair in its own place, between the outputs of the entries before and after it. |
| Rss.BuildRssEntity | podcast_downloader/rss.py:32-33 | The entity has the pair's date and the href of audio link 0. Its class is the one the caller chose. |
| Rss.FirstAudioLinkWins | podcast_downloader/rss.py:32-48 | If an entry's first audio link is at position k, the entry survives extraction. Its entity's link is the href at k, whatever later audio links say, and its date is the entry's publish time. |
| Rss.OnlyNewEntities | podcast_downloader/rss.py:55-56 | The result is a prefix in which no file name equals the marker. If it is shorter than the input, the next entity's name equals the marker. If no name matches, the result is the whole input. |
| Rss.OnlyNewEntitiesStopsAt | podcast_downloader/rss.py:55-56 | These conditions determine the result. If the first k names differ from the marker and the next one, if any, matches it, the result is the first k entities. |
| Rss.NameDiffers | podcast_downloader/rss.py:56 | The take-while predicate holds for an entity exactly when its file name differs from the marker. |
| Rss.OnlyNewEntitiesExample | podcast_downloader/rss.py:55-56 | When the third of four names is the marker and the first two are not, the new entities are the first two. |
| Rss.OnlyNewEntitiesExampleMissing | podcast_downloader/rss.py:55-56 | When no name is the marker, all entities are new. |
| Rss.OnlyLastEntity | podcast_downloader/rss.py:58-59 | The result has at most one element: `[]` for an empty input, and the first entity otherwise. |
| Rss.Ymd | podcast_downloader/rss.py:62 | `published_date[:3]` is the tuple (year, month, day). |
| Rss.OnOrAfter | podcast_downloader/rss.py:62 | `a[:3] >= b[:3]`, as the negation of Python's tuple `<`: two dates on the same calendar day are on or after each other. `Rss.OnOrAfterMeans` gives the full meaning. |
| Rss.IsEntityNewer | podcast_downloader/rss.py:61-62 | The entity is newer exactly when its year is later, or the year is the same and the month is later, or the year and month are the same and the day is at least as late. |
| Rss.OnOrAfterMeans | podcast_downloader/rss.py:61-62 | `published_date[:3] >= from_date[:3]` holds exactly when the year is later, or it is the same year and a later month, or the same year and month and a day that is at least as late. |
| Rss.OnOrAfterTotalPreorder | podcast_downloader/rss.py:61-62 | The comparison is reflexive, total and transitive. Two dates are on or after each other exactly when their calendar days are equal. |
| Rss.NewerThan | podcast_downloader/rss.py:68 | `partial(is_entity_newer, from_date)` holds for an entity exactly when `is_entity_newer(from_date, entity)` does. |
| Rss.OnlyEntitiesFromDate | podcast_downloader/rss.py:67-68 | The result is a subsequence of the input that keeps their order. Every member is newer than the cutoff. An entity is in the result exactly when it is in the input and is newer. |
| Rss.OnlyEntitiesFromDateUnique | podcast_downloader/rss.py:67-68 | Nothing newer is dropped. Any order-preserving subsequence of newer entities at least as long as the result is the result. |
| Rss.OnlyEntitiesFromDateIdempotent | podcast_downloader/rss.py:67-68 | Applying the date filter twice gives the same result as applying it once. |
| Rss.OnlyEntitiesFromDateIgnoresTime | podcast_downloader/rss.py:61-62 | Two cutoffs on the same calendar day select the same entities. Hour, minute and second play no part. |
| Rss.OnlyEntitiesFromDateNewestFirst | podcast_downloader/rss.py:67-68 | On a newest-first feed, the date filter is a take-while: it yields a prefix, ending at the first entity older than the cutoff. |
| Rss.OnlyEntitiesFromDateExample | podcast_downloader/rss.py:67-68 | With a cutoff of 2023-01-10, entities of 01-09, 01-10 and 01-11 give those of 01-10 and 01-11. |
| Seqs.Filter | podcast_downloader/rss.py:42 | `filter` gives no more elements than its input, and all of them pass the predicate. |
| Seqs.Map | podcast_downloader/rss.py:52 | `map` keeps the length, and element i of the result is the function applied to input element i. |
| Seqs.TakeWhile | podcast_downloader/rss.py:56 | `takewhile` gives a prefix whose elements all pass. The element right after it, if any, fails. |
| Seqs.TakeWhileUnique | podcast_downloader/rss.py:56 | Those three facts determine the prefix: it is the one of length k. |
| Seqs.Islice | podcast_downloader/rss.py:59 | `islice(s, n)` is the prefix of length `min(|s|, n)`. |
| Seqs.LexLess | podcast_downloader/rss.py:62 | Python's tuple `<`: nothing is less than the empty tuple, and no tuple is less than itself. `Rss.OnOrAfterMeans` gives its meaning on dates. |
| Seqs.FilterMembers | podcast_downloader/rss.py:42 | An element survives `filter` exactly when it occurs in the input and passes the predicate. |
| Seqs.FilterNone | podcast_downloader/rss.py:42 | If no element passes, nothing survives. |
| Seqs.FilterConcat | podcast_downloader/rss.py:42 | Filtering a concatenation is concatenating the filtered parts. |
| Seqs.FilterIsSubsequence | podcast_downloader/rss.py:42 | `filter` keeps its survivors in input order. |
| Seqs.SubsequenceBound | podcast_downloader/rss.py:42 | No order-preserving subsequence of passing elements is longer than the filter's output. |
| Seqs.FilterUnique | podcast_downloader/rss.py:42 | The filter's output is the only order-preserving subsequence of passing elements of its length. |
| Seqs.FilterIdempotent | podcast_downloader/rss.py:68 | Filtering twice with the same predicate is filtering once. |
| Seqs.FilterCongruent | podcast_downloader/rss.py:68 | Filters whose predicates agree on every element present give the same output. |
| Seqs.MapConcat | podcast_downloader/rss.py:52 | Mapping a concatenation is concatenating the mapped parts. |
| Seqs.FilterMap | podcast_downloader/rss.py:50-53 | Filtering after a map is mapping after a filter, with the composed predicate. |
| Text.LowerChar | podcast_downloader/rss.py:20 | A capital letter becomes the lower-case letter at the same alphabet position. Every other character is unchanged. |
| Text.Lower | podcast_downloader/rss.py:20 | `lower()` keeps the length and lower-cases character by character. |
| Text.LowerIdempotent | podcast_downloader/rss.py:20 | A lower-cased string has no capital letters, and lower-casing it again changes nothing. |
| Text.LowerKeeps | podcast_downloader/rss.py:20-22 | A non-letter such as '/' or '?' is at exactly the same positions before and after lower-casing. |
| Text.Find | podcast_downloader/rss.py:21 | `find(c)` is -1 exactly when `c` is absent. Otherwise it is the index of the first `c`. |
| Text.LastIndex | podcast_downloader/rss.py:22 | The index of the last `c`, or -1 exactly when `c` is absent. |
| Text.RPartition | podcast_downloader/rss.py:20-22 | The three parts concatenate back to the input. The tail has no separator. The middle part is the separator when it occurs. With no separator the result is `("", "", s)`. |
| Text.RPartitionUnique | podcast_downloader/rss.py:20-22 | The split at the last separator is the only split of that shape. |
| Text.Pad | podcast_downloader/rss.py:30 | A `%Y`/`%m`/`%d` field is exactly `w` decimal digits. |
| Text.PadRoundTrip | podcast_downloader/rss.py:30 | Printing a number of at most `w` digits and reading the digits back gives the number. |

## Left out

- `get_raw_rss_entries_from_web` (rss.py:35-36) fetches and parses a feed over the network through the `feedparser` library. The model takes the parsed entries as an input sequence instead.
- `get_n_age_date` (rss.py:64-65) is not modelled. It goes through `time.mktime`/`time.localtime`, which depend on the host time zone and daylight saving, and through a floating-point epoch.
- `compose` comes from `podcast_downloader/utils.py`, which is not part of this model. `Rss.PrepareRssDataFrom` writes the filter-after-map-after-fetch chain out directly.
- Python's `filter`, `map`, `takewhile` and `islice` are lazy, one-shot iterators. The model uses finite sequences, so it says nothing about laziness or about an iterator consumed twice.
- `Rss.FormatYmd`: only years 1000-9999 are modelled (fields as subset types). For those, `%Y` always prints four digits. Locale or platform variation in `strftime`, and the `ValueError` it raises on out-of-range fields, are not modelled.
- `Text.Lower`: only ASCII capitals are lower-cased. The full Unicode case mapping of `str.lower()` is not modelled.
- Raw entries are well-formed datatypes. The `AttributeError` Python raises for an entry with no `published_parsed`, no `links`, or a link with no `type`/`href` is not modelled.
- `Rss.BuildRssEntity` requires a non-empty audio list. The source would raise `IndexError` without one. No call of `build_rss_entity` appears in rss.py. The ensures of `Rss.PrepareRssDataFrom` give every pair that extraction yields a non-empty audio list, so the requires holds on each of them.
- `time.struct_time` is modelled by its year, month, day, hour, minute and second. The week day, year day and daylight-saving flag play no part in the pipeline.
- `only_entities_from_date(from_date)` returns a curried `partial(filter, ...)`. The model takes the cutoff and the sequence together: `Rss.OnlyEntitiesFromDate(fromDate, entities)`.
- The `constructor` argument of `build_rss_entity` is a class. The model passes it as the `Naming` value that picks the class.
