/**
 The in-memory episode pipeline of podcast_downloader/rss.py: raw feed
 entries are reduced to their audio enclosures, turned into episode
 entities, given a deterministic file name, and the resulting sequence is
 cut down by one of three policies ("only new", "only last", "from date").
 */
module Rss {
  import opened Seqs
  import opened Text

  // ---------------------------------------------------------------- data

  /** Calendar fields of a parsed publish time, in the range `%Y%m%d` prints as eight digits. */
  type Year = y: int | 1000 <= y <= 9999 witness 1970
  type Month = m: int | 1 <= m <= 12 witness 1
  type Day = d: int | 1 <= d <= 31 witness 1

  /** A `time.struct_time`; hour, minute and second are carried but never consulted. */
  datatype Date = Date(year: Year, month: Month, day: Day, hour: int, minute: int, second: int)

  /** The calendar-day part of a date, `published_date[:3]`: the tuple (year, month, day). */
  function Ymd(d: Date): (r: seq<int>)
    ensures |r| == 3 && r[0] == d.year && r[1] == d.month && r[2] == d.day
  {
    [d.year, d.month, d.day]
  }

  /** An enclosure link of a feed entry: its MIME type (`type`) and its URL (`href`). */
  datatype Link = Link(mediaType: string, href: string)

  /** A raw feed entry: its `published_parsed` time and its `links`. */
  datatype RawEntry = RawEntry(publishedParsed: Date, links: seq<Link>)

  /** The pair `strip_data` makes: the publish time and the audio links of an entry. */
  datatype StrippedEntry = StrippedEntry(publishedDate: Date, audioLinks: seq<Link>)

  /** Which entity class the caller hands to `build_rss_entity` as its constructor. */
  datatype Naming = SimpleNaming | DatedNaming

  /** `RSSEntitySimpleName` and `RSSEntityWithDate`: the same two fields, two naming rules. */
  datatype RssEntity =
    | SimpleName(publishedDate: Date, link: string)
    | WithDate(publishedDate: Date, link: string)
  {
    /** `to_file_name` of the entity's class. */
    function ToFileName(): (r: string)
      ensures '/' !in r
      ensures SimpleName? ==> r == SimpleFileName(link)
      ensures WithDate? ==> r == DatedFileName(publishedDate, link)
    {
      match this
      case SimpleName(_, _) => SimpleFileName(link)
      case WithDate(_, _) => DatedFileName(publishedDate, link)
    }
  }

  // ---------------------------------------------------------- file names

  /** The text after the last '/' of a link, the whole link when it has none. */
  function LastSegment(link: string): (r: string)
    ensures '/' !in r
  {
    RPartition(link, '/').2
  }

  /**
   The query rule of `RSSEntitySimpleName.to_file_name` on an already
   lower-cased final segment: when the FIRST '?' is at a position greater
   than 0, the name is cut before the LAST '?'; otherwise it is unchanged.
   */
  function QueryCut(filename: string): (r: string)
    ensures |r| <= |filename| && r == filename[..|r|]
  {
    if Find(filename, '?') > 0 then RPartition(filename, '?').0 else filename
  }

  /** `RSSEntitySimpleName.to_file_name`: the final path segment, lower-cased, with the query rule applied. */
  function SimpleFileName(link: string): (r: string)
    ensures '/' !in r
    ensures |r| <= |LastSegment(link)| && r == Lower(LastSegment(link))[..|r|]
  {
    LowerKeeps(LastSegment(link), '/');
    QueryCut(Lower(LastSegment(link)))
  }

  /** With no '?', or with a '?' as the first character, the name is left whole ("?a?b" included). */
  lemma QueryCutKeeps(name: string)
    requires '?' !in name || name[0] == '?'
    ensures QueryCut(name) == name
  {
  }

  /** Otherwise the name is the text before its last '?'. */
  lemma QueryCutAtLast(name: string, i: nat)
    requires 0 < i < |name| && name[i] == '?' && name[0] != '?' && '?' !in name[i + 1..]
    ensures QueryCut(name) == name[..i]
  {
    assert name == name[..i] + ['?'] + name[i + 1..];
    RPartitionUnique(name, '?', name[..i], name[i + 1..]);
  }

  /**
   `strftime("%Y%m%d", date)`: eight decimal digits that read back as the
   year (first four), the month (next two) and the day (last two).
   */
  function FormatYmd(d: Date): (r: string)
    ensures |r| == 8
    ensures forall i :: 0 <= i < |r| ==> IsDigit(r[i])
    ensures ParseDigits(r[..4]) == d.year
    ensures ParseDigits(r[4..6]) == d.month
    ensures ParseDigits(r[6..]) == d.day
  {
    var y, m, dd := Pad(d.year, 4), Pad(d.month, 2), Pad(d.day, 2);
    PadRoundTrip(d.year, 4);
    PadRoundTrip(d.month, 2);
    PadRoundTrip(d.day, 2);
    var r := y + m + dd;
    assert r[..4] == y && r[4..6] == m && r[6..] == dd;
    r
  }

  /** `RSSEntityWithDate.to_file_name`: "[YYYYMMDD] " followed by the simple name. */
  function DatedFileName(d: Date, link: string): (r: string)
    ensures '/' !in r
    ensures |r| == 11 + |SimpleFileName(link)|
    ensures r[0] == '[' && r[1..9] == FormatYmd(d) && r[9..11] == "] " && r[11..] == SimpleFileName(link)
  {
    var stamp, name := FormatYmd(d), SimpleFileName(link);
    assert '/' !in stamp by {
      forall i | 0 <= i < |stamp| ensures stamp[i] != '/' {
        assert IsDigit(stamp[i]);
      }
    }
    BracketLayout(stamp, name);
    ['['] + stamp + [']', ' '] + name
  }

  /**
   Where the parts of "[" + stamp + "] " + name sit, for an eight-character
   stamp; with no '/' in either part there is none in the whole.
   */
  lemma BracketLayout(stamp: string, name: string)
    requires |stamp| == 8 && '/' !in stamp && '/' !in name
    ensures var r := ['['] + stamp + [']', ' '] + name;
      && |r| == 11 + |name| && r[0] == '[' && r[1..9] == stamp && r[9..11] == "] " && r[11..] == name
      && '/' !in r
  {
  }

  /**
   A link whose last '/' ends `head` (or that has no '/', `head` empty) has
   `seg` as its final segment.
   */
  lemma LastSegmentOf(head: string, seg: string)
    requires '/' !in seg
    requires head == [] || head[|head| - 1] == '/'
    ensures LastSegment(head + seg) == seg
  {
    if head == [] {
      assert head + seg == seg;
    } else {
      var front := head[..|head| - 1];
      assert head + seg == front + ['/'] + seg;
      RPartitionUnique(head + seg, '/', front, seg);
    }
  }

  /**
   The simple name of a link is the query rule applied to its lower-cased
   final segment; with `head` empty this is the whole link lower-cased.
   */
  lemma SimpleFileNameOfSegment(head: string, seg: string)
    requires '/' !in seg
    requires head == [] || head[|head| - 1] == '/'
    ensures SimpleFileName(head + seg) == QueryCut(Lower(seg))
  {
    LastSegmentOf(head, seg);
  }

  /**
   With no '?' in the final segment, or a '?' as its very first character,
   the simple name is the whole lower-cased segment (so "?episode.mp3"
   stays "?episode.mp3").
   */
  lemma SimpleFileNameKeepsSegment(head: string, seg: string)
    requires '/' !in seg
    requires head == [] || head[|head| - 1] == '/'
    requires '?' !in seg || seg[0] == '?'
    ensures SimpleFileName(head + seg) == Lower(seg)
  {
    SimpleFileNameOfSegment(head, seg);
    LowerKeeps(seg, '?');
    QueryCutKeeps(Lower(seg));
  }

  /**
   When the final segment does not start with '?' and its last '?' is at
   index `i`, the simple name is the lower-cased text before that '?'
   (so ".../A/Ep1.mp3?x=1" names "ep1.mp3").
   */
  lemma SimpleFileNameCutsAtLastQuery(head: string, seg: string, i: nat)
    requires '/' !in seg
    requires head == [] || head[|head| - 1] == '/'
    requires 0 < i < |seg| && seg[i] == '?' && seg[0] != '?' && '?' !in seg[i + 1..]
    ensures SimpleFileName(head + seg) == Lower(seg[..i])
  {
    SimpleFileNameOfSegment(head, seg);
    LowerQueryCut(seg, i);
  }

  /** The query rule commutes with lower-casing for a '?' found in the original segment. */
  lemma LowerQueryCut(seg: string, i: nat)
    requires 0 < i < |seg| && seg[i] == '?' && seg[0] != '?' && '?' !in seg[i + 1..]
    ensures QueryCut(Lower(seg)) == Lower(seg[..i])
  {
    var low := Lower(seg);
    LowerKeeps(seg, '?');
    LowerKeeps(seg[i + 1..], '?');
    assert Lower(seg[i + 1..]) == low[i + 1..];
    QueryCutAtLast(low, i);
    assert Lower(seg[..i]) == low[..i];
  }

  lemma SimpleFileNameExampleQuery()
    ensures SimpleFileName("https://x.com/A/Ep1.mp3?x=1") == "ep1.mp3"
  {
    var head, seg, name := "https://x.com/A/", "Ep1.mp3?x=1", "Ep1.mp3";
    assert "https://x.com/A/Ep1.mp3?x=1" == head + seg;
    assert seg[8..] == "x=1" && seg[..7] == name;
    assert Lower(name) == "ep1.mp3" by {
      assert forall i :: 1 <= i < |name| ==> !IsUpper(name[i]);
    }
    SimpleFileNameCutsAtLastQuery(head, seg, 7);
  }

  lemma SimpleFileNameExamplePlain()
    ensures SimpleFileName("https://x.com/A/Ep1.mp3") == "ep1.mp3"
  {
    var head, seg := "https://x.com/A/", "Ep1.mp3";
    assert "https://x.com/A/Ep1.mp3" == head + seg;
    assert Lower(seg) == "ep1.mp3" by {
      assert forall i :: 1 <= i < |seg| ==> !IsUpper(seg[i]);
    }
    SimpleFileNameKeepsSegment(head, seg);
  }

  lemma SimpleFileNameExampleLeadingQuery()
    ensures SimpleFileName("https://x.com/?episode.mp3") == "?episode.mp3"
  {
    var head, seg := "https://x.com/", "?episode.mp3";
    assert "https://x.com/?episode.mp3" == head + seg;
    assert Lower(seg) == seg by {
      assert forall i :: 0 <= i < |seg| ==> !IsUpper(seg[i]);
    }
    SimpleFileNameKeepsSegment(head, seg);
  }

  /** Two dated names agree only when their calendar days and their simple names agree. */
  lemma DatedFileNameInjective(d1: Date, link1: string, d2: Date, link2: string)
    requires DatedFileName(d1, link1) == DatedFileName(d2, link2)
    ensures Ymd(d1) == Ymd(d2)
    ensures SimpleFileName(link1) == SimpleFileName(link2)
  {
    var f1, f2 := FormatYmd(d1), FormatYmd(d2);
    assert f1 == DatedFileName(d1, link1)[1..9] == f2;
  }

  lemma FormatYmdExample()
    ensures FormatYmd(Date(2023, 7, 4, 0, 0, 0)) == "20230704"
  {
    assert Pad(2, 1) == "2";
    assert Pad(20, 2) == "20";
    assert Pad(202, 3) == "202";
    assert Pad(2023, 4) == "2023";
    assert Pad(7, 2) == "07";
    assert Pad(4, 2) == "04";
  }

  /** The dated name assembled from an already computed stamp and simple name. */
  lemma DatedFileNameFrom(d: Date, link: string, stamp: string, name: string)
    requires FormatYmd(d) == stamp && SimpleFileName(link) == name
    ensures DatedFileName(d, link) == "[" + stamp + "] " + name
  {
  }

  lemma DatedFileNameExample()
    ensures DatedFileName(Date(2023, 7, 4, 0, 0, 0), "https://x.com/A/Ep1.mp3") == "[20230704] ep1.mp3"
  {
    assert "[" + "20230704" + "] " + "ep1.mp3" == "[20230704] ep1.mp3";
    SimpleFileNameExamplePlain();
    FormatYmdExample();
    DatedFileNameFrom(Date(2023, 7, 4, 0, 0, 0), "https://x.com/A/Ep1.mp3", "20230704", "ep1.mp3");
  }

  // ----------------------------------------------------------- extraction

  /** `is_audio`: the link's type is exactly "audio/mpeg". */
  predicate IsAudio(link: Link): (b: bool)
    ensures b <==> link.mediaType == "audio/mpeg"
  {
    link.mediaType == "audio/mpeg"
  }

  /** A raw entry has at least one audio link. */
  predicate HasAudioLink(e: RawEntry)
  {
    exists i :: 0 <= i < |e.links| && IsAudio(e.links[i])
  }

  /**
   `only_audio`: the audio links, in their order; every audio link of the
   input is kept and nothing else.
   */
  function OnlyAudio(links: seq<Link>): (r: seq<Link>)
    ensures IsSubsequence(r, links)
    ensures forall i :: 0 <= i < |r| ==> r[i].mediaType == "audio/mpeg"
    ensures forall l :: l in r <==> l in links && IsAudio(l)
  {
    FilterIsSubsequence(IsAudio, links);
    FilterMembers(IsAudio, links);
    Filter(IsAudio, links)
  }

  /**
   `OnlyAudio` is THE subsequence of audio links: any subsequence of audio
   links that is at least as long is it.
   */
  lemma OnlyAudioUnique(links: seq<Link>, r: seq<Link>)
    requires IsSubsequence(r, links)
    requires forall i :: 0 <= i < |r| ==> IsAudio(r[i])
    requires |OnlyAudio(links)| <= |r|
    ensures r == OnlyAudio(links)
  {
    FilterUnique(IsAudio, r, links);
  }

  /** `strip_data`: keeps the publish time and the audio links; they are non-empty exactly when the entry has one. */
  function StripData(raw: RawEntry): (r: StrippedEntry)
    ensures r.publishedDate == raw.publishedParsed
    ensures r.audioLinks == OnlyAudio(raw.links)
    ensures |r.audioLinks| > 0 <==> HasAudioLink(raw)
  {
    var audio := OnlyAudio(raw.links);
    assert audio != [] ==> audio[0] in raw.links;
    StrippedEntry(raw.publishedParsed, audio)
  }

  /** `has_entry_podcast_link`: the pair has at least one audio link. */
  predicate HasEntryPodcastLink(s: StrippedEntry): (b: bool)
    ensures b <==> s.audioLinks != []
  {
    |s.audioLinks| > 0
  }

  /** A stripped entry passes `has_entry_podcast_link` exactly when the raw entry has an audio link. */
  lemma HasEntryPodcastLinkOfStripped(raw: RawEntry)
    ensures HasEntryPodcastLink(StripData(raw)) <==> HasAudioLink(raw)
  {
  }

  /**
   `prepare_rss_data_from` after the fetch: strip every raw entry, then drop
   the pairs without audio links.
   */
  function PrepareRssDataFrom(raw: seq<RawEntry>): (r: seq<StrippedEntry>)
    ensures |r| <= |raw|
    ensures forall i :: 0 <= i < |r| ==> |r[i].audioLinks| > 0
    ensures forall i, j :: 0 <= i < |r| && 0 <= j < |r[i].audioLinks| ==> IsAudio(r[i].audioLinks[j])
  {
    var stripped := Map(StripData, raw);
    FilterMembers(HasEntryPodcastLink, stripped);
    var r := Filter(HasEntryPodcastLink, stripped);
    assert forall i :: 0 <= i < |r| ==> r[i] in stripped;
    r
  }

  /** The pipeline strips exactly the raw entries that have an audio link, in feed order. */
  lemma PrepareRssDataSurvivors(raw: seq<RawEntry>)
    ensures PrepareRssDataFrom(raw) == Map(StripData, Filter(HasAudioLink, raw))
  {
    FilterMap(HasEntryPodcastLink, StripData, raw);
    FilterCongruent((x: RawEntry) => HasEntryPodcastLink(StripData(x)), HasAudioLink, raw);
  }

  /** The pipeline handles raw entries one at a time: it distributes over concatenation. */
  lemma PrepareRssDataConcat(a: seq<RawEntry>, b: seq<RawEntry>)
    ensures PrepareRssDataFrom(a + b) == PrepareRssDataFrom(a) + PrepareRssDataFrom(b)
  {
    MapConcat(StripData, a, b);
    FilterConcat(HasEntryPodcastLink, Map(StripData, a), Map(StripData, b));
  }

  /** A single raw entry yields its stripped pair when it has an audio link, and nothing otherwise. */
  lemma PrepareRssDataSingle(e: RawEntry)
    ensures PrepareRssDataFrom([e]) == if HasAudioLink(e) then [StripData(e)] else []
  {
    var m := Map(StripData, [e]);
    assert m == [StripData(e)];
    assert m[1..] == [];
  }

  /** An entry without an audio link contributes nothing and leaves its neighbours' order alone. */
  lemma PrepareRssDataDrops(before: seq<RawEntry>, e: RawEntry, after: seq<RawEntry>)
    requires !HasAudioLink(e)
    ensures PrepareRssDataFrom(before + [e] + after) == PrepareRssDataFrom(before) + PrepareRssDataFrom(after)
  {
    PrepareRssDataConcat(before + [e], after);
    PrepareRssDataConcat(before, [e]);
    PrepareRssDataSingle(e);
  }

  /** An entry with an audio link is stripped in place between what precedes and what follows it. */
  lemma PrepareRssDataKeeps(before: seq<RawEntry>, e: RawEntry, after: seq<RawEntry>)
    requires HasAudioLink(e)
    ensures PrepareRssDataFrom(before + [e] + after)
         == PrepareRssDataFrom(before) + [StripData(e)] + PrepareRssDataFrom(after)
  {
    PrepareRssDataConcat(before + [e], after);
    PrepareRssDataConcat(before, [e]);
    PrepareRssDataSingle(e);
  }

  // --------------------------------------------------- entity construction

  /** `build_rss_entity`: the pair's date and the href of its FIRST audio link. */
  function BuildRssEntity(naming: Naming, s: StrippedEntry): (r: RssEntity)
    requires |s.audioLinks| > 0
    ensures r.publishedDate == s.publishedDate
    ensures r.link == s.audioLinks[0].href
    ensures r.SimpleName? <==> naming == SimpleNaming
  {
    match naming
    case SimpleNaming => SimpleName(s.publishedDate, s.audioLinks[0].href)
    case DatedNaming => WithDate(s.publishedDate, s.audioLinks[0].href)
  }

  /**
   Built from a raw entry, the entity's link is the href of the first audio
   link of the entry, whatever non-audio links precede it and whatever
   audio links follow it.
   */
  lemma FirstAudioLinkWins(naming: Naming, e: RawEntry, k: nat)
    requires k < |e.links| && IsAudio(e.links[k])
    requires forall j :: 0 <= j < k ==> !IsAudio(e.links[j])
    ensures HasEntryPodcastLink(StripData(e))
    ensures BuildRssEntity(naming, StripData(e)).link == e.links[k].href
    ensures BuildRssEntity(naming, StripData(e)).publishedDate == e.publishedParsed
  {
    var links := e.links;
    assert links == links[..k] + links[k..];
    FilterConcat(IsAudio, links[..k], links[k..]);
    FilterNone(IsAudio, links[..k]);
    assert links[k..][0] == links[k];
  }

  // ------------------------------------------------------- filter policies

  /** The predicate `lambda rss_entity: rss_entity.to_file_name() != from_file`. */
  function NameDiffers(marker: string): (p: RssEntity -> bool)
    ensures forall e :: p(e) <==> e.ToFileName() != marker
  {
    (e: RssEntity) => e.ToFileName() != marker
  }

  /**
   `only_new_entities`: the entities up to, not including, the first one
   whose file name is the marker; all of them when none is.
   */
  function OnlyNewEntities(fromFile: string, entities: seq<RssEntity>): (r: seq<RssEntity>)
    ensures |r| <= |entities| && r == entities[..|r|]
    ensures forall i :: 0 <= i < |r| ==> r[i].ToFileName() != fromFile
    ensures |r| < |entities| ==> entities[|r|].ToFileName() == fromFile
    ensures (forall i :: 0 <= i < |entities| ==> entities[i].ToFileName() != fromFile) ==> r == entities
  {
    var r := TakeWhile(NameDiffers(fromFile), entities);
    assert forall i :: 0 <= i < |r| ==> NameDiffers(fromFile)(r[i]);
    r
  }

  /**
   The stopping point fixes the result: if the first `k` names differ from
   the marker and the next one (if any) equals it, the new entities are the
   first `k`.
   */
  lemma OnlyNewEntitiesStopsAt(fromFile: string, entities: seq<RssEntity>, k: nat)
    requires k <= |entities|
    requires forall i :: 0 <= i < k ==> entities[i].ToFileName() != fromFile
    requires k < |entities| ==> entities[k].ToFileName() == fromFile
    ensures OnlyNewEntities(fromFile, entities) == entities[..k]
  {
    TakeWhileUnique(NameDiffers(fromFile), entities, k);
  }

  /** The marker is the third name: the two names before it are the new ones. */
  lemma OnlyNewEntitiesExample(e7: RssEntity, e6: RssEntity, e5: RssEntity, e4: RssEntity, m: string)
    requires e7.ToFileName() != m && e6.ToFileName() != m && e5.ToFileName() == m
    ensures OnlyNewEntities(m, [e7, e6, e5, e4]) == [e7, e6]
  {
    var p := NameDiffers(m);
    assert p(e7) && p(e6) && !p(e5);
    TakeWhileTwoOfFour(p, e7, e6, e5, e4);
  }

  /** The take-while step of the example, for any element type. */
  lemma TakeWhileTwoOfFour<T>(p: T -> bool, a: T, b: T, c: T, d: T)
    requires p(a) && p(b) && !p(c)
    ensures TakeWhile(p, [a, b, c, d]) == [a, b]
  {
    var s := [a, b, c, d];
    TakeWhileUnique(p, s, 2);
    assert s[..2] == [a, b];
  }

  /** No name is the marker: every entity is new. */
  lemma OnlyNewEntitiesExampleMissing(a: RssEntity, b: RssEntity, c: RssEntity, m: string)
    requires a.ToFileName() != m && b.ToFileName() != m && c.ToFileName() != m
    ensures OnlyNewEntities(m, [a, b, c]) == [a, b, c]
  {
  }

  /** `only_last_entity`: the first entity, the most recent under newest-first order. */
  function OnlyLastEntity(entities: seq<RssEntity>): (r: seq<RssEntity>)
    ensures |r| <= 1
    ensures entities == [] ==> r == []
    ensures entities != [] ==> r == [entities[0]]
  {
    Islice(entities, 1)
  }

  /** `a` is on or after `b` when only year, month and day are compared, as Python compares tuples. */
  predicate OnOrAfter(a: Date, b: Date): (r: bool)
    ensures Ymd(a) == Ymd(b) ==> r
  {
    !LexLess(Ymd(a), Ymd(b))
  }

  /** `is_entity_newer`: the entity's day is not before the cutoff's day. */
  predicate IsEntityNewer(fromDate: Date, entity: RssEntity): (b: bool)
    ensures var a := entity.publishedDate;
      b <==> (a.year > fromDate.year || (a.year == fromDate.year &&
        (a.month > fromDate.month || (a.month == fromDate.month && a.day >= fromDate.day))))
  {
    OnOrAfterMeans(entity.publishedDate, fromDate);
    OnOrAfter(entity.publishedDate, fromDate)
  }

  /** The tuple comparison spelled out field by field; time of day plays no part. */
  lemma OnOrAfterMeans(a: Date, b: Date)
    ensures OnOrAfter(a, b) <==>
      a.year > b.year || (a.year == b.year && (a.month > b.month || (a.month == b.month && a.day >= b.day)))
  {
    var x, y := Ymd(a), Ymd(b);
    var x1, y1 := x[1..], y[1..];
    var x2, y2 := x1[1..], y1[1..];
    assert x1 == [a.month, a.day] && y1 == [b.month, b.day];
    assert x2 == [a.day] && y2 == [b.day];
    assert x2[1..] == [] && y2[1..] == [];
    assert LexLess(x2, y2) <==> a.day < b.day;
    assert LexLess(x1, y1) <==> a.month < b.month || (a.month == b.month && LexLess(x2, y2));
    assert LexLess(x, y) <==> a.year < b.year || (a.year == b.year && LexLess(x1, y1));
  }

  /** The day order is a total preorder, and two dates are equivalent in it exactly on the same day. */
  lemma OnOrAfterTotalPreorder(a: Date, b: Date, c: Date)
    ensures OnOrAfter(a, a)
    ensures OnOrAfter(a, b) || OnOrAfter(b, a)
    ensures OnOrAfter(a, b) && OnOrAfter(b, c) ==> OnOrAfter(a, c)
    ensures OnOrAfter(a, b) && OnOrAfter(b, a) <==> Ymd(a) == Ymd(b)
  {
    OnOrAfterMeans(a, a);
    OnOrAfterMeans(a, b);
    OnOrAfterMeans(b, a);
    OnOrAfterMeans(b, c);
    OnOrAfterMeans(a, c);
  }

  /** `partial(is_entity_newer, from_date)`. */
  function NewerThan(fromDate: Date): (p: RssEntity -> bool)
    ensures forall e :: p(e) <==> IsEntityNewer(fromDate, e)
  {
    (e: RssEntity) => IsEntityNewer(fromDate, e)
  }

  /**
   `only_entities_from_date(from_date)` applied to `entities`: the entities
   whose day is on or after the cutoff's, in their order.
   */
  function OnlyEntitiesFromDate(fromDate: Date, entities: seq<RssEntity>): (r: seq<RssEntity>)
    ensures IsSubsequence(r, entities)
    ensures forall i :: 0 <= i < |r| ==> IsEntityNewer(fromDate, r[i])
    ensures forall e :: e in r <==> e in entities && IsEntityNewer(fromDate, e)
  {
    FilterIsSubsequence(NewerThan(fromDate), entities);
    FilterMembers(NewerThan(fromDate), entities);
    var r := Filter(NewerThan(fromDate), entities);
    assert forall i :: 0 <= i < |r| ==> NewerThan(fromDate)(r[i]);
    r
  }

  /** No other subsequence of entities on or after the cutoff keeps as many. */
  lemma OnlyEntitiesFromDateUnique(fromDate: Date, entities: seq<RssEntity>, r: seq<RssEntity>)
    requires IsSubsequence(r, entities)
    requires forall i :: 0 <= i < |r| ==> IsEntityNewer(fromDate, r[i])
    requires |OnlyEntitiesFromDate(fromDate, entities)| <= |r|
    ensures r == OnlyEntitiesFromDate(fromDate, entities)
  {
    FilterUnique(NewerThan(fromDate), r, entities);
  }

  lemma OnlyEntitiesFromDateIdempotent(fromDate: Date, entities: seq<RssEntity>)
    ensures OnlyEntitiesFromDate(fromDate, OnlyEntitiesFromDate(fromDate, entities))
         == OnlyEntitiesFromDate(fromDate, entities)
  {
    FilterIdempotent(NewerThan(fromDate), entities);
  }

  /** Two cutoffs on the same day select the same entities, whatever their time of day. */
  lemma OnlyEntitiesFromDateIgnoresTime(from1: Date, from2: Date, entities: seq<RssEntity>)
    requires Ymd(from1) == Ymd(from2)
    ensures OnlyEntitiesFromDate(from1, entities) == OnlyEntitiesFromDate(from2, entities)
  {
    FilterCongruent(NewerThan(from1), NewerThan(from2), entities);
  }

  /** Entities listed from the most recent day to the oldest. */
  predicate NewestFirst(entities: seq<RssEntity>)
  {
    forall i, j :: 0 <= i < j < |entities| ==> OnOrAfter(entities[i].publishedDate, entities[j].publishedDate)
  }

  /**
   On a newest-first feed the date filter keeps a prefix: it is the
   take-while of the same test.
   */
  lemma {:induction false} OnlyEntitiesFromDateNewestFirst(fromDate: Date, entities: seq<RssEntity>)
    requires NewestFirst(entities)
    ensures OnlyEntitiesFromDate(fromDate, entities) == TakeWhile(NewerThan(fromDate), entities)
  {
    if entities != [] {
      var rest := entities[1..];
      assert NewestFirst(rest);
      OnlyEntitiesFromDateNewestFirst(fromDate, rest);
      if !IsEntityNewer(fromDate, entities[0]) {
        var tail := Filter(NewerThan(fromDate), rest);
        if tail != [] {
          var k :| 0 <= k < |rest| && rest[k] == tail[0];
          assert NewerThan(fromDate)(tail[0]);
          assert OnOrAfter(entities[0].publishedDate, entities[k + 1].publishedDate);
          OnOrAfterTotalPreorder(entities[0].publishedDate, rest[k].publishedDate, fromDate);
          assert false;
        }
      }
    }
  }

  lemma OnlyEntitiesFromDateExample(e9: RssEntity, e10: RssEntity, e11: RssEntity)
    requires e9.publishedDate == Date(2023, 1, 9, 0, 0, 0)
    requires e10.publishedDate == Date(2023, 1, 10, 0, 0, 0)
    requires e11.publishedDate == Date(2023, 1, 11, 0, 0, 0)
    ensures OnlyEntitiesFromDate(Date(2023, 1, 10, 0, 0, 0), [e9, e10, e11]) == [e10, e11]
  {
    var c := Date(2023, 1, 10, 0, 0, 0);
    OnOrAfterMeans(e9.publishedDate, c);
    OnOrAfterMeans(e10.publishedDate, c);
    OnOrAfterMeans(e11.publishedDate, c);
    var p := NewerThan(c);
    assert !p(e9) && p(e10) && p(e11);
    assert [e9, e10, e11][1..] == [e10, e11];
    assert [e10, e11][1..] == [e11];
    assert Filter(p, [e11]) == [e11];
    assert Filter(p, [e10, e11]) == [e10, e11];
  }
}
