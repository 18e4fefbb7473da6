/** The YouTube side (YoutubeAPIManager): the search and suggestion query parameters,
    the ISO 8601 duration to clock conversion, the id list sent for durations, the
    merge of durations into the search items, the random pick of a suggestion, the
    queue of youtube-dl duration runs, and the table of reply timers. */
module Youtube {
  import opened Text
  import opened Wrappers

  /** The OrderFilter and DurationFilter enumerators. */
  const OrderViewCount: int := 0
  const OrderRelevance: int := 1
  const OrderDate: int := 2
  const OrderRating: int := 3
  const DurationAny: int := 0
  const DurationShort: int := 1
  const DurationMedium: int := 2
  const DurationLong: int := 3

  /** The `order` parameter of a search: anything but relevance, date and rating,
      including values outside the enumeration, orders by view count. */
  function OrderParameter(filter: int): (r: string)
    ensures r == "relevance" <==> filter == OrderRelevance
    ensures r == "date" <==> filter == OrderDate
    ensures r == "rating" <==> filter == OrderRating
    ensures r == "viewCount" <==> filter != OrderRelevance && filter != OrderDate && filter != OrderRating
  {
    if filter == OrderRelevance then "relevance"
    else if filter == OrderDate then "date"
    else if filter == OrderRating then "rating"
    else "viewCount"
  }

  /** The `videoDuration` parameter of a search or a suggestion: anything but short,
      medium and long asks for any duration. */
  function DurationParameter(filter: int): (r: string)
    ensures r == "short" <==> filter == DurationShort
    ensures r == "medium" <==> filter == DurationMedium
    ensures r == "long" <==> filter == DurationLong
    ensures r == "any" <==> filter != DurationShort && filter != DurationMedium && filter != DurationLong
  {
    if filter == DurationShort then "short"
    else if filter == DurationMedium then "medium"
    else if filter == DurationLong then "long"
    else "any"
  }

  // ---------------------------------------------------------------------------
  // Durations

  /** `n` zero characters. */
  function Zeros(n: nat): (r: string)
    ensures |r| == n && forall i :: 0 <= i < n ==> r[i] == '0'
  {
    seq(n, _ => '0')
  }

  /** The minutes and seconds padding loop: '0's in front until two characters. */
  function Padded(s: string): (r: string)
    ensures |r| == if |s| < 2 then 2 else |s|
    decreases 2 - |s|
  {
    if |s| < 2 then Padded("0" + s) else s
  }

  /** The padding only puts '0's in front. */
  lemma {:induction false} PaddedZeros(s: string)
    ensures Padded(s) == Zeros(|Padded(s)| - |s|) + s
    decreases 2 - |s|
  {
    if |s| < 2 {
      PaddedZeros("0" + s);
      var p := Padded(s);
      assert Zeros(|p| - |s|) == Zeros(|p| - |s| - 1) + "0";
    }
  }

  /** The hours padding: a single '0' in front when shorter than two characters. */
  function PaddedOnce(s: string): (r: string)
    ensures |s| < 2 ==> r == "0" + s
    ensures |s| >= 2 ==> r == s
  {
    if |s| < 2 then "0" + s else s
  }

  /** The hours step: the text before the first 'H', padded once; none without 'H'. */
  function HoursField(rest: string): string
  {
    if 'H' in rest then PaddedOnce(Left(rest, IndexOf(rest, 'H'))) else ""
  }

  /** What the hours step leaves: everything after the first 'H'. */
  function AfterHours(rest: string): string
  {
    if 'H' in rest then RemoveFront(rest, IndexOf(rest, 'H') + 1) else rest
  }

  /** The minutes step: the text before the first 'M' (empty without one), padded. */
  function MinutesField(rest: string): string
  {
    Padded(if 'M' in rest then Left(rest, IndexOf(rest, 'M')) else "")
  }

  /** What the minutes step leaves: everything after the first 'M', or all of it. */
  function AfterMinutes(rest: string): string
  {
    RemoveFront(rest, IndexOf(rest, 'M') + 1)
  }

  /** The seconds step: the text before the first 'S' (all of it without one), padded. */
  function SecondsField(rest: string): string
  {
    Padded(Left(rest, IndexOf(rest, 'S')))
  }

  /** The three fields put together, each non-empty one followed by ':' but the last. */
  function Assemble(hours: string, minutes: string, seconds: string): string
  {
    (if |hours| > 0 then hours + ":" else "") + (if |minutes| > 0 then minutes + ":" else "") + seconds
  }

  /** The clock text for what follows "PT". */
  function ClockOf(rest: string): string
  {
    var afterHours := AfterHours(rest);
    Assemble(HoursField(rest), MinutesField(afterHours), SecondsField(AfterMinutes(afterHours)))
  }

  /** The conversion of a contentDetails duration: nothing unless it starts "PT". */
  function Clock(duration: string): (r: Option<string>)
    ensures r.None? <==> !StartsWith(duration, "PT")
  {
    if StartsWith(duration, "PT") then Some(ClockOf(duration[2..])) else None
  }

  /** The padding loop the minutes and seconds steps run: '0' inserted in front while
      the text is shorter than two characters. */
  method PadWithZeros(s: string) returns (r: string)
    ensures r == Padded(s)
  {
    r := s;
    while |r| < 2
      invariant Padded(r) == Padded(s)
      decreases 2 - |r|
    {
      r := "0" + r;
    }
  }

  /** The conversion as the two reply handlers perform it, by removing and inserting
      characters and padding in loops. */
  method ConvertDuration(duration: string) returns (r: Option<string>)
    ensures r == Clock(duration)
  {
    if !StartsWith(duration, "PT") {
      return None;
    }
    var rest := RemoveFront(duration, 2);
    var hoursStr, afterHours := TakeHours(rest);
    var minutesStr, afterMinutes := TakeMinutes(afterHours);
    var secondsStr := TakeSeconds(afterMinutes);
    var clock := AppendFields(hoursStr, minutesStr, secondsStr);
    return Some(clock);
  }

  /** The hours block: when there is an 'H', the text before it, with one '0' in front
      when shorter than two characters, and the text is cut after the 'H'. */
  method TakeHours(rest: string) returns (hoursStr: string, after: string)
    ensures hoursStr == HoursField(rest) && after == AfterHours(rest)
  {
    hoursStr, after := "", rest;
    if 'H' in after {
      hoursStr := Left(after, IndexOf(after, 'H'));
      if |hoursStr| < 2 {
        hoursStr := "0" + hoursStr;
      }
      after := RemoveFront(after, IndexOf(after, 'H') + 1);
    }
  }

  /** The minutes block: the text before an 'M' (empty without one), padded to two
      characters, and the text cut after the first 'M' (nothing cut without one). */
  method TakeMinutes(rest: string) returns (minutesStr: string, after: string)
    ensures minutesStr == MinutesField(rest) && after == AfterMinutes(rest)
  {
    minutesStr := "";
    if 'M' in rest {
      minutesStr := Left(rest, IndexOf(rest, 'M'));
    }
    minutesStr := PadWithZeros(minutesStr);
    after := RemoveFront(rest, IndexOf(rest, 'M') + 1);
  }

  /** The seconds block: the text before the first 'S' (all of it without one), padded
      to two characters. */
  method TakeSeconds(rest: string) returns (secondsStr: string)
    ensures secondsStr == SecondsField(rest)
  {
    secondsStr := Left(rest, IndexOf(rest, 'S'));
    secondsStr := PadWithZeros(secondsStr);
  }

  /** The three fields appended in turn, each non-empty one but the last with ':'. */
  method AppendFields(hoursStr: string, minutesStr: string, secondsStr: string) returns (clock: string)
    ensures clock == Assemble(hoursStr, minutesStr, secondsStr)
  {
    clock := "";
    if |hoursStr| > 0 {
      clock := clock + (hoursStr + ":");
      assert clock == hoursStr + ":";
    }
    ghost var hoursPart := clock;
    if |minutesStr| > 0 {
      clock := clock + (minutesStr + ":");
    }
    assert clock == hoursPart + (if |minutesStr| > 0 then minutesStr + ":" else "");
    clock := clock + secondsStr;
  }

  /** The clock always has its minutes field, then ':', then its seconds field, both
      at least two characters; the hours field and its ':' come first exactly when the
      duration has an 'H'. */
  lemma {:induction false} ClockShape(rest: string)
    ensures |MinutesField(AfterHours(rest))| >= 2 && |SecondsField(AfterMinutes(AfterHours(rest)))| >= 2
    ensures 'H' in rest ==> (|HoursField(rest)| >= 1 &&
      ClockOf(rest) == HoursField(rest) + ":" + MinutesField(AfterHours(rest)) + ":" +
                       SecondsField(AfterMinutes(AfterHours(rest))))
    ensures 'H' !in rest ==>
      ClockOf(rest) == MinutesField(rest) + ":" + SecondsField(AfterMinutes(rest))
  {
    var hours := HoursField(rest);
    var minutes := MinutesField(AfterHours(rest));
    var seconds := SecondsField(AfterMinutes(AfterHours(rest)));
    assert |minutes| >= 2 && |seconds| >= 2;
    assert ClockOf(rest) == Assemble(hours, minutes, seconds);
    ClockSplit(hours, minutes, seconds);
    HoursPresent(rest);
    if 'H' in rest {
      assert ClockOf(rest) == hours + ":" + minutes + ":" + seconds;
    } else {
      assert AfterHours(rest) == rest && hours == "";
      assert ClockOf(rest) == minutes + ":" + seconds;
    }
  }

  lemma HoursPresent(rest: string)
    ensures |HoursField(rest)| > 0 <==> 'H' in rest
  {
  }

  lemma ClockSplit(hours: string, minutes: string, seconds: string)
    requires |minutes| >= 2
    ensures Assemble(hours, minutes, seconds) == (if |hours| > 0 then hours + ":" else "") + minutes + ":" + seconds
  {
  }

  /** One field of a well-formed duration: digits, then the field's letter. */
  lemma {:induction false} FieldAt(x: string, letter: char, tail: string)
    requires IsDigits(x) && !IsDigit(letter)
    ensures letter in x + [letter] + tail
    ensures IndexOf(x + [letter] + tail, letter) == |x|
    ensures Left(x + [letter] + tail, |x|) == x
    ensures RemoveFront(x + [letter] + tail, |x| + 1) == tail
  {
    assert forall i :: 0 <= i < |x| ==> x[i] != letter;
    IndexOfAfterPrefix(x, letter, tail);
    var s := x + [letter] + tail;
    assert s[|x|] == letter;
    assert s[..|x|] == x;
    assert s[|x| + 1..] == tail;
  }

  /** The text a duration field takes: its digits followed by its letter, or nothing. */
  function Field(digits: Option<string>, letter: char): string
  {
    if digits.Some? then digits.value + [letter] else ""
  }

  /** A field holds no letter but its own. */
  lemma FieldLacks(digits: Option<string>, letter: char, c: char)
    requires digits.Some? ==> IsDigits(digits.value)
    requires c != letter && !IsDigit(c)
    ensures c !in Field(digits, letter)
  {
    if digits.Some? {
      var x := digits.value;
      assert forall i :: 0 <= i < |x| ==> x[i] != c;
      assert Field(digits, letter) == x + [letter];
    }
  }

  /** A well-formed duration "PT[hH][mM][sS]" with decimal fields converts to the
      hours padded once, then the minutes and seconds padded to two digits, a missing
      minutes or seconds field counting as empty. */
  lemma {:induction false} ClockOfFields(h: Option<string>, m: Option<string>, s: Option<string>,
                                         duration: string, clock: string)
    requires h.Some? ==> IsDigits(h.value)
    requires m.Some? ==> IsDigits(m.value)
    requires s.Some? ==> IsDigits(s.value)
    requires duration == "PT" + Field(h, 'H') + Field(m, 'M') + Field(s, 'S')
    requires clock == (if h.Some? then PaddedOnce(h.value) + ":" else "") +
                      Padded(if m.Some? then m.value else "") + ":" + Padded(if s.Some? then s.value else "")
    ensures Clock(duration) == Some(clock)
  {
    DurationRest(Field(h, 'H'), Field(m, 'M'), Field(s, 'S'), duration);
    ClockOfParts(h, m, s);
  }

  /** The duration starts "PT" and the rest is the three fields. */
  lemma DurationRest(hf: string, mf: string, sf: string, duration: string)
    requires duration == "PT" + hf + mf + sf
    ensures Clock(duration) == Some(ClockOf(hf + (mf + sf)))
  {
    assert duration == "PT" + (hf + (mf + sf));
    assert duration[2..] == hf + (mf + sf);
  }

  /** What follows "PT" converts field by field. */
  lemma {:induction false} ClockOfParts(h: Option<string>, m: Option<string>, s: Option<string>)
    requires h.Some? ==> IsDigits(h.value)
    requires m.Some? ==> IsDigits(m.value)
    requires s.Some? ==> IsDigits(s.value)
    ensures ClockOf(Field(h, 'H') + (Field(m, 'M') + Field(s, 'S'))) ==
      (if h.Some? then PaddedOnce(h.value) + ":" else "") +
      Padded(if m.Some? then m.value else "") + ":" + Padded(if s.Some? then s.value else "")
  {
    var sp := Field(s, 'S');
    var mp := Field(m, 'M') + sp;
    var rest := Field(h, 'H') + mp;
    var hours := if h.Some? then PaddedOnce(h.value) else "";
    var minutes := Padded(if m.Some? then m.value else "");
    var seconds := Padded(if s.Some? then s.value else "");
    HoursStep(h, m, s);
    MinutesStep(m, s);
    SecondsStep(s);
    assert ClockOf(rest) == Assemble(hours, minutes, seconds);
    ClockSplit(hours, minutes, seconds);
    if h.Some? {
      assert |PaddedOnce(h.value)| > 0;
    }
  }

  lemma {:induction false} HoursStep(h: Option<string>, m: Option<string>, s: Option<string>)
    requires h.Some? ==> IsDigits(h.value)
    requires m.Some? ==> IsDigits(m.value)
    requires s.Some? ==> IsDigits(s.value)
    ensures var rest := Field(h, 'H') + (Field(m, 'M') + Field(s, 'S'));
      HoursField(rest) == (if h.Some? then PaddedOnce(h.value) else "") &&
      AfterHours(rest) == Field(m, 'M') + Field(s, 'S')
  {
    var mp := Field(m, 'M') + Field(s, 'S');
    if h.Some? {
      FieldAt(h.value, 'H', mp);
      assert Field(h, 'H') + mp == h.value + ['H'] + mp;
    } else {
      FieldLacks(m, 'M', 'H');
      FieldLacks(s, 'S', 'H');
      assert Field(h, 'H') + mp == mp;
    }
  }

  lemma {:induction false} MinutesStep(m: Option<string>, s: Option<string>)
    requires m.Some? ==> IsDigits(m.value)
    requires s.Some? ==> IsDigits(s.value)
    ensures var rest := Field(m, 'M') + Field(s, 'S');
      MinutesField(rest) == Padded(if m.Some? then m.value else "") &&
      AfterMinutes(rest) == Field(s, 'S')
  {
    var sp := Field(s, 'S');
    if m.Some? {
      FieldAt(m.value, 'M', sp);
      assert Field(m, 'M') + sp == m.value + ['M'] + sp;
    } else {
      FieldLacks(s, 'S', 'M');
      assert Field(m, 'M') + sp == sp;
    }
  }

  lemma {:induction false} SecondsStep(s: Option<string>)
    requires s.Some? ==> IsDigits(s.value)
    ensures SecondsField(Field(s, 'S')) == Padded(if s.Some? then s.value else "")
  {
    if s.Some? {
      FieldAt(s.value, 'S', "");
      assert Field(s, 'S') == s.value + ['S'] + "";
    }
  }

  /** The conversions the reply handlers are written for. */
  lemma ClockMinutesSeconds()
    ensures Clock("PT4M13S") == Some("04:13")
  {
    assert "PT" + Field(None, 'H') + Field(Some("4"), 'M') + Field(Some("13"), 'S') == "PT4M13S" by {
      assert Field(Some("4"), 'M') == "4M" && Field(Some("13"), 'S') == "13S";
    }
    assert Padded("4") + ":" + Padded("13") == "04:13" by {
      assert Padded("4") == "04";
    }
    ClockOfFields(None, Some("4"), Some("13"), "PT4M13S", "04:13");
  }

  lemma ClockAllFields()
    ensures Clock("PT1H2M3S") == Some("01:02:03")
  {
    assert "PT" + Field(Some("1"), 'H') + Field(Some("2"), 'M') + Field(Some("3"), 'S') == "PT1H2M3S" by {
      assert Field(Some("1"), 'H') == "1H" && Field(Some("2"), 'M') == "2M" && Field(Some("3"), 'S') == "3S";
    }
    assert PaddedOnce("1") + ":" + Padded("2") + ":" + Padded("3") == "01:02:03" by {
      assert Padded("2") == "02" && Padded("3") == "03";
    }
    ClockOfFields(Some("1"), Some("2"), Some("3"), "PT1H2M3S", "01:02:03");
  }

  lemma ClockSecondsOnly()
    ensures Clock("PT45S") == Some("00:45")
  {
    assert "PT" + Field(None, 'H') + Field(None, 'M') + Field(Some("45"), 'S') == "PT45S" by {
      assert Field(Some("45"), 'S') == "45S";
    }
    assert Padded("") + ":" + Padded("45") == "00:45" by {
      assert Padded("") == "00";
    }
    ClockOfFields(None, None, Some("45"), "PT45S", "00:45");
  }

  lemma ClockHoursOnly()
    ensures Clock("PT1H") == Some("01:00:00")
  {
    assert "PT" + Field(Some("1"), 'H') + Field(None, 'M') + Field(None, 'S') == "PT1H" by {
      assert Field(Some("1"), 'H') == "1H";
    }
    assert PaddedOnce("1") + ":" + Padded("") + ":" + Padded("") == "01:00:00" by {
      assert Padded("") == "00";
    }
    ClockOfFields(Some("1"), None, None, "PT1H", "01:00:00");
  }

  // ---------------------------------------------------------------------------
  // Search results

  /** One entry of a search reply, as read from id.videoId, snippet.title and
      snippet.thumbnails.high.url (a missing member reads as ""). */
  datatype SearchResult = SearchResult(videoId: string, title: string, thumbnail: string)

  /** One item of the search document; the duration is added by the second request. */
  datatype SearchItem = SearchItem(id: string, title: string, thumbnail: string, duration: Option<string>)

  function ItemFor(result: SearchResult): SearchItem
  {
    SearchItem(result.videoId, result.title, result.thumbnail, None)
  }

  function IdsOf(results: seq<SearchResult>): (r: seq<string>)
    ensures |r| == |results| && forall i :: 0 <= i < |r| ==> r[i] == results[i].videoId
  {
    seq(|results|, i requires 0 <= i < |results| => results[i].videoId)
  }

  /** searchFinished's loop: one item per result, in order, and the ids with a comma
      after each but the last. */
  method CollectResults(results: seq<SearchResult>) returns (items: seq<SearchItem>, ids: string)
    ensures |items| == |results| && forall i :: 0 <= i < |items| ==> items[i] == ItemFor(results[i])
    ensures ids == Join(IdsOf(results), ',')
  {
    items, ids := [], "";
    var i := 0;
    while i < |results|
      invariant 0 <= i <= |results|
      invariant |items| == i && forall j :: 0 <= j < i ==> items[j] == ItemFor(results[j])
      invariant ids == Join(IdsOf(results[..i]), ',') + (if 0 < i < |results| then "," else "")
    {
      var videoId := results[i].videoId;
      assert IdsOf(results[..i + 1]) == IdsOf(results[..i]) + [videoId];
      if i > 0 {
        JoinSnoc(IdsOf(results[..i]), videoId, ',');
      } else {
        assert IdsOf(results[..1]) == [videoId];
      }
      ids := ids + videoId;
      if i < |results| - 1 {
        ids := ids + ",";
      }
      items := items + [ItemFor(results[i])];
      i := i + 1;
    }
    assert results[..i] == results;
  }

  /** With comma-free ids, the id list holds n - 1 commas for n results and splits
      back into the ids in order. */
  lemma {:induction false} JoinedIds(results: seq<SearchResult>)
    requires |results| > 0
    requires forall i :: 0 <= i < |results| ==> ',' !in results[i].videoId
    ensures Count(Join(IdsOf(results), ','), ',') == |results| - 1
    ensures Split(Join(IdsOf(results), ','), ',') == IdsOf(results)
  {
    JoinCount(IdsOf(results), ',');
    SplitJoin(IdsOf(results), ',');
  }

  /** An item with the converted duration stored, when there is one. */
  function WithDuration(item: SearchItem, clock: Option<string>): (r: SearchItem)
    ensures r.id == item.id && r.title == item.title && r.thumbnail == item.thumbnail
    ensures r.duration == if clock.Some? then clock else item.duration
  {
    if clock.Some? then item.(duration := clock) else item
  }

  /** The item QJsonArray::insert appends when the index is the array's count: the
      object read past the end is empty, so it holds only the duration. */
  function DurationOnly(clock: string): (r: SearchItem)
    ensures r.duration == Some(clock) && r.id == "" && r.title == "" && r.thumbnail == ""
  {
    SearchItem("", "", "", Some(clock))
  }

  /** The conversions of the reply's durations, position by position. */
  function Conversions(durations: seq<string>): (r: seq<Option<string>>)
    ensures |r| == |durations|
  {
    if durations == [] then [] else [Clock(durations[0])] + Conversions(durations[1..])
  }

  /** The conversion at position k is the k-th duration's. */
  lemma {:induction false} ConversionAt(durations: seq<string>, k: nat)
    requires k < |durations|
    ensures Conversions(durations)[k] == Clock(durations[k])
  {
    if k > 0 {
      ConversionAt(durations[1..], k - 1);
    }
  }

  /** The search items after the first n conversions of the reply have been merged, one
      position at a time: the i-th duration, when it converts, goes into the i-th item
      (matched by position, not by id). At the index equal to the item count the
      insert appends an item holding only the duration; further past the end Qt
      asserts, and the model keeps the items. */
  function MergedPrefix(items: seq<SearchItem>, clocks: seq<Option<string>>, n: nat): (r: seq<SearchItem>)
    requires n <= |clocks|
    ensures |items| <= |r| <= |items| + n
  {
    if n == 0 then items
    else
      var p := MergedPrefix(items, clocks, n - 1);
      var clock := clocks[n - 1];
      if clock.None? then p
      else if n - 1 < |p| then p[n - 1 := WithDuration(p[n - 1], clock)]
      else if n - 1 == |p| then p + [DurationOnly(clock.value)]
      else p
  }

  /** Position k < |items| of the merge holds the k-th item with the k-th conversion
      when k < n, and the item as it was otherwise. */
  lemma {:induction false} MergedAt(items: seq<SearchItem>, clocks: seq<Option<string>>, n: nat, k: nat)
    requires n <= |clocks| && k < |items|
    ensures MergedPrefix(items, clocks, n)[k] == if k < n then WithDuration(items[k], clocks[k]) else items[k]
  {
    if n > 0 {
      MergedAt(items, clocks, n - 1, k);
    }
  }

  /** Every position past the items holds an appended item: the k-th conversion, and
      nothing else. */
  lemma {:induction false} MergedTail(items: seq<SearchItem>, clocks: seq<Option<string>>, n: nat, k: nat)
    requires n <= |clocks| && |items| <= k < |MergedPrefix(items, clocks, n)|
    ensures k < n && clocks[k].Some?
    ensures MergedPrefix(items, clocks, n)[k] == DurationOnly(clocks[k].value)
  {
    if k < |MergedPrefix(items, clocks, n - 1)| {
      MergedTail(items, clocks, n - 1, k);
    }
  }

  /** The appending stops at the first duration that does not convert: when fewer
      positions than merged conversions exist, the first missing position has no
      conversion. */
  lemma {:induction false} MergedStops(items: seq<SearchItem>, clocks: seq<Option<string>>, n: nat)
    requires n <= |clocks|
    ensures |MergedPrefix(items, clocks, n)| < n ==> clocks[|MergedPrefix(items, clocks, n)|].None?
  {
    if n > 0 {
      var p := MergedPrefix(items, clocks, n - 1);
      MergedStops(items, clocks, n - 1);
      if n - 1 < |p| && |items| <= n - 1 {
        MergedTail(items, clocks, n - 1, n - 1);
      }
    }
  }

  /** One removeAt(i) and insert(i, item) step: the conversion, when there is one,
      replaces the item's duration at that position, or is appended as an item of its
      own when the position is the count. */
  method MergeAt(ghost items: seq<SearchItem>, ghost clocks: seq<Option<string>>, i: nat, p: seq<SearchItem>, clock: Option<string>)
      returns (r: seq<SearchItem>)
    requires i < |clocks| && clocks[i] == clock && p == MergedPrefix(items, clocks, i)
    ensures r == MergedPrefix(items, clocks, i + 1)
  {
    r := p;
    if clock.Some? && i < |r| {
      r := r[i := r[i].(duration := clock)];
    } else if clock.Some? && i == |r| {
      r := r + [DurationOnly(clock.value)];
    }
  }

  /** The whole reply merged: the items keep their positions with their conversions,
      the appended items follow, and the appending stops at the first duration that
      does not convert. */
  lemma MergedReply(items: seq<SearchItem>, clocks: seq<Option<string>>)
    ensures var r := MergedPrefix(items, clocks, |clocks|);
      (forall k :: 0 <= k < |items| ==> r[k] == if k < |clocks| then WithDuration(items[k], clocks[k]) else items[k]) &&
      (forall k :: |items| <= k < |r| ==> k < |clocks| && clocks[k].Some? && r[k] == DurationOnly(clocks[k].value)) &&
      (|r| < |clocks| ==> clocks[|r|].None?) &&
      (|clocks| <= |items| ==> |r| == |items|)
  {
    var r := MergedPrefix(items, clocks, |clocks|);
    forall k | 0 <= k < |items|
      ensures r[k] == if k < |clocks| then WithDuration(items[k], clocks[k]) else items[k]
    {
      MergedAt(items, clocks, |clocks|, k);
    }
    forall k | |items| <= k < |r|
      ensures k < |clocks| && clocks[k].Some? && r[k] == DurationOnly(clocks[k].value)
    {
      MergedTail(items, clocks, |clocks|, k);
    }
    MergedStops(items, clocks, |clocks|);
    if |clocks| <= |items| && |r| > |items| {
      MergedTail(items, clocks, |clocks|, |items|);
    }
  }

  /** searchVideosDurationFinished's loop over the reply's conversions: the i-th
      conversion, when there is one, goes into the i-th item; removing the item and
      inserting the changed one at the same index replaces it in place, and at the count
      appends it. */
  method MergeDurations(items: seq<SearchItem>, clocks: seq<Option<string>>) returns (r: seq<SearchItem>)
    ensures r == MergedPrefix(items, clocks, |clocks|)
    ensures |items| <= |r| <= |items| + |clocks|
    ensures forall k :: 0 <= k < |items| ==>
      r[k] == if k < |clocks| then WithDuration(items[k], clocks[k]) else items[k]
    ensures |r| > |items| ==> |r| <= |clocks|
    ensures forall k :: |items| <= k < |r| ==> clocks[k].Some? && r[k] == DurationOnly(clocks[k].value)
    ensures |r| < |clocks| ==> clocks[|r|].None?
    ensures |clocks| <= |items| ==> |r| == |items|
  {
    r := items;
    var i := 0;
    while i < |clocks|
      invariant 0 <= i <= |clocks|
      invariant r == MergedPrefix(items, clocks, i)
    {
      r := MergeAt(items, clocks, i, r, clocks[i]);
      i := i + 1;
    }
    MergedReply(items, clocks);
    if |r| > |items| {
      MergedTail(items, clocks, |clocks|, |r| - 1);
    }
  }

  // ---------------------------------------------------------------------------
  // Suggestions

  /** The candidate can be offered: its id is not one of the excluded ones. */
  predicate Acceptable(c: SearchResult, exclude: seq<string>)
  {
    c.videoId !in exclude
  }

  /** suggestionFinished's loop as written: random candidates are taken out until one
      is not excluded or none is left, and the pick fails when its id is empty or when
      no candidate is left, even if the last one taken was acceptable. */
  method PickSuggestion(candidates: seq<SearchResult>, exclude: seq<string>) returns (r: Option<SearchResult>)
    ensures r.Some? ==> r.value in candidates && Acceptable(r.value, exclude) && r.value.videoId != ""
    ensures |candidates| <= 1 ==> r.None?
  {
    var alreadySuggested := true;
    var selected := SearchResult("", "", "");
    var remaining := candidates;
    ghost var taken := 0;
    while alreadySuggested && |remaining| > 0
      invariant forall c :: c in remaining ==> c in candidates
      invariant |remaining| + taken == |candidates|
      invariant !alreadySuggested ==> selected in candidates && Acceptable(selected, exclude) && taken >= 1
      decreases |remaining|
    {
      // rand() % count
      var k :| 0 <= k < |remaining|;
      selected := remaining[k];
      assert forall c :: c in remaining[..k] + remaining[k + 1..] ==> c in remaining;
      remaining := remaining[..k] + remaining[k + 1..];
      taken := taken + 1;
      if Acceptable(selected, exclude) {
        alreadySuggested := false;
      }
    }
    if selected.videoId == "" || |remaining| == 0 {
      return None;
    }
    return Some(selected);
  }

  /** The pick that reports failure only when no acceptable candidate was found or the
      one found has an empty id. */
  method PickSuggestionCorrected(candidates: seq<SearchResult>, exclude: seq<string>) returns (r: Option<SearchResult>)
    ensures r.Some? ==> r.value in candidates && Acceptable(r.value, exclude) && r.value.videoId != ""
    ensures ((exists c :: c in candidates && Acceptable(c, exclude)) &&
             (forall c :: c in candidates && Acceptable(c, exclude) ==> c.videoId != "")) ==> r.Some?
  {
    var alreadySuggested := true;
    var selected := SearchResult("", "", "");
    var remaining := candidates;
    while alreadySuggested && |remaining| > 0
      invariant forall c :: c in remaining ==> c in candidates
      invariant alreadySuggested ==> forall c :: c in candidates && Acceptable(c, exclude) ==> c in remaining
      invariant !alreadySuggested ==> selected in candidates && Acceptable(selected, exclude)
      decreases |remaining|
    {
      var k :| 0 <= k < |remaining|;
      selected := remaining[k];
      var rest := remaining[..k] + remaining[k + 1..];
      assert remaining == remaining[..k] + [selected] + remaining[k + 1..];
      assert forall c :: c in rest ==> c in remaining;
      assert forall c :: c in remaining && c != selected ==> c in rest;
      remaining := rest;
      if Acceptable(selected, exclude) {
        alreadySuggested := false;
      }
    }
    if alreadySuggested || selected.videoId == "" {
      return None;
    }
    return Some(selected);
  }

  /** One acceptable related video, and the as-written pick still fails. */
  method SingleCandidateFails() returns (failed: bool)
    ensures failed
  {
    var only := SearchResult("abc", "A title", "");
    var r := PickSuggestion([only], []);
    var c := PickSuggestionCorrected([only], []);
    assert c.Some?;
    return r.None?;
  }

  // ---------------------------------------------------------------------------
  // The manager's state

  /** A QTimer or a QNetworkReply, by identity. */
  type Handle = nat

  /** Which reply a failure belongs to: the searches or the suggestions. */
  datatype Channel = SearchChannel | SuggestionChannel

  /** Requests the manager issues: the four API calls and the youtube-dl runs. */
  datatype ApiRequest =
    | SearchQuery(query: string, order: string, videoDuration: string, onlyMusic: bool, pageToken: string)
    | DurationsQuery(ids: string)
    | RelatedQuery(id: string, videoDuration: string, onlyMusic: bool)
    | SuggestionDurationQuery(id: string, title: string, thumbnail: string)
    | DurationRun(videoId: string)
    | UpdateRun

  /** The signals the manager emits. */
  datatype ApiSignal =
    | SearchSuccess(items: seq<SearchItem>, nextPageToken: Option<string>)
    | SearchFailed
    | SuggestionSuccess(id: string, title: string, thumbnail: string, duration: string)
    | SuggestionFailed
    | VideoDurationSuccess(id: string, duration: string)
    | UpdateSuccess
    | UpdateFailed

  function FailureOf(channel: Channel): ApiSignal
  {
    if channel == SearchChannel then SearchFailed else SuggestionFailed
  }

  /** A youtube-dl output with its line breaks removed: an output without any is kept
      as it is, every other character keeps its count, and by CleanedAppend its
      order. */
  function Cleaned(output: string): (r: string)
    ensures '\n' !in r && '\r' !in r
    ensures '\n' !in output && '\r' !in output ==> r == output
    ensures |r| == |output| - Count(output, '\n') - Count(output, '\r')
    ensures forall x :: x != '\n' && x != '\r' ==> Count(r, x) == Count(output, x)
  {
    var once := RemoveAll(output, '\n');
    RemoveAllCount(output, '\n', '\r');
    forall x | x != '\n' && x != '\r'
      ensures Count(RemoveAll(once, '\r'), x) == Count(output, x)
    {
      RemoveAllCount(output, '\n', x);
      RemoveAllCount(once, '\r', x);
    }
    RemoveAll(once, '\r')
  }

  /** Cleaning works piecewise, so the kept characters stay in their order. */
  lemma CleanedAppend(a: string, b: string)
    ensures Cleaned(a + b) == Cleaned(a) + Cleaned(b)
  {
    RemoveAllAppend(a, b, '\n');
    RemoveAllAppend(RemoveAll(a, '\n'), RemoveAll(b, '\n'), '\r');
  }

  /** The entries left once every timer mapped to `reply` is gone. */
  function WithoutReply(timers: map<Handle, Handle>, reply: Handle): (r: map<Handle, Handle>)
    ensures reply !in r.Values
    ensures forall t :: t in r <==> t in timers && timers[t] != reply
    ensures forall t :: t in r ==> r[t] == timers[t]
  {
    map t | t in timers && timers[t] != reply :: timers[t]
  }

  class YoutubeApiManager {
    var orderFilter: int
    var durationFilter: int
    var onlyMusic: bool
    /** The search document: its items and its page token. */
    var searchItems: seq<SearchItem>
    var nextPageToken: Option<string>
    var excludeSuggestionIds: seq<string>
    /** Whether the duration and update processes are open. */
    var durationBusy: bool
    var updateBusy: bool
    /** The video the open duration run is for. */
    var durationVideoId: string
    /** The ids waiting for a duration run, oldest first. */
    var durationRequests: seq<string>
    /** The reply each pending timer guards. */
    var repliesTimeout: map<Handle, Handle>
    /** Handles below this one have been handed out. */
    var nextHandle: Handle
    var requests: seq<ApiRequest>
    var emitted: seq<ApiSignal>

    /** Every pending timer and reply is a handle already handed out, and no two timers
        guard the same reply. */
    predicate Valid()
      reads this
    {
      (forall t :: t in repliesTimeout ==> t < nextHandle && repliesTimeout[t] < nextHandle) &&
      (forall t1, t2 :: t1 in repliesTimeout && t2 in repliesTimeout && t1 != t2 ==>
        repliesTimeout[t1] != repliesTimeout[t2])
    }

    constructor ()
      ensures Valid()
      ensures orderFilter == OrderViewCount && durationFilter == DurationAny && !onlyMusic
      ensures searchItems == [] && nextPageToken == None && excludeSuggestionIds == []
      ensures !durationBusy && !updateBusy && durationVideoId == "" && durationRequests == []
      ensures repliesTimeout == map[] && requests == [] && emitted == []
    {
      orderFilter, durationFilter, onlyMusic := OrderViewCount, DurationAny, false;
      searchItems, nextPageToken, excludeSuggestionIds := [], None, [];
      durationBusy, updateBusy, durationVideoId, durationRequests := false, false, "", [];
      repliesTimeout, nextHandle := map[], 0;
      requests, emitted := [], [];
    }

    method SetMusicOnlyFilter(value: bool)
      modifies this`onlyMusic
      ensures onlyMusic == value
    {
      onlyMusic := value;
    }

    method SetOrderFilter(value: int)
      modifies this`orderFilter
      ensures orderFilter == value
    {
      orderFilter := value;
    }

    method SetDurationFilter(value: int)
      modifies this`durationFilter
      ensures durationFilter == value
    {
      durationFilter := value;
    }

    /** A new reply and its 20-second timer, recorded together. */
    method Track() returns (reply: Handle)
      requires Valid()
      modifies this`repliesTimeout, this`nextHandle
      ensures Valid() && nextHandle == old(nextHandle) + 2
      ensures old(nextHandle) !in old(repliesTimeout) && reply !in old(repliesTimeout).Values
      ensures reply == old(nextHandle) + 1 && repliesTimeout == old(repliesTimeout)[old(nextHandle) := reply]
    {
      var timer := nextHandle;
      reply := nextHandle + 1;
      repliesTimeout := repliesTimeout[timer := reply];
      nextHandle := nextHandle + 2;
    }

    /** removeTimer: drops the timer guarding `reply`, if any, and nothing else. */
    method RemoveTimer(reply: Handle)
      requires Valid()
      modifies this`repliesTimeout
      ensures Valid()
      ensures repliesTimeout == WithoutReply(old(repliesTimeout), reply)
      ensures reply !in old(repliesTimeout).Values ==> repliesTimeout == old(repliesTimeout)
      ensures forall t :: t in old(repliesTimeout) && old(repliesTimeout)[t] == reply ==>
        repliesTimeout == old(repliesTimeout) - {t}
    {
      if t :| t in repliesTimeout && repliesTimeout[t] == reply {
        assert WithoutReply(repliesTimeout, reply) == repliesTimeout - {t};
        repliesTimeout := repliesTimeout - {t};
      } else {
        assert WithoutReply(repliesTimeout, reply) == repliesTimeout;
      }
    }

    /** search(): clears the search document and asks for 50 results with the current
        filters. */
    method Search(query: string, pageToken: string) returns (reply: Handle)
      requires Valid()
      modifies this`searchItems, this`nextPageToken, this`requests, this`repliesTimeout, this`nextHandle
      ensures Valid() && searchItems == [] && nextPageToken == None
      ensures requests == old(requests) +
        [SearchQuery(query, OrderParameter(orderFilter), DurationParameter(durationFilter), onlyMusic, pageToken)]
      ensures reply !in old(repliesTimeout).Values
      ensures repliesTimeout == old(repliesTimeout)[old(nextHandle) := reply]
    {
      searchItems, nextPageToken := [], None;
      requests := requests + [SearchQuery(query, OrderParameter(orderFilter), DurationParameter(durationFilter), onlyMusic, pageToken)];
      reply := Track();
    }

    /** searchFinished: the items go into the search document; with at least one
        result their durations are asked for, otherwise the document is announced. */
    method SearchFinished(reply: Handle, results: seq<SearchResult>, pageToken: Option<string>)
      requires Valid()
      modifies this`searchItems, this`nextPageToken, this`requests, this`repliesTimeout, this`nextHandle, this`emitted
      ensures Valid()
      ensures |searchItems| == |results| && forall i :: 0 <= i < |results| ==> searchItems[i] == ItemFor(results[i])
      ensures nextPageToken == if pageToken.Some? then pageToken else old(nextPageToken)
      ensures |results| > 0 ==>
        requests == old(requests) + [DurationsQuery(Join(IdsOf(results), ','))] && emitted == old(emitted) &&
        repliesTimeout == WithoutReply(old(repliesTimeout), reply)[old(nextHandle) := old(nextHandle) + 1]
      ensures |results| == 0 ==>
        requests == old(requests) && emitted == old(emitted) + [SearchSuccess(searchItems, nextPageToken)] &&
        repliesTimeout == WithoutReply(old(repliesTimeout), reply)
    {
      RemoveTimer(reply);
      var items, ids := CollectResults(results);
      searchItems := items;
      if pageToken.Some? {
        nextPageToken := pageToken;
      }
      if |results| > 0 {
        requests := requests + [DurationsQuery(ids)];
        var durationsReply := Track();
      } else {
        emitted := emitted + [SearchSuccess(searchItems, nextPageToken)];
      }
    }

    /** searchVideosDurationFinished: the reply's converted durations are merged into
        the items (a conversion at the item count is appended as an item of its own)
        and the document is announced. */
    method SearchVideosDurationFinished(reply: Handle, durations: seq<string>)
      requires Valid()
      modifies this`searchItems, this`repliesTimeout, this`emitted
      ensures Valid() && repliesTimeout == WithoutReply(old(repliesTimeout), reply)
      ensures searchItems == MergedPrefix(old(searchItems), Conversions(durations), |durations|)
      ensures |old(searchItems)| <= |searchItems| <= |old(searchItems)| + |durations|
      ensures forall i :: 0 <= i < |old(searchItems)| ==>
        searchItems[i] == if i < |durations| then WithDuration(old(searchItems)[i], Conversions(durations)[i]) else old(searchItems)[i]
      ensures emitted == old(emitted) + [SearchSuccess(searchItems, nextPageToken)]
    {
      RemoveTimer(reply);
      searchItems := MergeDurations(searchItems, Conversions(durations));
      emitted := emitted + [SearchSuccess(searchItems, nextPageToken)];
    }

    /** An error or a timeout on a reply of either channel: the failure is
        announced and the reply's timer removed. A timer that no longer guards a reply
        does nothing. */
    method ReplyError(reply: Handle, channel: Channel)
      requires Valid()
      modifies this`repliesTimeout, this`emitted
      ensures Valid() && repliesTimeout == WithoutReply(old(repliesTimeout), reply)
      ensures emitted == old(emitted) + [FailureOf(channel)]
    {
      emitted := emitted + [FailureOf(channel)];
      RemoveTimer(reply);
    }

    method ReplyTimeout(timer: Handle, channel: Channel)
      requires Valid()
      modifies this`repliesTimeout, this`emitted
      ensures Valid()
      ensures timer !in old(repliesTimeout) ==> repliesTimeout == old(repliesTimeout) && emitted == old(emitted)
      ensures timer in old(repliesTimeout) ==>
        repliesTimeout == old(repliesTimeout) - {timer} && emitted == old(emitted) + [FailureOf(channel)]
    {
      if timer !in repliesTimeout {
        return;
      }
      ReplyError(repliesTimeout[timer], channel);
    }

    /** suggestion(): remembers the ids to avoid and asks for 30 related videos. */
    method Suggestion(id: string, exclude: seq<string>) returns (reply: Handle)
      requires Valid()
      modifies this`excludeSuggestionIds, this`requests, this`repliesTimeout, this`nextHandle
      ensures Valid() && excludeSuggestionIds == exclude
      ensures requests == old(requests) + [RelatedQuery(id, DurationParameter(durationFilter), onlyMusic)]
      ensures reply !in old(repliesTimeout).Values
      ensures repliesTimeout == old(repliesTimeout)[old(nextHandle) := reply]
    {
      excludeSuggestionIds := exclude;
      requests := requests + [RelatedQuery(id, DurationParameter(durationFilter), onlyMusic)];
      reply := Track();
    }

    /** suggestionFinished as written: a picked candidate has its duration asked for;
        no pick is a failure, and with one related video or none there is no pick. */
    method SuggestionFinished(reply: Handle, candidates: seq<SearchResult>)
      requires Valid()
      modifies this`requests, this`repliesTimeout, this`nextHandle, this`emitted
      ensures Valid()
      ensures (emitted == old(emitted) + [SuggestionFailed] && requests == old(requests) &&
               repliesTimeout == WithoutReply(old(repliesTimeout), reply)) ||
              (exists c :: c in candidates && Acceptable(c, excludeSuggestionIds) && c.videoId != "" &&
                 emitted == old(emitted) &&
                 requests == old(requests) + [SuggestionDurationQuery(c.videoId, c.title, c.thumbnail)] &&
                 repliesTimeout == WithoutReply(old(repliesTimeout), reply)[old(nextHandle) := old(nextHandle) + 1])
      ensures |candidates| <= 1 ==>
        emitted == old(emitted) + [SuggestionFailed] && requests == old(requests) &&
        repliesTimeout == WithoutReply(old(repliesTimeout), reply)
    {
      RemoveTimer(reply);
      var picked := PickSuggestion(candidates, excludeSuggestionIds);
      if picked.None? {
        emitted := emitted + [SuggestionFailed];
        return;
      }
      var c := picked.value;
      requests := requests + [SuggestionDurationQuery(c.videoId, c.title, c.thumbnail)];
      var durationReply := Track();
    }

    /** suggestionFinished with the corrected pick: it fails only when no acceptable
        candidate exists or one without an id is taken. */
    method SuggestionFinishedCorrected(reply: Handle, candidates: seq<SearchResult>)
      requires Valid()
      modifies this`requests, this`repliesTimeout, this`nextHandle, this`emitted
      ensures Valid()
      ensures (emitted == old(emitted) + [SuggestionFailed] && requests == old(requests) &&
               repliesTimeout == WithoutReply(old(repliesTimeout), reply)) ||
              (exists c :: c in candidates && Acceptable(c, excludeSuggestionIds) && c.videoId != "" &&
                 emitted == old(emitted) &&
                 requests == old(requests) + [SuggestionDurationQuery(c.videoId, c.title, c.thumbnail)] &&
                 repliesTimeout == WithoutReply(old(repliesTimeout), reply)[old(nextHandle) := old(nextHandle) + 1])
      ensures (exists c :: c in candidates && Acceptable(c, excludeSuggestionIds)) &&
              (forall c :: c in candidates && Acceptable(c, excludeSuggestionIds) ==> c.videoId != "") ==>
        emitted == old(emitted)
    {
      RemoveTimer(reply);
      var picked := PickSuggestionCorrected(candidates, excludeSuggestionIds);
      if picked.None? {
        emitted := emitted + [SuggestionFailed];
        return;
      }
      var c := picked.value;
      requests := requests + [SuggestionDurationQuery(c.videoId, c.title, c.thumbnail)];
      var durationReply := Track();
    }

    /** suggestionVideoDurationFinished: the first item's duration, converted, makes
        the suggestion; a reply without items or without a "PT" duration fails.
        The id, title and thumbnail are the ones recorded on the reply. */
    method SuggestionVideoDurationFinished(reply: Handle, id: string, title: string, thumbnail: string,
                                           durations: seq<string>)
      requires Valid()
      modifies this`repliesTimeout, this`emitted
      ensures Valid() && repliesTimeout == WithoutReply(old(repliesTimeout), reply)
      ensures var clock := Clock(if |durations| > 0 then durations[0] else "");
        emitted == old(emitted) +
          [if clock.Some? then SuggestionSuccess(id, title, thumbnail, clock.value) else SuggestionFailed]
    {
      RemoveTimer(reply);
      var clock := ConvertDuration(if |durations| > 0 then durations[0] else "");
      if clock.None? {
        emitted := emitted + [SuggestionFailed];
        return;
      }
      emitted := emitted + [SuggestionSuccess(id, title, thumbnail, clock.value)];
    }

    /** videoDuration(): queued while a duration or update run is open, started
        otherwise. */
    method VideoDuration(videoId: string)
      modifies this`durationRequests, this`durationBusy, this`durationVideoId, this`requests
      ensures durationBusy == (old(durationBusy) || !updateBusy)
      ensures old(durationBusy) || updateBusy ==>
        durationRequests == old(durationRequests) + [videoId] &&
        durationVideoId == old(durationVideoId) && requests == old(requests)
      ensures !old(durationBusy) && !updateBusy ==>
        durationRequests == old(durationRequests) && durationVideoId == videoId &&
        requests == old(requests) + [DurationRun(videoId)]
    {
      if durationBusy || updateBusy {
        durationRequests := durationRequests + [videoId];
        return;
      }
      durationVideoId := videoId;
      durationBusy := true;
      requests := requests + [DurationRun(videoId)];
    }

    /** videoDurationFinished: a non-empty output, without its line breaks, is the
        duration of the run's video; then the oldest queued id is handed to
        videoDuration(), which queues it again, last, while an update run is open. */
    method VideoDurationFinished(output: string)
      modifies this`durationBusy, this`durationRequests, this`durationVideoId, this`requests, this`emitted
      ensures emitted == old(emitted) +
        (if output != "" then [VideoDurationSuccess(old(durationVideoId), Cleaned(output))] else [])
      ensures old(durationRequests) == [] ==>
        !durationBusy && durationRequests == [] && durationVideoId == old(durationVideoId) &&
        requests == old(requests)
      ensures old(durationRequests) != [] && !updateBusy ==>
        durationBusy && durationVideoId == old(durationRequests)[0] &&
        durationRequests == old(durationRequests)[1..] &&
        requests == old(requests) + [DurationRun(old(durationRequests)[0])]
      ensures old(durationRequests) != [] && updateBusy ==>
        !durationBusy && durationVideoId == old(durationVideoId) &&
        durationRequests == old(durationRequests)[1..] + [old(durationRequests)[0]] &&
        requests == old(requests)
    {
      var videoId := durationVideoId;
      durationBusy := false;
      if output != "" {
        emitted := emitted + [VideoDurationSuccess(videoId, Cleaned(output))];
      }
      if |durationRequests| > 0 {
        var next := durationRequests[0];
        durationRequests := durationRequests[1..];
        VideoDuration(next);
      }
    }

    /** updateYoutubeDL(): starts the update run unless one is already open; opening a
        process that is running starts nothing. */
    method UpdateYoutubeDL()
      modifies this`updateBusy, this`requests
      ensures updateBusy
      ensures requests == old(requests) + (if old(updateBusy) then [] else [UpdateRun])
    {
      if !updateBusy {
        requests := requests + [UpdateRun];
      }
      updateBusy := true;
    }

    /** The update run ended; ids queued meanwhile stay queued until a duration run
        ends. */
    method YoutubeDLUpdateFinished()
      modifies this`updateBusy, this`emitted
      ensures !updateBusy && emitted == old(emitted) + [UpdateSuccess]
    {
      updateBusy := false;
      emitted := emitted + [UpdateSuccess];
    }

    method YoutubeDLUpdateError()
      modifies this`updateBusy, this`emitted
      ensures !updateBusy && emitted == old(emitted) + [UpdateFailed]
    {
      updateBusy := false;
      emitted := emitted + [UpdateFailed];
    }
  }
}
