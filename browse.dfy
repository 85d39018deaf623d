/** The sidebar statistics and the "Browse Entries" view of jbud.py's
    `main`: the mood, tag and date filters, the cap on shown entries, the
    filter options, the per-entry heading and word count, and the
    "Recent Moods" list. Widgets and rendering are not modelled; the
    selections are inputs. */
module Browse {
  import opened Wrappers
  import opened Text
  import opened Lex
  import opened Sequences
  import opened Clock
  import opened Journal

  /** The first option of the mood and tag select boxes: no filtering. */
  const AllOption: string := "All"

  /** How many filtered entries the view lists. */
  const ShownLimit: nat := 20

  /** How many moods the sidebar lists. */
  const TopMoodCount: nat := 3

  /** The heading's stand-in when a record has no `mood` key. */
  const NoMoodLabel: string := "\U{1F610} No mood"

  // ---------------------------------------------------------------------
  // Filters

  /** `[e for e in entries if e.get('mood') == selected_mood]`, unless "All". */
  function FilterByMood(es: seq<Entry>, selected: string): (r: seq<Entry>)
    ensures selected == AllOption ==> r == es
    ensures IsSubsequence(r, es)
    ensures selected != AllOption ==>
      forall e :: multiset(r)[e] == if e.mood == Label(selected) then multiset(es)[e] else 0
  {
    if selected == AllOption then
      assert IsSubsequence(es, es) by { SubsequenceOfSelf(es); }
      es
    else Filter(es, (e: Entry) => e.mood == Label(selected))
  }

  /** `[e for e in entries if selected_tag in e.get('tags', [])]`, unless "All". */
  function FilterByTag(es: seq<Entry>, selected: string): (r: seq<Entry>)
    ensures selected == AllOption ==> r == es
    ensures IsSubsequence(r, es)
    ensures selected != AllOption ==>
      forall e :: multiset(r)[e] == if selected in TagsOf(e) then multiset(es)[e] else 0
  {
    if selected == AllOption then
      assert IsSubsequence(es, es) by { SubsequenceOfSelf(es); }
      es
    else Filter(es, (e: Entry) => selected in TagsOf(e))
  }

  /** `[e for e in entries if e['date'] >= str(selected_date)]` when a date
      is picked; the date input gives `None` until one is. */
  function FilterByDate(es: seq<Entry>, selected: Option<Date>): (r: seq<Entry>)
    requires selected.Some? ==> ValidDate(selected.value)
    ensures selected.None? ==> r == es
    ensures IsSubsequence(r, es)
    ensures selected.Some? ==>
      forall e :: multiset(r)[e] == if LexLe(DateString(selected.value), e.date) then multiset(es)[e] else 0
  {
    if selected.None? then
      assert IsSubsequence(es, es) by { SubsequenceOfSelf(es); }
      es
    else
      var from := DateString(selected.value);
      Filter(es, (e: Entry) => LexLe(from, e.date))
  }

  /** The three filters, applied in the view's order: every entry that
      passes all three, as often as it occurs, and nothing else, in the
      order of the input. */
  function ApplyFilters(es: seq<Entry>, mood: string, tag: string, from: Option<Date>): (r: seq<Entry>)
    requires from.Some? ==> ValidDate(from.value)
    ensures IsSubsequence(r, es)
    ensures forall e :: multiset(r)[e] == (
              if (mood == AllOption || e.mood == Label(mood))
                 && (tag == AllOption || tag in TagsOf(e))
                 && (from.None? || LexLe(DateString(from.value), e.date))
              then multiset(es)[e] else 0)
  {
    var m := FilterByMood(es, mood);
    var t := FilterByTag(m, tag);
    SubsequenceTransitive(t, m, es);
    SubsequenceTransitive(FilterByDate(t, from), t, es);
    FilterByDate(t, from)
  }

  /** An entry passes all three filters exactly when it passes each. */
  lemma ApplyFiltersMembers(es: seq<Entry>, mood: string, tag: string, from: Option<Date>, e: Entry)
    requires from.Some? ==> ValidDate(from.value)
    ensures e in ApplyFilters(es, mood, tag, from) <==>
      e in es
      && (mood == AllOption || e.mood == Label(mood))
      && (tag == AllOption || tag in TagsOf(e))
      && (from.None? || LexLe(DateString(from.value), e.date))
  {
    var m := FilterByMood(es, mood);
    var t := FilterByTag(m, tag);
    var d := FilterByDate(t, from);
    assert e in es <==> multiset(es)[e] > 0;
    assert e in m <==> multiset(m)[e] > 0;
    assert e in t <==> multiset(t)[e] > 0;
    assert e in d <==> multiset(d)[e] > 0;
  }

  /** For dates the app wrote, the string test `date >= str(selected)` keeps
      exactly the entries of the selected day or later. */
  lemma DateFilterIsChronological(e: Entry, day: Date, selected: Date)
    requires ValidDate(day) && ValidDate(selected) && e.date == DateString(day)
    ensures e in FilterByDate([e], Some(selected)) <==> DateLe(selected, day)
  {
    DateStringOrder(selected, day);
    var r := FilterByDate([e], Some(selected));
    assert e in r <==> multiset(r)[e] > 0;
    assert multiset([e])[e] == 1;
  }

  /** `filtered_entries[:20]`: the first twenty, in order. */
  function ShownEntries(filtered: seq<Entry>): (r: seq<Entry>)
    ensures |r| == if |filtered| < ShownLimit then |filtered| else ShownLimit
    ensures forall i :: 0 <= i < |r| ==> r[i] == filtered[i]
  {
    if |filtered| <= ShownLimit then filtered else filtered[..ShownLimit]
  }

  /** Filtering a newest-first list keeps it newest first, so the entries
      the view shows are the newest that match: none left below them is
      newer than any shown. */
  lemma ShownAreNewestMatching(es: seq<Entry>, mood: string, tag: string, from: Option<Date>)
    requires from.Some? ==> ValidDate(from.value)
    requires IsNewestFirst(es)
    ensures IsNewestFirst(ApplyFilters(es, mood, tag, from))
    ensures var r := ApplyFilters(es, mood, tag, from);
      forall i, j :: 0 <= i < |ShownEntries(r)| <= j < |r| ==>
        LexLe(r[j].timestamp, ShownEntries(r)[i].timestamp)
  {
    var r := ApplyFilters(es, mood, tag, from);
    SubsequenceKeepsDescending(r, es, TimestampOf, LexLe);
    forall i, j | 0 <= i < |ShownEntries(r)| <= j < |r|
      ensures LexLe(r[j].timestamp, ShownEntries(r)[i].timestamp)
    {
      assert LexLe(TimestampOf(r[j]), TimestampOf(r[i]));
    }
  }

  // ---------------------------------------------------------------------
  // Filter options

  /** `set(all_moods)`: the non-empty moods of the entries. */
  function MoodOptions(es: seq<Entry>): set<string>
  {
    set e | e in es && HasMood(e) :: e.mood.text
  }

  /** The mood select box offers exactly the non-empty moods that select
      at least one entry. */
  lemma MoodOptionsExact(es: seq<Entry>, m: string)
    requires m != AllOption
    ensures m in MoodOptions(es) <==> m != "" && FilterByMood(es, m) != []
  {
    if m in MoodOptions(es) {
      MoodOptionSelectsEntries(es, m);
    }
    if m != "" && FilterByMood(es, m) != [] {
      var r := FilterByMood(es, m);
      assert multiset(r)[r[0]] > 0;
      assert r[0] in es && HasMood(r[0]) && r[0].mood.text == m;
    }
  }

  /** Every mood the select box offers selects at least one entry. */
  lemma MoodOptionSelectsEntries(es: seq<Entry>, m: string)
    requires m in MoodOptions(es)
    ensures FilterByMood(es, m) != []
  {
    var e :| e in es && HasMood(e) && e.mood.text == m;
    assert multiset(es)[e] > 0;
    if m != AllOption {
      assert multiset(FilterByMood(es, m))[e] > 0;
    }
  }

  /** The tags of all entries, in order: the `all_tags.extend` loop. */
  function AllTags(es: seq<Entry>): (r: seq<string>)
    ensures forall t :: t in r <==> exists i :: 0 <= i < |es| && t in TagsOf(es[i])
  {
    if es == [] then []
    else
      var init := es[..|es| - 1];
      var r := AllTags(init) + TagsOf(es[|es| - 1]);
      assert forall t :: t in r <==> exists i :: 0 <= i < |es| && t in TagsOf(es[i]) by {
        forall t ensures t in r <==> exists i :: 0 <= i < |es| && t in TagsOf(es[i]) {
          if t in AllTags(init) {
            var i :| 0 <= i < |init| && t in TagsOf(init[i]);
            assert es[i] == init[i];
          }
          if exists i :: 0 <= i < |es| && t in TagsOf(es[i]) {
            var i :| 0 <= i < |es| && t in TagsOf(es[i]);
            if i < |es| - 1 { assert init[i] == es[i]; }
          }
        }
      }
      r
  }

  method CollectTags(es: seq<Entry>) returns (all: seq<string>)
    ensures all == AllTags(es)
  {
    all := [];
    var i := 0;
    while i < |es|
      invariant 0 <= i <= |es|
      invariant all == AllTags(es[..i])
    {
      assert es[..i + 1][..i] == es[..i];
      all := all + TagsOf(es[i]);
      i := i + 1;
    }
    assert es[..|es|] == es;
  }

  /** `set(all_tags)`. */
  function TagOptions(es: seq<Entry>): set<string>
  {
    set t | t in AllTags(es)
  }

  /** The tag select box offers exactly the tags that select at least one
      entry. */
  lemma TagOptionsExact(es: seq<Entry>, t: string)
    requires t != AllOption
    ensures t in TagOptions(es) <==> FilterByTag(es, t) != []
  {
    if t in TagOptions(es) {
      TagOptionSelectsEntries(es, t);
    }
    if FilterByTag(es, t) != [] {
      var r := FilterByTag(es, t);
      assert multiset(r)[r[0]] > 0;
      assert r[0] in es;
      var i :| 0 <= i < |es| && es[i] == r[0];
      assert t in AllTags(es);
    }
  }

  /** Every tag the select box offers selects at least one entry. */
  lemma TagOptionSelectsEntries(es: seq<Entry>, t: string)
    requires t in TagOptions(es)
    ensures FilterByTag(es, t) != []
  {
    var i :| 0 <= i < |es| && t in TagsOf(es[i]);
    assert multiset(es)[es[i]] > 0;
    if t != AllOption {
      assert multiset(FilterByTag(es, t))[es[i]] > 0;
    }
  }

  // ---------------------------------------------------------------------
  // Per-entry display

  /** The expander title `f"📅 {date} {time} - {entry.get('mood', '😐 No mood')}"`. */
  function Heading(e: Entry): (r: string)
    ensures |r| >= 2 + |e.date| && r[..2 + |e.date|] == "\U{1F4C5} " + e.date
    ensures var mood := MoodText(e.mood, NoMoodLabel); |r| >= |mood| && r[|r| - |mood|..] == mood
  {
    "\U{1F4C5} " + e.date + " " + e.time + " - " + MoodText(e.mood, NoMoodLabel)
  }

  /** A record the app saved always has a `mood` key, so its heading never
      shows the stand-in: an unchosen mood shows as an empty string. */
  lemma SavedHeadingShowsStoredMood(content: string, mood: Option<string>, tags: Option<seq<string>>, now: Timestamp)
    requires ValidTimestamp(now)
    ensures var e := SaveEntry(content, mood, tags, now).record;
      Heading(e) == "\U{1F4C5} " + e.date + " " + e.time + " - " + (if mood.Some? then mood.value else "None")
  {
  }

  /** `len(entry['content'].split())`: the number of maximal runs of
      non-whitespace, zero exactly for blank content. */
  function WordCount(e: Entry): (n: nat)
    ensures n == RunStarts(e.content)
    ensures n == 0 <==> Strip(e.content) == []
  {
    WordsEmptyIffBlank(e.content);
    WordsCountRuns(e.content);
    |Words(e.content)|
  }

  // ---------------------------------------------------------------------
  // Sidebar

  /** `entries[0]['date']` when there are entries. */
  function LastEntryDate(es: seq<Entry>): (r: Option<string>)
    ensures r.Some? <==> es != []
    ensures r.Some? ==> r.value == es[0].date
  {
    if es == [] then None else Some(es[0].date)
  }

  /** For records the app saved and loaded newest first, "Last Entry" shows
      the day of the latest reading: no entry is from a later day. */
  lemma LastEntryDateIsNewestDay(es: seq<Entry>, times: seq<Timestamp>)
    requires |es| == |times| && es != []
    requires forall i :: 0 <= i < |times| ==> ValidTimestamp(times[i])
    requires forall i :: 0 <= i < |es| ==>
      es[i].timestamp == IsoFormat(times[i]) && es[i].date == DateString(DateOf(times[i]))
    requires IsNewestFirst(es)
    ensures ValidTimestamp(times[0]) && LastEntryDate(es) == Some(DateString(DateOf(times[0])))
    ensures forall i :: 0 <= i < |es| ==> DateLe(DateOf(times[i]), DateOf(times[0]))
  {
    SavedNewestFirstIsChronological(es, times);
    forall i | 0 <= i < |es| ensures DateLe(DateOf(times[i]), DateOf(times[0])) {
      if i > 0 {
        assert ChronoLe(times[i], times[0]);
      }
    }
  }

  /** In the loaded list the first entry has the greatest timestamp string. */
  lemma FirstLoadedIsNewest(es: seq<Entry>)
    requires IsNewestFirst(es) && es != []
    ensures forall i :: 0 <= i < |es| ==> LexLe(es[i].timestamp, es[0].timestamp)
  {
    forall i | 0 <= i < |es| ensures LexLe(es[i].timestamp, es[0].timestamp) {
      if i == 0 {
        LexLeTotal(es[0].timestamp, es[0].timestamp);
      } else {
        assert LexLe(TimestampOf(es[i]), TimestampOf(es[0]));
      }
    }
  }

  /** `[e.get('mood') for e in entries if e.get('mood')]`. */
  function TruthyMoods(es: seq<Entry>): (r: seq<string>)
    ensures forall i :: 0 <= i < |r| ==> r[i] != ""
    ensures forall m :: m in r <==> m in MoodOptions(es)
  {
    if es == [] then []
    else
      var rest := TruthyMoods(es[1..]);
      var r := (if HasMood(es[0]) then [es[0].mood.text] else []) + rest;
      assert forall m :: m in r <==> m in MoodOptions(es) by {
        forall m ensures m in r <==> m in MoodOptions(es) {
          if m in MoodOptions(es[1..]) {
            var e :| e in es[1..] && HasMood(e) && e.mood.text == m;
            assert e in es;
          }
          if m in MoodOptions(es) {
            var e :| e in es && HasMood(e) && e.mood.text == m;
            if e != es[0] {
              var k :| 0 <= k < |es| && es[k] == e;
              assert es[1..][k - 1] == e;
            }
          }
        }
      }
      r
  }

  /** The distinct values of `s` in order of first occurrence: the key
      order of `Counter(s)`. */
  function Distinct(s: seq<string>): (r: seq<string>)
    ensures forall x :: x in r <==> x in s
    ensures forall x :: multiset(r)[x] <= 1
  {
    if s == [] then []
    else
      var d := Distinct(s[..|s| - 1]);
      var x := s[|s| - 1];
      assert s == s[..|s| - 1] + [x];
      if x in d then d else d + [x]
  }

  /** Each distinct value with its number of occurrences in `moods`. */
  function Tally(ds: seq<string>, moods: seq<string>): (r: seq<(string, nat)>)
    ensures |r| == |ds|
    ensures forall i :: 0 <= i < |r| ==> r[i] == (ds[i], multiset(moods)[ds[i]])
  {
    if ds == [] then [] else [(ds[0], multiset(moods)[ds[0]])] + Tally(ds[1..], moods)
  }

  /** `Counter(moods).items()`, in insertion order. */
  function MoodCounts(moods: seq<string>): seq<(string, nat)>
  {
    Tally(Distinct(moods), moods)
  }

  function CountOf(p: (string, nat)): nat
  {
    p.1
  }

  predicate CountLe(a: nat, b: nat)
  {
    a <= b
  }

  lemma CountLeIsTotalPreorder()
    ensures IsTotalPreorder(CountLe)
  {
  }

  /** `Counter(moods).items()` sorted by count, largest first, ties in
      insertion order. */
  function SortedMoodCounts(moods: seq<string>): seq<(string, nat)>
  {
    CountLeIsTotalPreorder();
    SortDesc(MoodCounts(moods), CountOf, CountLe)
  }

  /** `Counter(moods).most_common(3)`: `heapq.nlargest(3, items, key=count)`,
      which is the first three of the stable descending sort by count. */
  function MostCommon(moods: seq<string>): seq<(string, nat)>
  {
    var sorted := SortedMoodCounts(moods);
    if |sorted| <= TopMoodCount then sorted else sorted[..TopMoodCount]
  }

  /** The "Recent Moods" list of the sidebar: at most three moods, each one
      the mood filter offers, with a positive count. */
  function RecentMoods(es: seq<Entry>): (r: seq<(string, nat)>)
    ensures |r| <= TopMoodCount
    ensures forall i :: 0 <= i < |r| ==> r[i].0 in MoodOptions(es) && r[i].1 >= 1
  {
    MostCommonIsTop(TruthyMoods(es));
    MostCommon(TruthyMoods(es))
  }

  lemma MoodCountsFacts(moods: seq<string>, p: (string, nat))
    ensures multiset(MoodCounts(moods))[p] > 0 <==> p.0 in moods && p.1 == multiset(moods)[p.0]
    ensures multiset(MoodCounts(moods))[p] <= 1
  {
    var ds := Distinct(moods);
    var t := MoodCounts(moods);
    if multiset(t)[p] > 0 {
      assert p in t;
      var i :| 0 <= i < |t| && t[i] == p;
      assert ds[i] in ds;
    }
    if p.0 in moods && p.1 == multiset(moods)[p.0] {
      assert p.0 in ds;
      var i :| 0 <= i < |ds| && ds[i] == p.0;
      assert t[i] == p;
      assert p in t;
    }
    TallyAtMostOnce(ds, moods, p);
  }

  lemma {:induction false} TallyAtMostOnce(ds: seq<string>, moods: seq<string>, p: (string, nat))
    requires forall x :: multiset(ds)[x] <= 1
    ensures multiset(Tally(ds, moods))[p] <= 1
  {
    if ds != [] {
      assert ds == [ds[0]] + ds[1..];
      assert multiset(ds)[ds[0]] == 1 + multiset(ds[1..])[ds[0]];
      forall x ensures multiset(ds[1..])[x] <= 1 {
        assert multiset(ds)[x] == multiset([ds[0]])[x] + multiset(ds[1..])[x];
      }
      TallyAtMostOnce(ds[1..], moods, p);
      var t := Tally(ds[1..], moods);
      assert Tally(ds, moods) == [(ds[0], multiset(moods)[ds[0]])] + t;
      if p == (ds[0], multiset(moods)[ds[0]]) {
        assert ds[0] !in ds[1..];
        assert p !in t;
      }
    }
  }

  /** Every (mood, count) pair of the sorted tally is a mood that occurs,
      with its exact count, and no mood appears twice. */
  lemma SortedMoodCountsFacts(moods: seq<string>)
    ensures var sorted := SortedMoodCounts(moods);
      |sorted| == |Distinct(moods)|
      && (forall i :: 0 <= i < |sorted| ==> sorted[i].0 in moods && sorted[i].1 == multiset(moods)[sorted[i].0])
      && (forall i, j :: 0 <= i < j < |sorted| ==> sorted[i].0 != sorted[j].0)
      && (forall i, j :: 0 <= i < j < |sorted| ==> sorted[j].1 <= sorted[i].1)
  {
    CountLeIsTotalPreorder();
    var sorted := SortedMoodCounts(moods);
    assert |sorted| == |MoodCounts(moods)| by {
      assert |multiset(sorted)| == |multiset(MoodCounts(moods))|;
    }
    SortedMoodCountsExact(moods);
    SortedMoodCountsDistinct(moods);
    forall i, j | 0 <= i < j < |sorted| ensures sorted[j].1 <= sorted[i].1 {
      assert CountLe(CountOf(sorted[j]), CountOf(sorted[i]));
    }
  }

  lemma SortedMoodCountsExact(moods: seq<string>)
    ensures var sorted := SortedMoodCounts(moods);
      forall i :: 0 <= i < |sorted| ==> sorted[i].0 in moods && sorted[i].1 == multiset(moods)[sorted[i].0]
  {
    var sorted := SortedMoodCounts(moods);
    forall i | 0 <= i < |sorted|
      ensures sorted[i].0 in moods && sorted[i].1 == multiset(moods)[sorted[i].0]
    {
      assert multiset(MoodCounts(moods))[sorted[i]] > 0 by {
        assert sorted[i] in multiset(sorted);
      }
      MoodCountsFacts(moods, sorted[i]);
    }
  }

  lemma SortedMoodCountsDistinct(moods: seq<string>)
    ensures var sorted := SortedMoodCounts(moods);
      forall i, j :: 0 <= i < j < |sorted| ==> sorted[i].0 != sorted[j].0
  {
    var sorted := SortedMoodCounts(moods);
    SortedMoodCountsExact(moods);
    forall i, j | 0 <= i < j < |sorted| ensures sorted[i].0 != sorted[j].0 {
      if sorted[i].0 == sorted[j].0 {
        TwiceInSeq(sorted, i, j);
        MoodCountsFacts(moods, sorted[i]);
      }
    }
  }

  /** An element found at two positions occurs at least twice. */
  lemma TwiceInSeq<T>(s: seq<T>, i: nat, j: nat)
    requires i < j < |s| && s[i] == s[j]
    ensures multiset(s)[s[i]] >= 2
  {
    assert s == s[..j] + s[j..];
    assert s[i] in s[..j];
    assert s[j] in s[j..];
  }

  /** A mood that occurs is somewhere in the sorted tally. */
  lemma SortedMoodCountsComplete(moods: seq<string>, m: string)
    requires m in moods
    ensures exists j :: 0 <= j < |SortedMoodCounts(moods)| && SortedMoodCounts(moods)[j] == (m, multiset(moods)[m])
  {
    CountLeIsTotalPreorder();
    var p := (m, multiset(moods)[m]);
    MoodCountsFacts(moods, p);
    assert multiset(SortedMoodCounts(moods))[p] > 0;
    assert p in SortedMoodCounts(moods);
  }

  /** The "Recent Moods" list: at most three distinct non-empty moods, each
      with its exact number of occurrences, counts never increasing, and
      no mood left out that occurs more often than the last one listed. */
  lemma MostCommonIsTop(moods: seq<string>)
    ensures |MostCommon(moods)| == if |Distinct(moods)| < TopMoodCount then |Distinct(moods)| else TopMoodCount
    ensures var r := MostCommon(moods);
      forall i :: 0 <= i < |r| ==> r[i].0 in moods && r[i].1 == multiset(moods)[r[i].0]
    ensures var r := MostCommon(moods); forall i, j :: 0 <= i < j < |r| ==> r[j].1 <= r[i].1
    ensures var r := MostCommon(moods); forall i, j :: 0 <= i < j < |r| ==> r[i].0 != r[j].0
    ensures var r := MostCommon(moods);
      forall m :: m in moods && (m, multiset(moods)[m]) !in r ==> r != [] && multiset(moods)[m] <= r[|r| - 1].1
  {
    var sorted := SortedMoodCounts(moods);
    var r := MostCommon(moods);
    SortedMoodCountsFacts(moods);
    MostCommonIsPrefix(moods);
    forall m | m in moods && (m, multiset(moods)[m]) !in r
      ensures r != [] && multiset(moods)[m] <= r[|r| - 1].1
    {
      MostCommonOmitted(moods, m);
    }
  }

  lemma MostCommonIsPrefix(moods: seq<string>)
    ensures var sorted := SortedMoodCounts(moods); var r := MostCommon(moods);
      |r| == (if |sorted| < TopMoodCount then |sorted| else TopMoodCount)
      && forall i :: 0 <= i < |r| ==> r[i] == sorted[i]
  {
  }

  /** A mood left out of the top three occurs no more often than the third. */
  lemma MostCommonOmitted(moods: seq<string>, m: string)
    requires m in moods
    requires (m, multiset(moods)[m]) !in MostCommon(moods)
    ensures var r := MostCommon(moods); r != [] && multiset(moods)[m] <= r[|r| - 1].1
  {
    var sorted := SortedMoodCounts(moods);
    var r := MostCommon(moods);
    SortedMoodCountsComplete(moods, m);
    MostCommonIsPrefix(moods);
    var j :| 0 <= j < |sorted| && sorted[j] == (m, multiset(moods)[m]);
    assert j >= |r| by {
      assert forall i :: 0 <= i < |r| ==> r[i] == sorted[i];
    }
    CountLeIsTotalPreorder();
    assert CountLe(CountOf(sorted[j]), CountOf(sorted[|r| - 1]));
  }

  /** A mood is counted once per entry that has it: the count the sidebar
      shows for a mood is the number of entries the mood filter keeps. */
  lemma {:induction false} TruthyMoodCount(es: seq<Entry>, m: string)
    requires m != "" && m != AllOption
    ensures multiset(TruthyMoods(es))[m] == |FilterByMood(es, m)|
  {
    if es != [] {
      TruthyMoodCount(es[1..], m);
      var keep := (e: Entry) => e.mood == Label(m);
      var mine := if HasMood(es[0]) then [es[0].mood.text] else [];
      assert TruthyMoods(es) == mine + TruthyMoods(es[1..]);
      assert multiset(TruthyMoods(es))[m] == multiset(mine)[m] + multiset(TruthyMoods(es[1..]))[m];
      assert FilterByMood(es, m) == Filter(es, keep);
      assert FilterByMood(es[1..], m) == Filter(es[1..], keep);
      assert Filter(es, keep) == (if keep(es[0]) then [es[0]] else []) + Filter(es[1..], keep);
      assert multiset(mine)[m] == if keep(es[0]) then 1 else 0;
    }
  }

  /** Each "Recent Moods" count is the number of entries with that mood. */
  lemma RecentMoodsCountEntries(es: seq<Entry>)
    ensures var r := RecentMoods(es);
      forall i :: 0 <= i < |r| && r[i].0 != AllOption ==> r[i].1 == |FilterByMood(es, r[i].0)|
  {
    var moods := TruthyMoods(es);
    var r := RecentMoods(es);
    MostCommonIsTop(moods);
    forall i | 0 <= i < |r| && r[i].0 != AllOption ensures r[i].1 == |FilterByMood(es, r[i].0)| {
      TruthyMoodCount(es, r[i].0);
    }
  }
}
