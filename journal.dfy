/** The entry store of jbud.py: what one press of "Save Entry" writes
    (`save_journal_entry` and the form handler that calls it), and what
    `load_journal_entries` returns. The directory is an input list of file
    reads; a write returns the record together with its file name. */
module Journal {
  import opened Wrappers
  import opened Text
  import opened Lex
  import opened Sequences
  import opened Clock

  /** The `mood` key of a record: missing, JSON `null`, or a string. Saved
      records always have the key; only a hand-made file can lack it. */
  datatype Mood = Absent | Null | Label(text: string)

  /** A journal record as a dictionary. `tags` is `None` when the key is
      missing; `filename` is added on load and is not part of the file. */
  datatype Entry = Entry(content: string, timestamp: string, mood: Mood,
                         tags: Option<seq<string>>, date: string, time: string,
                         filename: Option<string>)

  /** `entry.get('mood')` is truthy: a non-empty string. */
  predicate HasMood(e: Entry)
  {
    e.mood.Label? && e.mood.text != ""
  }

  /** `entry.get('tags', [])`. */
  function TagsOf(e: Entry): seq<string>
  {
    if e.tags.Some? then e.tags.value else []
  }

  /** `str(entry.get('mood', default))`: the default replaces a missing key
      only; a `null` mood prints as `None`. */
  function MoodText(m: Mood, default: string): (r: string)
    ensures m.Absent? ==> r == default
    ensures m.Null? ==> r == "None"
    ensures m.Label? ==> r == m.text
  {
    match m
    case Absent => default
    case Null => "None"
    case Label(s) => s
  }

  // ---------------------------------------------------------------------
  // Tag parsing: [tag.strip() for tag in tags_input.split(",") if tag.strip()]

  /** What the tag field can produce: non-empty, stripped, comma-free. */
  predicate IsTag(t: string)
  {
    t != [] && IsStripped(t) && ',' !in t
  }

  function StripPieces(ps: seq<string>): (r: seq<string>)
    ensures forall i :: 0 <= i < |r| ==> r[i] != [] && IsStripped(r[i])
  {
    if ps == [] then []
    else
      var t := Strip(ps[0]);
      (if t == [] then [] else [t]) + StripPieces(ps[1..])
  }

  lemma {:induction false} StripPiecesKeepOut(ps: seq<string>, c: char)
    requires forall j :: 0 <= j < |ps| ==> c !in ps[j]
    ensures forall i :: 0 <= i < |StripPieces(ps)| ==> c !in StripPieces(ps)[i]
  {
    if ps != [] {
      StripKeepsOut(ps[0], c);
      StripPiecesKeepOut(ps[1..], c);
    }
  }

  /** The tags of a submitted entry, from the comma-separated field. */
  function ParseTags(input: string): (tags: seq<string>)
    ensures forall i :: 0 <= i < |tags| ==> IsTag(tags[i])
  {
    StripPiecesKeepOut(SplitOn(input, ','), ',');
    StripPieces(SplitOn(input, ','))
  }

  lemma {:induction false} StripPiecesAppend(a: seq<string>, b: seq<string>)
    ensures StripPieces(a + b) == StripPieces(a) + StripPieces(b)
  {
    if a == [] {
      assert a + b == b;
    } else {
      assert (a + b)[0] == a[0] && (a + b)[1..] == a[1..] + b;
      StripPiecesAppend(a[1..], b);
    }
  }

  /** Tags keep their input order: the tags before a comma come first. */
  lemma ParseTagsAt(a: string, b: string)
    ensures ParseTags(a + "," + b) == ParseTags(a) + ParseTags(b)
  {
    SplitOnAt(a, b, ',');
    StripPiecesAppend(SplitOn(a, ','), SplitOn(b, ','));
  }

  /** Text without a comma gives its stripped self as the one tag, or no
      tag when it is blank. */
  lemma ParseTagsOne(s: string)
    requires ',' !in s
    ensures ParseTags(s) == if Strip(s) == [] then [] else [Strip(s)]
  {
    SplitOnNone(s, ',');
    assert [s][1..] == [];
    assert StripPieces([s]) == (if Strip(s) == [] then [] else [Strip(s)]) + StripPieces([]);
  }

  /** `", ".join(tags)`, as the index metadata and the browse view show them. */
  function JoinTags(tags: seq<string>): string
  {
    Join(tags, ", ")
  }

  lemma PaddedTagHasNoComma(pad: string, t: string)
    requires AllSpace(pad) && IsTag(t)
    ensures ',' !in pad + t
  {
  }

  /** One padded tag, alone or in front of a comma, parses as itself. */
  lemma ParsePaddedTag(pad: string, t: string, more: seq<string>)
    requires AllSpace(pad) && IsTag(t)
    ensures StripPieces([pad + t] + more) == [t] + StripPieces(more)
  {
    StripPadded(pad, t);
    assert ([pad + t] + more)[0] == pad + t && ([pad + t] + more)[1..] == more;
  }

  lemma {:induction false} ParsePadded(pad: string, tags: seq<string>)
    requires AllSpace(pad)
    requires forall i :: 0 <= i < |tags| ==> IsTag(tags[i])
    ensures StripPieces(SplitOn(pad + JoinTags(tags), ',')) == tags
    decreases |tags|
  {
    if tags == [] {
      assert pad + JoinTags(tags) == pad;
      assert ',' !in pad;
      SplitOnNone(pad, ',');
      assert StripPieces([pad]) == [] + StripPieces([]);
    } else if |tags| == 1 {
      var t := tags[0];
      assert pad + JoinTags(tags) == pad + t;
      PaddedTagHasNoComma(pad, t);
      SplitOnNone(pad + t, ',');
      ParsePaddedTag(pad, t, []);
      assert [pad + t] + [] == [pad + t];
    } else {
      ParsePadded(" ", tags[1..]);
      ParsePaddedStep(pad, tags);
    }
  }

  /** The first tag, then a comma and the rest of the tags. */
  lemma ParsePaddedStep(pad: string, tags: seq<string>)
    requires AllSpace(pad) && |tags| >= 2
    requires forall i :: 0 <= i < |tags| ==> IsTag(tags[i])
    requires StripPieces(SplitOn(" " + JoinTags(tags[1..]), ',')) == tags[1..]
    ensures StripPieces(SplitOn(pad + JoinTags(tags), ',')) == tags
  {
    var t := tags[0];
    var more := SplitOn(" " + JoinTags(tags[1..]), ',');
    PaddedJoinAtComma(pad, tags);
    PaddedTagHasNoComma(pad, t);
    SplitOnAt(pad + t, " " + JoinTags(tags[1..]), ',');
    SplitOnNone(pad + t, ',');
    assert SplitOn(pad + JoinTags(tags), ',') == [pad + t] + more;
    ParsePaddedTag(pad, t, more);
    assert tags == [t] + tags[1..];
  }

  /** The padded joined tags are the padded first tag, a comma, and the
      rest of the joined tags behind one space. */
  lemma PaddedJoinAtComma(pad: string, tags: seq<string>)
    requires |tags| >= 2
    ensures pad + JoinTags(tags) == (pad + tags[0]) + [','] + (" " + JoinTags(tags[1..]))
  {
    assert JoinTags(tags) == tags[0] + ", " + JoinTags(tags[1..]);
  }

  /** Joining tags for display and parsing the result as tag input gives
      the same tags back. */
  lemma ParseJoinedTags(tags: seq<string>)
    requires forall i :: 0 <= i < |tags| ==> IsTag(tags[i])
    ensures ParseTags(JoinTags(tags)) == tags
  {
    ParsePadded([], tags);
    assert [] + JoinTags(tags) == JoinTags(tags);
  }

  // ---------------------------------------------------------------------
  // Saving

  /** A written file: its name and the record stored in it. */
  datatype Saved = Saved(name: string, record: Entry)

  /** `save_journal_entry(content, mood, tags)` with `datetime.now()` read
      as `now`. `mood` and `tags` are `None` when the caller leaves them out. */
  function SaveEntry(content: string, mood: Option<string>, tags: Option<seq<string>>, now: Timestamp): (r: Saved)
    requires ValidTimestamp(now)
    ensures r.record.content == content
    ensures r.record.mood == if mood.Some? then Label(mood.value) else Null
    ensures r.record.tags == Some(if tags.Some? then tags.value else [])
    ensures r.name == FileName(now) && r.record.filename == None
    ensures r.record.timestamp == IsoFormat(now)
    ensures r.record.date == r.record.timestamp[..10] && r.record.time == r.record.timestamp[11..16]
  {
    IsoFormatFields(now);
    var entry := Entry(content, IsoFormat(now), if mood.Some? then Label(mood.value) else Null,
                       Some(if tags.Some? && tags.value != [] then tags.value else []),
                       DateString(DateOf(now)), TimeString(now), None);
    Saved(FileName(now), entry)
  }

  /** The form handler: saves only when the form was submitted and
      `entry_content.strip()` is not empty, with the mood from the select
      box and the parsed tags. */
  function Submit(submitted: bool, content: string, mood: string, tagsInput: string, now: Timestamp): (r: Option<Saved>)
    requires ValidTimestamp(now)
    ensures r.Some? <==> submitted && exists i :: 0 <= i < |content| && !IsSpace(content[i])
    ensures r.Some? ==> r.value.record.content == content && r.value.record.mood == Label(mood)
                        && r.value.record.tags == Some(ParseTags(tagsInput))
  {
    if submitted && Strip(content) != [] then Some(SaveEntry(content, Some(mood), Some(ParseTags(tagsInput)), now))
    else None
  }

  /** Every saved entry has at least one word. */
  lemma SubmittedHasWords(submitted: bool, content: string, mood: string, tagsInput: string, now: Timestamp)
    requires ValidTimestamp(now)
    requires Submit(submitted, content, mood, tagsInput, now).Some?
    ensures |Words(Submit(submitted, content, mood, tagsInput, now).value.record.content)| >= 1
  {
    WordsEmptyIffBlank(content);
  }

  // ---------------------------------------------------------------------
  // Loading

  /** One `*.json` file of the directory: its name, and the record when
      `json.load` and the `filename` assignment succeed (`None` when they
      raise and the file is skipped with a warning). */
  datatype FileRead = FileRead(name: string, parsed: Option<Entry>)

  /** The records the loading loop collects, in directory order, each with
      its file's name. */
  function Loaded(files: seq<FileRead>): (r: seq<Entry>)
    ensures |r| <= |files|
    ensures forall i :: 0 <= i < |r| ==> r[i].filename.Some?
  {
    if files == [] then []
    else
      var f := files[|files| - 1];
      Loaded(files[..|files| - 1]) + (if f.parsed.Some? then [f.parsed.value.(filename := Some(f.name))] else [])
  }

  lemma {:induction false} LoadedAppend(a: seq<FileRead>, b: seq<FileRead>)
    ensures Loaded(a + b) == Loaded(a) + Loaded(b)
    decreases |b|
  {
    if b == [] {
      assert a + b == a;
    } else {
      assert (a + b)[..|a + b| - 1] == a + b[..|b| - 1];
      LoadedAppend(a, b[..|b| - 1]);
    }
  }

  /** The loaded records are exactly the records of the files that parse,
      each named after its file. */
  lemma {:induction false} LoadedMembers(files: seq<FileRead>, e: Entry)
    ensures e in Loaded(files) <==>
      exists i :: 0 <= i < |files| && files[i].parsed.Some? && e == files[i].parsed.value.(filename := Some(files[i].name))
  {
    if files != [] {
      var init := files[..|files| - 1];
      var f := files[|files| - 1];
      LoadedMembers(init, e);
      if exists i :: 0 <= i < |init| && init[i].parsed.Some? && e == init[i].parsed.value.(filename := Some(init[i].name)) {
        var i :| 0 <= i < |init| && init[i].parsed.Some? && e == init[i].parsed.value.(filename := Some(init[i].name));
        assert files[i] == init[i];
      }
      if exists i :: 0 <= i < |files| && files[i].parsed.Some? && e == files[i].parsed.value.(filename := Some(files[i].name)) {
        var i :| 0 <= i < |files| && files[i].parsed.Some? && e == files[i].parsed.value.(filename := Some(files[i].name));
        if i < |init| {
          assert init[i] == files[i];
        }
      }
    }
  }

  /** A file that fails to parse is skipped and the others still load. */
  lemma LoadedSkipsFailure(a: seq<FileRead>, name: string, b: seq<FileRead>)
    ensures Loaded(a + [FileRead(name, None)] + b) == Loaded(a + b)
  {
    LoadedAppend(a + [FileRead(name, None)], b);
    LoadedAppend(a, [FileRead(name, None)]);
    LoadedAppend(a, b);
    assert [FileRead(name, None)][..0] == [];
  }

  /** One file that parses gives exactly its record, named after the file. */
  lemma LoadedOne(f: FileRead)
    ensures Loaded([f]) == if f.parsed.Some? then [f.parsed.value.(filename := Some(f.name))] else []
  {
    assert [f][..0] == [];
  }

  function TimestampOf(e: Entry): string
  {
    e.timestamp
  }

  lemma LexLeIsTotalPreorder()
    ensures IsTotalPreorder(LexLe)
  {
    forall a, b ensures LexLe(a, b) || LexLe(b, a) {
      LexLeTotal(a, b);
    }
    forall a, b, c | LexLe(a, b) && LexLe(b, c) ensures LexLe(a, c) {
      LexLeTransitive(a, b, c);
    }
  }

  /** Timestamp strings never increase along the list. */
  ghost predicate IsNewestFirst(es: seq<Entry>)
  {
    IsDescending(es, TimestampOf, LexLe)
  }

  /** `sorted(entries, key=lambda x: x['timestamp'], reverse=True)`. */
  function SortNewestFirst(es: seq<Entry>): (r: seq<Entry>)
    ensures multiset(r) == multiset(es)
    ensures IsNewestFirst(r)
  {
    LexLeIsTotalPreorder();
    SortDesc(es, TimestampOf, LexLe)
  }

  /** Entries with the same timestamp string stay in directory order. */
  lemma SortNewestFirstStable(es: seq<Entry>, stamp: string)
    ensures WithKey(SortNewestFirst(es), TimestampOf, stamp) == WithKey(es, TimestampOf, stamp)
  {
    LexLeIsTotalPreorder();
    SortDescStable(es, TimestampOf, LexLe, stamp);
  }

  /** `load_journal_entries()`: no directory gives no entries; otherwise
      every record that parses, tagged with its file name, newest first. */
  method LoadJournalEntries(dirExists: bool, files: seq<FileRead>) returns (entries: seq<Entry>)
    ensures entries == if dirExists then SortNewestFirst(Loaded(files)) else []
    ensures multiset(entries) == if dirExists then multiset(Loaded(files)) else multiset{}
    ensures IsNewestFirst(entries)
  {
    if !dirExists {
      return [];
    }
    var collected: seq<Entry> := [];
    var i := 0;
    while i < |files|
      invariant 0 <= i <= |files|
      invariant collected == Loaded(files[..i])
    {
      var f := files[i];
      assert files[..i + 1][..i] == files[..i];
      if f.parsed.Some? {
        var entry := f.parsed.value.(filename := Some(f.name));
        collected := collected + [entry];
      }
      i := i + 1;
    }
    assert files[..|files|] == files;
    entries := SortNewestFirst(collected);
  }

  /** For records the app saved, newest-first by timestamp string is
      newest-first in time. */
  lemma SavedNewestFirstIsChronological(es: seq<Entry>, times: seq<Timestamp>)
    requires |es| == |times|
    requires forall i :: 0 <= i < |es| ==> ValidTimestamp(times[i]) && es[i].timestamp == IsoFormat(times[i])
    requires IsNewestFirst(es)
    ensures forall i, j :: 0 <= i < j < |es| ==> ChronoLe(times[j], times[i])
  {
    forall i, j | 0 <= i < j < |es| ensures ChronoLe(times[j], times[i]) {
      assert LexLe(TimestampOf(es[j]), TimestampOf(es[i]));
      IsoFormatOrder(times[j], times[i]);
    }
  }
}
