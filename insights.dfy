/** The "Ask Your Journal" side of jbud.py: the documents
    `create_vector_store` builds from the loaded entries, the guards of
    `get_journal_insights`, and the source previews shown under an answer.
    The embedding index and the language model are outside the model: the
    index build and the answer enter as inputs. */
module Insights {
  import opened Wrappers
  import opened Journal

  /** `Document.metadata`: date, `entry.get('mood')`, the tags joined with
      ", ", and `entry.get('filename')`. */
  datatype Metadata = Metadata(date: string, mood: Option<string>, tags: string, filename: Option<string>)

  datatype Document = Document(pageContent: string, metadata: Metadata)

  /** The mood line of a document when the record has no `mood` key. */
  const NotSpecified: string := "Not specified"

  /** The insight call's reply when there is no store. */
  const NoEntriesMessage: string := "No journal entries found. Start by writing your first entry!"

  /** Prefix of the reply when the question-answering chain raises. */
  const InsightErrorPrefix: string := "\U{274C} Error getting insights: "

  /** How many source documents are shown, and how many characters of each. */
  const ShownSources: nat := 3
  const PreviewLength: nat := 300

  /** Indentation that the triple-quoted f-string keeps on every line. */
  const Indent: string := "        "

  /** `entry.get('mood')`: `None` for a missing key and for `null`. */
  function MetadataMood(m: Mood): (r: Option<string>)
    ensures r.Some? <==> m.Label?
    ensures m.Label? ==> r.value == m.text
  {
    match m
    case Label(s) => Some(s)
    case _ => None
  }

  /** The line break and indentation that open every line of the page. */
  const NewLine: string := "\n" + Indent

  /** The mood line and the tags line. */
  function MoodAndTagLines(e: Entry): string
  {
    NewLine + "Mood: " + MoodText(e.mood, NotSpecified)
    + NewLine + "Tags: " + JoinTags(TagsOf(e))
  }

  /** An empty line, then the "Entry:" heading. */
  const EntryHeading: string := NewLine + NewLine + "Entry:" + NewLine

  /** The text between the date and the entry: the time, the mood line,
      the tags line, an empty line and the "Entry:" heading. */
  function MiddleLines(e: Entry): string
  {
    " " + e.time + MoodAndTagLines(e) + EntryHeading
  }

  /** The page text of the f-string in `create_vector_store`: date and
      time, mood, tags, then the entry itself, each on its own indented
      line. */
  function PageContent(e: Entry): string
  {
    NewLine + "Date: " + e.date + MiddleLines(e) + e.content + NewLine
  }

  /** The document one entry becomes in the loop of `create_vector_store`. */
  function DocumentOf(e: Entry): Document
  {
    Document(PageContent(e),
             Metadata(e.date, MetadataMood(e.mood), JoinTags(TagsOf(e)), e.filename))
  }

  /** The page text starts with the entry's date and ends with its content,
      unchanged, followed by the closing line break and indentation. */
  lemma PageContentShowsEntry(e: Entry)
    ensures var p := PageContent(e);
      |p| >= 15 + |e.date| + |e.content| + 9
      && p[..15 + |e.date|] == NewLine + "Date: " + e.date
      && p[|p| - 9 - |e.content|..] == e.content + NewLine
  {
    var head := NewLine + "Date: " + e.date;
    var tail := e.content + NewLine;
    var p := PageContent(e);
    assert |head| == 15 + |e.date|;
    assert p == head + MiddleLines(e) + tail;
    assert p[..|head|] == head;
    assert p[|p| - |tail|..] == tail;
  }

  /** The mood line shows the stored mood when there is one, and falls back
      to "Not specified" only for a record without a `mood` key (unless
      that is the stored mood); the metadata carries the mood as a string
      exactly when it is one. */
  lemma DocumentMood(e: Entry)
    ensures var d := DocumentOf(e);
      (e.mood.Label? ==> d.metadata.mood == Some(e.mood.text))
      && (!e.mood.Label? ==> d.metadata.mood == None)
      && (e.mood.Absent? ==> MoodText(e.mood, NotSpecified) == NotSpecified)
      && (MoodText(e.mood, NotSpecified) == NotSpecified ==> e.mood.Absent? || e.mood == Label(NotSpecified))
  {
  }

  /** After the date and time, the document text holds the mood line and
      the tags line, each on its own indented line. */
  lemma DocumentShowsMoodAndTags(e: Entry)
    ensures var p := DocumentOf(e).pageContent;
      var line := NewLine + "Mood: " + MoodText(e.mood, NotSpecified) + NewLine + "Tags: " + JoinTags(TagsOf(e));
      var i := 15 + |e.date| + 1 + |e.time|;
      |p| >= i + |line| && p[i..i + |line|] == line
  {
    var before := NewLine + "Date: " + e.date;
    assert |before| == 15 + |e.date|;
    Regroup(before, " " + e.time, MoodAndTagLines(e), EntryHeading, e.content + NewLine);
  }

  /** Regrouping five parts around the middle one: it starts right after
      the first two. */
  lemma Regroup<T>(a: seq<T>, b: seq<T>, c: seq<T>, d: seq<T>, f: seq<T>)
    ensures var s := a + (b + c + d) + f;
      |s| >= |a| + |b| + |c| && s[|a| + |b|..|a| + |b| + |c|] == c
  {
    var s := a + (b + c + d) + f;
    assert s == (a + b) + c + (d + f);
  }

  /** The tags metadata of a saved entry parses back, with the tag field's
      own rule, to the entry's tags. */
  lemma DocumentTagsRoundTrip(e: Entry)
    requires forall i :: 0 <= i < |TagsOf(e)| ==> IsTag(TagsOf(e)[i])
    ensures ParseTags(DocumentOf(e).metadata.tags) == TagsOf(e)
  {
    ParseJoinedTags(TagsOf(e));
  }

  /** Tags typed into the form survive into the document of the saved
      entry: parsing its tags metadata gives the parsed input again. */
  lemma SubmittedTagsReachDocument(submitted: bool, content: string, mood: string, tagsInput: string, now: Clock.Timestamp)
    requires Clock.ValidTimestamp(now)
    requires Submit(submitted, content, mood, tagsInput, now).Some?
    ensures var e := Submit(submitted, content, mood, tagsInput, now).value.record;
      ParseTags(DocumentOf(e).metadata.tags) == ParseTags(tagsInput)
  {
    var e := Submit(submitted, content, mood, tagsInput, now).value.record;
    assert TagsOf(e) == ParseTags(tagsInput);
    DocumentTagsRoundTrip(e);
  }

  /** The documents of the entries, one each, in order. */
  function Documents(entries: seq<Entry>): (docs: seq<Document>)
    ensures |docs| == |entries|
    ensures forall i :: 0 <= i < |entries| ==> docs[i] == DocumentOf(entries[i])
  {
    seq(|entries|, i requires 0 <= i < |entries| => DocumentOf(entries[i]))
  }

  /** `create_vector_store(entries, embeddings)`: no store for no entries;
      otherwise one document per entry, in order, or no store when building
      the index raises (`indexBuilt` is false). The store is modelled by the
      documents given to the splitter. */
  method CreateVectorStore(entries: seq<Entry>, indexBuilt: bool) returns (store: Option<seq<Document>>)
    ensures store.Some? <==> entries != [] && indexBuilt
    ensures store.Some? ==> store.value == Documents(entries)
  {
    if entries == [] {
      return None;
    }
    var documents: seq<Document> := [];
    var i := 0;
    while i < |entries|
      invariant 0 <= i <= |entries|
      invariant |documents| == i
      invariant forall k :: 0 <= k < i ==> documents[k] == DocumentOf(entries[k])
    {
      documents := documents + [DocumentOf(entries[i])];
      i := i + 1;
    }
    if indexBuilt {
      assert documents == Documents(entries);
      store := Some(documents);
    } else {
      store := None;
    }
  }

  /** What the question-answering chain did: answered, with the
      `source_documents` key if the result had one, or raised. */
  datatype ChainOutcome = Answered(result: string, sourceDocuments: Option<seq<Document>>)
                        | Raised(error: string)

  /** `get_journal_insights(query, vectorstore, llm)`: the reply and the
      source documents. */
  function GetJournalInsights(store: Option<seq<Document>>, outcome: ChainOutcome): (r: (string, seq<Document>))
    ensures store.None? ==> r == (NoEntriesMessage, [])
    ensures store.Some? && outcome.Raised? ==> r == (InsightErrorPrefix + outcome.error, [])
    ensures store.Some? && outcome.Answered? ==>
      r.0 == outcome.result && r.1 == (if outcome.sourceDocuments.Some? then outcome.sourceDocuments.value else [])
  {
    if store.None? then (NoEntriesMessage, [])
    else match outcome
      case Answered(result, sources) => (result, if sources.Some? then sources.value else [])
      case Raised(error) => (InsightErrorPrefix + error, [])
  }

  /** The "Ask Your Journal" tab: the store is built whenever there are
      entries, and the insight call is made only when "Get Insights" is
      `pressed` with a non-empty question. A failed index build reads as "no
      journal entries", even though there are some. */
  method AskJournal(entries: seq<Entry>, indexBuilt: bool, pressed: bool, query: string, outcome: ChainOutcome)
    returns (reply: Option<(string, seq<Document>)>)
    ensures reply.Some? <==> entries != [] && pressed && query != []
    ensures reply.Some? && !indexBuilt ==> reply.value == (NoEntriesMessage, [])
    ensures reply.Some? && indexBuilt ==> reply.value == GetJournalInsights(Some(Documents(entries)), outcome)
  {
    if entries == [] {
      return None;
    }
    var store := CreateVectorStore(entries, indexBuilt);
    if !pressed || query == [] {
      return None;
    }
    if store.Some? {
      assert store.value == Documents(entries);
    }
    reply := Some(GetJournalInsights(store, outcome));
  }

  /** `doc.page_content[:300] + "..."`. */
  function Preview(text: string): (r: string)
    ensures |r| == (if |text| < PreviewLength then |text| else PreviewLength) + 3
    ensures r[..|r| - 3] == text[..|r| - 3]
    ensures r[|r| - 3..] == "..."
  {
    var cut := if |text| < PreviewLength then text else text[..PreviewLength];
    assert (cut + "...")[..|cut|] == cut;
    cut + "..."
  }

  /** The previews under "Source Entries Used": the first three sources,
      each cut to its first 300 characters and followed by "...". */
  function SourcePreviews(sources: seq<Document>): (r: seq<string>)
    ensures |r| == if |sources| < ShownSources then |sources| else ShownSources
    ensures forall i :: 0 <= i < |r| ==> r[i] == Preview(sources[i].pageContent)
  {
    var shown := if |sources| < ShownSources then sources else sources[..ShownSources];
    seq(|shown|, i requires 0 <= i < |shown| => Preview(shown[i].pageContent))
  }

  /** A short source is shown whole before the "...". */
  lemma ShortSourceShownWhole(text: string)
    requires |text| <= PreviewLength
    ensures Preview(text) == text + "..."
  {
    var r := Preview(text);
    assert r == r[..|r| - 3] + r[|r| - 3..];
  }
}
