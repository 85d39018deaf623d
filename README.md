# jbud journal logic in Dafny

jbud is a single-file Streamlit journaling app (`jbud.py`). It saves journal
entries as JSON records in a local directory and loads them back, newest
first. It offers mood, tag and date filters over the entries, shows mood
statistics in the sidebar, and passes the entries to a local language model
through an embedding index.

This project models the record and list handling that sits between those
parts:

- the tag field and the submit guard of the entry form;
- the record, file name, `date` and `time` strings that `save_journal_entry` derives from one clock reading;
- the parse, skip and sort of `load_journal_entries`;
- the browse view's filters, options, display cap, heading and word count;
- the sidebar's last entry date and "Recent Moods" counts;
- the documents `create_vector_store` builds, and the guards of `get_journal_insights`;
- the source previews shown under an answer.

The modules are:

- `Wrappers`: the `Option` type.
- `Lex`: Python's `<=` on strings.
- `Text`: `strip()`, `split(",")`, `split()` and `join` over code points.
- `Sequences`: filtering comprehensions, and a stable descending sort standing in for `sorted(..., reverse=True)` and `Counter.most_common`.
- `Clock`: a `datetime` reading as integer fields, with its `isoformat()` and `strftime` strings.
- `Journal`: the entry record, saving, submitting and loading.
- `Browse`: the browse view and the sidebar.
- `Insights`: documents, the insight call's guards and source previews.

A record is a dictionary whose `mood` key may be missing, `null`, or a
string. `Journal.Mood` keeps these three cases apart. This matters because
`entry.get('mood', default)` uses the default only when the key is missing.
Saved records always have the key.

Clock readings, the directory listing, the outcome of reading each file,
whether the index build succeeds and the language model's answer are all
inputs to the model.

## Model

| member | source | states |
|---|---|---|
| Text.Strip | jbud.py:253 | `strip()` result is empty exactly when the text is all whitespace, and otherwise begins and ends with non-whitespace |
| Text.StripIsInfix | jbud.py:254 | `strip()` removes whitespace at the two ends only: the result is a contiguous part of the input with only whitespace around it |
| Text.SplitOn | jbud.py:254 | `split(",")` gives at least one piece, and no piece holds the separator |
| Text.JoinSplitOn | jbud.py:254 | `split(",")` loses nothing: joining the pieces with the separator gives the input back |
| Text.SplitOnAt | jbud.py:254 | splitting at a separator gives the left part's pieces followed by the right part's, in order |
| Text.Words | jbud.py:377 | every word of `split()` is non-empty and holds no whitespace |
| Text.WordsCountRuns | jbud.py:377 | `split()` gives exactly one word per maximal run of non-whitespace: its length is the number of positions that hold a non-whitespace character at the start or after whitespace |
| Text.WordsKeepText | jbud.py:377 | `split()` drops only whitespace: the words, concatenated, are the input's non-whitespace characters in order |
| Text.WordsEmptyIffBlank | jbud.py:377 | `split()` is empty exactly when `strip()` is empty |
| Lex.LexLeTotal | jbud.py:79 | any two strings are comparable under Python's string order |
| Lex.LexLeAntisymmetric | jbud.py:79 | strings that are each `<=` the other are equal |
| Lex.LexLeTransitive | jbud.py:79 | Python's string order is transitive |
| Lex.LexLeConcat | jbud.py:365 | with equal-length leading parts, the leading parts decide the comparison unless they are equal, in which case the rest decides |
| Sequences.SubsequenceTransitive | jbud.py:359-365 | filtering a filtered list again still gives an order-preserving subsequence of the original |
| Sequences.SubsequenceKeepsDescending | jbud.py:359-365 | an order-preserving subsequence of a list whose keys never increase has keys that never increase |
| Sequences.Filter | jbud.py:359-365 | a filtering comprehension gives an order-preserving subsequence that holds every passing element as often as the input does, and nothing else |
| Sequences.FilterMembers | jbud.py:359-365 | an element is in the filtered list exactly when it is in the input and passes |
| Sequences.SortDesc | jbud.py:79 | `sorted(..., reverse=True)` is a permutation of its input whose keys never increase |
| Sequences.SortDescStable | jbud.py:79 | the sort is stable: elements with equal keys keep their input order |
| Clock.PadRoundTrip | jbud.py:47 | a zero-padded field reads back as the number it was made from |
| Clock.PadInjective | jbud.py:47 | two numbers have the same padded field exactly when they are equal |
| Clock.PadOrder | jbud.py:51 | same-width padded fields compare as strings as their numbers do |
| Clock.DateString | jbud.py:54 | `strftime('%Y-%m-%d')` is ten characters with `-` at positions 4 and 7 |
| Clock.DateStringRoundTrip | jbud.py:54 | the date string's three fields spell the year, month and day |
| Clock.TimeString | jbud.py:55 | `strftime('%H:%M')` is five characters with `:` at position 2 |
| Clock.TimeStringRoundTrip | jbud.py:55 | the time string's two fields spell the hour and minute |
| Clock.IsoFormat | jbud.py:51 | `isoformat()` is 19 characters when the microseconds are zero, and 26 (with `.ffffff`) otherwise |
| Clock.FileName | jbud.py:47 | the file name is 26 characters, `entry_` then the stamp then `.json` |
| Clock.DateStringOrder | jbud.py:364-365 | `YYYY-MM-DD` strings compare as their dates do |
| Clock.FractionOrder | jbud.py:51 | the microsecond part of `isoformat()`, left out at zero, orders as the numbers do |
| Clock.IsoFormatOrder | jbud.py:51 | `isoformat()` strings compare as their readings do in time, to the microsecond |
| Clock.FileNameIdentifiesSecond | jbud.py:47 | two readings get the same `entry_YYYYMMDD_HHMMSS.json` name exactly when they fall in the same second |
| Clock.IsoFormatFields | jbud.py:51-55 | the stored `date` and `time` strings are the leading fields of the stored `timestamp`, so all three come from one reading |
| Journal.MoodText | jbud.py:91 | `str(entry.get('mood', default))`: the default for a missing key only, `None` for a `null` mood, and a stored mood string unchanged |
| Journal.StripPieces | jbud.py:254 | the comprehension keeps only non-empty stripped pieces |
| Journal.ParseTags | jbud.py:254 | every parsed tag is non-empty, has no whitespace at either end and has no comma |
| Journal.ParseTagsAt | jbud.py:254 | tags keep their input order: the tags before a comma come before those after it |
| Journal.ParseTagsOne | jbud.py:254 | comma-free text gives its stripped self as the only tag, or no tag when it is blank |
| Journal.ParseJoinedTags | jbud.py:103 | joining valid tags with ", " and parsing the result as tag input gives the same tags |
| Journal.SaveEntry | jbud.py:41-61 | the record stores the content unchanged and the mood given (`null` when none). `tags` is `[]` when none are given. The name, timestamp, `date` and `time` come from one reading, and `date`/`time` are slices of the timestamp |
| Journal.Submit | jbud.py:253-255 | an entry is saved exactly when the form is submitted and the content has a non-whitespace character. It carries the content, the chosen mood and the parsed tags |
| Journal.SubmittedHasWords | jbud.py:253 | whitespace-only content never produces a record: a saved entry has at least one word |
| Journal.Loaded | jbud.py:69-77 | the loop never collects more records than there are files, and every record carries a file name. `LoadedMembers` and `LoadedOne` state which record each file gives |
| Journal.LoadedMembers | jbud.py:69-77 | the loaded records are exactly the records of the files that parse, each with `filename` set to its file's name |
| Journal.LoadedAppend | jbud.py:69-77 | the loading loop collects the records of the files in order, so loading two runs of files gives the records of the first run, then those of the second |
| Journal.LoadedSkipsFailure | jbud.py:70-77 | a file that fails to load is skipped and the other files still load |
| Journal.LoadedOne | jbud.py:72-75 | a file that parses contributes exactly its record, with `filename` set to the file's name; a file that does not contributes nothing |
| Journal.SortNewestFirst | jbud.py:79 | the loaded list is a permutation of the collected records, with timestamp strings never increasing |
| Journal.SortNewestFirstStable | jbud.py:79 | records with equal timestamp strings stay in directory order |
| Journal.LoadJournalEntries | jbud.py:63-79 | no directory gives no entries. Otherwise the result is the collected records sorted newest first: a permutation of them, with timestamps never increasing |
| Journal.SavedNewestFirstIsChronological | jbud.py:79 | for records the app saved, newest-first by timestamp string is newest-first in time |
| Browse.FilterByMood | jbud.py:360-361 | "All" leaves the list unchanged. Any other choice keeps an order-preserving subsequence of exactly the entries whose mood equals it, each as often as in the input |
| Browse.FilterByTag | jbud.py:362-363 | "All" leaves the list unchanged. Any other choice keeps an order-preserving subsequence of exactly the entries whose tag list contains it |
| Browse.FilterByDate | jbud.py:364-365 | no date leaves the list unchanged. A date keeps an order-preserving subsequence of exactly the entries whose `date` string is `>=` the date's string |
| Browse.ApplyFilters | jbud.py:358-365 | the filtered list is an order-preserving subsequence of the input. It holds every entry that passes all three filters, as often as it occurs in the input, and nothing else |
| Browse.ApplyFiltersMembers | jbud.py:359-365 | an entry passes the three filters exactly when it passes each one |
| Browse.DateFilterIsChronological | jbud.py:365 | for dates the app wrote, the string test keeps exactly the entries from the selected day on |
| Browse.ShownEntries | jbud.py:370 | at most 20 entries are shown, and they are the first 20 of the filtered list, in order |
| Browse.ShownAreNewestMatching | jbud.py:359-370 | filtering a newest-first list keeps it newest first. So the shown entries are the newest that match: no matching entry left out is newer than any shown one |
| Browse.MoodOptionsExact | jbud.py:342-343 | the mood select box offers exactly the non-empty moods that select at least one entry |
| Browse.MoodOptionSelectsEntries | jbud.py:342-343 | every mood the select box offers selects at least one entry |
| Browse.AllTags | jbud.py:346-348 | the collected tags are exactly the tags of some entry |
| Browse.CollectTags | jbud.py:346-348 | the `extend` loop collects every entry's tags, in entry order |
| Browse.TagOptionsExact | jbud.py:346-349 | the tag select box offers exactly the tags that select at least one entry |
| Browse.TagOptionSelectsEntries | jbud.py:349 | every tag the select box offers selects at least one entry |
| Browse.Heading | jbud.py:371 | the expander title starts with the calendar mark and the date, and ends with the mood as `entry.get('mood', '😐 No mood')` shows it |
| Browse.SavedHeadingShowsStoredMood | jbud.py:371 | a saved record's heading never shows the "No mood" stand-in: it shows the chosen mood, or `None` |
| Browse.WordCount | jbud.py:377 | the word count is the number of maximal runs of non-whitespace in the content, and zero exactly when the content is blank |
| Browse.LastEntryDate | jbud.py:204-206 | the sidebar shows a last entry date exactly when there are entries, and it is the first loaded entry's `date` |
| Browse.LastEntryDateIsNewestDay | jbud.py:204-206 | for records the app saved, loaded newest first, the date shown is that of the latest reading, and no entry is from a later day |
| Browse.FirstLoadedIsNewest | jbud.py:205 | in the loaded list the first entry has the greatest timestamp string |
| Browse.TruthyMoods | jbud.py:209 | only non-empty moods are counted, and they are exactly the moods the browse filter offers |
| Browse.Distinct | jbud.py:212 | the counter's keys are the moods that occur, each once |
| Browse.Tally | jbud.py:212 | each counter key is paired with its number of occurrences |
| Browse.MoodCountsFacts | jbud.py:212 | a (mood, count) pair is among the counter's items (`MoodCounts`) exactly when the mood occurs that many times, and it appears at most once |
| Browse.SortedMoodCountsFacts | jbud.py:214 | the items sorted by count hold each occurring mood once with its exact count, and the counts never increase |
| Browse.SortedMoodCountsComplete | jbud.py:214 | every occurring mood is among the sorted items |
| Browse.MostCommonIsTop | jbud.py:209-215 | `most_common(3)` (`MostCommon`) lists min(3, distinct moods) distinct moods with their exact counts, never increasing. No mood left out occurs more often than the last one listed |
| Browse.RecentMoods | jbud.py:209-215 | "Recent Moods" lists at most three moods, each one the mood filter offers, with a positive count |
| Browse.TruthyMoodCount | jbud.py:209-212 | a mood's count in the sidebar is the number of entries the mood filter keeps for it |
| Browse.RecentMoodsCountEntries | jbud.py:209-215 | every "Recent Moods" count equals the number of entries the browse filter shows for that mood |
| Insights.MetadataMood | jbud.py:102 | the metadata mood is a string exactly when the record's mood is a string, and is then that string |
| Insights.PageContentShowsEntry | jbud.py:89-96 | a document's text (`PageContent`, the `page_content` of `DocumentOf`) starts with the entry's date and ends with its content, unchanged, followed by the closing line break and indentation |
| Insights.DocumentMood | jbud.py:91-102 | the mood text of a document falls back to "Not specified" for a record without a `mood` key, and otherwise shows it only when that is the stored mood. The metadata of `DocumentOf` carries the mood exactly when it is a string |
| Insights.DocumentShowsMoodAndTags | jbud.py:89-92 | right after the date and time, the text of `DocumentOf` holds the indented mood line (`entry.get('mood', 'Not specified')`) and the indented tags line (the tags joined with ", ") |
| Insights.DocumentTagsRoundTrip | jbud.py:103 | the tags metadata of `DocumentOf` parses back to the entry's tags when they are valid tags |
| Insights.SubmittedTagsReachDocument | jbud.py:103 | the tags typed into the form parse back, unchanged, from the saved entry's document metadata |
| Insights.Documents | jbud.py:86-107 | one document per entry, in entry order |
| Insights.CreateVectorStore | jbud.py:81-126 | there is no store for no entries, nor when building the index raises. Otherwise the store holds exactly the entries' documents, in order |
| Insights.GetJournalInsights | jbud.py:128-162 | with no store, the reply is the fixed "No journal entries found" message and there are no sources. A raising chain gives the error message and no sources. An answer gives its text and its sources, or none when the key is missing |
| Insights.AskJournal | jbud.py:280-320 | the insight call is made exactly when there are entries and "Get Insights" is pressed with a non-empty question. A failed index build then replies "No journal entries found" with no sources |
| Insights.Preview | jbud.py:329 | a preview is the first min(300, length) characters of the text followed by "..." |
| Insights.SourcePreviews | jbud.py:327-329 | at most three previews are shown: those of the first three sources, in order |
| Insights.ShortSourceShownWhole | jbud.py:329 | a text of at most 300 characters is shown whole, followed by "..." |

## Left out

- Streamlit rendering, widgets, tabs, session state, spinners and balloons: user interface. Selections and button presses are inputs.
- The Ollama clients, the language-model calls and the prompt texts (`init_ollama`, the quick reflection and the question chain): foreign network calls with nondeterministic output. The chain's outcome is an input to `Insights.GetJournalInsights`.
- Text splitting and the Chroma index (chunk size 1000, overlap 200, retrieval of 5 documents): library code that is not part of this model. The store is modelled by the documents handed to the splitter, and a failed build is a boolean input.
- File-system effects (`mkdir`, `open`, `json.dump`, `json.load`, `glob`): the directory is an input list of file reads, and a save returns the file name with the record.
- Insights.CreateVectorStore: the `embeddings` argument and the persist directory are not modelled.
- `datetime.now()` and the `datetime` internals: a reading is an input with integer fields. The `min_date`/`max_date` the browse view computes are never used, and are left out.
- Browse.ApplyFilters: the browse view first parses every loaded timestamp with `datetime.fromisoformat`. A record whose timestamp does not parse makes the view raise `ValueError` before any filter runs. The model assumes every timestamp parses, which holds for every record the app writes.
- Clock.DateString and Clock.FileName always pad the year to four digits. `strftime('%Y')` is platform-dependent for years below 1000, so those years are not modelled faithfully.
- Records lacking `content`, `timestamp`, `date` or `time`: the app raises `KeyError` where it indexes them. The model types these four fields as strings that are always present.
- JSON types other than the modelled ones: the model types `mood` as missing, `null` or a string, and `tags` as missing or a list of strings. Other values are not modelled, and neither is what the app does with them. For example, a numeric mood is counted and shown, and a string `tags` is joined and searched character by character.
- The "You have N entries" hint and the example questions of the "Ask Your Journal" tab: UI text only.
- `setup.py`: packaging metadata, with no logic.
- Journal.SaveEntry: it overwrites a file written in the same second, because the file is opened in `'w'` mode. `Clock.FileNameIdentifiesSecond` shows that two saves in one second share a name. The model returns the record and its name, and does not model the directory after the write.
- Browse.FilterByMood, Browse.FilterByTag: a mood or tag spelled exactly "All" cannot be filtered for, because that option switches the filter off. The lemmas that relate counts to filters exclude it.
