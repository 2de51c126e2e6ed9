# Meme news log — a verified model

`test_local.py` runs once and does the following:
- It fetches up to five technology headlines from a news API.
- For each headline it asks a meme API for image URLs and downloads every image.
- It keeps the images that came back with status 200, naming each `meme_<timestamp>_<i>.jpg`.
- It records each headline that got at least one image in the JSON log `docs/memes.json`. The log is a newest-first list under the key `news`, capped at fifty entries.

This project models the list logic of that script in Dafny and proves what it guarantees.

- `MemeLog` (`log.dfy`) models the log.
  - `Headline` is a news item and `Entry` is one log record.
  - `BuildEntry` is the record `save_memes` builds.
  - `Prepend` is the insert-at-front-and-cut-to-fifty update.
  - `PrependAll` and `AfterSaves` model several saves in a row.
  - The class `LogStore` is the log file. Its fields are whether the file exists, whether it is unreadable and its `news` list.
  - `LoadJson` is `load_json`. A missing file reads as an empty log.
  - `SaveMemes` is `save_memes`. It updates the `news` field in place.
- `MemeGenerator` (`generator.dfy`) models the download loop of `generate_memes`.
  - A `Download` is what one turn of the loop meets: either an exception, or a status code together with the clock reading taken when the image is saved.
  - `Generated` is the list the call returns.
  - `GenerateMemes` is the loop itself, proved against `Generated`.
  - `Decimal` and `MemeName` build the file names.
- `Pipeline` (`pipeline.dfy`) models `fetch_news`'s `[:5]` slice and the loop of `main`.
  - A `Round` is what the outside world does during one headline's turn.
  - `Qualifies` says whether the turn saves an entry.
  - `Entries` lists the entries a run saves, in order.
  - `Run` stands in for `main`, and `ProcessHeadlines` is its loop.
- `Sequences` (`sequences.dfy`) holds `Min`, `Reverse` and `Positions`. `Positions` is the indices a filter keeps, in order. It is the reference definition against which both filtering loops are stated.
- `Wrappers` (`wrappers.dfy`) holds `Option`.

The outside world comes in as inputs:
- The fetch result is `Option<seq<Headline>>`, with None standing for the request or the decoding raising.
- The meme API's answer is `Option<seq<Download>>`.
- Clock readings are strings passed in.

The model departs from two simplifications one might expect, because the code reads otherwise:
- **The clock is read inside the download loop.** `timestamp` is computed once per status-200 download (test_local.py:70), not once per call. So each `Download` carries its own reading. Two images of one headline can therefore carry different timestamps.
- **A download that raises aborts the whole call.** The `try` encloses the loop, so a `GET` or file write that raises sends the call to the handler, which returns `[]` (test_local.py:81-83). Names collected before the exception are discarded. A raising download is therefore a separate `Download.Raised` case, not a status code.

## Model

| member | source | states |
|---|---|---|
| MemeLog.LogStore.LoadJson | test_local.py:21-26 | A missing file reads as an empty `news` list. An existing file yields its list, or None exactly when it cannot be read. |
| MemeLog.LogStore.SaveMemes | test_local.py:85-108 | When the load fails, the store is unchanged. Otherwise the new list is the entry for the headline followed by the first min(old, 49) old entries. It holds at most 50 entries. Entry 0 has the headline's title, its `pubDate` or `""`, the given clock reading and the given file names. The file then reads back as that list. |
| MemeLog.Prepend | test_local.py:99-103 | The result has min(old + 1, 50) entries, between 1 and 50. The given entry is at index 0. Entries 1.. are the old list's first min(old, 49) entries, in order. |
| MemeLog.PrependAllStep | test_local.py:99-103 | Saving one more entry after a batch is one more front-insert-and-cut on the batch's result. |
| MemeLog.AfterSavesStep | test_local.py:85-108 | The same for the file's reading: one more `save_memes` after a batch is one more single save. This includes the unreadable file, which stays as it was. |
| MemeLog.AfterSavesConcat | test_local.py:132-139 | Saving one batch of entries and then another leaves the file as saving both as one batch does. |
| MemeLog.PrependAllNewestFirst | test_local.py:99-103 | After a non-empty batch of saves, the log is the batch in reverse (newest first) followed by the old log, cut to 50 entries. |
| MemeLog.NewestAtFront | test_local.py:99-103 | After a non-empty batch, the log has min(batch + old, 50) entries and the last saved entry is at index 0. The first min(batch, 50) positions hold the batch newest first. |
| MemeLog.OnlyLatestRemain | test_local.py:102-103 | After 50 or more saves, the log holds exactly the latest 50 saved entries, newest first. No older entry survives. |
| MemeLog.ThreeSaves | test_local.py:99-100 | Saving A, B, C into an empty log gives C, B, A. |
| MemeGenerator.Decimal | test_local.py:71 | The numeral for the index `i` is non-empty and made of decimal digits. |
| MemeGenerator.DecimalRoundTrip | test_local.py:71 | Reading the numeral back gives the index, so the numeral determines the index. |
| MemeGenerator.MemeNameInjective | test_local.py:70-71 | Two `meme_<ts>_<i>.jpg` names with timestamps of equal width are equal only when the timestamps and the indices both are. |
| MemeGenerator.NamesUpToPositions | test_local.py:66-76 | After the first n downloads, the collected names correspond one to one to the status-200 downloads among them, in order. The j-th name is `meme_<ts>_<i>.jpg` for the j-th such download, with its own clock reading and 1-based position. |
| MemeGenerator.NamesAtPositions | test_local.py:66-76 | The same over all downloads. |
| MemeGenerator.GeneratedNames | test_local.py:60-83 | A failed API call, or a call in which some download raises, returns the empty list. Otherwise the call returns one name per status-200 download and no other, in URL order with strictly increasing 1-based positions. Each name is built from that download's clock reading and position. |
| MemeGenerator.GenerateMemes | test_local.py:60-83 | The loop returns exactly `Generated` of its input, including the empty list on an exception. |
| MemeGenerator.SavedDownloadsNamed | test_local.py:67-76 | When no download raises, every status-200 download's name is in the result. |
| MemeGenerator.GeneratedNamesDistinct | test_local.py:67-71 | With 15-character clock readings, one call never returns the same file name twice. |
| Pipeline.FetchNews | test_local.py:39-47 | None exactly when the fetch raised. Otherwise the first min(n, 5) results, in order. |
| Pipeline.Processed | test_local.py:127-129 | The headlines the loop visits: at most 5. There are none when the fetch gave None or an empty list. Otherwise they are the sliced results. |
| Pipeline.QualifiesIffMemes | test_local.py:134-136 | A turn leads to a save exactly when `generate_memes` returns a non-empty list. That is the case exactly when the API answered, no download raised and some download had status 200. |
| Pipeline.EntriesUpToPositions | test_local.py:132-139 | After the first n headlines, the saved entries correspond one to one to the qualifying headlines among them, in order. The j-th entry is the j-th qualifying headline's record, with its meme list and save time. |
| Pipeline.EntriesPerQualifyingHeadline | test_local.py:132-139 | The same over all fetched headlines: one entry per qualifying headline, none for the others. |
| Pipeline.AtMostFiveEntries | test_local.py:42 | A run saves at most one entry per visited headline, so at most 5. |
| Pipeline.LastQualifyingFirst | test_local.py:132-139 | When some headline qualifies, the log after the run has at most 50 entries, and at index 0 is the entry of the last qualifying headline. |
| Pipeline.ProcessHeadline | test_local.py:133-139 | One turn changes nothing when the meme list is empty or the file cannot be read. Otherwise the file reads as after saving that headline's entry. |
| Pipeline.ProcessHeadlines | test_local.py:132-139 | The loop leaves the file reading as after saving all qualifying headlines' entries in order. When none qualifies, nothing changes. |
| Pipeline.Run | test_local.py:124-142 | A fetch giving None or an empty list leaves the log unchanged. Otherwise the run leaves the file as after saving, in order, the entry of each qualifying headline among the first five. When none qualifies, nothing changes. |

## Left out

- HTTP (`requests.get`/`requests.post`, lines 40, 62, 68): replaced by inputs. These are the fetch result, the meme API's answer and each download's outcome.
- File and directory I/O:
  - the directory creation (lines 16-19);
  - writing the image bytes (lines 72-75);
  - JSON parsing and serialisation (lines 24-25, 30-31).
  The log file is modelled as its `news` list plus two flags: the file exists, and the file cannot be read or has no `news` list. Other top-level keys of the JSON object are not modelled.
- A `save_json` that raises part-way (line 105): the model's save always writes the list. A half-written file is not modelled.
- Image files that an aborted `generate_memes` had already written stay on disk. The model tracks only the returned names.
- The clock (`datetime.now().strftime`, lines 70, 90): the readings are string inputs, and their format is not modelled. GeneratedNamesDistinct assumes readings of the usual 15 characters.
- Environment and secrets (`load_dotenv`, `os.getenv`, lines 9, 35, 51).
- `view_memes` and every `print` (lines 38, 43, 46, 59, 77, 79, 87, 106, 108, 110-122, 142, 145): console output only. This includes the `text[:50]` preview.
- Exception handlers (lines 45-47, 81-83, 107-108): modelled by their outcomes rather than as exceptions. They give None for the fetch, `Download.Raised` or a None answer for the generator, and the unreadable-file flag for the save.
- A headline whose `pubDate` key is present with a JSON `null`: `get` then returns None rather than `""`. Here `pubDate` is either a string or absent.
- A headline with no `title` key: `main` reads `news_item['title']` outside any handler (line 134), so the script would stop with an error. Here every headline has a title.
- The round trip of a saved log through `save_json` and `load_json`: it depends on the JSON library, so it is not proved.
