# Echo acquisition pipeline and logs page, modelled in Dafny

Echo is a radio-automation system. Its backend takes a *program*: an id, a
source kind (`youtube`, `stream`, `local`) and a URL. It fetches the audio
for that program into a raw-audio directory and records each download as an
*episode* in a small catalog, where the URL is unique. Its web front end
includes a logs page, which pages through the activity log and suggests
search terms while the user types.

This project models the following:

* **`POST /scrape`** (`Api`): a URL already in the catalog is answered
  from it ("skipped"). Otherwise the endpoint calls `scrape`, records a
  completed download and maps errors to 400 (a `ScraperError`) or 500
  (anything else).
* **`scrape`** (`Scraper`): it makes sure the raw directory exists, skips
  `local` sources, picks a strategy through the factory, builds the output
  path `RAW_DIR/<id>_<YYYYmmdd>_<HHMM>.mp3` and re-raises errors as
  `ScraperError`.
* **The factory** (`ScraperFactory`): a closed table with two entries,
  `youtube` and `stream`.
* **The video strategy** (`YoutubeScraper`) and **the live-stream strategy**
  (`StreamScraper`): the exact argument vector handed to `yt-dlp` or
  `ffmpeg`, and how that tool reads it. A non-zero exit becomes a
  `ScraperError` with two prefixes (the tool's error prefix, then its
  failure prefix, then stderr). An exception raised by `subprocess.run`
  itself gets only the error prefix.
* **The page-scrape strategy** (`ElSitioCristiano`):
  * it canonicalises the URL to the programme's `/listen/` page;
  * it selects episode links with a strict href pattern, falling back to a
    loose one, and takes the first;
  * it makes that href absolute;
  * it strips Spanish dates from the link text;
  * it reads the `fileUrl:` address out of the episode page's script;
  * it streams the MP3 to disk chunk by chunk;
  * it wraps every error under one of two prefixes.

  Each fixed regular expression is written as a hand-rolled matcher. A
  lemma proves each matcher equivalent to a definition that follows the
  expression's structure, including Python's `$` (which also matches
  before a final newline), `\s`, `re.IGNORECASE` folding and `re.search`
  taking the leftmost match. `re.sub` itself is not proved against a
  separate definition: `SubFrom` is the model of it, a left-to-right scan
  that replaces each match of the date matcher and resumes after it, with
  lemmas about what that scan keeps and removes.
* **The catalog** (`Crud`): `get_episode_by_url` and `create_episode`
  over a table whose url is unique and whose ids follow SQLite's rowid
  rule.
* **The logs page** (`Logs`): the previous/next page handlers and their
  disabled buttons; the suggestion list, built as first-occurrence
  de-duplication of `(message || source || '').trim()` and cut to six;
  and the minimum query length, counted in UTF-16 code units.

Three facts about the code are worth stating, because a reader might
expect otherwise:
* downloads are not sorted into date-partitioned directories; the code
  writes one flat, timestamped file per download into `RAW_DIR`
  (`Scraper.GenerateFilename`, `Scraper.OutputPath`);
* the `yt-dlp` command has no `--no-playlist` flag
  (`YoutubeScraper.Command`);
* the endpoint throws away what the strategy returns, including the
  recovered episode title, and stores `program.id` as the title
  (`Api.RunScraper`).

The page-scrape strategy is also never reachable through the factory,
because the factory does not register it (`ScraperFactory.GetScraper`).

External effects are parameters:
* the process runner (`Process.Runner`, argv to exit code and stderr, or
  an exception from `subprocess.run`);
* the web (`ElSitioCristiano.Web`, a URL to a page or a request error);
* the clock (`Scraper.Clock`);
* the `OSError` that creating the raw directory or opening the output
  file may raise;
* the answer to the suggestion request (`Logs.Reply`).

## Model

| member | source | states |
|---|---|---|
| Text.Trim | Backend/app/services/scrapers/elsitiocristiano.py:64 | `strip()` leaves a slice of the input, with no whitespace at either end and only whitespace cut off on either side |
| YoutubeScraper.Command | Backend/app/services/scrapers/youtube.py:6-13 | nine arguments: the program is `yt-dlp`, the output path follows `-o`, and the URL comes last |
| YoutubeScraper.CommandReads | Backend/app/services/scrapers/youtube.py:6-13 | read as a command line, the vector is: extract audio, format mp3, quality 192K, output to the path, one positional (the URL), for any URL not starting with `-` |
| YoutubeScraper.Download | Backend/app/services/scrapers/youtube.py:15-26 | succeeds iff the process completed with exit code 0; a non-zero exit gives `Error executing yt-dlp: YouTube download failed: <stderr>`; a raising `subprocess.run` gives `Error executing yt-dlp: <message>`; every error is a ScraperError |
| StreamScraper.DurationMinutes | Backend/app/services/scrapers/stream.py:7 | 60 when no duration is given, otherwise the given value |
| StreamScraper.Command | Backend/app/services/scrapers/stream.py:9-17 | ten arguments: `ffmpeg`, input URL after `-i`, a `-t` value that reads back as the duration times 60 seconds, and the output path last |
| StreamScraper.DefaultCapture | Backend/app/services/scrapers/stream.py:7-13 | with no duration given, the capture length argument is `3600` |
| StreamScraper.CommandReads | Backend/app/services/scrapers/stream.py:9-17 | read as a command line: switches `-y` and `-vn`; options input URL, seconds and `libmp3lame`; the output path as the single positional |
| StreamScraper.Download | Backend/app/services/scrapers/stream.py:19-30 | succeeds iff exit code 0; the non-zero-exit and raised cases give the doubly and singly prefixed ScraperError |
| ScraperFactory.GetScraper | Backend/app/services/scrapers/factory.py:5-13 | the video strategy iff `youtube`, the stream strategy iff `stream`, and `Fuente no soportada: <source>` for every other source |
| ScraperFactory.Download | Backend/app/services/scrapers/base.py:8-12 | whichever strategy is chosen, it fails only with a ScraperError |
| Scraper.Timestamp | Backend/app/services/scraper.py:14 | `%Y%m%d_%H%M` is 13 characters: eight digits, an underscore, four digits |
| Scraper.TimestampRoundTrip | Backend/app/services/scraper.py:14 | the stamp reads back as the same clock reading |
| Scraper.GenerateFilename | Backend/app/services/scraper.py:13-15 | the name starts with `<program_id>_`, ends with `.mp3` and is 18 characters longer than the id |
| Scraper.FilenameRoundTrip | Backend/app/services/scraper.py:13-15 | the file name splits back into the program id and the minute it was made |
| Scraper.FilenameInjective | Backend/app/services/scraper.py:13-15 | two downloads collide on a file name only for the same program in the same minute |
| Scraper.PathJoin | Backend/app/services/scraper.py:42 | `os.path.join` ends with the file name; an absolute second part replaces the first; otherwise the result starts with the directory and inserts one separator when needed |
| Scraper.Reraise | Backend/app/services/scraper.py:55-59 | a ScraperError passes unchanged; anything else becomes a ScraperError prefixed `Error inesperado en scrape: ` |
| Scraper.Scrape | Backend/app/services/scraper.py:17-59 | a failing `ensure_raw_dir` propagates unwrapped, even for local sources; otherwise the result is skipped iff the source is `local`; a download records exactly the joined output path; an unknown source has the factory's message; for youtube and stream, success iff the tool exits with code 0, and a failing strategy's ScraperError reaches the caller unchanged; all other errors are ScraperErrors |
| Scraper.LocalIgnoresRunner | Backend/app/services/scraper.py:28-34 | a local program is skipped without a file path, whatever the process runner would do |
| Crud.FirstWithUrl | Backend/app/db/crud.py:4-6 | `.first()` after the filter: a row with that url with no earlier one; none iff no row has the url |
| Crud.NextId | Backend/app/db/crud.py:16-18 | the id a new row receives is positive and larger than every id present |
| Crud.Catalog.constructor | Backend/app/db/models.py:5-14 | an empty table satisfies the unique-url and primary-key constraints |
| Crud.Catalog.GetEpisodeByUrl | Backend/app/db/crud.py:4-6 | since urls are unique, the row found is the one row with that url; none iff no row has it |
| Crud.Catalog.CreateEpisode | Backend/app/db/crud.py:8-19 | a new url appends exactly one row, with the next id, `station_name` set to the source and no duration, and looking the url up afterwards finds it; a url already present fails with the unique-constraint error and leaves the table unchanged; the constraints hold afterwards |
| Api.ErrorReply | Backend/app/main.py:63-67 | a ScraperError becomes 400 with its own message; anything else becomes 500 with `Error interno del servidor: ` in front |
| Api.RunScraper | Backend/app/main.py:20-67 | a catalogued url answers "skipped" with the stored id, title and path and changes nothing; otherwise a download adds one row titled with the program id for the file path `scrape` reported, a skipped scrape adds nothing, and a failure maps through the 400/500 rule with the table unchanged |
| Api.ScrapeTwice | Backend/app/main.py:26-38 | after a download, scraping the same url again is answered from the catalog and the table grew by exactly one row; an answer from the catalog repeats identically |
| ElSitioCristiano.Canonicalize | Backend/app/services/scrapers/elsitiocristiano.py:28-29 | the result ends in `/listen/` or `/listen`; such a URL is kept unchanged; any other URL has its trailing slashes removed and `/listen/` appended |
| ElSitioCristiano.CanonicalizeIdempotent | Backend/app/services/scrapers/elsitiocristiano.py:28-29 | canonicalising twice is the same as once |
| ElSitioCristiano.StrictImpliesLoose | Backend/app/services/scrapers/elsitiocristiano.py:39-43 | every href the strict pattern finds, the loose fallback pattern finds too |
| ElSitioCristiano.StrictHrefCorrect | Backend/app/services/scrapers/elsitiocristiano.py:39 | the strict matcher accepts an href iff `/listen/[^/]+-\d+\.html$` matches somewhere in it |
| ElSitioCristiano.LooseHrefCorrect | Backend/app/services/scrapers/elsitiocristiano.py:43 | the loose matcher accepts an href iff `/listen/[^/]+\.html$` matches somewhere in it |
| ElSitioCristiano.StrictHrefIsLoose | Backend/app/services/scrapers/elsitiocristiano.py:39-43 | the two matchers are nested: the strict one implies the loose one |
| ElSitioCristiano.FindAll | Backend/app/services/scrapers/elsitiocristiano.py:39 | `find_all` keeps exactly the anchors that match, and the first one kept is the first matching anchor in the document |
| ElSitioCristiano.FirstEpisode | Backend/app/services/scrapers/elsitiocristiano.py:39-49 | no episode iff no anchor matches even the loose pattern; the first strict match when there is one, otherwise the first loose match |
| ElSitioCristiano.EpisodeUrl | Backend/app/services/scrapers/elsitiocristiano.py:52-54 | the URL starts with `http` and ends with the href; it equals the href iff the href starts with `http`, otherwise it is the site root followed by the href |
| ElSitioCristiano.MonthEndSound | Backend/app/services/scrapers/elsitiocristiano.py:63 | what the month alternation finds is one of the twelve month names, matched case-insensitively at that position |
| ElSitioCristiano.MonthEndComplete | Backend/app/services/scrapers/elsitiocristiano.py:63 | a month name present at a position is not missed by the alternation |
| ElSitioCristiano.MonthsExclusive | Backend/app/services/scrapers/elsitiocristiano.py:63 | no two month names match at the same position, so the order of the alternation does not matter |
| ElSitioCristiano.DateAtCorrect | Backend/app/services/scrapers/elsitiocristiano.py:63 | the date matcher ends at `e` from `i` iff `month\s+\d{1,2},\s+\d{4}` matches exactly `s[i..e]` |
| ElSitioCristiano.RemoveDatesIdentity | Backend/app/services/scrapers/elsitiocristiano.py:64 | `re.sub` of the date pattern changes the title iff the title contains a date |
| ElSitioCristiano.CleanTitle | Backend/app/services/scrapers/elsitiocristiano.py:57-64 | the cleaned title is no longer than the link text and has no whitespace at either end |
| ElSitioCristiano.SubCopies | Backend/app/services/scrapers/elsitiocristiano.py:64 | a stretch of the title where the date pattern matches nowhere is copied through `re.sub` unchanged |
| ElSitioCristiano.TrailingDateRemoved | Backend/app/services/scrapers/elsitiocristiano.py:64 | a title made of date-free text followed by one date loses exactly that date |
| ElSitioCristiano.CleanTitleTrailingDate | Backend/app/services/scrapers/elsitiocristiano.py:58-64 | such a title cleans to its date-free text, stripped |
| ElSitioCristiano.CleanTitleWithoutDate | Backend/app/services/scrapers/elsitiocristiano.py:64 | a title without a date is only stripped |
| ElSitioCristiano.FileUrlAtCorrect | Backend/app/services/scrapers/elsitiocristiano.py:75 | the fileUrl matcher yields `u` at `i` iff `fileUrl:\s*['"]([^'"]+)['"]` matches there with group 1 equal to `u` |
| ElSitioCristiano.FindFileUrl | Backend/app/services/scrapers/elsitiocristiano.py:75-81 | a found address is non-empty and contains no quote |
| ElSitioCristiano.FindFileUrlLeftmost | Backend/app/services/scrapers/elsitiocristiano.py:76-79 | `re.search` returns the group of the leftmost match and fails iff the pattern matches at no position |
| ElSitioCristiano.ConcatNonEmpty | Backend/app/services/scrapers/elsitiocristiano.py:96-98 | skipping empty chunks loses no bytes |
| ElSitioCristiano.WriteChunks | Backend/app/services/scrapers/elsitiocristiano.py:95-99 | the loop writes the non-empty chunks in order and `downloaded` counts the bytes written; it fails iff the failing write is one the loop reaches, and then exactly the chunks before it have been written; otherwise the file holds every byte of the body |
| ElSitioCristiano.Wrap | Backend/app/services/scrapers/elsitiocristiano.py:114-117 | always a ScraperError; it carries the HTTP prefix iff the error was a request error, and the other prefix otherwise |
| ElSitioCristiano.FindEpisode | Backend/app/services/scrapers/elsitiocristiano.py:33-57 | an absolute episode URL on success; a request error iff the listing request failed; for a listing page, success iff it has an episode link, and then the result is the absolute URL and cleaned text of the first one; otherwise the failure is "no episodes" |
| ElSitioCristiano.FindMediaUrl | Backend/app/services/scrapers/elsitiocristiano.py:71-81 | succeeds iff the episode page loads and contains a fileUrl, and then returns the address `re.search` finds in that page, non-empty and quote-free; a request error iff the page request failed; otherwise "MP3 URL not found" |
| ElSitioCristiano.MediaOutcomeProperties | Backend/app/services/scrapers/elsitiocristiano.py:87-117 | the MP3 step succeeds iff the request succeeds, Content-Length is numeric or absent, the file opens, every write goes through and the stream completes; on success it returns the title; any file left holds a prefix of the body, all of it unless a write failed; a failed write leaves the chunks written before it and gives the non-HTTP prefix in front of the OSError |
| ElSitioCristiano.DownloadErrors | Backend/app/services/scrapers/elsitiocristiano.py:26-117 | every failure is a ScraperError under one of the two prefixes; a failure before the MP3 request leaves no file |
| ElSitioCristiano.DownloadSuccess | Backend/app/services/scrapers/elsitiocristiano.py:87-112 | the download succeeds iff both pages yield what is looked for and the MP3 step succeeds; it returns the cleaned title of the first episode; any file left holds a prefix of the body, and all of it when no write failed |
| ElSitioCristiano.ListingErrors | Backend/app/services/scrapers/elsitiocristiano.py:33-46 | a failed listing request gives the HTTP-prefixed message; a listing with no episode links gives the other prefix in front of "no episodes" |
| ElSitioCristiano.Download | Backend/app/services/scrapers/elsitiocristiano.py:17-117 | the step-by-step download, chunk loop included, yields exactly the result and file contents stated above |
| Logs.PrevSkip | Frontend/src/pages/logs/Logs.jsx:87-89 | never negative, never past the current offset; 0 iff within one page of the start; otherwise exactly one page back |
| Logs.NextSkip | Frontend/src/pages/logs/Logs.jsx:91-93 | stays put or advances exactly one page, and advances only to an offset below the total |
| Logs.NextDisabled | Frontend/src/pages/logs/Logs.jsx:174 | "Siguiente" has no effect iff its button is disabled (`skip + limit >= total`) |
| Logs.PrevDisabled | Frontend/src/pages/logs/Logs.jsx:173 | "Anterior" has no effect iff its button is disabled (`skip === 0`) |
| Logs.NextThenPrev | Frontend/src/pages/logs/Logs.jsx:87-93 | next then previous returns to the same page |
| Logs.PrevThenNext | Frontend/src/pages/logs/Logs.jsx:87-93 | previous then next returns to any page that exists past the first |
| Logs.MovesKeepAlignment | Frontend/src/pages/logs/Logs.jsx:87-93 | both moves keep the offset a non-negative multiple of 10 |
| Logs.SuggestionText | Frontend/src/pages/logs/Logs.jsx:66 | the text is trimmed at both ends; it is the trimmed message when the message is truthy, the trimmed source when only the source is, and empty when both are falsy |
| Logs.Dedup | Frontend/src/pages/logs/Logs.jsx:64-68 | a text is suggested iff it is non-empty and occurs among the texts, and no text appears twice |
| Logs.DedupOrder | Frontend/src/pages/logs/Logs.jsx:64-68 | suggestions keep the order in which their texts first occur |
| Logs.CollectTexts | Frontend/src/pages/logs/Logs.jsx:64-68 | the `forEach` builds exactly the de-duplicated list of the items' texts |
| Logs.Suggestions | Frontend/src/pages/logs/Logs.jsx:69 | at most six, a prefix of the de-duplicated list, and the whole list when it has fewer than six |
| Logs.SuggestionsWellFormed | Frontend/src/pages/logs/Logs.jsx:64-69 | every suggestion is the non-empty text of some item, and no two suggestions are equal |
| Logs.Utf16Length | Frontend/src/pages/logs/Logs.jsx:51 | the JavaScript length lies between the number of code points and twice that number |
| Logs.TooShortExamples | Frontend/src/pages/logs/Logs.jsx:51 | one BMP character is too short, two are not, and one astral character counts as two code units and is not too short |
| Logs.LogsView.constructor | Frontend/src/pages/logs/Logs.jsx:8-18 | the page starts at offset 0 with total 0 and no suggestions shown |
| Logs.LogsView.PrevPage | Frontend/src/pages/logs/Logs.jsx:87-89 | the offset becomes the previous page's and stays aligned; since offsets are aligned, an enabled "Anterior" goes back exactly one page; nothing else changes |
| Logs.LogsView.NextPage | Frontend/src/pages/logs/Logs.jsx:91-93 | the offset becomes the next page's and stays aligned, and it moves only to an offset below the total; nothing else changes |
| Logs.LogsView.SetTotal | Frontend/src/pages/logs/Logs.jsx:40 | the total is the reported one, or 0 when none was reported; nothing else changes |
| Logs.LogsView.QueryChanged | Frontend/src/pages/logs/Logs.jsx:49-74 | a query that is empty or shorter than 2 clears the suggestions; a parsed reply sets the first six de-duplicated texts and shows them; a non-ok reply or a thrown error changes nothing |

## Left out

- Process: `subprocess.run` is not executed. A `Process.Runner` parameter supplies its outcome, and the tools' own behaviour is outside the model.
- Network and HTML parsing: `requests.get` and BeautifulSoup are not modelled. The web is a parameter that gives each URL either a request error or a page. A page carries its text, its `<a>` elements in document order (href and stripped text), its Content-Length and its body chunks.
- File system:
  - `os.path.exists` and `os.makedirs` are a single optional error;
  - `open` is an optional error;
  - a failing `f.write` is an optional error naming which call fails; a call that writes only part of its chunk before failing is not modelled;
  - the written file is returned as its contents;
  - `os.path.abspath("data/raw")` is the `rawDir` parameter.
- Console output: the `print` calls and the 1 MB progress lines are left out, so the Content-Length value is only checked for being numeric.
- `\d` is taken as ASCII digits only. Python's `\d` also accepts other Unicode decimal digits.
- `re.IGNORECASE` folding covers:
  - ASCII letters;
  - dotted and dotless i;
  - the long s;
  - the Kelvin sign, which matches no month letter.

  Other case pairs are not modelled, because no month name contains them.
- StreamScraper.DurationMinutes: only integer durations are modelled. A float or string value of `duration_minutes` is not.
- The debounce timer and the cleanup of the suggestion request are left out. `Logs.LogsView.QueryChanged` takes the reply the last request receives, as if the timer had fired.
- Logs page rendering, the list fetch, the level and text filters, the detail modal and `onSearch` are left out. Only the paging state, the total and the suggestion box are modelled.
- Logs.Utf16Length: strings are sequences of Unicode code points, so lone surrogates cannot be expressed.
- `created_at` (the database's server timestamp) and the session/commit machinery are not part of this model. The catalog is a sequence of rows in insertion order.
- The server-side logs API (`Backend/app/api/logs.py`) and `schedule_time` are not part of this model.
- Api.RunScraper: a duplicate-url error from `create_episode` cannot arise after the lookup in a single-threaded run. Concurrent requests are not modelled.
- Crud.Catalog.CreateEpisode: the duplicate-url error carries only SQLite's message. `str(IntegrityError)` also holds the `(sqlite3.IntegrityError)` tag, the SQL statement and its parameters, so the 500 detail the model gives is an abbreviation of the real one.
