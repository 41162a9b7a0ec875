/** The `POST /scrape` endpoint (app.main.run_scraper): skip when the url is
    already catalogued, otherwise scrape and catalogue a download. */
module Api {
  import opened Wrappers
  import opened Process
  import opened Scraper
  import opened Crud

  const AlreadyDownloaded := "El episodio ya fue descargado anteriormente"
  const InternalPrefix := "Error interno del servidor: "

  /** What the endpoint answers. */
  datatype Reply =
    | AlreadyStored(message: string, id: nat, title: string, filePath: string)  // {"status": "skipped", ...}
    | Success(data: ScrapeResult)                                                 // {"status": "success", "data": result}
    | HttpError(statusCode: int, detail: string)                                  // HTTPException(status_code, detail)

  /** The two `except` clauses: a ScraperError is a client error, anything
      else a server error. */
  function ErrorReply(e: Exception): (r: Reply)
    ensures r.HttpError?
    ensures e.ScraperError? ==> r == HttpError(400, e.message)
    ensures !e.ScraperError? ==> r == HttpError(500, InternalPrefix + e.message)
  {
    if e.ScraperError? then HttpError(400, e.message) else HttpError(500, InternalPrefix + e.message)
  }

  method RunScraper(db: Catalog, program: Program, rawDir: string, now: Clock, makeDirsError: Option<string>, run: Runner)
    returns (reply: Reply)
    requires db.Valid() && ValidClock(now)
    modifies db
    ensures db.Valid()
    ensures old(db.GetEpisodeByUrl(program.url)).Some? ==>
              var e := old(db.GetEpisodeByUrl(program.url)).value;
              reply == AlreadyStored(AlreadyDownloaded, e.id, e.title, e.filePath) && db.episodes == old(db.episodes)
    ensures old(db.GetEpisodeByUrl(program.url)).None? ==>
              var s := Scrape(program, rawDir, now, makeDirsError, run);
              && (s.Ok? && s.value.status == Downloaded ==>
                    && reply == Success(s.value)
                    && db.episodes == old(db.episodes)
                         + [Episode(NextId(old(db.episodes)), program.id, program.source, None, program.url, s.value.filePath.value)])
              && (s.Ok? && s.value.status == Skipped ==> reply == Success(s.value) && db.episodes == old(db.episodes))
              && (s.Err? ==> reply == ErrorReply(s.error) && db.episodes == old(db.episodes))
  {
    var existing := db.GetEpisodeByUrl(program.url);
    if existing.Some? {
      var e := existing.value;
      reply := AlreadyStored(AlreadyDownloaded, e.id, e.title, e.filePath);
      return;
    }
    // The `try` block: its outcome is the result or the exception it raised.
    var outcome := Scrape(program, rawDir, now, makeDirsError, run);
    if outcome.Ok? && outcome.value.status == Downloaded {
      var created := db.CreateEpisode(program.id, program.url, program.source, outcome.value.filePath.value);
      match created
      case Err(e) => outcome := Err(e);
      case Ok(_) =>
    }
    match outcome
    case Ok(result) => reply := Success(result);
    case Err(e) => reply := ErrorReply(e);
  }

  /** Scraping the same url twice: after a download the second call answers
      from the catalog and adds nothing; a call answered from the catalog
      is answered the same way again. */
  method ScrapeTwice(db: Catalog, program: Program, rawDir: string,
                     now1: Clock, makeDirsError1: Option<string>, run1: Runner,
                     now2: Clock, makeDirsError2: Option<string>, run2: Runner)
    returns (first: Reply, second: Reply)
    requires db.Valid() && ValidClock(now1) && ValidClock(now2)
    modifies db
    ensures db.Valid()
    ensures first.Success? && first.data.status == Downloaded ==>
              second.AlreadyStored? && |db.episodes| == old(|db.episodes|) + 1
    ensures first.AlreadyStored? ==> second == first && db.episodes == old(db.episodes)
  {
    first := RunScraper(db, program, rawDir, now1, makeDirsError1, run1);
    ghost var afterFirst := db.episodes;
    if first.Success? && first.data.status == Downloaded {
      assert afterFirst[|afterFirst| - 1].url == program.url;
    }
    second := RunScraper(db, program, rawDir, now2, makeDirsError2, run2);
  }
}
