/** The acquisition orchestrator (app.services.scraper): the timestamped
    file name, the destination path under RAW_DIR, and `scrape`, which skips
    local sources, dispatches through the factory and reports the outcome. */
module Scraper {
  import opened Wrappers
  import opened Text
  import opened Process
  import ScraperFactory
  import YoutubeScraper
  import StreamScraper

  /** The wall-clock reading `datetime.now()` supplies. Years below 1000 are
      excluded because `%Y` is then platform-dependent. */
  datatype Clock = Clock(year: int, month: int, day: int, hour: int, minute: int)

  predicate ValidClock(c: Clock) {
    && 1000 <= c.year <= 9999
    && 1 <= c.month <= 12
    && 1 <= c.day <= 31
    && 0 <= c.hour <= 23
    && 0 <= c.minute <= 59
  }

  lemma Pow10Values()
    ensures Pow10(2) == 100 && Pow10(4) == 10000
  {
    assert Pow10(1) == 10;
    assert Pow10(3) == 1000;
  }

  /** `strftime("%Y%m%d_%H%M")`. */
  function Timestamp(c: Clock): (t: string)
    requires ValidClock(c)
    ensures |t| == 13 && t[8] == '_'
    ensures AllDigits(t[..8]) && AllDigits(t[9..])
  {
    Pow10Values();
    FixedDigits(c.year, 4) + FixedDigits(c.month, 2) + FixedDigits(c.day, 2)
      + "_" + FixedDigits(c.hour, 2) + FixedDigits(c.minute, 2)
  }

  /** Reads a `%Y%m%d_%H%M` stamp back. */
  function ParseTimestamp(t: string): Option<Clock> {
    if |t| == 13 && t[8] == '_' && AllDigits(t[..8]) && AllDigits(t[9..]) then
      Some(Clock(ParseNat(t[0..4]), ParseNat(t[4..6]), ParseNat(t[6..8]), ParseNat(t[9..11]), ParseNat(t[11..13])))
    else None
  }

  lemma TimestampRoundTrip(c: Clock)
    requires ValidClock(c)
    ensures ParseTimestamp(Timestamp(c)) == Some(c)
  {
    Pow10Values();
    var y, mo, d := FixedDigits(c.year, 4), FixedDigits(c.month, 2), FixedDigits(c.day, 2);
    var h, mi := FixedDigits(c.hour, 2), FixedDigits(c.minute, 2);
    var t := Timestamp(c);
    assert t == y + mo + d + "_" + h + mi;
    assert t[0..4] == y && t[4..6] == mo && t[6..8] == d && t[9..11] == h && t[11..13] == mi;
    ParseFixedDigits(c.year, 4);
    ParseFixedDigits(c.month, 2);
    ParseFixedDigits(c.day, 2);
    ParseFixedDigits(c.hour, 2);
    ParseFixedDigits(c.minute, 2);
  }

  /** `generate_filename(program_id)`: `<id>_<YYYYmmdd>_<HHMM>.mp3`. */
  function GenerateFilename(programId: string, now: Clock): (name: string)
    requires ValidClock(now)
    ensures |name| == |programId| + 18
    ensures StartsWith(name, programId + "_") && EndsWith(name, ".mp3")
  {
    programId + "_" + Timestamp(now) + ".mp3"
  }

  /** Splits a generated file name back into the program id and the clock. */
  function ParseFilename(name: string): Option<(string, Clock)> {
    if |name| >= 18 && EndsWith(name, ".mp3") && name[|name| - 18] == '_' then
      match ParseTimestamp(name[|name| - 17..|name| - 4])
      case Some(c) => Some((name[..|name| - 18], c))
      case None => None
    else None
  }

  lemma {:induction false} FilenameRoundTrip(programId: string, now: Clock)
    requires ValidClock(now)
    ensures ParseFilename(GenerateFilename(programId, now)) == Some((programId, now))
  {
    var name := GenerateFilename(programId, now);
    assert name[|name| - 17..|name| - 4] == Timestamp(now);
    assert name[..|name| - 18] == programId;
    TimestampRoundTrip(now);
  }

  /** Two downloads get the same file name only for the same program in the
      same minute. */
  lemma FilenameInjective(id1: string, c1: Clock, id2: string, c2: Clock)
    requires ValidClock(c1) && ValidClock(c2)
    requires GenerateFilename(id1, c1) == GenerateFilename(id2, c2)
    ensures id1 == id2 && c1 == c2
  {
    FilenameRoundTrip(id1, c1);
    FilenameRoundTrip(id2, c2);
  }

  /** `os.path.join(a, b)` for two components. */
  function PathJoin(a: string, b: string): (r: string)
    ensures EndsWith(r, b)
    ensures StartsWith(b, "/") ==> r == b
    ensures !StartsWith(b, "/") ==> StartsWith(r, a)
    ensures !StartsWith(b, "/") && a != "" && !EndsWith(a, "/") ==> r == a + "/" + b
  {
    if StartsWith(b, "/") then b
    else if a == "" || EndsWith(a, "/") then a + b
    else a + "/" + b
  }

  /** Where `scrape` writes: RAW_DIR joined with the generated file name. */
  function OutputPath(rawDir: string, programId: string, now: Clock): string
    requires ValidClock(now)
  {
    PathJoin(rawDir, GenerateFilename(programId, now))
  }

  /** The request body (app.api.models.Program). */
  datatype Program = Program(id: string, source: string, url: string, scheduleTime: Option<string>)

  datatype Status = Skipped | Downloaded

  /** The dictionary `scrape` returns. */
  datatype ScrapeResult = ScrapeResult(programId: string, source: string, filePath: Option<string>, status: Status)

  const UnexpectedPrefix := "Error inesperado en scrape: "

  /** The two `except` clauses of `scrape`: a ScraperError is re-raised as it
      is, anything else becomes a ScraperError with a prefix. */
  function Reraise(e: Exception): (r: Exception)
    ensures r.ScraperError?
    ensures e.ScraperError? ==> r == e
    ensures !e.ScraperError? ==> r.message == UnexpectedPrefix + e.message
  {
    if e.ScraperError? then e else ScraperError(UnexpectedPrefix + e.message)
  }

  /** `scrape(program)`. `makeDirsError` is the OSError `ensure_raw_dir`
      raises, if any; it happens before the `try`, so it escapes unwrapped,
      and before the local check, so it affects local sources too. */
  function Scrape(program: Program, rawDir: string, now: Clock, makeDirsError: Option<string>, run: Runner)
    : (r: Result<ScrapeResult, Exception>)
    requires ValidClock(now)
    ensures r.Ok? ==> r.value.programId == program.id && r.value.source == program.source
    ensures r.Ok? ==> (r.value.filePath.None? <==> r.value.status == Skipped)
    ensures (r.Ok? && r.value.status == Skipped) <==> (makeDirsError.None? && program.source == "local")
    ensures r.Ok? && r.value.status == Downloaded ==> r.value.filePath == Some(OutputPath(rawDir, program.id, now))
    ensures makeDirsError.Some? ==> r == Err(OtherError(makeDirsError.value))
    ensures makeDirsError.None? && r.Err? ==> r.error.ScraperError?
    ensures makeDirsError.None? && program.source !in {"local", "youtube", "stream"} ==>
              r == Err(ScraperError(ScraperFactory.UnsupportedPrefix + program.source))
    ensures makeDirsError.None? && program.source == "youtube" ==>
              var p := run(YoutubeScraper.Command(program.url, OutputPath(rawDir, program.id, now)));
              (r.Ok? <==> p.Completed? && p.returncode == 0)
    ensures makeDirsError.None? && program.source == "youtube" && r.Err? ==>
              var d := YoutubeScraper.Download(program.url, OutputPath(rawDir, program.id, now), run);
              d.Err? && r.error == d.error
    ensures makeDirsError.None? && program.source == "stream" && r.Err? ==>
              var d := StreamScraper.Download(program.url, OutputPath(rawDir, program.id, now), None, run);
              d.Err? && r.error == d.error
    ensures makeDirsError.None? && program.source == "stream" ==>
              var p := run(StreamScraper.Command(program.url, OutputPath(rawDir, program.id, now), None));
              (r.Ok? <==> p.Completed? && p.returncode == 0)
  {
    if makeDirsError.Some? then Err(OtherError(makeDirsError.value))
    else if program.source == "local" then
      Ok(ScrapeResult(program.id, program.source, None, Skipped))
    else
      match ScraperFactory.GetScraper(program.source)
      case Err(e) => Err(Reraise(e))
      case Ok(strategy) =>
        var outputPath := OutputPath(rawDir, program.id, now);
        match ScraperFactory.Download(strategy, program.url, outputPath, None, run)
        case Err(e) => Err(Reraise(e))
        case Ok(_) => Ok(ScrapeResult(program.id, program.source, Some(outputPath), Downloaded))
  }

  /** A local source never reaches the factory or a downloader: the outcome
      does not depend on what the process runner would do. */
  lemma LocalIgnoresRunner(program: Program, rawDir: string, now: Clock, run1: Runner, run2: Runner)
    requires ValidClock(now) && program.source == "local"
    ensures Scrape(program, rawDir, now, None, run1) == Scrape(program, rawDir, now, None, run2)
    ensures Scrape(program, rawDir, now, None, run1) == Ok(ScrapeResult(program.id, "local", None, Skipped))
  {
  }
}
