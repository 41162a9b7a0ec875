/** The strategy selector (ScraperFactory): a closed table from source
    kind to strategy. Only "youtube" and "stream" are registered; the
    page-scrape strategy exists but is not reachable from here. */
module ScraperFactory {
  import opened Wrappers
  import opened Process
  import YoutubeScraper
  import StreamScraper

  datatype Strategy = Youtube | Stream

  const UnsupportedPrefix := "Fuente no soportada: "

  function GetScraper(source: string): (r: Result<Strategy, Exception>)
    ensures r == Ok(Youtube) <==> source == "youtube"
    ensures r == Ok(Stream) <==> source == "stream"
    ensures r.Err? <==> source != "youtube" && source != "stream"
    ensures r.Err? ==> r.error == ScraperError(UnsupportedPrefix + source)
  {
    if source == "youtube" then Ok(Youtube)
    else if source == "stream" then Ok(Stream)
    else Err(ScraperError(UnsupportedPrefix + source))
  }

  /** The uniform `download(url, output_path, **kwargs)` entry point of the
      selected strategy; `durationMinutes` is the only keyword argument any
      strategy reads. */
  function Download(s: Strategy, url: string, outputPath: string, durationMinutes: Option<int>, run: Runner): (r: Result<(), Exception>)
    ensures r.Err? ==> r.error.ScraperError?
  {
    match s
    case Youtube => YoutubeScraper.Download(url, outputPath, run)
    case Stream => StreamScraper.Download(url, outputPath, durationMinutes, run)
  }
}
