/** The video-platform strategy (YoutubeScraper): one `yt-dlp` run that
    extracts 192K MP3 audio to the given path. */
module YoutubeScraper {
  import opened Wrappers
  import opened Text
  import opened Process

  /** The arguments yt-dlp reads a value after. */
  const Valued: set<string> := {"--audio-format", "--audio-quality", "-o"}

  const ErrorPrefix := "Error executing yt-dlp: "
  const FailedPrefix := "YouTube download failed: "

  function Command(url: string, outputPath: string): (argv: seq<string>)
    ensures |argv| == 9 && argv[0] == "yt-dlp"
    ensures argv[6] == "-o" && argv[7] == outputPath
    ensures argv[|argv| - 1] == url
  {
    ["yt-dlp", "-x", "--audio-format", "mp3", "--audio-quality", "192K", "-o", outputPath, url]
  }

  /** yt-dlp reads the command as: extract audio, MP3 at 192K, written to
      `outputPath`, for the single positional `url`. A url starting with '-'
      would itself be read as an option, since no "--" separates it. */
  lemma CommandReads(url: string, outputPath: string)
    requires !StartsWith(url, "-")
    ensures ReadArgs(Command(url, outputPath)[1..], Valued)
         == CommandLine(["-x"], [("--audio-format", "mp3"), ("--audio-quality", "192K"), ("-o", outputPath)], [url])
  {
    var args := Command(url, outputPath)[1..];
    assert args[1..][2..][2..][2..] == [url];
    assert ReadArgs(args[1..][2..][2..][2..], Valued) == CommandLine([], [], [url]);
    assert ReadArgs(args[1..][2..][2..], Valued) == CommandLine([], [("-o", outputPath)], [url]);
    assert ReadArgs(args[1..][2..], Valued) == CommandLine([], [("--audio-quality", "192K"), ("-o", outputPath)], [url]);
    assert ReadArgs(args[1..], Valued)
        == CommandLine([], [("--audio-format", "mp3"), ("--audio-quality", "192K"), ("-o", outputPath)], [url]);
  }

  /** `download(url, output_path)`: the inner `raise` on a non-zero exit code
      is caught by the surrounding `except Exception` and wrapped again, as is
      any exception `subprocess.run` itself raises. */
  function Download(url: string, outputPath: string, run: Runner): (r: Result<(), Exception>)
    ensures r.Ok? <==> run(Command(url, outputPath)).Completed? && run(Command(url, outputPath)).returncode == 0
    ensures r.Err? ==> r.error.ScraperError? && StartsWith(r.error.message, ErrorPrefix)
    ensures run(Command(url, outputPath)).Completed? && run(Command(url, outputPath)).returncode != 0 ==>
              r == Err(ScraperError(ErrorPrefix + FailedPrefix + run(Command(url, outputPath)).stderr))
    ensures run(Command(url, outputPath)).Raised? ==>
              r == Err(ScraperError(ErrorPrefix + run(Command(url, outputPath)).message))
  {
    var attempt: Result<(), Exception> :=
      match run(Command(url, outputPath))
      case Raised(m) => Err(OtherError(m))
      case Completed(code, stderr) =>
        if code != 0 then Err(ScraperError(FailedPrefix + stderr)) else Ok(());
    match attempt
    case Ok(_) => Ok(())
    case Err(e) =>
      assert e.ScraperError? ==> ErrorPrefix + e.message == ErrorPrefix + FailedPrefix + e.message[|FailedPrefix|..];
      Err(ScraperError(ErrorPrefix + e.message))
  }
}
