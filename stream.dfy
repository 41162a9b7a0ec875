/** The live-stream strategy (StreamScraper): one `ffmpeg` run capturing
    `duration_minutes` of audio as MP3. */
module StreamScraper {
  import opened Wrappers
  import opened Text
  import opened Process

  /** The arguments ffmpeg reads a value after (among those used here). */
  const Valued: set<string> := {"-i", "-t", "-acodec"}

  const DefaultDurationMinutes := 60
  const ErrorPrefix := "Error executing ffmpeg: "
  const FailedPrefix := "Stream capture failed: "

  /** `kwargs.get("duration_minutes", 60)`. */
  function DurationMinutes(durationMinutes: Option<int>): (m: int)
    ensures durationMinutes.None? ==> m == DefaultDurationMinutes
    ensures durationMinutes.Some? ==> m == durationMinutes.value
  {
    match durationMinutes
    case Some(d) => d
    case None => DefaultDurationMinutes
  }

  function Command(url: string, outputPath: string, durationMinutes: Option<int>): (argv: seq<string>)
    ensures |argv| == 10 && argv[0] == "ffmpeg"
    ensures argv[2] == "-i" && argv[3] == url
    ensures argv[4] == "-t" && ParseInt(argv[5]) == Some(DurationMinutes(durationMinutes) * 60)
    ensures argv[|argv| - 1] == outputPath
  {
    var seconds := DurationMinutes(durationMinutes) * 60;
    IntToStringRoundTrip(seconds);
    ["ffmpeg", "-y", "-i", url, "-t", IntToString(seconds), "-vn", "-acodec", "libmp3lame", outputPath]
  }

  /** With no duration given, the capture is 3600 seconds. */
  lemma DefaultCapture(url: string, outputPath: string)
    ensures Command(url, outputPath, None)[5] == "3600"
  {
    assert Digits(3600) == Digits(360) + ['0'];
    assert Digits(360) == Digits(36) + ['0'];
    assert Digits(36) == Digits(3) + ['6'];
  }

  /** ffmpeg reads the command as: overwrite, input `url`, stop after the
      given seconds, no video, MP3 encoder, output `outputPath`. */
  lemma CommandReads(url: string, outputPath: string, durationMinutes: Option<int>)
    requires !StartsWith(outputPath, "-")
    ensures ReadArgs(Command(url, outputPath, durationMinutes)[1..], Valued)
         == CommandLine(["-y", "-vn"],
                        [("-i", url), ("-t", IntToString(DurationMinutes(durationMinutes) * 60)), ("-acodec", "libmp3lame")],
                        [outputPath])
  {
    var args := Command(url, outputPath, durationMinutes)[1..];
    var secs := IntToString(DurationMinutes(durationMinutes) * 60);
    var a1, a2, a3, a4 := args[1..], args[1..][2..], args[1..][2..][2..], args[1..][2..][2..][1..];
    assert a4[2..] == [outputPath];
    assert ReadArgs(a4[2..], Valued) == CommandLine([], [], [outputPath]);
    assert ReadArgs(a4, Valued) == CommandLine([], [("-acodec", "libmp3lame")], [outputPath]);
    assert ReadArgs(a3, Valued) == CommandLine(["-vn"], [("-acodec", "libmp3lame")], [outputPath]);
    assert ReadArgs(a2, Valued) == CommandLine(["-vn"], [("-t", secs), ("-acodec", "libmp3lame")], [outputPath]);
    assert ReadArgs(a1, Valued) == CommandLine(["-vn"], [("-i", url), ("-t", secs), ("-acodec", "libmp3lame")], [outputPath]);
  }

  /** `download(url, output_path, **kwargs)`, with the same double wrapping
      of the non-zero-exit error as the video strategy. */
  function Download(url: string, outputPath: string, durationMinutes: Option<int>, run: Runner): (r: Result<(), Exception>)
    ensures var p := run(Command(url, outputPath, durationMinutes));
            r.Ok? <==> p.Completed? && p.returncode == 0
    ensures r.Err? ==> r.error.ScraperError? && StartsWith(r.error.message, ErrorPrefix)
    ensures var p := run(Command(url, outputPath, durationMinutes));
            p.Completed? && p.returncode != 0 ==> r == Err(ScraperError(ErrorPrefix + FailedPrefix + p.stderr))
    ensures var p := run(Command(url, outputPath, durationMinutes));
            p.Raised? ==> r == Err(ScraperError(ErrorPrefix + p.message))
  {
    var attempt: Result<(), Exception> :=
      match run(Command(url, outputPath, durationMinutes))
      case Raised(m) => Err(OtherError(m))
      case Completed(code, stderr) =>
        if code != 0 then Err(ScraperError(FailedPrefix + stderr)) else Ok(());
    match attempt
    case Ok(_) => Ok(())
    case Err(e) =>
      assert e.ScraperError? ==> ErrorPrefix + e.message == ErrorPrefix + FailedPrefix + e.message[|FailedPrefix|..];
      Err(ScraperError(ErrorPrefix + e.message))
  }
}
