/**
  * The camera gateway's two endpoints: `GET /` reports liveness and whether the
  * `libcamera-jpeg` utility is installed; `/capture` validates an optional `shutter`
  * parameter, runs `libcamera-jpeg` into a fresh temporary `.jpg` file, answers with
  * the picture or a JSON error, and removes the temporary file on the way out.
  *
  * The external process, the clock and the filesystem's failures are parameters:
  * the process outcome is an `Outcome` value, the clock a `real`, and whether the
  * final removal of the temporary file fails a `bool`.
  */
module App {
  import opened Wrappers
  import opened Decimal

  const Utility := "libcamera-jpeg"
  const JpegQuality := "95"
  const JpegMimetype := "image/jpeg"

  const InvalidShutter := "invalid shutter value"
  const Unavailable := "libcamera-jpeg not available on this system"
  const CaptureFailed := "capture failed"
  const CaptureTimeout := "capture timeout"

  /** How the external capture process ended: exit status zero, a non-zero exit with
    * the text of its error stream, or killed after the 30-second timeout. */
  datatype Outcome = ExitedZero | NonZeroExit(stderr: string) | TimedOut

  /** A response body: `{"error": ...}`, `{"error": ..., "details": ...}`, or the
    * file at `path` sent with the given mimetype. */
  datatype Body =
    | Error(error: string)
    | ErrorWithDetails(error: string, details: string)
    | File(path: string, mimetype: string)

  datatype Response = Response(status: nat, body: Body)

  /** The `shutter` parameter after `int()`: either it was rejected, or it is the
    * optional integer the rest of the request uses. */
  datatype ShutterParse = Invalid | Valid(shutter: Option<int>)

  // ---------------------------------------------------------------------------
  // Status endpoint

  datatype StatusRecord = StatusRecord(status: string, timestamp: int, libcameraJpegAvailable: bool)

  /** Python's `int()` on a float: rounds toward zero. */
  function Truncate(x: real): (r: int)
    ensures 0.0 <= x ==> 0 <= r && r as real <= x < r as real + 1.0
    ensures x < 0.0 ==> r <= 0 && r as real - 1.0 < x <= r as real
  {
    if x >= 0.0 then x.Floor else -((-x).Floor)
  }

  /** `GET /`: status "ok", the current Unix time in whole seconds, and the availability
    * flag; always HTTP 200. `now` is the clock reading `time.time()`. */
  function Home(now: real, available: bool): (r: (StatusRecord, nat))
    ensures r.1 == 200
    ensures r.0.status == "ok" && r.0.libcameraJpegAvailable == available
    ensures 0.0 <= now ==> r.0.timestamp as real <= now < r.0.timestamp as real + 1.0
  {
    (StatusRecord("ok", Truncate(now), available), 200)
  }

  // ---------------------------------------------------------------------------
  // Capture endpoint: the pure parts

  /** `int(shutter) if shutter is not None else None`, with ValueError as Invalid. */
  function ParseShutter(raw: Option<string>): (p: ShutterParse)
    ensures raw.None? ==> p == Valid(None)
    ensures raw.Some? ==> (p.Invalid? <==> ParseInt(raw.value).None?)
    ensures raw.Some? && p.Valid? ==> p.shutter.Some? && ParseInt(raw.value) == p.shutter
  {
    match raw
    case None => Valid(None)
    case Some(text) =>
      match ParseInt(text)
      case None => Invalid
      case Some(v) => Valid(Some(v))
  }

  /** Any integer's text, with whitespace around it, is accepted as that integer. */
  lemma PaddedShutterAccepted(pre: string, n: int, post: string)
    requires forall i :: 0 <= i < |pre| ==> IsSpace(pre[i])
    requires forall i :: 0 <= i < |post| ==> IsSpace(post[i])
    ensures ParseShutter(Some(pre + ShowInt(n) + post)) == Valid(Some(n))
  {
    ParseIntIgnoresPadding(pre, ShowInt(n), post);
    ParseShowInt(n);
  }

  /** A negative `shutter` value is accepted (and later left off the command). */
  lemma NegativeShutterAccepted()
    ensures ParseShutter(Some("-5")) == Valid(Some(-5))
  {
    ParseIntUnpadded("-5");
    assert "-5"[1..] == "5" && "5"[..0] == [];
  }

  /** Words, fractions and the empty string are not integers. */
  lemma MalformedShutterRejected()
    ensures ParseShutter(Some("abc")) == Invalid
    ensures ParseShutter(Some("1.5")) == Invalid
    ensures ParseShutter(Some("")) == Invalid
  {
    ParseIntUnpadded("abc");
    assert !IsDigit("abc"[0]);
    ParseIntUnpadded("1.5");
    assert !IsDigit("1.5"[1]);
  }

  /** The argument list handed to the capture process. The `--shutter` flag is passed
    * only for a present, strictly positive value: zero and negative values are dropped. */
  function Command(filename: string, shutter: Option<int>): (cmd: seq<string>)
    ensures |cmd| == if shutter.Some? && shutter.value > 0 then 8 else 6
    ensures cmd[..4] == [Utility, "-o", filename, "--nopreview"]
    ensures cmd[|cmd| - 2..] == ["--quality", JpegQuality]
    ensures shutter.Some? && shutter.value > 0 ==>
      cmd[4] == "--shutter" && ParseInt(cmd[5]) == Some(shutter.value) && cmd[5] == ShowInt(shutter.value)
  {
    var passes := shutter.Some? && shutter.value > 0;
    var flags := if passes then ["--shutter", ShowInt(shutter.value)] else [];
    assert passes ==> ParseInt(ShowInt(shutter.value)) == Some(shutter.value) by {
      if passes { ParseShowInt(shutter.value); }
    }
    [Utility, "-o", filename, "--nopreview"] + flags + ["--quality", JpegQuality]
  }

  /** The `try`/`except` around the process run: how its outcome becomes the response. */
  function OutcomeResponse(outcome: Outcome, filename: string): (r: Response)
    ensures r.status == 200 <==> outcome.ExitedZero?
    ensures r.status == 200 ==> r.body == File(filename, JpegMimetype)
    ensures r.status == 500 <==> outcome.NonZeroExit?
    ensures outcome.NonZeroExit? ==> r.body == ErrorWithDetails(CaptureFailed, outcome.stderr)
    ensures r.status == 504 <==> outcome.TimedOut?
    ensures r.status == 504 ==> r.body == Error(CaptureTimeout)
  {
    match outcome
    case ExitedZero => Response(200, File(filename, JpegMimetype))
    case NonZeroExit(stderr) => Response(500, ErrorWithDetails(CaptureFailed, stderr))
    case TimedOut => Response(504, Error(CaptureTimeout))
  }

  /** The response `/capture` gives, from the raw `shutter` parameter, the availability
    * flag, the temporary file it allocated (used only once the checks pass) and the
    * way the process ended (used only once the process has run). */
  function CaptureResponse(raw: Option<string>, available: bool, filename: string, outcome: Outcome): (r: Response)
    ensures r.status == 400 <==> ParseShutter(raw).Invalid?
    ensures r.status == 400 ==> r.body == Error(InvalidShutter)
    ensures r.status == 500 <==> ParseShutter(raw).Valid? && (!available || outcome.NonZeroExit?)
    ensures ParseShutter(raw).Valid? && !available ==> r.body == Error(Unavailable)
    ensures ParseShutter(raw).Valid? && available && outcome.NonZeroExit? ==>
      r.body == ErrorWithDetails(CaptureFailed, outcome.stderr)
    ensures r.status == 504 <==> ParseShutter(raw).Valid? && available && outcome.TimedOut?
    ensures r.status == 504 ==> r.body == Error(CaptureTimeout)
    ensures r.status == 200 <==> ParseShutter(raw).Valid? && available && outcome.ExitedZero?
    ensures r.status == 200 ==> r.body == File(filename, JpegMimetype)
  {
    if ParseShutter(raw).Invalid? then Response(400, Error(InvalidShutter))
    else if !available then Response(500, Error(Unavailable))
    else OutcomeResponse(outcome, filename)
  }

  /** The names `NamedTemporaryFile(suffix=".jpg")` hands out: they end in `.jpg`. */
  predicate IsTempJpeg(path: string) {
    |path| > 4 && path[|path| - 4..] == ".jpg"
  }

  /** A length no path of `paths` exceeds. */
  ghost function MaxLength(paths: set<string>): (m: nat)
    ensures forall p :: p in paths ==> |p| <= m
    decreases paths
  {
    if paths == {} then 0
    else
      var p :| p in paths;
      var rest := MaxLength(paths - {p});
      if |p| > rest then |p| else rest
  }

  /** However many files exist, a `.jpg` name that is not one of them exists. */
  lemma FreshTempJpegExists(paths: set<string>)
    ensures exists path :: IsTempJpeg(path) && path !in paths
  {
    var path := seq(MaxLength(paths) + 1, _ => 'x') + ".jpg";
    assert IsTempJpeg(path) && |path| > MaxLength(paths);
  }

  /** Builds the argument list step by step, appending to it as `capture()` does. */
  method BuildCommand(filename: string, shutter: Option<int>) returns (cmd: seq<string>)
    ensures cmd == Command(filename, shutter)
  {
    cmd := [Utility, "-o", filename, "--nopreview"];
    if shutter.Some? && shutter.value > 0 {
      cmd := cmd + ["--shutter", ShowInt(shutter.value)];
    }
    cmd := cmd + ["--quality", JpegQuality];
  }

  // ---------------------------------------------------------------------------
  // Capture endpoint: the request against the service's state

  /** The running service: the availability flag fixed at startup, the paths that
    * exist on the filesystem, and every argument list the service has run. */
  class CameraServer {
    const libcameraJpeg: bool
    var files: set<string>
    var launched: seq<seq<string>>

    constructor (available: bool, existing: set<string>)
      ensures libcameraJpeg == available && files == existing && launched == []
    {
      libcameraJpeg := available;
      files := existing;
      launched := [];
    }

    /** Creates an empty temporary `.jpg` file under a name no existing file has. */
    method AllocateTemp() returns (path: string)
      modifies this
      ensures IsTempJpeg(path) && path !in old(files)
      ensures files == old(files) + {path} && launched == old(launched)
    {
      FreshTempJpegExists(files);
      path :| IsTempJpeg(path) && path !in files;
      files := files + {path};
    }

    /** Runs the capture process, however it ends. The process writes into the file
      * it is given, which therefore still exists afterwards. */
    method Run(cmd: seq<string>)
      modifies this
      ensures launched == old(launched) + [cmd] && files == old(files)
    {
      launched := launched + [cmd];
    }

    /** The `finally` block: removes `path` if it exists; a failing removal is ignored.
      * `attempted` tells whether a removal was tried. */
    method Cleanup(path: string, removalFails: bool) returns (attempted: bool)
      modifies this
      ensures attempted <==> path in old(files)
      ensures files == if attempted && !removalFails then old(files) - {path} else old(files)
      ensures launched == old(launched)
    {
      attempted := path in files;
      if attempted {
        if !removalFails {
          files := files - {path};
        }
      }
    }

    /** `/capture` once its checks have passed: allocates the temporary file, builds
      * and runs the command, maps the outcome to the response, and cleans up. */
    method Shoot(shutter: Option<int>, outcome: Outcome, removalFails: bool)
      returns (resp: Response, filename: string)
      modifies this
      ensures resp == OutcomeResponse(outcome, filename)
      ensures IsTempJpeg(filename) && filename !in old(files)
      ensures launched == old(launched) + [Command(filename, shutter)]
      ensures files == if removalFails then old(files) + {filename} else old(files)
    {
      filename := AllocateTemp();
      var cmd := BuildCommand(filename, shutter);

      Run(cmd);
      resp := OutcomeResponse(outcome, filename);

      var attempted := Cleanup(filename, removalFails);
      assert attempted;
      assert old(files) + {filename} - {filename} == old(files);
    }

    /** One `/capture` request. `raw` is the `shutter` request value, `outcome` how the
      * process would end, `removalFails` whether deleting the temporary file fails.
      * `tmp` is the temporary file the request allocated, if it got that far. */
    method Capture(raw: Option<string>, outcome: Outcome, removalFails: bool)
      returns (resp: Response, tmp: Option<string>)
      modifies this
      ensures tmp.Some? <==> ParseShutter(raw).Valid? && libcameraJpeg
      ensures tmp.None? ==> resp == CaptureResponse(raw, libcameraJpeg, "", outcome)
      ensures tmp.None? ==> files == old(files) && launched == old(launched)
      ensures tmp.Some? ==> resp == CaptureResponse(raw, libcameraJpeg, tmp.value, outcome)
      ensures tmp.Some? ==> IsTempJpeg(tmp.value) && tmp.value !in old(files)
      ensures tmp.Some? ==> launched == old(launched) + [Command(tmp.value, ParseShutter(raw).shutter)]
      ensures tmp.Some? ==> files == if removalFails then old(files) + {tmp.value} else old(files)
    {
      var parsed := ParseShutter(raw);
      if parsed.Invalid? {
        return Response(400, Error(InvalidShutter)), None;
      }
      if !libcameraJpeg {
        return Response(500, Error(Unavailable)), None;
      }
      var filename;
      resp, filename := Shoot(parsed.shutter, outcome, removalFails);
      tmp := Some(filename);
    }
  }
}
