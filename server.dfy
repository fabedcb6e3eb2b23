/** The string construction of the transcoding benchmark server (index.js):
    the upload filename, the codec-mode output name, the three external
    command lines, and the JSON records the three endpoints send back.
    Running the commands, the file-size lookup and parsing the metrics
    report are external; their results enter as parameters. */
module Server {
  import opened JsText
  import opened Shell

  /** The request headers the server reads; an absent header is `undefined`. */
  datatype Headers = Headers(codec: JsStr, command: JsStr, output: JsStr, input: JsStr)

  /** The upload as the handlers see it (`req.file`): the client's original
      name, the name it is stored under, and the path it is stored at in the
      upload directory. */
  datatype UploadedFile = UploadedFile(originalname: string, filename: JsStr, path: string)

  /** The record `/codecs` and `/commands` send back. The field name
      `messagge` is spelled as the server spells it. */
  datatype TranscodeResponse =
    TranscodeResponse(messagge: string, sourceVideoPath: string, outputName: JsStr, codec: JsStr)

  /** What a transcode handler does: the command line it hands to the shell
      and the record it answers with. */
  datatype Transcode = Transcode(command: string, response: TranscodeResponse)

  /** The JSON body `/metrics` reads. */
  datatype MetricsRequest = MetricsRequest(outputName: JsStr, sourceVideoPath: JsStr, codec: JsStr)

  /** The record `/metrics` sends back; `R` is the parsed metrics report. */
  datatype MetricsResponse<R> =
    MetricsResponse(filename: JsStr, codec: JsStr, size: string, qualityMetrics: R)

  /** What `/metrics` does: the metrics command line, the path whose size it
      looks up, and the record it answers with. */
  datatype Metrics<R> = Metrics(command: string, statPath: string, response: MetricsResponse<R>)

  const FileConverted: string := "File converted!"

  /** The external quality-metrics program. */
  const MetricsTool: string := "ffmpeg-quality-metrics"

  /** The multer filename callback: the upload is stored under the `input`
      header, whatever the client's original file name was. */
  function StoredFile(originalname: string, h: Headers, path: string): (f: UploadedFile)
    ensures f.filename == h.input
    ensures f.originalname == originalname && f.path == path
  {
    UploadedFile(originalname, h.input, path)
  }

  // ----- codec mode -----

  /** `${name.split('.')[0]}_${codec}.${name.split('.')[1]}` */
  function OutputName(originalname: string, codec: JsStr): string
  {
    var parts := Split(originalname, '.');
    Render(At(parts, 0)) + "_" + Render(codec) + "." + Render(At(parts, 1))
  }

  /** The base of the output name is the original name up to its first dot,
      and holds no dot; the extension slot is the second dot-separated
      segment, or the word `undefined` when the name has no dot. */
  lemma OutputNameParts(originalname: string, codec: JsStr)
    ensures var base := Split(originalname, '.')[0];
      && base <= originalname
      && '.' !in base
      && (|base| < |originalname| ==> originalname[|base|] == '.')
      && (|Split(originalname, '.')| >= 2 <==> '.' in originalname)
      && OutputName(originalname, codec) == base + "_" + Render(codec) + "." +
           (if |Split(originalname, '.')| >= 2 then Split(originalname, '.')[1] else "undefined")
  {
    FirstSegment(originalname, '.');
  }

  /** A name with no dot gets the extension `undefined`: `clip` becomes
      `clip_<codec>.undefined`. */
  lemma OutputNameNoDot(originalname: string, codec: JsStr)
    requires '.' !in originalname
    ensures OutputName(originalname, codec) == originalname + "_" + Render(codec) + ".undefined"
  {
    SplitWhole(originalname, '.');
  }

  /** A name with one dot keeps its base and extension: `clip.mp4` becomes
      `clip_<codec>.mp4`. */
  lemma OutputNameOneDot(base: string, ext: string, codec: JsStr)
    requires '.' !in base && '.' !in ext
    ensures OutputName(base + "." + ext, codec) == base + "_" + Render(codec) + "." + ext
  {
    SplitAppend(base, ext, '.');
    SplitWhole(base, '.');
    SplitWhole(ext, '.');
  }

  /** A name with two or more dots loses everything from its second dot on:
      `a.b.mp4` becomes `a_<codec>.b`. */
  lemma OutputNameDropsRest(base: string, second: string, rest: string, codec: JsStr)
    requires '.' !in base && '.' !in second
    ensures OutputName(base + "." + second + "." + rest, codec) ==
            base + "_" + Render(codec) + "." + second
  {
    assert base + "." + second + "." + rest == base + ['.'] + (second + ['.'] + rest);
    SplitAppend(base, second + ['.'] + rest, '.');
    SplitAppend(second, rest, '.');
    SplitWhole(base, '.');
    SplitWhole(second, '.');
  }

  /** Uploads whose names differ only after the second dot are written to
      the same output file for the same codec. */
  lemma OutputNamesCollide(base: string, second: string, rest1: string, rest2: string, codec: JsStr)
    requires '.' !in base && '.' !in second
    ensures OutputName(base + "." + second + "." + rest1, codec) ==
            OutputName(base + "." + second + "." + rest2, codec)
  {
    OutputNameDropsRest(base, second, rest1, codec);
    OutputNameDropsRest(base, second, rest2, codec);
  }

  /** For a codec with no dot, the output name has exactly one dot: it
      splits into `<base>_<codec>` and the extension slot. */
  lemma OutputNameOneDotAfter(originalname: string, codec: JsStr)
    requires '.' !in Render(codec)
    ensures Split(OutputName(originalname, codec), '.') ==
            [Split(originalname, '.')[0] + "_" + Render(codec), Render(At(Split(originalname, '.'), 1))]
  {
    var parts := Split(originalname, '.');
    SplitSegments(originalname, '.');
    var left := Render(At(parts, 0)) + "_" + Render(codec);
    var right := Render(At(parts, 1));
    assert '.' !in left by {
      assert forall c :: c in left ==> c in Render(At(parts, 0)) || c == '_' || c in Render(codec);
    }
    assert '.' !in right;
    assert OutputName(originalname, codec) == left + ['.'] + right;
    SplitWord(left, right, '.');
    SplitWhole(right, '.');
  }

  /** `ffmpeg -i ${req.file.path} -c:v ${codec} results/${outputName}` */
  function CodecCommand(inputPath: string, codec: JsStr, outputName: string): string
  {
    "ffmpeg" + " " + "-i" + " " + inputPath + " " + "-c:v" + " " + Render(codec) + " " +
    ("results/" + outputName)
  }

  /** The argument vector the codec-mode command line is meant to carry. */
  function CodecArgv(inputPath: string, codec: JsStr, outputName: string): seq<string>
  {
    ["ffmpeg", "-i", inputPath, "-c:v", Render(codec), "results/" + outputName]
  }

  /** The codec-mode command line is its argument vector joined by spaces. */
  lemma CodecCommandJoinsArgv(inputPath: string, codec: JsStr, outputName: string)
    ensures CodecCommand(inputPath, codec, outputName) == Join(CodecArgv(inputPath, codec, outputName), ' ')
  {
    JoinSix("ffmpeg", "-i", inputPath, "-c:v", Render(codec), "results/" + outputName, ' ');
  }

  /** The shell cuts the codec-mode command line into exactly its argument
      vector if and only if the upload path and the codec are non-empty and
      blank-free and the output name is blank-free. An empty codec header
      leaves `-c:v` without its value; a blank in any of them makes further
      arguments. */
  lemma CodecCommandIsArgv(inputPath: string, codec: JsStr, outputName: string)
    ensures Fields(CodecCommand(inputPath, codec, outputName)) == CodecArgv(inputPath, codec, outputName)
        <==> Word(inputPath) && Word(Render(codec)) && BlankFree(outputName)
  {
    var argv := CodecArgv(inputPath, codec, outputName);
    CodecCommandJoinsArgv(inputPath, codec, outputName);
    FieldsJoin(argv);
    BlankFreeAppend("results/", outputName);
    assert (forall i :: 0 <= i < |argv| ==> Word(argv[i])) <==>
           Word(argv[2]) && Word(argv[4]) && Word(argv[5]);
  }

  /** With an empty `codec` header the shell drops the empty argument, so
      `-c:v` takes the output path as its value and no output file is
      named. */
  lemma CodecCommandEmptyCodec(inputPath: string, outputName: string)
    requires Word(inputPath) && BlankFree(outputName)
    ensures Fields(CodecCommand(inputPath, Str(""), outputName)) ==
            ["ffmpeg", "-i", inputPath, "-c:v", "results/" + outputName]
  {
    var head := ["ffmpeg", "-i", inputPath, "-c:v"];
    var r := "results/" + outputName;
    CodecRegroup("ffmpeg", "-i", inputPath, "-c:v", "", r);
    FieldsBlank(Join(head, ' '), "" + " " + r);
    FieldsBlank("", r);
    FieldsOfEmpty();
    FieldsJoin(head);
    BlankFreeAppend("results/", outputName);
    FieldsOfWord(r);
  }

  /** POST /codecs: the answer names the upload path, the derived output
      name and the codec header, and the command run is the one those
      three fields describe. */
  function HandleCodecs(file: UploadedFile, h: Headers): (t: Transcode)
    ensures t.response.messagge == FileConverted
    ensures t.response.sourceVideoPath == file.path
    ensures t.response.codec == h.codec
    ensures t.response.outputName == Str(OutputName(file.originalname, h.codec))
    ensures t.command == CodecCommand(t.response.sourceVideoPath, t.response.codec, t.response.outputName.s)
  {
    var outputName := OutputName(file.originalname, h.codec);
    Transcode(CodecCommand(file.path, h.codec, outputName),
              TranscodeResponse(FileConverted, file.path, Str(outputName), h.codec))
  }

  // ----- raw-command mode -----

  /** `ffmpeg -i ${req.file.path} ${command} results/${outputName}` */
  function RawCommand(inputPath: string, command: JsStr, outputName: JsStr): string
  {
    "ffmpeg" + " " + "-i" + " " + inputPath + " " + Render(command) + " " +
    ("results/" + Render(outputName))
  }

  /** The `command` header's own fields land verbatim between
      `ffmpeg -i <path>` and `results/<output>` if and only if the upload
      path is non-empty and blank-free and the `output` header is
      blank-free. An empty `command` header contributes no argument. */
  lemma RawCommandSplicesHeader(inputPath: string, command: JsStr, outputName: JsStr)
    ensures Fields(RawCommand(inputPath, command, outputName)) ==
            ["ffmpeg", "-i", inputPath] + Fields(Render(command)) + ["results/" + Render(outputName)]
        <==> Word(inputPath) && BlankFree(Render(outputName))
  {
    var head := ["ffmpeg", "-i", inputPath];
    var c, r := Render(command), "results/" + Render(outputName);
    var line := RawCommand(inputPath, command, outputName);
    var rhs := head + Fields(c) + [r];
    RawRegroup("ffmpeg", "-i", inputPath, c, r, ' ');
    FieldsBlank(Join(head, ' '), c + " " + r);
    FieldsBlank(c, r);
    BlankFreeAppend("results/", Render(outputName));
    if Word(inputPath) && BlankFree(Render(outputName)) {
      FieldsJoin(head);
      FieldsOfWord(r);
      AppendAssoc(head, Fields(c), [r]);
    }
    if Fields(line) == rhs {
      FieldsAreWords(line);
      assert rhs[2] == inputPath && rhs[|rhs| - 1] == r;
      assert inputPath in rhs && r in rhs;
    }
  }

  /** Codec mode is raw mode with the command `-c:v <codec>` and the derived
      output name. */
  lemma CodecModeIsRawMode(inputPath: string, codec: JsStr, outputName: string)
    ensures RawCommand(inputPath, Str("-c:v " + Render(codec)), Str(outputName)) ==
            CodecCommand(inputPath, codec, outputName)
  {
    assert " " + ("-c:v " + Render(codec)) == " -c:v " + Render(codec);
  }

  /** POST /commands: the output name is the `output` header unchanged, the
      answer's `codec` field is the `command` header, and the command run is
      the one those fields describe. */
  function HandleCommands(file: UploadedFile, h: Headers): (t: Transcode)
    ensures t.response.messagge == FileConverted
    ensures t.response.sourceVideoPath == file.path
    ensures t.response.codec == h.command
    ensures t.response.outputName == h.output
    ensures t.command == RawCommand(t.response.sourceVideoPath, t.response.codec, t.response.outputName)
  {
    Transcode(RawCommand(file.path, h.command, h.output),
              TranscodeResponse(FileConverted, file.path, h.output, h.command))
  }

  // ----- metrics -----

  /** `results/${outputName}`: the file whose size is looked up. */
  function SizePath(outputName: JsStr): string
  {
    "results/" + Render(outputName)
  }

  /** `ffmpeg-quality-metrics results/${outputName} ${sourceVideoPath} -m psnr ssim vmaf` */
  function MetricsCommand(outputName: JsStr, sourceVideoPath: JsStr): string
  {
    MetricsTool + " " + SizePath(outputName) + " " + Render(sourceVideoPath) + " " +
    "-m" + " " + "psnr" + " " + "ssim" + " " + "vmaf"
  }

  /** The argument vector the metrics command line is meant to carry. */
  function MetricsArgv(outputName: JsStr, sourceVideoPath: JsStr): seq<string>
  {
    [MetricsTool, SizePath(outputName), Render(sourceVideoPath), "-m", "psnr", "ssim", "vmaf"]
  }

  /** The metrics command line is its argument vector joined by spaces. */
  lemma MetricsCommandJoinsArgv(outputName: JsStr, sourceVideoPath: JsStr)
    ensures MetricsCommand(outputName, sourceVideoPath) == Join(MetricsArgv(outputName, sourceVideoPath), ' ')
  {
    JoinSeven(MetricsTool, SizePath(outputName), Render(sourceVideoPath),
              "-m", "psnr", "ssim", "vmaf", ' ');
  }

  /** The shell cuts the metrics command line into exactly its argument
      vector if and only if the output name is blank-free and the source
      path is non-empty and blank-free. */
  lemma MetricsCommandIsArgv(outputName: JsStr, sourceVideoPath: JsStr)
    ensures Fields(MetricsCommand(outputName, sourceVideoPath)) == MetricsArgv(outputName, sourceVideoPath)
        <==> BlankFree(Render(outputName)) && Word(Render(sourceVideoPath))
  {
    var argv := MetricsArgv(outputName, sourceVideoPath);
    MetricsCommandJoinsArgv(outputName, sourceVideoPath);
    FieldsJoin(argv);
    BlankFreeAppend("results/", Render(outputName));
    assert (forall i :: 0 <= i < |argv| ==> Word(argv[i])) <==> Word(argv[1]) && Word(argv[2]);
  }

  /** The path whose size is looked up is the metrics tool's first operand
      exactly when the output name is blank-free; otherwise the tool reads
      a different first argument, whatever the source path. */
  lemma MetricsMeasuresItsFirstOperand(outputName: JsStr, sourceVideoPath: JsStr)
    ensures |Fields(MetricsCommand(outputName, sourceVideoPath))| >= 2
    ensures Fields(MetricsCommand(outputName, sourceVideoPath))[1] == SizePath(outputName)
        <==> BlankFree(Render(outputName))
  {
    var b := SizePath(outputName);
    MetricsRegroup(MetricsTool, b, Render(sourceVideoPath), "-m", "psnr", "ssim", "vmaf");
    SecondFieldIff(MetricsTool, b, Render(sourceVideoPath), ["-m", "psnr", "ssim", "vmaf"]);
    BlankFreeAppend("results/", Render(outputName));
  }

  // ----- argument-vector shapes -----

  /** After a one-word first field, the second field is `b` exactly when
      `b` is one word, provided some word follows. */
  lemma SecondFieldIff(a: string, b: string, c: string, opts: seq<string>)
    requires Word(a) && |opts| >= 1
    requires forall i :: 0 <= i < |opts| ==> Word(opts[i])
    ensures |Fields(a + " " + (b + " " + (c + " " + Join(opts, ' '))))| >= 2
    ensures Fields(a + " " + (b + " " + (c + " " + Join(opts, ' '))))[1] == b <==> Word(b)
  {
    var line := a + " " + (b + " " + (c + " " + Join(opts, ' ')));
    FieldsBlank(a, b + " " + (c + " " + Join(opts, ' ')));
    FieldsBlank(b, c + " " + Join(opts, ' '));
    FieldsBlank(c, Join(opts, ' '));
    FieldsJoin(opts);
    FieldsOfWord(a);
    assert Fields(line) == [a] + (Fields(b) + (Fields(c) + opts));
    if Word(b) {
      FieldsOfWord(b);
    }
    if Fields(line)[1] == b {
      FieldsAreWords(line);
      assert b in Fields(line);
    }
  }

  /** A raw-mode command line is the join of its first three fields, then
      the command, then the output. */
  lemma RawRegroup(a: string, b: string, p: string, c: string, o: string, sep: char)
    ensures a + [sep] + b + [sep] + p + [sep] + c + [sep] + o ==
            Join([a, b, p], sep) + [sep] + (c + [sep] + o)
  {
    assert [a, b, p][1..] == [b, p];
    assert [b, p][1..] == [p];
    assert Join([b, p], sep) == b + [sep] + p;
  }

  /** A codec-mode command line is the join of its first four fields, then
      the codec, then the output. */
  lemma CodecRegroup(a: string, b: string, c: string, d: string, e: string, f: string)
    ensures a + " " + b + " " + c + " " + d + " " + e + " " + f ==
            Join([a, b, c, d], ' ') + " " + (e + " " + f)
  {
    var xs := [a, b, c, d];
    assert xs[1..] == [b, c, d];
    assert xs[1..][1..] == [c, d];
    assert xs[1..][1..][1..] == [d];
    assert Join([c, d], ' ') == c + " " + d;
    assert Join([b, c, d], ' ') == b + " " + (c + " " + d);
  }

  /** A metrics command line is its tool, its first operand, the source,
      then the join of the fixed options. */
  lemma MetricsRegroup(a: string, b: string, c: string, d: string, e: string, f: string, g: string)
    ensures a + " " + b + " " + c + " " + d + " " + e + " " + f + " " + g ==
            a + " " + (b + " " + (c + " " + Join([d, e, f, g], ' ')))
  {
    var xs := [d, e, f, g];
    assert xs[1..] == [e, f, g];
    assert xs[1..][1..] == [f, g];
    assert xs[1..][1..][1..] == [g];
    assert Join([f, g], ' ') == f + " " + g;
    assert Join([e, f, g], ' ') == e + " " + (f + " " + g);
  }

  lemma JoinSix(a: string, b: string, c: string, d: string, e: string, f: string, sep: char)
    ensures Join([a, b, c, d, e, f], sep) ==
            a + [sep] + b + [sep] + c + [sep] + d + [sep] + e + [sep] + f
  {
    var xs := [a, b, c, d, e, f];
    assert xs[1..] == [b, c, d, e, f];
    assert xs[1..][1..] == [c, d, e, f];
    assert xs[1..][1..][1..] == [d, e, f];
    assert xs[1..][1..][1..][1..] == [e, f];
    assert xs[1..][1..][1..][1..][1..] == [f];
    assert Join([e, f], sep) == e + [sep] + f;
    assert Join([d, e, f], sep) == d + [sep] + (e + [sep] + f);
    assert Join([c, d, e, f], sep) == c + [sep] + (d + [sep] + (e + [sep] + f));
    assert Join([b, c, d, e, f], sep) == b + [sep] + (c + [sep] + (d + [sep] + (e + [sep] + f)));
  }

  lemma JoinSeven(a: string, b: string, c: string, d: string, e: string, f: string, g: string, sep: char)
    ensures Join([a, b, c, d, e, f, g], sep) ==
            a + [sep] + b + [sep] + c + [sep] + d + [sep] + e + [sep] + f + [sep] + g
  {
    assert [a, b, c, d, e, f, g][1..] == [b, c, d, e, f, g];
    JoinSix(b, c, d, e, f, g, sep);
  }

  /** POST /metrics: the answer echoes the body's `outputName` and `codec`,
      carries the looked-up size and the parsed report, and the size is
      looked up for the same path the command passes to the tool. */
  function HandleMetrics<R>(body: MetricsRequest, size: string, report: R): (m: Metrics<R>)
    ensures m.command == MetricsCommand(body.outputName, body.sourceVideoPath)
    ensures m.statPath == SizePath(body.outputName)
    ensures m.response == MetricsResponse(body.outputName, body.codec, size, report)
  {
    Metrics(MetricsCommand(body.outputName, body.sourceVideoPath), SizePath(body.outputName),
            MetricsResponse(body.outputName, body.codec, size, report))
  }

  // ----- the two-call round trip -----

  /** The metrics request a client builds from a transcode answer. */
  function MetricsRequestFor(r: TranscodeResponse): MetricsRequest
  {
    MetricsRequest(r.outputName, Str(r.sourceVideoPath), r.codec)
  }

  /** After `/codecs`, a `/metrics` call built from its answer scores the
      file the transcode wrote against the file it read, looks up the size
      of that same output, and answers with the codec header and the derived
      output name. */
  lemma CodecsThenMetrics<R>(file: UploadedFile, h: Headers, size: string, report: R)
    requires Word(file.path) && Word(Render(h.codec))
    requires BlankFree(OutputName(file.originalname, h.codec))
    ensures var t := HandleCodecs(file, h);
      var m := HandleMetrics(MetricsRequestFor(t.response), size, report);
      var tf, mf := Fields(t.command), Fields(m.command);
      && |tf| == 6 && |mf| == 7
      && mf[1] == tf[5] == m.statPath
      && mf[2] == tf[2] == file.path
      && m.response.codec == h.codec
      && m.response.filename == Str(OutputName(file.originalname, h.codec))
  {
    var name := OutputName(file.originalname, h.codec);
    CodecCommandIsArgv(file.path, h.codec, name);
    MetricsCommandIsArgv(Str(name), Str(file.path));
  }

  /** After `/commands`, a `/metrics` call built from its answer scores the
      file named by the `output` header, which is the last field of the
      transcode command and the path whose size is looked up. */
  lemma CommandsThenMetrics<R>(file: UploadedFile, h: Headers, size: string, report: R)
    requires Word(file.path) && BlankFree(Render(h.output))
    ensures var t := HandleCommands(file, h);
      var m := HandleMetrics(MetricsRequestFor(t.response), size, report);
      var tf, mf := Fields(t.command), Fields(m.command);
      && |tf| >= 4 && |mf| == 7
      && mf[1] == tf[|tf| - 1] == m.statPath
      && mf[2] == tf[2] == file.path
      && m.response.codec == h.command
      && m.response.filename == h.output
  {
    RawCommandSplicesHeader(file.path, h.command, h.output);
    MetricsCommandIsArgv(h.output, Str(file.path));
  }
}
