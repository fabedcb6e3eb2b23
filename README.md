# Transcoding benchmark server: string construction

The server (`index.js`) accepts a video upload, transcodes it with `ffmpeg` in
one of two modes, and scores a transcoded file against its source with
`ffmpeg-quality-metrics`. Its own logic is string construction:

- the multer filename callback stores the upload under the `input` header;
- `POST /codecs` derives an output name from the upload's original name and
  the `codec` header, and builds `ffmpeg -i <path> -c:v <codec> results/<name>`;
- `POST /commands` splices the raw `command` header into
  `ffmpeg -i <path> <command> results/<output>`;
- `POST /metrics` builds
  `ffmpeg-quality-metrics results/<outputName> <sourceVideoPath> -m psnr ssim vmaf`
  and looks up the size of `results/<outputName>`;
- each handler echoes its inputs into the JSON record it sends back.

The model is pure, as the code is: datatypes, functions and lemmas, with no
state and no loops. It has three modules.

- `JsText` (`jstext.dfy`) holds the JavaScript semantics the templates rely on:
  - a value that is a string or `undefined`. An absent header is
    `undefined`, and so is an array index past the end;
  - template interpolation, where `undefined` prints as the word `undefined`;
  - `String.prototype.split` with a one-character separator. Its lemmas say
    that every segment is separator-free and that joining the segments gives
    back the string. The split is the unique non-empty list with both
    properties. It also composes across a separator, and its first segment
    is exactly the prefix before the first separator.

  The code never calls `join`. `Join` is the model's own way of writing a
  command line as the fields it is meant to carry.
- `Shell` (`shell.dfy`) holds how `/bin/sh` cuts an unquoted command line into
  arguments. It splits at every space or tab and drops empty fields.
  `Fields(Join(args, ' ')) == args` holds exactly when every argument is
  non-empty and blank-free.
- `Server` (`server.dfy`) holds the handlers. For each command line, a lemma
  states exactly when the shell hands the program the intended arguments.
  The condition is that every interpolated value except the raw `command`
  header is blank-free, and non-empty where it stands alone. The `command`
  header's own fields are spliced in whatever they are. Nothing in the code
  quotes or checks any of them. An empty `codec` header, for example, leaves `-c:v` taking
  `results/<name>` as its value.

The extension slot is only the second dot-separated segment
(`split('.')[1]`), not everything after the first dot. So `a.b.mp4` becomes
`a_<codec>.b`, and a name with no dot gets the extension `undefined`. Each
command is one shell string, not an argument list.

## Model

| member | source | states |
|---|---|---|
| Server.StoredFile | index.js:21-24 | the upload is stored under the `input` header, whatever the client's original name; the original name and path are kept. The handlers take any `UploadedFile`, because the path multer builds from this name is left out |
| Server.OutputNameParts | index.js:58 | the output name's base is segment 0 of the original name: a dot-free prefix, followed by a dot or the end; a second segment exists exactly when the name has a dot, and the extension slot is that segment or the word `undefined` |
| Server.OutputNameNoDot | index.js:58 | a name with no dot, such as `clip`, becomes `clip_<codec>.undefined` |
| Server.OutputNameOneDot | index.js:58 | a name with one dot, such as `clip.mp4`, becomes `clip_<codec>.mp4` |
| Server.OutputNameDropsRest | index.js:58 | a name with two or more dots loses everything from its second dot on: `a.b.mp4` becomes `a_<codec>.b` |
| Server.OutputNamesCollide | index.js:58 | two uploads whose names differ only after the second dot get the same output name for the same codec |
| Server.OutputNameOneDotAfter | index.js:58 | for a dot-free codec the output name splits at dots into exactly `<base>_<codec>` and the extension slot |
| Server.CodecCommandJoinsArgv | index.js:61 | the codec-mode command is `ffmpeg`, `-i`, the upload path, `-c:v`, the codec, `results/<name>`, joined by single spaces |
| Server.CodecCommandIsArgv | index.js:61 | the shell cuts the codec-mode command into exactly those six arguments if and only if the path and the codec are non-empty and blank-free and the output name is blank-free; this is field splitting only, for values free of the shell characters listed under "Left out" |
| Server.CodecCommandEmptyCodec | index.js:61 | with an empty `codec` header the shell drops the empty argument: `-c:v` takes `results/<name>` as its value and no output file is named |
| Server.HandleCodecs | index.js:56-75 | the `/codecs` answer says `File converted!`, carries the upload path, the derived output name and the `codec` header, and the command run is the codec-mode command for those three fields |
| Server.RawCommandSplicesHeader | index.js:100 | the shell arguments of the `command` header land verbatim between `ffmpeg -i <path>` and `results/<output>` if and only if the path is non-empty and blank-free and the `output` header is blank-free; this is field splitting only, for values free of the shell characters listed under "Left out" |
| Server.CodecModeIsRawMode | index.js:100 | the codec-mode command is the raw-mode command with the command `-c:v <codec>` and the derived output name |
| Server.HandleCommands | index.js:95-115 | the `/commands` answer carries the upload path, the `output` header unchanged as the output name and the `command` header as its `codec` field; the command run is the raw-mode command for those fields |
| Server.MetricsCommandJoinsArgv | index.js:136 | the metrics command is the tool name, `results/<outputName>`, the source path, `-m`, `psnr`, `ssim`, `vmaf`, joined by single spaces |
| Server.MetricsCommandIsArgv | index.js:136 | the shell cuts the metrics command into exactly those seven arguments if and only if the output name is blank-free and the source path is non-empty and blank-free; this is field splitting only, for values free of the shell characters listed under "Left out" |
| Server.MetricsMeasuresItsFirstOperand | index.js:136-144 | the path whose size is looked up is the metrics tool's first shell argument exactly when the output name is blank-free |
| Server.HandleMetrics | index.js:133-158 | the `/metrics` answer echoes the body's `outputName` and `codec`, carries the size and the parsed report, and the size is looked up at `results/<outputName>` |
| Server.CodecsThenMetrics | index.js:56-162 | after `/codecs`, a `/metrics` call built from its answer scores the file the transcode wrote against the file it read, and the size is looked up for that file |
| Server.CommandsThenMetrics | index.js:95-162 | after `/commands`, a `/metrics` call built from its answer scores the file named by the `output` header, which is the transcode's last field and the path whose size is looked up |
| JsText.At | index.js:58 | indexing an array yields a string exactly when the index is in range, and then it is that element |
| JsText.SplitSegments | index.js:58 | no segment of `s.split(sep)` holds the separator, and joining the segments with it gives `s` back |
| JsText.SplitWhole | index.js:58 | a string with no separator splits into itself alone |
| JsText.SplitWord | index.js:58 | a separator-free word followed by the separator is one segment ahead of the split of what follows |
| JsText.SplitUnique | index.js:58 | the split is the only non-empty list of separator-free segments that joins to the string |
| JsText.SplitAppend | index.js:58 | splitting `a + sep + b` is splitting `a`, then splitting `b` |
| Shell.FieldsAreWords | index.js:63 | every argument the shell passes on is non-empty and blank-free; this helper lets the command lemmas conclude that an interpolated value inside a blank-free argument is blank-free |
| Shell.FieldsBlank | index.js:63 | the arguments of `a + " " + b` are those of `a` followed by those of `b`; this helper reads each command line argument by argument |
| Shell.FieldsJoin | index.js:63 | arguments joined by single spaces come back from the shell's splitting as exactly those arguments if and only if each is non-empty and blank-free; this helper is behind the three command lemmas |
| JsText.FirstSegment | index.js:58 | segment 0 is the prefix before the first separator; a second segment exists exactly when the separator occurs, and the segments after the first are the split of the rest |

## Left out

- Running the commands (`exec`, index.js:63, 102, 138) is left out, because it is process spawning through a shell. The model's records are what a successful run sends. What a failed run sends depends on Express, which is not part of this model.
- Shell parsing beyond field splitting is left out. `Fields` splits only at spaces and tabs and drops empty fields. These are not modelled in an interpolated value:
  - quotes and backslashes;
  - `$` expansions and backquote command substitution;
  - globbing characters;
  - the operators `;`, `|`, `&`, `(` and `)`, and redirections;
  - `#` comments;
  - a `~` at the start of a word (tilde expansion);
  - braces, which bash expands when it is `/bin/sh`;
  - a newline, which ends the command.

  Each of these can satisfy `Word` and still be rewritten or acted on by the shell. A backquoted `codec` header, for example, runs a command. The command lemmas therefore describe field splitting only. They say what the program receives exactly when the values hold none of these characters.
- The file-size lookup (`fs.stat`) and its formatting (`(parseInt(size) * 0.000001).toFixed(2)`, index.js:146-151) are left out: one is filesystem I/O, the other floating point. The formatted size enters `HandleMetrics` as a string.
- `JSON.parse` of the tool's output (index.js:157) is left out, because it is a foreign parser. The parsed report is a type parameter of `HandleMetrics`.
- The error branches (index.js:64-67, 103-106, 139-142, 147-150) are left out. They call `send` after `status(500)` and then fall through to the code that builds the 200 record. Whether that second `send` is reached, throws or is ignored depends on Express, as does what the two-argument `send` sends; Express is not part of this model.
- Express routing, CORS, static serving and `listen` are left out as framework plumbing (index.js:10-13, 37-38, 169-171). So is multer's handling of the upload and the path it builds: the stored path enters as `UploadedFile.path`.
- Console logging is left out.
- JSON body values other than strings or absent fields, such as numbers or objects in `/metrics`, are left out. Each field is a string or `undefined`.
- A request without the `video` part is left out. Then `req.file` is undefined, and `req.file.originalname` (index.js:58) or `req.file.path` (index.js:61, 100) throws a TypeError before any command is built. `HandleCodecs` and `HandleCommands` always receive an `UploadedFile`.
- Server.StoredFile: it accepts an absent `input` header and returns a record stored under `undefined`. Multer joins the name the callback returns into a path, which is expected to throw for `undefined`; multer's source is not part of this model.
- Server.CodecsThenMetrics: it requires the derived output name to be blank-free instead of deriving that from the original name and the codec.
