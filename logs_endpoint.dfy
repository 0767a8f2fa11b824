/** api/logs.php: the last lines of the synchronisation log file. The
    file system is an input: whether the file exists, whether it can be
    read, its size, its lines as `file()` returns them and what the
    external `tail` command printed. */
module LogsEndpoint {

  import opened Wrappers
  import opened Text
  import Json

  const DefaultLines: int := 200
  const MaxLines: int := 1000

  /** `isset($_GET['lines']) ? (int)$_GET['lines'] : 200`, then
      `max(1, min($lines, 1000))`. */
  function ClampLines(raw: Option<string>): (n: int)
    ensures 1 <= n <= MaxLines
    ensures raw.None? ==> n == DefaultLines
    ensures raw.Some? && 1 <= PhpIntval(raw.value) <= MaxLines ==> n == PhpIntval(raw.value)
    ensures raw.Some? && PhpIntval(raw.value) < 1 ==> n == 1
    ensures raw.Some? && PhpIntval(raw.value) > MaxLines ==> n == MaxLines
  {
    Max(1, Min(if raw.Some? then PhpIntval(raw.value) else DefaultLines, MaxLines))
  }

  /** What `exec('tail -n N file')` gave: not attempted (no exec, or a
      Windows host), a non-zero exit code, or exit code 0 with its output
      lines. */
  datatype TailRun = TailUnavailable | TailFailed | TailOk(output: seq<string>)

  /** The log file. `lines` is `file($f, FILE_IGNORE_NEW_LINES)`: the lines
      without their newline, or None when that call fails. */
  datatype LogFile =
    | Missing
    | Present(readable: bool, size: nat, modified: int, lines: Option<seq<string>>, tail: TailRun)

  /** getLastLines's three kinds of result: null, false or a string. */
  datatype LastLines = NoFile | ReadError | Text(content: string)

  /** The fallback: `array_slice($fileLines, max(0, $total - $n))`, the last
      min(n, total) lines in their original order. */
  function TailSlice(lines: seq<string>, n: nat): (r: seq<string>)
    ensures |r| == Min(n, |lines|)
    ensures r == lines[|lines| - |r|..]
  {
    lines[Max(0, |lines| - n)..]
  }

  /** getLastLines. */
  function GetLastLines(f: LogFile, n: nat): (r: LastLines)
    ensures f.Missing? <==> r.NoFile?
    ensures f.Present? && !f.readable ==> r.ReadError?
    ensures f.Present? && f.readable && f.size == 0 ==> r == Text("")
    ensures f.Present? && f.readable && f.size > 0 && f.tail.TailOk? ==> r == Text(Join(f.tail.output, "\n"))
    ensures f.Present? && f.readable && f.size > 0 && !f.tail.TailOk? ==>
              r == if f.lines.None? then ReadError else Text(Join(TailSlice(f.lines.value, n), "\n"))
  {
    match f
    case Missing => NoFile
    case Present(readable, size, _, lines, tail) =>
      if !readable then ReadError
      else if size == 0 then Text("")
      else if tail.TailOk? then Text(Join(tail.output, "\n"))
      else if lines.None? then ReadError
      else Text(Join(TailSlice(lines.value, n), "\n"))
  }

  /** `$logContent === '' ? 0 : count(explode("\n", $logContent))`. */
  function LineCount(content: string): nat
  {
    if content == "" then 0 else |Split(content, '\n')|
  }

  /** Lines without a newline joined by "\n" count as themselves, unless
      they join to the empty string. */
  lemma LineCountOfJoin(lines: seq<string>)
    requires forall k :: 0 <= k < |lines| ==> '\n' !in lines[k]
    requires Join(lines, "\n") != ""
    ensures LineCount(Join(lines, "\n")) == |lines|
  {
    assert lines != [];
    SplitJoin(lines, '\n');
  }

  /** The fallback reports min(n, total) lines, unless those lines are all
      one empty line. */
  lemma FallbackLineCount(lines: seq<string>, n: nat)
    requires forall k :: 0 <= k < |lines| ==> '\n' !in lines[k]
    requires Join(TailSlice(lines, n), "\n") != ""
    ensures LineCount(Join(TailSlice(lines, n), "\n")) == Min(n, |lines|)
  {
    var t := TailSlice(lines, n);
    forall k | 0 <= k < |t|
      ensures '\n' !in t[k]
    {
      assert t[k] == lines[|lines| - |t| + k];
    }
    LineCountOfJoin(t);
  }

  const LogPath := "logs/sync.log"

  /** getLogInfo. */
  function LogInfo(f: LogFile): (info: Json.Value)
    ensures info.Obj? && "exists" in info.fields && "readable" in info.fields
    ensures info.fields["exists"] == Json.Bool(f.Present?)
    ensures info.fields["readable"] == Json.Bool(f.Present? && f.readable)
  {
    match f
    case Missing => Json.Obj(map["exists" := Json.Bool(false), "size" := Json.Num(0),
                                "modified" := Json.Null, "readable" := Json.Bool(false)])
    case Present(readable, size, modified, _, _) =>
      Json.Obj(map["exists" := Json.Bool(true), "size" := Json.Num(size), "modified" := Json.Num(modified),
                   "readable" := Json.Bool(readable), "path" := Json.Str(LogPath)])
  }

  datatype Response = Response(status: nat, body: Json.Value)

  const MissingMessage := "Arquivo de log não encontrado. Execute uma sincronização primeiro."

  /** The response the script sends for a request; `timestamp` is the
      server's formatted clock. */
  function Respond(get: map<string, string>, f: LogFile, timestamp: string): (r: Response)
    ensures r.body.Obj? && "success" in r.body.fields
    ensures r.status == 500 <==> GetLastLines(f, ClampLines(if "lines" in get then Some(get["lines"]) else None)).ReadError?
    ensures r.status != 500 ==> r.status == 200 && r.body.fields["success"] == Json.Bool(true)
                                && "lineCount" in r.body.fields && "logs" in r.body.fields
    ensures f.Missing? ==> r.body.fields["logs"] == Json.Str("") && r.body.fields["lineCount"] == Json.Num(0)
  {
    var n := ClampLines(if "lines" in get then Some(get["lines"]) else None);
    var info := LogInfo(f);
    match GetLastLines(f, n)
    case NoFile => Response(200, NoFileBody(info))
    case ReadError => Response(500, ReadErrorBody(info))
    case Text(content) => Response(200, TextBody(content, n, info, timestamp))
  }

  function NoFileBody(info: Json.Value): (b: Json.Value)
    ensures b.Obj? && b.fields.Keys == {"success", "logs", "message", "lineCount", "info"}
    ensures b.fields["success"] == Json.Bool(true) && b.fields["logs"] == Json.Str("")
    ensures b.fields["lineCount"] == Json.Num(0)
  {
    Json.Obj(map["success" := Json.Bool(true), "logs" := Json.Str(""),
                 "message" := Json.Str(MissingMessage), "lineCount" := Json.Num(0),
                 "info" := info])
  }

  function ReadErrorBody(info: Json.Value): (b: Json.Value)
    ensures b.Obj? && b.fields.Keys == {"success", "error", "message", "info"}
    ensures b.fields["success"] == Json.Bool(false)
  {
    Json.Obj(map["success" := Json.Bool(false), "error" := Json.Str("Erro ao ler arquivo de log"),
                 "message" := Json.Str("Verifique as permissões do arquivo"), "info" := info])
  }

  function TextBody(content: string, n: int, info: Json.Value, timestamp: string): (b: Json.Value)
    ensures b.Obj? && b.fields.Keys == {"success", "logs", "lineCount", "requestedLines", "info", "timestamp"}
    ensures b.fields["success"] == Json.Bool(true) && b.fields["logs"] == Json.Str(content)
    ensures b.fields["lineCount"] == Json.Num(LineCount(content)) && b.fields["requestedLines"] == Json.Num(n)
  {
    Json.Obj(map["success" := Json.Bool(true), "logs" := Json.Str(content),
                 "lineCount" := Json.Num(LineCount(content)), "requestedLines" := Json.Num(n),
                 "info" := info, "timestamp" := Json.Str(timestamp)])
  }

  /** An empty readable file answers with no lines. */
  lemma EmptyFileHasNoLines(get: map<string, string>, f: LogFile, timestamp: string)
    requires f.Present? && f.readable && f.size == 0
    ensures var r := Respond(get, f, timestamp);
      r.status == 200 && r.body.fields["logs"] == Json.Str("") && r.body.fields["lineCount"] == Json.Num(0)
  {
  }

  /** Text read from the file is sent as `logs`, with its line count and
      the clamped number of lines asked for. */
  lemma RespondText(get: map<string, string>, f: LogFile, timestamp: string, content: string)
    requires GetLastLines(f, ClampLines(if "lines" in get then Some(get["lines"]) else None)) == Text(content)
    ensures var r := Respond(get, f, timestamp);
      && r.status == 200 && r.body.Obj?
      && "logs" in r.body.fields && r.body.fields["logs"] == Json.Str(content)
      && "lineCount" in r.body.fields && r.body.fields["lineCount"] == Json.Num(LineCount(content))
      && "requestedLines" in r.body.fields
      && r.body.fields["requestedLines"] == Json.Num(ClampLines(if "lines" in get then Some(get["lines"]) else None))
  {
  }

  /** Without `tail`, a readable file answers with its last min(n, total)
      lines, n being the clamped request. */
  lemma FallbackResponse(get: map<string, string>, f: LogFile, timestamp: string)
    requires f.Present? && f.readable && f.size > 0 && !f.tail.TailOk? && f.lines.Some?
    requires forall k :: 0 <= k < |f.lines.value| ==> '\n' !in f.lines.value[k]
    ensures var n := ClampLines(if "lines" in get then Some(get["lines"]) else None);
      var shown := TailSlice(f.lines.value, n);
      var r := Respond(get, f, timestamp);
      && r.status == 200
      && r.body.fields["logs"] == Json.Str(Join(shown, "\n"))
      && r.body.fields["requestedLines"] == Json.Num(n)
      && (Join(shown, "\n") != "" ==> r.body.fields["lineCount"] == Json.Num(Min(n, |f.lines.value|)))
  {
    var n := ClampLines(if "lines" in get then Some(get["lines"]) else None);
    var content := Join(TailSlice(f.lines.value, n), "\n");
    RespondText(get, f, timestamp, content);
    if content != "" {
      FallbackLineCount(f.lines.value, n);
    }
  }
}
