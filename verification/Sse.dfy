/** Server-sent events: the framing of src/http_server.rs and the event-stream parser of
    WHATWG HTML, sections 9.2.5 and 9.2.6, that reads it back. */
module Sse {
  import opened Basics

  const LF := '\n'
  const CR := '\r'

  // ---------------------------------------------------------------- the parser of the standard

  datatype Event = Event(kind: string, data: string)

  /** The buffers of section 9.2.6 and the events dispatched so far. */
  datatype Reader = Reader(kind: string, data: string, lastId: string, events: seq<Event>)

  const START := Reader("", "", "", [])

  predicate IsLf(c: char) { c == LF }

  predicate IsColon(c: char) { c == ':' }

  predicate IsLineEnd(c: char) { c == LF || c == CR }

  /** Position of the first character of `s` that satisfies `stop`, or its length. */
  function Find(s: string, stop: char -> bool): (k: nat)
    ensures k <= |s| && (k < |s| ==> stop(s[k]))
    ensures forall i | 0 <= i < k :: !stop(s[i])
  {
    if s == "" || stop(s[0]) then 0 else 1 + Find(s[1..], stop)
  }

  /** Process a field: `event` sets the type, `data` adds a line, `id` is kept unless it holds
      a NULL, `retry` only sets the reconnection time; anything else is ignored. */
  function Field(r: Reader, name: string, value: string): Reader {
    if name == "event" then r.(kind := value)
    else if name == "data" then r.(data := r.data + value + [LF])
    else if name == "id" && '\0' !in value then r.(lastId := value)
    else r
  }

  /** Dispatch: nothing without data; the last LF of the data goes; the type defaults. */
  function Dispatch(r: Reader): Reader {
    if r.data == "" then r.(kind := "") else
      var kind := if r.kind == "" then "message" else r.kind;
      r.(kind := "", data := "", events := r.events + [Event(kind, r.data[..|r.data| - 1])])
  }

  function ProcessLine(r: Reader, line: string): Reader {
    if line == "" then Dispatch(r)
    else if line[0] == ':' then r
    else
      var colon := Find(line, IsColon);
      if colon == |line| then Field(r, line, "")
      else
        var value := line[colon + 1..];
        Field(r, line[..colon], if value != "" && value[0] == ' ' then value[1..] else value)
  }

  /** Lines end in LF, CR or CRLF; a last line without an end is discarded. */
  function Parse(r: Reader, stream: string): Reader
    decreases |stream|
  {
    var k := Find(stream, IsLineEnd);
    if k == |stream| then r
    else
      var next := if stream[k] == CR && k + 1 < |stream| && stream[k + 1] == LF then k + 2 else k + 1;
      Parse(ProcessLine(r, stream[..k]), stream[next..])
  }

  /** One leading byte order mark is ignored. */
  function ParseStream(stream: string): seq<Event> {
    var body := if stream != "" && stream[0] as int == 0xFEFF then stream[1..] else stream;
    Parse(START, body).events
  }

  // ---------------------------------------------------------------- payloads

  /** CRLF and CR become LF, in one pass. */
  function Normalized(s: string): string {
    if s == "" then ""
    else if s[0] == CR then [LF] + Normalized(if |s| > 1 && s[1] == LF then s[2..] else s[1..])
    else [s[0]] + Normalized(s[1..])
  }

  /** `replace("\r\n", "\n")`. */
  function ReplaceCrLf(s: string): string {
    if |s| < 2 then s
    else if s[0] == CR && s[1] == LF then [LF] + ReplaceCrLf(s[2..])
    else [s[0]] + ReplaceCrLf(s[1..])
  }

  /** `replace('\r', "\n")`. */
  function ReplaceCr(s: string): string {
    if s == "" then "" else [if s[0] == CR then LF else s[0]] + ReplaceCr(s[1..])
  }

  /** The two library passes together normalise line ends. */
  lemma {:induction false} TwoPassesNormalize(s: string)
    ensures ReplaceCr(ReplaceCrLf(s)) == Normalized(s)
    decreases |s|
  {
    if |s| < 2 {
      if s != "" {
        assert s[1..] == "" && ReplaceCr(s[1..]) == "";
      }
    } else if s[0] == CR && s[1] == LF {
      TwoPassesNormalize(s[2..]);
      assert ([LF] + ReplaceCrLf(s[2..]))[1..] == ReplaceCrLf(s[2..]);
    } else {
      TwoPassesNormalize(s[1..]);
      assert ([s[0]] + ReplaceCrLf(s[1..]))[1..] == ReplaceCrLf(s[1..]);
    }
  }

  lemma {:induction false} NormalizedPrefix(text: string, rest: string)
    requires CR !in text
    ensures Normalized(text + rest) == text + Normalized(rest)
    decreases |text|
  {
    if text == "" {
      assert text + rest == rest && text + Normalized(rest) == Normalized(rest);
    } else {
      assert (text + rest)[0] == text[0] && (text + rest)[1..] == text[1..] + rest;
      NormalizedPrefix(text[1..], rest);
      assert text == [text[0]] + text[1..];
      Regroup([text[0]], text[1..], Normalized(rest));
    }
  }

  lemma NormalizedEnd(rest: string)
    ensures Normalized("\r\n" + rest) == "\n" + Normalized(rest) == Normalized("\n" + rest)
    ensures (rest == "" || rest[0] != LF) ==> Normalized("\r" + rest) == "\n" + Normalized(rest)
  {
    assert ("\r\n" + rest)[2..] == rest && ("\n" + rest)[1..] == rest && ("\r" + rest)[1..] == rest;
  }

  /** What normalising means: text up to the next CR stays as it is; CRLF, and a CR that no LF
      follows, become LF. */
  lemma NormalizedLine(text: string, rest: string)
    requires CR !in text
    ensures Normalized(text) == text
    ensures Normalized(text + "\r\n" + rest) == text + "\n" + Normalized(rest)
    ensures (rest == "" || rest[0] != LF) ==> Normalized(text + "\r" + rest) == text + "\n" + Normalized(rest)
  {
    NormalizedPrefix(text, "");
    NormalizedPrefix(text, "\r\n" + rest);
    NormalizedPrefix(text, "\r" + rest);
    NormalizedEnd(rest);
    Regroup(text, "\r\n", rest);
    Regroup(text, "\r", rest);
    Regroup(text, "\n", Normalized(rest));
    assert text + "" == text;
  }

  lemma {:induction false} NormalizedHasNoCr(s: string)
    ensures CR !in Normalized(s)
    decreases |s|
  {
    if s != "" {
      NormalizedHasNoCr(if s[0] == CR && |s| > 1 && s[1] == LF then s[2..] else s[1..]);
    }
  }

  /** `split('\n')`: always at least one piece. */
  function Split(s: string): (lines: seq<string>)
    ensures lines != []
  {
    var k := Find(s, IsLf);
    if k == |s| then [s] else [s[..k]] + Split(s[k + 1..])
  }

  // ---------------------------------------------------------------- the printer

  const EVENT := "event"
  const DATA := "data"
  const MESSAGE := "message"
  const ENDPOINT := "endpoint"
  const PATH := "/message?sessionId="
  const PING := ": ping"

  /** A line `name: value`, without its end. */
  function FieldLine(name: string, value: string): string { name + ": " + value }

  function DataLines(lines: seq<string>): string {
    if lines == [] then "" else (FieldLine(DATA, lines[0]) + [LF]) + DataLines(lines[1..])
  }

  function Message(payload: string): string {
    (FieldLine(EVENT, MESSAGE) + [LF]) + DataLines(Split(Normalized(payload))) + [LF]
  }

  function PingComment(): string { (PING + [LF]) + [LF] }

  function EndpointEvent(sessionId: string): string {
    (FieldLine(EVENT, ENDPOINT) + [LF]) + (FieldLine(DATA, PATH + sessionId) + [LF]) + [LF]
  }

  datatype Turn = Payload(text: string) | Ping

  /** What one turn of the select loop writes. */
  function Written(t: Turn): string { if t.Ping? then PingComment() else Message(t.text) }

  function WrittenAll(turns: seq<Turn>): string {
    if turns == [] then "" else Written(turns[0]) + WrittenAll(turns[1..])
  }

  /** The events a client should see: one `message` per payload, none per ping. */
  function ExpectedOf(t: Turn): seq<Event> {
    if t.Ping? then [] else [Event("message", Normalized(t.text))]
  }

  function Expected(turns: seq<Turn>): seq<Event> {
    if turns == [] then [] else ExpectedOf(turns[0]) + Expected(turns[1..])
  }

  /** One event with one line of data, as it stands on the wire. */
  function Frame(kind: string, data: string): string { "event: " + kind + "\ndata: " + data + "\n\n" }

  lemma TwoFields(kind: string, data: string)
    ensures (FieldLine(EVENT, kind) + [LF]) + (FieldLine(DATA, data) + [LF]) + [LF] == Frame(kind, data)
  {
    var first, second := "event: " + kind + "\n", "data: " + data + "\n";
    assert FieldLine(EVENT, kind) + [LF] == first && FieldLine(DATA, data) + [LF] == second;
    assert "\ndata: " == "\n" + "data: " && "\n\n" == "\n" + [LF];
    assert Frame(kind, data) == first + second + [LF];
  }

  /** The bytes on the wire: the endpoint event, a ping, and a payload of one line. */
  lemma FramesAre(sessionId: string, line: string)
    ensures EndpointEvent(sessionId) == Frame("endpoint", "/message?sessionId=" + sessionId)
    ensures PingComment() == ": ping\n\n"
    ensures LF !in line && CR !in line ==> Message(line) == Frame("message", line)
  {
    TwoFields("endpoint", "/message?sessionId=" + sessionId);
    TwoFields("message", line);
    if LF !in line && CR !in line {
      NormalizedLine(line, "");
      OneDataLine(line);
    }
  }

  lemma OneDataLine(line: string)
    requires LF !in line
    ensures DataLines(Split(line)) == FieldLine(DATA, line) + [LF]
  {
    assert Split(line) == [line] && [line][1..] == [];
    assert DataLines([line]) == (FieldLine(DATA, line) + [LF]) + "";
  }

  /** The inner loop of the serializer. */
  method WriteDataLines(lines: seq<string>) returns (dataLines: string)
    ensures dataLines == DataLines(lines)
  {
    dataLines := "";
    for i := 0 to |lines|
      invariant DataLines(lines) == dataLines + DataLines(lines[i..])
    {
      assert lines[i..][1..] == lines[i + 1..];
      ghost var before, line := dataLines, FieldLine(DATA, lines[i]) + [LF];
      Regroup(before, line, DataLines(lines[i + 1..]));
      dataLines := dataLines + FieldLine(DATA, lines[i]) + [LF];
      assert dataLines == before + line;
    }
  }

  /** The serializer of the session loop, for one payload. */
  method SerializeMessage(payload: string) returns (event: string)
    ensures event == Message(payload)
  {
    TwoPassesNormalize(payload);
    var sanitized := ReplaceCr(ReplaceCrLf(payload));
    var dataLines := WriteDataLines(Split(sanitized));
    event := (FieldLine(EVENT, MESSAGE) + [LF]) + dataLines + [LF];
  }

  /** The session loop: what has been written to the stream after the given turns. */
  method ServeSession(sessionId: string, turns: seq<Turn>) returns (stream: string)
    ensures stream == EndpointEvent(sessionId) + WrittenAll(turns)
  {
    var written := "";
    for i := 0 to |turns|
      invariant WrittenAll(turns) == written + WrittenAll(turns[i..])
    {
      assert turns[i..][1..] == turns[i + 1..];
      ghost var before := written;
      Regroup(before, Written(turns[i]), WrittenAll(turns[i + 1..]));
      match turns[i] {
        case Payload(text) =>
          var event := SerializeMessage(text);
          written := written + event;
        case Ping =>
          written := written + PingComment();
      }
      assert written == before + Written(turns[i]);
    }
    stream := EndpointEvent(sessionId) + written;
  }

  // ---------------------------------------------------------------- streams of whole lines

  predicate OneLine(s: string) { LF !in s && CR !in s }

  ghost predicate AllOneLine(lines: seq<string>) { forall k | 0 <= k < |lines| :: OneLine(lines[k]) }

  /** The text of some lines, each with its LF. */
  function Joined(lines: seq<string>): string {
    if lines == [] then "" else (lines[0] + [LF]) + Joined(lines[1..])
  }

  function ProcessAll(r: Reader, lines: seq<string>): Reader
    decreases |lines|
  {
    if lines == [] then r else ProcessAll(ProcessLine(r, lines[0]), lines[1..])
  }

  lemma FindIs(s: string, stop: char -> bool, k: nat)
    requires k <= |s| && (k < |s| ==> stop(s[k])) && forall i | 0 <= i < k :: !stop(s[i])
    ensures Find(s, stop) == k
  {
    var f := Find(s, stop);
    assert f < |s| ==> stop(s[f]);
    assert k < |s| ==> stop(s[k]);
  }

  /** A line that ends in LF is processed and the rest is parsed after it. */
  lemma ParseOneLine(r: Reader, line: string, rest: string)
    requires OneLine(line)
    ensures Parse(r, (line + [LF]) + rest) == Parse(ProcessLine(r, line), rest)
  {
    var s := (line + [LF]) + rest;
    forall i | 0 <= i < |line| ensures !IsLineEnd(s[i]) {
      assert s[i] == line[i] && line[i] in line;
    }
    FindIs(s, IsLineEnd, |line|);
    assert s[..|line|] == line && s[|line| + 1..] == rest;
  }

  lemma {:induction false} ParseLines(r: Reader, lines: seq<string>)
    requires AllOneLine(lines)
    ensures Parse(r, Joined(lines)) == ProcessAll(r, lines)
    decreases |lines|
  {
    if lines != [] {
      ParseOneLine(r, lines[0], Joined(lines[1..]));
      ParseLines(ProcessLine(r, lines[0]), lines[1..]);
    }
  }

  lemma {:induction false} JoinedSplit(a: seq<string>, b: seq<string>)
    ensures Joined(a + b) == Joined(a) + Joined(b)
    decreases |a|
  {
    if a == [] {
      assert a + b == b;
    } else {
      assert (a + b)[0] == a[0] && (a + b)[1..] == a[1..] + b;
      JoinedSplit(a[1..], b);
      Regroup(a[0] + [LF], Joined(a[1..]), Joined(b));
    }
  }

  lemma {:induction false} ProcessSplit(r: Reader, a: seq<string>, b: seq<string>)
    ensures ProcessAll(r, a + b) == ProcessAll(ProcessAll(r, a), b)
    decreases |a|
  {
    if a == [] {
      assert a + b == b;
    } else {
      assert (a + b)[0] == a[0] && (a + b)[1..] == a[1..] + b;
      ProcessSplit(ProcessLine(r, a[0]), a[1..], b);
    }
  }

  // ---------------------------------------------------------------- the lines of each turn

  function DataLinesOf(lines: seq<string>): seq<string> {
    seq(|lines|, k requires 0 <= k < |lines| => FieldLine(DATA, lines[k]))
  }

  function EventLines(kind: string, data: seq<string>): seq<string> {
    [FieldLine(EVENT, kind)] + DataLinesOf(data) + [""]
  }

  function TurnLines(t: Turn): seq<string> {
    if t.Ping? then [PING, ""] else EventLines(MESSAGE, Split(Normalized(t.text)))
  }

  function AllLines(turns: seq<Turn>): seq<string> {
    if turns == [] then [] else TurnLines(turns[0]) + AllLines(turns[1..])
  }

  lemma {:induction false} DataLinesAreLines(lines: seq<string>)
    ensures DataLines(lines) == Joined(DataLinesOf(lines))
  {
    if lines != [] {
      assert DataLinesOf(lines)[1..] == DataLinesOf(lines[1..]);
      DataLinesAreLines(lines[1..]);
    }
  }

  lemma SingleJoined(line: string)
    ensures Joined([line]) == line + [LF]
  {
    assert [line][1..] == [];
  }

  lemma EventIsLines(kind: string, data: seq<string>)
    ensures (FieldLine(EVENT, kind) + [LF]) + DataLines(data) + [LF] == Joined(EventLines(kind, data))
  {
    var head := [FieldLine(EVENT, kind)];
    JoinedSplit(head + DataLinesOf(data), [""]);
    JoinedSplit(head, DataLinesOf(data));
    SingleJoined(FieldLine(EVENT, kind));
    SingleJoined("");
    DataLinesAreLines(data);
  }

  lemma {:induction false} TurnsAreLines(turns: seq<Turn>)
    ensures WrittenAll(turns) == Joined(AllLines(turns))
  {
    if turns != [] {
      TurnIsLines(turns[0]);
      TurnsAreLines(turns[1..]);
      JoinedSplit(TurnLines(turns[0]), AllLines(turns[1..]));
    }
  }

  lemma TurnIsLines(t: Turn)
    ensures Written(t) == Joined(TurnLines(t))
  {
    match t
    case Payload(text) => EventIsLines(MESSAGE, Split(Normalized(text)));
    case Ping =>
      assert [PING, ""] == [PING] + [""];
      JoinedSplit([PING], [""]);
      SingleJoined(PING);
      SingleJoined("");
  }

  /** Splitting loses nothing: the lines with an LF each are the text with one LF more. */
  lemma {:induction false} SplitJoins(s: string)
    ensures Joined(Split(s)) == s + [LF]
    ensures CR !in s ==> AllOneLine(Split(s))
    decreases |s|
  {
    var k := Find(s, IsLf);
    if k == |s| {
      SingleJoined(s);
    } else {
      SplitJoins(s[k + 1..]);
      var tail := Split(s[k + 1..]);
      assert Split(s) == [s[..k]] + tail && Split(s)[1..] == tail;
      assert s == (s[..k] + [LF]) + s[k + 1..];
    }
  }

  // ---------------------------------------------------------------- reading back

  /** `name: value` without a colon in the name is that field. */
  lemma FieldRead(r: Reader, name: string, value: string)
    requires name != "" && ':' !in name
    ensures ProcessLine(r, FieldLine(name, value)) == Field(r, name, value)
  {
    var line := FieldLine(name, value);
    forall i | 0 <= i < |name| ensures line[i] != ':' {
      assert line[i] == name[i] && name[i] in name;
    }
    FindIs(line, IsColon, |name|);
    assert line[..|name|] == name && line[|name| + 1..] == " " + value && (" " + value)[1..] == value;
  }

  lemma DataField(r: Reader, value: string)
    ensures ProcessLine(r, FieldLine(DATA, value)) == r.(data := r.data + (value + [LF]))
  {
    FieldRead(r, DATA, value);
    assert r.data + (value + [LF]) == r.data + value + [LF];
  }

  lemma {:induction false} DataRead(r: Reader, lines: seq<string>)
    ensures ProcessAll(r, DataLinesOf(lines)) == r.(data := r.data + Joined(lines))
    decreases |lines|
  {
    if lines == [] {
      assert r.data + "" == r.data;
    } else {
      assert DataLinesOf(lines)[1..] == DataLinesOf(lines[1..]);
      DataField(r, lines[0]);
      DataRead(r.(data := r.data + (lines[0] + [LF])), lines[1..]);
      Regroup(r.data, lines[0] + [LF], Joined(lines[1..]));
    }
  }

  predicate Idle(r: Reader) { r.kind == "" && r.data == "" }

  function Seen(r: Reader, kind: string, data: string): Reader { r.(events := r.events + [Event(kind, data)]) }

  /** The lines of an event are read as that event. */
  lemma EventRead(r: Reader, kind: string, data: seq<string>, text: string)
    requires Idle(r) && kind != "" && Joined(data) == text + [LF]
    ensures ProcessAll(r, EventLines(kind, data)) == Seen(r, kind, text)
  {
    var head := [FieldLine(EVENT, kind)];
    ProcessSplit(r, head + DataLinesOf(data), [""]);
    ProcessSplit(r, head, DataLinesOf(data));
    FieldRead(r, EVENT, kind);
    var r1 := r.(kind := kind);
    ProcessSingle(r, head[0]);
    DataRead(r1, data);
    var r2 := r1.(data := text + [LF]);
    assert r1.data + Joined(data) == text + [LF];
    ProcessSingle(r2, "");
    assert (text + [LF])[..|text + [LF]| - 1] == text;
  }

  lemma ProcessSingle(r: Reader, line: string)
    ensures ProcessAll(r, [line]) == ProcessLine(r, line)
  {
    assert [line][1..] == [];
  }

  lemma TurnRead(r: Reader, t: Turn)
    requires Idle(r)
    ensures ProcessAll(r, TurnLines(t)) == WithEvents(r, ExpectedOf(t))
  {
    match t
    case Payload(text) =>
      SplitJoins(Normalized(text));
      EventRead(r, MESSAGE, Split(Normalized(text)), Normalized(text));
    case Ping =>
      assert [PING, ""] == [PING] + [""];
      ProcessSplit(r, [PING], [""]);
      ProcessSingle(r, PING);
      ProcessSingle(r, "");
      assert r.events + [] == r.events;
  }

  function WithEvents(r: Reader, events: seq<Event>): Reader { r.(events := r.events + events) }

  lemma EventsRegroup(r: Reader, a: seq<Event>, b: seq<Event>)
    ensures WithEvents(WithEvents(r, a), b) == WithEvents(r, a + b)
  {
    Regroup(r.events, a, b);
  }

  lemma {:induction false} TurnsRead(r: Reader, turns: seq<Turn>)
    requires Idle(r)
    ensures ProcessAll(r, AllLines(turns)) == WithEvents(r, Expected(turns))
    decreases |turns|
  {
    if turns == [] {
      assert r.events + [] == r.events;
    } else {
      var r' := WithEvents(r, ExpectedOf(turns[0]));
      ProcessSplit(r, TurnLines(turns[0]), AllLines(turns[1..]));
      TurnRead(r, turns[0]);
      TurnsRead(r', turns[1..]);
      EventsRegroup(r, ExpectedOf(turns[0]), Expected(turns[1..]));
    }
  }

  lemma FieldOneLine(name: string, value: string)
    requires OneLine(name) && OneLine(value)
    ensures OneLine(FieldLine(name, value))
  {
  }

  lemma EventOneLine(kind: string, data: seq<string>)
    requires OneLine(kind) && AllOneLine(data)
    ensures AllOneLine(EventLines(kind, data))
  {
    FieldOneLine(EVENT, kind);
    forall k | 0 <= k < |data| ensures OneLine(FieldLine(DATA, data[k])) {
      FieldOneLine(DATA, data[k]);
    }
  }

  lemma {:induction false} TurnsOneLine(turns: seq<Turn>)
    ensures AllOneLine(AllLines(turns))
  {
    if turns != [] {
      TurnsOneLine(turns[1..]);
      if turns[0].Payload? {
        var text := Normalized(turns[0].text);
        NormalizedHasNoCr(turns[0].text);
        SplitJoins(text);
        EventOneLine(MESSAGE, Split(text));
      }
    }
  }

  /** The whole stream of a session reads back as the endpoint event and then one `message`
      event per payload, in order, whatever pings come between and whatever the payloads hold. */
  lemma SessionRoundTrips(sessionId: string, turns: seq<Turn>)
    requires OneLine(sessionId)
    ensures ParseStream(EndpointEvent(sessionId) + WrittenAll(turns))
         == [Event("endpoint", "/message?sessionId=" + sessionId)] + Expected(turns)
  {
    SessionIsLines(sessionId, turns);
    SessionOneLine(sessionId, turns);
    ParseLines(START, SessionLines(sessionId, turns));
    SessionRead(sessionId, turns);
    NoByteOrderMark(sessionId, WrittenAll(turns));
  }

  function SessionLines(sessionId: string, turns: seq<Turn>): seq<string> {
    EventLines(ENDPOINT, [PATH + sessionId]) + AllLines(turns)
  }

  lemma SessionIsLines(sessionId: string, turns: seq<Turn>)
    ensures EndpointEvent(sessionId) + WrittenAll(turns) == Joined(SessionLines(sessionId, turns))
  {
    EndpointIsLines(sessionId);
    TurnsAreLines(turns);
    JoinedSplit(EventLines(ENDPOINT, [PATH + sessionId]), AllLines(turns));
  }

  lemma SessionOneLine(sessionId: string, turns: seq<Turn>)
    requires OneLine(sessionId)
    ensures AllOneLine(SessionLines(sessionId, turns))
  {
    EventOneLine(ENDPOINT, [PATH + sessionId]);
    TurnsOneLine(turns);
  }

  lemma SessionRead(sessionId: string, turns: seq<Turn>)
    ensures ProcessAll(START, SessionLines(sessionId, turns)).events
         == [Event(ENDPOINT, PATH + sessionId)] + Expected(turns)
  {
    var path := PATH + sessionId;
    ProcessSplit(START, EventLines(ENDPOINT, [path]), AllLines(turns));
    SingleJoined(path);
    EventRead(START, ENDPOINT, [path], path);
    var r := Seen(START, ENDPOINT, path);
    TurnsRead(r, turns);
    assert r.events == [Event(ENDPOINT, path)];
  }

  lemma EndpointIsLines(sessionId: string)
    ensures EndpointEvent(sessionId) == Joined(EventLines(ENDPOINT, [PATH + sessionId]))
  {
    var path := PATH + sessionId;
    EventIsLines(ENDPOINT, [path]);
    assert [path][1..] == [];
    assert DataLines([path]) == (FieldLine(DATA, path) + [LF]) + "";
  }

  lemma NoByteOrderMark(sessionId: string, rest: string)
    ensures (EndpointEvent(sessionId) + rest)[0] == EVENT[0]
  {
  }
}
