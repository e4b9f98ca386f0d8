/** The PUB/SUB line protocol between firmware/nrf9160/src/main.c and controller/cmd/bridge/main.go. */
module Serial {
  import opened Prelude
  import opened Text
  import opened Framing

  const COMMAND := "text/firmware_url/command"
  const STATE := "text/firmware_url/state"

  // --- the device --------------------------------------------------------------------------------

  // sizeof(buf) - 1, sizeof(line) - 1, sizeof(last_firmware_token) and sizeof(state) - 1
  const RX_MAX := 191
  const LINE_MAX := 191
  const TOKEN_SIZE := 64
  const STATE_MAX := 127

  /** The bytes pub() puts on the wire: it sends as many as the formatted line has, but only the first 191
      were stored; then comes the terminator, and then whatever lies past the buffer. */
  function PubWire(suffix: string, value: string, past: int -> char): (wire: string) {
    var line := "PUB " + suffix + " " + value + "\r\n";
    seq(|line|, (i: int) requires 0 <= i < |line| =>
      if i < LINE_MAX then line[i] else if i == LINE_MAX then '\0' else past(i))
  }

  /** The whole line, and nothing else, is sent exactly when it fits. */
  lemma PubWireExact(suffix: string, value: string, past: int -> char)
    requires '\0' !in suffix && '\0' !in value
    ensures PubWire(suffix, value, past) == "PUB " + suffix + " " + value + "\r\n"
            <==> |suffix| + |value| + 7 <= 191
  {
    var line := "PUB " + suffix + " " + value + "\r\n";
    assert |line| == |suffix| + |value| + 7;
    var wire := PubWire(suffix, value, past);
    if |line| > LINE_MAX {
      assert line[LINE_MAX] != '\0' by {
        var i := LINE_MAX;
        assert line == ("PUB " + suffix) + (" " + value + "\r\n");
        assert i < 4 + |suffix| ==> i < 4 || line[i] == suffix[i - 4];
        assert 5 + |suffix| <= i < 5 + |suffix| + |value| ==> line[i] == value[i - 5 - |suffix|];
      }
      assert wire[LINE_MAX] == '\0';
    } else {
      assert forall i :: 0 <= i < |line| ==> wire[i] == line[i];
    }
  }

  datatype Verdict = Duplicate | Malformed | AlreadyRunning | WouldFlash(url: string)

  function Take(s: string, n: nat): (r: string) {
    if |s| <= n then s else s[..n]
  }

  /** strncmp(a, b, n) == 0 on C strings. */
  predicate SameUpTo(a: string, b: string, n: nat) {
    Take(a, n) == Take(b, n)
  }

  /** What is recorded, and what is decided, after a firmware token arrives. */
  function OnFirmwareUrl(last: string, value: string, firmwareHash: string): (r: (string, Verdict)) {
    if SameUpTo(value, last, TOKEN_SIZE) then (last, Duplicate)
    else
      var bar := IndexOf(value, '|');
      (Take(value, TOKEN_SIZE - 1),
       if bar.None? then Malformed
       else if value[..bar.value] == firmwareHash then AlreadyRunning
       else WouldFlash(value[bar.value + 1..]))
  }

  /** "SUB suffix value", as a C string. */
  function ParseSub(line: string): (r: Option<(string, string)>) {
    var s := CString(line);
    if !StartsWith(s, "SUB ") then None
    else
      var rest := s[4..];
      var space := IndexOf(rest, ' ');
      if space.None? then None else Some((rest[..space.value], rest[space.value + 1..]))
  }

  /** The state topic an unknown command is echoed on. */
  function EchoTopic(suffix: string): (r: Option<string>) {
    if |suffix| > 8 && suffix[|suffix| - 8..] == "/command"
    then Some(Take(suffix[..|suffix| - 8] + "/state", STATE_MAX)) else None
  }

  datatype Board = Board(last: string, verdicts: seq<Verdict>, wire: string)

  function HandleLine(b: Board, line: string, firmwareHash: string, past: int -> char): (r: Board) {
    var p := ParseSub(line);
    if p.None? then b
    else
      var (suffix, value) := p.value;
      if suffix == COMMAND then
        var (last, verdict) := OnFirmwareUrl(b.last, value, firmwareHash);
        Board(last, b.verdicts + [verdict], b.wire + PubWire(STATE, value, past))
      else
        var topic := EchoTopic(suffix);
        if topic.None? then b else b.(wire := b.wire + PubWire(topic.value, value, past))
  }

  /** The board after handling a list of received lines. */
  function HandleAll(b: Board, lines: seq<string>, firmwareHash: string, past: int -> char): (r: Board) {
    if lines == [] then b
    else HandleLine(HandleAll(b, lines[..|lines| - 1], firmwareHash, past), lines[|lines| - 1], firmwareHash, past)
  }

  class Nrf9160 {
    const firmwareHash: string
    const past: int -> char
    var buf: array<char>
    var len: nat
    var last: string
    ghost var lines: seq<string>
    var verdicts: seq<Verdict>
    var wire: string

    ghost predicate Valid()
      reads this, buf
    {
      buf.Length == RX_MAX + 1 && len <= RX_MAX
    }

    function State(): Board
      reads this
    {
      Board(last, verdicts, wire)
    }

    ghost function Rx(): Framer
      requires Valid()
      reads this, buf
    {
      Framer(buf[..len], lines)
    }

    constructor (firmwareHash: string, past: int -> char)
      ensures Valid() && fresh(buf) && Rx() == Framer([], []) && State() == Board("", [], "")
      ensures this.firmwareHash == firmwareHash && this.past == past
    {
      this.firmwareHash := firmwareHash;
      this.past := past;
      buf := new char[RX_MAX + 1];
      len, last, lines, verdicts, wire := 0, "", [], [], "";
    }

    method Handle(line: string)
      modifies this`last, this`verdicts, this`wire
      ensures State() == HandleLine(old(State()), line, firmwareHash, past)
    {
      var p := ParseSub(line);
      if p.None? {
        return;
      }
      var (suffix, value) := p.value;
      if suffix == COMMAND {
        wire := wire + PubWire(STATE, value, past);
        var (recorded, verdict) := OnFirmwareUrl(last, value, firmwareHash);
        last := recorded;
        verdicts := verdicts + [verdict];
      } else {
        var topic := EchoTopic(suffix);
        if topic.Some? {
          wire := wire + PubWire(topic.value, value, past);
        }
      }
    }

    /** One polled byte: the fixed buffer is the framer's, and each completed line is handled once. */
    method Receive(ch: char)
      requires Valid()
      modifies this, buf
      ensures Valid() && buf == old(buf)
      ensures Rx() == Accept(Rules(RX_MAX, true), old(Rx()), ch)
      ensures old(lines) <= lines && |lines| <= |old(lines)| + 1
      ensures State() == if |lines| == |old(lines)| then old(State())
                         else HandleLine(old(State()), lines[|lines| - 1], firmwareHash, past)
    {
      if ch == '\n' || ch == '\r' {
        if len > 0 {
          var line := buf[..len];
          buf[len] := '\0';
          Handle(line);
          lines := lines + [line];
          len := 0;
        }
      } else if len < RX_MAX {
        buf[len] := ch;
        len := len + 1;
        assert buf[..len] == old(buf[..len]) + [ch];
      } else {
        len := 0;
      }
    }

    /** The receive loop over a run of bytes: lines are framed and handled in the order they complete. */
    method Listen(bytes: string)
      requires Valid()
      modifies this, buf
      ensures Valid() && buf == old(buf)
      ensures Rx() == Feed(Rules(RX_MAX, true), old(Rx()), bytes)
      ensures old(lines) <= lines
      ensures State() == HandleAll(old(State()), lines[|old(lines)|..], firmwareHash, past)
    {
      ghost var rx, board, first := Rx(), State(), lines;
      for i := 0 to |bytes|
        invariant Valid() && buf == old(buf)
        invariant Rx() == Feed(Rules(RX_MAX, true), rx, bytes[..i])
        invariant first <= lines
        invariant State() == HandleAll(board, lines[|first|..], firmwareHash, past)
      {
        FeedOneMore(Rules(RX_MAX, true), rx, bytes, i);
        ghost var before := lines;
        Receive(bytes[i]);
        HandleOneMore(board, before, lines, |first|, firmwareHash, past);
      }
      assert bytes[..|bytes|] == bytes;
    }
  }

  lemma FeedOneMore(r: Rules, f: Framer, bytes: string, i: nat)
    requires i < |bytes|
    ensures Feed(r, f, bytes[..i + 1]) == Accept(r, Feed(r, f, bytes[..i]), bytes[i])
  {
    assert bytes[..i + 1][..i] == bytes[..i];
  }

  lemma HandleOneMore(b: Board, before: seq<string>, lines: seq<string>, n: nat, firmwareHash: string,
                      past: int -> char)
    requires n <= |before| && before <= lines && |lines| <= |before| + 1
    ensures HandleAll(b, lines[n..], firmwareHash, past) ==
            if |lines| == |before| then HandleAll(b, before[n..], firmwareHash, past)
            else HandleLine(HandleAll(b, before[n..], firmwareHash, past), lines[|lines| - 1], firmwareHash, past)
  {
    if |lines| > |before| {
      assert lines[n..][..|lines| - n - 1] == before[n..];
    } else {
      assert lines == before;
    }
  }

  // --- acting once per change ---------------------------------------------------------------------

  /** A token sent again at once is recognised exactly when it is shorter than the 64-byte record. */
  lemma RepeatIsRecognised(last: string, value: string, firmwareHash: string)
    ensures var (recorded, _) := OnFirmwareUrl(last, value, firmwareHash);
            OnFirmwareUrl(recorded, value, firmwareHash).1.Duplicate? <==>
            |value| < 64 || SameUpTo(value, last, 64)
  {
  }

  /** A new token is malformed without a bar; with one, it is a no-op iff it names the running hash, and
      otherwise would flash exactly what follows the bar. */
  lemma NewTokenVerdict(last: string, hash: string, url: string, firmwareHash: string)
    requires '|' !in hash
    ensures !SameUpTo(hash, last, TOKEN_SIZE) ==> OnFirmwareUrl(last, hash, firmwareHash).1.Malformed?
    ensures var token := hash + "|" + url;
            !SameUpTo(token, last, TOKEN_SIZE) ==>
              OnFirmwareUrl(last, token, firmwareHash).1 ==
              if hash == firmwareHash then AlreadyRunning else WouldFlash(url)
  {
    var token := hash + "|" + url;
    CutAtFirst(hash, '|', url);
    assert token[..|hash|] == hash && token[|hash| + 1..] == url;
    assert IndexOf(hash, '|').None?;
  }

  /** A command on any other property is echoed on that property's state topic exactly
      when the property has a name and the topic fits its buffer. */
  lemma UnknownCommandEchoed(property: string)
    ensures EchoTopic(property + "/command") == Some(property + "/state") <==>
            0 < |property| && |property| + 6 <= 127
  {
    var suffix := property + "/command";
    assert |suffix| == |property| + 8;
    assert suffix[|suffix| - 8..] == "/command" && suffix[..|suffix| - 8] == property;
  }

  /** And that is all it does: neither the recorded token nor the verdicts change. */
  lemma UnknownCommandHandled(b: Board, property: string, value: string, firmwareHash: string, past: int -> char)
    requires 0 < |property| && |property| + 6 <= STATE_MAX && property + "/command" != COMMAND
    requires ' ' !in property && '\0' !in property && '\0' !in value
    ensures HandleLine(b, "SUB " + (property + "/command") + " " + value, firmwareHash, past) ==
            b.(wire := b.wire + PubWire(property + "/state", value, past))
  {
    SubInverts(property + "/command", value);
    UnknownCommandEchoed(property);
  }

  function Tokens(last: string, values: seq<string>, firmwareHash: string): (r: (string, seq<Verdict>)) {
    if values == [] then (last, []) else
      var (l, vs) := Tokens(last, values[..|values| - 1], firmwareHash);
      var (l', v) := OnFirmwareUrl(l, values[|values| - 1], firmwareHash);
      (l', vs + [v])
  }

  lemma ShortToken(last: string, value: string, firmwareHash: string)
    requires |last| < TOKEN_SIZE && |value| < TOKEN_SIZE
    ensures OnFirmwareUrl(last, value, firmwareHash).0 == value
    ensures OnFirmwareUrl(last, value, firmwareHash).1.Duplicate? <==> value == last
  {
  }

  /** What is on record when token `i` arrives. */
  function Before(values: seq<string>, i: nat): (v: string)
    requires i <= |values|
  {
    if i == 0 then "" else values[i - 1]
  }

  /** The verdicts are duplicates exactly where a token repeats the one before it. */
  ghost predicate ActedOnce(values: seq<string>, verdicts: seq<Verdict>) {
    && |verdicts| == |values|
    && forall i :: 0 <= i < |values| ==> (verdicts[i].Duplicate? <==> values[i] == Before(values, i))
  }

  lemma VerdictAt(values: seq<string>, init: seq<string>, verdicts: seq<Verdict>, v: Verdict, i: nat)
    requires values != [] && init == values[..|values| - 1] && ActedOnce(init, verdicts) && i < |values|
    requires v.Duplicate? <==> values[|values| - 1] == Before(values, |values| - 1)
    ensures (verdicts + [v])[i].Duplicate? <==> values[i] == Before(values, i)
  {
    if i < |init| {
      assert verdicts[i].Duplicate? <==> init[i] == Before(init, i);
    }
  }

  lemma ActsOnceMore(values: seq<string>, verdicts: seq<Verdict>, v: Verdict)
    requires values != [] && ActedOnce(values[..|values| - 1], verdicts)
    requires v.Duplicate? <==> values[|values| - 1] == Before(values, |values| - 1)
    ensures ActedOnce(values, verdicts + [v])
  {
    forall i | 0 <= i < |values|
      ensures (verdicts + [v])[i].Duplicate? <==> values[i] == Before(values, i)
    {
      VerdictAt(values, values[..|values| - 1], verdicts, v, i);
    }
  }

  lemma TokenStep(values: seq<string>, last: string, verdicts: seq<Verdict>, firmwareHash: string)
    requires values != [] && last == Before(values, |values| - 1) && |last| < TOKEN_SIZE
    requires |values[|values| - 1]| < TOKEN_SIZE && ActedOnce(values[..|values| - 1], verdicts)
    ensures var (recorded, v) := OnFirmwareUrl(last, values[|values| - 1], firmwareHash);
            recorded == values[|values| - 1] && ActedOnce(values, verdicts + [v])
  {
    ShortToken(last, values[|values| - 1], firmwareHash);
    ActsOnceMore(values, verdicts, OnFirmwareUrl(last, values[|values| - 1], firmwareHash).1);
  }

  /** Over any sequence of tokens shorter than 64 characters, one is acted on exactly when it differs from
      the one before it, or, for the first, from the empty record. */
  lemma {:induction false} ActsOncePerChange(values: seq<string>, firmwareHash: string)
    requires forall i :: 0 <= i < |values| ==> |values[i]| < TOKEN_SIZE
    ensures var (last, verdicts) := Tokens("", values, firmwareHash);
            last == Before(values, |values|) && ActedOnce(values, verdicts)
  {
    if values != [] {
      var init := values[..|values| - 1];
      ActsOncePerChange(init, firmwareHash);
      var (last, verdicts) := Tokens("", init, firmwareHash);
      assert last == Before(values, |values| - 1);
      TokenStep(values, last, verdicts, firmwareHash);
    }
  }

  // --- the bridge ---------------------------------------------------------------------------------

  datatype Message = Message(topic: string, retain: bool, value: string)

  datatype Parsed = Blank | Comment | Noise | Pub(suffix: string, value: string)

  /** One line of text read from the serial port. */
  function ParseUp(text: string): (p: Parsed) {
    var line := TrimSpace(text);
    if line == "" then Blank
    else if StartsWith(line, "#") then Comment
    else if !StartsWith(line, "PUB ") then Noise
    else
      var rest := line[4..];
      var sp := IndexOf(rest, ' ');
      if sp.None? then Noise else Pub(rest[..sp.value], rest[sp.value + 1..])
  }

  function Publication(device: string, p: Parsed): (m: Message)
    requires p.Pub?
  {
    if p.suffix == "announce" then Message("torpor/announce/" + device, true, p.value)
    else Message(device + "/" + p.suffix, p.suffix == "status", p.value)
  }

  // The scanner's buffer holds 4096 bytes, the line feed included.
  const SCAN_MAX := 4095

  function DropCR(line: string): (r: string) {
    if line != [] && line[|line| - 1] == '\r' then line[..|line| - 1] else line
  }

  /** The next line a scanner finds, and what is left: cut at LF, one CR dropped. It stops for good at the
      end of input and at a line that does not fit. */
  function NextLine(bytes: string): (r: Option<(string, string)>)
    ensures r.Some? ==> |r.value.1| < |bytes|
  {
    var lf := IndexOf(bytes, '\n');
    if lf.None? then if bytes == [] || |bytes| > SCAN_MAX then None else Some((DropCR(bytes), []))
    else if lf.value > SCAN_MAX then None
    else Some((DropCR(bytes[..lf.value]), bytes[lf.value + 1..]))
  }

  function ScanLines(bytes: string): (lines: seq<string>)
    decreases |bytes|
  {
    var next := NextLine(bytes);
    if next.None? then [] else [next.value.0] + ScanLines(next.value.1)
  }

  /** The lines still to come once the next has been found. */
  function Remaining(next: Option<(string, string)>): (lines: seq<string>) {
    if next.None? then [] else [next.value.0] + ScanLines(next.value.1)
  }

  lemma OneMoreScanned(read: seq<string>, next: Option<(string, string)>)
    requires next.Some?
    ensures read + Remaining(next) == (read + [next.value.0]) + Remaining(NextLine(next.value.1))
  {
    assert ScanLines(next.value.1) == Remaining(NextLine(next.value.1));
  }

  /** What one line of text puts on the broker, if anything. */
  function Published(device: string, text: string): (m: Option<Message>) {
    var p := ParseUp(text);
    if p.Pub? then Some(Publication(device, p)) else None
  }

  function Listed(m: Option<Message>): (ms: seq<Message>) {
    if m.Some? then [m.value] else []
  }

  function Publications(device: string, lines: seq<string>): (ms: seq<Message>) {
    if lines == [] then [] else
      Publications(device, lines[..|lines| - 1]) + Listed(Published(device, lines[|lines| - 1]))
  }

  lemma OneMorePublication(device: string, lines: seq<string>, text: string)
    ensures Publications(device, lines + [text]) == Publications(device, lines) + Listed(Published(device, text))
  {
    assert (lines + [text])[..|lines|] == lines;
  }

  function NoiseIn(text: string): (n: nat) {
    if ParseUp(text).Noise? then 1 else 0
  }

  /** How many of a list of lines are noise. */
  function Noises(lines: seq<string>): (n: nat) {
    if lines == [] then 0 else Noises(lines[..|lines| - 1]) + NoiseIn(lines[|lines| - 1])
  }

  /** What the bridge has published, and how many lines it counted as published and as noise. */
  datatype Tally = Tally(published: seq<Message>, up: nat, dropped: nat)

  function AddLine(device: string, b: Tally, text: string): (r: Tally) {
    var ms := Listed(Published(device, text));
    Tally(b.published + ms, b.up + |ms|, b.dropped + NoiseIn(text))
  }

  function AddLines(device: string, b: Tally, lines: seq<string>): (r: Tally) {
    if lines == [] then b else AddLine(device, AddLines(device, b, lines[..|lines| - 1]), lines[|lines| - 1])
  }

  lemma OneMoreAdded(device: string, b: Tally, lines: seq<string>, text: string)
    ensures AddLines(device, b, lines + [text]) == AddLine(device, AddLines(device, b, lines), text)
  {
    assert (lines + [text])[..|lines|] == lines;
  }

  lemma AddedOneMore(b: Tally, ms: seq<Message>, n: nat, more: seq<Message>, k: nat)
    ensures Tally((b.published + ms) + more, (b.up + |ms|) + |more|, (b.dropped + n) + k) ==
            Tally(b.published + (ms + more), b.up + |ms + more|, b.dropped + (n + k))
  {
    assert (b.published + ms) + more == b.published + (ms + more);
  }

  lemma {:induction false} AddLinesMeans(device: string, b: Tally, lines: seq<string>)
    ensures AddLines(device, b, lines) ==
            Tally(b.published + Publications(device, lines), b.up + |Publications(device, lines)|,
                  b.dropped + Noises(lines))
  {
    if lines == [] {
      assert b.published + [] == b.published;
    } else {
      var init, text := lines[..|lines| - 1], lines[|lines| - 1];
      AddLinesMeans(device, b, init);
      AddedOneMore(b, Publications(device, init), Noises(init), Listed(Published(device, text)), NoiseIn(text));
    }
  }

  function TrimPrefix(s: string, prefix: string): (r: string) {
    if prefix <= s then s[|prefix|..] else s
  }

  function SubLine(device: string, topic: string, payload: string): (line: string) {
    "SUB " + TrimPrefix(topic, device + "/") + " " + payload
  }

  class Bridge {
    const device: string
    var up: nat
    var down: nat
    var dropped: nat
    var published: seq<Message>

    constructor (device: string)
      ensures this.device == device && up == down == dropped == 0 && published == []
    {
      this.device := device;
      up, down, dropped, published := 0, 0, 0, [];
    }

    function State(): Tally
      reads this
    {
      Tally(published, up, dropped)
    }

    /** Device to broker: exactly one of published, dropped and ignored, and counted as such. */
    method ReadLine(text: string)
      modifies this
      ensures State() == AddLine(device, old(State()), text) && down == old(down)
    {
      var line := TrimSpace(text);
      if line == "" {
        return;
      }
      if StartsWith(line, "#") {
        return;
      }
      if !StartsWith(line, "PUB ") {
        dropped := dropped + 1;
        return;
      }
      var rest := line[4..];
      var sp := IndexOf(rest, ' ');
      if sp.None? {
        dropped := dropped + 1;
        return;
      }
      var suffix, value := rest[..sp.value], rest[sp.value + 1..];
      var topic := device + "/" + suffix;
      var retain := false;
      if suffix == "announce" {
        topic := "torpor/announce/" + device;
        retain := true;
      }
      if suffix == "status" {
        retain := true;
      }
      published := published + [Message(topic, retain, value)];
      up := up + 1;
    }

    /** Every line the scanner finds, in order. */
    method ReadLines(bytes: string)
      modifies this
      ensures published == old(published) + Publications(device, ScanLines(bytes))
      ensures up == old(up) + |Publications(device, ScanLines(bytes))| && down == old(down)
      ensures dropped == old(dropped) + Noises(ScanLines(bytes))
    {
      ghost var before, read: seq<string> := State(), [];
      var next := NextLine(bytes);
      assert Remaining(next) == ScanLines(bytes);
      while next.Some?
        invariant ScanLines(bytes) == read + Remaining(next)
        invariant State() == AddLines(device, before, read) && down == old(down)
        decreases if next.Some? then |next.value.1| + 1 else 0
      {
        OneMoreScanned(read, next);
        OneMoreAdded(device, before, read, next.value.0);
        read := read + [next.value.0];
        ReadLine(next.value.0);
        next := NextLine(next.value.1);
      }
      assert ScanLines(bytes) == read;
      AddLinesMeans(device, before, read);
    }

    /** Device to broker until the port closes, and then the retained notice that the device is
        unreachable. */
    method ReadLoop(bytes: string)
      modifies this
      ensures published == old(published) + Publications(device, ScanLines(bytes)) +
                           [Message(device + "/status", true, "offline")]
      ensures up == old(up) + |Publications(device, ScanLines(bytes))| && down == old(down)
      ensures dropped == old(dropped) + Noises(ScanLines(bytes))
    {
      ReadLines(bytes);
      published := published + [Message(device + "/status", true, "offline")];
    }

    /** Broker to device. */
    method OnCommand(topic: string, payload: string, writes: bool) returns (line: string)
      modifies this`down
      ensures line == SubLine(device, topic, payload) + "\n"
      ensures down == old(down) + if writes then 1 else 0
    {
      var suffix := TrimPrefix(topic, device + "/");
      line := "SUB " + suffix + " " + payload + "\n";
      if writes {
        down := down + 1;
      }
    }
  }

  // --- the protocol inverts ----------------------------------------------------------------------------

  /** A command reaches the device's parser with its suffix and value intact exactly when the suffix has
      no space, for values and suffixes that are C strings. */
  lemma SubInverts(suffix: string, value: string)
    requires '\0' !in suffix && '\0' !in value
    ensures ParseSub("SUB " + suffix + " " + value) == Some((suffix, value)) <==> ' ' !in suffix
  {
    var line := "SUB " + suffix + " " + value;
    var rest := suffix + " " + value;
    assert '\0' !in line;
    assert line == "SUB " + rest;
    assert line[..4] == "SUB " && line[4..] == rest;
    CutAtFirst(suffix, ' ', value);
    assert rest[..|suffix|] == suffix && rest[|suffix| + 1..] == value;
  }

  lemma TrimLeftKeeps(s: string)
    requires s != [] && !IsSpace(s[0])
    ensures TrimLeft(s) == s
  {
  }

  /** TrimSpace shortens a text that starts with a printing character exactly when it ends in space. */
  lemma TrimmedOnlyAtEnd(s: string)
    requires s != [] && !IsSpace(s[0])
    ensures TrimSpace(s) == s <==> !IsSpace(s[|s| - 1])
    ensures TrimSpace(s) <= s
  {
    TrimLeftKeeps(s);
    TrimRightIsPrefix(s);
    if IsSpace(s[|s| - 1]) {
      assert |TrimRight(s)| <= |s| - 1;
    }
  }

  lemma {:induction false} TrimRightIsPrefix(s: string)
    ensures TrimRight(s) <= s
  {
    if s != [] && IsSpace(s[|s| - 1]) {
      TrimRightIsPrefix(s[..|s| - 1]);
    }
  }

  lemma PubLength(text: string)
    requires ParseUp(text).Pub?
    ensures var p := ParseUp(text); |TrimSpace(text)| == |p.suffix| + |p.value| + 5
  {
  }

  /** A line that is not trimmed is cut at the first space after "PUB ". */
  lemma PubUntrimmed(line: string, suffix: string, value: string)
    requires line == "PUB " + (suffix + " " + value) && TrimSpace(line) == line
    ensures ParseUp(line) == Pub(suffix, value) <==> ' ' !in suffix
  {
    var rest := suffix + " " + value;
    assert line[..4] == "PUB " && line[4..] == rest;
    CutAtFirst(suffix, ' ', value);
    assert rest[..|suffix|] == suffix && rest[|suffix| + 1..] == value;
  }

  /** A publication is recovered from its line exactly when the suffix has no space and the value is
      non-empty and does not end in white space. */
  lemma PubInverts(suffix: string, value: string)
    ensures ParseUp("PUB " + suffix + " " + value) == Pub(suffix, value) <==>
            ' ' !in suffix && value != "" && !IsSpace(value[|value| - 1])
  {
    var line := "PUB " + suffix + " " + value;
    assert line == "PUB " + (suffix + " " + value);
    TrimmedOnlyAtEnd(line);
    if value == "" || IsSpace(value[|value| - 1]) {
      assert IsSpace(line[|line| - 1]);
      if ParseUp(line) == Pub(suffix, value) {
        PubLength(line);
      }
    } else {
      PubUntrimmed(line, suffix, value);
    }
  }

  /** Where a publication goes: an announcement to the fleet's enrollment topic, retained; a status to the
      device's own, retained; anything else to the device's own, not retained. */
  lemma WherePublished(device: string, suffix: string, value: string)
    requires ' ' !in suffix && value != "" && !IsSpace(value[|value| - 1])
    ensures var m := Published(device, "PUB " + suffix + " " + value);
            && m.Some? && m.value.value == value
            && (suffix == "announce" ==> m.value.topic == "torpor/announce/" + device && m.value.retain)
            && (suffix != "announce" ==> m.value.topic == device + "/" + suffix)
            && (m.value.retain <==> suffix == "announce" || suffix == "status")
  {
    PubInverts(suffix, value);
  }

  /** "PUB ", a topic without a space, a space and the rest. */
  ghost predicate Publishes(t: string) {
    exists suffix: string, value: string :: t == "PUB " + (suffix + " " + value) && ' ' !in suffix
  }

  lemma PublishesHasCut(t: string, suffix: string, value: string)
    requires t == "PUB " + (suffix + " " + value) && ' ' !in suffix
    ensures StartsWith(t, "PUB ") && IndexOf(t[4..], ' ').Some?
  {
    assert t[..4] == "PUB " && t[4..] == suffix + " " + value;
    CutAtFirst(suffix, ' ', value);
  }

  lemma CutPublishes(t: string)
    requires StartsWith(t, "PUB ") && IndexOf(t[4..], ' ').Some?
    ensures Publishes(t)
  {
    var rest := t[4..];
    var sp := IndexOf(rest, ' ').value;
    assert rest == rest[..sp] + " " + rest[sp + 1..];
    assert t == t[..4] + rest;
    assert t == "PUB " + (rest[..sp] + " " + rest[sp + 1..]) && ' ' !in rest[..sp];
  }

  /** What becomes of a line of text, once trimmed: nothing if it is blank or a comment; published if it has
      that shape; and noise otherwise. */
  lemma LineFate(device: string, text: string, t: string)
    requires t == TrimSpace(text)
    ensures if t == "" || t[0] == '#' then Published(device, text).None? && NoiseIn(text) == 0
            else (Published(device, text).Some? <==> Publishes(t)) && (NoiseIn(text) == 0 <==> Publishes(t))
  {
    if t != "" && t[0] != '#' {
      if Publishes(t) {
        var suffix: string, value: string :| t == "PUB " + (suffix + " " + value) && ' ' !in suffix;
        PublishesHasCut(t, suffix, value);
      } else if StartsWith(t, "PUB ") && IndexOf(t[4..], ' ').Some? {
        CutPublishes(t);
      }
    }
  }

  // --- a whole session -----------------------------------------------------------------------------------

  /** A firmware token that survives the trip down: no line break or NUL, and short enough for the
      device's line buffer once "SUB text/firmware_url/command " stands before it. */
  predicate Shippable(value: string) {
    Plain(value) && '\0' !in value && |value| + 30 <= RX_MAX
  }

  function CommandLine(value: string): (line: string) {
    "SUB " + COMMAND + " " + value
  }

  function EchoLine(value: string): (line: string) {
    "PUB " + STATE + " " + value + "\r\n"
  }

  /** The bridge prints exactly that line for the device's own command topic. */
  lemma BridgePrintsCommand(device: string, value: string)
    ensures SubLine(device, device + "/" + COMMAND, value) == CommandLine(value)
  {
    assert (device + "/" + COMMAND)[|device + "/"|..] == COMMAND;
    assert device + "/" <= device + "/" + COMMAND;
  }

  lemma TopicsArePlain()
    ensures |COMMAND| == 25 && |STATE| == 23
    ensures ' ' !in COMMAND && '\0' !in COMMAND && Plain(COMMAND)
    ensures ' ' !in STATE && '\0' !in STATE
  {
  }

  lemma CommandIsSendable(value: string)
    requires Shippable(value)
    ensures Sendable(Rules(RX_MAX, true), CommandLine(value))
  {
    TopicsArePlain();
    var line := CommandLine(value);
    assert line == ("SUB " + COMMAND + " ") + value;
    assert |line| == 30 + |value|;
    assert Plain("SUB ") && '\0' !in "SUB ";
  }

  /** The longest firmware token the device's buffer takes: 161 characters. */
  lemma LongestCommand(value: string)
    ensures Sendable(Rules(RX_MAX, true), CommandLine(value)) <==> Plain(value) && '\0' !in value && |value| <= 161
  {
    TopicsArePlain();
    var line := CommandLine(value);
    assert line == ("SUB " + COMMAND + " ") + value;
    if Plain(value) && '\0' !in value && |value| <= 161 {
      CommandIsSendable(value);
    } else {
      assert forall c :: c in value ==> c in line;
    }
  }

  lemma CommandIsHandled(b: Board, value: string, firmwareHash: string, past: int -> char)
    requires Shippable(value)
    ensures var (last, verdict) := OnFirmwareUrl(b.last, value, firmwareHash);
            HandleLine(b, CommandLine(value), firmwareHash, past) ==
            Board(last, b.verdicts + [verdict], b.wire + EchoLine(value))
  {
    TopicsArePlain();
    SubInverts(COMMAND, value);
    PubWireExact(STATE, value, past);
  }

  function CommandLines(values: seq<string>): (lines: seq<string>)
    ensures |lines| == |values| && forall i :: 0 <= i < |values| ==> lines[i] == CommandLine(values[i])
  {
    if values == [] then [] else CommandLines(values[..|values| - 1]) + [CommandLine(values[|values| - 1])]
  }

  function Echoes(values: seq<string>): (wire: string) {
    if values == [] then [] else Echoes(values[..|values| - 1]) + EchoLine(values[|values| - 1])
  }

  lemma {:induction false} AllHandled(values: seq<string>, firmwareHash: string, past: int -> char)
    requires forall i :: 0 <= i < |values| ==> Shippable(values[i])
    ensures var (last, verdicts) := Tokens("", values, firmwareHash);
            HandleAll(Board("", [], ""), CommandLines(values), firmwareHash, past) ==
            Board(last, verdicts, Echoes(values))
  {
    if values != [] {
      var init, v := values[..|values| - 1], values[|values| - 1];
      AllHandled(init, firmwareHash, past);
      assert CommandLines(values)[..|values| - 1] == CommandLines(init);
      CommandIsHandled(HandleAll(Board("", [], ""), CommandLines(init), firmwareHash, past), v, firmwareHash, past);
    }
  }

  /** Any list of shippable firmware commands, sent by the bridge and received in any chunks: every line
      arrives, every token is echoed in order and intact, and the verdicts are those of the dedup guard
      run over the tokens themselves. */
  lemma Session(values: seq<string>, chunks: seq<string>, firmwareHash: string, past: int -> char)
    requires forall i :: 0 <= i < |values| ==> Shippable(values[i])
    requires Joined(chunks) == SendAll(CommandLines(values))
    ensures FeedChunks(Rules(RX_MAX, true), Framer([], []), chunks) == Framer([], CommandLines(values))
    ensures var board := HandleAll(Board("", [], ""), CommandLines(values), firmwareHash, past);
            board.wire == Echoes(values) && board.verdicts == Tokens("", values, firmwareHash).1
  {
    forall i | 0 <= i < |values|
      ensures Sendable(Rules(RX_MAX, true), CommandLines(values)[i])
    {
      CommandIsSendable(values[i]);
    }
    LinesArriveInChunks(Rules(RX_MAX, true), CommandLines(values), chunks);
    AllHandled(values, firmwareHash, past);
  }

  // --- and back up ---------------------------------------------------------------------------------------

  /** Whole lines, each short enough for the scanner. */
  ghost predicate WholeLines(wire: string)
    decreases |wire|
  {
    wire == [] || (var lf := IndexOf(wire, '\n'); lf.Some? && lf.value <= SCAN_MAX && WholeLines(wire[lf.value + 1..]))
  }

  lemma IndexInPrefix(a: string, b: string, c: char)
    requires c in a
    ensures IndexOf(a + b, c) == IndexOf(a, c)
  {
    var i, j := IndexOf(a, c).value, IndexOf(a + b, c).value;
    assert (a + b)[i] == c && (a + b)[..i] == a[..i];
  }

  lemma FirstLineFirst(wire: string, more: string)
    requires wire != [] && WholeLines(wire)
    ensures var i := IndexOf(wire, '\n').value;
            && NextLine(wire) == Some((DropCR(wire[..i]), wire[i + 1..]))
            && NextLine(wire + more) == Some((DropCR(wire[..i]), wire[i + 1..] + more))
            && IndexOf(wire + more, '\n') == Some(i) && (wire + more)[i + 1..] == wire[i + 1..] + more
  {
    var i := IndexOf(wire, '\n').value;
    IndexInPrefix(wire, more, '\n');
    assert (wire + more)[..i] == wire[..i] && (wire + more)[i + 1..] == wire[i + 1..] + more;
  }

  lemma OnlyLine(line: string)
    requires '\n' !in line && |line| <= SCAN_MAX
    ensures WholeLines(line + "\n") && ScanLines(line + "\n") == [DropCR(line)]
  {
    var w := line + "\n";
    assert w == line + ['\n'] + [];
    CutAtFirst(line, '\n', []);
    assert w[..|line|] == line && w[|line| + 1..] == [];
    assert NextLine(w) == Some((DropCR(line), []));
    assert ScanLines([]) == [];
  }

  /** The longest line the scanner finds: 4095 bytes. At a longer one it stops for good, whatever follows. */
  lemma LongestLine(line: string, more: string)
    requires '\n' !in line
    ensures |line| <= 4095 ==> NextLine(line + "\n" + more) == Some((DropCR(line), more))
    ensures |line| > 4095 ==> ScanLines(line + "\n" + more) == []
  {
    var w := line + "\n" + more;
    assert w == line + ['\n'] + more;
    CutAtFirst(line, '\n', more);
    assert w[..|line|] == line && w[|line| + 1..] == more;
  }

  lemma {:induction false} OneMoreLine(wire: string, line: string)
    requires WholeLines(wire) && '\n' !in line && |line| <= SCAN_MAX
    ensures WholeLines(wire + (line + "\n")) && ScanLines(wire + (line + "\n")) == ScanLines(wire) + [DropCR(line)]
    decreases |wire|
  {
    if wire == [] {
      OnlyLine(line);
      assert wire + (line + "\n") == line + "\n";
    } else {
      FirstLineFirst(wire, line + "\n");
      OneMoreLine(wire[IndexOf(wire, '\n').value + 1..], line);
    }
  }

  /** The line the scanner makes of an echo. */
  function EchoText(value: string): (text: string) {
    "PUB " + STATE + " " + value
  }

  function EchoTexts(values: seq<string>): (texts: seq<string>) {
    if values == [] then [] else EchoTexts(values[..|values| - 1]) + [EchoText(values[|values| - 1])]
  }

  lemma {:induction false} EchoesScan(values: seq<string>)
    requires forall i :: 0 <= i < |values| ==> Shippable(values[i])
    ensures WholeLines(Echoes(values)) && ScanLines(Echoes(values)) == EchoTexts(values)
  {
    if values != [] {
      var init, v := values[..|values| - 1], values[|values| - 1];
      EchoesScan(init);
      TopicsArePlain();
      var line := EchoText(v) + "\r";
      assert DropCR(line) == EchoText(v);
      assert EchoLine(v) == line + "\n";
      assert '\n' !in line;
      OneMoreLine(Echoes(init), line);
    }
  }

  /** A value that a line of text gives back. */
  predicate Printable(value: string) {
    value != "" && !IsSpace(value[|value| - 1])
  }

  function StateMessage(device: string, value: string): (m: Message) {
    Message(device + "/" + STATE, false, value)
  }

  function StateMessages(device: string, values: seq<string>): (ms: seq<Message>)
    ensures |ms| == |values|
  {
    if values == [] then [] else
      StateMessages(device, values[..|values| - 1]) + [StateMessage(device, values[|values| - 1])]
  }

  /** The bridge turns one echo back into its value on the state topic, not retained, exactly when the value
      is non-empty and does not end in white space. */
  lemma EchoComesBack(device: string, value: string)
    ensures Published(device, EchoText(value)) == Some(StateMessage(device, value)) <==> Printable(value)
  {
    TopicsArePlain();
    PubInverts(STATE, value);
    var p := ParseUp(EchoText(value));
    assert STATE != "announce" && STATE != "status" by {
      assert |"announce"| == 8 && |"status"| == 6;
    }
    if p.Pub? && Publication(device, p) == StateMessage(device, value) {
      var topic, start := device + "/" + STATE, device + "/";
      assert topic[|start|..] == STATE;
      assert (start + p.suffix)[|start|..] == p.suffix;
    }
  }

  lemma {:induction false} PublicationsAreFewer(device: string, lines: seq<string>)
    ensures |Publications(device, lines)| <= |lines|
  {
    if lines != [] {
      PublicationsAreFewer(device, lines[..|lines| - 1]);
    }
  }

  /** No later message makes up for one that is missing. */
  lemma NoneMissing(ms: seq<Message>, m: Option<Message>, ns: seq<Message>, n: Message)
    requires |ms| <= |ns|
    ensures ms + Listed(m) == ns + [n] <==> ms == ns && m == Some(n)
  {
    if ms + Listed(m) == ns + [n] {
      assert |Listed(m)| == 1;
      assert (ms + Listed(m))[|ms|] == m.value && (ns + [n])[|ns|] == n;
      assert (ms + Listed(m))[..|ms|] == ms && (ns + [n])[..|ns|] == ns;
    }
  }

  ghost predicate AllPrintable(values: seq<string>) {
    forall i :: 0 <= i < |values| ==> Printable(values[i])
  }

  lemma LastPrintable(values: seq<string>)
    requires values != []
    ensures AllPrintable(values) <==> AllPrintable(values[..|values| - 1]) && Printable(values[|values| - 1])
  {
    if AllPrintable(values[..|values| - 1]) && Printable(values[|values| - 1]) {
      forall i | 0 <= i < |values|
        ensures Printable(values[i])
      {
        assert i < |values| - 1 ==> values[i] == values[..|values| - 1][i];
      }
    }
  }

  lemma {:induction false} TextsComeBack(device: string, values: seq<string>)
    ensures |EchoTexts(values)| == |values|
    ensures Publications(device, EchoTexts(values)) == StateMessages(device, values) <==> AllPrintable(values)
  {
    if values != [] {
      var init, v := values[..|values| - 1], values[|values| - 1];
      TextsComeBack(device, init);
      PublicationsAreFewer(device, EchoTexts(init));
      OneMorePublication(device, EchoTexts(init), EchoText(v));
      NoneMissing(Publications(device, EchoTexts(init)), Published(device, EchoText(v)),
                  StateMessages(device, init), StateMessage(device, v));
      EchoComesBack(device, v);
      LastPrintable(values);
    }
  }

  /** The session's way back: what the device put on the wire, read by the bridge, publishes every value on
      the state topic in order exactly when each is non-empty and does not end in white space. */
  lemma EchoesComeBack(device: string, values: seq<string>)
    requires forall i :: 0 <= i < |values| ==> Shippable(values[i])
    ensures Publications(device, ScanLines(Echoes(values))) == StateMessages(device, values) <==>
            AllPrintable(values)
  {
    EchoesScan(values);
    TextsComeBack(device, values);
  }
}
