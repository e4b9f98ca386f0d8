/** Byte streams into lines: firmware/my_components/line_reader/line_reader.cpp, and the receive loop
    of firmware/nrf9160/src/main.c, which differs in ending a line at CR as well. */
module Framing {
  import opened Prelude
  import opened Text

  datatype Rules = Rules(max: nat, crEnds: bool)

  datatype Framer = Framer(buffer: string, delivered: seq<string>)

  function Flush(f: Framer): (g: Framer) {
    if f.buffer == [] then f else Framer([], f.delivered + [f.buffer])
  }

  function Accept(r: Rules, f: Framer, c: char): (g: Framer) {
    if c == '\r' then (if r.crEnds then Flush(f) else f)
    else if c == '\n' then Flush(f)
    else if |f.buffer| >= r.max then f.(buffer := [])
    else f.(buffer := f.buffer + [c])
  }

  function Feed(r: Rules, f: Framer, s: string): (g: Framer) {
    if s == [] then f else Accept(r, Feed(r, f, s[..|s| - 1]), s[|s| - 1])
  }

  class LineReader {
    const maxLineLength: nat
    var buffer: string
    var linesReceived: int
    var published: seq<string>

    constructor (maxLineLength: nat)
      ensures this.maxLineLength == maxLineLength && Valid() && State() == Framer([], [])
    {
      this.maxLineLength := maxLineLength;
      buffer, linesReceived, published := [], 0, [];
    }

    function State(): Framer
      reads this
    {
      Framer(buffer, published)
    }

    /** The 32-bit counter is the number of published lines, modulo its width. */
    ghost predicate Valid()
      reads this
    {
      linesReceived == |published| % 0x1_0000_0000
    }

    method PublishLine(line: string)
      requires Valid()
      modifies this`linesReceived, this`published
      ensures Valid() && published == old(published) + [line]
    {
      linesReceived := (linesReceived + 1) % 0x1_0000_0000;
      published := published + [line];
    }

    /** Drains whatever is available. */
    method Loop(available: string)
      requires Valid()
      modifies this
      ensures Valid() && State() == Feed(Rules(maxLineLength, false), old(State()), available)
    {
      for i := 0 to |available|
        invariant Valid() && State() == Feed(Rules(maxLineLength, false), old(State()), available[..i])
      {
        var c := available[i];
        assert available[..i + 1][..i] == available[..i];
        if c == '\r' {
          continue;
        }
        if c == '\n' {
          if buffer != [] {
            PublishLine(buffer);
            buffer := [];
          }
          continue;
        }
        if |buffer| >= maxLineLength {
          buffer := [];
          continue;
        }
        buffer := buffer + [c];
      }
      assert available[..|available|] == available;
    }
  }

  /** send_line: the text up to its first NUL, then LF. */
  function SendLine(line: string): (wire: string) {
    CString(line) + "\n"
  }

  // --- chunking -----------------------------------------------------------------------------------

  lemma {:induction false} FeedJoins(r: Rules, f: Framer, a: string, b: string)
    ensures Feed(r, f, a + b) == Feed(r, Feed(r, f, a), b)
  {
    if b == [] {
      assert a + b == a;
    } else {
      assert (a + b)[..|a + b| - 1] == a + b[..|b| - 1];
      FeedJoins(r, f, a, b[..|b| - 1]);
    }
  }

  function Joined(chunks: seq<string>): (s: string) {
    if chunks == [] then [] else Joined(chunks[..|chunks| - 1]) + chunks[|chunks| - 1]
  }

  function FeedChunks(r: Rules, f: Framer, chunks: seq<string>): (g: Framer) {
    if chunks == [] then f else Feed(r, FeedChunks(r, f, chunks[..|chunks| - 1]), chunks[|chunks| - 1])
  }

  /** How the bytes arrive makes no difference. */
  lemma {:induction false} ChunksDoNotMatter(r: Rules, f: Framer, chunks: seq<string>)
    ensures FeedChunks(r, f, chunks) == Feed(r, f, Joined(chunks))
  {
    if chunks != [] {
      ChunksDoNotMatter(r, f, chunks[..|chunks| - 1]);
      FeedJoins(r, f, Joined(chunks[..|chunks| - 1]), chunks[|chunks| - 1]);
    }
  }

  // --- what is delivered, on any stream -------------------------------------------------------------

  predicate Plain(s: string) {
    '\r' !in s && '\n' !in s
  }

  ghost predicate Sound(r: Rules, f: Framer, stream: string) {
    && |f.buffer| <= r.max && Plain(f.buffer) && (forall c :: c in f.buffer ==> c in stream)
    && forall i :: 0 <= i < |f.delivered| ==>
         && 1 <= |f.delivered[i]| <= r.max && Plain(f.delivered[i])
         && forall c :: c in f.delivered[i] ==> c in stream
  }

  /** On every byte stream each delivered line has length 1..max, no CR or LF, and no byte that was not
      received. */
  lemma {:induction false} DeliveredIsSound(r: Rules, s: string)
    ensures Sound(r, Feed(r, Framer([], []), s), s)
  {
    if s != [] {
      var init, c := s[..|s| - 1], s[|s| - 1];
      DeliveredIsSound(r, init);
      assert s == init + [c];
      assert forall d :: d in init ==> d in s;
    }
  }

  // --- what is delivered, line by line ----------------------------------------------------------------

  /** The part of a plain run that survives: whole multiples of max + 1 bytes are discarded. */
  function Tail(r: Rules, line: string): (t: string) {
    line[|line| - |line| % (r.max + 1)..]
  }

  lemma {:induction false} FeedPlain(r: Rules, done: seq<string>, line: string)
    requires Plain(line)
    ensures Feed(r, Framer([], done), line) == Framer(Tail(r, line), done)
  {
    if line != [] {
      var init, c := line[..|line| - 1], line[|line| - 1];
      assert line == init + [c];
      FeedPlain(r, done, init);
      TailGrows(r, init, c);
    }
  }

  lemma NextResidue(n: nat, P: nat)
    requires P > 0
    ensures (n + 1) % P == if n % P == P - 1 then 0 else n % P + 1
  {
    var q, k := n / P, n % P;
    assert n == q * P + k;
    if k == P - 1 {
      assert (q + 1) * P == q * P + P;
      DivModIs(n + 1, P, q + 1, 0);
    } else {
      DivModIs(n + 1, P, q, k + 1);
    }
  }

  /** The last `k` bytes of a text and one more. */
  lemma LastBytes(line: string, c: char, k: nat)
    requires k <= |line|
    ensures (line + [c])[|line| + 1 - (k + 1)..] == line[|line| - k..] + [c] && (line + [c])[|line| + 1..] == []
  {
  }

  lemma TailGrows(r: Rules, line: string, c: char)
    ensures Tail(r, line + [c]) == if |Tail(r, line)| >= r.max then [] else Tail(r, line) + [c]
  {
    NextResidue(|line|, r.max + 1);
    LastBytes(line, c, |line| % (r.max + 1));
  }

  /** Any plain line, of any length, ended by LF: what is delivered is its surviving tail, if that is not
      empty. An overlong line is therefore not dropped whole: its last bytes come out as a line. */
  lemma LineDeliversTail(r: Rules, done: seq<string>, line: string)
    requires Plain(line)
    ensures Feed(r, Framer([], done), line + "\n") ==
            Framer([], if Tail(r, line) == [] then done else done + [Tail(r, line)])
  {
    FeedPlain(r, done, line);
    assert (line + "\n")[..|line|] == line;
  }

  // --- carriage returns ---------------------------------------------------------------------------------

  function WithoutCR(s: string): (r: string) {
    if s == [] then [] else WithoutCR(s[..|s| - 1]) + if s[|s| - 1] == '\r' then [] else [s[|s| - 1]]
  }

  function CRAsLF(s: string): (r: string) {
    if s == [] then [] else CRAsLF(s[..|s| - 1]) + [if s[|s| - 1] == '\r' then '\n' else s[|s| - 1]]
  }

  /** The line reader does not see carriage returns, wherever they stand. */
  lemma {:induction false} CRIsSkipped(max: nat, f: Framer, s: string)
    ensures Feed(Rules(max, false), f, s) == Feed(Rules(max, false), f, WithoutCR(s))
  {
    if s != [] {
      var init := s[..|s| - 1];
      CRIsSkipped(max, f, init);
      if s[|s| - 1] == '\r' {
        assert WithoutCR(init) + [] == WithoutCR(init);
      } else {
        assert (WithoutCR(init) + [s[|s| - 1]])[..|WithoutCR(init)|] == WithoutCR(init);
      }
    }
  }

  /** To the modem's receive loop each is a line feed. */
  lemma {:induction false} CRIsLineFeed(max: nat, f: Framer, s: string)
    ensures Feed(Rules(max, true), f, s) == Feed(Rules(max, true), f, CRAsLF(s))
  {
    if s != [] {
      CRIsLineFeed(max, f, s[..|s| - 1]);
      assert CRAsLF(s)[..|CRAsLF(s)| - 1] == CRAsLF(s[..|s| - 1]);
    }
  }

  /** So a plain line ended by CR LF is delivered as if ended by LF, to both. */
  lemma CRLFEndsLine(r: Rules, done: seq<string>, line: string)
    requires Plain(line)
    ensures Feed(r, Framer([], done), line + "\r\n") == Feed(r, Framer([], done), line + "\n")
  {
    assert (line + "\r\n")[..|line| + 1] == line + "\r";
    assert (line + "\r")[..|line|] == line;
    assert (line + "\n")[..|line|] == line;
  }

  predicate Sendable(r: Rules, line: string) {
    line != [] && Plain(line) && '\0' !in line && |line| <= r.max
  }

  lemma SendableArrives(r: Rules, done: seq<string>, line: string)
    requires Sendable(r, line)
    ensures Feed(r, Framer([], done), SendLine(line)) == Framer([], done + [line])
  {
    LineDeliversTail(r, done, line);
    DivModIs(|line|, r.max + 1, 0, |line|);
    assert Tail(r, line) == line;
  }

  /** A line survives sending and framing exactly when it is non-empty, free of CR, LF and NUL, and
      within the limit. */
  lemma RoundTripExact(r: Rules, line: string)
    ensures Feed(r, Framer([], []), SendLine(line)) == Framer([], [line]) <==> Sendable(r, line)
  {
    if Sendable(r, line) {
      SendableArrives(r, [], line);
    } else {
      var g := Feed(r, Framer([], []), SendLine(line));
      DeliveredIsSound(r, SendLine(line));
      assert '\0' !in SendLine(line);
      assert forall l :: l in g.delivered ==> Sendable(r, l);
      assert line in [line];
    }
  }

  function SendAll(lines: seq<string>): (wire: string) {
    if lines == [] then [] else SendAll(lines[..|lines| - 1]) + SendLine(lines[|lines| - 1])
  }

  lemma OneMoreArrives(r: Rules, wire: string, done: seq<string>, line: string, sent: string, all: seq<string>)
    requires Arrives(r, wire, done) && Sendable(r, line) && sent == wire + SendLine(line) && all == done + [line]
    ensures Arrives(r, sent, all)
  {
    FeedJoins(r, Framer([], []), wire, SendLine(line));
    SendableArrives(r, done, line);
  }

  ghost predicate Arrives(r: Rules, wire: string, lines: seq<string>) {
    Feed(r, Framer([], []), wire) == Framer([], lines)
  }

  lemma {:induction false} AllArrive(r: Rules, lines: seq<string>)
    requires forall i :: 0 <= i < |lines| ==> Sendable(r, lines[i])
    ensures Arrives(r, SendAll(lines), lines)
  {
    if lines != [] {
      var init, line := lines[..|lines| - 1], lines[|lines| - 1];
      AllArrive(r, init);
      OneMoreArrives(r, SendAll(init), init, line, SendAll(lines), lines);
    }
  }

  /** Any list of sendable lines, cut into any chunks, is delivered exactly, in order, leaving nothing
      behind. */
  lemma LinesArriveInChunks(r: Rules, lines: seq<string>, chunks: seq<string>)
    requires forall i :: 0 <= i < |lines| ==> Sendable(r, lines[i])
    requires Joined(chunks) == SendAll(lines)
    ensures FeedChunks(r, Framer([], []), chunks) == Framer([], lines)
  {
    ChunksDoNotMatter(r, Framer([], []), chunks);
    AllArrive(r, lines);
  }
}
