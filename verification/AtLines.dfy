/** From modem bytes to responses: the framing of the reader loop, the classification of lines and what
    a command gets to see of them (internal/modem/at/engine.go, internal/modem/at/urc.go).
    A byte of the stream is one ASCII `char`. */
module AtLines {
  import opened Octets
  import opened Text

  // ---------------------------------------------------------------- framing

  const MAX_LINE := 4096

  datatype Item = Prompt | Line(text: string)

  /** What one byte does to the line buffer and what it lets the loop process. */
  function Feed(buf: string, b: char): (r: (string, seq<Item>))
    ensures |buf| <= MAX_LINE ==> |r.0| <= MAX_LINE
  {
    if b == '>' then ([], [Prompt])
    else if b == '\n' then
      var line := TrimSpace(buf);
      ([], if line != "" && line != ">" then [Line(line)] else [])
    else if b == '\r' then (buf, [])
    else if |buf| + 1 > MAX_LINE then ([], [])
    else (buf + [b], [])
  }

  function Frame(buf: string, bytes: string): (r: (string, seq<Item>))
    ensures |buf| <= MAX_LINE ==> |r.0| <= MAX_LINE
    decreases |bytes|
  {
    if bytes == [] then (buf, [])
    else
      var (buf', items) := Feed(buf, bytes[0]);
      var (buf'', rest) := Frame(buf', bytes[1..]);
      (buf'', items + rest)
  }

  lemma {:induction false} FrameConcat(buf: string, a: string, b: string)
    ensures var (mid, items) := Frame(buf, a);
            Frame(buf, a + b) == (Frame(mid, b).0, items + Frame(mid, b).1)
    decreases |a|
  {
    hide Feed;
    if a == [] {
      assert a + b == b;
      assert [] + Frame(buf, b).1 == Frame(buf, b).1;
    } else {
      assert (a + b)[1..] == a[1..] + b;
      var (buf', first) := Feed(buf, a[0]);
      FrameConcat(buf', a[1..], b);
      var (mid, rest) := Frame(buf', a[1..]);
      assert first + (rest + Frame(mid, b).1) == first + rest + Frame(mid, b).1;
    }
  }

  function Joined(chunks: seq<string>): string {
    if chunks == [] then [] else Joined(chunks[..|chunks| - 1]) + chunks[|chunks| - 1]
  }

  /** The reader loop over the results of successive reads, until the port ends. The outcome depends on the
      bytes only, not on how the reads cut them, and the buffer stays bounded. */
  method ReadLoop(chunks: seq<string>) returns (lineBuf: string, items: seq<Item>)
    ensures (lineBuf, items) == Frame([], Joined(chunks))
    ensures |lineBuf| <= MAX_LINE
  {
    hide Frame;
    lineBuf, items := [], [];
    FrameNothing([]);
    for r := 0 to |chunks|
      invariant (lineBuf, items) == Frame([], Joined(chunks[..r])) && |lineBuf| <= MAX_LINE
    {
      var buf := chunks[r];
      ghost var before := Joined(chunks[..r]);
      assert before + buf[..0] == before;
      for i := 0 to |buf|
        invariant (lineBuf, items) == Frame([], before + buf[..i]) && |lineBuf| <= MAX_LINE
      {
        var b := buf[i];
        assert before + buf[..i + 1] == before + buf[..i] + [b];
        FrameConcat([], before + buf[..i], [b]);
        FrameOne(lineBuf, b);
        assert items + [] == items;
        if b == '>' {
          items := items + [Prompt];
          lineBuf := [];
          continue;
        }
        if b == '\n' {
          var line := TrimSpace(lineBuf);
          lineBuf := [];
          if line != "" && line != ">" {
            items := items + [Line(line)];
          }
        } else if b != '\r' {
          lineBuf := lineBuf + [b];
          if |lineBuf| > MAX_LINE {
            lineBuf := [];
          }
        }
      }
      assert buf[..|buf|] == buf;
      assert chunks[..r + 1][..r] == chunks[..r];
    }
    assert chunks[..|chunks|] == chunks;
  }

  lemma FrameNothing(buf: string)
    ensures Frame(buf, []) == (buf, [])
  {
  }

  lemma FrameOne(buf: string, b: char)
    ensures Frame(buf, [b]) == Feed(buf, b)
  {
    hide Feed;
    assert [b][1..] == [];
    assert Frame(Feed(buf, b).0, []) == (Feed(buf, b).0, []);
    assert Feed(buf, b).1 + [] == Feed(buf, b).1;
  }

  // ---------------------------------------------------------------- a modem that keeps to the format

  /** A line that survives: trimmed, not too long, without the bytes that frame it. */
  predicate CleanLine(l: string) {
    && l != [] && |l| <= MAX_LINE && !IsSpace(l[0]) && !IsSpace(l[|l| - 1])
    && forall i :: 0 <= i < |l| ==> l[i] != '\n' && l[i] != '\r' && l[i] != '>'
  }

  predicate CleanItem(x: Item) { x.Line? ==> CleanLine(x.text) }

  function Rendered(x: Item): string {
    match x
    case Prompt => "\r\n> "
    case Line(l) => "\r\n" + l + "\r\n"
  }

  function RenderedAll(xs: seq<Item>): string {
    if xs == [] then [] else Rendered(xs[0]) + RenderedAll(xs[1..])
  }

  predicate Blank(buf: string) { buf == [] || buf == " " }

  lemma {:induction false} FramePlain(buf: string, l: string)
    requires forall i :: 0 <= i < |l| ==> l[i] != '\n' && l[i] != '\r' && l[i] != '>'
    requires |buf| + |l| <= MAX_LINE
    ensures Frame(buf, l) == (buf + l, [])
    decreases |l|
  {
    if l == [] {
      assert buf + l == buf;
    } else {
      FramePlain(buf + [l[0]], l[1..]);
      assert buf + [l[0]] + l[1..] == buf + l;
      assert Feed(buf, l[0]).1 + Frame(buf + [l[0]], l[1..]).1 == [];
    }
  }

  lemma FrameBreak(buf: string)
    ensures Frame(buf, "\r\n") == Feed(buf, '\n')
  {
    hide Feed;
    assert "\r\n" == "\r" + "\n";
    FrameConcat(buf, "\r", "\n");
    FrameOne(buf, '\r');
    FrameOne(buf, '\n');
    FeedReturn(buf);
    assert [] + Feed(buf, '\n').1 == Feed(buf, '\n').1;
  }

  lemma FeedReturn(buf: string)
    ensures Feed(buf, '\r') == (buf, [])
  {
  }

  lemma FeedBreak(buf: string)
    ensures Blank(buf) ==> Feed(buf, '\n') == ([], [])
    ensures CleanLine(buf) ==> Feed(buf, '\n') == ([], [Line(buf)])
  {
    hide TrimSpace, IsSpace;
    TrimBlank();
    if CleanLine(buf) {
      TrimIdle(buf);
      assert buf[0] != '>';
    }
  }

  lemma TrimBlank()
    ensures TrimSpace(" ") == [] && TrimSpace([]) == []
  {
    assert " "[1..] == [];
  }

  lemma FrameRendered(buf: string, x: Item)
    requires Blank(buf) && CleanItem(x)
    ensures Blank(Frame(buf, Rendered(x)).0) && Frame(buf, Rendered(x)).1 == [x]
  {
    hide Feed, Frame, TrimSpace, IsSpace;
    FrameBreak(buf);
    FeedBreak(buf);
    match x
    case Prompt =>
      assert Rendered(x) == "\r\n" + (">" + " ");
      FrameConcat(buf, "\r\n", ">" + " ");
      FrameConcat([], ">", " ");
      FramePrompt();
    case Line(l) =>
      assert Rendered(x) == "\r\n" + (l + "\r\n");
      FrameConcat(buf, "\r\n", l + "\r\n");
      FrameConcat([], l, "\r\n");
      FramePlain([], l);
      assert [] + l == l;
      FrameBreak(l);
      FeedBreak(l);
  }

  lemma FramePrompt()
    ensures Frame([], ">") == ([], [Prompt]) && Frame([], " ") == (" ", [])
  {
    FrameOne([], '>');
    FrameOne([], ' ');
    assert [] + [' '] == " ";
  }

  /** What the modem writes is what the engine chunks: every line and every prompt, in order. */
  lemma {:induction false} FramingRoundTrip(buf: string, xs: seq<Item>)
    requires Blank(buf) && forall i :: 0 <= i < |xs| ==> CleanItem(xs[i])
    ensures Blank(Frame(buf, RenderedAll(xs)).0) && Frame(buf, RenderedAll(xs)).1 == xs
    decreases |xs|
  {
    hide Frame, Rendered, CleanItem, Blank;
    if xs == [] {
      FrameNothing(buf);
    } else {
      FrameRendered(buf, xs[0]);
      FrameConcat(buf, Rendered(xs[0]), RenderedAll(xs[1..]));
      FramingRoundTrip(Frame(buf, Rendered(xs[0])).0, xs[1..]);
    }
  }

  /** 4096 bytes without a line break are kept; one more, and all of them are dropped. */
  lemma LongestLine(l: string, b: char)
    requires |l| == 4096 && forall i :: 0 <= i < |l + [b]| ==> (l + [b])[i] != '\n' && (l + [b])[i] != '\r' && (l + [b])[i] != '>'
    ensures Frame([], l) == (l, []) && Frame([], l + [b]) == ([], [])
  {
    hide Frame;
    assert forall i :: 0 <= i < |l| ==> l[i] == (l + [b])[i];
    assert b == (l + [b])[4096];
    FramePlain([], l);
    assert [] + l == l;
    FrameConcat([], l, [b]);
    FrameOne(l, b);
    assert Frame(l, [b]) == ([], []);
    assert Frame([], l).1 + Frame(l, [b]).1 == [];
  }

  /** A '>' anywhere is a prompt and drops what was read of its line. */
  lemma PromptAnywhere(buf: string)
    ensures Frame(buf, ">") == ([], [Prompt])
  {
    hide Frame;
    FrameOne(buf, '>');
  }

  // ---------------------------------------------------------------- classification

  function UpperChar(c: char): char { if 'a' <= c <= 'z' then c - 'a' + 'A' else c }

  function Upper(s: string): string { seq(|s|, i requires 0 <= i < |s| => UpperChar(s[i])) }

  predicate CallTermination(cmd: string, line: string) {
    var c := Upper(TrimSpace(cmd));
    && (HasPrefix(c, "ATD") || c == "ATA" || c == "ATH")
    && (line == "NO CARRIER" || line == "BUSY" || line == "NO ANSWER" || line == "NO DIALTONE")
  }

  /** "AT+CREG?" names "+CREG". */
  function CommandName(cmd: string): string {
    var c := Upper(TrimSpace(cmd));
    if !HasPrefix(c, "AT") then [] else Before(Before(Before(Before(c[2..], '?'), '='), '\r'), '\n')
  }

  lemma {:induction false} BeforeFacts(s: string, stop: char)
    ensures var r := Before(s, stop);
            r <= s && stop !in r && (|r| < |s| ==> s[|r|] == stop)
  {
    if s != [] && s[0] != stop { BeforeFacts(s[1..], stop); }
  }

  predicate Stop(c: char) { c == '?' || c == '=' || c == '\r' || c == '\n' }

  /** The name of a command is everything between "AT" and the first stop character. */
  lemma CommandNameFacts(cmd: string)
    requires HasPrefix(Upper(TrimSpace(cmd)), "AT")
    ensures var rest, name := Upper(TrimSpace(cmd))[2..], CommandName(cmd);
            && name <= rest
            && (forall i :: 0 <= i < |name| ==> !Stop(name[i]))
            && (|name| < |rest| ==> Stop(rest[|name|]))
  {
    hide Upper, TrimSpace, Before;
    StopsCut(Upper(TrimSpace(cmd))[2..]);
  }

  /** Cutting at one stop character after the other cuts at the first of them. */
  lemma StopsCut(rest: string)
    ensures var name := Before(Before(Before(Before(rest, '?'), '='), '\r'), '\n');
            && name <= rest
            && (forall i :: 0 <= i < |name| ==> !Stop(name[i]))
            && (|name| < |rest| ==> Stop(rest[|name|]))
  {
    hide Before;
    var a := Before(rest, '?');
    var b := Before(a, '=');
    var c := Before(b, '\r');
    BeforeFacts(rest, '?');
    BeforeFacts(a, '=');
    BeforeFacts(b, '\r');
    BeforeFacts(c, '\n');
  }

  predicate CommandResponse(cmd: string, line: string) {
    CommandName(cmd) != [] && HasPrefix(Upper(TrimSpace(line)), CommandName(cmd) + ":")
  }

  const URC_PREFIXES: seq<string> := [
    "+CLIP:", "+CMTI:", "+CMT:", "+CDS:", "+DTMF:", "+CUSD:", "RING", "+CRING:", "+CREG:", "+CGREG:", "+CEREG:",
    "NO CARRIER", "+COLP:", "^ORIG:", "^CONN:", "^CEND:", "^RSSI:", "^MODE:", "^DSFLOWRPT:", "^BOOT:", "^SRVST:",
    "RDY", "Call Ready", "SMS Ready", "NORMAL POWER DOWN", "UNDER-VOLTAGE WARNNING", "UNDER-VOLTAGE POWER DOWN",
    "OVER-VOLTAGE WARNNING", "OVER-VOLTAGE POWER DOWN", "MODEM:STARTUP", "+PBREADY", "+ZUSIMR:"]

  predicate Unsolicited(line: string) {
    exists i :: 0 <= i < |URC_PREFIXES| && HasPrefix(line, URC_PREFIXES[i])
  }

  method IsURC(line: string) returns (r: bool)
    ensures r == Unsolicited(line)
  {
    for i := 0 to |URC_PREFIXES|
      invariant forall j :: 0 <= j < i ==> !HasPrefix(line, URC_PREFIXES[j])
    {
      if HasPrefix(line, URC_PREFIXES[i]) {
        return true;
      }
    }
    return false;
  }

  /** What a line means to the command in flight. */
  datatype Kind = Echo | Urc | Data | Success | Failure

  function Classify(cmd: string, line: string): Kind {
    if line == cmd then Echo
    else if CallTermination(cmd, line) then Failure
    else if !CommandResponse(cmd, line) && Unsolicited(line) then Urc
    else if line == "OK" then Success
    else if line == "ERROR" || HasPrefix(line, "+CME ERROR:") || HasPrefix(line, "+CMS ERROR:") then Failure
    else Data
  }

  predicate Final(k: Kind) { k == Success || k == Failure }

  // ---------------------------------------------------------------- the engine between reader and sender

  datatype Response = Response(lines: seq<string>, ok: bool, error: bool)

  const URC_CAPACITY := 100

  /** The queue never blocks: a notification that finds it full is dropped. */
  function Push(urcs: seq<string>, line: string): (r: seq<string>)
    ensures |urcs| <= URC_CAPACITY ==> |r| <= URC_CAPACITY
  {
    if |urcs| < URC_CAPACITY then urcs + [line] else urcs
  }

  /** `sent` lists what went into the commands' channels, in order. */
  datatype Shared = Shared(inFlight: Option<nat>, currentResp: Option<Response>, activeCmd: string,
                           promptChan: Option<nat>, urcs: seq<string>, sent: seq<(nat, Response)>)

  predicate Ready(s: Shared) { s.inFlight.Some? ==> s.currentResp.Some? }

  /** Only SendPDU sets the prompt channel; Send leaves it as it is. */
  function Begin(s: Shared, id: nat, cmd: string, pdu: bool): Shared {
    s.(inFlight := Some(id), currentResp := Some(Response([], false, false)), activeCmd := cmd,
       promptChan := if pdu then Some(id) else s.promptChan)
  }

  function Cleared(s: Shared): Shared {
    s.(inFlight := None, currentResp := None, activeCmd := "", promptChan := None)
  }

  function Process(s: Shared, line: string): (s': Shared)
    requires Ready(s)
    ensures Ready(s')
  {
    if s.inFlight.None? then s.(urcs := Push(s.urcs, line))
    else
      var resp := s.currentResp.value;
      match Classify(s.activeCmd, line)
      case Echo => s
      case Urc => s.(urcs := Push(s.urcs, line))
      case Data => s.(currentResp := Some(resp.(lines := resp.lines + [line])))
      case Success => Deliver(s, resp.(ok := true))
      case Failure => Deliver(s, resp.(error := true, lines := resp.lines + [line]))
  }

  function Deliver(s: Shared, resp: Response): Shared
    requires s.inFlight.Some?
  {
    s.(currentResp := Some(resp), sent := s.sent + [(s.inFlight.value, resp)], inFlight := None)
  }

  class EnginePort {
    var inFlight: Option<nat>
    var currentResp: Option<Response>
    var activeCmd: string
    var promptChan: Option<nat>
    var urcChan: seq<string>
    var sent: seq<(nat, Response)>

    ghost function Abs(): Shared
      reads this
    {
      Shared(inFlight, currentResp, activeCmd, promptChan, urcChan, sent)
    }

    constructor ()
      ensures Abs() == Shared(None, None, "", None, [], [])
    {
      inFlight, currentResp, activeCmd, promptChan, urcChan, sent := None, None, "", None, [], [];
    }

    /** The registration that Send and SendPDU perform under the response lock. */
    method Register(id: nat, cmd: string, pdu: bool)
      modifies this
      ensures Abs() == Begin(old(Abs()), id, cmd, pdu)
    {
      inFlight := Some(id);
      if pdu {
        promptChan := Some(id);
      }
      currentResp := Some(Response([], false, false));
      activeCmd := cmd;
    }

    method ClearInFlight()
      modifies this
      ensures Abs() == Cleared(old(Abs()))
    {
      inFlight := None;
      currentResp := None;
      activeCmd := "";
      promptChan := None;
    }

    method DispatchURC(line: string)
      modifies this`urcChan
      ensures urcChan == Push(old(urcChan), line)
    {
      if |urcChan| < URC_CAPACITY {
        urcChan := urcChan + [line];
      }
    }

    method ProcessLine(line: string)
      requires Ready(Abs())
      modifies this
      ensures Abs() == Process(old(Abs()), line)
    {
      hide CallTermination, CommandResponse, Unsolicited;
      if inFlight.None? {
        DispatchURC(line);
        return;
      }
      if line == activeCmd {
        return;
      }
      var resp := currentResp.value;
      if CallTermination(activeCmd, line) {
        currentResp := Some(resp.(error := true, lines := resp.lines + [line]));
        sent := sent + [(inFlight.value, currentResp.value)];
        inFlight := None;
        return;
      }
      var urc := IsURC(line);
      if !CommandResponse(activeCmd, line) && urc {
        DispatchURC(line);
        return;
      }
      if line == "OK" {
        currentResp := Some(resp.(ok := true));
        sent := sent + [(inFlight.value, currentResp.value)];
        inFlight := None;
      } else if line == "ERROR" || HasPrefix(line, "+CME ERROR:") || HasPrefix(line, "+CMS ERROR:") {
        currentResp := Some(resp.(error := true, lines := resp.lines + [line]));
        sent := sent + [(inFlight.value, currentResp.value)];
        inFlight := None;
      } else {
        currentResp := Some(resp.(lines := resp.lines + [line]));
      }
    }
  }

  // ---------------------------------------------------------------- what lines mean

  /** The command `cmd` of call `id` is in flight and has collected `data`. */
  predicate InFlight(s: Shared, id: nat, cmd: string, data: seq<string>) {
    s.inFlight == Some(id) && s.activeCmd == cmd && s.currentResp == Some(Response(data, false, false))
  }

  /** The line ended the command with this response. */
  predicate Ended(s: Shared, s': Shared, id: nat, resp: Response) {
    s'.sent == s.sent + [(id, resp)] && s'.inFlight.None? && s'.urcs == s.urcs
  }

  /** The line was added to the command's data. */
  predicate AddedToData(s: Shared, s': Shared, id: nat, cmd: string, data: seq<string>, line: string) {
    InFlight(s', id, cmd, data + [line]) && s'.sent == s.sent && s'.urcs == s.urcs
  }

  /** The line went to the notifications. */
  predicate Notified(s: Shared, s': Shared, line: string) { s' == s.(urcs := Push(s.urcs, line)) }

  /** How the listed prefixes begin. */
  lemma PrefixHeads(i: nat)
    requires i < |URC_PREFIXES|
    ensures var p := URC_PREFIXES[i]; |p| >= 3 && p[0] != 'E' && p[0] != 'B' && (p[0] == 'O' ==> p[1] == 'V')
  {
  }

  lemma PlusPrefixes(i: nat)
    requires i < |URC_PREFIXES|
    ensures var p := URC_PREFIXES[i]; |p| >= 3 && (p[0] == '+' && p[1] == 'C' && p[2] == 'M' ==> |p| > 3 && p[3] == 'T')
  {
  }

  lemma WordPrefixes(i: nat)
    requires i < |URC_PREFIXES|
    ensures var p := URC_PREFIXES[i]; |p| >= 3 && (p[0] == 'N' && p[1] == 'O' && p[2] == ' ' ==> |p| > 3 && p[3] == 'C')
  {
  }

  /** No listed prefix starts like these lines. */
  lemma NotListed(line: string)
    requires ErrorLine(line) || line == "OK" || (CallResult(line) && line != "NO CARRIER")
    ensures !Unsolicited(line)
  {
    forall i | 0 <= i < |URC_PREFIXES| ensures !HasPrefix(line, URC_PREFIXES[i]) {
      PrefixHeads(i);
      PlusPrefixes(i);
      WordPrefixes(i);
      hide URC_PREFIXES;
      LineHeads(line);
    }
  }

  lemma LineHeads(line: string)
    requires ErrorLine(line) || line == "OK" || (CallResult(line) && line != "NO CARRIER")
    ensures |line| > 1
    ensures || line[0] == 'E' || line[0] == 'B' || (line[0] == 'O' && line[1] == 'K')
            || (|line| > 3 && line[0] == '+' && line[1] == 'C' && line[2] == 'M' && line[3] != 'T')
            || (|line| > 3 && line[0] == 'N' && line[1] == 'O' && line[2] == ' ' && line[3] != 'C')
  {
    assert HasPrefix(line, "+CME ERROR:") ==> line[..4] == "+CME ERROR:"[..4] == "+CME";
    assert HasPrefix(line, "+CMS ERROR:") ==> line[..4] == "+CMS ERROR:"[..4] == "+CMS";
  }

  predicate ErrorLine(line: string) {
    line == "ERROR" || HasPrefix(line, "+CME ERROR:") || HasPrefix(line, "+CMS ERROR:")
  }

  /** "OK" ends every command with success, the data as collected. */
  lemma OkLine(s: Shared, id: nat, cmd: string, data: seq<string>)
    requires InFlight(s, id, cmd, data) && cmd != "OK"
    ensures Ended(s, Process(s, "OK"), id, Response(data, true, false))
  {
    hide Unsolicited, CommandResponse, Push;
    NotListed("OK");
  }

  /** An error line ends every command with an error, itself the last line of the response. */
  lemma ErrorLineEnds(s: Shared, id: nat, cmd: string, data: seq<string>, line: string)
    requires InFlight(s, id, cmd, data) && ErrorLine(line) && line != cmd
    ensures Ended(s, Process(s, line), id, Response(data + [line], false, true))
  {
    hide Unsolicited, CommandResponse, Push, Upper, TrimSpace;
    NotListed(line);
  }

  /** A command that dials, answers or hangs up. */
  predicate CallCommand(cmd: string) {
    var c := Upper(TrimSpace(cmd));
    HasPrefix(c, "ATD") || c == "ATA" || c == "ATH"
  }

  predicate CallResult(line: string) {
    line == "NO CARRIER" || line == "BUSY" || line == "NO ANSWER" || line == "NO DIALTONE"
  }

  /** The end of a call ends the commands about calls with an error, and no other: there "NO CARRIER" is a
      notification and the others are data. */
  lemma CallResultEnds(s: Shared, id: nat, cmd: string, data: seq<string>, line: string)
    requires InFlight(s, id, cmd, data) && CallResult(line) && line != cmd
    ensures CallCommand(cmd) ==> Ended(s, Process(s, line), id, Response(data + [line], false, true))
    ensures !CallCommand(cmd) ==> Process(s, line).sent == s.sent && Process(s, line).inFlight == Some(id)
    ensures !CallCommand(cmd) && line == "NO CARRIER" ==> Notified(s, Process(s, line), line)
    ensures !CallCommand(cmd) && line != "NO CARRIER" ==> AddedToData(s, Process(s, line), id, cmd, data, line)
  {
    hide Unsolicited, CommandResponse, Push, Upper, TrimSpace;
    if line == "NO CARRIER" {
      Listed(line, 11);
      NoColon(cmd, line);
    } else {
      NotListed(line);
      CallResultIsNoError(line);
    }
  }

  lemma CallResultIsNoError(line: string)
    requires CallResult(line)
    ensures !ErrorLine(line) && line != "OK"
  {
    assert line[0] != '+';
  }

  lemma Listed(line: string, i: nat)
    requires i < |URC_PREFIXES| && HasPrefix(line, URC_PREFIXES[i])
    ensures Unsolicited(line)
  {
  }

  lemma NoColon(cmd: string, line: string)
    requires ':' !in line
    ensures !CommandResponse(cmd, line)
  {
    hide CommandName, TrimSpace, Upper;
    var name := CommandName(cmd);
    UpperNoColon(TrimSpace(line));
    assert (name + ":")[|name|] == ':';
  }

  lemma UpperNoColon(t: string)
    requires ':' !in t
    ensures forall i :: 0 <= i < |Upper(t)| ==> Upper(t)[i] != ':'
  {
    forall i | 0 <= i < |Upper(t)| ensures Upper(t)[i] != ':' { assert t[i] in t; }
  }

  /** Names as extended commands have them, without colon or stop character, in upper case. */
  predicate PlainName(n: string) {
    n != "" && forall i :: 0 <= i < |n| ==> n[i] != ':' && !Stop(n[i]) && UpperChar(n[i]) == n[i]
  }

  /** "AT+X", "AT+X?" or "AT+X=...", in any case. */
  predicate Names(cmd: string, n: string) {
    var c := Upper(TrimSpace(cmd));
    HasPrefix(c, "AT" + n) && (|c| == 2 + |n| || Stop(c[2 + |n|]))
  }

  lemma NameOf(cmd: string, n: string)
    requires PlainName(n) && Names(cmd, n)
    ensures CommandName(cmd) == n
  {
    hide TrimSpace, CommandName, Upper;
    var u := Upper(TrimSpace(cmd));
    assert u[..2] == ("AT" + n)[..2] == "AT" && u[2..2 + |n|] == ("AT" + n)[2..] == n;
    CommandNameFacts(cmd);
    var name, rest := CommandName(cmd), u[2..];
    assert rest[..|n|] == n;
    assert name == rest[..|name|];
  }

  /** A reply line "+X: ..." starts with a name, in any case, and a colon. */
  predicate ReplyLine(line: string, n: string) { PlainName(n) && HasPrefix(Upper(TrimSpace(line)), n + ":") }

  lemma ReplyHasColon(line: string, n: string)
    requires ReplyLine(line, n)
    ensures ':' in line
  {
    var t := TrimSpace(line);
    assert Upper(t)[|n|] == (n + ":")[|n|];
    assert t[|n|] == ':' && t[|n|] in t;
  }

  lemma ReplyResponse(cmd: string, line: string, n: string, n': string)
    requires ReplyLine(line, n) && PlainName(n') && CommandName(cmd) == n'
    ensures CommandResponse(cmd, line) <==> n == n'
  {
    hide TrimSpace, CommandName, Upper;
    var u := Upper(TrimSpace(line));
    assert u[..|n| + 1] == n + ":" && u[|n|] == (n + ":")[|n|] == ':' && u[..|n|] == n;
    if HasPrefix(u, n' + ":") {
      assert u[|n'|] == (n' + ":")[|n'|] == ':' && u[..|n'|] == n';
    }
  }

  /** "+X: ..." is data of the command "AT+X", even when it starts like a notification. */
  lemma ReplyIsData(s: Shared, id: nat, cmd: string, data: seq<string>, line: string, n: string)
    requires InFlight(s, id, cmd, data) && Names(cmd, n) && ReplyLine(line, n) && line != cmd && !ErrorLine(line)
    ensures AddedToData(s, Process(s, line), id, cmd, data, line)
  {
    hide TrimSpace, CommandName, Push, Unsolicited, Upper, CommandResponse;
    NameOf(cmd, n);
    ReplyResponse(cmd, line, n, n);
    ReplyHasColon(line, n);
  }

  /** A listed "+X: ..." is a notification while any other command is in flight. */
  lemma OtherReplyIsNotified(s: Shared, id: nat, cmd: string, data: seq<string>, line: string, n: string, n': string)
    requires InFlight(s, id, cmd, data) && Names(cmd, n') && PlainName(n') && n != n' && ReplyLine(line, n) && line != cmd
    requires exists i :: 0 <= i < |URC_PREFIXES| && HasPrefix(line, URC_PREFIXES[i])
    ensures Notified(s, Process(s, line), line)
  {
    hide TrimSpace, CommandName, Push, Upper, CommandResponse;
    NameOf(cmd, n');
    ReplyResponse(cmd, line, n, n');
    ReplyHasColon(line, n);
  }

  /** Every other line is data, except the echo of the command, which is ignored. */
  lemma OtherLineIsData(s: Shared, id: nat, cmd: string, data: seq<string>, line: string)
    requires InFlight(s, id, cmd, data) && line != "OK" && !ErrorLine(line) && !CallResult(line)
    requires forall i :: 0 <= i < |URC_PREFIXES| ==> !HasPrefix(line, URC_PREFIXES[i])
    ensures line != cmd ==> AddedToData(s, Process(s, line), id, cmd, data, line)
    ensures line == cmd ==> Process(s, line) == s
  {
    hide CommandResponse, Push, Upper, TrimSpace;
  }

  /** Without a command in flight every line is a notification. */
  lemma IdleLineIsNotified(s: Shared, line: string)
    requires s.inFlight.None?
    ensures Notified(s, Process(s, line), line)
  {
    hide Push, Classify;
  }

  // ---------------------------------------------------------------- attribution

  function ProcessAll(s: Shared, lines: seq<string>): (s': Shared)
    requires Ready(s)
    ensures Ready(s')
  {
    if lines == [] then s else Process(ProcessAll(s, lines[..|lines| - 1]), lines[|lines| - 1])
  }

  /** The lines of one kind, in order. */
  function OfKind(cmd: string, lines: seq<string>, k: Kind): seq<string> {
    if lines == [] then []
    else OfKind(cmd, lines[..|lines| - 1], k)
         + if Classify(cmd, lines[|lines| - 1]) == k then [lines[|lines| - 1]] else []
  }

  function PushAll(urcs: seq<string>, lines: seq<string>): seq<string> {
    if lines == [] then urcs else Push(PushAll(urcs, lines[..|lines| - 1]), lines[|lines| - 1])
  }

  function Take(s: seq<string>, n: nat): seq<string> { if |s| <= n then s else s[..n] }

  /** Notifications reach the queue in order until it holds a hundred. */
  lemma {:induction false} QueueInOrder(urcs: seq<string>, lines: seq<string>)
    requires |urcs| <= 100
    ensures PushAll(urcs, lines) == Take(urcs + lines, 100)
  {
    if lines == [] {
      assert urcs + lines == urcs;
    } else {
      var n := |lines| - 1;
      QueueInOrder(urcs, lines[..n]);
      assert urcs + lines == urcs + lines[..n] + [lines[n]];
    }
  }

  lemma {:induction false} PushAllConcat(urcs: seq<string>, a: seq<string>, b: seq<string>)
    ensures PushAll(urcs, a + b) == PushAll(PushAll(urcs, a), b)
    decreases |b|
  {
    if b == [] {
      assert a + b == a;
    } else {
      assert (a + b)[..|a + b| - 1] == a + b[..|b| - 1];
      PushAllConcat(urcs, a, b[..|b| - 1]);
    }
  }

  /** One command of Send or SendPDU. Either its final result comes after the lines of `body`, or it is given up
      after them; `after` are the lines that come while the engine is idle again. */
  datatype Exchange =
    | Answered(cmd: string, pdu: bool, body: seq<string>, final: string, after: seq<string>)
    | GivenUp(cmd: string, pdu: bool, body: seq<string>, after: seq<string>)

  predicate Proper(x: Exchange) {
    && (forall i :: 0 <= i < |x.body| ==> !Final(Classify(x.cmd, x.body[i])))
    && (x.Answered? ==> Final(Classify(x.cmd, x.final)))
  }

  /** The response that a command makes of the lines `body` and the final result. */
  function Expected(cmd: string, body: seq<string>, final: string): Response {
    var data := OfKind(cmd, body, Data);
    if Classify(cmd, final) == Success then Response(data, true, false) else Response(data + [final], false, true)
  }

  function Notifications(x: Exchange): seq<string> { OfKind(x.cmd, x.body, Urc) + x.after }

  /** SendPDU clears the flight when it returns, and so does every command that is given up. */
  function Play(s: Shared, id: nat, x: Exchange): (s': Shared)
    ensures Ready(s')
  {
    var begun := Begin(s, id, x.cmd, x.pdu);
    match x
    case Answered(_, pdu, body, final, after) =>
      var ended := ProcessAll(begun, body + [final]);
      ProcessAll(if pdu then Cleared(ended) else ended, after)
    case GivenUp(_, _, body, after) => ProcessAll(Cleared(ProcessAll(begun, body)), after)
  }

  lemma {:induction false} BodyCollects(s: Shared, id: nat, cmd: string, body: seq<string>)
    requires s.inFlight == Some(id) && s.activeCmd == cmd && s.currentResp == Some(Response([], false, false))
    requires forall i :: 0 <= i < |body| ==> !Final(Classify(cmd, body[i]))
    ensures ProcessAll(s, body) == s.(currentResp := Some(Response(OfKind(cmd, body, Data), false, false)),
                                      urcs := PushAll(s.urcs, OfKind(cmd, body, Urc)))
  {
    hide Classify, Push;
    if body != [] {
      var n := |body| - 1;
      BodyCollects(s, id, cmd, body[..n]);
      var urcs := OfKind(cmd, body[..n], Urc);
      if Classify(cmd, body[n]) == Urc {
        assert (urcs + [body[n]])[..|urcs|] == urcs;
      } else {
        assert urcs + [] == urcs;
      }
      assert OfKind(cmd, body[..n], Data) + [] == OfKind(cmd, body[..n], Data);
    }
  }

  lemma {:induction false} IdleQueues(s: Shared, lines: seq<string>)
    requires s.inFlight.None?
    ensures ProcessAll(s, lines) == s.(urcs := PushAll(s.urcs, lines))
  {
    hide Push;
    if lines != [] { IdleQueues(s, lines[..|lines| - 1]); }
  }

  /** The lines of a command up to its final result. */
  lemma FlightEnds(s: Shared, id: nat, cmd: string, pdu: bool, body: seq<string>, final: string)
    requires forall i :: 0 <= i < |body| ==> !Final(Classify(cmd, body[i]))
    requires Final(Classify(cmd, final))
    ensures var s' := ProcessAll(Begin(s, id, cmd, pdu), body + [final]);
            && s'.inFlight.None?
            && s'.sent == s.sent + [(id, Expected(cmd, body, final))]
            && s'.urcs == PushAll(s.urcs, OfKind(cmd, body, Urc))
  {
    hide Classify, Push, OfKind, PushAll;
    var s0 := Begin(s, id, cmd, pdu);
    BodyCollects(s0, id, cmd, body);
    var s1 := ProcessAll(s0, body);
    assert (body + [final])[..|body|] == body;
    assert ProcessAll(s0, body + [final]) == Process(s1, final);
  }

  /** One command: if it is answered it receives exactly its own data lines and its final result, and if it is
      given up nothing; the notifications go to the queue, and the engine is free again. */
  lemma ExchangeAttribution(s: Shared, id: nat, x: Exchange)
    requires Proper(x)
    ensures var s' := Play(s, id, x);
            && s'.inFlight.None?
            && s'.sent == s.sent + (if x.Answered? then [(id, Expected(x.cmd, x.body, x.final))] else [])
            && s'.urcs == PushAll(s.urcs, Notifications(x))
  {
    hide Classify, Push, OfKind, PushAll, ProcessAll, Expected;
    var s0 := Begin(s, id, x.cmd, x.pdu);
    PushAllConcat(s.urcs, OfKind(x.cmd, x.body, Urc), x.after);
    if x.Answered? {
      FlightEnds(s, id, x.cmd, x.pdu, x.body, x.final);
      var ended := ProcessAll(s0, x.body + [x.final]);
      IdleQueues(if x.pdu then Cleared(ended) else ended, x.after);
    } else {
      BodyCollects(s0, id, x.cmd, x.body);
      IdleQueues(Cleared(ProcessAll(s0, x.body)), x.after);
    }
  }

  /** Lines mean the same to both commands. */
  predicate ReadAlike(a: string, b: string, lines: seq<string>) {
    forall i :: 0 <= i < |lines| ==> Classify(a, lines[i]) == Classify(b, lines[i])
  }

  lemma {:induction false} AlikeOfKind(a: string, b: string, lines: seq<string>, k: Kind)
    requires ReadAlike(a, b, lines)
    ensures OfKind(a, lines, k) == OfKind(b, lines, k)
  {
    hide Classify;
    if lines != [] { AlikeOfKind(a, b, lines[..|lines| - 1], k); }
  }

  /** Why the lines of a command that was given up must all come before the next one begins. When the rest of
      them, `late`, comes later and means the same to the next command, that one is answered with exactly what
      the first would have made of it, and its own reply ends up among the notifications. */
  lemma LateReplyGoesToNextCommand(s: Shared, id: nat, first: Exchange, next: string, pdu: bool, late: seq<string>,
                                   final: string, own: seq<string>)
    requires first.GivenUp? && Proper(first)
    requires forall i :: 0 <= i < |late| ==> !Final(Classify(first.cmd, late[i]))
    requires Final(Classify(first.cmd, final)) && ReadAlike(first.cmd, next, late + [final])
    ensures var s' := Play(Play(s, id, first), id + 1, Answered(next, pdu, late, final, own));
            && s'.sent == s.sent + [(id + 1, Expected(first.cmd, late, final))]
            && s'.urcs == PushAll(s.urcs, Notifications(first) + (OfKind(first.cmd, late, Urc) + own))
  {
    hide Classify, Push, OfKind, PushAll, ProcessAll, Play;
    var lines := late + [final];
    assert forall i :: 0 <= i < |late| ==> lines[i] == late[i];
    assert lines[|late|] == final;
    AlikeOfKind(first.cmd, next, late, Data);
    AlikeOfKind(first.cmd, next, late, Urc);
    var second := Answered(next, pdu, late, final, own);
    ExchangeAttribution(s, id, first);
    ExchangeAttribution(Play(s, id, first), id + 1, second);
    PushAllConcat(s.urcs, Notifications(first), Notifications(second));
  }

  lemma NoneOfKind(cmd: string, k: Kind)
    ensures OfKind(cmd, [], k) == []
  {
  }

  /** "OK" ends every command. */
  lemma OkEnds(cmd: string)
    requires cmd != "OK"
    ensures Classify(cmd, "OK") == Success
  {
    hide Upper, TrimSpace, CommandName, Unsolicited;
    NotListed("OK");
  }

  /** For instance: "AT+CSQ" is given up, "AT+CREG?" begins, and the late "OK" of the former makes the latter
      succeed with no data; its own reply is taken for two notifications. */
  lemma LateOk(s: Shared, id: nat)
    ensures var given := Play(s, id, GivenUp("AT+CSQ", false, [], []));
            var s' := Play(given, id + 1, Answered("AT+CREG?", false, [], "OK", ["+CREG: 0,1", "OK"]));
            && s'.sent == s.sent + [(id + 1, Response([], true, false))]
            && s'.urcs == PushAll(s.urcs, ["+CREG: 0,1", "OK"])
  {
    hide Classify, PushAll, Play;
    OkEnds("AT+CSQ");
    OkEnds("AT+CREG?");
    assert [] + ["OK"] == ["OK"];
    NoneOfKind("AT+CSQ", Urc);
    var own := ["+CREG: 0,1", "OK"];
    assert [] + [] + ([] + own) == own;
    LateReplyGoesToNextCommand(s, id, GivenUp("AT+CSQ", false, [], []), "AT+CREG?", false, [], "OK", own);
  }

  /** Commands numbered from `id`, one after the other; all lines of a command come before the next begins. */
  function Session(s: Shared, id: nat, xs: seq<Exchange>): (s': Shared)
    requires Ready(s)
    ensures Ready(s')
  {
    if xs == [] then s else Play(Session(s, id, xs[..|xs| - 1]), id + |xs| - 1, xs[|xs| - 1])
  }

  function AllNotifications(xs: seq<Exchange>): seq<string> {
    if xs == [] then [] else AllNotifications(xs[..|xs| - 1]) + Notifications(xs[|xs| - 1])
  }

  /** What the answered commands of a session get, in order. */
  function Responses(id: nat, xs: seq<Exchange>): seq<(nat, Response)> {
    if xs == [] then []
    else
      var n := |xs| - 1;
      var x := xs[n];
      Responses(id, xs[..n]) + if x.Answered? then [(id + n, Expected(x.cmd, x.body, x.final))] else []
  }

  /** In a whole session, commands that are given up included, every answered command gets its own response, in
      order, no other gets any, and all other lines reach the queue in order until it is full. */
  lemma {:induction false} SessionAttribution(s: Shared, id: nat, xs: seq<Exchange>)
    requires s.inFlight.None? && |s.urcs| <= URC_CAPACITY
    requires forall i :: 0 <= i < |xs| ==> Proper(xs[i])
    ensures var s' := Session(s, id, xs);
            && s'.inFlight.None?
            && s'.sent == s.sent + Responses(id, xs)
            && s'.urcs == Take(s.urcs + AllNotifications(xs), URC_CAPACITY)
  {
    hide Take;
    SessionQueues(s, id, xs);
    QueueInOrder(s.urcs, AllNotifications(xs));
  }

  lemma {:induction false} SessionQueues(s: Shared, id: nat, xs: seq<Exchange>)
    requires s.inFlight.None?
    requires forall i :: 0 <= i < |xs| ==> Proper(xs[i])
    ensures var s' := Session(s, id, xs);
            && s'.inFlight.None?
            && s'.sent == s.sent + Responses(id, xs)
            && s'.urcs == PushAll(s.urcs, AllNotifications(xs))
  {
    hide Proper, Play, PushAll, Expected, Notifications;
    if xs == [] {
      PushNothing(s.urcs);
    } else {
      var n := |xs| - 1;
      SessionQueues(s, id, xs[..n]);
      var before := Session(s, id, xs[..n]);
      ExchangeAttribution(before, id + n, xs[n]);
      PushAllConcat(s.urcs, AllNotifications(xs[..n]), Notifications(xs[n]));
    }
  }

  lemma PushNothing(urcs: seq<string>)
    ensures PushAll(urcs, []) == urcs
  {
  }

  /** Names are taken from the trimmed command, in upper case. */
  lemma NameOfQuery()
    ensures CommandName("at+creg?") == "+CREG"
  {
    hide TrimSpace;
    TrimIdle("at+creg?");
    assert Upper("at+creg?") == "AT+CREG?";
    assert "AT+CREG?" == "AT" + "+CREG" + "?";
    assert HasPrefix("AT+CREG?", "AT" + "+CREG");
    NameOf("at+creg?", "+CREG");
  }
}
