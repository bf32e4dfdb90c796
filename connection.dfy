/**
 * The APRS-IS session of networkconnection.cpp: a line-oriented receive
 * buffer, the logon handshake, the status machine, the idle clock with its
 * keepalive ping, and the reconnect policy.
 *
 * The socket, the timers and the clock are outside the model. Bytes that
 * arrive are the `incoming` argument of OnReadyRead, the time is a `now`
 * argument in milliseconds, and everything the object asks of its socket or
 * emits as a Qt signal is appended to the ghost log `effects`.
 */
module Connection {
  import opened Wrappers
  import opened QtStrings
  import Aprs

  /** connectionStates, without the unused connReset. */
  datatype Status = WaitBanner | LogonSent | LogonVerified | LogonFailed | Active | Close | Terminated | Reconnect

  /** quint16. */
  type Port = p: int | 0 <= p < 0x1_0000

  /** The signals of NetworkConnection. */
  datatype Event = ServerMessage(text: string) | Packet(frame: Aprs.Frame) | ConnectionClosed

  /** What the object does to the outside world, in order: a signal, or a request to its socket. */
  datatype Effect = Emit(event: Event) | Write(data: Bytes) | ConnectToHost(host: string, port: Port) | CloseSocket

  /** The part of a NetworkConnection that the slots change while a session runs. */
  datatype Session = Session(status: Status, lastMessage: Option<int>, effects: seq<Effect>)

  /** MIN_RECONNECT_TIME. */
  const MinReconnectTime := 1000

  /** The idle time after which an active session sends a keepalive. */
  const PingInterval := 5000

  const Ping: Bytes := "# ping\r\n"

  /** The idle clock is read only in Active and Reconnect, and is running in both. */
  predicate ClockKnown(s: Session) {
    (s.status == Active || s.status == Reconnect) ==> s.lastMessage.Some?
  }

  // =====================================================================
  // Logon (sendLogon)

  /** The logon line without its CR LF: "user C pass P", then " ver NAME VERSION" when both are non-empty. */
  function LogonText(callsign: string, passcode: int, appName: string, appVersion: string): string {
    var cmd := "user " + callsign + " pass " + Decimal(passcode);
    if |appName| > 0 && |appVersion| > 0
    then cmd + " ver " + CollapseSpaces(appName) + " " + CollapseSpaces(appVersion)
    else cmd
  }

  /** What sendLogon writes: the logon line, CR LF, converted to Latin-1. */
  function LogonCommand(callsign: string, passcode: int, appName: string, appVersion: string): Bytes {
    ToLatin1(LogonText(callsign, passcode, appName, appVersion) + "\r\n")
  }

  lemma {:induction false} NonEmptyOfNonEmpty(parts: seq<string>)
    requires forall i :: 0 <= i < |parts| ==> parts[i] != []
    ensures NonEmpty(parts) == parts
  {
    if parts != [] {
      NonEmptyOfNonEmpty(parts[1..]);
      assert parts == [parts[0]] + parts[1..];
    }
  }

  /** Splitting a join of non-empty, separator-free words with SkipEmptyParts gives the words back. */
  lemma TokensOfJoin(parts: seq<string>, sep: char)
    requires |parts| >= 1
    requires forall i :: 0 <= i < |parts| ==> parts[i] != [] && sep !in parts[i]
    ensures Tokens(Join(parts, sep), sep) == parts
  {
    SplitJoin(parts, sep);
    NonEmptyOfNonEmpty(parts);
  }

  lemma JoinFour(a: string, b: string, c: string, d: string)
    ensures Join([a, b, c, d], ' ') == a + " " + b + " " + c + " " + d
  {
    assert [a, b, c, d][1..] == [b, c, d] && [b, c, d][1..] == [c, d] && [c, d][1..] == [d];
    assert Join([c, d], ' ') == c + " " + d;
    assert Join([b, c, d], ' ') == b + " " + (c + " " + d);
    assert Join([a, b, c, d], ' ') == a + " " + (b + " " + (c + " " + d));
  }

  /** The words of a logon line, as they stand between the spaces that join them. */
  function LogonWords(callsign: string, passcode: int, appName: string, appVersion: string): seq<string> {
    ["user", callsign, "pass", Decimal(passcode)]
    + (if |appName| > 0 && |appVersion| > 0 then ["ver", CollapseSpaces(appName), CollapseSpaces(appVersion)] else [])
  }

  lemma LogonTextIsJoin(callsign: string, passcode: int, appName: string, appVersion: string)
    ensures LogonText(callsign, passcode, appName, appVersion)
            == Join(LogonWords(callsign, passcode, appName, appVersion), ' ')
  {
    var d := Decimal(passcode);
    var cmd := "user " + callsign + " pass " + d;
    UserPassJoin(callsign, d);
    if |appName| > 0 && |appVersion| > 0 {
      var n, v := CollapseSpaces(appName), CollapseSpaces(appVersion);
      JoinAppend(["user", callsign, "pass", d], ["ver", n, v], ' ');
      VersionJoin(cmd, n, v);
    } else {
      assert LogonWords(callsign, passcode, appName, appVersion) == ["user", callsign, "pass", d];
    }
  }

  lemma UserPassJoin(callsign: string, d: string)
    ensures Join(["user", callsign, "pass", d], ' ') == "user " + callsign + " pass " + d
  {
    JoinFour("user", callsign, "pass", d);
    var x := "user" + " " + callsign;
    assert "user" + " " == "user ";
    Associate(x, " ", "pass");
    Associate(x, " " + "pass", " ");
    assert " " + "pass" + " " == " pass ";
  }

  lemma VersionJoin(cmd: string, n: string, v: string)
    ensures cmd + [' '] + Join(["ver", n, v], ' ') == cmd + " ver " + n + " " + v
  {
    assert ["ver", n, v][1..] == [n, v] && [n, v][1..] == [v];
    assert Join([v], ' ') == v;
    assert Join([n, v], ' ') == n + " " + v;
    var tail := "ver" + " " + (n + " " + v);
    assert Join(["ver", n, v], ' ') == tail;
    Associate(cmd, [' '], tail);
    Associate(cmd, " ver " + n, " " + v);
    Associate(cmd + " ver " + n, " ", v);
    Associate(cmd, " ver ", n);
    var w := n + " " + v;
    Associate([' '], "ver" + " ", w);
    assert [' '] + ("ver" + " ") == " ver ";
    Associate(n, " ", v);
    Associate(" ver ", n, " " + v);
  }

  /**
   * Read as space-separated words, the logon line of a space-free callsign
   * carries "user", the callsign, "pass", the passcode in decimal and,
   * exactly when both names are non-empty, "ver" and the two names with
   * their whitespace runs made '_'.
   */
  lemma LogonTextWords(callsign: string, passcode: int, appName: string, appVersion: string)
    requires callsign != [] && ' ' !in callsign
    ensures Tokens(LogonText(callsign, passcode, appName, appVersion), ' ')
            == LogonWords(callsign, passcode, appName, appVersion)
  {
    var words := LogonWords(callsign, passcode, appName, appVersion);
    assert ' ' !in Decimal(passcode);
    if |appName| > 0 && |appVersion| > 0 {
      assert CollapseSpaces(appName) != [] && CollapseSpaces(appVersion) != [];
      assert ' ' !in CollapseSpaces(appName) && ' ' !in CollapseSpaces(appVersion);
    }
    assert forall i :: 0 <= i < |words| ==> words[i] != [] && ' ' !in words[i];
    LogonTextIsJoin(callsign, passcode, appName, appVersion);
    TokensOfJoin(words, ' ');
  }

  lemma LogonTextLatin1(callsign: string, passcode: int, appName: string, appVersion: string)
    requires IsLatin1(callsign) && IsLatin1(appName) && IsLatin1(appVersion)
    ensures IsLatin1(LogonText(callsign, passcode, appName, appVersion))
  {
    var d := Decimal(passcode);
    assert IsLatin1(d);
    Latin1Concat("user ", callsign);
    Latin1Concat("user " + callsign, " pass ");
    Latin1Concat("user " + callsign + " pass ", d);
    if |appName| > 0 && |appVersion| > 0 {
      var cmd := "user " + callsign + " pass " + d;
      var n, v := CollapseSpaces(appName), CollapseSpaces(appVersion);
      CollapseSpacesLatin1(appName);
      CollapseSpacesLatin1(appVersion);
      Latin1Concat(cmd, " ver ");
      Latin1Concat(cmd + " ver ", n);
      Latin1Concat(cmd + " ver " + n, " ");
      Latin1Concat(cmd + " ver " + n + " ", v);
    }
  }

  /** For Latin-1 input the command is the logon line followed by CR LF. */
  lemma LogonCommandFraming(callsign: string, passcode: int, appName: string, appVersion: string)
    requires IsLatin1(callsign) && IsLatin1(appName) && IsLatin1(appVersion)
    ensures LogonCommand(callsign, passcode, appName, appVersion)
            == LogonText(callsign, passcode, appName, appVersion) + "\r\n"
  {
    var text := LogonText(callsign, passcode, appName, appVersion);
    LogonTextLatin1(callsign, passcode, appName, appVersion);
    Latin1Concat(text, "\r\n");
    ToLatin1OfLatin1(text + "\r\n");
  }

  // =====================================================================
  // Incoming lines (processLine)

  /** rxLogResp, "#\s*logresp.*" matched case-insensitively against the whole line. */
  predicate IsLogResp(text: string) {
    |text| >= 1 && text[0] == '#'
    && var rest := TrimStart(text[1..]);
       |rest| >= 7 && ToLower(rest[..7]) == "logresp"
  }

  /** A logon response is cut before its first ',' when that comma is not the first character. */
  function LogRespText(text: string): (r: string)
    ensures r <= text
    ensures IndexOf(text, ',', 0) > 0 ==> r == text[..IndexOf(text, ',', 0)] && ',' !in r
    ensures IndexOf(text, ',', 0) <= 0 ==> r == text
  {
    var sep := IndexOf(text, ',', 0);
    if sep > 0 then text[..sep] else text
  }

  /** The status after a logon response: decided by its third word, unchanged when it has fewer. */
  function LogonVerdict(status: Status, text: string): Status
    requires |text| >= 1
  {
    var fields := Tokens(text[1..], ' ');
    if |fields| > 2 then
      if ToLower(fields[2]) == "verified" then LogonVerified else LogonFailed
    else status
  }

  /** The verdict is Verified exactly when the third word reads "verified", Failed for another third word. */
  lemma LogonVerdictCases(status: Status, text: string)
    requires |text| >= 1
    ensures var r := LogonVerdict(status, text);
            var fields := Tokens(text[1..], ' ');
            (r == status || r == LogonVerified || r == LogonFailed)
            && (r == LogonVerified <==>
                  (|fields| > 2 && ToLower(fields[2]) == "verified") || (|fields| <= 2 && status == LogonVerified))
            && (|fields| > 2 && ToLower(fields[2]) != "verified" ==> r == LogonFailed)
            && (|fields| <= 2 ==> r == status)
  {
  }

  /** The signals that a list of effects records, in order. */
  function Emitted(effects: seq<Effect>): (events: seq<Event>)
    ensures |events| <= |effects|
  {
    if effects == [] then []
    else Emitted(effects[..|effects| - 1])
         + (if effects[|effects| - 1].Emit? then [effects[|effects| - 1].event] else [])
  }

  lemma EmittedPush(a: seq<Effect>, e: Effect)
    ensures Emitted(a + [e]) == Emitted(a) + (if e.Emit? then [e.event] else [])
  {
    assert (a + [e])[..|a|] == a;
  }

  /** The switch of processLine on a '#' line: the banner triggers the logon, a logon response decides it. */
  function ServerStatus(status: Status, line: string): Status {
    match status
    case WaitBanner => LogonSent
    case LogonSent => if IsLogResp(line) then LogonVerdict(status, LogRespText(line)) else status
    case _ => status
  }

  /** Only WaitBanner and LogonSent react to a '#' line; every other status is kept. */
  lemma ServerStatusCases(status: Status, line: string)
    ensures var r := ServerStatus(status, line);
            (status == WaitBanner ==> r == LogonSent)
            && (status == LogonSent && IsLogResp(line) ==> r == LogonVerdict(LogonSent, LogRespText(line)))
            && (status != WaitBanner && !(status == LogonSent && IsLogResp(line)) ==> r == status)
  {
  }

  /** The text processLine emits for a '#' line: a logon response read in LogonSent is cut at its comma. */
  function ServerText(status: Status, line: string): string {
    if status == LogonSent && IsLogResp(line) then LogRespText(line) else line
  }

  /**
   * processLine, as a step of the session. `logon` is what sendLogon would
   * write. What the step does is stated by LineStep and ServerLineStep.
   */
  function AfterLine(s: Session, line: Bytes, now: int, logon: Bytes): Session {
    if StartsWith(line, '#') then AfterServerLine(s, line, now, logon)
    else
      var frame := Aprs.DecodeFrame(line);
      Session(if frame.isValid then Active else s.status, Some(now), s.effects + [Emit(Packet(frame))])
  }

  /** The '#' branch of processLine: the line is read as text up to its first NUL byte. */
  function AfterServerLine(s: Session, line: Bytes, now: int, logon: Bytes): Session
    requires StartsWith(line, '#')
  {
    var lineText := FromLatin1(line);
    var sent := if s.status == WaitBanner then s.effects + [Write(logon)] else s.effects;
    Session(ServerStatus(s.status, lineText), Some(now), sent + [Emit(ServerMessage(ServerText(s.status, lineText)))])
  }

  /**
   * Every line restarts the clock and adds exactly one signal after the
   * earlier effects. A '#' line sends the logon and moves to LogonSent
   * exactly when the status was WaitBanner, and otherwise changes the
   * status only from LogonSent; any other line emits its decoded frame and
   * makes the session Active exactly when that frame is valid.
   */
  lemma LineStep(s: Session, line: Bytes, now: int, logon: Bytes)
    ensures var t := AfterLine(s, line, now, logon);
            t.lastMessage == Some(now) && s.effects <= t.effects
            && |Emitted(t.effects)| == |Emitted(s.effects)| + 1
            && (StartsWith(line, '#') ==>
                  (t.status != s.status ==> s.status == WaitBanner || s.status == LogonSent)
                  && (s.status == WaitBanner <==> |t.effects| == |s.effects| + 2 && t.effects[|s.effects|] == Write(logon))
                  && (s.status == WaitBanner ==> t.status == LogonSent)
                  && Emitted(t.effects)[|Emitted(s.effects)|].ServerMessage?)
            && (!StartsWith(line, '#') ==>
                  t.status == (if Aprs.DecodeFrame(line).isValid then Active else s.status)
                  && t.effects == s.effects + [Emit(Packet(Aprs.DecodeFrame(line)))])
  {
    if StartsWith(line, '#') {
      ServerLineStep(s, line, now, logon);
    } else {
      EmittedPush(s.effects, Emit(Packet(Aprs.DecodeFrame(line))));
    }
  }

  /**
   * A '#' line, read as text up to its first NUL byte: the status goes to
   * ServerStatus, the logon is written first when the status was
   * WaitBanner, and one serverMessage follows. Case by case: in LogonSent a
   * logon response decides the status and is reported cut at its comma; in
   * every other status the text is reported whole.
   */
  lemma ServerLineStep(s: Session, line: Bytes, now: int, logon: Bytes)
    requires StartsWith(line, '#')
    ensures var t := AfterLine(s, line, now, logon); var text := FromLatin1(line);
            t.lastMessage == Some(now) && t.status == ServerStatus(s.status, text)
            && t.effects == s.effects + (if s.status == WaitBanner then [Write(logon)] else [])
                            + [Emit(ServerMessage(ServerText(s.status, text)))]
            && |Emitted(t.effects)| == |Emitted(s.effects)| + 1
            && Emitted(t.effects)[|Emitted(s.effects)|] == ServerMessage(ServerText(s.status, text))
    ensures var t := AfterLine(s, line, now, logon); var text := FromLatin1(line);
            (s.status == LogonSent ==>
               t.status == (if IsLogResp(text) then LogonVerdict(LogonSent, LogRespText(text)) else LogonSent)
               && t.effects == s.effects + [Emit(ServerMessage(if IsLogResp(text) then LogRespText(text) else text))])
            && (s.status != LogonSent ==>
                  t.effects == s.effects + (if s.status == WaitBanner then [Write(logon)] else [])
                               + [Emit(ServerMessage(text))])
  {
    var text := FromLatin1(line);
    var sent := if s.status == WaitBanner then s.effects + [Write(logon)] else s.effects;
    var message := Emit(ServerMessage(ServerText(s.status, text)));
    EmittedPush(s.effects, Write(logon));
    EmittedPush(sent, message);
  }

  /** Each line is one step, all at the same time `now`. */
  function AfterLines(s: Session, lines: seq<Bytes>, now: int, logon: Bytes): Session
    decreases |lines|
  {
    if lines == [] then s else AfterLines(AfterLine(s, lines[0], now, logon), lines[1..], now, logon)
  }

  /** The sessions AfterLines passes through: before any line, and after each one. */
  function Trace(s: Session, lines: seq<Bytes>, now: int, logon: Bytes): (t: seq<Session>)
    ensures |t| == |lines| + 1 && t[0] == s
    decreases |lines|
  {
    [s] + (if lines == [] then [] else Trace(AfterLine(s, lines[0], now, logon), lines[1..], now, logon))
  }

  lemma {:induction false} TraceStep(s: Session, lines: seq<Bytes>, now: int, logon: Bytes, n: nat)
    requires n < |lines|
    ensures Trace(s, lines, now, logon)[n + 1] == AfterLine(Trace(s, lines, now, logon)[n], lines[n], now, logon)
    decreases n
  {
    if n > 0 {
      var s1 := AfterLine(s, lines[0], now, logon);
      TraceStep(s1, lines[1..], now, logon, n - 1);
      assert Trace(s, lines, now, logon)[1..] == Trace(s1, lines[1..], now, logon);
    }
  }

  lemma {:induction false} TraceLast(s: Session, lines: seq<Bytes>, now: int, logon: Bytes)
    ensures Trace(s, lines, now, logon)[|lines|] == AfterLines(s, lines, now, logon)
    decreases |lines|
  {
    if lines != [] {
      var s1 := AfterLine(s, lines[0], now, logon);
      TraceLast(s1, lines[1..], now, logon);
      assert Trace(s, lines, now, logon)[1..] == Trace(s1, lines[1..], now, logon);
    }
  }

  /** Dispatching two lists of lines one after the other is dispatching their concatenation. */
  lemma {:induction false} AfterLinesAppend(s: Session, a: seq<Bytes>, b: seq<Bytes>, now: int, logon: Bytes)
    ensures AfterLines(s, a + b, now, logon) == AfterLines(AfterLines(s, a, now, logon), b, now, logon)
    decreases |a|
  {
    if a == [] {
      assert a + b == b;
    } else {
      assert (a + b)[0] == a[0] && (a + b)[1..] == a[1..] + b;
      AfterLinesAppend(AfterLine(s, a[0], now, logon), a[1..], b, now, logon);
    }
  }

  /** What a signal reports about the line it was emitted for; a '#' line is read up to its first NUL byte. */
  predicate Reports(e: Event, line: Bytes) {
    var text := FromLatin1(line);
    if StartsWith(line, '#')
    then e == ServerMessage(text) || (IsLogResp(text) && e == ServerMessage(LogRespText(text)))
    else e == Packet(Aprs.DecodeFrame(line))
  }

  /** One line emits exactly one signal, and it reports that line. */
  lemma LineEmitsOne(s: Session, line: Bytes, now: int, logon: Bytes)
    ensures var t := AfterLine(s, line, now, logon); var n := |Emitted(s.effects)|;
            |Emitted(t.effects)| == n + 1 && Emitted(t.effects)[..n] == Emitted(s.effects)
            && Reports(Emitted(t.effects)[n], line)
  {
    var t := AfterLine(s, line, now, logon);
    assert t.effects == s.effects + t.effects[|s.effects|..];
    EmittedAppend(s.effects, t.effects[|s.effects|..]);
    if !StartsWith(line, '#') {
      EmittedPush(s.effects, Emit(Packet(Aprs.DecodeFrame(line))));
    } else if s.status == WaitBanner {
      EmittedPush(s.effects + [Write(logon)], Emit(ServerMessage(FromLatin1(line))));
    } else {
      EmittedPush(s.effects, Emit(ServerMessage(ServerText(s.status, FromLatin1(line)))));
    }
  }

  /** The signals from position `n` of `ev` on report `lines`, one each. */
  predicate ReportsFrom(ev: seq<Event>, n: nat, lines: seq<Bytes>) {
    n + |lines| <= |ev| && forall k :: 0 <= k < |lines| ==> Reports(ev[n + k], lines[k])
  }

  lemma ReportsShift(ev: seq<Event>, n: nat, m: nat, lines: seq<Bytes>)
    requires |lines| >= 1 && m == n + 1 && n + |lines| <= |ev|
    requires Reports(ev[n], lines[0])
    requires ReportsFrom(ev, m, lines[1..])
    ensures ReportsFrom(ev, n, lines)
  {
    forall k | 0 <= k < |lines| ensures Reports(ev[n + k], lines[k]) {
      if k > 0 {
        var j := k - 1;
        assert Reports(ev[m + j], lines[1..][j]);
        assert m + j == n + k && lines[1..][j] == lines[k];
      }
    }
  }

  /**
   * Dispatching lines in order emits one signal per line, in the same
   * order: a server message for a '#' line, the decoded frame, valid or
   * not, for any other.
   */
  lemma {:induction false} DispatchInOrder(s: Session, lines: seq<Bytes>, now: int, logon: Bytes)
    ensures var t := AfterLines(s, lines, now, logon); var ev := Emitted(t.effects); var n := |Emitted(s.effects)|;
            |ev| == n + |lines| && ev[..n] == Emitted(s.effects) && ReportsFrom(ev, n, lines)
    decreases |lines|
  {
    if lines != [] {
      var s1 := AfterLine(s, lines[0], now, logon);
      var t := AfterLines(s1, lines[1..], now, logon);
      assert AfterLines(s, lines, now, logon) == t;
      var n := |Emitted(s.effects)|;
      var ev := Emitted(t.effects);
      LineEmitsOne(s, lines[0], now, logon);
      DispatchInOrder(s1, lines[1..], now, logon);
      var m := |Emitted(s1.effects)|;
      assert m == n + 1;
      assert ev[..m] == Emitted(s1.effects);
      assert ev[..n] == ev[..m][..n];
      assert ev[n] == Emitted(s1.effects)[n];
      ReportsShift(ev, n, m, lines);
    } else {
      assert AfterLines(s, lines, now, logon) == s;
      assert Emitted(s.effects)[..|Emitted(s.effects)|] == Emitted(s.effects);
    }
  }

  lemma {:induction false} EmittedAppend(a: seq<Effect>, b: seq<Effect>)
    ensures Emitted(a + b) == Emitted(a) + Emitted(b)
    decreases |b|
  {
    if b == [] {
      assert a + b == a;
    } else {
      var init := b[..|b| - 1];
      assert a + b == (a + init) + [b[|b| - 1]];
      assert b == init + [b[|b| - 1]];
      EmittedAppend(a, init);
      EmittedPush(a + init, b[|b| - 1]);
      EmittedPush(init, b[|b| - 1]);
    }
  }

  /** "# logresp ..." lines match rxLogResp. */
  lemma LogRespMatches(rest: string)
    ensures IsLogResp("# logresp" + rest)
  {
    var text := "# logresp" + rest;
    var body := "logresp" + rest;
    assert text[1..] == " " + body;
    assert (" " + body)[1..] == body && LeadingSpaces(body) == 0;
    assert LeadingSpaces(" " + body) == 1;
    assert TrimStart(text[1..]) == body;
    assert ("logresp" + rest)[..7] == "logresp";
    assert ToLower("logresp") == "logresp";
  }

  /**
   * rxLogResp in both directions: after '#' and a run of whitespace, the
   * line is a logon response exactly when the next seven characters spell
   * "logresp" in any mix of cases.
   */
  lemma LogRespShape(spaces: string, word: string, rest: string)
    requires forall k :: 0 <= k < |spaces| ==> IsSpace(spaces[k])
    requires |word| == 7 && !IsSpace(word[0])
    ensures IsLogResp("#" + spaces + word + rest) <==> ToLower(word) == "logresp"
  {
    var text := "#" + spaces + word + rest;
    var body := spaces + (word + rest);
    assert text[1..] == body;
    AllSpacesLead(spaces);
    LeadingSpacesAppend(spaces, word + rest);
    assert TrimStart(body) == word + rest;
    assert (word + rest)[..7] == word;
  }

  /** The text is cut at the comma that ends the comma-free head. */
  lemma CutAtComma(head: string, tail: string)
    requires |head| >= 1 && ',' !in head && (tail == [] || tail[0] == ',')
    ensures LogRespText(head + tail) == head
  {
    var text := head + tail;
    if tail == [] {
      assert text == head;
      IndexOfNone(text, ',', 0);
    } else {
      assert text == [] + head + [','] + tail[1..];
      IndexOfAfter([], head, ',', tail[1..]);
      assert text[..|head|] == head;
    }
  }

  /** The verdict of "# logresp CALL WORD": the third word, so WORD. */
  lemma VerdictWord(callsign: string, verdict: string)
    requires callsign != [] && ' ' !in callsign
    requires verdict != [] && ' ' !in verdict
    ensures LogonVerdict(LogonSent, "# logresp " + callsign + " " + verdict)
            == if ToLower(verdict) == "verified" then LogonVerified else LogonFailed
  {
    var cut := "# logresp " + callsign + " " + verdict;
    var words := ["", "logresp", callsign, verdict];
    LogRespJoin(callsign, verdict);
    SplitJoin(words, ' ');
    NonEmptyOfNonEmpty(words[1..]);
    assert NonEmpty(words) == NonEmpty(words[1..]);
    assert Tokens(cut[1..], ' ') == ["logresp", callsign, verdict];
  }

  lemma LogRespJoin(callsign: string, verdict: string)
    ensures ("# logresp " + callsign + " " + verdict)[1..] == Join(["", "logresp", callsign, verdict], ' ')
  {
    var words := ["", "logresp", callsign, verdict];
    assert words[1..] == ["logresp", callsign, verdict];
    assert Join([verdict], ' ') == verdict;
    assert Join([callsign, verdict], ' ') == callsign + " " + verdict;
    assert Join(["logresp", callsign, verdict], ' ') == "logresp" + " " + (callsign + " " + verdict);
  }

  /** A logon response: "# logresp", the callsign, the verdict word, and optionally ", " and more. */
  lemma LogonResponse(callsign: string, verdict: string, tail: string)
    requires callsign != [] && ' ' !in callsign && ',' !in callsign
    requires verdict != [] && ' ' !in verdict && ',' !in verdict
    requires tail == [] || tail[0] == ','
    ensures var text := "# logresp " + callsign + " " + verdict + tail;
            IsLogResp(text) && LogRespText(text) == "# logresp " + callsign + " " + verdict
            && LogonVerdict(LogonSent, LogRespText(text))
               == if ToLower(verdict) == "verified" then LogonVerified else LogonFailed
  {
    var cut := "# logresp " + callsign + " " + verdict;
    assert cut + tail == "# logresp" + (" " + callsign + " " + verdict + tail);
    LogRespMatches(" " + callsign + " " + verdict + tail);
    assert ',' !in cut;
    CutAtComma(cut, tail);
    VerdictWord(callsign, verdict);
  }

  /**
   * The logon handshake over three lines: a banner sends the logon, a
   * "verified" response verifies it and is reported cut at its comma, and a
   * valid packet line makes the session active.
   */
  lemma Handshake(s: Session, banner: Bytes, callsign: Bytes, tail: Bytes, packet: Bytes, now: int, logon: Bytes)
    requires s.status == WaitBanner && StartsWith(banner, '#')
    requires callsign != [] && ' ' !in callsign && ',' !in callsign && '\0' !in callsign
    requires (tail == [] || tail[0] == ',') && '\0' !in tail
    requires Aprs.DecodeFrame(packet).isValid
    ensures var response: Bytes := "# logresp " + callsign + " verified" + tail;
            var s1 := AfterLine(s, banner, now, logon);
            var s2 := AfterLine(s1, response, now, logon);
            var s3 := AfterLine(s2, packet, now, logon);
            s1.status == LogonSent && s1.effects == s.effects + [Write(logon), Emit(ServerMessage(FromLatin1(banner)))]
            && s2.status == LogonVerified
            && s2.effects == s1.effects + [Emit(ServerMessage("# logresp " + callsign + " verified"))]
            && s3.status == Active && s3.effects == s2.effects + [Emit(Packet(Aprs.DecodeFrame(packet)))]
  {
    var response: Bytes := "# logresp " + callsign + " verified" + tail;
    var cut: string := "# logresp " + callsign + " verified";
    ServerLineStep(s, banner, now, logon);
    var s1 := AfterLine(s, banner, now, logon);
    assert s1.status == LogonSent;
    assert s1.effects == s.effects + [Write(logon), Emit(ServerMessage(FromLatin1(banner)))];
    VerifiedResponse(callsign, tail);
    ServerLineStep(s1, response, now, logon);
    var s2 := AfterLine(s1, response, now, logon);
    assert ServerText(LogonSent, response) == cut;
    assert s2.status == LogonVerified;
    assert s2.effects == s1.effects + [Emit(ServerMessage(cut))];
    Aprs.DecodeFrameShape(packet);
    LineStep(s2, packet, now, logon);
  }

  /** "# logresp CALL verified" and an optional comma tail: a logon response whose verdict is LogonVerified. */
  lemma VerifiedResponse(callsign: Bytes, tail: Bytes)
    requires callsign != [] && ' ' !in callsign && ',' !in callsign && '\0' !in callsign
    requires (tail == [] || tail[0] == ',') && '\0' !in tail
    ensures var response: Bytes := "# logresp " + callsign + " verified" + tail;
            var cut: string := "# logresp " + callsign + " verified";
            StartsWith(response, '#') && FromLatin1(response) == response
            && IsLogResp(response) && LogRespText(response) == cut
            && LogonVerdict(LogonSent, cut) == LogonVerified
  {
    var response: Bytes := "# logresp " + callsign + " verified" + tail;
    var cut: Bytes := "# logresp " + callsign + " verified";
    assert ToLower("verified") == "verified";
    assert cut == "# logresp " + callsign + " " + "verified" by {
      assert " " + "verified" == " verified";
      Associate("# logresp " + callsign, " ", "verified");
    }
    LogonResponse(callsign, "verified", tail);
    NulFreeResponse(callsign, tail);
  }

  /**
   * A NUL hides the rest of a server line: "# logresp CALL\0 verified" is
   * read as "# logresp CALL", a response of two words, so the logon stays
   * undecided.
   */
  lemma LogRespStopsAtNul(s: Session, callsign: Bytes, now: int, logon: Bytes)
    requires s.status == LogonSent
    requires callsign != [] && ' ' !in callsign && ',' !in callsign && '\0' !in callsign
    ensures var t := AfterLine(s, "# logresp " + callsign + "\0 verified", now, logon);
            t.status == LogonSent && t.effects == s.effects + [Emit(ServerMessage("# logresp " + callsign))]
  {
    var line: Bytes := "# logresp " + callsign + "\0 verified";
    NulHidesVerdict(callsign);
    ServerLineStep(s, line, now, logon);
  }

  lemma NulHidesVerdict(callsign: Bytes)
    requires callsign != [] && ' ' !in callsign && ',' !in callsign && '\0' !in callsign
    ensures var line: Bytes := "# logresp " + callsign + "\0 verified";
            var head: string := "# logresp " + callsign;
            StartsWith(line, '#') && FromLatin1(line) == head
            && IsLogResp(head) && LogRespText(head) == head && LogonVerdict(LogonSent, head) == LogonSent
  {
    NulCutsLine(callsign);
    var head: string := "# logresp " + callsign;
    assert head == "# logresp" + (" " + callsign);
    LogRespMatches(" " + callsign);
    CutAtComma(head, []);
    assert head + [] == head;
    TwoWords(callsign);
  }

  lemma NulCutsLine(callsign: Bytes)
    requires '\0' !in callsign
    ensures var line: Bytes := "# logresp " + callsign + "\0 verified";
            StartsWith(line, '#') && FromLatin1(line) == "# logresp " + callsign
  {
    var head: Bytes := "# logresp " + callsign;
    var line: Bytes := head + "\0 verified";
    assert line == "# logresp " + callsign + "\0 verified";
    assert '\0' !in head by {
      var prefix: Bytes := "# logresp ";
      assert '\0' !in prefix;
    }
    assert line[|head|] == '\0' && line[..|head|] == head;
    FromLatin1Cut(line, |head|);
  }

  /** "# logresp CALL" has no third word. */
  lemma TwoWords(callsign: string)
    requires callsign != [] && ' ' !in callsign
    ensures LogonVerdict(LogonSent, "# logresp " + callsign) == LogonSent
  {
    var words := ["", "logresp", callsign];
    assert ("# logresp " + callsign)[1..] == Join(words, ' ') by {
      assert words[1..] == ["logresp", callsign];
      assert Join([callsign], ' ') == callsign;
      assert Join(["logresp", callsign], ' ') == "logresp" + " " + callsign;
    }
    SplitJoin(words, ' ');
    NonEmptyOfNonEmpty(words[1..]);
    assert NonEmpty(words) == NonEmpty(words[1..]);
  }

  lemma NulFreeResponse(callsign: Bytes, tail: Bytes)
    requires '\0' !in callsign && '\0' !in tail
    ensures var response: Bytes := "# logresp " + callsign + " verified" + tail;
            FromLatin1(response) == response
  {
    var head: Bytes := "# logresp ";
    var verified: Bytes := " verified";
    assert '\0' !in head && '\0' !in verified;
    var response := head + callsign + verified + tail;
    assert '\0' !in response;
    FromLatin1Cut(response, 0);
  }

  // =====================================================================
  // Splitting the receive buffer into lines (onReadyRead)

  /** Where the line starting at `from` ends: at the first '\n' if any remains, else at the first '\r'. */
  function LineEnd(buf: Bytes, from: nat): (k: int)
    requires from <= |buf|
    ensures k == -1 || from <= k < |buf|
    ensures k >= 0 ==> buf[k] == '\n' || buf[k] == '\r'
  {
    var sep := IndexOf(buf, '\n', from);
    if sep >= 0 then sep else IndexOf(buf, '\r', from)
  }

  /**
   * The line ends at the first '\n'; a '\r' ends it only when no '\n'
   * is left at all, and there is no end only when neither is left.
   */
  lemma LineEndPrefersNewline(buf: Bytes, from: nat)
    requires from <= |buf|
    ensures var k := LineEnd(buf, from);
            (k < 0 <==> forall j :: from <= j < |buf| ==> buf[j] != '\n' && buf[j] != '\r')
            && (k >= 0 && buf[k] == '\n' ==> forall j :: from <= j < k ==> buf[j] != '\n')
            && (k >= 0 && buf[k] == '\r' ==> forall j :: from <= j < |buf| ==> buf[j] != '\n')
  {
    var n := IndexOf(buf, '\n', from);
    if n < 0 {
      var r := IndexOf(buf, '\r', from);
      if r >= 0 {
        assert buf[r] == '\r';
      }
    }
  }

  /** The complete lines from `from` on, without their terminators. */
  function Lines(buf: Bytes, from: nat): seq<Bytes>
    requires from <= |buf|
    decreases |buf| - from
  {
    var sep := LineEnd(buf, from);
    if sep < 0 then [] else [buf[from..sep]] + Lines(buf, sep + 1)
  }

  /** The terminator that ended each of those lines. */
  function Terminators(buf: Bytes, from: nat): (ts: seq<Byte>)
    requires from <= |buf|
    decreases |buf| - from
  {
    var sep := LineEnd(buf, from);
    if sep < 0 then [] else [buf[sep]] + Terminators(buf, sep + 1)
  }

  /** The incomplete last line that stays in the buffer. */
  function Rest(buf: Bytes, from: nat): Bytes
    requires from <= |buf|
    decreases |buf| - from
  {
    var sep := LineEnd(buf, from);
    if sep < 0 then buf[from..] else Rest(buf, sep + 1)
  }

  /** Lines put back together with their terminators. */
  function Framed(lines: seq<Bytes>, ts: seq<Byte>): Bytes
  {
    if lines == [] || ts == [] then [] else lines[0] + [ts[0]] + Framed(lines[1..], ts[1..])
  }

  /** Nothing is lost or reordered: the lines, their terminators and the rest make up the buffer. */
  lemma {:induction false} Reassemble(buf: Bytes, from: nat)
    requires from <= |buf|
    ensures |Terminators(buf, from)| == |Lines(buf, from)|
    ensures buf[from..] == Framed(Lines(buf, from), Terminators(buf, from)) + Rest(buf, from)
    decreases |buf| - from
  {
    var sep := LineEnd(buf, from);
    if sep >= 0 {
      Reassemble(buf, sep + 1);
      ReassembleStep(buf, from, sep);
    } else {
      LinesStep(buf, from, sep);
      TerminatorsStep(buf, from, sep);
      assert Framed([], []) == [];
      assert [] + buf[from..] == buf[from..];
    }
  }

  lemma ReassembleStep(buf: Bytes, from: nat, sep: nat)
    requires from <= sep < |buf| && LineEnd(buf, from) == sep
    requires |Terminators(buf, sep + 1)| == |Lines(buf, sep + 1)|
    requires buf[sep + 1..] == Framed(Lines(buf, sep + 1), Terminators(buf, sep + 1)) + Rest(buf, sep + 1)
    ensures |Terminators(buf, from)| == |Lines(buf, from)|
    ensures buf[from..] == Framed(Lines(buf, from), Terminators(buf, from)) + Rest(buf, from)
  {
    var line, ls, ts := buf[from..sep], Lines(buf, sep + 1), Terminators(buf, sep + 1);
    LinesStep(buf, from, sep);
    TerminatorsStep(buf, from, sep);
    FramedCons(line, buf[sep], ls, ts);
    CutAround(buf, from, sep);
    Associate(line + [buf[sep]], Framed(ls, ts), Rest(buf, from));
  }

  lemma TerminatorsStep(buf: Bytes, from: nat, sep: int)
    requires from <= |buf| && sep == LineEnd(buf, from)
    ensures sep < 0 ==> Terminators(buf, from) == []
    ensures sep >= 0 ==> Terminators(buf, from) == [buf[sep]] + Terminators(buf, sep + 1)
  {
  }

  lemma FramedCons(line: Bytes, t: Byte, ls: seq<Bytes>, ts: seq<Byte>)
    ensures Framed([line] + ls, [t] + ts) == line + [t] + Framed(ls, ts)
  {
    assert ([line] + ls)[1..] == ls && ([t] + ts)[1..] == ts;
  }

  /** What is left holds no line terminator, and every terminator is '\n' or '\r'. */
  lemma {:induction false} RestHasNoTerminator(buf: Bytes, from: nat)
    requires from <= |buf|
    ensures '\n' !in Rest(buf, from) && '\r' !in Rest(buf, from)
    ensures forall k :: 0 <= k < |Terminators(buf, from)| ==>
              Terminators(buf, from)[k] == '\n' || Terminators(buf, from)[k] == '\r'
    decreases |buf| - from
  {
    var sep := LineEnd(buf, from);
    if sep >= 0 {
      RestHasNoTerminator(buf, sep + 1);
      var ts := Terminators(buf, sep + 1);
      assert Rest(buf, from) == Rest(buf, sep + 1);
      assert Terminators(buf, from) == [buf[sep]] + ts;
      forall k | 1 <= k < |ts| + 1 ensures ([buf[sep]] + ts)[k] == ts[k - 1] {
      }
    } else {
      var r := buf[from..];
      assert Rest(buf, from) == r && Terminators(buf, from) == [];
      LineEndPrefersNewline(buf, from);
      forall j | 0 <= j < |r| ensures r[j] != '\n' && r[j] != '\r' {
        assert r[j] == buf[from + j];
      }
    }
  }

  /** One turn of onReadyRead's loop: the separator it finds is LineEnd, and the lists shift by one line. */
  lemma LinesStep(buf: Bytes, from: nat, sep: int)
    requires from <= |buf| && sep == LineEnd(buf, from)
    ensures sep < 0 ==> Lines(buf, from) == [] && Rest(buf, from) == buf[from..]
    ensures sep >= 0 ==> from <= sep < |buf| && Lines(buf, from) == [buf[from..sep]] + Lines(buf, sep + 1)
                         && Rest(buf, from) == Rest(buf, sep + 1)
  {
  }

  /** A '\r' before a later '\n' does not end a line: "A\rB\n" is the one line "A\rB". */
  lemma CarriageReturnInsideLine()
    ensures Lines("A\rB\n", 0) == ["A\rB"] && Rest("A\rB\n", 0) == []
  {
    var b: Bytes := "A\rB\n";
    assert IndexOf(b, '\n', 0) == 3 by { IndexOfIs(b, '\n', 0, 3); }
    assert LineEnd(b, 4) == -1;
    assert b[0..3] == "A\rB";
  }

  /** CR LF endings leave the CR on the line and make no empty lines: "X\r\nY\r\n" is "X\r", "Y\r". */
  lemma CrLfLines()
    ensures Lines("X\r\nY\r\n", 0) == ["X\r", "Y\r"] && Rest("X\r\nY\r\n", 0) == []
  {
    var b: Bytes := "X\r\nY\r\n";
    assert LineEnd(b, 0) == 2 by { IndexOfIs(b, '\n', 0, 2); }
    assert LineEnd(b, 3) == 5 by { IndexOfIs(b, '\n', 3, 5); }
    assert LineEnd(b, 6) == -1;
    assert b[0..2] == "X\r" && b[3..5] == "Y\r";
  }

  /**
   * Where the reads split the stream matters: "A\rB" then "\n" dispatches
   * "A" and then "B", while one read of "A\rB\n" dispatches the single line
   * "A\rB" (CarriageReturnInsideLine).
   */
  lemma ReadBoundaryMatters()
    ensures Lines("A\rB", 0) == ["A"] && Rest("A\rB", 0) == "B"
    ensures Lines("B" + "\n", 0) == ["B"] && Rest("B" + "\n", 0) == []
  {
    var a: Bytes := "A\rB";
    assert IndexOf(a, '\n', 0) == -1 by { IndexOfNone(a, '\n', 0); }
    assert IndexOf(a, '\r', 0) == 1 by { IndexOfIs(a, '\r', 0, 1); }
    assert LineEnd(a, 2) == -1 by { IndexOfNone(a, '\n', 2); IndexOfNone(a, '\r', 2); }
    assert a[0..1] == "A" && a[2..] == "B";
    var b: Bytes := "B" + "\n";
    assert LineEnd(b, 0) == 1 by { IndexOfIs(b, '\n', 0, 1); }
    assert LineEnd(b, 2) == -1;
    assert b[0..1] == "B";
  }

  // =====================================================================
  // Closing and the check timer (onClosed, onCheckTimer)

  /** onClosed, as a step of the session. */
  function AfterClose(s: Session, now: int): (t: Session)
    ensures t.lastMessage == Some(now)
    ensures t.status == Reconnect <==> s.status == LogonVerified || s.status == Active || s.status == Reconnect
    ensures t.status != Reconnect ==> t.status == Terminated
    ensures t.effects == s.effects + [Emit(ConnectionClosed)]
  {
    var status := if s.status == LogonVerified || s.status == Active || s.status == Reconnect
                  then Reconnect else Terminated;
    Session(status, Some(now), s.effects + [Emit(ConnectionClosed)])
  }

  /** onCheckTimer, as a step of the session: reconnect after MIN_RECONNECT_TIME, ping after PingInterval. */
  function AfterTick(s: Session, now: int, server: string, port: Port): (t: Session)
    requires ClockKnown(s)
    ensures t.status == s.status
    ensures s.status == Reconnect && now - s.lastMessage.value > MinReconnectTime ==>
              t == s.(effects := s.effects + [ConnectToHost(server, port)])
    ensures s.status == Active && now - s.lastMessage.value > PingInterval ==>
              t == s.(lastMessage := Some(now), effects := s.effects + [Write(Ping)])
    ensures (!(s.status == Reconnect && now - s.lastMessage.value > MinReconnectTime)
             && !(s.status == Active && now - s.lastMessage.value > PingInterval)) ==> t == s
  {
    var s1 := if s.status == Reconnect && now - s.lastMessage.value > MinReconnectTime
              then s.(effects := s.effects + [ConnectToHost(server, port)]) else s;
    if s1.status == Active && now - s1.lastMessage.value > PingInterval
    then s1.(lastMessage := Some(now), effects := s1.effects + [Write(Ping)])
    else s1
  }

  /** A sequence of timer ticks. */
  function AfterTicks(s: Session, times: seq<int>, server: string, port: Port): (t: Session)
    requires ClockKnown(s)
    ensures ClockKnown(t)
    decreases |times|
  {
    if times == [] then s else AfterTicks(AfterTick(s, times[0], server, port), times[1..], server, port)
  }

  function Repeat(e: Effect, n: nat): (r: seq<Effect>)
    ensures |r| == n && forall k :: 0 <= k < n ==> r[k] == e
  {
    if n == 0 then [] else [e] + Repeat(e, n - 1)
  }

  /**
   * In Reconnect the clock is not restarted by a connect request, so every
   * tick more than MIN_RECONNECT_TIME after the close asks for a new
   * connection to the same server and port.
   */
  lemma {:induction false} ReconnectRetriesEveryTick(s: Session, times: seq<int>, server: string, port: Port)
    requires s.status == Reconnect && s.lastMessage.Some?
    requires forall k :: 0 <= k < |times| ==> times[k] - s.lastMessage.value > MinReconnectTime
    ensures var t := AfterTicks(s, times, server, port);
            t.status == Reconnect && t.lastMessage == s.lastMessage
            && t.effects == s.effects + Repeat(ConnectToHost(server, port), |times|)
    decreases |times|
  {
    if times != [] {
      var s1 := AfterTick(s, times[0], server, port);
      assert s1.effects == s.effects + [ConnectToHost(server, port)];
      forall k | 0 <= k < |times[1..]| ensures times[1..][k] - s1.lastMessage.value > MinReconnectTime {
        assert times[1..][k] == times[k + 1];
      }
      ReconnectRetriesEveryTick(s1, times[1..], server, port);
      var r := Repeat(ConnectToHost(server, port), |times| - 1);
      assert s.effects + [ConnectToHost(server, port)] + r == s.effects + ([ConnectToHost(server, port)] + r);
    }
  }

  /** After a ping the clock restarts, so no tick within the next PingInterval pings again. */
  lemma {:induction false} PingSpacing(s: Session, times: seq<int>, start: int, server: string, port: Port)
    requires s.status == Active && s.lastMessage == Some(start)
    requires forall k :: 0 <= k < |times| ==> times[k] <= start + PingInterval
    ensures AfterTicks(s, times, server, port) == s
    decreases |times|
  {
    if times != [] {
      assert AfterTick(s, times[0], server, port) == s;
      ReconnectOrPingTail(s, times, start);
      PingSpacing(s, times[1..], start, server, port);
    }
  }

  lemma ReconnectOrPingTail(s: Session, times: seq<int>, start: int)
    requires |times| >= 1 && forall k :: 0 <= k < |times| ==> times[k] <= start + PingInterval
    ensures forall k :: 0 <= k < |times[1..]| ==> times[1..][k] <= start + PingInterval
  {
    forall k | 0 <= k < |times[1..]| ensures times[1..][k] <= start + PingInterval {
      assert times[1..][k] == times[k + 1];
    }
  }

  // =====================================================================
  // The connection object

  class NetworkConnection {
    var status: Status
    var server: string
    var port: Port
    /** The time of the last restart of mLastMessage; None until it is first restarted. */
    var lastMessage: Option<int>
    var callsign: string
    var passcode: int
    var buffer: Bytes
    /** The application name and version that QCoreApplication would report. */
    const appName: string
    const appVersion: string
    /** Everything emitted and asked of the socket, in order. */
    ghost var effects: seq<Effect>

    ghost predicate Valid()
      reads this`status, this`lastMessage
    {
      (status == Active || status == Reconnect) ==> lastMessage.Some?
    }

    ghost function State(): Session
      reads this`status, this`lastMessage, this`effects
    {
      Session(status, lastMessage, effects)
    }

    function Logon(): Bytes
      reads this`callsign, this`passcode
    {
      LogonCommand(callsign, passcode, appName, appVersion)
    }

    /** The constructor; the status, which the source leaves uninitialised, starts as WaitBanner. */
    constructor(appName: string, appVersion: string)
      ensures Valid()
      ensures status == WaitBanner && lastMessage == None && effects == []
      ensures callsign == "NOSIGN" && passcode == -1 && buffer == [] && server == "" && port == 0
      ensures this.appName == appName && this.appVersion == appVersion
    {
      this.appName := appName;
      this.appVersion := appVersion;
      status := WaitBanner;
      server := "";
      port := 0;
      lastMessage := None;
      callsign := "NOSIGN";
      passcode := -1;
      buffer := [];
      effects := [];
    }

    method SetCallsign(callsign: string, passcode: int := -1)
      modifies this`callsign, this`passcode
      ensures this.callsign == callsign && this.passcode == passcode
    {
      this.callsign := callsign;
      this.passcode := passcode;
    }

    method SendLogon()
      modifies this`effects
      ensures effects == old(effects) + [Write(Logon())]
    {
      var cmd := "user " + callsign + " pass " + Decimal(passcode);
      if |appName| > 0 && |appVersion| > 0 {
        var name := CollapseSpaces(appName);
        var ver := CollapseSpaces(appVersion);
        cmd := cmd + " ver " + name + " " + ver;
      }
      cmd := cmd + "\r\n";
      effects := effects + [Write(ToLatin1(cmd))];
    }

    method ProcessLine(line: Bytes, now: int)
      requires Valid()
      modifies this`status, this`lastMessage, this`effects
      ensures Valid()
      ensures State() == AfterLine(old(State()), line, now, Logon())
    {
      ghost var s0 := State();
      lastMessage := Some(now);
      if StartsWith(line, '#') {
        var lineText := FromLatin1(line);
        match status {
          case WaitBanner =>
            SendLogon();
            status := LogonSent;
          case LogonSent =>
            if IsLogResp(lineText) {
              var sep := IndexOf(lineText, ',', 0);
              if sep > 0 {
                lineText := lineText[..sep];
              }
              assert lineText == LogRespText(FromLatin1(line));
              var fields := Tokens(lineText[1..], ' ');
              if |fields| > 2 {
                if ToLower(fields[2]) == "verified" {
                  status := LogonVerified;
                } else {
                  status := LogonFailed;
                }
              }
              assert status == LogonVerdict(s0.status, lineText);
            }
          case _ =>
        }
        effects := effects + [Emit(ServerMessage(lineText))];
      } else {
        var frame := Aprs.DecodeFrame(line);
        if frame.isValid {
          status := Active;
        }
        effects := effects + [Emit(Packet(frame))];
      }
    }

    method ConnectToServer(address: string, port: Port)
      modifies this`server, this`port, this`effects
      ensures server == address && this.port == port
      ensures effects == old(effects) + [ConnectToHost(address, port)]
    {
      server := address;
      this.port := port;
      effects := effects + [ConnectToHost(address, port)];
    }

    method Disconnect()
      modifies this`status, this`effects
      ensures Valid()
      ensures status == Close && effects == old(effects) + [CloseSocket]
    {
      status := Close;
      effects := effects + [CloseSocket];
    }

    method OnConnected()
      modifies this`status
      ensures Valid()
      ensures status == WaitBanner
    {
      status := WaitBanner;
    }

    method OnClosed(now: int)
      modifies this`status, this`lastMessage, this`effects
      ensures Valid()
      ensures State() == AfterClose(old(State()), now)
    {
      lastMessage := Some(now);
      if status == LogonVerified || status == Active || status == Reconnect {
        status := Reconnect;
      } else {
        status := Terminated;
      }
      effects := effects + [Emit(ConnectionClosed)];
    }

    /** onReadyRead: append what arrived, dispatch every complete line, keep the incomplete rest. */
    method OnReadyRead(incoming: Bytes, now: int)
      requires Valid()
      modifies this`buffer, this`status, this`lastMessage, this`effects
      ensures Valid()
      ensures State() == AfterLines(old(State()), Lines(old(buffer) + incoming, 0), now, Logon())
      ensures buffer == Rest(old(buffer) + incoming, 0)
    {
      var buf := buffer + incoming;
      ghost var s0 := State();
      ghost var logon := Logon();
      ghost var lines := Lines(buf, 0);
      ghost var n := 0;
      var start := 0;
      while true
        invariant 0 <= start <= |buf| && n <= |lines|
        invariant Valid() && Logon() == logon
        invariant Lines(buf, start) == lines[n..]
        invariant State() == Trace(s0, lines, now, logon)[n]
        invariant Rest(buf, start) == Rest(buf, 0)
        decreases |buf| - start
      {
        var sep := DispatchNext(buf, start, now, s0, lines, n, logon);
        if sep < 0 {
          break;
        }
        start := sep + 1;
        n := n + 1;
      }
      TraceLast(s0, lines, now, logon);
      buffer := buf[start..];
    }

    /** One turn of the loop of onReadyRead: find the end of the next line and, if there is one, process the line. */
    method DispatchNext(buf: Bytes, start: nat, now: int, ghost s0: Session, ghost lines: seq<Bytes>, ghost n: nat,
                        ghost logon: Bytes) returns (sep: int)
      requires Valid() && Logon() == logon && start <= |buf| && n <= |lines|
      requires Lines(buf, start) == lines[n..] && State() == Trace(s0, lines, now, logon)[n]
      modifies this`status, this`lastMessage, this`effects
      ensures Valid() && Logon() == logon
      ensures sep < 0 ==> n == |lines| && State() == old(State()) && buf[start..] == Rest(buf, start)
      ensures sep >= 0 ==> n < |lines| && start <= sep < |buf|
                           && Lines(buf, sep + 1) == lines[n + 1..]
                           && State() == Trace(s0, lines, now, logon)[n + 1]
                           && Rest(buf, sep + 1) == Rest(buf, start)
    {
      sep := IndexOf(buf, '\n', start);
      if sep < 0 {
        sep := IndexOf(buf, '\r', start);
      }
      LinesStep(buf, start, sep);
      if sep >= 0 {
        assert lines[n..][0] == lines[n] && lines[n..][1..] == lines[n + 1..];
        TraceStep(s0, lines, now, logon, n);
        ProcessLine(buf[start..sep], now);
      }
    }

    method OnCheckTimer(now: int)
      requires Valid()
      modifies this`server, this`port, this`lastMessage, this`effects
      ensures Valid()
      ensures server == old(server) && port == old(port)
      ensures State() == AfterTick(old(State()), now, server, port)
    {
      if status == Reconnect {
        if now - lastMessage.value > MinReconnectTime {
          ConnectToServer(server, port);
        }
      }
      if status == Active && now - lastMessage.value > PingInterval {
        lastMessage := Some(now);
        effects := effects + [Write(Ping)];
      }
    }
  }
}
