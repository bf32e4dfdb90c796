# APRS-IS client core in Dafny

This project models the core of a small Qt APRS-IS client. It has two parts.

- `aprs.cpp` decodes the APRS text format:
  - the APRS-IS passcode of a callsign;
  - the `SOURCE>DEST,VIA...:payload` packet line;
  - the packet type byte;
  - timestamps;
  - uncompressed positions, with position ambiguity;
  - object reports.
- `networkconnection.cpp` holds one APRS-IS session:
  - a receive buffer cut into lines;
  - the logon handshake and its `# logresp` verdict;
  - the session status machine;
  - an idle clock with a keepalive ping;
  - reconnecting after the server drops the link.

Files:

- `wrappers.dfy`: `Option`.
- `qtstrings.dfy` (module `QtStrings`): the Qt string operations the core relies on, as far as the core needs them. These are Latin-1 conversion, ASCII case mapping, `indexOf`, `left`, `split` with and without empty parts, `trimmed`, the `\s+` to `_` replacement and decimal formatting.
- `aprs.dfy` (module `Aprs`): the decoder. The parsing functions are pure. `calcPasscode` and `decodeLocator` run loops in the source, so they are methods with loop invariants. Each method is proved equal to a specification function (`Passcode`, `LocatorOf`), and the lemmas are proved about those functions.
- `connection.dfy` (module `Connection`): the class `NetworkConnection` with the source's fields and slots. Each slot that changes the session is proved to take the state `(status, lastMessage, effects)` to the value a pure step function gives:
  - `AfterLine` for `processLine`;
  - `AfterLines` over `Lines` for `onReadyRead`;
  - `AfterClose` for `onClosed`;
  - `AfterTick` for `onCheckTimer`.

  The lemmas are stated about those step functions.

How the outside world appears in the model:

- The socket writes, connection requests, socket closes and emitted signals go into a ghost log, `effects`, in program order.
- The bytes `readAll` returns are the `incoming` argument of `OnReadyRead`.
- The wall clock is an argument `now` in milliseconds. `mLastMessage.restart()` records `now`, and `elapsed()` is `now` minus that value.
- The current UTC date that `decodeTime` reads is the argument `cd`.
- `QCoreApplication`'s application name and version are constructor arguments.

Behaviour is taken from the code as written, including its oddities:

- In `decodeTime`, the `'z'` and `'/'` cases fall through into `'h'`, so a zulu day/hour/minute timestamp is read as hour/minute/second on the current date. `'/'` never reaches the switch, because it is not a `\w` character.
- `decodeLocator` weights the two digits after the decimal point as seconds of arc (10/3600 and 1/3600), not as hundredths of a minute. Latitudes and longitudes are therefore exact integers in units of 1/3600 degree.
- The hemisphere letters are matched case-insensitively by the regular expression. The sign test compares with `'S'` and `'W'` only, so `s` and `w` give positive coordinates.
- `decodeLocator` can reach its end without a `return` (a non-empty input under 19 characters or not starting with a digit). `decodeObjectReport` reaches that path with a digit-led position text that a NUL byte cuts short. The model treats that path, and every other rejected input, as `InvalidLocator`: type `LocatorInvalid`, accuracy -1, and lat, lon and symbol 0. The one exception is an input whose latitude field matched and whose longitude field did not: `lat` is assigned before the longitude check, so that locator keeps the signed latitude. On the empty input the source returns without setting the accuracy, and the model uses -1 there too.
- `decodeFrame` sets `source` before it checks for a `':'`. A line with a `'>'` but no `':'` is therefore invalid but keeps its source.
- `decodeObjectReport`'s returned `position` is unassigned when no digit follows the timestamp. The model makes it `None`. A rejected payload gives the value-initialised `ObjectReport()`, whose position is the all-zero `LocatorNull` locator. The `symbol` field is never written.
- `mStatus` is not initialised by the constructor. The model starts it at `WaitBanner`, the value `onConnected` sets before any line can arrive.
- A line ends at the first `'\n'` if one remains in the buffer, and only otherwise at the first `'\r'`. So `"A\rB\n"` is one line, and CR LF leaves the CR on the line.
- For a `# logresp` line, the text emitted as `serverMessage` is the line cut before its first comma, since the source reassigns `lineText`.
- Several byte arrays become text through the Qt 5 overload `QString::fromLatin1(const QByteArray &)`, which stops at the first NUL byte. This cuts the frame's source (aprs.cpp:38), the object name and the text after the alive marker (aprs.cpp:139 and 141), and the text of a `'#'` server line (networkconnection.cpp:51). The path is converted with an explicit size (aprs.cpp:44) and keeps every byte. So `"# logresp CALL\0 verified"` is read as the two-word response `"# logresp CALL"` and leaves the logon undecided, and an object payload with a NUL right after the marker is rejected.
- Where the reads split the stream changes the lines: a `'\r'` ends a line only when no `'\n'` is in the buffer yet. So `"A\rB"` then `"\n"` gives the lines `"A"` and `"B"`, while one read of `"A\rB\n"` gives the single line `"A\rB"`.

## Model

| member | source | states |
|---|---|---|
| Aprs.Passcode | aprs.cpp:9-26 | the passcode lies in [0, 0x7FFF] |
| Aprs.HashPairs | aprs.cpp:16-24 | the pairwise XOR loop computes the fold of the 16-bit words, pair by pair, from the seed 0x73E2 |
| Aprs.CalcPasscode | aprs.cpp:9-26 | calcPasscode returns exactly Passcode of its argument |
| Aprs.PasscodeIgnoresCase | aprs.cpp:15 | two callsigns that agree after upper-casing have the same passcode |
| Aprs.PasscodeOfUpperCase | aprs.cpp:15 | upper-casing a callsign first does not change its passcode |
| Aprs.PasscodeIgnoresSsid | aprs.cpp:11-13 | a "-SSID" suffix after a non-empty, dash-free base does not change the passcode |
| Aprs.PasscodeKeepsLeadingDash | aprs.cpp:11-13 | a dash at position 0 is not a cut point, so the whole string is kept |
| Aprs.PasscodeUsesTenCharacters | aprs.cpp:15 | only the first ten characters matter |
| Aprs.PasscodeExamples | aprs.cpp:9-26 | the empty callsign gives 29666 and N0CALL gives 13023 |
| Aprs.NormalizeCallsign | aprs.cpp:11-15 | the result is the callsign cut before a '-' found after the first character, upper-cased and kept to at most ten characters; a cut result holds no '-' |
| Aprs.DecodeFrame | aprs.cpp:28-49 | a rejected frame has empty destination, via and payload; the source is a prefix of the line holding no '>' and no NUL byte |
| Aprs.DecodeFrameShape | aprs.cpp:28-49 | valid iff the line does not start with '#' and has a '>' before a ':'; '#' or no '>' gives the empty frame; an invalid frame has empty destination, via and payload; once a '>' exists in a non-'#' line, the source is the text before the first '>', ended early by a NUL byte |
| Aprs.SourceStopsAtNul | aprs.cpp:38-47 | "A\0B>C:x" decodes as a valid frame with source "A", destination "C" and payload "x": the source stops at the NUL, while the path and payload keep their bytes |
| Aprs.DecodeFrameRoundTrip | aprs.cpp:28-49 | a valid frame re-encodes to its source followed by the input from the first '>' on, which is exactly the input when no NUL precedes the '>'; no '>' in the source and no ':' in the path |
| Aprs.EncodeDecodeFrame | aprs.cpp:33-47 | decoding the text form of a well-formed frame (source free of '>' and NUL and not starting with '#', hops free of ',' and ':') gives that frame back, marked valid |
| Aprs.GetType | aprs.cpp:124-129 | the type is 0 iff the payload is empty or starts with NUL; otherwise it is the first payload byte |
| Aprs.DecodeTime | aprs.cpp:81-122 | a result exists iff the text is six digits plus 'h' or 'z', or eight digits; gives the raw fields of the time of day on the current date, or month, day, hour and minute in the current year |
| Aprs.ZuluReadsAsTimeOfDay | aprs.cpp:95-107 | 'z' falls through to 'h': DDHHMMz decodes exactly as DDHHMMh |
| Aprs.SlashGivesNoTime | aprs.cpp:84-99 | a seven-character time ending in '/' gives no timestamp |
| Aprs.TimeOfDayRoundTrip | aprs.cpp:103-106 | for a valid time of day (hour < 24, minute and second < 60), the zero-padded HHMMSSh text decodes to that hour, minute and second on the current date |
| Aprs.MonthDayTimeRoundTrip | aprs.cpp:111-119 | for month 1-12, day 1-28, hour < 24 and minute < 60, which every year accepts, the zero-padded MMDDHHMM text decodes to that month, day, hour and minute in the current year |
| Aprs.LocatorOf | aprs.cpp:159-215 | GPS iff the text has the uncompressed latitude, table, longitude layout; everything else is the invalid locator except for lat, which is the signed latitude when the latitude field matched and 0 otherwise; symbol is table byte * 256 + code byte; a negative coordinate needs 'S' or 'W' |
| Aprs.DecodeLocator | aprs.cpp:159-215 | decodeLocator, with its accuracy-counting loops, returns exactly LocatorOf, including the latitude kept on a bad longitude |
| Aprs.LatitudeKeptOnBadLongitude | aprs.cpp:174-207 | "4903.50N/0720x.75W>" is rejected but keeps lat 176630, the signed latitude assigned before the longitude check |
| Aprs.LocatorCoordinates | aprs.cpp:176-199 | lat and lon are the digit-weighted sums (degrees 3600, then 600, 60, 10, 1; a space counts 0), negated for 'S' and 'W' |
| Aprs.LocatorAccuracy | aprs.cpp:166-208 | accuracy is 3 plus the smaller count of digits among each coordinate's four ambiguity positions, so between 3 and 7 |
| Aprs.AmbiguityNeverRaisesAccuracy | aprs.cpp:168-208 | blanking an ambiguity position keeps the position decodable and never raises its accuracy |
| Aprs.LowerCaseHemisphereIsPositive | aprs.cpp:168-199 | 's' and 'w' pass the case-insensitive check but give non-negative coordinates |
| Aprs.PositionLayout | aprs.cpp:170-211 | the encoder writes each field at the offset the decoder reads |
| Aprs.PositionIsUncompressed | aprs.cpp:168-202 | an encoded position passes both field checks, with all eight ambiguity positions holding digits |
| Aprs.PositionRoundTrip | aprs.cpp:159-215 | decoding an encoded position gives its signed coordinates, type GPS, accuracy 7 and its symbol |
| Aprs.DecodeObjectReport | aprs.cpp:131-157 | anything but a ';' payload of at least 37 bytes gives the default report, and so does one whose text after the marker is empty because byte 11 is NUL; any other accepted payload never reports the null locator |
| Aprs.ReportTail | aprs.cpp:145-156 | name, alive and timestamp are passed through; the part after the timestamp never yields the null locator; an empty part gives no position and an empty comment (the intended aprs.cpp:148, see Findings) |
| Aprs.ObjectReportFields | aprs.cpp:139-145 | a NUL at byte 11 gives the default report; otherwise the name is the trimmed text of bytes 1-9 up to a NUL, alive iff byte 10 is '*', and the timestamp is decodeTime of the first seven characters of the text from byte 11; without NUL bytes these are bytes 1-9 and 11-17 |
| Aprs.ObjectReportPosition | aprs.cpp:146-155 | when a digit follows the timestamp in the text from byte 11 (cut at a NUL), the position is the locator of its next 19 characters and the comment is what follows; otherwise there is no position and the comment is the rest; with no NUL these are bytes 18-36 and 37 on |
| Aprs.NulAfterTimestamp | aprs.cpp:141-156 | a NUL right after a NUL-free timestamp leaves an empty text past the time while the byte payload is non-empty, the read at aprs.cpp:150 past the end; the model gives name, marker and time, no position and an empty comment |
| Aprs.ObjectRoundTrip | aprs.cpp:131-157 | an object payload built from NUL-free name, marker, time, digit-led position and comment decodes to those parts |
| QtStrings.TrimIsInfix | aprs.cpp:139 | trimmed is the infix between the leading and trailing whitespace, with non-space ends |
| QtStrings.TokensAreWords | networkconnection.cpp:66 | split with SkipEmptyParts yields non-empty words free of the separator |
| QtStrings.SplitJoin | aprs.cpp:44-47 | splitting a join of separator-free parts gives the parts back |
| QtStrings.JoinSplit | aprs.cpp:44-47 | joining the split pieces gives the text back |
| QtStrings.NatDigitsRoundTrip | networkconnection.cpp:100 | the decimal digits of a number read back as that number |
| QtStrings.CollapseSpaces | networkconnection.cpp:105-106 | the whitespace-run replacement leaves no whitespace, and it leaves whitespace-free text unchanged |
| QtStrings.CollapseRun | networkconnection.cpp:105-106 | a non-empty run made only of whitespace becomes the single "_" |
| QtStrings.CollapseAppend | networkconnection.cpp:105-106 | the replacement distributes over concatenation when the join point does not split a whitespace run |
| QtStrings.LeadingSpacesAppend | networkconnection.cpp:105-106 | appending text does not change a leading whitespace run that ends inside the first part, nor one that covers it when the second part starts with a non-space |
| Connection.LogonTextIsJoin | networkconnection.cpp:97-109 | the logon line is "user C pass P", plus "ver NAME VERSION" when both are non-empty, joined by single spaces |
| Connection.LogonTextWords | networkconnection.cpp:97-109 | for a non-empty, space-free callsign, the words of the logon line are exactly those fields |
| Connection.LogonCommandFraming | networkconnection.cpp:109-110 | for Latin-1 inputs, the bytes written are the logon line followed by CR LF, unchanged by toLatin1 |
| Connection.LogonVerdictCases | networkconnection.cpp:66-74 | the status becomes Verified iff the third word is "verified" in any case, Failed if another third word exists, and stays the same with fewer than three words |
| Connection.LogRespShape | networkconnection.cpp:44 | a line '#', then whitespace, then a non-space word of seven characters, matches the logon response pattern iff that word is "logresp" in any case |
| Connection.LogRespText | networkconnection.cpp:61-63 | the text is cut before the first comma when that comma is not at position 0, else kept whole |
| Connection.LogonResponse | networkconnection.cpp:44-75 | "# logresp CALL WORD[,...]" matches, is cut at the comma, and gives Verified iff WORD is "verified" in any case |
| Connection.ServerStatusCases | networkconnection.cpp:52-79 | WaitBanner becomes LogonSent; LogonSent with a logresp line becomes the verdict on its cut text; every other status is kept |
| Connection.LineStep | networkconnection.cpp:46-95 | a line restarts the clock and adds exactly one signal after the earlier effects; a '#' line sends the logon and moves to LogonSent exactly when the status was WaitBanner, changes the status only from WaitBanner or LogonSent, and emits a serverMessage; any other line emits its decoded frame and moves to Active iff the frame is valid |
| Connection.ServerLineStep | networkconnection.cpp:49-80 | a '#' line is read as its text up to the first NUL byte; the status becomes ServerStatus of that text, the logon is written first iff the status was WaitBanner, and one serverMessage follows; in LogonSent a '#' line sets the logresp verdict and emits the cut text, or keeps LogonSent and emits the line; in other statuses it emits the whole line, after the logon when in WaitBanner |
| Connection.Handshake | networkconnection.cpp:46-95 | banner, a NUL-free "# logresp CALL verified[,...]" and a valid packet take WaitBanner to LogonSent, LogonVerified and Active, with the logon written once and the signals banner, cut logresp text, packet |
| Connection.LineEmitsOne | networkconnection.cpp:51-89 | one line adds exactly one signal, after the earlier ones: for a '#' line the serverMessage of its text up to the first NUL or, for a logresp line, of that text cut at its comma; otherwise the packet signal of the decoded frame |
| Connection.DispatchInOrder | networkconnection.cpp:167-178 | the lines of a buffer emit one signal each, in order, after the earlier signals, each the serverMessage text (up to the first NUL, cut at the comma for a logresp line) or decoded packet of its line |
| Connection.AfterLinesAppend | networkconnection.cpp:167-178 | processing the lines of a + b is processing those of a and then those of b |
| Connection.LineEndPrefersNewline | networkconnection.cpp:170-172 | a line ends at the first '\n' if any remains, only then at the first '\r', and there is no end iff neither remains |
| Connection.Reassemble | networkconnection.cpp:167-179 | there is one terminator per line, and the buffer is its lines, each with its terminator, followed by the kept remainder |
| Connection.RestHasNoTerminator | networkconnection.cpp:179 | the kept remainder holds no '\n' or '\r', and every terminator is one of them |
| Connection.CarriageReturnInsideLine | networkconnection.cpp:170-172 | "A\rB\n" is the single line "A\rB" |
| Connection.CrLfLines | networkconnection.cpp:170-176 | "X\r\nY\r\n" is the lines "X\r" and "Y\r", with nothing kept |
| Connection.ReadBoundaryMatters | networkconnection.cpp:167-179 | a read of "A\rB" dispatches "A" and keeps "B", and the following "\n" then dispatches "B", unlike one read of "A\rB\n" |
| Connection.LogRespStopsAtNul | networkconnection.cpp:51-80 | in LogonSent, "# logresp CALL\0 verified" keeps LogonSent and emits "# logresp CALL": the NUL hides the verdict word |
| Connection.AfterClose | networkconnection.cpp:142-159 | closing restarts the clock and emits connectionClosed; the status becomes Reconnect iff it was LogonVerified, Active or Reconnect, else Terminated |
| Connection.AfterTick | networkconnection.cpp:187-201 | in Reconnect, more than 1000 ms idle asks to connect to the stored server and port; in Active, more than 5000 ms idle writes "# ping" and restarts the clock; otherwise nothing changes |
| Connection.ReconnectRetriesEveryTick | networkconnection.cpp:187-195 | since a connect request does not restart the clock, every tick past the delay asks to connect again |
| Connection.PingSpacing | networkconnection.cpp:196-200 | after a ping, no tick within the next 5000 ms changes anything |
| Connection.NetworkConnection.constructor | networkconnection.cpp:24-36 | the callsign is "NOSIGN", the passcode -1, the buffer empty and no effects |
| Connection.NetworkConnection.SetCallsign | networkconnection.cpp:38-42 | stores the callsign and the passcode, which defaults to -1 |
| Connection.NetworkConnection.SendLogon | networkconnection.cpp:97-111 | writes the logon command and nothing else |
| Connection.NetworkConnection.ProcessLine | networkconnection.cpp:46-95 | the new session is AfterLine of the old one, whose effects LineStep and ServerLineStep state |
| Connection.NetworkConnection.ConnectToServer | networkconnection.cpp:123-128 | stores the address and port and requests the connection |
| Connection.NetworkConnection.Disconnect | networkconnection.cpp:130-134 | the status becomes Close and the socket is closed, and the class invariant holds |
| Connection.NetworkConnection.OnConnected | networkconnection.cpp:136-140 | the status becomes WaitBanner, and the class invariant holds |
| Connection.NetworkConnection.OnClosed | networkconnection.cpp:142-159 | the new session is AfterClose of the old one |
| Connection.NetworkConnection.OnReadyRead | networkconnection.cpp:161-180 | every complete line of buffer + incoming is processed in order, and the buffer keeps exactly the unterminated remainder |
| Connection.NetworkConnection.DispatchNext | networkconnection.cpp:167-178 | one turn of the read loop: with no terminator left the session and lines are untouched; otherwise the next line ends at its terminator and the session takes exactly that line's step |
| Connection.NetworkConnection.OnCheckTimer | networkconnection.cpp:187-201 | the new session is AfterTick of the old one, and server and port are unchanged |

## Findings

| source | as written | input that shows it | evidently intended | confidence | as-written member | corrected member |
|---|---|---|---|---|---|---|
| aprs.cpp:148-150 | after cutting the timestamp off `payloadText`, the guard tests the byte array `payload`, which holds at least 37 bytes there and is never empty, and then reads `payloadText.at(0)` | a ';' object payload of 37 bytes or more whose bytes 11-17 are a NUL-free timestamp and whose byte 18 is NUL: the text after the marker is only the timestamp, so `payloadText` is empty when `at(0)` reads it | test `payloadText.isEmpty()`, so that an empty rest gives the report with no position and an empty comment | high, not executed | Aprs.NulAfterTimestamp (with the predicate Aprs.ReadsPastEndAsWritten) | Aprs.ReportTail |

## Left out

- `operator<<` for frames, `qDebug` and `std::cout` output, `setDebug` and `isDebugOn`: these are diagnostics only and change no state the model keeps.
- Floating point: coordinates are exact integers in units of 1/3600 degree rather than doubles in degrees, and `alt` is never written by the source, so it is left out.
- Aprs.DecodeTime: calendar validity of `QDate`/`QTime` is not modelled, and `DateTime` holds the raw fields. In Qt 5 a valid date with an invalid time becomes midnight of that date, so a time of day such as "256000h" decodes to 00:00 on the current date, while the model keeps hour 25 and minute 60. An invalid date (month 13 in the eight-digit form, say) gives an invalid `QDateTime`, while the model still gives a `Some`. The round-trip lemmas are stated for valid dates and times only.
- The QRegExp engine: each pattern is written out as a predicate over character classes (`\d` as ASCII digits, `\s` as Qt's whitespace, `\w` exactly on Latin-1).
- Unicode case mapping and non-ASCII digits: `toUpper`, `toLower` and `isDigit` are modelled on ASCII only.
- `QString::arg` place-marker substitution inside the callsign: a callsign containing `%1` or `%2` would be substituted again by the second `arg`, which the model does not do.
- Socket I/O: `readAll`, the `atEnd` loop, the byte transport, `onSocketError` and the signal/slot wiring. Incoming bytes are a parameter, and requests to the socket are entries of the ghost log.
- The one-second `QTimer`: ticks are calls of `OnCheckTimer` with the time as a parameter.
- The `QCoreApplication` lookup of the application name and version: these are constructor parameters.
- `MAX_IDLE_TIME`, `connReset` and `rxLogRespSplit` are declared but never used by the source.
- `ObjectReport.symbol` is never written by the source, so it is not a field of the model.
- The unassigned `mStatus` and `mPort` before the first `onConnected` and `connectToServer`: the model starts them at `WaitBanner` and 0.
