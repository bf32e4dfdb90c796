/**
 * The APRS wire-format decoder of aprs.cpp: the APRS-IS passcode, the
 * `SRC>DEST,VIA...:payload` frame split, the packet type, timestamps,
 * uncompressed positions with position ambiguity, and object reports.
 *
 * Latitudes and longitudes are exact integers in units of 1/3600 degree,
 * computed with the weights the source uses. The current UTC date, which
 * the source reads from the clock, is the parameter `cd`.
 */
module Aprs {
  import opened Wrappers
  import opened QtStrings

  // =====================================================================
  // Passcode (calcPasscode)

  const PasscodeSeed: bv16 := 0x73E2

  /** calcPasscode's normalisation: cut at a '-' found after the first character, upper-case, keep 10 characters. */
  function NormalizeCallsign(callsign: string): (r: string)
    ensures |r| <= 10 && |r| <= |callsign|
    ensures forall i :: 0 <= i < |r| ==> r[i] == UpperChar(callsign[i])
    ensures IndexOf(callsign, '-', 0) > 0 ==> |r| == Min(10, IndexOf(callsign, '-', 0)) && '-' !in r
    ensures IndexOf(callsign, '-', 0) <= 0 ==> |r| == Min(10, |callsign|)
  {
    var dash := IndexOf(callsign, '-', 0);
    var base := if dash > 0 then callsign[..dash] else callsign;
    Left(ToUpper(base), 10)
  }

  function ByteBits(b: Byte): bv16 {
    (b as int) as bv16
  }

  /** The bytes of a Latin-1 string as 16-bit values (the `char` to `ushort` promotion of the source). */
  function Widen(data: Bytes): (w: seq<bv16>)
    ensures |w| == |data|
  {
    if data == [] then [] else [ByteBits(data[0])] + Widen(data[1..])
  }

  /** The XOR fold over the bytes taken two at a time: the first of a pair shifted left by 8, the second unshifted. */
  function FoldPairs(hash: bv16, data: seq<bv16>): bv16
    decreases |data|
  {
    if data == [] then hash
    else if |data| == 1 then hash ^ (data[0] << 8)
    else FoldPairs(hash ^ (data[0] << 8) ^ data[1], data[2..])
  }

  /** The APRS-IS passcode of a callsign: a 15-bit value. */
  function Passcode(callsign: string): (code: int)
    ensures 0 <= code <= 0x7FFF
  {
    (FoldPairs(PasscodeSeed, Widen(ToLatin1(NormalizeCallsign(callsign)))) & 0x7FFF) as int
  }

  lemma FoldPairsStep(hash: bv16, data: seq<bv16>, i: nat)
    requires i < |data|
    ensures i + 1 == |data| ==> FoldPairs(hash, data[i..]) == hash ^ (data[i] << 8)
    ensures i + 1 < |data| ==> FoldPairs(hash, data[i..]) == FoldPairs(hash ^ (data[i] << 8) ^ data[i + 1], data[i + 2..])
  {
    var rest := data[i..];
    assert rest[0] == data[i];
    if i + 1 < |data| {
      assert rest[1] == data[i + 1] && rest[2..] == data[i + 2..];
    }
  }

  /** calcPasscode's hashing loop over the bytes of the normalised callsign. */
  method HashPairs(data: seq<bv16>) returns (hash: bv16)
    ensures hash == FoldPairs(PasscodeSeed, data)
  {
    hash := PasscodeSeed;
    var i := 0;
    while i < |data|
      invariant 0 <= i <= |data| + 1
      invariant i <= |data| ==> FoldPairs(hash, data[i..]) == FoldPairs(PasscodeSeed, data)
      invariant i > |data| ==> hash == FoldPairs(PasscodeSeed, data)
      decreases |data| + 1 - i
    {
      FoldPairsStep(hash, data, i);
      hash := hash ^ (data[i] << 8);
      if i + 1 < |data| {
        hash := hash ^ data[i + 1];
      }
      i := i + 2;
    }
    assert data[|data|..] == [];
  }

  /** calcPasscode: normalise the callsign, hash its bytes, keep 15 bits. */
  method CalcPasscode(callsign: string) returns (code: int)
    ensures code == Passcode(callsign)
  {
    var call := callsign;
    var dashPos := IndexOf(call, '-', 0);
    if dashPos > 0 {
      call := call[..dashPos];
    }
    call := Left(ToUpper(call), 10);
    assert call == NormalizeCallsign(callsign);
    var hash := HashPairs(Widen(ToLatin1(call)));
    code := (hash & 0x7FFF) as int;
  }

  lemma {:induction false} IndexOfAgrees(a: string, b: string, c: char, from: nat)
    requires |a| == |b|
    requires forall i :: 0 <= i < |a| ==> (a[i] == c <==> b[i] == c)
    ensures IndexOf(a, c, from) == IndexOf(b, c, from)
    decreases |a| - from
  {
    if from < |a| {
      IndexOfAgrees(a, b, c, from + 1);
    }
  }

  lemma ToUpperAgrees(a: string, b: string)
    requires |a| == |b|
    requires forall i :: 0 <= i < |a| ==> UpperChar(a[i]) == UpperChar(b[i])
    ensures ToUpper(a) == ToUpper(b)
  {
    assert forall i :: 0 <= i < |a| ==> ToUpper(a)[i] == ToUpper(b)[i];
  }

  lemma NormalizeIgnoresCase(a: string, b: string)
    requires |a| == |b|
    requires forall i :: 0 <= i < |a| ==> UpperChar(a[i]) == UpperChar(b[i])
    ensures NormalizeCallsign(a) == NormalizeCallsign(b)
  {
    forall i | 0 <= i < |a| ensures a[i] == '-' <==> b[i] == '-' {
      assert UpperChar(a[i]) == UpperChar(b[i]);
    }
    IndexOfAgrees(a, b, '-', 0);
    var dash := IndexOf(a, '-', 0);
    if dash > 0 {
      ToUpperAgrees(a[..dash], b[..dash]);
    } else {
      ToUpperAgrees(a, b);
    }
  }

  /** The passcode ignores letter case. */
  lemma PasscodeIgnoresCase(a: string, b: string)
    requires |a| == |b|
    requires forall i :: 0 <= i < |a| ==> UpperChar(a[i]) == UpperChar(b[i])
    ensures Passcode(a) == Passcode(b)
  {
    NormalizeIgnoresCase(a, b);
  }

  /** In particular a callsign and its upper-case form share a passcode. */
  lemma PasscodeOfUpperCase(s: string)
    ensures Passcode(ToUpper(s)) == Passcode(s)
  {
    forall i | 0 <= i < |s| ensures UpperChar(ToUpper(s)[i]) == UpperChar(s[i]) {
    }
    PasscodeIgnoresCase(ToUpper(s), s);
  }

  /** A "-SSID" suffix after a non-empty base callsign is ignored. */
  lemma PasscodeIgnoresSsid(base: string, ssid: string)
    requires |base| >= 1 && '-' !in base
    ensures Passcode(base + "-" + ssid) == Passcode(base)
  {
    var s := base + "-" + ssid;
    assert s[|base|] == '-';
    assert forall j :: 0 <= j < |base| ==> s[j] == base[j];
    assert IndexOf(s, '-', 0) == |base|;
    assert s[..|base|] == base;
    assert IndexOf(base, '-', 0) == -1;
  }

  /** A '-' in the first position is not treated as an SSID separator. */
  lemma PasscodeKeepsLeadingDash(s: string)
    requires |s| >= 1 && s[0] == '-'
    ensures NormalizeCallsign(s) == Left(ToUpper(s), 10)
  {
    assert IndexOf(s, '-', 0) == 0;
  }

  lemma ToUpperPrefix(x: string, n: nat)
    requires n <= |x|
    ensures ToUpper(x)[..n] == ToUpper(x[..n])
  {
    assert forall j :: 0 <= j < n ==> ToUpper(x)[..n][j] == ToUpper(x[..n])[j];
  }

  lemma NormalizeUsesTenCharacters(s: string)
    requires |s| >= 10
    ensures NormalizeCallsign(s) == NormalizeCallsign(s[..10])
  {
    var t := s[..10];
    var k := IndexOf(s, '-', 0);
    assert forall j :: 0 <= j < 10 ==> t[j] == s[j];
    if 0 < k < 10 {
      IndexOfIs(t, '-', 0, k);
      assert t[..k] == s[..k];
    } else {
      var base := if k > 0 then s[..k] else s;
      if k == 0 {
        IndexOfIs(t, '-', 0, 0);
      } else {
        IndexOfNone(t, '-', 0);
      }
      assert NormalizeCallsign(t) == ToUpper(t);
      assert NormalizeCallsign(s) == ToUpper(base)[..10];
      assert base[..10] == t;
      ToUpperPrefix(base, 10);
    }
  }

  /** Only the first ten characters take part in the passcode. */
  lemma PasscodeUsesTenCharacters(s: string)
    requires |s| >= 10
    ensures Passcode(s) == Passcode(s[..10])
  {
    NormalizeUsesTenCharacters(s);
  }

  lemma NormalizeExample()
    ensures NormalizeCallsign("N0CALL") == "N0CALL"
  {
    var c := "N0CALL";
    assert IndexOf(c, '-', 0) == -1;
    assert forall i :: 0 <= i < |c| ==> UpperChar(c[i]) == c[i];
    assert ToUpper(c) == c;
  }

  lemma {:induction false} WidenAt(data: Bytes)
    ensures forall i :: 0 <= i < |data| ==> Widen(data)[i] == ByteBits(data[i])
  {
    if data != [] {
      WidenAt(data[1..]);
    }
  }

  lemma ExampleBits()
    ensures ByteBits('N') == 0x4E && ByteBits('0') == 0x30 && ByteBits('C') == 0x43
    ensures ByteBits('A') == 0x41 && ByteBits('L') == 0x4C
  {
    assert 'N' as int == 0x4E && '0' as int == 0x30 && 'C' as int == 0x43;
    assert 'A' as int == 0x41 && 'L' as int == 0x4C;
  }

  lemma WidenExample()
    ensures Widen("N0CALL") == [0x4E, 0x30, 0x43, 0x41, 0x4C, 0x4C]
  {
    var c: Bytes := "N0CALL";
    WidenAt(c);
    ExampleBits();
    assert c[0] == 'N' && c[1] == '0' && c[2] == 'C' && c[3] == 'A' && c[4] == 'L' && c[5] == 'L';
  }

  /** The empty callsign gives the seed, and "N0CALL" gives the well-known 13023. */
  lemma PasscodeExamples()
    ensures Passcode("") == 29666
    ensures Passcode("N0CALL") == 13023
  {
    assert NormalizeCallsign("") == "";
    assert Widen(ToLatin1("")) == [];
    NormalizeExample();
    assert ToLatin1("N0CALL") == "N0CALL";
    WidenExample();
  }

  // =====================================================================
  // Frames (decodeFrame)

  /** A decoded packet line; destination and via are the comma-separated path. */
  datatype Frame = Frame(isValid: bool, source: string, destination: string, via: seq<string>, payload: Bytes)

  const EmptyFrame := Frame(false, "", "", [], [])

  /** A '>' occurs somewhere before a ':'. */
  predicate HasHeader(s: seq<char>) {
    exists i, j :: 0 <= i < j < |s| && s[i] == '>' && s[j] == ':'
  }

  /**
   * decodeFrame. The source goes through the QByteArray overload of
   * fromLatin1, so it stops at a NUL byte; the path is converted with an
   * explicit size and keeps every byte.
   */
  function DecodeFrame(input: Bytes): (f: Frame)
    ensures !f.isValid ==> f.destination == [] && f.via == [] && f.payload == []
    ensures f.source <= input && '>' !in f.source && '\0' !in f.source
  {
    var endSource := IndexOf(input, '>', 0);
    if StartsWith(input, '#') || endSource < 0 then EmptyFrame
    else
      var source := FromLatin1(input[..endSource]);
      var payloadOffset := IndexOf(input, ':', endSource + 1);
      if payloadOffset < 0 then EmptyFrame.(source := source)
      else
        var hops := Split(input[endSource + 1..payloadOffset], ',');
        Frame(true, source, hops[0], hops[1..], input[payloadOffset + 1..])
  }

  /**
   * A frame is valid exactly when the line is not a comment and has a '>'
   * before a ':'; otherwise it carries at most the source; the source is
   * the text before the first '>', cut short at a NUL byte.
   */
  lemma DecodeFrameShape(input: Bytes)
    ensures var f := DecodeFrame(input);
            (f.isValid <==> !StartsWith(input, '#') && HasHeader(input))
            && (StartsWith(input, '#') || '>' !in input ==> f == EmptyFrame)
            && (!f.isValid ==> f.destination == [] && f.via == [] && f.payload == [])
            && (!StartsWith(input, '#') && '>' in input ==>
                  |f.source| < |input| && f.source == input[..|f.source|]
                  && (input[|f.source|] == '>' || input[|f.source|] == '\0')
                  && '>' !in f.source && '\0' !in f.source)
  {
  }

  /** "A\0B>C:x": the source stops at the NUL, while the frame stays valid. */
  lemma SourceStopsAtNul()
    ensures DecodeFrame("A\0B>C:x") == Frame(true, "A", "C", [], "x")
  {
    var input: Bytes := "A\0B>C:x";
    assert IndexOf(input, '>', 0) == 3;
    assert IndexOf(input, ':', 4) == 5;
    FromLatin1Cut(input[..3], 1);
    assert input[4..5] == "C";
    SplitJoin(["C"], ',');
  }

  /** The header path as it stands on the wire: destination and via joined with ','. */
  function Path(f: Frame): string {
    Join([f.destination] + f.via, ',')
  }

  /** The text form of a frame. */
  function EncodeFrame(f: Frame): string {
    f.source + ">" + Path(f) + ":" + f.payload
  }

  /**
   * A valid frame is its input cut at the first '>' and at the first ':'
   * after it; the text before the '>' is lost only from a NUL byte on.
   */
  lemma DecodeFrameRoundTrip(input: Bytes)
    requires DecodeFrame(input).isValid
    ensures var f := DecodeFrame(input); var k := IndexOf(input, '>', 0);
            0 <= k && EncodeFrame(f) == f.source + input[k..]
            && ('\0' !in input[..k] ==> EncodeFrame(f) == input)
    ensures '>' !in DecodeFrame(input).source && ':' !in Path(DecodeFrame(input))
  {
    var f := DecodeFrame(input);
    var k := IndexOf(input, '>', 0);
    FrameAfterSource(input);
    FromLatin1Cut(input[..k], 0);
    if '\0' !in input[..k] {
      CutAround(input, 0, k);
      assert input == input[0..] == input[..k] + [input[k]] + input[k + 1..];
      assert input[k..] == [input[k]] + input[k + 1..];
      Associate(input[..k], [input[k]], input[k + 1..]);
    }
  }

  /** From the first '>' on, the text of a valid frame is exactly its input. */
  lemma FrameAfterSource(input: Bytes)
    requires DecodeFrame(input).isValid
    ensures var f := DecodeFrame(input); var k := IndexOf(input, '>', 0);
            0 <= k && EncodeFrame(f) == f.source + input[k..] && ':' !in Path(f)
  {
    var f := DecodeFrame(input);
    var k := IndexOf(input, '>', 0);
    var p := IndexOf(input, ':', k + 1);
    FrameCuts(input);
    Reglue(input, k, p, f.source, f.payload);
  }

  /** Where a valid frame's path and payload stand in its input. */
  lemma FrameCuts(input: Bytes)
    requires DecodeFrame(input).isValid
    ensures var f := DecodeFrame(input); var k := IndexOf(input, '>', 0); var p := IndexOf(input, ':', k + 1);
            0 <= k < p && input[k] == '>' && input[p] == ':'
            && Path(f) == input[k + 1..p] && f.payload == input[p + 1..] && ':' !in Path(f)
  {
    var f := DecodeFrame(input);
    var k := IndexOf(input, '>', 0);
    var p := IndexOf(input, ':', k + 1);
    var dest := input[k + 1..p];
    var hops := Split(dest, ',');
    JoinSplit(dest, ',');
    assert [hops[0]] + hops[1..] == hops;
  }

  /** Text cut at a '>' and a later ':' is the three pieces glued back with those characters. */
  lemma Reglue(input: Bytes, k: nat, p: nat, source: string, payload: Bytes)
    requires k < p < |input| && input[k] == '>' && input[p] == ':' && payload == input[p + 1..]
    ensures source + ">" + input[k + 1..p] + ":" + payload == source + input[k..]
  {
    var path := input[k + 1..p];
    assert [input[k]] == ">" && [input[p]] == ":";
    CutAround(input, k + 1, p);
    assert input[k..] == ">" + input[k + 1..];
    assert input[k + 1..] == path + ":" + payload;
    Associate(source + ">", path + ":", payload);
    Associate(source + ">", path, ":");
    Associate(source, ">", input[k + 1..]);
  }

  lemma {:induction false} JoinAvoids(parts: seq<string>, sep: char, c: char)
    requires |parts| >= 1 && c != sep
    requires forall i :: 0 <= i < |parts| ==> c !in parts[i]
    ensures c !in Join(parts, sep)
  {
    if |parts| > 1 {
      JoinAvoids(parts[1..], sep, c);
    }
  }

  /** A header a decoder can cut unambiguously. */
  predicate WellFormedHeader(f: Frame) {
    '>' !in f.source && '\0' !in f.source && !StartsWith(f.source, '#')
    && ',' !in f.destination && ':' !in f.destination
    && forall i :: 0 <= i < |f.via| ==> ',' !in f.via[i] && ':' !in f.via[i]
  }

  lemma PathAvoidsColon(f: Frame)
    requires WellFormedHeader(f)
    ensures ':' !in Path(f)
  {
    var hops := [f.destination] + f.via;
    forall i | 0 <= i < |hops| ensures ':' !in hops[i] {
      if i > 0 { assert hops[i] == f.via[i - 1]; }
    }
    JoinAvoids(hops, ',', ':');
  }

  /** Where a decoder finds the '>' and the ':' in the text of a frame. */
  lemma EncodedCuts(f: Frame, wire: Bytes)
    requires '>' !in f.source && ':' !in Path(f) && wire == EncodeFrame(f)
    ensures IndexOf(wire, '>', 0) == |f.source|
    ensures IndexOf(wire, ':', |f.source| + 1) == |f.source| + 1 + |Path(f)|
  {
    var path := Path(f);
    assert wire == [] + f.source + ['>'] + (path + ":" + f.payload);
    IndexOfAfter([], f.source, '>', path + ":" + f.payload);
    assert wire == (f.source + ">") + path + [':'] + f.payload;
    IndexOfAfter(f.source + ">", path, ':', f.payload);
  }

  lemma EncodedParts(f: Frame, wire: Bytes)
    requires wire == EncodeFrame(f)
    ensures var n := |f.source|; var m := n + 1 + |Path(f)|;
            m < |wire| && wire[..n] == f.source && wire[n + 1..m] == Path(f) && wire[m + 1..] == f.payload
  {
  }

  /** Decoding the text of a well-formed frame gives that frame back, marked valid. */
  lemma EncodeDecodeFrame(f: Frame, wire: Bytes)
    requires WellFormedHeader(f) && wire == EncodeFrame(f)
    ensures DecodeFrame(wire) == f.(isValid := true)
  {
    var hops := [f.destination] + f.via;
    assert forall i :: 0 <= i < |hops| ==> ',' !in hops[i] by {
      forall i | 0 <= i < |hops| ensures ',' !in hops[i] {
        if i > 0 { assert hops[i] == f.via[i - 1]; }
      }
    }
    SplitJoin(hops, ',');
    PathAvoidsColon(f);
    EncodedCuts(f, wire);
    EncodedParts(f, wire);
    assert !StartsWith(wire, '#') by {
      if |f.source| == 0 { assert wire[0] == '>'; } else { assert wire[0] == f.source[0]; }
    }
    var n := |f.source|;
    var m := n + 1 + |Path(f)|;
    var split := Split(wire[n + 1..m], ',');
    assert split == hops;
    assert split[0] == f.destination && split[1..] == f.via;
    FromLatin1Cut(wire[..n], 0);
    assert DecodeFrame(wire) == Frame(true, FromLatin1(wire[..n]), split[0], split[1..], wire[m + 1..]);
  }

  // =====================================================================
  // Packet type (getType)

  /** getType: the first payload byte, 0 for an empty payload. */
  function GetType(f: Frame): (t: nat)
    ensures t < 256
    ensures t == 0 <==> f.payload == [] || f.payload[0] == '\0'
    ensures t != 0 ==> f.payload[0] as int == t
  {
    if |f.payload| == 0 then 0 else f.payload[0] as int
  }

  // =====================================================================
  // Timestamps (decodeTime)

  datatype Date = Date(year: int, month: int, day: int)

  /** The fields of a QDateTime; calendar validity is not checked by the model. */
  datatype DateTime = DateTime(date: Date, hour: int, minute: int, second: int)

  function TwoDigitValue(s: string, i: nat): nat
    requires i + 2 <= |s| && IsDigit(s[i]) && IsDigit(s[i + 1])
  {
    10 * DigitValue(s[i]) + DigitValue(s[i + 1])
  }

  /** Six digits and a 'h' or 'z' marker: the form that yields a time of day. */
  predicate IsTimeOfDay(time: string) {
    |time| == 7 && AllDigits(time[..6]) && (time[6] == 'h' || time[6] == 'z')
  }

  /** Eight digits: month, day, hour, minute. */
  predicate IsMonthDayTime(time: string) {
    |time| == 8 && AllDigits(time)
  }

  /**
   * decodeTime. The 'z' and '/' cases fall through into the 'h' case, so a
   * 'z' marker is read as hour, minute, second on the current date; '/' is
   * not a QRegExp word character and never reaches the switch.
   */
  function DecodeTime(time: string, cd: Date): (ts: Option<DateTime>)
    ensures ts.Some? <==> IsTimeOfDay(time) || IsMonthDayTime(time)
    ensures IsTimeOfDay(time) ==>
              ts == Some(DateTime(cd, TwoDigitValue(time, 0), TwoDigitValue(time, 2), TwoDigitValue(time, 4)))
    ensures IsMonthDayTime(time) ==>
              ts == Some(DateTime(Date(cd.year, TwoDigitValue(time, 0), TwoDigitValue(time, 2)),
                                  TwoDigitValue(time, 4), TwoDigitValue(time, 6), 0))
  {
    if |time| == 7 && AllDigits(time[..6]) && IsWordChar(time[6]) then
      var p1, p2, p3 := NumberAt(time, 0, 2), NumberAt(time, 2, 4), NumberAt(time, 4, 6);
      match time[6]
      // 'z' and '/' assign the day-hour-minute reading, then fall into 'h', whose assignment stands
      case 'z' => Some(DateTime(cd, p1, p2, p3))
      case '/' => Some(DateTime(cd, p1, p2, p3))
      case 'h' => Some(DateTime(cd, p1, p2, p3))
      case _ => None
    else if |time| == 8 && AllDigits(time) then
      Some(DateTime(Date(cd.year, NumberAt(time, 0, 2), NumberAt(time, 2, 4)),
                    NumberAt(time, 4, 6), NumberAt(time, 6, 8), 0))
    else
      None
  }

  /** Two decimal digits of n < 100. */
  function Pad2(n: nat): (r: string)
    requires n < 100
    ensures |r| == 2 && IsDigit(r[0]) && IsDigit(r[1]) && TwoDigitValue(r, 0) == n
  {
    [DigitChar(n / 10), DigitChar(n % 10)]
  }

  /** A 'z' marker is read exactly as an 'h' marker. */
  lemma ZuluReadsAsTimeOfDay(digits: string, cd: Date)
    requires |digits| == 6 && AllDigits(digits)
    ensures DecodeTime(digits + "z", cd) == DecodeTime(digits + "h", cd)
    ensures DecodeTime(digits + "z", cd).Some?
  {
    assert (digits + "z")[..6] == digits && (digits + "h")[..6] == digits;
  }

  /** A '/' marker never yields a timestamp. */
  lemma SlashGivesNoTime(time: string, cd: Date)
    requires |time| == 7 && time[6] == '/'
    ensures DecodeTime(time, cd) == None
  {
  }

  /**
   * Valid times of day written as six digits and 'h' are read back as
   * written; in this range the fields are those of a valid QTime.
   */
  lemma TimeOfDayRoundTrip(hour: nat, minute: nat, second: nat, cd: Date)
    requires hour < 24 && minute < 60 && second < 60
    ensures DecodeTime(Pad2(hour) + Pad2(minute) + Pad2(second) + "h", cd)
            == Some(DateTime(cd, hour, minute, second))
  {
    var t := Pad2(hour) + Pad2(minute) + Pad2(second) + "h";
    assert t[0..2] == Pad2(hour) && t[2..4] == Pad2(minute) && t[4..6] == Pad2(second);
    assert TwoDigitValue(t, 0) == TwoDigitValue(Pad2(hour), 0);
    assert TwoDigitValue(t, 2) == TwoDigitValue(Pad2(minute), 0);
    assert TwoDigitValue(t, 4) == TwoDigitValue(Pad2(second), 0);
    assert IsTimeOfDay(t);
  }

  /**
   * Eight-digit timestamps are read back as month, day, hour, minute of the
   * current year; in this range every year has the date and the time is a
   * valid QTime.
   */
  lemma MonthDayTimeRoundTrip(month: nat, day: nat, hour: nat, minute: nat, cd: Date)
    requires 1 <= month <= 12 && 1 <= day <= 28 && hour < 24 && minute < 60
    ensures DecodeTime(Pad2(month) + Pad2(day) + Pad2(hour) + Pad2(minute), cd)
            == Some(DateTime(Date(cd.year, month, day), hour, minute, 0))
  {
    var t := Pad2(month) + Pad2(day) + Pad2(hour) + Pad2(minute);
    assert t[0..2] == Pad2(month) && t[2..4] == Pad2(day);
    assert t[4..6] == Pad2(hour) && t[6..8] == Pad2(minute);
    assert TwoDigitValue(t, 0) == TwoDigitValue(Pad2(month), 0);
    assert TwoDigitValue(t, 2) == TwoDigitValue(Pad2(day), 0);
    assert TwoDigitValue(t, 4) == TwoDigitValue(Pad2(hour), 0);
    assert TwoDigitValue(t, 6) == TwoDigitValue(Pad2(minute), 0);
    assert IsMonthDayTime(t);
  }

  // =====================================================================
  // Positions (decodeLocator)

  datatype LocatorType = LocatorInvalid | LocatorNull | LocatorGps | LocatorGpsCompressed | LocatorMaidenHead4

  /** lat and lon in units of 1/3600 degree; symbol packs the table and code bytes. */
  datatype Locator = Locator(lat: int, lon: int, kind: LocatorType, accuracy: int, symbol: nat)

  /** What every rejected input yields (see README for the unassigned fields). */
  const InvalidLocator := Locator(0, 0, LocatorInvalid, -1, 0)

  /** The value-initialised Locator of a default ObjectReport. */
  const NullLocator := Locator(0, 0, LocatorNull, 0, 0)

  predicate IsDigitOrSpace(c: char) {
    IsDigit(c) || IsSpace(c)
  }

  /** validLat: \d{2}[\d\s]{2}\.[\d\s]{2}[NS], matched case-insensitively. */
  predicate IsLatField(s: string) {
    |s| == 8 && IsDigit(s[0]) && IsDigit(s[1]) && IsDigitOrSpace(s[2]) && IsDigitOrSpace(s[3])
    && s[4] == '.' && IsDigitOrSpace(s[5]) && IsDigitOrSpace(s[6])
    && (s[7] == 'N' || s[7] == 'S' || s[7] == 'n' || s[7] == 's')
  }

  /** validLon: \d{3}[\d\s]{2}\.[\d\s]{2}[EW], matched case-insensitively. */
  predicate IsLonField(s: string) {
    |s| == 9 && IsDigit(s[0]) && IsDigit(s[1]) && IsDigit(s[2]) && IsDigitOrSpace(s[3])
    && IsDigitOrSpace(s[4]) && s[5] == '.' && IsDigitOrSpace(s[6]) && IsDigitOrSpace(s[7])
    && (s[8] == 'E' || s[8] == 'W' || s[8] == 'e' || s[8] == 'w')
  }

  /** The uncompressed position layout: latitude, table byte, longitude, code byte. */
  predicate IsUncompressed(loc: string) {
    |loc| >= 19 && IsLatField(loc[..8]) && IsLonField(loc[9..18])
  }

  /** QString::toDouble of one position character: its digit, 0 for a whitespace placeholder. */
  function PlaceValue(c: char): nat {
    if IsDigit(c) then DigitValue(c) else 0
  }

  /**
   * The magnitude of a coordinate field whose degrees take `deg` digits: two
   * minute digits weighted 600 and 60, two digits after the point weighted
   * 10 and 1, that is as seconds rather than hundredths of a minute.
   */
  function Magnitude(field: string, deg: nat): nat
    requires deg + 5 <= |field|
    requires forall k :: 0 <= k < deg ==> IsDigit(field[k])
  {
    NumberAt(field, 0, deg) * 3600 + PlaceValue(field[deg]) * 600 + PlaceValue(field[deg + 1]) * 60
    + PlaceValue(field[deg + 3]) * 10 + PlaceValue(field[deg + 4])
  }

  /** The number of digits among s[lo..hi]. */
  function DigitCount(s: string, lo: nat, hi: nat): (n: nat)
    requires lo <= hi <= |s|
    ensures n <= hi - lo
    decreases hi - lo
  {
    if hi == lo then 0 else DigitCount(s, lo, hi - 1) + (if IsDigit(s[hi - 1]) then 1 else 0)
  }

  function Min(a: int, b: int): int {
    if a < b then a else b
  }

  /** The signed latitude of a matching latitude field: negative only for an upper-case 'S'. */
  function SignedLatitude(latData: string): int
    requires IsLatField(latData)
  {
    var lat: int := Magnitude(latData, 2);
    if latData[7] == 'S' then -lat else lat
  }

  /**
   * decodeLocator, as a value. A latitude that matches is stored before the
   * longitude is checked, so an input rejected for its longitude keeps it.
   */
  function LocatorOf(loc: string): (l: Locator)
    ensures l.kind == LocatorGps <==> IsUncompressed(loc)
    ensures l.kind != LocatorGps ==> l.(lat := 0) == InvalidLocator
    ensures l.kind != LocatorGps ==>
              l.lat == if |loc| >= 19 && IsLatField(loc[..8]) then SignedLatitude(loc[..8]) else 0
    ensures l.kind == LocatorGps ==> l.symbol == CharCode(loc[8]) * 256 + CharCode(loc[18])
    ensures l.kind == LocatorGps ==> (l.lat < 0 ==> loc[7] == 'S') && (l.lon < 0 ==> loc[17] == 'W')
  {
    if |loc| == 0 then InvalidLocator
    else if |loc| >= 19 && IsDigit(loc[0]) then
      var latData := loc[..8];
      var lonData := loc[9..18];
      if !IsLatField(latData) then InvalidLocator
      else if !IsLonField(lonData) then InvalidLocator.(lat := SignedLatitude(latData))
      else
        var lon: int := Magnitude(lonData, 3);
        Locator(SignedLatitude(latData),
                if lonData[8] == 'W' then -lon else lon,
                LocatorGps,
                Min(3 + DigitCount(lonData, 3, 8), 3 + DigitCount(latData, 2, 7)),
                CharCode(loc[8]) * 256 + CharCode(loc[18]))
    else
      // the source falls off the end of the function here
      assert |loc| >= 19 ==> loc[..8][0] == loc[0];
      InvalidLocator
  }

  /** decodeLocator, with the source's accuracy-counting loops. */
  method DecodeLocator(loc: string) returns (locator: Locator)
    ensures locator == LocatorOf(loc)
  {
    locator := InvalidLocator;
    if |loc| == 0 {
      return;
    }
    var lonAccuracy := 3;
    var latAccuracy := 3;
    if |loc| >= 19 && IsDigit(loc[0]) {
      var latData := loc[..8];
      if IsLatField(latData) {
        var lat: int := Magnitude(latData, 2);
        if latData[7] == 'S' {
          lat := -lat;
        }
        locator := locator.(lat := lat);
        for i := 2 to 7
          invariant latAccuracy == 3 + DigitCount(latData, 2, i)
        {
          if IsDigit(latData[i]) {
            latAccuracy := latAccuracy + 1;
          }
        }
      } else {
        return;
      }
      var lonData := loc[9..18];
      if IsLonField(lonData) {
        var lon: int := Magnitude(lonData, 3);
        if lonData[8] == 'W' {
          lon := -lon;
        }
        locator := locator.(lon := lon);
        for i := 3 to 8
          invariant lonAccuracy == 3 + DigitCount(lonData, 3, i)
        {
          if IsDigit(lonData[i]) {
            lonAccuracy := lonAccuracy + 1;
          }
        }
      } else {
        return;
      }
      locator := locator.(accuracy := Min(lonAccuracy, latAccuracy), kind := LocatorGps,
                          symbol := CharCode(loc[8]) * 256 + CharCode(loc[18]));
    }
  }

  function DigitMark(c: char): nat {
    if IsDigit(c) then 1 else 0
  }

  /** The digits among the four ambiguity positions of a coordinate whose minutes start at `at`. */
  function AmbiguityDigits(s: string, at: nat): (n: nat)
    requires at + 5 <= |s|
    ensures n <= 4
  {
    DigitMark(s[at]) + DigitMark(s[at + 1]) + DigitMark(s[at + 3]) + DigitMark(s[at + 4])
  }

  /** Counting the digits of a minutes field skips its decimal point. */
  lemma DigitCountField(s: string, at: nat)
    requires at + 5 <= |s| && s[at + 2] == '.'
    ensures DigitCount(s, at, at + 5) == AmbiguityDigits(s, at)
  {
    assert DigitCount(s, at, at + 5) == DigitCount(s, at, at + 4) + DigitMark(s[at + 4]);
    assert DigitCount(s, at, at + 4) == DigitCount(s, at, at + 3) + DigitMark(s[at + 3]);
    assert DigitCount(s, at, at + 3) == DigitCount(s, at, at + 2);
    assert DigitCount(s, at, at + 2) == DigitCount(s, at, at + 1) + DigitMark(s[at + 1]);
    assert DigitCount(s, at, at + 1) == DigitMark(s[at]);
  }

  lemma AccuracyOf(loc: string)
    requires IsUncompressed(loc)
    ensures LocatorOf(loc).accuracy == Min(3 + DigitCount(loc[9..18], 3, 8), 3 + DigitCount(loc[..8], 2, 7))
  {
  }

  /**
   * The accuracy of a decoded position: 3 plus the digits among the four
   * ambiguity positions of each coordinate, the smaller of the two, so in [3, 7].
   */
  lemma LocatorAccuracy(loc: string)
    requires IsUncompressed(loc)
    ensures LocatorOf(loc).accuracy == 3 + Min(AmbiguityDigits(loc, 2), AmbiguityDigits(loc, 12))
    ensures 3 <= LocatorOf(loc).accuracy <= 7
  {
    AccuracyOf(loc);
    FieldDigits(loc);
  }

  lemma FieldDigits(loc: string)
    requires IsUncompressed(loc)
    ensures DigitCount(loc[..8], 2, 7) == AmbiguityDigits(loc, 2)
    ensures DigitCount(loc[9..18], 3, 8) == AmbiguityDigits(loc, 12)
  {
    var lat := loc[..8];
    var lon := loc[9..18];
    DigitCountField(lat, 2);
    DigitCountField(lon, 3);
    assert lat[2] == loc[2] && lat[3] == loc[3] && lat[5] == loc[5] && lat[6] == loc[6];
    assert lon[3] == loc[12] && lon[4] == loc[13] && lon[6] == loc[15] && lon[7] == loc[16];
  }

  /** The coordinates of a decoded position, digit by digit, a space counting as 0. */
  lemma LocatorCoordinates(loc: string)
    requires IsUncompressed(loc)
    ensures var l := LocatorOf(loc);
            var lat := 3600 * (10 * DigitValue(loc[0]) + DigitValue(loc[1])) + 600 * PlaceValue(loc[2])
                       + 60 * PlaceValue(loc[3]) + 10 * PlaceValue(loc[5]) + PlaceValue(loc[6]);
            var lon := 3600 * (100 * DigitValue(loc[9]) + 10 * DigitValue(loc[10]) + DigitValue(loc[11]))
                       + 600 * PlaceValue(loc[12]) + 60 * PlaceValue(loc[13])
                       + 10 * PlaceValue(loc[15]) + PlaceValue(loc[16]);
            l.lat == (if loc[7] == 'S' then -lat else lat) && l.lon == (if loc[17] == 'W' then -lon else lon)
  {
    var latData := loc[..8];
    var lonData := loc[9..18];
    assert latData[0..2][..1] == latData[0..1];
    assert lonData[0..3][..2] == lonData[0..2] && lonData[0..2][..1] == lonData[0..1];
  }

  /** A latitude that matches is kept when the longitude is then rejected. */
  lemma LatitudeKeptOnBadLongitude()
    ensures LocatorOf("4903.50N/0720x.75W>") == InvalidLocator.(lat := 176630)
  {
    var loc := "4903.50N/0720x.75W>";
    assert loc[..8] == "4903.50N" && loc[9..18] == "0720x.75W";
    assert !IsLonField(loc[9..18]);
    assert Magnitude("4903.50N", 2) == 176630;
  }

  /** The positions of a position report that may be blanked for ambiguity. */
  predicate IsAmbiguityPosition(k: nat) {
    k == 2 || k == 3 || k == 5 || k == 6 || k == 12 || k == 13 || k == 15 || k == 16
  }

  /** Blanking a digit for position ambiguity keeps the report valid and never raises its accuracy. */
  lemma AmbiguityNeverRaisesAccuracy(loc: string, k: nat)
    requires IsUncompressed(loc) && IsAmbiguityPosition(k)
    ensures IsUncompressed(loc[k := ' '])
    ensures LocatorOf(loc[k := ' ']).accuracy <= LocatorOf(loc).accuracy
  {
    var blank := loc[k := ' '];
    assert blank[..8] == if k < 8 then loc[..8][k := ' '] else loc[..8];
    assert blank[9..18] == if k > 8 then loc[9..18][k - 9 := ' '] else loc[9..18];
    assert IsUncompressed(blank);
    LocatorAccuracy(loc);
    LocatorAccuracy(blank);
    assert AmbiguityDigits(blank, 2) <= AmbiguityDigits(loc, 2);
    assert AmbiguityDigits(blank, 12) <= AmbiguityDigits(loc, 12);
  }

  /** The sign test sees only upper-case 'S': a lower-case 's' gives a positive latitude. */
  lemma LowerCaseHemisphereIsPositive(loc: string)
    requires IsUncompressed(loc) && loc[7] == 's' && loc[17] == 'w'
    ensures LocatorOf(loc).lat >= 0 && LocatorOf(loc).lon >= 0
  {
  }

  /** A fully specified position report: the fields a transmitter writes. */
  datatype Position = Position(
    latDegrees: nat, latMinutes: nat, latFraction: nat, south: bool, table: Byte,
    lonDegrees: nat, lonMinutes: nat, lonFraction: nat, west: bool, code: Byte)

  predicate ValidPosition(p: Position) {
    p.latDegrees < 100 && p.latMinutes < 100 && p.latFraction < 100
    && p.lonDegrees < 1000 && p.lonMinutes < 100 && p.lonFraction < 100
  }

  function Pad3(n: nat): (r: string)
    requires n < 1000
    ensures |r| == 3 && AllDigits(r)
    ensures 100 * DigitValue(r[0]) + 10 * DigitValue(r[1]) + DigitValue(r[2]) == n
  {
    var tens := n / 10;
    assert n == 10 * tens + n % 10 && tens == 10 * (tens / 10) + tens % 10;
    [DigitChar(tens / 10), DigitChar(tens % 10), DigitChar(n % 10)]
  }

  /** The uncompressed text of a position: 8 latitude characters, table, 9 longitude characters, code. */
  function EncodePosition(p: Position): string
    requires ValidPosition(p)
  {
    Pad2(p.latDegrees) + Pad2(p.latMinutes) + "." + Pad2(p.latFraction) + (if p.south then "S" else "N")
    + [p.table]
    + Pad3(p.lonDegrees) + Pad2(p.lonMinutes) + "." + Pad2(p.lonFraction) + (if p.west then "W" else "E")
    + [p.code]
  }

  /** Where EncodePosition puts each field. */
  lemma PositionLayout(p: Position)
    requires ValidPosition(p)
    ensures var loc := EncodePosition(p);
            var a, b, c := Pad2(p.latDegrees), Pad2(p.latMinutes), Pad2(p.latFraction);
            var d, e, f := Pad3(p.lonDegrees), Pad2(p.lonMinutes), Pad2(p.lonFraction);
            |loc| == 19
            && loc[0] == a[0] && loc[1] == a[1] && loc[2] == b[0] && loc[3] == b[1] && loc[4] == '.'
            && loc[5] == c[0] && loc[6] == c[1] && loc[7] == (if p.south then 'S' else 'N') && loc[8] == p.table
            && loc[9] == d[0] && loc[10] == d[1] && loc[11] == d[2] && loc[12] == e[0] && loc[13] == e[1]
            && loc[14] == '.' && loc[15] == f[0] && loc[16] == f[1]
            && loc[17] == (if p.west then 'W' else 'E') && loc[18] == p.code
  {
  }

  lemma PositionIsUncompressed(p: Position)
    requires ValidPosition(p)
    ensures IsUncompressed(EncodePosition(p))
    ensures DigitCount(EncodePosition(p), 2, 7) == 4 && DigitCount(EncodePosition(p), 12, 17) == 4
  {
    var loc := EncodePosition(p);
    PositionLayout(p);
    assert IsLatField(loc[..8]);
    assert IsLonField(loc[9..18]);
  }

  /**
   * Decoding an encoded position gives its coordinates (fraction digits
   * counted as seconds), full accuracy 7 and the packed symbol.
   */
  lemma PositionRoundTrip(p: Position)
    requires ValidPosition(p)
    ensures var lat := p.latDegrees * 3600 + p.latMinutes * 60 + p.latFraction;
            var lon := p.lonDegrees * 3600 + p.lonMinutes * 60 + p.lonFraction;
            LocatorOf(EncodePosition(p))
            == Locator(if p.south then -lat else lat, if p.west then -lon else lon, LocatorGps, 7,
                       (p.table as int) * 256 + p.code as int)
  {
    var loc := EncodePosition(p);
    PositionLayout(p);
    PositionIsUncompressed(p);
    LocatorAccuracy(loc);
    LocatorCoordinates(loc);
  }

  // =====================================================================
  // Object reports (decodeObjectReport)

  /** An APRS object; position is None where the source leaves it unassigned. */
  datatype ObjectReport = ObjectReport(
    name: string, comment: string, alive: bool, timestamp: Option<DateTime>, position: Option<Locator>)

  /** ObjectReport(): value-initialised, so its position is the all-zero, Null-typed locator. */
  const DefaultReport := ObjectReport("", "", false, None, Some(NullLocator))

  /** The payload shape decodeObjectReport accepts: type ';' and at least 37 bytes. */
  predicate IsObjectPayload(f: Frame) {
    GetType(f) == ';' as int && |f.payload| >= 37
  }

  /**
   * decodeObjectReport. The name and the text after the marker go through
   * the QByteArray overload of fromLatin1, so each stops at a NUL byte; a
   * text that is empty from the start gives the default report.
   */
  function DecodeObjectReport(frame: Frame, cd: Date): (obj: ObjectReport)
    ensures !IsObjectPayload(frame) ==> obj == DefaultReport
    ensures IsObjectPayload(frame) && frame.payload[11] == '\0' ==> obj == DefaultReport
    ensures IsObjectPayload(frame) && frame.payload[11] != '\0' ==> obj.position != Some(NullLocator)
  {
    var payload := frame.payload;
    if GetType(frame) != ';' as int || |payload| < 37 then DefaultReport
    else
      var name := Trim(FromLatin1(payload[1..10]));
      var alive := payload[10] == '*';
      var payloadText := FromLatin1(payload[11..]);
      if payloadText == [] then DefaultReport
      else
        var timestamp := DecodeTime(Left(payloadText, 7), cd);
        // the source then tests the byte array `payload`, never empty here; ReportTail tests
        // the remaining text instead (see ReadsPastEndAsWritten)
        ReportTail(name, alive, timestamp, Mid(payloadText, 7))
  }

  /**
   * The rest of decodeObjectReport after the timestamp: a position when a
   * digit follows, then the comment. An empty rest has no digit to offer:
   * no position, and an empty comment.
   */
  function ReportTail(name: string, alive: bool, timestamp: Option<DateTime>, rest: string): (obj: ObjectReport)
    ensures obj.position != Some(NullLocator)
    ensures obj.name == name && obj.alive == alive && obj.timestamp == timestamp
    ensures rest == [] ==> obj.position == None && obj.comment == []
  {
    if rest != [] && IsDigit(rest[0]) then
      var position := LocatorOf(Left(rest, 19));
      assert position.kind != LocatorNull;
      ObjectReport(name, Mid(rest, 19), alive, timestamp, Some(position))
    else
      ObjectReport(name, rest, alive, timestamp, None)
  }

  /**
   * The fields of a decoded object report, at their fixed payload offsets;
   * each text field stops at a NUL byte, and a NUL right after the marker
   * leaves the default report.
   */
  lemma ObjectReportFields(frame: Frame, cd: Date)
    requires IsObjectPayload(frame)
    ensures var obj := DecodeObjectReport(frame, cd); var p := frame.payload;
            (p[11] == '\0' ==> obj == DefaultReport)
            && (p[11] != '\0' ==>
                  obj.name == Trim(FromLatin1(p[1..10])) && (obj.alive <==> p[10] == '*')
                  && obj.timestamp == DecodeTime(Left(FromLatin1(p[11..]), 7), cd))
            && ('\0' !in p[1..10] ==> FromLatin1(p[1..10]) == p[1..10])
            && ('\0' !in p[11..18] ==> Left(FromLatin1(p[11..]), 7) == p[11..18])
  {
    var p := frame.payload;
    FromLatin1Cut(p[1..10], 0);
    if '\0' !in p[11..18] {
      assert p[11..][..7] == p[11..18];
      FromLatin1Prefix(p[11..], 7);
    }
  }

  /**
   * After the timestamp: a position when a digit follows, then the comment.
   * With no NUL byte after the marker these are the fixed offsets 18-36 and
   * 37 on.
   */
  lemma ObjectReportPosition(frame: Frame, cd: Date)
    requires IsObjectPayload(frame)
    ensures var obj := DecodeObjectReport(frame, cd); var p := frame.payload;
            var rest := Mid(FromLatin1(p[11..]), 7);
            (p[11] != '\0' && rest != [] && IsDigit(rest[0]) ==>
               obj.position == Some(LocatorOf(Left(rest, 19))) && obj.comment == Mid(rest, 19))
            && (p[11] != '\0' && (rest == [] || !IsDigit(rest[0])) ==> obj.position == None && obj.comment == rest)
            && ('\0' !in p[11..] ==>
                  (IsDigit(p[18]) ==> obj.position == Some(LocatorOf(p[18..37])) && obj.comment == p[37..])
                  && (!IsDigit(p[18]) ==> obj.position == None && obj.comment == p[18..]))
  {
    var p := frame.payload;
    if '\0' !in p[11..] {
      FromLatin1Cut(p[11..], 0);
      var rest := Mid(p[11..], 7);
      assert rest == p[18..];
      assert Left(rest, 19) == p[18..37] && Mid(rest, 19) == p[37..];
    }
  }

  /**
   * As written, aprs.cpp:148 tests the byte array `payload`, which is never
   * empty there, instead of the text `payloadText`; so when the text after
   * the marker is only the timestamp, aprs.cpp:150 reads `at(0)` of an
   * empty string.
   */
  predicate ReadsPastEndAsWritten(frame: Frame) {
    IsObjectPayload(frame) && frame.payload != []
    && var payloadText := FromLatin1(frame.payload[11..]);
       payloadText != [] && Mid(payloadText, 7) == []
  }

  /**
   * A NUL right after a NUL-free seven-character timestamp reaches that
   * read; the report then has the name, marker and time, no position and
   * an empty comment.
   */
  lemma NulAfterTimestamp(frame: Frame, cd: Date)
    requires IsObjectPayload(frame)
    requires '\0' !in frame.payload[11..18] && frame.payload[18] == '\0'
    ensures ReadsPastEndAsWritten(frame)
    ensures var p := frame.payload;
            DecodeObjectReport(frame, cd)
            == ObjectReport(Trim(FromLatin1(p[1..10])), "", p[10] == '*', DecodeTime(p[11..18], cd), None)
  {
    var p := frame.payload;
    assert p[11..][7] == '\0' && p[11..][..7] == p[11..18];
    FromLatin1Cut(p[11..], 7);
    var text := FromLatin1(p[11..]);
    assert text == p[11..18] && text[0] != '\0';
    assert Left(text, 7) == text && Mid(text, 7) == [];
    ObjectReportFields(frame, cd);
    ObjectReportPosition(frame, cd);
  }

  /** The payload of an object report: ';', name, '*' or '_', timestamp, position, comment. */
  function EncodeObject(name9: string, alive: bool, time7: string, position19: string, comment: string): string {
    ";" + name9 + (if alive then "*" else "_") + time7 + position19 + comment
  }

  /** Where the parts of an encoded object payload stand. */
  lemma EncodedObjectParts(name9: string, alive: bool, time7: string, position19: string, comment: string)
    requires |name9| == 9 && |time7| == 7 && |position19| == 19
    ensures var p := EncodeObject(name9, alive, time7, position19, comment);
            |p| >= 37 && p[0] == ';' && p[1..10] == name9 && p[10] == (if alive then '*' else '_')
            && p[11..] == time7 + position19 + comment
  {
    var p := EncodeObject(name9, alive, time7, position19, comment);
    var marker := if alive then "*" else "_";
    assert p == (";" + name9 + marker) + (time7 + position19 + comment);
  }

  /**
   * Decoding an object payload with a position gives back its parts; the
   * parts hold no NUL byte, which would cut the text short.
   */
  lemma ObjectRoundTrip(name9: string, alive: bool, time7: string, position19: string, comment: string,
                        frame: Frame, cd: Date)
    requires |name9| == 9 && |time7| == 7 && |position19| == 19 && IsDigit(position19[0])
    requires '\0' !in name9 && '\0' !in time7 && '\0' !in position19 && '\0' !in comment
    requires frame.payload == EncodeObject(name9, alive, time7, position19, comment)
    ensures DecodeObjectReport(frame, cd)
            == ObjectReport(Trim(name9), comment, alive, DecodeTime(time7, cd), Some(LocatorOf(position19)))
  {
    var p := frame.payload;
    EncodedObjectParts(name9, alive, time7, position19, comment);
    var text := time7 + position19 + comment;
    assert '\0' !in text;
    assert p[11..18] == text[..7] == time7;
    assert p[18..37] == text[7..26] == position19;
    assert p[37..] == text[26..] == comment;
    assert IsObjectPayload(frame);
    ObjectReportFields(frame, cd);
    ObjectReportPosition(frame, cd);
  }
}
