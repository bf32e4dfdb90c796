/**
 * The Qt string and byte-array operations the APRS code relies on
 * (QByteArray::indexOf, QString::split, trimmed, toUpper/toLower,
 * toLatin1, number formatting and the few QRegExp character classes),
 * restated as functions over Dafny strings.
 *
 * A QByteArray is modelled as a sequence of Latin-1 characters: byte b is
 * the character with code b, which is how QString::fromLatin1 reads it.
 * The QByteArray overload of fromLatin1 in Qt 5 stops at the first NUL
 * byte (FromLatin1); the overload with an explicit size does not, and
 * reads the bytes one to one.
 */
module QtStrings {

  /** One byte of a QByteArray, held as the Latin-1 character with that code. */
  type Byte = c: char | c as int < 256 witness '\0'

  type Bytes = seq<Byte>

  predicate IsLatin1(s: string) {
    forall i :: 0 <= i < |s| ==> s[i] as int < 256
  }

  /** QString::toLatin1 on one character: characters outside Latin-1 become '?'. */
  function Latin1Byte(c: char): Byte {
    if c as int < 256 then c else '?'
  }

  /** QString::toLatin1. */
  function ToLatin1(s: string): (r: Bytes)
    ensures |r| == |s|
    ensures forall i :: 0 <= i < |s| ==> r[i] == Latin1Byte(s[i])
  {
    seq(|s|, i requires 0 <= i < |s| => Latin1Byte(s[i]))
  }

  lemma ToLatin1OfLatin1(s: string)
    requires IsLatin1(s)
    ensures ToLatin1(s) == s
  {
  }

  /** QChar::toLatin1 read as an unsigned byte: 0 for characters outside Latin-1. */
  function CharCode(c: char): (b: nat)
    ensures b < 256
  {
    if c as int < 256 then c as int else 0
  }

  // ---------------------------------------------------------------------
  // Character classes (QChar::isDigit, QChar::isSpace, QRegExp \d \s \w)

  /** QChar::isDigit and QRegExp \d; only the ASCII digits are decimal digits in Latin-1. */
  predicate IsDigit(c: char) {
    '0' <= c <= '9'
  }

  function DigitValue(c: char): nat
    requires IsDigit(c)
  {
    c as int - '0' as int
  }

  /** QChar::isSpace and QRegExp \s: the control separators, NEL, NBSP and the Unicode spaces. */
  predicate IsSpace(c: char) {
    c == ' ' || ('\t' <= c <= '\r') || c as int == 0x85 || c as int == 0xA0
    || c as int == 0x1680 || (0x2000 <= c as int <= 0x200A)
    || c as int == 0x2028 || c as int == 0x2029 || c as int == 0x202F
    || c as int == 0x205F || c as int == 0x3000
  }

  /** QRegExp \w (letter, number, mark or '_'), exact on Latin-1. */
  predicate IsWordChar(c: char) {
    var n := c as int;
    ('a' <= c <= 'z') || ('A' <= c <= 'Z') || IsDigit(c) || c == '_'
    || n == 0xAA || n == 0xB2 || n == 0xB3 || n == 0xB5 || n == 0xB9 || n == 0xBA
    || (0xBC <= n <= 0xBE) || (0xC0 <= n <= 0xD6) || (0xD8 <= n <= 0xF6) || (0xF8 <= n <= 0xFF)
  }

  predicate AllDigits(s: string) {
    forall i :: 0 <= i < |s| ==> IsDigit(s[i])
  }

  // ---------------------------------------------------------------------
  // Case mapping (ASCII part of QString::toUpper / toLower)

  function UpperChar(c: char): char {
    if 'a' <= c <= 'z' then (c as int - 32) as char else c
  }

  function LowerChar(c: char): char {
    if 'A' <= c <= 'Z' then (c as int + 32) as char else c
  }

  function ToUpper(s: string): (r: string)
    ensures |r| == |s|
    ensures forall i :: 0 <= i < |s| ==> r[i] == UpperChar(s[i])
  {
    seq(|s|, i requires 0 <= i < |s| => UpperChar(s[i]))
  }

  function ToLower(s: string): (r: string)
    ensures |r| == |s|
    ensures forall i :: 0 <= i < |s| ==> r[i] == LowerChar(s[i])
  {
    seq(|s|, i requires 0 <= i < |s| => LowerChar(s[i]))
  }

  /** QString::mid(n): the characters from position n on, none when n is at or past the end. */
  function Mid<T>(s: seq<T>, n: nat): (r: seq<T>)
    ensures |r| == if n < |s| then |s| - n else 0
    ensures forall i :: 0 <= i < |r| ==> r[i] == s[n + i]
  {
    if n < |s| then s[n..] else []
  }

  /** QString::left(n) and QByteArray::left(n): the first n characters, or all of them. */
  function Left<T>(s: seq<T>, n: nat): (r: seq<T>)
    ensures |r| == if n < |s| then n else |s|
    ensures r <= s
  {
    if n < |s| then s[..n] else s
  }

  // ---------------------------------------------------------------------
  // Searching

  /**
   * QByteArray::indexOf(c, from) and QString::indexOf(c): the first position at
   * or after `from` that holds `c`, or -1 when there is none.
   */
  function IndexOf(s: seq<char>, c: char, from: nat): (r: int)
    ensures r == -1 || from <= r < |s|
    ensures 0 <= r ==> s[r] == c
    ensures forall j :: from <= j < |s| && (r < 0 || j < r) ==> s[j] != c
    decreases |s| - from
  {
    if from >= |s| then -1
    else if s[from] == c then from
    else IndexOf(s, c, from + 1)
  }

  /**
   * QString::fromLatin1(const QByteArray &) in Qt 5: the characters before
   * the first NUL byte, or all of them when there is none.
   */
  function FromLatin1(b: Bytes): (s: string)
    ensures s <= b && '\0' !in s
    ensures |s| < |b| ==> b[|s|] == '\0'
  {
    var n := IndexOf(b, '\0', 0);
    if n < 0 then b else b[..n]
  }

  /** Bytes holding no NUL convert whole; a NUL at position k cuts them there. */
  lemma FromLatin1Cut(b: Bytes, k: nat)
    ensures '\0' !in b ==> FromLatin1(b) == b
    ensures k < |b| && b[k] == '\0' && '\0' !in b[..k] ==> FromLatin1(b) == b[..k]
  {
    if k < |b| && b[k] == '\0' && '\0' !in b[..k] {
      var n := IndexOf(b, '\0', 0);
      forall j | 0 <= j < k ensures b[j] != '\0' {
        assert b[j] == b[..k][j];
      }
      assert n == k;
    }
  }

  /** A NUL-free head of the bytes survives the conversion. */
  lemma FromLatin1Prefix(b: Bytes, k: nat)
    requires k <= |b| && '\0' !in b[..k]
    ensures k <= |FromLatin1(b)| && FromLatin1(b)[..k] == b[..k]
  {
    forall j | 0 <= j < k ensures b[j] != '\0' {
      assert b[..k][j] == b[j];
    }
  }

  lemma Associate<T>(a: seq<T>, b: seq<T>, c: seq<T>)
    ensures a + (b + c) == a + b + c
  {
  }

  /** A sequence cut around one of its elements. */
  lemma CutAround<T>(s: seq<T>, i: nat, j: nat)
    requires i <= j < |s|
    ensures s[i..] == s[i..j] + [s[j]] + s[j + 1..]
  {
  }

  /** QByteArray::startsWith(char). */
  predicate StartsWith(s: seq<char>, c: char) {
    |s| > 0 && s[0] == c
  }

  // ---------------------------------------------------------------------
  // Splitting and joining (QString::split with KeepEmptyParts / SkipEmptyParts)

  /** QString::split(sep): the maximal runs between separators, empty ones included. */
  function Split(s: string, sep: char): (parts: seq<string>)
    ensures |parts| >= 1
    ensures forall i :: 0 <= i < |parts| ==> sep !in parts[i]
  {
    if s == [] then [[]]
    else
      var rest := Split(s[1..], sep);
      if s[0] == sep then [[]] + rest
      else [[s[0]] + rest[0]] + rest[1..]
  }

  function Join(parts: seq<string>, sep: char): string
    requires |parts| >= 1
  {
    if |parts| == 1 then parts[0] else parts[0] + [sep] + Join(parts[1..], sep)
  }

  /** Joining the pieces of a split with the same separator gives back the string. */
  lemma {:induction false} JoinSplit(s: string, sep: char)
    ensures Join(Split(s, sep), sep) == s
  {
    if s != [] {
      var rest := Split(s[1..], sep);
      JoinSplit(s[1..], sep);
      if s[0] == sep {
        assert ([[]] + rest)[1..] == rest;
      } else {
        var parts := [[s[0]] + rest[0]] + rest[1..];
        if |rest| > 1 {
          assert parts[1..] == rest[1..];
          assert Join(rest, sep) == rest[0] + [sep] + Join(rest[1..], sep);
        }
      }
    }
  }

  /** A separator-free prefix is glued onto the first piece of what follows it. */
  lemma {:induction false} SplitAppend(a: string, b: string, sep: char)
    requires sep !in a
    ensures Split(a + b, sep) == [a + Split(b, sep)[0]] + Split(b, sep)[1..]
  {
    if a != [] {
      var p := Split(b, sep);
      assert a[0] in a && a[0] != sep;
      assert sep !in a[1..] by {
        assert forall k :: 0 <= k < |a[1..]| ==> a[1..][k] == a[k + 1];
      }
      SplitAppend(a[1..], b, sep);
      assert (a + b)[0] == a[0] && (a + b)[1..] == a[1..] + b;
      var rest := Split(a[1..] + b, sep);
      assert rest[0] == a[1..] + p[0] && rest[1..] == p[1..];
      assert Split(a + b, sep) == [[a[0]] + rest[0]] + rest[1..];
      assert [a[0]] + (a[1..] + p[0]) == a + p[0] by {
        Associate([a[0]], a[1..], p[0]);
        assert [a[0]] + a[1..] == a;
      }
    } else {
      var p := Split(b, sep);
      assert a + b == b && a + p[0] == p[0];
      assert p == [p[0]] + p[1..];
    }
  }

  /** Splitting a join of separator-free pieces gives back the pieces. */
  lemma {:induction false} SplitJoin(parts: seq<string>, sep: char)
    requires |parts| >= 1
    requires forall i :: 0 <= i < |parts| ==> sep !in parts[i]
    ensures Split(Join(parts, sep), sep) == parts
  {
    if |parts| == 1 {
      SplitAppend(parts[0], [], sep);
      assert parts[0] + [] == parts[0];
    } else {
      var tail := Join(parts[1..], sep);
      SplitJoin(parts[1..], sep);
      SplitAppend(parts[0], [sep] + tail, sep);
      assert parts[0] + [sep] + tail == parts[0] + ([sep] + tail);
      assert ([sep] + tail)[1..] == tail;
      assert Split([sep] + tail, sep) == [[]] + Split(tail, sep);
      assert parts[0] + [] == parts[0];
      assert parts == [parts[0]] + parts[1..];
    }
  }

  /** The non-empty entries of a list, in order. */
  function NonEmpty(parts: seq<string>): (r: seq<string>)
    ensures |r| <= |parts|
    ensures forall i :: 0 <= i < |r| ==> r[i] != [] && r[i] in parts
  {
    if parts == [] then []
    else (if parts[0] == [] then [] else [parts[0]]) + NonEmpty(parts[1..])
  }

  /** QString::split(sep, QString::SkipEmptyParts). */
  function Tokens(s: string, sep: char): seq<string> {
    NonEmpty(Split(s, sep))
  }

  /** Every token is non-empty and holds no separator. */
  lemma TokensAreWords(s: string, sep: char)
    ensures forall i :: 0 <= i < |Tokens(s, sep)| ==>
              Tokens(s, sep)[i] != [] && sep !in Tokens(s, sep)[i]
  {
    var parts := Split(s, sep);
    forall i | 0 <= i < |Tokens(s, sep)|
      ensures sep !in Tokens(s, sep)[i]
    {
      var t := Tokens(s, sep)[i];
      assert t in parts;
      var k :| 0 <= k < |parts| && parts[k] == t;
    }
  }

  // ---------------------------------------------------------------------
  // Whitespace handling (QString::trimmed, replace(QRegExp("\\s+"), "_"))

  /** The length of the run of whitespace that starts s. */
  function LeadingSpaces(s: string): (n: nat)
    ensures n <= |s|
    ensures forall i :: 0 <= i < n ==> IsSpace(s[i])
    ensures n == |s| || !IsSpace(s[n])
  {
    if s != [] && IsSpace(s[0]) then 1 + LeadingSpaces(s[1..]) else 0
  }

  /** The length of s[..k] without the run of whitespace that ends it. */
  function TrimmedLength(s: string, k: nat): (n: nat)
    requires k <= |s|
    ensures n <= k
    ensures forall i :: n <= i < k ==> IsSpace(s[i])
    ensures n == 0 || !IsSpace(s[n - 1])
    decreases k
  {
    if k > 0 && IsSpace(s[k - 1]) then TrimmedLength(s, k - 1) else k
  }

  function TrimStart(s: string): (r: string)
    ensures |r| <= |s|
  {
    s[LeadingSpaces(s)..]
  }

  function TrimEnd(s: string): (r: string)
    ensures |r| <= |s|
  {
    s[..TrimmedLength(s, |s|)]
  }

  /** QString::trimmed: whitespace removed from both ends. */
  function Trim(s: string): string {
    TrimEnd(TrimStart(s))
  }

  /** A prefix of a suffix is a slice. */
  lemma SuffixPrefix<T>(s: seq<T>, i: nat, n: nat)
    requires i + n <= |s|
    ensures s[i..][..n] == s[i..i + n]
  {
  }

  /**
   * Trimming keeps a contiguous piece of the input, drops only whitespace
   * around it, and leaves no whitespace at either end.
   */
  lemma TrimIsInfix(s: string)
    ensures var i, r := LeadingSpaces(s), Trim(s);
            i + |r| <= |s| && r == s[i..i + |r|]
            && (forall k :: 0 <= k < i ==> IsSpace(s[k]))
            && (forall k :: i + |r| <= k < |s| ==> IsSpace(s[k]))
            && (r == [] || (!IsSpace(r[0]) && !IsSpace(r[|r| - 1])))
  {
    TrimIsSlice(s);
    TrimTail(s);
    TrimEnds(s);
  }

  lemma TrimIsSlice(s: string)
    ensures LeadingSpaces(s) + |Trim(s)| <= |s| && Trim(s) == s[LeadingSpaces(s)..LeadingSpaces(s) + |Trim(s)|]
  {
    var i := LeadingSpaces(s);
    var t := s[i..];
    var n := TrimmedLength(t, |t|);
    assert TrimStart(s) == t;
    assert Trim(s) == t[..n];
    SuffixPrefix(s, i, n);
  }

  lemma TrimTail(s: string)
    ensures LeadingSpaces(s) + |Trim(s)| <= |s|
    ensures forall k :: LeadingSpaces(s) + |Trim(s)| <= k < |s| ==> IsSpace(s[k])
  {
    var i := LeadingSpaces(s);
    var t := s[i..];
    var n := TrimmedLength(t, |t|);
    assert TrimStart(s) == t;
    assert |Trim(s)| == n;
    forall k | i + n <= k < |s| ensures IsSpace(s[k]) {
      assert s[k] == t[k - i];
    }
  }

  lemma TrimEnds(s: string)
    ensures Trim(s) == [] || (!IsSpace(Trim(s)[0]) && !IsSpace(Trim(s)[|Trim(s)| - 1]))
  {
    var i := LeadingSpaces(s);
    var t := s[i..];
    var n := TrimmedLength(t, |t|);
    assert TrimStart(s) == t;
    assert Trim(s) == t[..n];
    if n > 0 {
      assert Trim(s)[0] == t[0] && Trim(s)[n - 1] == t[n - 1];
    }
  }

  /** QString::replace(QRegExp("\\s+"), "_"): every run of whitespace becomes one '_'. */
  function CollapseSpaces(s: string): (r: string)
    ensures forall i :: 0 <= i < |r| ==> !IsSpace(r[i])
    ensures (forall i :: 0 <= i < |s| ==> !IsSpace(s[i])) ==> r == s
    decreases |s|
  {
    if s == [] then []
    else if IsSpace(s[0]) then "_" + CollapseSpaces(TrimStart(s[1..]))
    else [s[0]] + CollapseSpaces(s[1..])
  }

  /** A whitespace-only text has no text before its first non-space. */
  lemma AllSpacesLead(s: string)
    requires forall k :: 0 <= k < |s| ==> IsSpace(s[k])
    ensures LeadingSpaces(s) == |s|
  {
  }

  /** The leading run of a concatenation stops in the first part, or at its end when the second part starts with a non-space. */
  lemma LeadingSpacesAppend(a: string, b: string)
    ensures LeadingSpaces(a) < |a| ==> LeadingSpaces(a + b) == LeadingSpaces(a)
    ensures LeadingSpaces(a) == |a| && (b == [] || !IsSpace(b[0])) ==> LeadingSpaces(a + b) == |a|
  {
    var m := LeadingSpaces(a);
    if m < |a| {
      assert (a + b)[m] == a[m];
    } else if b == [] {
      assert a + b == a;
    } else {
      assert (a + b)[|a|] == b[0];
    }
  }

  /** A non-empty run of whitespace becomes a single '_'. */
  lemma CollapseRun(w: string)
    requires w != [] && forall k :: 0 <= k < |w| ==> IsSpace(w[k])
    ensures CollapseSpaces(w) == "_"
  {
    AllSpacesLead(w[1..]);
  }

  /** One step of CollapseSpaces, for a text written as its first character and the rest. */
  lemma CollapseCons(c: char, x: string)
    ensures CollapseSpaces([c] + x) == if IsSpace(c) then "_" + CollapseSpaces(TrimStart(x)) else [c] + CollapseSpaces(x)
  {
    assert ([c] + x)[0] == c && ([c] + x)[1..] == x;
  }

  /**
   * Collapsing works piecewise when the cut does not fall inside a run of
   * whitespace, so a text is collapsed run by run.
   */
  lemma {:induction false} CollapseAppend(a: string, b: string)
    requires a == [] || b == [] || !IsSpace(a[|a| - 1]) || !IsSpace(b[0])
    ensures CollapseSpaces(a + b) == CollapseSpaces(a) + CollapseSpaces(b)
    decreases |a|, 1
  {
    if a == [] {
      assert a + b == b;
    } else if b == [] {
      assert a + b == a;
    } else {
      var c, tail := a[0], a[1..];
      assert a == [c] + tail && a + b == [c] + (tail + b);
      CollapseCons(c, tail);
      CollapseCons(c, tail + b);
      if !IsSpace(c) {
        assert tail == [] || tail[|tail| - 1] == a[|a| - 1];
        CollapseAppend(tail, b);
        Associate([c], CollapseSpaces(tail), CollapseSpaces(b));
      } else {
        CollapseAfterSpace(a, b);
        Associate("_", CollapseSpaces(TrimStart(tail)), CollapseSpaces(b));
      }
    }
  }

  /** The step of CollapseAppend after a leading space of `a`: the run it starts is skipped in both. */
  lemma {:induction false} CollapseAfterSpace(a: string, b: string)
    requires a != [] && IsSpace(a[0]) && b != [] && (!IsSpace(a[|a| - 1]) || !IsSpace(b[0]))
    ensures CollapseSpaces(TrimStart(a[1..] + b)) == CollapseSpaces(TrimStart(a[1..])) + CollapseSpaces(b)
    decreases |a|, 0
  {
    var tail := a[1..];
    var n := LeadingSpaces(tail);
    LeadingSpacesAppend(tail, b);
    if n < |tail| {
      var rest := tail[n..];
      assert (tail + b)[n..] == rest + b;
      assert rest[|rest| - 1] == a[|a| - 1];
      assert TrimStart(tail + b) == rest + b && TrimStart(tail) == rest;
      CollapseAppend(rest, b);
    } else {
      assert IsSpace(a[|a| - 1]) by {
        if tail != [] { assert tail[|tail| - 1] == a[|a| - 1]; }
      }
      assert (tail + b)[|tail|..] == b;
      assert TrimStart(tail + b) == b && TrimStart(tail) == [];
    }
  }

  /** Collapsing keeps Latin-1 text Latin-1: it only drops characters and writes '_'. */
  lemma {:induction false} CollapseSpacesLatin1(s: string)
    requires IsLatin1(s)
    ensures IsLatin1(CollapseSpaces(s))
    decreases |s|
  {
    if s != [] {
      var tail := s[1..];
      assert IsLatin1(tail) by {
        forall k | 0 <= k < |tail| ensures tail[k] as int < 256 {
          assert tail[k] == s[k + 1];
        }
      }
      if IsSpace(s[0]) {
        var t := TrimStart(tail);
        assert IsLatin1(t) by {
          forall k | 0 <= k < |t| ensures t[k] as int < 256 {
            assert t[k] == tail[LeadingSpaces(tail) + k];
          }
        }
        CollapseSpacesLatin1(t);
        Latin1Concat("_", CollapseSpaces(t));
      } else {
        CollapseSpacesLatin1(tail);
        Latin1Concat([s[0]], CollapseSpaces(tail));
      }
    }
  }

  lemma Latin1Concat(a: string, b: string)
    requires IsLatin1(a) && IsLatin1(b)
    ensures IsLatin1(a + b)
  {
    forall k | 0 <= k < |a + b| ensures (a + b)[k] as int < 256 {
      if k < |a| { assert (a + b)[k] == a[k]; } else { assert (a + b)[k] == b[k - |a|]; }
    }
  }

  /** Joining two lists of pieces is joining their joins. */
  lemma {:induction false} JoinAppend(p: seq<string>, q: seq<string>, sep: char)
    requires |p| >= 1 && |q| >= 1
    ensures Join(p + q, sep) == Join(p, sep) + [sep] + Join(q, sep)
    decreases |p|
  {
    if |p| == 1 {
      assert (p + q)[1..] == q;
    } else {
      assert (p + q)[1..] == p[1..] + q;
      JoinAppend(p[1..], q, sep);
    }
  }

  // ---------------------------------------------------------------------
  // Decimal numbers (QString::arg(int), QString::toInt)

  function DigitChar(d: nat): (c: char)
    requires d < 10
    ensures IsDigit(c) && DigitValue(c) == d
  {
    ('0' as int + d) as char
  }

  /** The decimal digits of n, most significant first, without leading zeros. */
  function NatDigits(n: nat): (r: string)
    ensures |r| >= 1 && AllDigits(r)
  {
    if n < 10 then [DigitChar(n)] else NatDigits(n / 10) + [DigitChar(n % 10)]
  }

  /** QString::arg(int): base 10, with a leading '-' for a negative number. */
  function Decimal(n: int): (r: string)
    ensures |r| >= 1 && (r[0] == '-' <==> n < 0)
    ensures forall k :: 0 <= k < |r| ==> (k == 0 && r[k] == '-') || IsDigit(r[k])
  {
    if n < 0 then "-" + NatDigits(-n) else NatDigits(n)
  }

  /** QString::mid(lo, hi - lo).toInt() on a run of decimal digits. */
  function NumberAt(s: string, lo: nat, hi: nat): nat
    requires lo <= hi <= |s|
    requires forall k :: lo <= k < hi ==> IsDigit(s[k])
    decreases hi - lo
  {
    if hi == lo then 0 else NumberAt(s, lo, hi - 1) * 10 + DigitValue(s[hi - 1])
  }

  lemma {:induction false} NumberAtPrefix(s: string, t: string, lo: nat, hi: nat)
    requires lo <= hi <= |s|
    requires forall k :: lo <= k < hi ==> IsDigit(s[k])
    ensures NumberAt(s + t, lo, hi) == NumberAt(s, lo, hi)
    decreases hi - lo
  {
    if hi > lo {
      NumberAtPrefix(s, t, lo, hi - 1);
    }
  }

  /** Reading back the digits of a number gives the number. */
  lemma {:induction false} NatDigitsRoundTrip(n: nat)
    ensures NumberAt(NatDigits(n), 0, |NatDigits(n)|) == n
  {
    if n >= 10 {
      var front := NatDigits(n / 10);
      NatDigitsRoundTrip(n / 10);
      NumberAtPrefix(front, [DigitChar(n % 10)], 0, |front|);
    }
  }

  /** IndexOf is determined by its contract: the first occurrence at or after `from`. */
  lemma IndexOfIs(s: seq<char>, c: char, from: nat, k: nat)
    requires from <= k < |s| && s[k] == c
    requires forall j :: from <= j < k ==> s[j] != c
    ensures IndexOf(s, c, from) == k
  {
  }

  lemma IndexOfNone(s: seq<char>, c: char, from: nat)
    requires forall j :: from <= j < |s| ==> s[j] != c
    ensures IndexOf(s, c, from) == -1
  {
  }

  /** The first `c` from the end of `pre` on is the one that follows `a`, when `a` holds no `c`. */
  lemma IndexOfAfter(pre: seq<char>, a: seq<char>, c: char, rest: seq<char>)
    requires c !in a
    ensures IndexOf(pre + a + [c] + rest, c, |pre|) == |pre| + |a|
  {
    var s := pre + a + [c] + rest;
    forall j | |pre| <= j < |pre| + |a| ensures s[j] != c {
      assert s[j] == a[j - |pre|];
    }
    IndexOfIs(s, c, |pre|, |pre| + |a|);
  }
}
