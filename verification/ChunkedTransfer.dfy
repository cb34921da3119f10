/** The chunked transfer coding of cheroot/server.py: HTTPRequest.write and the end of respond encode,
    ChunkedRFile decodes (section 4.1 of RFC 7230). */
module ChunkedTransfer {

  import opened Lists
  import opened Results

  type byte = b: int | 0 <= b < 256

  const CR: byte := 13
  const LF: byte := 10
  const SEMICOLON: byte := 59
  const UNDERSCORE: byte := 95
  const CRLF: seq<byte> := [CR, LF]
  const LAST_CHUNK: seq<byte> := [48, CR, LF]

  // ---- hexadecimal numbers ----

  function HexDigit(d: nat): byte
    requires d < 16
  {
    if d < 10 then 48 + d else 87 + d
  }

  /** hex(n)[2:] */
  function Hex(n: nat): seq<byte> {
    if n < 16 then [HexDigit(n)] else Hex(n / 16) + [HexDigit(n % 16)]
  }

  predicate IsHexDigit(b: byte) {
    48 <= b <= 57 || 65 <= b <= 70 || 97 <= b <= 102
  }

  function DigitValue(b: byte): (d: nat)
    requires IsHexDigit(b)
    ensures d < 16
  {
    if b <= 57 then b - 48 else if b <= 70 then b - 55 else b - 87
  }

  /** Hexadecimal digits, possibly with single underscores between them. */
  function ParseDigits(s: seq<byte>): Option<nat> {
    if s == [] || !IsHexDigit(s[|s| - 1]) then None
    else
      var front, d := s[..|s| - 1], DigitValue(s[|s| - 1]);
      if front == [] then Some(d)
      else
        var more := ParseDigits(if front[|front| - 1] == UNDERSCORE then front[..|front| - 1] else front);
        if more.None? then None else Some(more.value * 16 + d)
  }

  predicate IsSpace(b: byte) {
    b == 32 || 9 <= b <= 13
  }

  function StripLeft(s: seq<byte>): seq<byte> {
    if s != [] && IsSpace(s[0]) then StripLeft(s[1..]) else s
  }

  function StripRight(s: seq<byte>): seq<byte> {
    if s != [] && IsSpace(s[|s| - 1]) then StripRight(s[..|s| - 1]) else s
  }

  /** bytes.strip() */
  function Strip(s: seq<byte>): seq<byte> {
    StripRight(StripLeft(s))
  }

  /** int(s, 16), from behind the sign on */
  function ParseUnsigned(u: seq<byte>): Option<nat> {
    var prefixed := |u| >= 2 && u[0] == 48 && (u[1] == 88 || u[1] == 120);
    ParseDigits(if !prefixed then u else if |u| >= 3 && u[2] == UNDERSCORE then u[3..] else u[2..])
  }

  /** int(s, 16) */
  function ParseInt16(s: seq<byte>): Option<int> {
    var t := Strip(s);
    var negative := t != [] && t[0] == 45;
    var n := ParseUnsigned(if negative || (t != [] && t[0] == 43) then t[1..] else t);
    if n.None? then None else Some(if negative then 0 - n.value else n.value)
  }

  /** s.split(b';', 1)[0] */
  function BeforeSemicolon(s: seq<byte>): seq<byte> {
    if s == [] || s[0] == SEMICOLON then [] else [s[0]] + BeforeSemicolon(s[1..])
  }

  // ---- what a size line means ----

  /** 0123456789abcdef and 0123456789ABCDEF, in ASCII */
  const LOWER: seq<byte> := [48, 49, 50, 51, 52, 53, 54, 55, 56, 57, 97, 98, 99, 100, 101, 102]
  const UPPER: seq<byte> := [48, 49, 50, 51, 52, 53, 54, 55, 56, 57, 65, 66, 67, 68, 69, 70]

  /** The digits, in either case and with any leading zeros, are those of n: the last counts ones, the ones before it
      sixteens. */
  ghost predicate Spells(s: seq<byte>, n: nat) {
    && s != [] && s[|s| - 1] in {LOWER[n % 16], UPPER[n % 16]}
    && if |s| == 1 then n < 16 else Spells(s[..|s| - 1], n / 16)
  }

  /** Nothing, or a semicolon and whatever follows it on the line. */
  ghost predicate IsExtension(s: seq<byte>) {
    s == [] || (s[0] == 59 && 10 !in s)
  }

  /** The first line of a chunk of n bytes: the digits of n and an extension. */
  ghost predicate IsSizeLine(line: seq<byte>, n: nat) {
    exists digits, extension {:trigger HasParts(line, n, digits, extension)} ::
      HasParts(line, n, digits, extension)
  }

  ghost predicate HasParts(line: seq<byte>, n: nat, digits: seq<byte>, extension: seq<byte>) {
    line == digits + (extension + CRLF) && Spells(digits, n) && IsExtension(extension)
  }

  /** All but the last digit. */
  ghost function LessOne(s: seq<byte>): seq<byte>
    requires |s| > 1
  {
    if s[|s| - 2] == 95 then s[..|s| - 2] else s[..|s| - 1]
  }

  /** The same, but single underscores may stand between the digits. */
  ghost predicate SpellsLoosely(s: seq<byte>, n: nat) {
    && s != [] && s[|s| - 1] in {LOWER[n % 16], UPPER[n % 16]}
    && if |s| == 1 then n < 16
       else SpellsLoosely(LessOne(s), n / 16)
  }

  lemma {:induction false} SpelledDigits(s: seq<byte>, n: nat)
    requires Spells(s, n)
    ensures (forall i :: 0 <= i < |s| ==> IsHexDigit(s[i])) && SpellsLoosely(s, n)
  {
    assert IsHexDigit(s[|s| - 1]);
    if |s| > 1 {
      var front := s[..|s| - 1];
      SpelledDigits(front, n / 16);
      assert forall i :: 0 <= i < |front| ==> s[i] == front[i];
      assert IsHexDigit(front[|front| - 1]);
    }
  }

  lemma DigitExactly(b: byte, d: nat)
    requires d < 16
    ensures b in {LOWER[d], UPPER[d]} <==> IsHexDigit(b) && DigitValue(b) == d
  {
  }

  lemma LastDigit(more: nat, d: nat, n: nat)
    requires d < 16
    ensures more * 16 + d == n <==> more == n / 16 && d == n % 16
  {
  }

  /** One more digit. */
  lemma OneMoreDigit(b: byte, more: Option<nat>, n: nat)
    ensures (IsHexDigit(b) && more.Some? && more.value * 16 + DigitValue(b) == n) <==>
      (b in {LOWER[n % 16], UPPER[n % 16]} && more == Some(n / 16))
  {
    DigitExactly(b, n % 16);
    if more.Some? && IsHexDigit(b) {
      LastDigit(more.value, DigitValue(b), n);
    }
  }

  /** Digits are read as n exactly if they spell it. */
  lemma {:induction false} DigitsExactly(s: seq<byte>, n: nat)
    ensures ParseDigits(s) == Some(n) <==> SpellsLoosely(s, n)
  {
    if |s| == 1 {
      OneDigitExactly(s, n);
    } else if |s| > 1 {
      DigitsExactly(LessOne(s), n / 16);
      OneMoreDigit(s[|s| - 1], ParseDigits(LessOne(s)), n);
      MoreDigits(s);
      LooserDigits(s, n);
    }
  }

  lemma LooserDigits(s: seq<byte>, n: nat)
    requires |s| > 1
    ensures SpellsLoosely(s, n) <==>
      s[|s| - 1] in {LOWER[n % 16], UPPER[n % 16]} && SpellsLoosely(LessOne(s), n / 16)
  {
  }

  lemma OneDigitExactly(s: seq<byte>, n: nat)
    requires |s| == 1
    ensures ParseDigits(s) == Some(n) <==> SpellsLoosely(s, n)
  {
    DigitExactly(s[0], n % 16);
  }

  lemma MoreDigits(s: seq<byte>)
    requires |s| > 1
    ensures var b, more := s[|s| - 1], ParseDigits(LessOne(s));
      ParseDigits(s) ==
        if IsHexDigit(b) && more.Some? then Some(more.value * 16 + DigitValue(b)) else None
  {
    var front := s[..|s| - 1];
    assert LessOne(s) == if front[|front| - 1] == UNDERSCORE then front[..|front| - 1] else front;
  }

  /** Space, tab, line feed, vertical tab, form feed, carriage return */
  ghost predicate Blank(s: seq<byte>) {
    forall i :: 0 <= i < |s| ==> s[i] in {32, 9, 10, 11, 12, 13}
  }

  /** s is an integer of base 16 as Python writes and reads it: blanks around a sign, a prefix and digits. */
  ghost predicate IsInt(s: seq<byte>, v: int, before: seq<byte>, sign: seq<byte>, prefix: seq<byte>, digits: seq<byte>,
                        after: seq<byte>)
  {
    && s == before + ((sign + (prefix + digits)) + after) && Blank(before) && Blank(after)
    && sign in {[], [43], [45]}
    && prefix in {[], [48, 88], [48, 120], [48, 88, 95], [48, 120, 95]}
    && if sign == [45] then v <= 0 && SpellsLoosely(digits, 0 - v) else v >= 0 && SpellsLoosely(digits, v)
  }

  lemma {:induction false} StripsLeft(before: seq<byte>, core: seq<byte>)
    requires Blank(before) && (core == [] || !IsSpace(core[0]))
    ensures StripLeft(before + core) == core
  {
    if before == [] {
      assert before + core == core;
    } else {
      assert (before + core)[1..] == before[1..] + core;
      StripsLeft(before[1..], core);
    }
  }

  lemma {:induction false} StripsRight(core: seq<byte>, after: seq<byte>)
    requires Blank(after) && (core == [] || !IsSpace(core[|core| - 1]))
    ensures StripRight(core + after) == core
  {
    if after == [] {
      assert core + after == core;
    } else {
      var s := core + after;
      assert s[..|s| - 1] == core + after[..|after| - 1];
      StripsRight(core, after[..|after| - 1]);
    }
  }

  lemma StripsAround(before: seq<byte>, core: seq<byte>, after: seq<byte>)
    requires Blank(before) && Blank(after) && core != [] && !IsSpace(core[0]) && !IsSpace(core[|core| - 1])
    ensures Strip(before + (core + after)) == core
  {
    assert (core + after)[0] == core[0];
    StripsLeft(before, core + after);
    StripsRight(core, after);
  }

  lemma {:induction false} LeftBlanks(s: seq<byte>) returns (before: seq<byte>)
    ensures Blank(before) && s == before + StripLeft(s)
  {
    before := [];
    if s != [] && IsSpace(s[0]) {
      before := LeftBlanks(s[1..]);
      before := [s[0]] + before;
    }
  }

  lemma {:induction false} RightBlanks(s: seq<byte>) returns (after: seq<byte>)
    ensures Blank(after) && s == StripRight(s) + after
  {
    after := [];
    if s != [] && IsSpace(s[|s| - 1]) {
      after := RightBlanks(s[..|s| - 1]);
      after := after + [s[|s| - 1]];
    }
  }

  lemma {:induction false} LooseEnds(s: seq<byte>, n: nat)
    requires SpellsLoosely(s, n)
    ensures IsHexDigit(s[0]) && IsHexDigit(s[|s| - 1])
  {
    if |s| > 1 { LooseEnds(LessOne(s), n / 16); }
  }

  /** hex writes the digits without leading zeros. */
  lemma {:induction false} HexSpells(n: nat)
    ensures Spells(Hex(n), n) && (|Hex(n)| > 1 ==> Hex(n)[0] != 48)
    ensures forall b :: b in Hex(n) ==> b in LOWER
  {
    if n >= 16 {
      var front := Hex(n / 16);
      HexSpells(n / 16);
      assert Hex(n)[..|Hex(n)| - 1] == front;
      assert Hex(n)[|front|] == LOWER[n % 16];
    } else {
      assert Hex(n) == [LOWER[n]];
    }
  }

  lemma {:induction false} NoSemicolon(s: seq<byte>, rest: seq<byte>)
    requires SEMICOLON !in s && (rest == [] || rest[0] == SEMICOLON)
    ensures BeforeSemicolon(s + rest) == s
  {
    if s != [] {
      NoSemicolon(s[1..], rest);
      assert (s + rest)[1..] == s[1..] + rest;
    }
  }

  /** Stripping stops at what is no space. */
  lemma {:induction false} StripsTo(s: seq<byte>, n: nat)
    requires 0 < n <= |s| && !IsSpace(s[n - 1])
    ensures s[..n] <= StripRight(s) <= s
  {
    if IsSpace(s[|s| - 1]) {
      StripsTo(s[..|s| - 1], n);
      assert s[..|s| - 1][..n] == s[..n];
    }
  }

  lemma UnsignedIsRead(prefix: seq<byte>, digits: seq<byte>, n: nat)
    requires prefix in {[], [48, 88], [48, 120], [48, 88, UNDERSCORE], [48, 120, UNDERSCORE]}
    requires SpellsLoosely(digits, n)
    ensures ParseUnsigned(prefix + digits) == Some(n)
  {
    var u := prefix + digits;
    LooseEnds(digits, n);
    DigitsExactly(digits, n);
    NoPrefix(digits, n);
    assert u[|prefix|..] == digits;
  }

  lemma {:induction false} NoPrefix(digits: seq<byte>, n: nat)
    requires SpellsLoosely(digits, n)
    ensures |digits| >= 2 ==> IsHexDigit(digits[1]) || digits[1] == UNDERSCORE
  {
    if |digits| > 2 {
      NoPrefix(LessOne(digits), n / 16);
    }
  }

  lemma SignIsRead(s: seq<byte>, sign: seq<byte>, u: seq<byte>)
    requires Strip(s) == sign + u && sign in {[], [43], [45]} && u != [] && IsHexDigit(u[0])
    ensures var n := ParseUnsigned(u);
      ParseInt16(s) == if n.None? then None else Some(if sign == [45] then 0 - n.value else n.value)
  {
    assert (sign + u)[|sign|..] == u;
  }

  /** An integer of base 16 is read. */
  lemma IntIsRead(s: seq<byte>, v: int, before: seq<byte>, sign: seq<byte>, prefix: seq<byte>, digits: seq<byte>,
                  after: seq<byte>)
    requires IsInt(s, v, before, sign, prefix, digits, after)
    ensures ParseInt16(s) == Some(v)
  {
    var n := if sign == [45] then 0 - v else v;
    var u := prefix + digits;
    var core := sign + u;
    LooseEnds(digits, n);
    assert u != [] && IsHexDigit(u[0]) && u[|u| - 1] == digits[|digits| - 1];
    assert core[|core| - 1] == u[|u| - 1] && !IsSpace(core[0]);
    StripsAround(before, core, after);
    UnsignedIsRead(prefix, digits, n);
    SignIsRead(s, sign, u);
  }

  /** What is left of a size line without its line end. */
  lemma StripLine(digits: seq<byte>, extension: seq<byte>)
    requires digits != [] && !IsSpace(digits[0]) && !IsSpace(digits[|digits| - 1]) && IsExtension(extension)
    ensures var t := Strip(digits + (extension + CRLF));
      digits <= t && (t[|digits|..] == [] || t[|digits|..][0] == SEMICOLON)
  {
    var s, n := digits + (extension + CRLF), |digits|;
    assert s[0] == digits[0] && StripLeft(s) == s && s[..n] == digits && s[n - 1] == digits[n - 1];
    StripsTo(s, n);
    if extension == [] {
      var one := digits + [CR];
      assert s == one + [LF] && s[..|s| - 1] == one && one[..|one| - 1] == digits;
      assert StripRight(s) == StripRight(one) == StripRight(digits);
    } else {
      assert s[n] == SEMICOLON;
      StripsTo(s, n + 1);
    }
  }

  lemma SpelledInt(digits: seq<byte>, n: nat)
    requires Spells(digits, n)
    ensures ParseInt16(digits) == Some(n)
  {
    SpelledDigits(digits, n);
    assert [] + (([] + ([] + digits)) + []) == digits;
    assert IsInt(digits, n, [], [], [], digits, []);
    IntIsRead(digits, n, [], [], [], digits, []);
  }

  /** The size a chunk header announces. */
  function SizeOf(line: seq<byte>): Option<int> {
    ParseInt16(BeforeSemicolon(Strip(line)))
  }

  /** Nothing else is read. */
  lemma ReadIsInt(s: seq<byte>, v: int)
    requires ParseInt16(s) == Some(v)
    ensures exists before, sign, prefix, digits, after :: IsInt(s, v, before, sign, prefix, digits, after)
  {
    var before := LeftBlanks(s);
    var after := RightBlanks(StripLeft(s));
    var t := Strip(s);
    var sign: seq<byte> := if t != [] && (t[0] == 43 || t[0] == 45) then [t[0]] else [];
    var u := t[|sign|..];
    var prefix, digits := PrefixOf(u);
    DigitsExactly(digits, if sign == [45] then 0 - v else v);
    assert t == sign + u;
    assert IsInt(s, v, before, sign, prefix, digits, after);
  }

  lemma PrefixOf(u: seq<byte>) returns (prefix: seq<byte>, digits: seq<byte>)
    ensures u == prefix + digits && ParseUnsigned(u) == ParseDigits(digits)
    ensures prefix in {[], [48, 88], [48, 120], [48, 88, UNDERSCORE], [48, 120, UNDERSCORE]}
  {
    var prefixed := |u| >= 2 && u[0] == 48 && (u[1] == 88 || u[1] == 120);
    var k := if !prefixed then 0 else if |u| >= 3 && u[2] == UNDERSCORE then 3 else 2;
    prefix, digits := u[..k], u[k..];
    assert k == 2 ==> prefix == [u[0], u[1]];
    assert k == 3 ==> prefix == [u[0], u[1], u[2]];
  }

  /** Exactly the integers of base 16 are read. */
  lemma ParsesExactly(s: seq<byte>, v: int)
    ensures ParseInt16(s) == Some(v) <==>
      exists before, sign, prefix, digits, after :: IsInt(s, v, before, sign, prefix, digits, after)
  {
    if ParseInt16(s) == Some(v) {
      ReadIsInt(s, v);
    }
    forall before, sign, prefix, digits, after | IsInt(s, v, before, sign, prefix, digits, after)
      ensures ParseInt16(s) == Some(v)
    {
      IntIsRead(s, v, before, sign, prefix, digits, after);
    }
  }

  /** Every size line is read as what it spells: in either case, with leading zeros, with and without an extension. */
  lemma SizeLineIsRead(line: seq<byte>, n: nat)
    requires IsSizeLine(line, n)
    ensures SizeOf(line) == Some(n)
  {
    var digits, extension :| HasParts(line, n, digits, extension);
    SpelledDigits(digits, n);
    assert IsHexDigit(digits[0]) && IsHexDigit(digits[|digits| - 1]);
    assert SEMICOLON !in digits;
    StripLine(digits, extension);
    var t := Strip(line);
    assert t == digits + t[|digits|..];
    NoSemicolon(digits, t[|digits|..]);
    SpelledInt(digits, n);
  }

  /** It is one line. */
  lemma SizeLineEnds(line: seq<byte>, n: nat)
    requires IsSizeLine(line, n)
    ensures |line| >= 2 && line[|line| - 1] == LF && LF !in line[..|line| - 1]
  {
    var digits, extension :| HasParts(line, n, digits, extension);
    SpelledDigits(digits, n);
    assert LF !in digits;
    assert line[..|line| - 1] == digits + (extension + [CR]);
  }

  /** What the encoder writes is a size line. */
  lemma HexIsSizeLine(n: nat)
    ensures IsSizeLine(Hex(n) + CRLF, n)
  {
    HexSpells(n);
    assert [] + CRLF == CRLF;
    assert HasParts(Hex(n) + CRLF, n, Hex(n), []);
  }

  // ---- reading from the stream ----

  /** Behind the first line end from position k on, or the end of the stream. */
  function LineEnd(s: seq<byte>, k: nat): (end: nat)
    requires k <= |s|
    ensures k <= end <= |s| && (k < |s| ==> k < end)
    ensures forall i :: k <= i < end - 1 ==> s[i] != LF
    ensures k < end < |s| ==> s[end - 1] == LF
    decreases |s| - k
  {
    if k == |s| then k else if s[k] == LF then k + 1 else LineEnd(s, k + 1)
  }

  /** rfile.readline() */
  function ReadLine(s: seq<byte>): (line: seq<byte>)
    ensures line <= s && (line == [] <==> s == [])
    ensures line != [] ==> LF !in line[..|line| - 1]
  {
    s[..LineEnd(s, 0)]
  }

  lemma ReadLineOf(line: seq<byte>, rest: seq<byte>)
    requires line != [] && line[|line| - 1] == LF && LF !in line[..|line| - 1]
    ensures ReadLine(line + rest) == line
  {
    var s, n := line + rest, |line| - 1;
    var end := LineEnd(s, 0);
    assert s[n] == LF;
    assert forall i :: 0 <= i < n ==> s[i] == line[..n][i];
  }

  // ---- the encoder ----

  /** The size line of a chunk. */
  function Header(chunk: seq<byte>): seq<byte> {
    Hex(|chunk|) + CRLF
  }

  /** What write puts on the wire for one chunk. */
  function Frame(chunk: seq<byte>): seq<byte> {
    if chunk == [] then [] else Header(chunk) + chunk + CRLF
  }

  ghost function Frames(chunks: seq<seq<byte>>): seq<byte> {
    if chunks == [] then [] else Frame(chunks[0]) + Frames(chunks[1..])
  }

  /** A chunk on the wire: its size line and its data. */
  datatype Chunk = Chunk(line: seq<byte>, data: seq<byte>)

  /** The line of the last chunk, and what follows it. */
  datatype Ending = Ending(line: seq<byte>, tail: seq<byte>)

  /** What the encoder makes of the nonempty chunks. */
  ghost function Coded(chunks: seq<seq<byte>>): seq<Chunk> {
    if chunks == [] then []
    else (if chunks[0] == [] then [] else [Chunk(Header(chunks[0]), chunks[0])]) + Coded(chunks[1..])
  }

  /** These chunks, then the last chunk, then the tail. */
  ghost function Wire(chunks: seq<Chunk>, end: Ending): seq<byte> {
    if chunks == [] then end.line + end.tail else chunks[0].line + AfterSize(chunks[0].data, Wire(chunks[1..], end))
  }

  /** The data of the chunks. */
  ghost function DataOf(chunks: seq<Chunk>): seq<byte> {
    if chunks == [] then [] else chunks[0].data + DataOf(chunks[1..])
  }

  ghost function AfterSize(chunk: seq<byte>, rest: seq<byte>): seq<byte> {
    chunk + (CRLF + rest)
  }

  /** The part of HTTPRequest that writes the body. */
  class Response {
    var wfile: seq<byte>
    const chunkedWrite: bool

    constructor (wfile: seq<byte>, chunkedWrite: bool)
      ensures this.wfile == wfile && this.chunkedWrite == chunkedWrite
    {
      this.wfile, this.chunkedWrite := wfile, chunkedWrite;
    }

    method Write(chunk: seq<byte>)
      modifies this
      ensures wfile == old(wfile) + if chunkedWrite then Frame(chunk) else chunk
    {
      if chunkedWrite && chunk != [] {
        wfile := wfile + (Hex(|chunk|) + CRLF + chunk + CRLF);
      } else {
        wfile := wfile + chunk;
      }
    }

    /** The end of respond. */
    method Finish()
      modifies this
      ensures wfile == old(wfile) + if chunkedWrite then LAST_CHUNK + CRLF else []
    {
      if chunkedWrite {
        wfile := wfile + [48, 13, 10, 13, 10];
      }
    }

    /** A whole body, written piece by piece. */
    method WriteAll(chunks: seq<seq<byte>>)
      requires chunkedWrite
      modifies this
      ensures wfile == old(wfile) + Wire(Coded(chunks), Ending(LAST_CHUNK, CRLF))
    {
      ghost var before := wfile;
      assert before + Frames([]) == before;
      for i := 0 to |chunks|
        invariant wfile == before + Frames(chunks[..i])
      {
        Write(chunks[i]);
        OneMoreFrame(before, chunks, i);
      }
      assert chunks[..|chunks|] == chunks;
      Finish();
      assert wfile == before + (Frames(chunks) + (LAST_CHUNK + CRLF));
      FramesAreWire(chunks, CRLF);
    }
  }

  lemma OneMoreFrame(before: seq<byte>, chunks: seq<seq<byte>>, i: nat)
    requires i < |chunks|
    ensures before + Frames(chunks[..i]) + Frame(chunks[i]) == before + Frames(chunks[..i + 1])
  {
    FramesAppend(chunks[..i], chunks[i]);
    assert chunks[..i + 1] == chunks[..i] + [chunks[i]];
  }

  lemma FramesFirst(c: seq<byte>, chunks: seq<seq<byte>>)
    ensures Frames([c] + chunks) == Frame(c) + Frames(chunks)
  {
    assert ([c] + chunks)[1..] == chunks;
  }

  lemma {:induction false} FramesAppend(chunks: seq<seq<byte>>, c: seq<byte>)
    ensures Frames(chunks + [c]) == Frames(chunks) + Frame(c)
  {
    if chunks == [] {
      FramesFirst(c, []);
      assert [] + [c] == [c] + [] && Frame(c) + [] == [] + Frame(c);
    } else {
      var first, rest := chunks[0], chunks[1..];
      FramesAppend(rest, c);
      FramesFirst(first, rest);
      FramesFirst(first, rest + [c]);
      assert chunks == [first] + rest && chunks + [c] == [first] + (rest + [c]);
      Associate(Frame(first), Frames(rest), Frame(c));
    }
  }

  lemma FrameInFront(c: seq<byte>, rest: seq<byte>)
    requires c != []
    ensures Frame(c) + rest == Header(c) + AfterSize(c, rest)
  {
  }

  /** Empty writes leave no trace. */
  lemma {:induction false} FramesAreWire(chunks: seq<seq<byte>>, tail: seq<byte>)
    ensures Frames(chunks) + (LAST_CHUNK + tail) == Wire(Coded(chunks), Ending(LAST_CHUNK, tail))
  {
    if chunks != [] {
      var later := Frames(chunks[1..]) + (LAST_CHUNK + tail);
      FramesAreWire(chunks[1..], tail);
      Associate(Frame(chunks[0]), Frames(chunks[1..]), LAST_CHUNK + tail);
      if chunks[0] == [] {
        assert Frame(chunks[0]) + later == later;
        assert Coded(chunks) == Coded(chunks[1..]);
      } else {
        FrameInFront(chunks[0], later);
        assert Coded(chunks)[1..] == Coded(chunks[1..]);
      }
    }
  }

  /** What is coded is well-formed and holds what was written. */
  lemma {:induction false} CodedChunks(chunks: seq<seq<byte>>)
    ensures DataOf(Coded(chunks)) == Concat(chunks) && AreChunks(Coded(chunks))
  {
    if chunks != [] {
      CodedChunks(chunks[1..]);
      if chunks[0] == [] {
        assert Coded(chunks) == Coded(chunks[1..]) && [] + Concat(chunks[1..]) == Concat(chunks[1..]);
      } else {
        HexIsSizeLine(|chunks[0]|);
        assert Coded(chunks)[1..] == Coded(chunks[1..]);
      }
    }
  }

  /** Nonempty data, each behind a line with its size. */
  ghost predicate AreChunks(chunks: seq<Chunk>) {
    forall i :: 0 <= i < |chunks| ==> IsChunk(chunks[i])
  }

  ghost predicate IsChunk(c: Chunk) {
    c.data != [] && IsSizeLine(c.line, |c.data|)
  }

  // ---- the decoder ----

  datatype Outcome = Fine | Raised(error: string)

  /** What ChunkedRFile holds: the unread stream, the count of bytes read, the buffer, and whether the
      last chunk was seen. */
  datatype Stream = Stream(rfile: seq<byte>, bytesRead: nat, buffer: seq<byte>, closed: bool)

  predicate OverLimit(count: nat, maxlen: nat) {
    maxlen > 0 && count > maxlen
  }

  /** rfile.read(n), and what it leaves. */
  function ReadUpTo(s: seq<byte>, n: nat): (r: (seq<byte>, seq<byte>))
    ensures r.0 + r.1 == s && |r.0| <= n
    ensures |r.0| < n ==> r.1 == []
  {
    if n <= |s| then (s[..n], s[n..]) else (s, [])
  }

  /** Read a chunk of known size, and the line end that must follow it. */
  function TakeChunk(s: Stream, size: nat): (Stream, Outcome) {
    var (chunk, after) := ReadUpTo(s.rfile, size);
    var (crlf, rest) := ReadUpTo(after, 2);
    (Stream(rest, s.bytesRead + |chunk|, s.buffer + chunk, s.closed),
     if crlf == CRLF then Fine else Raised("Bad chunked transfer coding"))
  }

  lemma NothingHasNoSize()
    ensures SizeOf([]).None?
  {
  }

  /** What becomes of a chunk header announcing this size. */
  function HeaderRead(s: Stream, size: Option<int>, maxlen: nat): (Stream, Outcome) {
    if OverLimit(s.bytesRead, maxlen) then (s, Raised("MaxSizeExceeded"))
    else if size.None? then (s, Raised("Bad chunked transfer size"))
    else if size.value <= 0 then (s.(closed := true), Fine)
    else if OverLimit(s.bytesRead + size.value, maxlen) then (s, Raised("Request Entity Too Large"))
    else TakeChunk(s, size.value)
  }

  function AfterLine(s: Stream): Stream {
    var line := ReadLine(s.rfile);
    s.(rfile := s.rfile[|line|..], bytesRead := s.bytesRead + |line|)
  }

  /** _fetch: read the next chunk into the buffer. */
  function Fetched(s: Stream, maxlen: nat): (r: (Stream, Outcome)) {
    if s.closed then (s, Fine) else HeaderRead(AfterLine(s), SizeOf(ReadLine(s.rfile)), maxlen)
  }

  /** The stream still holds these chunks, then the last chunk, then the tail. */
  ghost predicate Carries(s: Stream, chunks: seq<Chunk>, end: Ending) {
    && AreChunks(chunks) && IsSizeLine(end.line, 0)
    && if s.closed then chunks == [] && s.rfile == end.tail else s.rfile == Wire(chunks, end)
  }

  /** What is left to deliver. */
  ghost function Pending(s: Stream, chunks: seq<Chunk>): seq<byte> {
    s.buffer + DataOf(chunks)
  }

  /** The bytes that count for the limit: size lines and data. */
  ghost function Cost(chunks: seq<Chunk>, end: Ending): nat {
    if chunks == [] then |end.line| else |chunks[0].line| + |chunks[0].data| + Cost(chunks[1..], end)
  }

  /** The count of bytes once the last chunk is seen. */
  ghost function Total(s: Stream, chunks: seq<Chunk>, end: Ending): nat {
    s.bytesRead + if s.closed then 0 else Cost(chunks, end)
  }

  /** The stream carries the chunks, and so many bytes count for the limit in the end. */
  ghost predicate WellFormed(s: Stream, chunks: seq<Chunk>, end: Ending, total: nat) {
    Carries(s, chunks, end) && Total(s, chunks, end) == total
  }

  lemma TakeChunkOf(s: Stream, c: seq<byte>, rest: seq<byte>)
    requires s.rfile == AfterSize(c, rest)
    ensures TakeChunk(s, |c|) == (Stream(rest, s.bytesRead + |c|, s.buffer + c, s.closed), Fine)
  {
    assert ReadUpTo(s.rfile, |c|) == (c, CRLF + rest);
    assert ReadUpTo(CRLF + rest, 2) == (CRLF, rest);
  }

  lemma HeaderOf(s: Stream, line: seq<byte>, rest: seq<byte>, size: int, maxlen: nat)
    requires !s.closed && s.rfile == line + rest && ReadLine(s.rfile) == line && SizeOf(line) == Some(size)
    ensures Fetched(s, maxlen) == HeaderRead(Stream(rest, s.bytesRead + |line|, s.buffer, false), Some(size), maxlen)
  {
    assert s.rfile[|line|..] == rest;
  }

  lemma AfterHeader(s: Stream, line: seq<byte>, c: seq<byte>, rest: seq<byte>, maxlen: nat)
    requires !s.closed && c != [] && s.rfile == line + AfterSize(c, rest)
    requires ReadLine(s.rfile) == line && SizeOf(line) == Some(|c|)
    ensures var count := s.bytesRead + |line| + |c|;
      if OverLimit(count, maxlen) then Fetched(s, maxlen).1.Raised?
      else Fetched(s, maxlen) == (Stream(rest, count, s.buffer + c, false), Fine)
  {
    HeaderOf(s, line, AfterSize(c, rest), |c|, maxlen);
    TakeChunkOf(Stream(AfterSize(c, rest), s.bytesRead + |line|, s.buffer, false), c, rest);
  }

  lemma SizeLineComesFirst(line: seq<byte>, n: nat, rest: seq<byte>)
    requires IsSizeLine(line, n)
    ensures ReadLine(line + rest) == line && SizeOf(line) == Some(n)
  {
    SizeLineEnds(line, n);
    SizeLineIsRead(line, n);
    ReadLineOf(line, rest);
  }

  lemma ChunkComesFirst(c: Chunk, rest: seq<byte>)
    requires IsChunk(c)
    ensures ReadLine(c.line + rest) == c.line && SizeOf(c.line) == Some(|c.data|)
  {
    SizeLineComesFirst(c.line, |c.data|, rest);
  }

  /** Fetching from a stream that goes on with a chunk. */
  lemma FetchChunk(s: Stream, c: Chunk, rest: seq<byte>, maxlen: nat)
    requires !s.closed && IsChunk(c) && s.rfile == c.line + AfterSize(c.data, rest)
    ensures var count := s.bytesRead + |c.line| + |c.data|;
      if OverLimit(count, maxlen) then Fetched(s, maxlen).1.Raised?
      else Fetched(s, maxlen) == (Stream(rest, count, s.buffer + c.data, false), Fine)
  {
    ChunkComesFirst(c, AfterSize(c.data, rest));
    AfterHeader(s, c.line, c.data, rest, maxlen);
  }

  /** Fetching the last chunk. */
  lemma FetchLast(s: Stream, end: Ending, maxlen: nat)
    requires !s.closed && Carries(s, [], end)
    ensures var t := Stream(end.tail, s.bytesRead + |end.line|, s.buffer, true);
      if OverLimit(t.bytesRead, maxlen) then Fetched(s, maxlen).1.Raised? else Fetched(s, maxlen) == (t, Fine)
  {
    SizeLineComesFirst(end.line, 0, end.tail);
    HeaderOf(s, end.line, end.tail, 0, maxlen);
  }

  /** rest goes on with n bytes and a line end. */
  ghost predicate HoldsChunk(rest: seq<byte>, n: nat) {
    exists data, after :: |data| == n && rest == AfterSize(data, after)
  }

  lemma ChunkTakenExactly(s: Stream, n: nat)
    ensures TakeChunk(s, n).1.Fine? <==> HoldsChunk(s.rfile, n)
  {
    if TakeChunk(s, n).1.Fine? {
      var (data, rest) := ReadUpTo(s.rfile, n);
      var (crlf, after) := ReadUpTo(rest, 2);
      assert s.rfile == AfterSize(data, after);
    }
    forall data, after | |data| == n && s.rfile == AfterSize(data, after) ensures TakeChunk(s, n).1.Fine? {
      TakeChunkOf(s, data, after);
    }
  }

  /** On any stream: a fetch succeeds exactly if the size line and the data it announces are within the limit, the size
      is a number, and the data is there with its line end; nothing is announced by a size that is not positive, which
      closes the reader. */
  lemma FetchesExactly(s: Stream, maxlen: nat)
    requires !s.closed
    ensures var line := ReadLine(s.rfile);
      var rest, count, size := s.rfile[|line|..], s.bytesRead + |line|, SizeOf(line);
      var (t, out) := Fetched(s, maxlen);
      && (out.Fine? <==>
        && (maxlen == 0 || count <= maxlen) && size.Some?
        && (size.value <= 0 || ((maxlen == 0 || count + size.value <= maxlen) && HoldsChunk(rest, size.value))))
      && (out.Fine? && size.value <= 0 ==> t == Stream(rest, count, s.buffer, true))
      && (out.Fine? && size.value > 0 ==> !t.closed && |t.buffer| == |s.buffer| + size.value)
  {
    var line := ReadLine(s.rfile);
    var size := SizeOf(line);
    if size.Some? && size.value > 0 {
      ChunkTakenExactly(AfterLine(s), size.value);
      if HoldsChunk(AfterLine(s).rfile, size.value) {
        var data, after :| |data| == size.value && AfterLine(s).rfile == AfterSize(data, after);
        TakeChunkOf(AfterLine(s), data, after);
      }
    }
  }

  lemma MoveToBuffer(s: Stream, chunks: seq<Chunk>, end: Ending, total: nat)
    requires WellFormed(s, chunks, end, total) && s.buffer == [] && !s.closed && chunks != []
    ensures var c := chunks[0];
      var t := Stream(Wire(chunks[1..], end), s.bytesRead + |c.line| + |c.data|, s.buffer + c.data, false);
      && IsChunk(c) && t.buffer != [] && t.bytesRead <= total
      && WellFormed(t, chunks[1..], end, total) && Pending(t, chunks[1..]) == Pending(s, chunks)
  {
    assert s.buffer + chunks[0].data == chunks[0].data;
    assert [] + DataOf(chunks) == DataOf(chunks);
  }

  /** With an empty buffer, a fetch moves the next chunk into it, or the limit stops it. */
  lemma FetchKeeps(s: Stream, chunks: seq<Chunk>, end: Ending, total: nat, maxlen: nat)
    requires WellFormed(s, chunks, end, total) && s.buffer == []
    ensures !OverLimit(total, maxlen) ==> Fetched(s, maxlen).1.Fine?
    ensures var (t, out) := Fetched(s, maxlen); var left := if chunks == [] then [] else chunks[1..];
      out.Fine? ==>
        && WellFormed(t, left, end, total) && Pending(t, left) == Pending(s, chunks)
        && (t.buffer == [] ==> t.closed && left == [])
  {
    if !s.closed {
      if chunks == [] {
        FetchLast(s, end, maxlen);
      } else {
        MoveToBuffer(s, chunks, end, total);
        FetchChunk(s, chunks[0], Wire(chunks[1..], end), maxlen);
      }
    }
  }

  predicate EndsInCrlf(line: seq<byte>) {
    |line| >= 2 && line[|line| - 2..] == CRLF
  }

  /** One header line of a trailer. */
  predicate IsTrailer(line: seq<byte>) {
    |line| > 2 && line[|line| - 2..] == CRLF && LF !in line[..|line| - 1]
  }

  ghost predicate AreTrailers(lines: seq<seq<byte>>) {
    forall i :: 0 <= i < |lines| ==> IsTrailer(lines[i])
  }

  /** The stream holds these lines, a blank line, and what follows. */
  ghost predicate CarriesTrailers(rfile: seq<byte>, lines: seq<seq<byte>>, next: seq<byte>) {
    AreTrailers(lines) && rfile == Concat(lines) + (CRLF + next)
  }

  lemma NextTrailer(rfile: seq<byte>, lines: seq<seq<byte>>, next: seq<byte>)
    requires CarriesTrailers(rfile, lines, next)
    ensures var line := ReadLine(rfile);
      if lines == [] then line == CRLF && rfile[|line|..] == next
      else line == lines[0] && CarriesTrailers(rfile[|line|..], lines[1..], next)
  {
    if lines == [] {
      assert rfile == CRLF + next;
      ReadLineOf(CRLF, next);
    } else {
      var rest := Concat(lines[1..]) + (CRLF + next);
      Associate(lines[0], Concat(lines[1..]), CRLF + next);
      assert lines[0][|lines[0]| - 2..][1] == LF;
      ReadLineOf(lines[0], rest);
      assert (lines[0] + rest)[|lines[0]|..] == rest;
    }
  }

  class ChunkedRFile {
    var rfile: seq<byte>
    const maxlen: nat
    var bytesRead: nat
    var buffer: seq<byte>
    var closed: bool
    ghost var delivered: nat

    /** With a limit, delivered and buffered bytes never exceed it, whatever the stream holds. */
    ghost predicate Valid()
      reads this
    {
      delivered + |buffer| <= bytesRead && (maxlen > 0 ==> delivered + |buffer| <= maxlen)
    }

    ghost function View(): Stream
      reads this
    {
      Stream(rfile, bytesRead, buffer, closed)
    }

    constructor (rfile: seq<byte>, maxlen: nat)
      ensures Valid() && this.maxlen == maxlen && delivered == 0 && View() == Stream(rfile, 0, [], false)
    {
      this.rfile, this.maxlen := rfile, maxlen;
      bytesRead, buffer, closed, delivered := 0, [], false, 0;
    }

    method Fetch() returns (out: Outcome)
      requires Valid()
      modifies this
      ensures Valid() && delivered == old(delivered)
      ensures (View(), out) == Fetched(old(View()), maxlen)
      ensures out.Fine? && !closed ==> |rfile| + |buffer| < old(|rfile| + |buffer|) && buffer != []
      ensures |rfile| + |buffer| <= old(|rfile| + |buffer|)
    {
      out := Fine;
      if !closed {
        var line := ReadLine(rfile);
        rfile := rfile[|line|..];
        bytesRead := bytesRead + |line|;
        assert View() == AfterLine(old(View()));
        NothingHasNoSize();
        out := ReadSized(SizeOf(line));
      }
    }

    /** What follows a chunk header announcing this size. */
    method ReadSized(size: Option<int>) returns (out: Outcome)
      requires Valid()
      modifies this
      ensures Valid() && delivered == old(delivered)
      ensures (View(), out) == HeaderRead(old(View()), size, maxlen)
      ensures out.Fine? && !closed ==> buffer != []
      ensures |rfile| + |buffer| <= old(|rfile| + |buffer|)
    {
      if OverLimit(bytesRead, maxlen) {
        out := Raised("MaxSizeExceeded");
      } else if size.None? {
        out := Raised("Bad chunked transfer size");
      } else if size.value <= 0 {
        closed, out := true, Fine;
      } else if OverLimit(bytesRead + size.value, maxlen) {
        out := Raised("Request Entity Too Large");
      } else {
        out := ReadData(size.value);
      }
    }

    method ReadData(size: nat) returns (out: Outcome)
      modifies this
      ensures (View(), out) == TakeChunk(old(View()), size) && delivered == old(delivered)
      ensures |rfile| + |buffer| <= old(|rfile| + |buffer|) && closed == old(closed)
      ensures out.Fine? && size > 0 ==> buffer != []
      ensures old(Valid() && !OverLimit(bytesRead + size, maxlen)) ==> Valid()
    {
      var (chunk, after) := ReadUpTo(rfile, size);
      bytesRead := bytesRead + |chunk|;
      buffer := buffer + chunk;
      var (crlf, rest) := ReadUpTo(after, 2);
      rfile := rest;
      if crlf != CRLF {
        return Raised("Bad chunked transfer coding");
      }
      return Fine;
    }

    /** Fetch into the empty buffer. */
    method Fill(ghost chunks: seq<Chunk>, ghost end: Ending, ghost total: nat)
      returns (out: Outcome, ghost left: seq<Chunk>)
      requires Valid() && buffer == []
      modifies this
      ensures Valid() && delivered == old(delivered)
      ensures out.Fine? ==> |rfile| + |buffer| <= old(|rfile|) && (buffer == [] ==> closed)
      ensures WellFormed(old(View()), chunks, end, total) && !OverLimit(total, maxlen) ==> out.Fine?
      ensures WellFormed(old(View()), chunks, end, total) && out.Fine? ==>
        WellFormed(View(), left, end, total) && Pending(View(), left) == Pending(old(View()), chunks)
      ensures WellFormed(old(View()), chunks, end, total) && out.Fine? && buffer == [] ==> left == []
    {
      ghost var before := View();
      left := if chunks == [] then [] else chunks[1..];
      out := Fetch();
      if WellFormed(before, chunks, end, total) {
        FetchKeeps(before, chunks, end, total, maxlen);
      }
    }

    /** Move up to this many bytes out of the buffer; all of them if no number is given. */
    method Take(limit: Option<nat>, ghost left: seq<Chunk>, ghost end: Ending, ghost total: nat)
      returns (taken: seq<byte>)
      requires Valid()
      modifies this`buffer, this`delivered
      ensures Valid() && delivered == old(delivered) + |taken|
      ensures |buffer| <= old(|buffer|) && (old(buffer) != [] && limit != Some(0) ==> |buffer| < old(|buffer|))
      ensures limit.Some? ==> |taken| <= limit.value
      ensures WellFormed(old(View()), left, end, total) ==> WellFormed(View(), left, end, total)
      ensures taken + Pending(View(), left) == Pending(old(View()), left)
    {
      ghost var before := buffer;
      var n := if limit.None? || limit.value > |buffer| then |buffer| else limit.value;
      taken := buffer[..n];
      buffer := buffer[n..];
      delivered := delivered + n;
      assert taken + buffer == before;
      Associate(taken, buffer, DataOf(left));
    }

    /** read(size). On a well-formed body it returns the next slice of what was written, or the limit stops it; on any
        body at all a short answer means that the last chunk was seen. */
    method Read(size: Option<int>, ghost chunks: seq<Chunk>, ghost end: Ending, ghost total: nat)
      returns (data: seq<byte>, out: Outcome, ghost left: seq<Chunk>)
      requires Valid()
      modifies this
      ensures Valid()
      ensures out.Fine? ==> delivered == old(delivered) + |data|
      ensures size.Some? && size.value <= 0 ==> data == [] && out.Fine? && View() == old(View())
      ensures out.Fine? && (size.None? || |data| < size.value) ==> closed && buffer == []
      ensures size.Some? && size.value > 0 ==> |data| <= size.value
      ensures WellFormed(old(View()), chunks, end, total) && !OverLimit(total, maxlen) ==> out.Fine?
      ensures WellFormed(old(View()), chunks, end, total) && out.Fine? ==>
        && WellFormed(View(), left, end, total)
        && data + Pending(View(), left) == Pending(old(View()), chunks)
        && (size.None? || |data| < size.value ==> left == [] && data == Pending(old(View()), chunks))
    {
      data, out, left := [], Fine, chunks;
      if size == Some(0) {
        return;
      }
      ghost var wellFormed := WellFormed(View(), chunks, end, total);
      while true
        invariant Valid() && out.Fine? && delivered == old(delivered) + |data|
        invariant size.Some? && size.value > 0 ==> |data| <= size.value
        invariant size.Some? && size.value < 0 ==> data == [] && View() == old(View())
        invariant wellFormed ==> WellFormed(View(), left, end, total)
        invariant wellFormed ==> data + Pending(View(), left) == Pending(old(View()), chunks)
        decreases |rfile| + |buffer|
      {
        if size.Some? && |data| >= size.value {
          return;
        }
        if buffer == [] {
          out, left := Fill(left, end, total);
          if out.Raised? || buffer == [] {
            assert data + [] == data;
            return;
          }
        }
        var taken := Take(if size.Some? then Some(size.value - |data|) else None, left, end, total);
        Associate(data, taken, Pending(View(), left));
        data := data + taken;
      }
    }

    /** The next line of the trailer; the blank one ends it. */
    method ReadTrailerLine() returns (line: seq<byte>, out: Outcome)
      requires Valid()
      modifies `rfile, `bytesRead
      ensures Valid() && bytesRead == old(bytesRead) + |line|
      ensures line == ReadLine(old(rfile)) && rfile == old(rfile)[|line|..]
      ensures out.Fine? <==> line != [] && !OverLimit(bytesRead, maxlen) && EndsInCrlf(line)
      ensures out == Raised("Illegal end of headers.") <==> line == []
      ensures out == Raised("Request Entity Too Large") <==> line != [] && OverLimit(bytesRead, maxlen)
      ensures out.Raised? && line != [] && !OverLimit(bytesRead, maxlen) ==>
        out == Raised("HTTP requires CRLF terminators")
    {
      line, out := ReadLine(rfile), Fine;
      if line == [] {
        out := Raised("Illegal end of headers.");
      } else {
        rfile := rfile[|line|..];
        bytesRead := bytesRead + |line|;
        if OverLimit(bytesRead, maxlen) {
          out := Raised("Request Entity Too Large");
        } else if line != CRLF && !EndsInCrlf(line) {
          out := Raised("HTTP requires CRLF terminators");
        }
      }
    }

    /** One pass of the loop of read_trailer_lines. */
    method YieldTrailerLine(ghost start: seq<byte>, lines: seq<seq<byte>>, ghost left: seq<seq<byte>>,
                            ghost expected: Option<seq<seq<byte>>>, ghost next: seq<byte>, ghost total: nat)
      returns (line: seq<byte>, out: Outcome)
      requires Valid() && Gathered(start, lines, rfile)
      requires expected.Some? ==> Expecting(rfile, bytesRead, lines, left, expected.value, next, total)
      modifies `rfile, `bytesRead
      ensures Valid() && |rfile| <= old(|rfile|)
      ensures out.Fine? && line != CRLF ==> Gathered(start, lines + [line], rfile) && |rfile| < old(|rfile|)
      ensures out.Fine? && line != CRLF && expected.Some? ==>
        left != [] && Expecting(rfile, bytesRead, lines + [line], left[1..], expected.value, next, total)
      ensures out.Raised? || line == CRLF ==>
        TrailerRead(start, lines, rfile, bytesRead, out, expected, next, total, maxlen)
    {
      NextLine(start, rfile, bytesRead, lines, left, expected, next, total);
      line, out := ReadTrailerLine();
    }

    /** read_trailer_lines, all that it yields. */
    method ReadTrailerLines(ghost expected: Option<seq<seq<byte>>>, ghost next: seq<byte>)
      returns (lines: seq<seq<byte>>, out: Outcome)
      requires Valid() && (expected.Some? ==> CarriesTrailers(rfile, expected.value, next))
      modifies `rfile, `bytesRead
      ensures Valid()
      ensures !old(closed) ==>
        out == Raised("Cannot read trailers until the request body has been read.") && lines == []
        && View() == old(View())
      ensures old(closed) ==>
        TrailerRead(old(rfile), lines, rfile, bytesRead, out, expected, next,
                    old(bytesRead) + (if expected.Some? then |Concat(expected.value)| else 0) + 2, maxlen)
    {
      lines, out := [], Fine;
      if !closed {
        return [], Raised("Cannot read trailers until the request body has been read.");
      }
      ghost var start, total := rfile, bytesRead + (if expected.Some? then |Concat(expected.value)| else 0) + 2;
      ghost var left := if expected.Some? then expected.value else [];
      assert rfile == Concat([]) + rfile && [] + left == left;
      while true
        invariant Valid() && Gathered(start, lines, rfile)
        invariant expected.Some? ==> Expecting(rfile, bytesRead, lines, left, expected.value, next, total)
        decreases |rfile|
      {
        var line;
        line, out := YieldTrailerLine(start, lines, left, expected, next, total);
        if out.Raised? || line == CRLF {
          return;
        }
        lines := lines + [line];
        left := if expected.Some? then left[1..] else left;
      }
    }
  }

  /** What is read without an error is a trailer; and the expected one is read, unless the limit does not admit so many
      bytes in total. */
  ghost predicate TrailerRead(start: seq<byte>, lines: seq<seq<byte>>, rest: seq<byte>, bytesRead: nat, out: Outcome,
                              expected: Option<seq<seq<byte>>>, next: seq<byte>, total: nat, maxlen: nat)
  {
    && (out.Fine? ==> CarriesTrailers(start, lines, rest) && !OverLimit(bytesRead, maxlen))
    && (expected.Some? ==>
      if OverLimit(total, maxlen) then out.Raised? else out.Fine? && lines == expected.value && rest == next)
  }

  /** The lines read so far are those in front of the rest. */
  ghost predicate Gathered(start: seq<byte>, lines: seq<seq<byte>>, rest: seq<byte>) {
    AreTrailers(lines) && start == Concat(lines) + rest
  }

  lemma TakeLine(start: seq<byte>, lines: seq<seq<byte>>, before: seq<byte>)
    requires Gathered(start, lines, before)
    ensures var line := ReadLine(before);
      && (line == CRLF ==> CarriesTrailers(start, lines, before[|line|..]))
      && (line != CRLF && EndsInCrlf(line) ==> Gathered(start, lines + [line], before[|line|..]))
  {
    var line := ReadLine(before);
    var rest := before[|line|..];
    assert before == line + rest;
    ConcatAppend(lines, line);
    Associate(Concat(lines), line, rest);
  }

  /** Some of the expected lines are read, the others and the blank line are yet to come. */
  ghost predicate Expecting(rfile: seq<byte>, bytesRead: nat, lines: seq<seq<byte>>, left: seq<seq<byte>>,
                            expected: seq<seq<byte>>, next: seq<byte>, total: nat)
  {
    CarriesTrailers(rfile, left, next) && lines + left == expected && bytesRead + |Concat(left)| + 2 == total
  }

  lemma ExpectNext(rfile: seq<byte>, bytesRead: nat, lines: seq<seq<byte>>, left: seq<seq<byte>>,
                   expected: seq<seq<byte>>, next: seq<byte>, total: nat)
    requires Expecting(rfile, bytesRead, lines, left, expected, next, total)
    ensures var line := ReadLine(rfile);
      && line != [] && EndsInCrlf(line) && bytesRead + |line| <= total
      && if line == CRLF then rfile[|line|..] == next && lines == expected && bytesRead + |line| == total
         else
           && left != []
           && Expecting(rfile[|line|..], bytesRead + |line|, lines + [line], left[1..], expected, next, total)
  {
    NextTrailer(rfile, left, next);
    if left == [] {
      assert lines + [] == lines;
    } else {
      OneLineMore(lines, left);
    }
  }

  lemma ExpectSome(rfile: seq<byte>, bytesRead: nat, lines: seq<seq<byte>>, left: seq<seq<byte>>,
                   expected: Option<seq<seq<byte>>>, next: seq<byte>, total: nat)
    requires expected.Some? ==> Expecting(rfile, bytesRead, lines, left, expected.value, next, total)
    ensures var line := ReadLine(rfile);
      expected.Some? ==>
        && line != [] && EndsInCrlf(line) && bytesRead + |line| <= total
        && if line == CRLF then
          rfile[|line|..] == next && lines == expected.value && bytesRead + |line| == total
        else
          && left != []
          && Expecting(rfile[|line|..], bytesRead + |line|, lines + [line], left[1..], expected.value, next, total)
  {
    if expected.Some? { ExpectNext(rfile, bytesRead, lines, left, expected.value, next, total); }
  }

  lemma NextLine(start: seq<byte>, rfile: seq<byte>, bytesRead: nat, lines: seq<seq<byte>>, left: seq<seq<byte>>,
                 expected: Option<seq<seq<byte>>>, next: seq<byte>, total: nat)
    requires Gathered(start, lines, rfile)
    requires expected.Some? ==> Expecting(rfile, bytesRead, lines, left, expected.value, next, total)
    ensures var line := ReadLine(rfile); var rest := rfile[|line|..];
      && (line == CRLF ==> CarriesTrailers(start, lines, rest))
      && (line != CRLF && EndsInCrlf(line) ==> Gathered(start, lines + [line], rest))
      && (expected.Some? ==> line != [] && EndsInCrlf(line) && bytesRead + |line| <= total)
      && (expected.Some? && line == CRLF ==> rest == next && lines == expected.value && bytesRead + |line| == total)
      && (expected.Some? && line != CRLF ==>
        left != [] && Expecting(rest, bytesRead + |line|, lines + [line], left[1..], expected.value, next, total))
  {
    ExpectSome(rfile, bytesRead, lines, left, expected, next, total);
    TakeLine(start, lines, rfile);
  }

  lemma OneLineMore(lines: seq<seq<byte>>, left: seq<seq<byte>>)
    requires left != []
    ensures lines + [left[0]] + left[1..] == lines + left
    ensures |Concat(left)| == |left[0]| + |Concat(left[1..])|
  {
  }

  lemma {:induction false} WireThen(chunks: seq<Chunk>, end: Ending, next: seq<byte>)
    ensures Wire(chunks, end) + next == Wire(chunks, Ending(end.line, end.tail + next))
  {
    if chunks == [] {
      Associate(end.line, end.tail, next);
    } else {
      var c, rest := chunks[0], Wire(chunks[1..], end);
      WireThen(chunks[1..], end, next);
      Associate(c.line, AfterSize(c.data, rest), next);
      Associate(c.data, CRLF + rest, next);
      Associate(CRLF, rest, next);
    }
  }

  /** A piece as asked for: nothing for a size that is not positive, else that many bytes, fewer only at the end. */
  ghost predicate PieceOf(piece: seq<byte>, size: int, atEnd: bool) {
    if size <= 0 then piece == [] else |piece| == size || (|piece| < size && atEnd)
  }

  ghost predicate PiecesOf(pieces: seq<seq<byte>>, sizes: seq<int>, body: seq<byte>) {
    && |pieces| == |sizes|
    && forall i :: 0 <= i < |pieces| ==> PieceOf(pieces[i], sizes[i], Concat(pieces[..i + 1]) == body)
  }

  lemma OnePieceMore(pieces: seq<seq<byte>>, data: seq<byte>, pending: seq<byte>, sizes: seq<int>, i: nat,
                     body: seq<byte>)
    requires i < |sizes| && PiecesOf(pieces, sizes[..i], body) && Concat(pieces) + (data + pending) == body
    requires PieceOf(data, sizes[i], pending == [])
    ensures PiecesOf(pieces + [data], sizes[..i + 1], body) && Concat(pieces + [data]) + pending == body
  {
    ConcatAppend(pieces, data);
    Associate(Concat(pieces), data, pending);
    var all := pieces + [data];
    assert all[..|pieces| + 1] == all;
    forall k | 0 <= k < |all| ensures PieceOf(all[k], sizes[..i + 1][k], Concat(all[..k + 1]) == body) {
      if k < |pieces| {
        assert all[..k + 1] == pieces[..k + 1] && sizes[..i + 1][k] == sizes[..i][k];
      } else {
        assert pending == [] ==> Concat(all) + pending == Concat(all);
      }
    }
  }

  /** Reads of any sizes, one after the other. */
  method ReadPieces(request: ChunkedRFile, sizes: seq<int>, ghost chunks: seq<Chunk>, ghost end: Ending,
                    ghost total: nat)
    returns (pieces: seq<seq<byte>>, out: Outcome, ghost left: seq<Chunk>)
    requires request.Valid()
    modifies request
    ensures request.Valid()
    ensures WellFormed(old(request.View()), chunks, end, total) && !OverLimit(total, request.maxlen) ==> out.Fine?
    ensures WellFormed(old(request.View()), chunks, end, total) && out.Fine? ==>
      && WellFormed(request.View(), left, end, total)
      && PiecesOf(pieces, sizes, Pending(old(request.View()), chunks))
      && Concat(pieces) + Pending(request.View(), left) == Pending(old(request.View()), chunks)
  {
    ghost var body := Pending(request.View(), chunks);
    ghost var wellFormed := WellFormed(request.View(), chunks, end, total);
    pieces, out, left := [], Fine, chunks;
    assert Concat([]) + body == body;
    for i := 0 to |sizes|
      invariant request.Valid() && out.Fine?
      invariant wellFormed ==> WellFormed(request.View(), left, end, total)
      invariant wellFormed ==> PiecesOf(pieces, sizes[..i], body)
      invariant wellFormed ==> Concat(pieces) + Pending(request.View(), left) == body
    {
      var data;
      data, out, left := request.Read(Some(sizes[i]), left, end, total);
      if out.Raised? {
        return;
      }
      if wellFormed {
        OnePieceMore(pieces, data, Pending(request.View(), left), sizes, i, body);
      }
      pieces := pieces + [data];
    }
    assert sizes[..|sizes|] == sizes;
  }

  lemma StartOfBody(chunks: seq<seq<byte>>, next: seq<byte>)
    ensures var end := Ending(LAST_CHUNK, CRLF + next);
      var s := Stream(Wire(Coded(chunks), Ending(LAST_CHUNK, CRLF)) + next, 0, [], false);
      && WellFormed(s, Coded(chunks), end, Cost(Coded(chunks), end))
      && Pending(s, Coded(chunks)) == Concat(chunks)
  {
    CodedChunks(chunks);
    HexIsSizeLine(0);
    assert LAST_CHUNK == Hex(0) + CRLF;
    WireThen(Coded(chunks), Ending(LAST_CHUNK, CRLF), next);
    assert [] + Concat(chunks) == Concat(chunks);
  }

  lemma EndOfBody(s: Stream, line: seq<byte>, next: seq<byte>, total: nat)
    requires WellFormed(s, [], Ending(line, CRLF + next), total) && s.closed
    ensures s.bytesRead == total && CarriesTrailers(s.rfile, [], next)
  {
    assert Concat([]) + (CRLF + next) == CRLF + next;
  }

  /** The body and its blank line come back if and only if the limit, if there is one, admits their size lines and data
      and the blank line. Then everything written comes back, in consecutive pieces of the sizes asked for, and the
      trailer reader consumes exactly the rest of the body. */
  method Exchange(chunks: seq<seq<byte>>, next: seq<byte>, sizes: seq<int>, maxlen: nat)
    returns (pieces: seq<seq<byte>>, rest: seq<byte>, out: Outcome, left: seq<byte>)
    ensures out.Fine? <==> maxlen == 0 || Cost(Coded(chunks), Ending(LAST_CHUNK, CRLF + next)) + 2 <= maxlen
    ensures out.Fine? ==> left == next && PiecesOf(pieces, sizes, Concat(chunks))
    ensures out.Fine? ==> Concat(pieces) + rest == Concat(chunks)
  {
    var response := new Response([], true);
    response.WriteAll(chunks);
    ghost var unread, end := Coded(chunks), Ending(LAST_CHUNK, CRLF + next);
    ghost var total := Cost(unread, end);
    assert [] + Wire(unread, Ending(LAST_CHUNK, CRLF)) == Wire(unread, Ending(LAST_CHUNK, CRLF));
    var request := new ChunkedRFile(response.wfile + next, maxlen);
    StartOfBody(chunks, next);
    rest, left := [], [];
    pieces, out, unread := ReadPieces(request, sizes, unread, end, total);
    if out.Raised? {
      return;
    }
    rest, out, unread := request.Read(None, unread, end, total);
    if out.Raised? {
      return;
    }
    EndOfBody(request.View(), LAST_CHUNK, next, total);
    var lines;
    lines, out := request.ReadTrailerLines(Some([]), next);
    left := request.rfile;
  }
}
