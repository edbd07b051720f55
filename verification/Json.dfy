/**
 * JSON string literals: what the writer emits, what the reader makes of a literal, and
 * exactly which strings survive both.
 */
module Json {
  import opened Bytes
  import Utf8

  const LOWER_B: Byte := 98
  const LOWER_F: Byte := 102
  const LOWER_N: Byte := 110
  const LOWER_R: Byte := 114
  const LOWER_T: Byte := 116
  const LOWER_U: Byte := 117

  // ---- writing ----

  /** The writer's table: the letter after the backslash, or 0 for a byte that needs none. */
  function EscapeLetter(c: Byte): Byte {
    if c == BACKSPACE then LOWER_B
    else if c == HT then LOWER_T
    else if c == LF then LOWER_N
    else if c == FF then LOWER_F
    else if c == CR then LOWER_R
    else if c < 32 then LOWER_U
    else if c == QUOTE || c == BACKSLASH then c
    else 0
  }

  /** `hex_table_`. */
  function HexChar(n: nat): Byte
    requires n < 16
  {
    if n < 10 then 48 + n else 55 + n
  }

  /** `\u` and four digits for two bytes. */
  function UnicodeEscape(a: Byte, b: Byte): (r: seq<Byte>)
    ensures |r| == 6
  {
    [BACKSLASH, LOWER_U, HexChar(a / 16), HexChar(a % 16), HexChar(b / 16), HexChar(b % 16)]
  }

  /**
   * The inside of a literal. It ends at the first NUL, and a control byte without a letter
   * of its own takes its successor into the same `\u` escape.
   */
  function Escaped(s: seq<Byte>): seq<Byte>
    decreases |s|
  {
    if s == [] || s[0] == NUL then []
    else
      var letter := EscapeLetter(s[0]);
      if letter == 0 then [s[0]] + Escaped(s[1..])
      else if letter != LOWER_U then [BACKSLASH, letter] + Escaped(s[1..])
      else if |s| > 1 then UnicodeEscape(s[0], s[1]) + Escaped(s[2..])
      else UnicodeEscape(0, s[0])
  }

  // ---- how each byte is spelled, by literal codes ----

  const HEX_DIGITS := "0123456789ABCDEF"

  /** The escape of two bytes: `\u`, and the hexadecimal digits of the one and then of the other. */
  lemma EscapeIsSpelled(a: Byte, b: Byte)
    ensures UnicodeEscape(a, b) == [92, 117] + HexOf(a) + HexOf(b)
  {
    HexIsSpelled(a / 16);
    HexIsSpelled(a % 16);
    HexIsSpelled(b / 16);
    HexIsSpelled(b % 16);
  }

  function HexOf(c: Byte): seq<Byte> {
    [HEX_DIGITS[c / 16] as int, HEX_DIGITS[c % 16] as int]
  }

  lemma HexIsSpelled(n: nat)
    requires n < 16
    ensures HexChar(n) == HEX_DIGITS[n] as int
  {
  }

  /** What the writer makes of the first byte, and that it goes on with the next. */
  lemma ByteIsSpelled(c: Byte, rest: seq<Byte>)
    ensures var e := Escaped([c] + rest);
            && (c == 0 ==> e == [])
            && (c == 8 ==> e == [92, 98] + Escaped(rest))
            && (c == 9 ==> e == [92, 116] + Escaped(rest))
            && (c == 10 ==> e == [92, 110] + Escaped(rest))
            && (c == 12 ==> e == [92, 102] + Escaped(rest))
            && (c == 13 ==> e == [92, 114] + Escaped(rest))
            && (c == 34 || c == 92 ==> e == [92, c] + Escaped(rest))
            && (c >= 32 && c != 34 && c != 92 ==> e == [c] + Escaped(rest))
            && (0 < c < 32 && c !in {8, 9, 10, 12, 13} ==>
                  e == if rest == [] then [92, 117, 48, 48] + HexOf(c)
                       else [92, 117] + HexOf(c) + HexOf(rest[0]) + Escaped(rest[1..]))
    ensures Escaped([]) == []
  {
    hide UnicodeEscape, HexOf;
    var s := [c] + rest;
    assert s[1..] == rest;
    EscapeIsSpelled(0, c);
    ZeroIsSpelled();
    if rest != [] {
      EscapeIsSpelled(c, rest[0]);
      assert s[2..] == rest[1..] && s[1] == rest[0];
    }
    assert EscapeLetter(c) != LOWER_U || c < 32;
  }

  lemma ZeroIsSpelled()
    ensures HexOf(0) == [48, 48]
  {
  }

  /** The literal has no raw control byte. */
  lemma {:induction false} EscapedHasNoControls(s: seq<Byte>)
    ensures forall b :: b in Escaped(s) ==> b >= 32
    decreases |s|
  {
    if s != [] && s[0] != NUL {
      EscapedHasNoControls(s[1..]);
      if |s| > 1 {
        EscapedHasNoControls(s[2..]);
      }
    }
  }

  // ---- reading ----

  /**
   * The reader's table of hex digits. 16 and 17 are its "not a digit"; lower-case `f` gets
   * one as well, and so do the bytes from 128 on, which are not in the table at all.
   */
  function HexValue(c: Byte): (r: nat)
    ensures r <= 17
  {
    if 48 <= c <= 57 then c - 48
    else if 65 <= c <= 70 then c - 55
    else if 97 <= c < 102 then c - 87
    else if c == HT || c == LF || c == FF || c == CR || c == SP then 17
    else 16
  }

  /** The bytes the reader writes for a code; wrong digits can make it longer than four digits' worth. */
  function EncodeUnit(code: nat): (r: seq<Byte>)
    requires code < 0x2_0000
    ensures 1 <= |r| <= 3
  {
    if code < 0x80 then [code]
    else if code < 0x800 then [0xC0 + code / 0x40, Utf8.Continuation(code)]
    else [0xE0 + code / 0x40 / 0x40, Utf8.Continuation(code / 0x40), Utf8.Continuation(code)]
  }

  predicate FourDigits(s: seq<Byte>) {
    |s| >= 4 && forall i :: 0 <= i < 4 ==> HexValue(s[i]) < 16
  }

  /** What the reader makes of four bytes, digits or not. */
  function Code(s: seq<Byte>): (r: nat)
    requires |s| >= 4
    ensures r < 0x2_0000 && (FourDigits(s) ==> r < 0x1_0000)
  {
    HexValue(s[0]) * 0x1000 + HexValue(s[1]) * 0x100 + HexValue(s[2]) * 0x10 + HexValue(s[3])
  }

  /** What a one-letter escape stands for. The backslash itself is not among them. */
  function Unescape(letter: Byte): Option<Byte> {
    if letter == LOWER_B then Some(BACKSPACE)
    else if letter == LOWER_T then Some(HT)
    else if letter == LOWER_N then Some(LF)
    else if letter == LOWER_F then Some(FF)
    else if letter == LOWER_R then Some(CR)
    else if letter == SLASH || letter == QUOTE then Some(letter)
    else None
  }

  /** The outcome of reading a literal from just after its opening quote. */
  datatype Literal = Closed(text: seq<Byte>, used: nat) | Malformed

  function Prepend(x: seq<Byte>, used: nat, rest: Literal): Literal {
    if rest.Closed? then Closed(x + rest.text, used + rest.used) else Malformed
  }

  /** The meaning of the bytes after an opening quote. */
  function Decode(s: seq<Byte>): (r: Literal)
    ensures r.Closed? ==> r.used <= |s| && |r.text| < r.used
    decreases |s|
  {
    if s == [] || s[0] == NUL || s[0] == LF then Malformed
    else if s[0] == QUOTE then Closed([], 1)
    else if s[0] != BACKSLASH then Prepend([s[0]], 1, Decode(s[1..]))
    else if |s| < 2 then Malformed
    else if s[1] == LOWER_U then
      if FourDigits(s[2..]) then Prepend(EncodeUnit(Code(s[2..])), 6, Decode(s[6..])) else Malformed
      else if Unescape(s[1]).Some? then Prepend([Unescape(s[1]).value], 2, Decode(s[2..]))
    else Malformed
  }

  // ---- how the first byte is read, by literal codes ----

  /**
   * The reader on one byte, or one escape: the letters, and that all others are refused; NUL and
   * the line feed as well.
   */
  lemma ByteIsRead(c: Byte, rest: seq<Byte>)
    ensures c == 0 || c == 10 ==> Decode([c] + rest) == Malformed
    ensures c == 34 ==> Decode([c] + rest) == Closed([], 1)
    ensures c !in {0, 10, 34, 92} ==> Decode([c] + rest) == Prepend([c], 1, Decode(rest))
    ensures var e := Decode([92, c] + rest);
            && (c == 34 || c == 47 ==> e == Prepend([c], 2, Decode(rest)))
            && (c == 98 ==> e == Prepend([8], 2, Decode(rest)))
            && (c == 102 ==> e == Prepend([12], 2, Decode(rest)))
            && (c == 110 ==> e == Prepend([10], 2, Decode(rest)))
            && (c == 114 ==> e == Prepend([13], 2, Decode(rest)))
            && (c == 116 ==> e == Prepend([9], 2, Decode(rest)))
            && (c !in {34, 47, 98, 102, 110, 114, 116, 117} ==> e == Malformed)
    ensures Decode([]) == Malformed && Decode([92]) == Malformed
  {
    assert ([c] + rest)[1..] == rest && ([92, c] + rest)[2..] == rest;
  }

  /** The digit table by literal codes. */
  lemma HexValuesAre(c: Byte)
    ensures forall n :: 0 <= n < 16 && HEX_DIGITS[n] as int == c ==> HexValue(c) == n
    ensures 97 <= c < 102 ==> HexValue(c) == c - 87
    ensures c in {9, 10, 12, 13, 32} ==> HexValue(c) == 17
    ensures c !in {9, 10, 12, 13, 32} && !(97 <= c < 102) && (forall n :: 0 <= n < 16 ==> HEX_DIGITS[n] as int != c) ==>
              HexValue(c) == 16
  {
    if n :| 0 <= n < 16 && HEX_DIGITS[n] as int == c {
      HexIsSpelled(n);
    }
    if 48 <= c <= 57 {
      HexIsSpelled(c - 48);
    } else if 65 <= c <= 70 {
      HexIsSpelled(c - 55);
    }
  }

  // ---- the escape's bytes are UTF-8 ----

  /** Outside the surrogates, a `\u` escape becomes its code point's UTF-8 encoding. */
  lemma UnitIsUtf8(code: nat)
    requires 0 < code < 0x1_0000
    ensures Utf8.IsSurrogate(code) || EncodeUnit(code) == Utf8.Encode(code)
  {
    if !Utf8.IsSurrogate(code) {
      var c: Utf8.Scalar := code;
      assert Utf8.Encode(c) == EncodeUnit(code);
    }
  }

  /**
   * The validator accepts what a `\u` escape becomes iff the code is no surrogate; then it decodes
   * to that code alone.
   */
  lemma UnitIsValidIffNoSurrogate(code: nat)
    requires 0 < code < 0x1_0000
    ensures Utf8.IsUtf8(EncodeUnit(code)) <==> !Utf8.IsSurrogate(code)
    ensures !Utf8.IsSurrogate(code) ==> Utf8.EncodeAll([code]) == EncodeUnit(code)
  {
    UnitIsUtf8(code);
    var s := EncodeUnit(code);
    if Utf8.IsSurrogate(code) {
      assert Utf8.Announced(s[0]) == 3;
      Utf8.ShiftedIn(s, 2);
      Utf8.ShiftedIn(s, 3);
      assert Utf8.Gather(s, 3) == code;
      Utf8.SplitFirst(s);
    } else {
      assert Utf8.EncodeAll([code]) == Utf8.Encode(code) + Utf8.EncodeAll([]);
    }
  }

  // ---- the round trip ----

  /** A control byte but NUL, and but backspace, tab, line feed, form feed and carriage return, which have letters. */
  predicate IsOddControl(c: Byte) {
    0 < c < 32 && c !in {8, 9, 10, 12, 13}
  }

  /** No NUL, no backslash, and no odd control byte but possibly as the last byte. */
  predicate Survives(s: seq<Byte>) {
    forall i :: 0 <= i < |s| ==> s[i] != 0 && s[i] != 92 && (IsOddControl(s[i]) ==> i == |s| - 1)
  }

  lemma HexRoundTrip(n: nat)
    requires n < 16
    ensures HexValue(HexChar(n)) == n
  {
  }

  /** Reading an escape the writer made of two bytes gives the code they form. */
  lemma EscapeReads(a: Byte, b: Byte, rest: seq<Byte>)
    ensures Decode(UnicodeEscape(a, b) + rest) == Prepend(EncodeUnit(a as int * 0x100 + b), 6, Decode(rest))
  {
    var s := UnicodeEscape(a, b) + rest;
    HexRoundTrip(a / 16);
    HexRoundTrip(a % 16);
    HexRoundTrip(b / 16);
    HexRoundTrip(b % 16);
    assert s[2..][0] == HexChar(a / 16) && s[2..][1] == HexChar(a % 16);
    assert s[2..][2] == HexChar(b / 16) && s[2..][3] == HexChar(b % 16);
    assert Code(s[2..]) == a as int * 0x100 + b;
    assert s[6..] == rest;
  }

  /** Two bytes packed into one escape never read back: their code starts with another byte. */
  lemma PackedPairIsLost(a: Byte, b: Byte)
    requires IsOddControl(a)
    ensures EncodeUnit(a as int * 0x100 + b)[0] != a
  {
  }

  /** Reading a byte that needed no escape, or an escape by letter. */
  lemma LetterReads(c: Byte, rest: seq<Byte>)
    ensures EscapeLetter(c) == 0 ==> Decode([c] + rest) == Prepend([c], 1, Decode(rest))
    ensures EscapeLetter(c) != 0 && EscapeLetter(c) != LOWER_U ==>
              Decode([BACKSLASH, EscapeLetter(c)] + rest) ==
              if c == BACKSLASH then Malformed else Prepend([c], 2, Decode(rest))
  {
    assert ([c] + rest)[1..] == rest;
    assert ([BACKSLASH, EscapeLetter(c)] + rest)[2..] == rest;
  }

  lemma EscapedUnfolds(s: seq<Byte>, rest: seq<Byte>)
    requires s != [] && s[0] != NUL
    ensures var letter, after := EscapeLetter(s[0]), Escaped(s[1..]) + [QUOTE];
            && (letter == 0 ==> Escaped(s) + [QUOTE] + rest == [s[0]] + (after + rest) && |Escaped(s)| == |after|)
            && (letter != 0 && letter != LOWER_U ==>
                  Escaped(s) + [QUOTE] + rest == [BACKSLASH, letter] + (after + rest) && |Escaped(s)| == |after| + 1)
  {
    var letter := EscapeLetter(s[0]);
    assert letter == 0 ==> Escaped(s) == [s[0]] + Escaped(s[1..]);
    assert letter != 0 && letter != LOWER_U ==> Escaped(s) == [BACKSLASH, letter] + Escaped(s[1..]);
    hide Escaped, EscapeLetter;
    FourPieces([s[0]], Escaped(s[1..]), [QUOTE], rest);
    FourPieces([BACKSLASH, letter], Escaped(s[1..]), [QUOTE], rest);
  }

  lemma FourPieces<T>(a: seq<T>, b: seq<T>, c: seq<T>, d: seq<T>)
    ensures a + b + c + d == a + (b + c + d)
  {
  }

  lemma NothingRead(s: seq<Byte>, rest: seq<Byte>)
    requires s == [] || s[0] == NUL
    ensures var written := Escaped(s) + [QUOTE];
            Decode(written + rest) == Closed([], 1) && |written| == 1
  {
    assert Escaped(s) + [QUOTE] + rest == [QUOTE] + rest;
  }

  /** Reading what was written gives the string back for exactly the strings that survive. */
  lemma {:induction false} RoundTrip(s: seq<Byte>, rest: seq<Byte>)
    ensures var written := Escaped(s) + [QUOTE];
            Decode(written + rest) == Closed(s, |written|) <==> Survives(s)
    decreases |s|
  {
    if s == [] || s[0] == NUL {
      NothingRead(s, rest);
    } else {
      hide Escaped, Decode, Survives, Prepend, EscapeLetter;
      SurvivesBelow(s);
      OddControlMeans(s[0]);
      if IsOddControl(s[0]) {
        OddControlRoundTrip(s, rest);
      } else {
        var after := Escaped(s[1..]) + [QUOTE];
        RoundTrip(s[1..], rest);
        EscapedUnfolds(s, rest);
        LetterReads(s[0], after + rest);
        var letter := EscapeLetter(s[0]);
        PrependIsExact(s, if letter == 0 then 1 else 2, Decode(after + rest), |Escaped(s) + [QUOTE]|);
      }
    }
  }

  lemma OddControlMeans(c: Byte)
    requires c != NUL
    ensures IsOddControl(c) <==> EscapeLetter(c) == LOWER_U
    ensures c == BACKSLASH ==> EscapeLetter(c) == BACKSLASH
  {
  }

  lemma SurvivesBelow(s: seq<Byte>)
    requires s != []
    ensures Survives(s) <==>
            s[0] != NUL && s[0] != BACKSLASH && (IsOddControl(s[0]) ==> |s| == 1) && Survives(s[1..])
  {
    if Survives(s) {
      assert forall i :: 0 <= i < |s| - 1 ==> s[1..][i] == s[i + 1];
    }
    if s[0] != NUL && s[0] != BACKSLASH && (IsOddControl(s[0]) ==> |s| == 1) && Survives(s[1..]) {
      forall i | 0 <= i < |s| ensures s[i] != NUL && s[i] != BACKSLASH && (IsOddControl(s[i]) ==> i == |s| - 1) {
        if i > 0 {
          assert s[i] == s[1..][i - 1];
        }
      }
    }
  }

  lemma PrependIsExact(s: seq<Byte>, used: nat, rest: Literal, total: nat)
    requires s != [] && used <= total
    ensures Prepend([s[0]], used, rest) == Closed(s, total) <==> rest == Closed(s[1..], total - used)
  {
    assert s == [s[0]] + s[1..];
    if rest.Closed? {
      assert ([s[0]] + rest.text)[1..] == rest.text;
    }
  }

  lemma OddControlRoundTrip(s: seq<Byte>, rest: seq<Byte>)
    requires s != [] && IsOddControl(s[0])
    ensures var written := Escaped(s) + [QUOTE];
            Decode(written + rest) == Closed(s, |written|) <==> |s| == 1
  {
    var written := Escaped(s) + [QUOTE];
    if |s| == 1 {
      assert written + rest == UnicodeEscape(0, s[0]) + ([QUOTE] + rest);
      EscapeReads(0, s[0], [QUOTE] + rest);
      assert s == [s[0]] + [];
    } else {
      var after := Escaped(s[2..]) + [QUOTE] + rest;
      assert written + rest == UnicodeEscape(s[0], s[1]) + after;
      EscapeReads(s[0], s[1], after);
      PackedPairIsLost(s[0], s[1]);
    }
  }

  /** So it holds no NUL, and a reader of the C string sees all of it. */
  lemma EscapedHasNoNul(s: seq<Byte>)
    ensures NUL !in Escaped(s)
  {
    EscapedHasNoControls(s);
  }

  lemma {:induction false} StrLenPasses(x: seq<Byte>, y: seq<Byte>)
    requires NUL !in x
    ensures StrLen(x + y) == |x| + StrLen(y)
    decreases |x|
  {
    if x == [] {
      assert x + y == y;
    } else {
      assert (x + y)[1..] == x[1..] + y;
      StrLenPasses(x[1..], y);
    }
  }

  lemma CutText<T>(a: T, b: seq<T>, c: seq<T>, n: nat)
    requires n <= |c|
    ensures ([a] + b + c)[..1 + |b| + n][1..] == b + c[..n]
  {
  }

  /**
   * From the writer's buffer to the reader's token: of the text up to its first NUL, the literal
   * means the string iff it survives.
   */
  lemma WrittenThenRead(s: seq<Byte>, after: seq<Byte>)
    ensures var literal := Escaped(s) + [QUOTE];
            var text := [QUOTE] + literal + after;
            && StrLen(text) > |literal|
            && (Decode(text[..StrLen(text)][1..]) == Closed(s, |literal|) <==> Survives(s))
  {
    hide Escaped, Decode, Survives, StrLen;
    var literal := Escaped(s) + [QUOTE];
    var text := [QUOTE] + literal + after;
    EscapedHasNoNul(s);
    StrLenPasses([QUOTE] + literal, after);
    CutText(QUOTE, literal, after, StrLen(after));
    RoundTrip(s, after[..StrLen(after)]);
  }
}
