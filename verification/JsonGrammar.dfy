/**
 * JSON string literals as section 7 of RFC 8259 defines them, with the text they stand for,
 * and exactly what the reader makes of them.
 */
module JsonGrammar {
  import opened Bytes
  import opened Json
  import Utf8

  /** A hexadecimal digit, in either case. */
  predicate IsHex(c: Byte) {
    48 <= c <= 57 || 65 <= c <= 70 || 97 <= c <= 102
  }

  function HexDigit(c: Byte): (r: nat)
    requires IsHex(c)
    ensures r < 16
  {
    if c <= 57 then c - 48 else if c <= 70 then c - 55 else c - 87
  }

  predicate IsUnit(digits: seq<Byte>) {
    |digits| == 4 && IsHex(digits[0]) && IsHex(digits[1]) && IsHex(digits[2]) && IsHex(digits[3])
  }

  function UnitCode(digits: seq<Byte>): (r: nat)
    requires IsUnit(digits)
    ensures r < 0x1_0000
  {
    HexDigit(digits[0]) * 0x1000 + HexDigit(digits[1]) * 0x100 + HexDigit(digits[2]) * 0x10 + HexDigit(digits[3])
  }

  /** What an escape by letter stands for. */
  function LetterMeaning(letter: Byte): Option<Byte> {
    if letter == QUOTE || letter == BACKSLASH || letter == SLASH then Some(letter)
    else if letter == LOWER_B then Some(BACKSPACE)
    else if letter == LOWER_F then Some(FF)
    else if letter == LOWER_N then Some(LF)
    else if letter == LOWER_R then Some(CR)
    else if letter == LOWER_T then Some(HT)
    else None
  }

  // ---- the standard's literals, and what they mean ----

  /** A Unicode scalar value; unlike those of a C string, U+0000 is among them. */
  type Character = c: int | 0 <= c <= 0x10FFFF && !(0xD800 <= c <= 0xDFFF) witness 0

  function EncodeChar(c: Character): (r: seq<Byte>)
    ensures 1 <= |r| <= 4
  {
    if c == 0 then [NUL] else Utf8.Encode(c)
  }

  function EncodeText(cs: seq<Character>): seq<Byte> {
    if cs == [] then [] else EncodeChar(cs[0]) + EncodeText(cs[1..])
  }

  /** An unescaped character, an escape by letter, or one by four digits. */
  datatype Piece = Plain(c: Utf8.Scalar) | Letter(letter: Byte) | Unit(digits: seq<Byte>)

  predicate IsPiece(p: Piece) {
    match p
    case Plain(c) => c >= 32 && c != QUOTE && c != BACKSLASH
    case Letter(letter) => LetterMeaning(letter).Some?
    case Unit(digits) => IsUnit(digits)
  }

  predicate ArePieces(ps: seq<Piece>) {
    forall p :: p in ps ==> IsPiece(p)
  }

  /** In UTF-8, as section 8.1 of RFC 8259 asks. */
  function Spell(p: Piece): (r: seq<Byte>)
    ensures r != []
  {
    match p
    case Plain(c) => Utf8.Encode(c)
    case Letter(letter) => [BACKSLASH, letter]
    case Unit(digits) => [BACKSLASH, LOWER_U] + digits
  }

  function SpellAll(ps: seq<Piece>): seq<Byte> {
    if ps == [] then [] else Spell(ps[0]) + SpellAll(ps[1..])
  }

  /** Whether the bytes after an opening quote are a literal of the standard, up to its closing quote. */
  ghost predicate IsStandard(s: seq<Byte>) {
    exists ps: seq<Piece> :: ArePieces(ps) && SpellAll(ps) + [QUOTE] == s
  }

  predicate IsSurrogate(p: Piece) {
    p.Unit? && IsUnit(p.digits) && Utf8.IsSurrogate(UnitCode(p.digits))
  }

  /** Two escapes that are a surrogate pair, the high half first. */
  predicate ArePair(p: Piece, q: Piece) {
    IsSurrogate(p) && IsSurrogate(q) && UnitCode(p.digits) < 0xDC00 <= UnitCode(q.digits)
  }

  function Combined(p: Piece, q: Piece): (c: Character)
    requires ArePair(p, q)
    ensures c >= 0x10000
  {
    0x10000 + (UnitCode(p.digits) - 0xD800) * 0x400 + (UnitCode(q.digits) - 0xDC00)
  }

  function CharOf(p: Piece): Character
    requires IsPiece(p) && !IsSurrogate(p)
  {
    match p
    case Plain(c) => c
    case Letter(letter) => LetterMeaning(letter).value
    case Unit(digits) => UnitCode(digits)
  }

  function Before(c: Character, text: Option<seq<Character>>): Option<seq<Character>> {
    if text.Some? then Some([c] + text.value) else None
  }

  /** The text that a literal stands for. One with half a surrogate pair stands for none (section 8.2 of RFC 8259). */
  function TextOf(ps: seq<Piece>): Option<seq<Character>>
    requires ArePieces(ps)
    decreases |ps|
  {
    if ps == [] then Some([])
    else if !IsSurrogate(ps[0]) then Before(CharOf(ps[0]), TextOf(ps[1..]))
    else if |ps| > 1 && ArePair(ps[0], ps[1]) then Before(Combined(ps[0], ps[1]), TextOf(ps[2..]))
    else None
  }

  /** A character beyond U+FFFF is its two UTF-16 halves as escapes (section 7 of RFC 8259). */
  lemma PairsAreUtf16(c: Character, p: Piece, q: Piece)
    requires c >= 0x10000 && p.Unit? && q.Unit? && IsUnit(p.digits) && IsUnit(q.digits)
    requires UnitCode(p.digits) == 0xD800 + (c - 0x10000) / 0x400
    requires UnitCode(q.digits) == 0xDC00 + (c - 0x10000) % 0x400
    ensures TextOf([p, q]) == Some([c]) && TextOf([p]) == None && TextOf([q, p]) == None
  {
    hide UnitCode, IsUnit;
    assert [p, q][2..] == [] && [p, q][0] == p && [p, q][1] == q;
    assert ArePair(p, q) && !ArePair(q, p) && Combined(p, q) == c;
    assert Before(c, TextOf([])) == Some([c] + []) && [c] + [] == [c];
  }

  // ---- what the reader makes of them ----

  /** No escaped backslash, and no digit `f`. */
  predicate Taken(p: Piece) {
    match p
    case Plain(_) => true
    case Letter(letter) => letter != BACKSLASH
    case Unit(digits) => LOWER_F !in digits
  }

  /** What the reader stores. */
  function Stored(p: Piece): seq<Byte>
    requires IsPiece(p)
  {
    match p
    case Plain(c) => Utf8.Encode(c)
    case Letter(letter) => [LetterMeaning(letter).value]
    case Unit(digits) => EncodeUnit(UnitCode(digits))
  }

  function StoredAll(ps: seq<Piece>): seq<Byte>
    requires ArePieces(ps)
  {
    if ps == [] then [] else Stored(ps[0]) + StoredAll(ps[1..])
  }

  // ---- digits ----

  /** The table gives a digit its value, except the small `f`, and nothing else one. */
  lemma HexByHex(c: Byte)
    ensures HexValue(c) < 16 <==> IsHex(c) && c != LOWER_F
    ensures HexValue(c) < 16 ==> HexValue(c) == HexDigit(c)
  {
  }

  /** Four digits are taken, and with their own code, iff none of them is `f`; nothing else is taken for digits. */
  lemma DigitsAreReadIff(digits: seq<Byte>, rest: seq<Byte>)
    requires |digits| == 4
    ensures FourDigits(digits + rest) <==> IsUnit(digits) && LOWER_F !in digits
    ensures FourDigits(digits + rest) ==> Code(digits + rest) == UnitCode(digits)
  {
    hide HexValue, IsHex, HexDigit;
    HexByHex(digits[0]);
    HexByHex(digits[1]);
    HexByHex(digits[2]);
    HexByHex(digits[3]);
    var s := digits + rest;
    assert s[0] == digits[0] && s[1] == digits[1] && s[2] == digits[2] && s[3] == digits[3];
    assert LOWER_F in digits <==> exists i :: 0 <= i < 4 && digits[i] == LOWER_F;
  }

  /** The letters agree, but for the backslash. */
  lemma LettersAgree(letter: Byte)
    ensures Unescape(letter) == if letter == BACKSLASH then None else LetterMeaning(letter)
    ensures LetterMeaning(LOWER_U).None?
  {
  }

  // ---- literals ----

  lemma InDrop<T>(s: seq<T>, k: nat)
    requires k <= |s|
    ensures forall b :: b in s[k..] ==> b in s
  {
  }

  lemma {:induction false} HighBytesAreRead(x: seq<Byte>, rest: seq<Byte>)
    requires forall b :: b in x ==> b >= 128
    ensures Decode(x + rest) == Prepend(x, |x|, Decode(rest))
    decreases |x|
  {
    if x == [] {
      assert x + rest == rest;
      NothingPrepended(Decode(rest));
    } else {
      assert x[0] in x;
      assert (x + rest)[1..] == x[1..] + rest;
      InDrop(x, 1);
      HighBytesAreRead(x[1..], rest);
      PrependTwice(x[0], x[1..], Decode(rest));
      assert [x[0]] + x[1..] == x;
    }
  }

  lemma NothingPrepended(l: Literal)
    ensures Prepend([], 0, l) == l
  {
    if l.Closed? {
      assert [] + l.text == l.text;
    }
  }

  lemma PrependTwice(c: Byte, x: seq<Byte>, l: Literal)
    ensures Prepend([c], 1, Prepend(x, |x|, l)) == Prepend([c] + x, 1 + |x|, l)
  {
    if l.Closed? {
      assert [c] + (x + l.text) == [c] + x + l.text;
    }
  }

  lemma EncodedBytes(c: Utf8.Scalar)
    ensures c < 128 ==> Utf8.Encode(c) == [c]
    ensures c >= 128 ==> forall b :: b in Utf8.Encode(c) ==> b >= 128
  {
  }

  lemma PieceIsReadIff(p: Piece, rest: seq<Byte>)
    requires IsPiece(p)
    ensures Decode(Spell(p) + rest) == if Taken(p) then Prepend(Stored(p), |Spell(p)|, Decode(rest)) else Malformed
  {
    hide FourDigits, Code, IsUnit, UnitCode, EncodeUnit, Unescape, LetterMeaning, Utf8.Encode;
    var s := Spell(p) + rest;
    match p
    case Plain(c) =>
      EncodedBytes(c);
      if c < 128 {
        assert s[1..] == rest;
      } else {
        HighBytesAreRead(Spell(p), rest);
      }
    case Letter(letter) =>
      LettersAgree(letter);
      LettersAgree(LOWER_U);
      assert s[1] == letter && s[2..] == rest;
    case Unit(digits) =>
      UnitHasFour(digits);
      DigitsAreReadIff(digits, rest);
      assert s[2..] == digits + rest && s[6..] == rest;
  }

  lemma UnitHasFour(digits: seq<Byte>)
    requires IsUnit(digits)
    ensures |digits| == 4
  {
  }

  /**
   * A standard literal is taken, to its end and whatever follows, iff it has no escaped
   * backslash and no digit `f`; otherwise it is refused.
   */
  lemma {:induction false} LiteralIsTakenIff(ps: seq<Piece>, rest: seq<Byte>)
    requires ArePieces(ps)
    ensures var s := SpellAll(ps) + [QUOTE];
            Decode(s + rest) == if forall p :: p in ps ==> Taken(p) then Closed(StoredAll(ps), |s|) else Malformed
    decreases |ps|
  {
    hide Decode, Spell, Stored, Taken, IsPiece;
    if ps == [] {
      QuoteCloses(rest);
      assert SpellAll(ps) + [QUOTE] + rest == [QUOTE] + rest;
    } else {
      var after := SpellAll(ps[1..]) + [QUOTE];
      LiteralIsTakenIff(ps[1..], rest);
      PieceIsReadIff(ps[0], after + rest);
      assert SpellAll(ps) + [QUOTE] + rest == Spell(ps[0]) + (after + rest);
      assert (forall p :: p in ps ==> Taken(p)) <==> Taken(ps[0]) && forall p :: p in ps[1..] ==> Taken(p);
    }
  }

  lemma QuoteCloses(rest: seq<Byte>)
    ensures Decode([QUOTE] + rest) == Closed([], 1)
  {
  }

  lemma StoredIsEncoded(p: Piece)
    requires IsPiece(p)
    ensures !IsSurrogate(p) ==> Stored(p) == EncodeChar(CharOf(p))
    ensures IsSurrogate(p) ==> |Stored(p)| > 0 && Stored(p)[0] == 0xED
  {
    if p.Unit? && UnitCode(p.digits) > 0 {
      UnitIsUtf8(UnitCode(p.digits));
    }
  }

  lemma PairIsEncoded(p: Piece, q: Piece)
    requires ArePair(p, q)
    ensures EncodeChar(Combined(p, q))[0] >= 0xF0
  {
  }

  lemma SameTail<T>(a: seq<T>, x: seq<T>, y: seq<T>)
    ensures a + x == a + y <==> x == y
  {
    assert (a + x)[|a|..] == x && (a + y)[|a|..] == y;
  }

  lemma TextOfTail(ps: seq<Piece>)
    requires ArePieces(ps) && ps != []
    ensures ArePieces(ps[1..]) && (|ps| > 1 ==> ArePieces(ps[2..]))
  {
  }

  lemma EncodeBefore(c: Character, cs: seq<Character>)
    ensures EncodeText([c] + cs) == EncodeChar(c) + EncodeText(cs)
  {
    assert ([c] + cs)[1..] == cs;
  }

  /** What is stored is the text that is meant iff no escape is a surrogate. */
  lemma {:induction false} StoredIsMeantIff(ps: seq<Piece>)
    requires ArePieces(ps)
    ensures TextOf(ps).Some? && StoredAll(ps) == EncodeText(TextOf(ps).value) <==>
            forall p :: p in ps ==> !IsSurrogate(p)
    decreases |ps|
  {
    hide Stored, EncodeChar, IsSurrogate, CharOf, Combined;
    if ps != [] {
      var p, others := ps[0], ps[1..];
      StoredIsEncoded(p);
      assert (forall q :: q in ps ==> !IsSurrogate(q)) <==> !IsSurrogate(p) && forall q :: q in others ==>
             !IsSurrogate(q);
      if !IsSurrogate(p) {
        StoredIsMeantIff(others);
        if TextOf(others).Some? {
          EncodeBefore(CharOf(p), TextOf(others).value);
          SameTail(Stored(p), StoredAll(others), EncodeText(TextOf(others).value));
        }
      } else {
        assert p in ps;
        if TextOf(ps).Some? {
          PairIsEncoded(p, ps[1]);
          EncodeBefore(Combined(p, ps[1]), TextOf(ps[2..]).value);
          assert StoredAll(ps)[0] == 0xED;
        }
      }
    }
  }

  /**
   * A standard literal is read as the text it stands for, to its end and whatever follows,
   * iff it has no escaped backslash, no digit `f` and no surrogate escape.
   */
  lemma LiteralIsReadIff(ps: seq<Piece>, rest: seq<Byte>)
    requires ArePieces(ps)
    ensures var s := SpellAll(ps) + [QUOTE];
            TextOf(ps).Some? && Decode(s + rest) == Closed(EncodeText(TextOf(ps).value), |s|) <==>
            forall p :: p in ps ==> Taken(p) && !IsSurrogate(p)
  {
    hide Decode, SpellAll, StoredAll, TextOf, EncodeText, IsPiece, Taken, IsSurrogate;
    LiteralIsTakenIff(ps, rest);
    StoredIsMeantIff(ps);
  }

  // ---- what the reader takes besides ----

  lemma {:induction false} EncodeInTwo(cs: seq<Utf8.Scalar>, ds: seq<Utf8.Scalar>)
    ensures Utf8.EncodeAll(cs + ds) == Utf8.EncodeAll(cs) + Utf8.EncodeAll(ds)
    decreases |cs|
  {
    if cs == [] {
      assert cs + ds == ds;
    } else {
      assert (cs + ds)[1..] == cs[1..] + ds;
      EncodeInTwo(cs[1..], ds);
    }
  }

  lemma Utf8InTwo(x: seq<Byte>, y: seq<Byte>)
    requires Utf8.IsUtf8(x) && Utf8.IsUtf8(y)
    ensures Utf8.IsUtf8(x + y)
  {
    var cs: seq<Utf8.Scalar> :| Utf8.EncodeAll(cs) == x;
    var ds: seq<Utf8.Scalar> :| Utf8.EncodeAll(ds) == y;
    EncodeInTwo(cs, ds);
  }

  /** No raw byte below 32. */
  predicate NoControls(s: seq<Byte>) {
    forall b :: b in s ==> b >= 32
  }

  predicate IsAscii(x: seq<Byte>) {
    forall b :: b in x ==> 32 <= b < 128
  }

  lemma OneIsUtf8(c: Utf8.Scalar)
    ensures Utf8.IsUtf8(Utf8.Encode(c))
  {
    assert Utf8.EncodeAll([c]) == Utf8.Encode(c) + Utf8.EncodeAll([]);
  }

  lemma {:induction false} AsciiBefore(x: seq<Byte>, y: seq<Byte>)
    requires IsAscii(x) && NUL !in y
    ensures Utf8.IsUtf8(x + y) <==> Utf8.IsUtf8(y)
    decreases |x|
  {
    hide Utf8.IsUtf8;
    if x == [] {
      assert x + y == y;
    } else {
      assert x[0] in x;
      assert (x + y)[1..] == x[1..] + y;
      InDrop(x, 1);
      assert Utf8.Announced(x[0]) == 1 && Utf8.StartsWell(x + y);
      Utf8.SplitFirst(x + y);
      AsciiBefore(x[1..], y);
    }
  }

  lemma SpelledPiece(p: Piece)
    requires IsPiece(p)
    ensures !p.Plain? ==> IsAscii(Spell(p))
    ensures NoControls(Spell(p))
  {
    if p.Plain? {
      EncodedBytes(p.c);
    }
  }

  lemma {:induction false} SpelledIsUtf8(ps: seq<Piece>)
    requires ArePieces(ps)
    ensures var s := SpellAll(ps) + [QUOTE];
            Utf8.IsUtf8(s) && NoControls(s)
    decreases |ps|
  {
    hide Spell, IsPiece, Utf8.IsUtf8;
    if ps == [] {
      EncodedBytes(34);
      OneIsUtf8(34);
      assert SpellAll(ps) + [QUOTE] == [QUOTE];
    } else {
      var after := SpellAll(ps[1..]) + [QUOTE];
      SpelledIsUtf8(ps[1..]);
      SpelledPiece(ps[0]);
      SpelledFirst(ps[0], after);
      assert SpellAll(ps) + [QUOTE] == Spell(ps[0]) + after;
    }
  }

  lemma SpelledFirst(p: Piece, after: seq<Byte>)
    requires IsPiece(p) && Utf8.IsUtf8(after) && NUL !in after
    ensures Utf8.IsUtf8(Spell(p) + after)
  {
    hide Utf8.IsUtf8;
    if p.Plain? {
      OneIsUtf8(p.c);
      Utf8InTwo(Spell(p), after);
    } else {
      SpelledPiece(p);
      AsciiBefore(Spell(p), after);
    }
  }

  /** The first piece of what the reader takes, if it is UTF-8 without raw control bytes. */
  lemma FirstPiece(s: seq<Byte>, rest: seq<Byte>) returns (p: Piece, after: seq<Byte>)
    requires Decode(s + rest).Closed? && Decode(s + rest).used == |s| && s[0] != QUOTE
    requires Utf8.IsUtf8(s) && NoControls(s)
    ensures IsPiece(p) && s == Spell(p) + after && Utf8.IsUtf8(after) && NoControls(after)
    ensures Decode(after + rest).Closed? && Decode(after + rest).used == |after|
  {
    hide Utf8.IsUtf8, Decode, Stored, Spell, IsPiece, Taken;
    if s[0] == BACKSLASH {
      p := FirstEscape(s, rest);
    } else {
      p := FirstPlain(s);
    }
    after := s[|Spell(p)|..];
    InDrop(s, |Spell(p)|);
    assert s == Spell(p) + after && s + rest == Spell(p) + (after + rest);
    PieceIsReadIff(p, after + rest);
  }

  lemma FirstPlain(s: seq<Byte>) returns (p: Piece)
    requires s != [] && s[0] != QUOTE && s[0] != BACKSLASH && Utf8.IsUtf8(s) && NoControls(s)
    ensures IsPiece(p) && Spell(p) <= s && Utf8.IsUtf8(s[|Spell(p)|..])
  {
    hide Utf8.IsUtf8, Utf8.Gather, Utf8.Encode;
    assert s[0] in s;
    Utf8.SplitFirst(s);
    Utf8.AcceptsOnlyEncodings(s);
    var n := Utf8.Announced(s[0]);
    p := Plain(Utf8.Gather(s, n));
    EncodedBytes(p.c);
    assert s[..n][0] == s[0] && s[0] in s[..n];
  }

  lemma FirstEscape(s: seq<Byte>, rest: seq<Byte>) returns (p: Piece)
    requires Decode(s + rest).Closed? && Decode(s + rest).used == |s| && s[0] == BACKSLASH
    requires Utf8.IsUtf8(s) && NoControls(s)
    ensures IsPiece(p) && Spell(p) <= s && Utf8.IsUtf8(s[|Spell(p)|..])
  {
    hide Utf8.IsUtf8, IsPiece;
    p := Escape(s, rest);
    SpelledPiece(p);
    var after := s[|Spell(p)|..];
    InDrop(s, |Spell(p)|);
    AsciiBefore(Spell(p), after);
    assert s == Spell(p) + after;
  }

  lemma Escape(s: seq<Byte>, rest: seq<Byte>) returns (p: Piece)
    requires Decode(s + rest).Closed? && Decode(s + rest).used == |s| && s[0] == BACKSLASH
    ensures IsPiece(p) && !p.Plain? && Spell(p) <= s
  {
    hide FourDigits, Code, IsUnit, UnitCode, EncodeUnit, Unescape, LetterMeaning;
    var all := s + rest;
    if all[1] == LOWER_U {
      FourOfThem(all[2..]);
      p := Unit(all[2..6]);
      assert all[2..] == p.digits + all[6..];
      DigitsAreReadIff(p.digits, all[6..]);
    } else {
      LettersAgree(all[1]);
      p := Letter(all[1]);
    }
  }

  lemma FourOfThem(s: seq<Byte>)
    requires FourDigits(s)
    ensures |s| >= 4
  {
  }

  lemma {:induction false} PiecesOf(s: seq<Byte>, rest: seq<Byte>) returns (ps: seq<Piece>)
    requires Decode(s + rest).Closed? && Decode(s + rest).used == |s|
    requires Utf8.IsUtf8(s) && NoControls(s)
    ensures ArePieces(ps) && SpellAll(ps) + [QUOTE] == s
    decreases |s|
  {
    hide Decode, Spell, IsPiece, Utf8.IsUtf8;
    ClosedStarts(s + rest);
    if s[0] == QUOTE {
      ps := [];
    } else {
      var p, after := FirstPiece(s, rest);
      var qs := PiecesOf(after, rest);
      ps := [p] + qs;
      assert ps[1..] == qs;
    }
  }

  lemma ClosedStarts(s: seq<Byte>)
    requires Decode(s).Closed?
    ensures s != [] && Decode(s).used > 0 && (s[0] == QUOTE ==> Decode(s) == Closed([], 1))
  {
  }

  /**
   * What the reader takes is a literal of the standard iff it is UTF-8 and has no raw byte
   * below 32: the reader looks at bytes, and minds only NUL and the line feed.
   */
  lemma ReadIsStandardIff(s: seq<Byte>)
    requires Decode(s).Closed?
    ensures var l := s[..Decode(s).used];
            IsStandard(l) <==> Utf8.IsUtf8(l) && NoControls(l)
  {
    hide Decode, SpellAll, IsPiece, Utf8.IsUtf8;
    var l, rest := s[..Decode(s).used], s[Decode(s).used..];
    assert l + rest == s;
    if IsStandard(l) {
      var ps: seq<Piece> :| ArePieces(ps) && SpellAll(ps) + [QUOTE] == l;
      SpelledIsUtf8(ps);
    }
    if Utf8.IsUtf8(l) && NoControls(l) {
      var ps := PiecesOf(l, rest);
    }
  }

  // ---- what the writer emits ----

  /** An odd control byte takes the first byte of a longer character into its escape. */
  predicate CutsACharacter(s: seq<Byte>)
    decreases |s|
  {
    s != [] &&
    if IsOddControl(s[0]) && |s| > 1 then s[1] >= 128 || CutsACharacter(s[2..]) else CutsACharacter(s[1..])
  }

  /** No odd control byte takes any other byte into its escape. */
  predicate PacksNothing(s: seq<Byte>) {
    forall i :: 0 <= i < |s| - 1 ==> !IsOddControl(s[i])
  }

  lemma LowFirst(c: Byte, rest: seq<Byte>)
    requires 0 < c < 128 && NUL !in rest
    ensures Utf8.IsUtf8([c] + rest) <==> Utf8.IsUtf8(rest)
  {
    hide Utf8.IsUtf8;
    assert ([c] + rest)[1..] == rest && Utf8.Announced(c) == 1 && Utf8.StartsWell([c] + rest);
    Utf8.SplitFirst([c] + rest);
  }

  lemma {:induction false} Utf8HasNoNul(s: seq<Byte>, cs: seq<Utf8.Scalar>)
    requires Utf8.EncodeAll(cs) == s
    ensures NUL !in s
    decreases |cs|
  {
    if cs != [] {
      Utf8HasNoNul(Utf8.EncodeAll(cs[1..]), cs[1..]);
    }
  }

  /** Bytes from 128 on go out as they are, and are never odd. */
  lemma {:induction false} HighBytesAreWritten(x: seq<Byte>, rest: seq<Byte>)
    requires forall b :: b in x ==> b >= 128
    ensures Escaped(x + rest) == x + Escaped(rest) && (CutsACharacter(x + rest) <==> CutsACharacter(rest))
    ensures PacksNothing(x + rest) ==> PacksNothing(rest)
    decreases |x|
  {
    hide Escaped, PacksNothing;
    if x == [] {
      assert x + rest == rest && x + Escaped(rest) == Escaped(rest);
    } else {
      assert x[0] in x;
      InDrop(x, 1);
      var s := x[1..] + rest;
      assert x + rest == [x[0]] + s;
      HighBytesAreWritten(x[1..], rest);
      ByteIsSpelled(x[0], s);
      PacksBelow(x[0], s);
      assert [x[0]] + (x[1..] + Escaped(rest)) == x + Escaped(rest);
      assert ([x[0]] + s)[1..] == s;
    }
  }

  lemma PacksBelow(c: Byte, s: seq<Byte>)
    ensures PacksNothing([c] + s) ==> PacksNothing(s) && (s != [] ==> !IsOddControl(c))
  {
    if PacksNothing([c] + s) {
      assert ([c] + s)[0] == c;
      assert forall i :: 0 <= i < |s| ==> ([c] + s)[i + 1] == s[i];
    }
  }

  /** The first character of a UTF-8 string: one byte below 128, or several from there on. */
  lemma FirstCharacter(s: seq<Byte>) returns (c: Utf8.Scalar, rest: seq<Byte>)
    requires s != [] && NUL !in s && Utf8.IsUtf8(s)
    ensures s == Utf8.Encode(c) + rest && Utf8.IsUtf8(rest) && NUL !in rest
    ensures if c < 128 then s == [c] + rest
            else |Utf8.Encode(c)| >= 2 && forall b :: b in Utf8.Encode(c) ==> b >= 128
  {
    hide Utf8.IsUtf8;
    Utf8.SplitFirst(s);
    Utf8.AcceptsOnlyEncodings(s);
    c := Utf8.Gather(s, Utf8.Announced(s[0]));
    rest := s[Utf8.Announced(s[0])..];
    InDrop(s, Utf8.Announced(s[0]));
    hide Utf8.Gather;
    EncodedBytes(c);
    assert s[..Utf8.Announced(s[0])] + rest == s;
  }

  /** The pieces of what is written, and the text that they stand for. */
  lemma {:induction false} WrittenPieces(s: seq<Byte>) returns (ps: seq<Piece>)
    requires Utf8.IsUtf8(s) && NUL !in s && !CutsACharacter(s)
    ensures ArePieces(ps) && SpellAll(ps) == Escaped(s)
    ensures PacksNothing(s) ==> TextOf(ps).Some? && EncodeText(TextOf(ps).value) == s
    decreases |s|
  {
    if s == [] {
      ps := [];
    } else {
      hide Escaped, Utf8.IsUtf8, PacksNothing, CutsACharacter, Spell, CharOf, EncodeChar, IsPiece, IsSurrogate;
      var p, after := FirstWritten(s);
      var qs := WrittenPieces(after);
      ps := [p] + qs;
      OnePieceMore(p, qs);
      if PacksNothing(s) {
        OneCharacterMore(p, qs);
      }
    }
  }

  lemma FirstWritten(s: seq<Byte>) returns (p: Piece, after: seq<Byte>)
    requires s != [] && Utf8.IsUtf8(s) && NUL !in s && !CutsACharacter(s)
    ensures IsPiece(p) && !IsSurrogate(p) && Escaped(s) == Spell(p) + Escaped(after)
    ensures |after| < |s| && Utf8.IsUtf8(after) && NUL !in after && !CutsACharacter(after)
    ensures PacksNothing(s) ==> PacksNothing(after) && EncodeChar(CharOf(p)) + after == s
  {
    hide Escaped, Utf8.IsUtf8, Utf8.Encode, PacksNothing, CutsACharacter;
    var c, rest := FirstCharacter(s);
    if c >= 128 {
      HighBytesAreWritten(Utf8.Encode(c), rest);
      p, after := Plain(c), rest;
    } else {
      PacksBelow(c, rest);
      p, after := WrittenByte(c, rest);
      if IsOddControl(c) && rest != [] {
        assert rest == [rest[0]] + rest[1..];
        InDrop(rest, 1);
        LowFirst(rest[0], rest[1..]);
      }
    }
  }

  /** One byte below 128, with the one that it takes into its escape. */
  lemma WrittenByte(c: Byte, rest: seq<Byte>) returns (p: Piece, after: seq<Byte>)
    requires 0 < c < 128 && !CutsACharacter([c] + rest) && NUL !in rest
    ensures IsPiece(p) && !IsSurrogate(p) && Escaped([c] + rest) == Spell(p) + Escaped(after)
    ensures if IsOddControl(c) && rest != [] then rest[0] < 128 && after == rest[1..] && !CutsACharacter(after)
            else after == rest && !CutsACharacter(rest) && EncodeChar(CharOf(p)) == [c]
  {
    hide Escaped;
    assert ([c] + rest)[1..] == rest;
    after := rest;
    if IsOddControl(c) {
      assert rest != [] ==> ([c] + rest)[2..] == rest[1..];
      p := WrittenControl(c, rest);
      after := if rest == [] then rest else rest[1..];
    } else {
      ByteIsSpelled(c, rest);
      p := if c in {8, 9, 10, 12, 13, 34, 92} then Letter(LetterOf(c)) else Plain(c);
    }
  }

  function LetterOf(c: Byte): Byte {
    if c == 8 then 98 else if c == 9 then 116 else if c == 10 then 110 else if c == 12 then 102
    else if c == 13 then 114 else c
  }

  lemma WrittenControl(c: Byte, rest: seq<Byte>) returns (p: Piece)
    requires 0 < c && IsOddControl(c) && (rest != [] ==> 0 < rest[0] < 128)
    ensures IsPiece(p) && !IsSurrogate(p)
    ensures Escaped([c] + rest) == Spell(p) + Escaped(if rest == [] then rest else rest[1..])
    ensures rest == [] ==> EncodeChar(CharOf(p)) == [c]
  {
    hide Escaped;
    ByteIsSpelled(c, rest);
    if rest == [] {
      UnitOfHex(0, c);
      p := Unit(HexOf(0) + HexOf(c));
      assert Spell(p) == [92, 117] + (HexOf(0) + HexOf(c));
      ByteIsSpelled(0, []);
      ZeroIsSpelled();
    } else {
      UnitOfHex(c, rest[0]);
      p := Unit(HexOf(c) + HexOf(rest[0]));
    }
  }

  lemma UnitOfHex(a: Byte, b: Byte)
    requires a < 32
    ensures IsUnit(HexOf(a) + HexOf(b)) && UnitCode(HexOf(a) + HexOf(b)) == a as int * 0x100 + b
  {
    HexDigitBack(a / 16);
    HexDigitBack(a % 16);
    HexDigitBack(b / 16);
    HexDigitBack(b % 16);
    assert HexOf(a) + HexOf(b) == [HexOf(a)[0], HexOf(a)[1], HexOf(b)[0], HexOf(b)[1]];
  }

  lemma HexDigitBack(n: nat)
    requires n < 16
    ensures IsHex(HEX_DIGITS[n] as int) && HexDigit(HEX_DIGITS[n] as int) == n
  {
  }

  lemma OnePieceMore(p: Piece, qs: seq<Piece>)
    requires IsPiece(p) && ArePieces(qs)
    ensures ArePieces([p] + qs) && SpellAll([p] + qs) == Spell(p) + SpellAll(qs)
  {
    assert ([p] + qs)[1..] == qs;
  }

  lemma OneCharacterMore(p: Piece, qs: seq<Piece>)
    requires IsPiece(p) && ArePieces(qs) && !IsSurrogate(p) && TextOf(qs).Some?
    ensures ArePieces([p] + qs) && TextOf([p] + qs).Some?
    ensures EncodeText(TextOf([p] + qs).value) == EncodeChar(CharOf(p)) + EncodeText(TextOf(qs).value)
  {
    hide CharOf, EncodeChar, IsSurrogate, IsPiece;
    assert ([p] + qs)[1..] == qs;
    EncodeBefore(CharOf(p), TextOf(qs).value);
  }

  /** A packed first byte of a longer character leaves the others behind, which begin none. */
  lemma {:induction false} CutIsNoUtf8(s: seq<Byte>)
    requires Utf8.IsUtf8(s) && NUL !in s && CutsACharacter(s)
    ensures !Utf8.IsUtf8(Escaped(s) + [QUOTE])
    decreases |s|
  {
    hide Escaped, Utf8.IsUtf8, Utf8.Encode;
    var c, rest := FirstCharacter(s);
    EscapedHasNoNul(s);
    if c >= 128 {
      HighBytesAreWritten(Utf8.Encode(c), rest);
      CutIsNoUtf8(rest);
      EscapedHasNoNul(rest);
      assert Escaped(s) + [QUOTE] == Utf8.Encode(c) + (Escaped(rest) + [QUOTE]);
      EncodeFirst(c, Escaped(rest) + [QUOTE]);
    } else {
      assert s[1..] == rest;
      CutAfter(c, rest);
    }
  }

  lemma EncodeFirst(c: Utf8.Scalar, rest: seq<Byte>)
    requires NUL !in rest
    ensures Utf8.IsUtf8(Utf8.Encode(c) + rest) ==> Utf8.IsUtf8(rest)
  {
    Utf8.AcceptsEveryEncoding(c, rest);
    Utf8.SplitFirst(Utf8.Encode(c) + rest);
    assert (Utf8.Encode(c) + rest)[|Utf8.Encode(c)|..] == rest;
  }

  lemma {:induction false} CutAfter(c: Byte, rest: seq<Byte>)
    requires 0 < c < 128 && Utf8.IsUtf8(rest) && NUL !in rest && CutsACharacter([c] + rest)
    ensures !Utf8.IsUtf8(Escaped([c] + rest) + [QUOTE])
    decreases |rest| + 1, 0
  {
    hide Escaped, Utf8.IsUtf8;
    var s := [c] + rest;
    assert s[1..] == rest;
    ByteIsSpelled(c, rest);
    if IsOddControl(c) && rest != [] {
      var after, esc := rest[1..], [92, 117] + HexOf(c) + HexOf(rest[0]);
      assert s[2..] == after && rest == [rest[0]] + after;
      InDrop(rest, 1);
      EscapedHasNoNul(after);
      assert Escaped(s) + [QUOTE] == esc + (Escaped(after) + [QUOTE]);
      HexIsAscii(c);
      HexIsAscii(rest[0]);
      AsciiBefore(esc, Escaped(after) + [QUOTE]);
      if rest[0] >= 128 {
        LeftBehind(rest);
      } else {
        LowFirst(rest[0], after);
        CutIsNoUtf8(after);
      }
    } else {
      CutIsNoUtf8(rest);
      EscapedHasNoNul(rest);
      var e := SpellingOf(c, rest);
      assert Escaped(s) + [QUOTE] == e + (Escaped(rest) + [QUOTE]);
      AsciiBefore(e, Escaped(rest) + [QUOTE]);
    }
  }

  lemma SpellingOf(c: Byte, rest: seq<Byte>) returns (e: seq<Byte>)
    requires 0 < c < 128 && !(IsOddControl(c) && rest != [])
    ensures IsAscii(e) && Escaped([c] + rest) == e + Escaped(rest)
  {
    hide Escaped;
    ByteIsSpelled(c, rest);
    ByteIsSpelled(0, []);
    HexIsAscii(c);
    e := if c == 8 then [92, 98] else if c == 9 then [92, 116] else if c == 10 then [92, 110]
         else if c == 12 then [92, 102] else if c == 13 then [92, 114] else if c == 34 || c == 92 then [92, c]
         else if c >= 32 then [c] else [92, 117, 48, 48] + HexOf(c);
    if IsOddControl(c) {
      assert rest == [] && e + [] == e;
    }
  }

  lemma HexIsAscii(c: Byte)
    ensures IsAscii(HexOf(c))
  {
  }

  lemma LeftBehind(rest: seq<Byte>)
    requires rest != [] && rest[0] >= 128 && NUL !in rest && Utf8.IsUtf8(rest)
    ensures !Utf8.IsUtf8(Escaped(rest[1..]) + [QUOTE])
  {
    hide Utf8.IsUtf8;
    Utf8.SplitFirst(rest);
    var b, after := rest[1], rest[2..];
    assert Utf8.IsContinuation(b) && rest[1..] == [b] + after;
    ByteIsSpelled(b, after);
    hide Escaped;
    EscapedHasNoNul(rest[1..]);
    Utf8.SplitFirst(Escaped(rest[1..]) + [QUOTE]);
  }

  /**
   * What is written for UTF-8 text is a literal of the standard iff no odd control byte takes
   * the first byte of a longer character into its escape.
   */
  lemma WrittenIsStandardIff(s: seq<Byte>)
    requires Utf8.IsUtf8(s)
    ensures IsStandard(Escaped(s) + [QUOTE]) <==> !CutsACharacter(s)
  {
    hide Escaped, SpellAll, IsPiece, CutsACharacter;
    var cs: seq<Utf8.Scalar> :| Utf8.EncodeAll(cs) == s;
    Utf8HasNoNul(s, cs);
    hide Utf8.IsUtf8;
    if CutsACharacter(s) {
      CutIsNoUtf8(s);
      if IsStandard(Escaped(s) + [QUOTE]) {
        var ps: seq<Piece> :| ArePieces(ps) && SpellAll(ps) + [QUOTE] == Escaped(s) + [QUOTE];
        SpelledIsUtf8(ps);
      }
    } else {
      var ps := WrittenPieces(s);
    }
  }

  /** A literal whose body is `e`, and which stands for the text `s`. */
  ghost predicate StandsFor(e: seq<Byte>, s: seq<Byte>) {
    exists ps: seq<Piece> :: ArePieces(ps) && SpellAll(ps) == e && Means(ps, s)
  }

  predicate Means(ps: seq<Piece>, s: seq<Byte>)
    requires ArePieces(ps)
  {
    TextOf(ps).Some? && EncodeText(TextOf(ps).value) == s
  }

  /** Written text in UTF-8 stands for itself, backslashes and all, iff no control byte is packed with another byte. */
  lemma WrittenMeansItselfIff(s: seq<Byte>)
    requires Utf8.IsUtf8(s)
    ensures StandsFor(Escaped(s), s) <==> PacksNothing(s)
  {
    hide Escaped, SpellAll, IsPiece, PacksNothing;
    var cs: seq<Utf8.Scalar> :| Utf8.EncodeAll(cs) == s;
    Utf8HasNoNul(s, cs);
    hide Utf8.IsUtf8;
    if PacksNothing(s) {
      PackingNothingCutsNothing(s);
      var ps := WrittenPieces(s);
      assert Means(ps, s);
    }
    if StandsFor(Escaped(s), s) {
      var ps: seq<Piece> :| ArePieces(ps) && SpellAll(ps) == Escaped(s) && Means(ps, s);
      MeantPacksNothing(s, ps);
    }
  }

  /** Conversely, what stands for itself packs nothing: a packed byte would stand for a character above 255. */
  lemma {:induction false} MeantPacksNothing(s: seq<Byte>, ps: seq<Piece>)
    requires NUL !in s && ArePieces(ps) && SpellAll(ps) == Escaped(s) && Means(ps, s)
    ensures PacksNothing(s)
    decreases |ps|
  {
    hide Escaped, PacksNothing, Spell, CharOf, EncodeChar, IsPiece;
    if ps == [] {
      EmptyPacksNothing();
    } else {
      var p, qs := ps[0], ps[1..];
      if p.Unit? {
        UnitIsLast(s, ps);
      } else {
        var rest := EncodeText(TextOf(qs).value);
        EncodeBefore(CharOf(p), TextOf(qs).value);
        OthersAreWritten(p, rest, SpellAll(qs));
        InDrop(s, |s| - |rest|);
        assert s[|s| - |rest|..] == rest;
        MeantPacksNothing(rest, qs);
      }
    }
  }

  lemma EmptyPacksNothing()
    ensures PacksNothing([])
  {
  }

  lemma OthersAreWritten(p: Piece, rest: seq<Byte>, y: seq<Byte>)
    requires IsPiece(p) && !p.Unit? && Escaped(EncodeChar(CharOf(p)) + rest) == Spell(p) + y
    ensures y == Escaped(rest) && (PacksNothing(rest) ==> PacksNothing(EncodeChar(CharOf(p)) + rest))
  {
    hide Escaped, PacksNothing, Utf8.Encode;
    var c, x := CharOf(p), EncodeChar(CharOf(p));
    EncodedBytes(c);
    if c >= 128 {
      HighBytesAreWritten(x, rest);
    } else {
      ByteIsSpelled(c, rest);
      assert Escaped(x + rest)[0] == Spell(p)[0];
      assert Escaped(x + rest) == Spell(p) + Escaped(rest);
    }
    SameEnd(Spell(p), y, Escaped(rest));
    PacksAbove(x, rest);
  }

  lemma SameEnd<T>(a: seq<T>, x: seq<T>, y: seq<T>)
    requires a + x == a + y
    ensures x == y
  {
    assert x == (a + x)[|a|..] && y == (a + y)[|a|..];
  }

  lemma PacksAbove(x: seq<Byte>, rest: seq<Byte>)
    requires forall b :: b in x ==> !IsOddControl(b)
    ensures PacksNothing(rest) ==> PacksNothing(x + rest)
  {
    if PacksNothing(rest) {
      forall i | 0 <= i < |x + rest| - 1 ensures !IsOddControl((x + rest)[i]) {
        if i >= |x| {
          assert (x + rest)[i] == rest[i - |x|];
        }
      }
    }
  }

  /** An escape by digits that is written for its own character is that of a last byte. */
  lemma UnitIsLast(s: seq<Byte>, ps: seq<Piece>)
    requires ps != [] && ps[0].Unit? && NUL !in s && ArePieces(ps) && SpellAll(ps) == Escaped(s) && Means(ps, s)
    ensures PacksNothing(s)
  {
    hide Escaped, EncodeChar, UnitCode, IsUnit;
    var p := ps[0];
    var text := TextOf(ps).value;
    FirstByteOf(text[0]);
    assert s[0] == EncodeChar(text[0])[0];
    UnitSpelled(p, SpellAll(ps[1..]));
    assert s == [s[0]] + s[1..];
    ByteIsSpelled(s[0], s[1..]);
    assert IsOddControl(s[0]);
    if |s| > 1 {
      DigitsOfControl(s[0], s[1..]);
      assert false;
    }
  }

  lemma DigitsOfControl(c: Byte, rest: seq<Byte>)
    requires 0 < c && IsOddControl(c) && rest != []
    ensures var e := Escaped([c] + rest); |e| >= 6 && IsUnit(e[2..6]) && UnitCode(e[2..6]) == c as int * 0x100 + rest[0]
  {
    hide Escaped, IsUnit, UnitCode;
    ByteIsSpelled(c, rest);
    UnitOfHex(c, rest[0]);
    assert Escaped([c] + rest)[2..6] == HexOf(c) + HexOf(rest[0]);
  }

  lemma UnitSpelled(p: Piece, rest: seq<Byte>)
    requires IsPiece(p) && p.Unit?
    ensures var e := Spell(p) + rest; |e| >= 6 && e[0] == 92 && e[1] == 117 && e[2..6] == p.digits
  {
    assert (Spell(p) + rest)[2..6] == p.digits;
  }

  lemma FirstByteOf(c: Character)
    ensures EncodeChar(c)[0] < 128 ==> EncodeChar(c) == [c]
  {
  }

  lemma {:induction false} PackingNothingCutsNothing(s: seq<Byte>)
    requires PacksNothing(s)
    ensures !CutsACharacter(s)
    decreases |s|
  {
    hide PacksNothing;
    if s != [] {
      assert s == [s[0]] + s[1..];
      PacksBelow(s[0], s[1..]);
      PackingNothingCutsNothing(s[1..]);
    }
  }

  /** A start-of-heading byte before `e` with an acute accent: the literal is not UTF-8. */
  lemma CutHappens()
    ensures Utf8.IsUtf8([1, 0xC3, 0xA9]) && CutsACharacter([1, 0xC3, 0xA9])
  {
    var e: Utf8.Scalar := 0xE9;
    assert Utf8.Encode(e) == [0xC3, 0xA9];
    OneIsUtf8(e);
    LowFirst(1, [0xC3, 0xA9]);
    assert [1] + [0xC3, 0xA9] == [1, 0xC3, 0xA9];
  }

  // ---- a literal of each kind ----

  /** The standard spelling of `O` as `004f`, and of a backslash: both are refused. */
  lemma StandardLiteralsRefused()
    ensures IsPiece(Unit([48, 48, 52, LOWER_F])) && Decode(Spell(Unit([48, 48, 52, LOWER_F])) + [QUOTE]) == Malformed
    ensures IsPiece(Letter(BACKSLASH)) && Decode(Spell(Letter(BACKSLASH)) + [QUOTE]) == Malformed
  {
    PieceIsReadIff(Unit([48, 48, 52, LOWER_F]), [QUOTE]);
    PieceIsReadIff(Letter(BACKSLASH), [QUOTE]);
  }

  const HIGH := Unit([100, 56, 51, 100])
  const LOW := Unit([100, 101, 48, 48])

  /** The standard spelling of U+1F600 as a pair, `d83d` and `de00`: it is read as the three bytes of either half. */
  lemma PairIsNotCombined()
    ensures ArePieces([HIGH, LOW]) && TextOf([HIGH, LOW]) == Some([0x1F600])
    ensures EncodeText([0x1F600]) == [0xF0, 0x9F, 0x98, 0x80]
    ensures Decode(SpellAll([HIGH, LOW]) + [QUOTE]) == Closed([0xED, 0xA0, 0xBD, 0xED, 0xB8, 0x80], 13)
  {
    hide Decode, UnitCode;
    HalvesMean();
    PairMeans(HIGH, LOW);
    LiteralIsTakenIff([HIGH, LOW], []);
    assert SpellAll([HIGH, LOW]) + [QUOTE] + [] == SpellAll([HIGH, LOW]) + [QUOTE];
    assert EncodeText([0x1F600]) == EncodeChar(0x1F600) + EncodeText([]);
  }

  lemma HalvesMean()
    ensures IsUnit(HIGH.digits) && UnitCode(HIGH.digits) == 0xD83D && EncodeUnit(0xD83D) == [0xED, 0xA0, 0xBD]
    ensures IsUnit(LOW.digits) && UnitCode(LOW.digits) == 0xDE00 && EncodeUnit(0xDE00) == [0xED, 0xB8, 0x80]
  {
  }

  lemma PairMeans(high: Piece, low: Piece)
    requires IsPiece(high) && IsPiece(low) && ArePair(high, low)
    ensures TextOf([high, low]) == Some([Combined(high, low)])
    ensures StoredAll([high, low]) == Stored(high) + Stored(low) && SpellAll([high, low]) == Spell(high) + Spell(low)
  {
    hide Combined, Stored, IsSurrogate, Spell;
    assert [high, low][1..] == [low] && [high, low][2..] == [] && [low][1..] == [];
    assert TextOf([high, low][2..]) == Some([]);
    assert StoredAll([low]) == Stored(low) + [] && SpellAll([low]) == Spell(low) + [];
    var c := Combined(high, low);
    assert [c] + [] == [c];
    assert Before(c, Some([])) == Some([c]);
  }

  /** Raw control bytes, and a byte that no UTF-8 has: both are read as they stand. */
  lemma RawBytesAreRead()
    ensures Decode([HT, 1, QUOTE]) == Closed([HT, 1], 3) && !IsStandard([HT, 1, QUOTE])
    ensures Decode([0xFF, QUOTE]) == Closed([0xFF], 2) && !IsStandard([0xFF, QUOTE])
  {
    assert [HT, 1, QUOTE][1..] == [1, QUOTE] && [1, QUOTE][1..] == [QUOTE] && [0xFF, QUOTE][1..] == [QUOTE];
    QuoteCloses([]);
    assert Decode([QUOTE]) == Closed([], 1) && [HT] + ([1] + []) == [HT, 1];
    ReadIsStandardIff([HT, 1, QUOTE]);
    ReadIsStandardIff([0xFF, QUOTE]);
    assert [HT, 1, QUOTE][..3] == [HT, 1, QUOTE] && [0xFF, QUOTE][..2] == [0xFF, QUOTE];
    assert HT in [HT, 1, QUOTE];
    Utf8.SplitFirst([0xFF, QUOTE]);
  }
}
