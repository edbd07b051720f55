/**
 * The reader's string path: it unescapes a literal into the very buffer it is still
 * reading, behind the read position.
 */
module JsonReader {
  import opened Bytes
  import opened Json

  /** The byte read `i` bytes on: NUL past the end. */
  function ByteAt(s: seq<Byte>, i: nat): Byte {
    if i < |s| then s[i] else NUL
  }

  function Min(a: nat, b: nat): nat {
    if a < b then a else b
  }

  /** One of the next four bytes would be looked up with a negative index. */
  predicate HighDigit(s: seq<Byte>) {
    || ByteAt(s, 0) >= 128 || ByteAt(s, 1) >= 128 || ByteAt(s, 2) >= 128 || ByteAt(s, 3) >= 128
  }

  /**
   * Whether the reader leaves its table or its buffer on these bytes, given its write
   * position; wrong digits do not stop it. It leaves the table at a digit from 128 on, and
   * the buffer when the text ends so early in an escape that less than four bytes lie
   * before the write position, counting those of the escape's digits that are there.
   */
  predicate Strays(s: seq<Byte>, w: nat)
    decreases |s|
  {
    if s == [] || s[0] == NUL || s[0] == LF || s[0] == QUOTE then false
    else if s[0] != BACKSLASH then Strays(s[1..], w + 1)
    else if |s| < 2 then false
    else if s[1] == LOWER_U then
      var d := s[2..];
      HighDigit(d) || if |d| < 4 then w + |d| < 4 else Strays(d[4..], w + |EncodeUnit(Code(d))|)
    else Unescape(s[1]).Some? && Strays(s[2..], w + 1)
  }

  /** The next four bytes, NUL for those past the end. */
  function Padded(s: seq<Byte>): (r: seq<Byte>)
    ensures |r| == 4
  {
    [ByteAt(s, 0), ByteAt(s, 1), ByteAt(s, 2), ByteAt(s, 3)]
  }

  datatype Store = Store(at: int, bytes: seq<Byte>)

  /**
   * What the reader stores, and where, for an escape that the end of the text cuts short: it
   * counts six bytes for it, however many there are, so it goes too far back, even in front
   * of the literal. `w` is the write position.
   */
  function Cut(s: seq<Byte>, w: nat): Option<Store>
    decreases |s|
  {
    if s == [] || s[0] == NUL || s[0] == LF || s[0] == QUOTE then None
    else if s[0] != BACKSLASH then Cut(s[1..], w + 1)
    else if |s| < 2 then None
    else if s[1] == LOWER_U then
      var d := s[2..];
      if |d| < 4 then Some(Store(w + |d| - 4, EncodeUnit(Code(Padded(d)))))
      else Cut(d[4..], w + |EncodeUnit(Code(d))|)
    else if Unescape(s[1]).Some? then Cut(s[2..], w + 1)
    else None
  }

  /** A text that ends in a truncated escape makes the reader overwrite three or four bytes back. */
  lemma TruncatedEscapeStores(digits: seq<Byte>, w: nat)
    requires |digits| < 4
    ensures Cut([BACKSLASH, LOWER_U] + digits, w) ==
            Some(Store(w + |digits| - 4, EncodeUnit(Code(Padded(digits)))))
    ensures EncodeUnit(Code(Padded([]))) == [0xF1, 0x84, 0x90]
  {
    assert ([BACKSLASH, LOWER_U] + digits)[2..] == digits;
    assert Code(Padded([])) == 0x1_1110;
  }

  /** A literal never makes it stray. */
  lemma {:induction false} ClosedNeverStrays(s: seq<Byte>, w: nat)
    requires Decode(s).Closed?
    ensures !Strays(s, w)
    decreases |s|
  {
    if s[0] == QUOTE {
    } else if s[0] != BACKSLASH {
      ClosedNeverStrays(s[1..], w + 1);
    } else if s[1] == LOWER_U {
      var d := s[2..];
      assert HexValue(d[0]) < 16 && HexValue(d[1]) < 16 && HexValue(d[2]) < 16 && HexValue(d[3]) < 16;
      assert d[4..] == s[6..];
      ClosedNeverStrays(d[4..], w + |EncodeUnit(Code(d))|);
    } else {
      ClosedNeverStrays(s[2..], w + 1);
    }
  }

  /**
   * A text that is a quote and a truncated escape at the very start of the buffer: with less
   * than three digits, or with a digit from 128 on, the reader strays.
   */
  lemma TruncatedEscapeStrays(digits: seq<Byte>)
    requires |digits| < 4
    ensures Strays([BACKSLASH, LOWER_U] + digits, 1) <==> |digits| < 3 || HighDigit(digits)
  {
    assert ([BACKSLASH, LOWER_U] + digits)[2..] == digits;
  }

  /** What is left after `i` bytes or the end. */
  function Drop(s: seq<Byte>, i: nat): seq<Byte> {
    s[Min(i, |s|)..]
  }

  lemma DropStep(s: seq<Byte>, i: nat)
    ensures ByteAt(s, i) == if Drop(s, i) == [] then NUL else Drop(s, i)[0]
    ensures Drop(s, i + 1) == if Drop(s, i) == [] then [] else Drop(s, i)[1..]
    ensures Drop(s, 0) == s && Min(i + 1, |s|) == if Drop(s, i) == [] then Min(i, |s|) else Min(i, |s|) + 1
  {
  }

  lemma FourBytes(s: seq<Byte>)
    ensures FourDigits(s) <==> HexValue(ByteAt(s, 0)) < 16 && HexValue(ByteAt(s, 1)) < 16
                               && HexValue(ByteAt(s, 2)) < 16 && HexValue(ByteAt(s, 3)) < 16
    ensures |s| >= 4 ==> Code(s) == Code(Padded(s))
    ensures Code(Padded(s)) == ((HexValue(ByteAt(s, 0)) * 16 + HexValue(ByteAt(s, 1))) * 16 +
            HexValue(ByteAt(s, 2))) * 16
                         + HexValue(ByteAt(s, 3))
  {
  }

  /** The range of a `uint64_t`. */
  const RANGE64 := 0x1_0000_0000_0000_0000

  class Reader {
    const mem: array<Byte>
    const len: nat
    var offset: nat
    var endMark: bool
    var tokenStart: nat
    var tokenLength: int
    /** `g_has_error`. */
    var hasError: bool
    /** The source would have indexed its digit table or its buffer with a negative number. */
    var outOfRange: bool

    /** The bytes still to be read: up to the first NUL or the end of the text. */
    ghost var rest: seq<Byte>

    /** Nothing is left iff the end mark is set; the byte after the text may be read. */
    ghost predicate Valid()
      reads this`offset, this`endMark, this`rest, mem
    {
      && offset + |rest| <= len < mem.Length && rest == mem[offset..offset + |rest|] && NUL !in rest
      && (offset + |rest| == len || mem[offset + |rest|] == NUL)
      && (endMark <==> rest == [])
    }

    lemma InBounds()
      requires Valid()
      ensures offset + |rest| <= len < mem.Length && (rest != [] ==> mem[offset] == rest[0])
    {
    }

    constructor (mem: array<Byte>, len: nat)
      requires len < mem.Length
      ensures Valid() && this.mem == mem && this.len == len && offset == 0 && !hasError && !outOfRange
      ensures rest == mem[..StrLen(mem[..len])]
    {
      this.mem, this.len := mem, len;
      offset, endMark := 0, len == 0 || mem[0] == NUL;
      rest := mem[..StrLen(mem[..len])];
      tokenStart, tokenLength, hasError, outOfRange := 0, 0, false, false;
    }

    method Read() returns (c: Byte)
      requires Valid()
      ensures c == if rest == [] then NUL else rest[0]
    {
      c := if endMark then NUL else mem[offset];
    }

    method Take()
      requires Valid()
      modifies this`offset, this`endMark, this`rest
      ensures Valid()
      ensures if old(rest) == [] then offset == old(offset) && rest == []
              else offset == old(offset) + 1 && rest == old(rest)[1..]
    {
      if !endMark {
        offset := offset + 1;
        rest := rest[1..];
        var v := mem[offset];
        if len > 0 && offset >= len {
          endMark := true;
        } else if v == NUL {
          endMark := true;
        }
      }
    }

    /** `fill_escape_char`: with nothing escaped so far the byte is already in place. */
    method Fill(count: nat, c: Byte)
      requires Valid()
      modifies this`outOfRange, mem
      ensures Valid()
      ensures outOfRange == (old(outOfRange) || count > offset)
      ensures mem[..] == if 0 < count <= offset then old(mem[..])[offset - count := c] else old(mem[..])
    {
      if count == 0 {
        return;
      }
      if count > offset {
        outOfRange := true;
        return;
      }
      mem[offset - count] := c;
    }

    /**
     * `char_to_hex`: a wrong digit only sets the error flag. For a byte from 128 on the table
     * is left, and any `char` may be found there.
     */
    method CharToHex(v: Byte) returns (digit: int)
      modifies this`hasError, this`outOfRange
      ensures -128 <= digit < 128 && outOfRange == (old(outOfRange) || v >= 128)
      ensures v < 128 ==> digit == HexValue(v)
      ensures hasError == (old(hasError) || digit > 15)
    {
      if v >= 128 {
        outOfRange := true;
        var found: int :| -128 <= found < 128;
        digit := found;
      } else {
        digit := HexValue(v);
      }
      if digit > 15 {
        hasError := true;
      }
    }

    /** One of the four steps of `read_utf`. */
    method ReadDigit(ghost s: seq<Byte>, ghost i: nat) returns (digit: int)
      requires Valid() && rest == Drop(s, i)
      modifies this`offset, this`endMark, this`rest, this`hasError, this`outOfRange
      ensures Valid() && rest == Drop(s, i + 1) && offset == old(offset) + Min(i + 1, |s|) - Min(i, |s|)
      ensures -128 <= digit < 128 && outOfRange == (old(outOfRange) || ByteAt(s, i) >= 128)
      ensures ByteAt(s, i) < 128 ==> digit == HexValue(ByteAt(s, i))
      ensures hasError == (old(hasError) || digit > 15)
    {
      hide *;
      DropStep(s, i);
      var v := Read();
      digit := CharToHex(v);
      Take();
    }

    /** `read_utf`: four bytes, or as many as there are, whatever they are. */
    method ReadUtf() returns (utf: nat)
      requires Valid()
      modifies this`offset, this`endMark, this`rest, this`hasError, this`outOfRange
      ensures Valid() && rest == Drop(old(rest), 4) && offset == old(offset) + Min(4, |old(rest)|)
      ensures outOfRange == (old(outOfRange) || HighDigit(old(rest))) && utf < RANGE64
      ensures !HighDigit(old(rest)) ==>
                && hasError == (old(hasError) || !FourDigits(old(rest)))
                && utf == Code(Padded(old(rest))) < 0x2_0000
    {
      hide Valid, Drop, ByteAt, HexValue, FourDigits, Code, Min;
      ghost var s := rest;
      DropStep(s, 0);
      FourBytes(s);
      MinZero(|s|);
      var a := ReadDigit(s, 0);
      utf := a % RANGE64;
      utf := utf * 16 % RANGE64;
      var b := ReadDigit(s, 1);
      utf := (utf + b) % RANGE64;
      utf := utf * 16 % RANGE64;
      var c := ReadDigit(s, 2);
      utf := (utf + c) % RANGE64;
      utf := utf * 16 % RANGE64;
      var d := ReadDigit(s, 3);
      utf := (utf + d) % RANGE64;
      if 0 <= a < 18 && 0 <= b < 18 && 0 <= c < 18 && 0 <= d < 18 {
        FourNibbles(a, b, c, d);
      }
    }

    method Fill2(count: nat, b0: Byte, b1: Byte)
      requires Valid() && count >= 2
      modifies this`outOfRange, mem
      ensures Valid() && outOfRange == (old(outOfRange) || count > offset)
      ensures count <= offset ==> mem[..] == old(mem[..])[offset - count := b0][offset - count + 1 := b1]
    {
      hide *;
      Fill(count, b0);
      Fill(count - 1, b1);
    }

    method Fill3(count: nat, b0: Byte, b1: Byte, b2: Byte)
      requires Valid() && count >= 3
      modifies this`outOfRange, mem
      ensures Valid() && outOfRange == (old(outOfRange) || count > offset)
      ensures count <= offset ==>
                mem[..] == old(mem[..])[offset - count := b0][offset - count + 1 := b1][offset - count + 2 := b2]
    {
      hide *;
      Fill2(count, b0, b1);
      Fill(count - 2, b2);
    }

    /** The bytes of a code go to the write position, `count` before the read position. */
    method WriteUnit(escCount: nat, utf: nat) returns (count: nat)
      requires Valid() && utf < RANGE64 && escCount >= 6
      modifies this`hasError, this`outOfRange, mem
      ensures Valid() && outOfRange == (old(outOfRange) || escCount > offset) && count < escCount
      ensures utf < 0x2_0000 ==>
                var unit := EncodeUnit(utf);
                var at := offset - escCount;
                && hasError == old(hasError) && count + |unit| == escCount
                && (at >= 0 ==> mem[..] == old(mem[..])[..at] + unit + old(mem[..])[at + |unit|..])
    {
      hide *;
      InBounds();
      ghost var m, at := mem[..], offset - escCount;
      if utf < 0x80 {
        Fill(escCount, utf);
        if 0 <= at {
          UnitBytes1(m, at, utf);
        }
        UnitLength(utf);
        count := escCount - 1;
      } else if utf < 0x800 {
        Fill2(escCount, 0xC0 + utf / 0x40, 0x80 + utf % 0x40);
        if 0 <= at {
          UnitBytes2(m, at, utf);
        }
        UnitLength(utf);
        count := escCount - 2;
      } else if utf < 0x8_0000 {
        Fill3(escCount, 0xE0 + utf / 0x1000 % 0x20, 0x80 + utf / 0x40 % 0x40, 0x80 + utf % 0x40);
        if utf < 0x2_0000 {
          TopBits(utf);
          if 0 <= at {
            UnitBytes3(m, at, utf);
          }
          UnitLength(utf);
        }
        count := escCount - 3;
      } else {
        if utf < 0x11_0000 {
          hasError := true;
        }
        Fill3(escCount, 0xF0 + utf / 0x4_0000 % 0x10, 0x80 + utf / 0x1000 % 0x40, 0x80 + utf / 0x40 % 0x40);
        Fill(escCount - 3, 0x80 + utf % 0x40);
        count := escCount - 4;
      }
    }

    /** `esacpe_utf8`: the six bytes of a `\u` escape become one, two or three. */
    method EscapeUtf8(escCount: nat) returns (count: nat)
      requires Valid()
      modifies this`offset, this`endMark, this`rest, this`hasError, this`outOfRange, mem
      ensures var s := old(rest);
              && Valid() && rest == Drop(s, 4) && offset == old(offset) + Min(4, |s|) && count < escCount + 6
              && outOfRange == (old(outOfRange) || HighDigit(s) || escCount + 6 > offset)
              && (!HighDigit(s) ==> hasError == (old(hasError) || !FourDigits(s)))
              && (!HighDigit(s) ==>
                    var unit := EncodeUnit(Code(Padded(s)));
                    var at := offset - 6 - escCount;
                    && count + |unit| == escCount + 6
                    && (at >= 0 ==> mem[..] == old(mem[..])[..at] + unit + old(mem[..])[at + |unit|..]))
    {
      hide *;
      var utf := ReadUtf();
      count := WriteUnit(escCount + 6, utf);
    }

    /** The loop's case of a `\u` escape, its backslash just read and its `u` next. */
    method StoreUnit(escCount: nat, ghost g: Goal, ghost ahead: seq<Byte>, ghost done: seq<Byte>)
      returns (count: nat, ghost done': seq<Byte>)
      requires Valid() && |ahead| >= 2 && rest == ahead[1..] && ahead[0] == BACKSLASH && ahead[1] == LOWER_U
      requires offset > 0 && Running(mem[..], offset - 1, g, escCount, done, ahead, hasError, outOfRange)
      modifies this`offset, this`endMark, this`rest, this`hasError, this`outOfRange, mem
      ensures Valid() && |rest| < |ahead|
      ensures Running(mem[..], offset, g, count, done', rest, hasError, outOfRange)
    {
      hide *;
      ghost var now, at, failed, lost, digits := mem[..], offset - 1, hasError, outOfRange, ahead[2..];
      InBounds();
      Take();
      assert rest == digits && offset == at + 2 && mem[..] == now;
      count := EscapeUtf8(escCount);
      DropShrinks(digits, 4);
      done' := if |digits| >= 4 then done + EncodeUnit(Code(digits)) else done;
      UnitRuns(now, mem[..], at, g, escCount, count, done, ahead, failed, hasError, lost, outOfRange);
    }

    /** The end of the loop's body: `c`, read as the last of `used` bytes, is stored and passed. */
    method StoreChar(escCount: nat, c: Byte, ghost used: nat, ghost g: Goal, ghost ahead: seq<Byte>,
                     ghost done: seq<Byte>)
      returns (ghost done': seq<Byte>)
      requires Valid() && 1 <= used <= |ahead| && rest == ahead[used - 1..] && (used == 1 ==> c == ahead[0])
      requires used <= offset + 1 && used <= escCount + 1
      requires Running(mem[..], offset + 1 - used, g, escCount + 1 - used, done, ahead, hasError, outOfRange)
      requires StandsFor(ahead, c, used)
      modifies this`offset, this`endMark, this`rest, this`outOfRange, mem
      ensures Valid() && |rest| < |ahead|
      ensures Running(mem[..], offset, g, escCount, done', rest, hasError, outOfRange)
    {
      hide *;
      ghost var now, at, start, lost := mem[..], offset + 1 - used, offset, outOfRange;
      InBounds();
      RestAfter(ahead, used, rest);
      assert escCount == 0 ==> used == 1 && now[start] == c;
      Fill(escCount, c);
      assert escCount <= start ==> mem[..] == if escCount > 0 then now[start - escCount := c] else now;
      Take();
      assert rest == ahead[used..];
      done' := done + [c];
      CharRuns(now, mem[..], at, g, escCount, done, c, used, ahead, hasError, lost, outOfRange);
    }

    /** The loop's case of the closing quote. */
    method CloseToken(escCount: nat, ghost g: Goal, ghost done: seq<Byte>)
      requires Valid() && rest != [] && rest[0] == QUOTE && tokenStart == g.base
      requires Running(mem[..], offset, g, escCount, done, rest, hasError, outOfRange)
      modifies this`offset, this`endMark, this`rest, this`tokenLength
      ensures Valid() && Ended(g, hasError, outOfRange) && (!outOfRange ==> Kept(mem[..], offset, g))
      ensures !hasError && !outOfRange ==> Finished(g, Decode(g.s))
    {
      hide *;
      RunEnds(mem[..], offset, g, escCount, done, rest, hasError, outOfRange);
      tokenLength := offset - escCount - tokenStart;
      Take();
      if !hasError && !outOfRange {
        FinishedMeans(g, done);
      }
    }

    /** The token holds the literal's text in place, and nothing outside the literal has changed. */
    ghost predicate Finished(g: Goal, read: Literal)
      reads this, mem
    {
      && read.Closed? && !outOfRange
      && tokenStart == g.base && tokenLength == |read.text| && offset == g.base + read.used &&
         tokenStart + tokenLength < offset
      && |g.m| == mem.Length && offset <= mem.Length
      && mem[tokenStart..tokenStart + tokenLength] == read.text
      && mem[..g.base] == g.m[..g.base] && mem[offset..] == g.m[offset..]
    }

    lemma FinishedMeans(g: Goal, done: seq<Byte>)
      requires !outOfRange && tokenStart == g.base && tokenLength == |done| && |g.m| == mem.Length
      requires g.base + |done| < offset <= mem.Length && Decode(g.s) == Closed(done, offset - g.base)
      requires mem[..][..g.base] == g.m[..g.base] && mem[..][g.base..g.base + |done|] == done &&
               mem[..][offset..] == g.m[offset..]
      ensures Finished(g, Decode(g.s))
    {
      assert mem[..][g.base..g.base + |done|] == mem[g.base..g.base + |done|];
      assert mem[..][..g.base] == mem[..g.base] && mem[..][offset..] == mem[offset..];
    }

    /** One turn of the loop that does not end it, on a byte that is no quote, NUL or line feed. */
    method StoreNext(c: Byte, escCount: nat, ghost g: Goal, ghost done: seq<Byte>)
      returns (more: bool, count: nat, ghost done': seq<Byte>)
      requires Valid() && rest != [] && c == rest[0] && c != QUOTE && c != NUL && c != LF
      requires Running(mem[..], offset, g, escCount, done, rest, hasError, outOfRange)
      modifies this`offset, this`endMark, this`rest, this`hasError, this`outOfRange, mem
      ensures Valid()
      ensures if more then |rest| < |old(rest)| && Running(mem[..], offset, g, count, done', rest, hasError, outOfRange)
              else Ended(g, hasError, outOfRange) && hasError && (!outOfRange ==> Kept(mem[..], offset, g))
    {
      hide *;
      ghost var ahead := rest;
      ByteMeans(ahead);
      more, count, done' := true, escCount, done;
      if c == BACKSLASH {
        Take();
        var letter := Read();
        if letter == LOWER_U {
          count, done' := StoreUnit(escCount, g, ahead, done);
          return;
        }
        var plain := Unescape(letter);
        if plain.None? {
          RunFails(mem[..], offset - 1, g, escCount, done, ahead, hasError, outOfRange);
          hasError := true;
          more := false;
          return;
        }
        count := escCount + 1;
        done' := StoreChar(count, plain.value, 2, g, ahead, done);
      } else {
        done' := StoreChar(count, c, 1, g, ahead, done);
      }
    }

    /** The loop of `parser_quote_string`, from just after the opening quote. */
    method ReadLiteral(ghost g: Goal)
      requires Valid() && g == Goal(offset, rest, mem[..]) && tokenStart == offset && !hasError && !outOfRange
      modifies this`offset, this`endMark, this`rest, this`tokenLength, this`hasError, this`outOfRange, mem
      ensures Valid() && Ended(g, hasError, outOfRange) && (!outOfRange ==> Kept(mem[..], offset, g))
      ensures !hasError && !outOfRange ==> Finished(g, Decode(g.s))
    {
      hide Valid, Decode, Strays, Running, Ended, Finished, Kept, Cut;
      var c := Read();
      var escCount := 0;
      ghost var done: seq<Byte> := [];
      InBounds();
      RunStarts(g);
      while true
        invariant Valid() && c == if rest == [] then NUL else rest[0]
        invariant tokenStart == g.base
        invariant Running(mem[..], offset, g, escCount, done, rest, hasError, outOfRange)
        decreases |rest|
      {
        if c == QUOTE {
          CloseToken(escCount, g, done);
          return;
        }
        if c == NUL || c == LF {
          DecodeCases(rest);
          EndStrays(rest);
          RunFails(mem[..], offset, g, escCount, done, rest, hasError, outOfRange);
          hasError := true;
          return;
        }
        var more;
        more, escCount, done := StoreNext(c, escCount, g, done);
        if !more {
          return;
        }
        c := Read();
      }
    }

    /**
     * `parser_quote_string`, with the opening quote next. It strays out of its table or its
     * buffer exactly on the texts that `Strays` tells. On any other it ends without an error
     * exactly when the bytes after the quote are a literal; then the token is the literal's
     * text, held in place, and no byte outside the literal has changed.
     */
    method ParserQuoteString()
      requires Valid() && rest != [] && !hasError && !outOfRange
      modifies this, mem
      ensures Valid()
      ensures outOfRange <==> Strays(old(rest)[1..], old(offset) + 1)
      ensures !outOfRange ==> (!hasError <==> Decode(old(rest)[1..]).Closed?)
      ensures !outOfRange ==> Kept(mem[..], offset, Goal(old(offset) + 1, old(rest)[1..], old(mem[..])))
      ensures Decode(old(rest)[1..]).Closed? ==>
                var read := Decode(old(rest)[1..]);
                var base := old(offset) + 1;
                && !outOfRange && !hasError
                && tokenStart == base && tokenLength == |read.text| && mem[base..base + |read.text|] == read.text
                && offset == base + read.used <= mem.Length && base + tokenLength < offset
                && mem[..base] == old(mem[..])[..base] && mem[offset..] == old(mem[..])[offset..]
    {
      hide Decode, Strays, Cut, Kept;
      ghost var m := mem[..];
      Take();
      tokenStart := offset;
      ghost var g := Goal(offset, rest, m);
      ReadLiteral(g);
      if Decode(g.s).Closed? {
        ClosedNeverStrays(g.s, g.base);
      }
    }
  }

  lemma MinZero(n: nat)
    ensures Min(0, n) == 0
  {
  }

  lemma DropShrinks(s: seq<Byte>, i: nat)
    ensures |Drop(s, i)| <= |s| && (i <= |s| ==> Drop(s, i) == s[i..]) && (i >= |s| ==> Drop(s, i) == [])
    ensures i <= |s| ==> Min(i, |s|) == i
  {
  }

  lemma NoWrap(x: nat)
    requires x < RANGE64
    ensures x % RANGE64 == x
  {
  }

  /** Digits from the table, and its two other values, never make the sum wrap. */
  lemma FourNibbles(a: nat, b: nat, c: nat, d: nat)
    requires a < 18 && b < 18 && c < 18 && d < 18
    ensures (((((a % RANGE64 * 16 % RANGE64) + b) % RANGE64 * 16 % RANGE64) + c) % RANGE64 * 16 % RANGE64 + d) % RANGE64
            == ((a * 16 + b) * 16 + c) * 16 + d < 0x2_0000
  {
    NoWrap(a);
    NoWrap(a * 16);
    NoWrap(a * 16 + b);
    NoWrap((a * 16 + b) * 16);
    NoWrap((a * 16 + b) * 16 + c);
    NoWrap(((a * 16 + b) * 16 + c) * 16);
    NoWrap(((a * 16 + b) * 16 + c) * 16 + d);
  }

  lemma RestAfter<T>(ahead: seq<T>, used: nat, rest: seq<T>)
    requires 1 <= used <= |ahead| && rest == ahead[used - 1..]
    ensures rest != [] && rest[0] == ahead[used - 1] && rest[1..] == ahead[used..]
  {
  }

  lemma OneByteWritten<T>(m: seq<T>, w: nat, c: T)
    requires w < |m|
    ensures m[w := c] == m[..w] + [c] + m[w + 1..]
    ensures m[w] == c ==> m == m[..w] + [c] + m[w + 1..]
  {
  }

  /** What one call is up to: where the literal starts, its bytes and all that follows, and the buffer at the start. */
  datatype Goal = Goal(base: nat, s: seq<Byte>, m: seq<Byte>)

  /**
   * The reader's state between bytes, as long as no error was seen: `done` is decoded and
   * in place, the read position `at` is `escCount` past the write position, what is ahead
   * is untouched, and the literal's meaning is `done` and then what is ahead.
   */
  ghost predicate Progress(now: seq<Byte>, at: nat, g: Goal, escCount: nat, done: seq<Byte>, ahead: seq<Byte>) {
    && InPlace(now, at, g.base, escCount, done, g.m) && at + |ahead| <= |now|
    && Decode(g.s) == Prepend(done, at - g.base, Decode(ahead))
  }

  ghost predicate InPlace<T>(now: seq<T>, at: nat, base: nat, escCount: nat, done: seq<T>, m: seq<T>) {
    && |now| == |m| && at <= |m| && base + |done| + escCount == at
    && now[..base] == m[..base] && now[base..base + |done|] == done && now[at..] == m[at..]
  }

  /** What one call leaves of the buffer, with the read position at `at`, if it does not stray. */
  ghost predicate Kept(now: seq<Byte>, at: nat, g: Goal) {
    && |now| == |g.m| && g.base <= at <= |now| && now[at..] == g.m[at..]
    && match Cut(g.s, g.base)
       case None => now[..g.base] == g.m[..g.base]
       case Some(st) => Overwrote(now, g, st)
  }

  /** A truncated escape left its bytes, and nothing else in front of the literal. */
  ghost predicate Overwrote(now: seq<Byte>, g: Goal, st: Store) {
    && 0 <= st.at && st.at + |st.bytes| <= |now| == |g.m| && now[st.at..st.at + |st.bytes|] == st.bytes
    && g.base <= |g.m| && now[..Min(g.base, st.at)] == g.m[..Min(g.base, st.at)]
  }

  /** Up to such an escape, which ends the text, the write position stays in the literal. */
  ghost predicate Framed(now: seq<Byte>, at: nat, g: Goal, escCount: nat, ahead: seq<Byte>)
    requires escCount <= at
  {
    && |now| == |g.m| && g.base <= at <= |now| && now[at..] == g.m[at..]
    && if ahead == [] && Cut(g.s, g.base).Some? then Overwrote(now, g, Cut(g.s, g.base).value)
       else
         && g.base <= at - escCount && now[..g.base] == g.m[..g.base]
         && Cut(g.s, g.base) == Cut(ahead, at - escCount)
  }

  /** Where the text, or the literal, ends without such an escape. */
  lemma FramedEnds(now: seq<Byte>, at: nat, g: Goal, escCount: nat, ahead: seq<Byte>)
    requires escCount <= at && Framed(now, at, g, escCount, ahead) && forall w: nat :: Cut(ahead, w).None?
    ensures Kept(now, at, g) && (at < |now| ==> Kept(now, at + 1, g))
  {
    hide Cut;
    if at < |now| {
      DropOne(now, g.m, at);
    }
  }

  lemma FramedChar(now: seq<Byte>, now': seq<Byte>, at: nat, g: Goal, escCount: nat, c: Byte, used: nat,
                   ahead: seq<Byte>)
    requires 1 <= used <= |ahead| && used <= escCount + 1 && escCount + 1 - used <= at && at + used <= |now|
    requires Framed(now, at, g, escCount + 1 - used, ahead)
    requires forall w: nat :: Cut(ahead, w) == Cut(ahead[used..], w + 1)
    requires var w := at + used - 1 - escCount;
             now' == if escCount > 0 then now[w := c] else now
    ensures Framed(now', at + used, g, escCount, ahead[used..])
  {
    hide Cut;
    var w := at + used - 1 - escCount;
    assert Cut(ahead, w) == Cut(ahead[used..], w + 1);
    TailKept(now, g.m, at, at + used);
    if ahead[used..] == [] {
      NothingCut(w + 1);
    }
    if escCount > 0 {
      assert now'[at + used..] == now[at + used..] && now'[..g.base] == now[..g.base];
    }
  }

  lemma NothingCut(w: nat)
    ensures Cut([], w) == None
  {
  }

  lemma TailKept<T>(a: seq<T>, b: seq<T>, i: nat, j: nat)
    requires i <= j <= |a| == |b| && a[i..] == b[i..]
    ensures a[j..] == b[j..]
  {
    assert a[i..][j - i..] == a[j..] && b[i..][j - i..] == b[j..];
  }

  lemma FramedUnit(now: seq<Byte>, now': seq<Byte>, at: nat, g: Goal, escCount: nat, count: nat, ahead: seq<Byte>)
    requires |ahead| >= 2 && ahead[0] == BACKSLASH && ahead[1] == LOWER_U && at + |ahead| <= |now|
    requires escCount <= at && Framed(now, at, g, escCount, ahead)
    requires var d := ahead[2..];
             var unit, end := EncodeUnit(Code(Padded(d))), at + 2 + Min(4, |d|);
             var w := end - escCount - 6;
             && count + |unit| == escCount + 6 && w >= 0
             && now' == now[..w] + unit + now[w + |unit|..]
    ensures var d := ahead[2..];
            var end := at + 2 + Min(4, |d|);
            count <= end && Framed(now', end, g, count, Drop(d, 4))
  {
    hide Cut, EncodeUnit, Code, Padded;
    var d := ahead[2..];
    var unit, end := EncodeUnit(Code(Padded(d))), at + 2 + Min(4, |d|);
    var w := end - escCount - 6;
    CutUnit(ahead);
    DropShrinks(d, 4);
    TailKept(now, g.m, at, end);
    assert now'[end..] == now[end..] && now'[w..w + |unit|] == unit;
    assert Cut(ahead, at - escCount) == Cut(g.s, g.base);
    assert forall k :: 0 <= k <= w ==> now'[..k] == now[..k];
    NothingCut(end - count);
    TakeLess(now, g.m, Min(g.base, w), g.base);
  }

  lemma TakeLess<T>(a: seq<T>, b: seq<T>, i: nat, j: nat)
    requires i <= j <= |a| == |b| && a[..j] == b[..j]
    ensures a[..i] == b[..i]
  {
    assert a[..j][..i] == a[..i] && b[..j][..i] == b[..i];
  }

  lemma CutUnit(ahead: seq<Byte>)
    requires |ahead| >= 2 && ahead[0] == BACKSLASH && ahead[1] == LOWER_U
    ensures var d := ahead[2..];
            forall w: nat :: Cut(ahead, w) ==
              if |d| < 4 then Some(Store(w + |d| - 4, EncodeUnit(Code(Padded(d)))))
              else Cut(Drop(d, 4), w + |EncodeUnit(Code(Padded(d)))|)
  {
    FourBytes(ahead[2..]);
  }

  /**
   * The state between bytes, whatever has gone wrong: once astray, the text makes it so.
   * Until then the text strays iff what is ahead does from the write position on, and the
   * literal is malformed if an error was seen and otherwise in progress.
   */
  ghost predicate Running(now: seq<Byte>, at: nat, g: Goal, escCount: nat, done: seq<Byte>, ahead: seq<Byte>,
                          failed: bool, lost: bool) {
    if lost then Strays(g.s, g.base)
    else
      && escCount <= at && (Strays(g.s, g.base) <==> Strays(ahead, at - escCount))
      && Framed(now, at, g, escCount, ahead)
      && if failed then Decode(g.s) == Malformed else Progress(now, at, g, escCount, done, ahead)
  }

  /** What the flags say at the end. */
  ghost predicate Ended(g: Goal, failed: bool, lost: bool) {
    (lost <==> Strays(g.s, g.base)) && (!lost ==> (!failed <==> Decode(g.s).Closed?))
  }

  /** `c` is what the first one or two bytes stand for. */
  ghost predicate StandsFor(ahead: seq<Byte>, c: Byte, used: nat) {
    && 1 <= used <= |ahead| && Decode(ahead) == Prepend([c], used, Decode(ahead[used..]))
    && (forall w: nat :: Strays(ahead, w) <==> Strays(ahead[used..], w + 1))
    && forall w: nat :: Cut(ahead, w) == Cut(ahead[used..], w + 1)
  }

  lemma RunStarts(g: Goal)
    requires g.base + |g.s| <= |g.m|
    ensures Running(g.m, g.base, g, 0, [], g.s, false, false)
  {
    ProgressStarts(g);
  }

  lemma RunEnds(now: seq<Byte>, at: nat, g: Goal, escCount: nat, done: seq<Byte>, ahead: seq<Byte>, failed: bool,
                lost: bool)
    requires ahead != [] && ahead[0] == QUOTE && Running(now, at, g, escCount, done, ahead, failed, lost)
    ensures Ended(g, failed, lost)
    ensures !lost && at < |now| ==> Kept(now, at + 1, g)
    ensures !failed && !lost ==>
              && g.base + |done| + escCount == at && at + |ahead| <= |now| == |g.m|
              && Decode(g.s) == Closed(done, at - g.base + 1)
              && now[..g.base] == g.m[..g.base] && now[g.base..g.base + |done|] == done &&
                 now[at + 1..] == g.m[at + 1..]
  {
    DecodeCases(ahead);
    EndNotCut(ahead);
    hide Decode, Progress, Cut, Framed, Kept;
    if !lost {
      FramedEnds(now, at, g, escCount, ahead);
    }
    if !failed && !lost {
      ProgressBounds(now, at, g, escCount, done, ahead);
      ProgressEnds(now, at, g, escCount, done, ahead);
    }
  }

  /** At a byte that no literal has there. */
  lemma RunFails(now: seq<Byte>, at: nat, g: Goal, escCount: nat, done: seq<Byte>, ahead: seq<Byte>, failed: bool,
                 lost: bool)
    requires Running(now, at, g, escCount, done, ahead, failed, lost)
    requires Decode(ahead) == Malformed && forall w: nat :: !Strays(ahead, w) && Cut(ahead, w).None?
    ensures Ended(g, true, lost)
    ensures !lost ==> Kept(now, at, g) && (at < |now| ==> Kept(now, at + 1, g))
  {
    hide Decode, Strays, Progress, Cut, Framed, Kept;
    if !lost {
      FramedEnds(now, at, g, escCount, ahead);
    }
    if !failed && !lost {
      ProgressBounds(now, at, g, escCount, done, ahead);
    }
  }

  lemma CharRuns(now: seq<Byte>, now': seq<Byte>, at: nat, g: Goal, escCount: nat, done: seq<Byte>, c: Byte, used: nat,
                 ahead: seq<Byte>, failed: bool, lost: bool, lost': bool)
    requires 1 <= used <= |ahead| && used <= escCount + 1 && StandsFor(ahead, c, used)
    requires Running(now, at, g, escCount + 1 - used, done, ahead, failed, lost)
    requires lost' == (lost || escCount > at + used - 1) && at + used <= |now|
    requires var w := at + used - 1 - escCount;
             w >= 0 ==> now' == if escCount > 0 then now[w := c] else now
    requires escCount == 0 ==> now[at] == c
    ensures Running(now', at + used, g, escCount, done + [c], ahead[used..], failed, lost')
  {
    hide Decode, Prepend, Progress, Strays, Cut, Framed;
    if !lost && !lost' {
      FramedChar(now, now', at, g, escCount, c, used, ahead);
    }
    if !failed && !lost {
      EmitChar(now, now', at, g, escCount, done, c, used, ahead);
    }
  }

  /** A `\u` escape, whatever follows it. */
  lemma UnitMeans(ahead: seq<Byte>)
    requires |ahead| >= 2 && ahead[0] == BACKSLASH && ahead[1] == LOWER_U
    ensures var d := ahead[2..];
            && (Decode(ahead) == if FourDigits(d) then Prepend(EncodeUnit(Code(d)), 6, Decode(ahead[6..]))
               else Malformed)
            && (|d| >= 4 ==> Drop(d, 4) == ahead[6..])
            && (FourDigits(d) ==> |d| >= 4)
            && forall w: nat :: Strays(ahead, w) <==>
                 (HighDigit(d) || if |d| < 4 then w + |d| < 4 else Strays(ahead[6..], w + |EncodeUnit(Code(d))|))
  {
    var d := ahead[2..];
    assert |d| >= 4 ==> d[4..] == ahead[6..];
  }

  /** A whole escape of four digits, without errors. */
  lemma UnitProgresses(now: seq<Byte>, now': seq<Byte>, at: nat, g: Goal, escCount: nat, count: nat, done: seq<Byte>,
                       ahead: seq<Byte>)
    requires |ahead| >= 6 && ahead[0] == BACKSLASH && ahead[1] == LOWER_U && FourDigits(ahead[2..])
    requires escCount <= at && at + 6 <= |now| && Progress(now, at, g, escCount, done, ahead)
    requires var unit := EncodeUnit(Code(ahead[2..]));
             && count + |unit| == escCount + 6
             && now' == now[..at - escCount] + unit + now[at - escCount + |unit|..]
    ensures Progress(now', at + 6, g, count, done + EncodeUnit(Code(ahead[2..])), ahead[6..])
  {
    UnitMeans(ahead);
    hide *;
    Emit(now, now', at, g, escCount, done, EncodeUnit(Code(ahead[2..])), 6, ahead);
  }

  lemma UnitRuns(now: seq<Byte>, now': seq<Byte>, at: nat, g: Goal, escCount: nat, count: nat, done: seq<Byte>,
                 ahead: seq<Byte>, failed: bool, failed': bool, lost: bool, lost': bool)
    requires |ahead| >= 2 && ahead[0] == BACKSLASH && ahead[1] == LOWER_U
    requires Running(now, at, g, escCount, done, ahead, failed, lost) && count < escCount + 6
    requires var d := ahead[2..];
             var end := at + 2 + Min(4, |d|);
             && lost' == (lost || HighDigit(d) || escCount + 6 > end)
             && (!HighDigit(d) ==> failed' == (failed || !FourDigits(d)))
             && at + |ahead| <= |now|
             && (!HighDigit(d) ==>
                   var unit := EncodeUnit(Code(Padded(d)));
                   var w := end - escCount - 6;
                   && count + |unit| == escCount + 6
                   && (w >= 0 ==> now' == now[..w] + unit + now[w + |unit|..]))
    ensures var d := ahead[2..];
            Running(now', at + 2 + Min(4, |d|), g, count, if |d| >= 4 then done + EncodeUnit(Code(d))
                else done, Drop(d, 4),
                    failed', lost')
  {
    hide Decode, Prepend, Progress, Strays, HighDigit, FourDigits, Code, EncodeUnit, Drop, Cut, Framed, Padded;
    UnitMeans(ahead);
    FourBytes(ahead[2..]);
    DropShrinks(ahead[2..], 4);
    NothingStrays();
    if !lost' {
      FramedUnit(now, now', at, g, escCount, count, ahead);
    }
    if !lost' && !failed {
      ProgressBounds(now, at, g, escCount, done, ahead);
      if !failed' {
        UnitProgresses(now, now', at, g, escCount, count, done, ahead);
      }
    }
  }

  lemma EndNotCut(ahead: seq<Byte>)
    requires ahead == [] || ahead[0] == NUL || ahead[0] == LF || ahead[0] == QUOTE
    ensures forall w: nat :: Cut(ahead, w).None?
  {
  }

  lemma EndStrays(ahead: seq<Byte>)
    requires ahead == [] || ahead[0] == NUL || ahead[0] == LF
    ensures forall w: nat :: !Strays(ahead, w) && Cut(ahead, w).None?
  {
  }

  lemma NothingStrays()
    ensures forall w: nat :: !Strays([], w)
  {
  }

  /** What a byte that is no quote, NUL or line feed means to the reader. */
  lemma ByteMeans(ahead: seq<Byte>)
    requires ahead != [] && ahead[0] != QUOTE && ahead[0] != NUL && ahead[0] != LF
    ensures ahead[0] != BACKSLASH ==> StandsFor(ahead, ahead[0], 1)
    ensures ahead[0] == BACKSLASH ==>
              var letter := if |ahead| == 1 then NUL else ahead[1];
              if letter == LOWER_U then |ahead| >= 2
              else if Unescape(letter).Some? then |ahead| >= 2 && StandsFor(ahead, Unescape(letter).value, 2)
              else Decode(ahead) == Malformed && forall w: nat :: !Strays(ahead, w) && Cut(ahead, w).None?
  {
    DecodeCases(ahead);
  }

  lemma ProgressStarts(g: Goal)
    requires g.base + |g.s| <= |g.m|
    ensures Progress(g.m, g.base, g, 0, [], g.s)
  {
    if Decode(g.s).Closed? {
      assert [] + Decode(g.s).text == Decode(g.s).text;
    }
  }

  lemma ProgressBounds(now: seq<Byte>, at: nat, g: Goal, escCount: nat, done: seq<Byte>, ahead: seq<Byte>)
    requires Progress(now, at, g, escCount, done, ahead)
    ensures g.base + |done| + escCount == at && at + |ahead| <= |now| == |g.m|
    ensures Decode(ahead) == Malformed ==> Decode(g.s) == Malformed
  {
    hide Decode;
  }

  /** At the closing quote. */
  lemma ProgressEnds(now: seq<Byte>, at: nat, g: Goal, escCount: nat, done: seq<Byte>, ahead: seq<Byte>)
    requires Progress(now, at, g, escCount, done, ahead) && Decode(ahead) == Closed([], 1) && |ahead| > 0
    ensures now[..g.base] == g.m[..g.base] && now[g.base..g.base + |done|] == done && now[at + 1..] == g.m[at + 1..]
    ensures Decode(g.s) == Closed(done, at - g.base + 1)
  {
    hide Decode;
    assert done + [] == done;
    DropOne(now, g.m, at);
  }

  lemma DropOne<T>(s: seq<T>, t: seq<T>, i: nat)
    requires i < |s| == |t| && s[i..] == t[i..]
    ensures s[i + 1..] == t[i + 1..]
  {
    assert s[i..][1..] == s[i + 1..] && t[i..][1..] == t[i + 1..];
  }

  /** What a literal's first byte, or escape, decides. */
  lemma DecodeCases(rest: seq<Byte>)
    ensures rest == [] || rest[0] == NUL || rest[0] == LF ==> Decode(rest) == Malformed
    ensures rest != [] && rest[0] == QUOTE ==> Decode(rest) == Closed([], 1)
    ensures rest != [] && rest[0] !in {NUL, LF, QUOTE, BACKSLASH} ==>
            Decode(rest) == Prepend([rest[0]], 1, Decode(rest[1..]))
    ensures rest != [] && rest[0] == BACKSLASH ==>
              var letter := if |rest| == 1 then NUL else rest[1];
              if letter == LOWER_U then
                |rest| >= 2 && (FourDigits(rest[2..]) ==> |rest| >= 6) &&
                Decode(rest) == if FourDigits(rest[2..]) then
                    Prepend(EncodeUnit(Code(rest[2..])), 6, Decode(rest[6..])) else Malformed
              else
                (Unescape(letter).Some? ==> |rest| >= 2) &&
                Decode(rest) == if Unescape(letter).Some? then Prepend([Unescape(letter).value], 2, Decode(rest[2..]))
                    else Malformed
  {
  }

  /** Decoding one more piece in place, behind the read position, makes progress. */
  lemma Emit(now: seq<Byte>, now': seq<Byte>, at: nat, g: Goal, escCount: nat, done: seq<Byte>,
             piece: seq<Byte>, used: nat, ahead: seq<Byte>)
    requires Progress(now, at, g, escCount, done, ahead)
    requires 1 <= |piece| <= used <= |ahead| && Decode(ahead) == Prepend(piece, used, Decode(ahead[used..]))
    requires now' == now[..at - escCount] + piece + now[at - escCount + |piece|..]
    ensures Progress(now', at + used, g, escCount + used - |piece|, done + piece, ahead[used..])
  {
    hide Decode, Prepend;
    PrependTwice(done, at - g.base, piece, used, Decode(ahead[used..]));
    EmitInPlace(now, now', at, g.base, escCount, done, piece, used, g.m);
  }

  lemma EmitChar(now: seq<Byte>, now': seq<Byte>, at: nat, g: Goal, escCount: nat, done: seq<Byte>, c: Byte, used: nat,
                 ahead: seq<Byte>)
    requires 1 <= used <= |ahead| && used <= escCount + 1 && at + used <= |now|
    requires Progress(now, at, g, escCount + 1 - used, done, ahead)
    requires Decode(ahead) == Prepend([c], used, Decode(ahead[used..]))
    requires var w := at + used - 1 - escCount;
             w >= 0 && now' == if escCount > 0 then now[w := c] else now
    requires escCount == 0 ==> now[at] == c
    ensures Progress(now', at + used, g, escCount, done + [c], ahead[used..])
  {
    hide Decode, Prepend, Progress;
    OneByteWritten(now, at + used - 1 - escCount, c);
    Emit(now, now', at, g, escCount + 1 - used, done, [c], used, ahead);
  }

  lemma EmitInPlace<T>(now: seq<T>, now': seq<T>, at: nat, base: nat, escCount: nat, done: seq<T>, piece: seq<T>,
                       used: nat, m: seq<T>)
    requires InPlace(now, at, base, escCount, done, m) && at + used <= |m| && 1 <= |piece| <= used
    requires now' == now[..at - escCount] + piece + now[at - escCount + |piece|..]
    ensures InPlace(now', at + used, base, escCount + used - |piece|, done + piece, m)
  {
  }

  lemma PrependTwice(x: seq<Byte>, i: nat, y: seq<Byte>, j: nat, r: Literal)
    ensures Prepend(x, i, Prepend(y, j, r)) == Prepend(x + y, i + j, r)
  {
    if r.Closed? {
      assert x + (y + r.text) == x + y + r.text;
    }
  }

  // ---- the bytes of a code, as the reader stores them ----

  lemma UnitLength(utf: nat)
    requires utf < 0x2_0000
    ensures |EncodeUnit(utf)| == if utf < 0x80 then 1 else if utf < 0x800 then 2 else 3
  {
  }

  lemma TopBits(utf: nat)
    requires utf < 0x2_0000
    ensures utf / 0x1000 % 0x20 == utf / 0x1000
  {
  }

  lemma UnitBytes1(m: seq<Byte>, at: nat, utf: nat)
    requires utf < 0x80 && at < |m|
    ensures |EncodeUnit(utf)| == 1 && m[at := utf] == m[..at] + EncodeUnit(utf) + m[at + 1..]
  {
  }

  lemma UnitBytes2(m: seq<Byte>, at: nat, utf: nat)
    requires 0x80 <= utf < 0x800 && at + 2 <= |m|
    ensures |EncodeUnit(utf)| == 2
    ensures m[at := 0xC0 + utf / 0x40][at + 1 := 0x80 + utf % 0x40] == m[..at] + EncodeUnit(utf) + m[at + 2..]
  {
    assert EncodeUnit(utf) == [0xC0 + utf / 0x40, 0x80 + utf % 0x40];
  }

  lemma UnitBytes3(m: seq<Byte>, at: nat, utf: nat)
    requires 0x800 <= utf < 0x2_0000 && at + 3 <= |m|
    ensures |EncodeUnit(utf)| == 3
    ensures m[at := 0xE0 + utf / 0x1000][at + 1 := 0x80 + utf / 0x40 % 0x40][at + 2 := 0x80 + utf % 0x40]
            == m[..at] + EncodeUnit(utf) + m[at + 3..]
  {
    assert utf / 0x1000 == utf / 0x40 / 0x40;
    assert EncodeUnit(utf) == [0xE0 + utf / 0x1000, 0x80 + utf / 0x40 % 0x40, 0x80 + utf % 0x40];
  }
}
