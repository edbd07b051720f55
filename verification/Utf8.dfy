/** The UTF-8 validator, against the encoding of section 3 of RFC 3629. */
module Utf8 {
  import opened Bytes

  predicate IsSurrogate(c: int) {
    0xD800 <= c <= 0xDFFF
  }

  /** A Unicode scalar value other than U+0000, which a C string cannot hold. */
  type Scalar = c: int | 0 < c <= 0x10FFFF && !(0xD800 <= c <= 0xDFFF) witness 1

  predicate IsContinuation(b: Byte) {
    0x80 <= b < 0xC0
  }

  /** A continuation byte: 10 and the low six bits of `c`. */
  function Continuation(c: nat): (b: Byte)
    ensures IsContinuation(b) && b % 0x40 == c % 0x40
  {
    0x80 + c % 0x40
  }

  /** The table of section 3 of RFC 3629. */
  function Encode(c: Scalar): (r: seq<Byte>)
    ensures 1 <= |r| <= 4 && NUL !in r
  {
    var d: nat := c / 0x40;
    var e: nat := d / 0x40;
    var f: nat := e / 0x40;
    if c < 0x80 then
      var b: Byte := c; [b]
    else if c < 0x800 then
      var b: Byte := 0xC0 + d; [b, Continuation(c)]
    else if c < 0x10000 then
      var b: Byte := 0xE0 + e; [b, Continuation(d), Continuation(c)]
    else
      var b: Byte := 0xF0 + f; [b, Continuation(e), Continuation(d), Continuation(c)]
  }

  function EncodeAll(cs: seq<Scalar>): seq<Byte> {
    if cs == [] then [] else Encode(cs[0]) + EncodeAll(cs[1..])
  }

  /** `s` is a concatenation of encoded scalar values, possibly of none. */
  ghost predicate IsUtf8(s: seq<Byte>) {
    exists cs: seq<Scalar> :: EncodeAll(cs) == s
  }

  // ---- one character ----

  /** How many bytes the first one announces; none for a byte that cannot come first. */
  function Announced(b: Byte): nat {
    if b < 0x80 then 1 else if 0xC0 <= b < 0xE0 then 2 else if 0xE0 <= b < 0xF0 then 3 else if 0xF0 <= b < 0xF8 then 4
    else 0
  }

  function LeadBits(b: Byte): int {
    if b < 0x80 then b else if b < 0xE0 then b - 0xC0 else if b < 0xF0 then b - 0xE0 else b - 0xF0
  }

  /** The code point gathered from a lead byte's bits and its `n - 1` continuation bytes. */
  function Gather(s: seq<Byte>, n: nat): int
    requires 1 <= n <= |s|
  {
    if n == 1 then LeadBits(s[0]) else Gather(s, n - 1) * 0x40 + s[n - 1] % 0x40
  }

  /** The range check after gathering: in range, no surrogate, and no shorter form. */
  predicate InRange(cp: int, n: nat) {
    !(|| cp > 0x10FFFF
      || IsSurrogate(cp)
      || (cp <= 0x7F && n != 1)
      || (0x80 <= cp <= 0x7FF && n != 2)
      || (0x800 <= cp <= 0xFFFF && n != 3)
      || (0x10000 <= cp <= 0x1FFFFF && n != 4))
  }

  predicate StartsWell(s: seq<Byte>)
    requires s != []
  {
    var n := Announced(s[0]);
    1 <= n <= |s| && (forall i :: 1 <= i < n ==> IsContinuation(s[i])) && InRange(Gather(s, n), n)
  }

  /** What the validator accepts first is the encoding of the code point it gathers. */
  lemma {:induction false} AcceptsOnlyEncodings(s: seq<Byte>)
    requires s != [] && NUL !in s && StartsWell(s)
    ensures var n := Announced(s[0]);
            var cp := Gather(s, n);
            0 < cp <= 0x10FFFF && !IsSurrogate(cp) && Encode(cp) == s[..n]
  {
    var n := Announced(s[0]);
    assert s[0] in s;
    var cp: Scalar := Gather(s, n);
    if n == 1 {
      assert Encode(cp) == s[..1];
    } else if n == 2 {
      ShiftedIn(s, 2);
      assert Encode(cp) == s[..2];
    } else if n == 3 {
      ShiftedIn(s, 2);
      ShiftedIn(s, 3);
      assert Encode(cp) == s[..3];
    } else {
      ShiftedIn(s, 2);
      ShiftedIn(s, 3);
      ShiftedIn(s, 4);
      assert Encode(cp) == s[..4];
    }
  }

  /** Gathering one more byte shifts six bits in, and nothing is lost. */
  lemma ShiftedIn(s: seq<Byte>, n: nat)
    requires 2 <= n <= |s|
    ensures Gather(s, n) / 0x40 == Gather(s, n - 1) && Gather(s, n) % 0x40 == s[n - 1] % 0x40
    ensures IsContinuation(s[n - 1]) && Gather(s, n) >= 0 ==> Continuation(Gather(s, n)) == s[n - 1]
  {
  }

  /** Every encoding is accepted, whatever follows it, and gathers back its code point. */
  lemma {:induction false} AcceptsEveryEncoding(c: Scalar, rest: seq<Byte>)
    ensures var s := Encode(c) + rest;
            StartsWell(s) && Announced(s[0]) == |Encode(c)| && Gather(s, |Encode(c)|) == c
  {
    var s, n := Encode(c) + rest, |Encode(c)|;
    assert Gather(s, 1) == LeadBits(s[0]);
    if n == 2 {
      assert s[0] == 0xC0 + c / 0x40 && Gather(s, 2) == c;
    } else if n == 3 {
      assert s[0] == 0xE0 + c / 0x40 / 0x40 && Gather(s, 2) == c / 0x40 && Gather(s, 3) == c;
    } else if n == 4 {
      assert s[0] == 0xF0 + c / 0x40 / 0x40 / 0x40;
      assert Gather(s, 2) == c / 0x40 / 0x40 && Gather(s, 3) == c / 0x40 && Gather(s, 4) == c;
    }
  }

  // ---- the grammar of section 4 of RFC 3629 ----

  predicate InTail(s: seq<Byte>, i: nat) {
    i < |s| && 0x80 <= s[i] <= 0xBF
  }

  /** One character, by the ranges of its bytes; the standard's own has NUL as well. */
  predicate IsCharacter(s: seq<Byte>) {
    && s != []
    && (|| 0x01 <= s[0] <= 0x7F
        || (0xC2 <= s[0] <= 0xDF && InTail(s, 1))
        || (s[0] == 0xE0 && |s| > 1 && 0xA0 <= s[1] <= 0xBF && InTail(s, 2))
        || (0xE1 <= s[0] <= 0xEC && InTail(s, 1) && InTail(s, 2))
        || (s[0] == 0xED && |s| > 1 && 0x80 <= s[1] <= 0x9F && InTail(s, 2))
        || (0xEE <= s[0] <= 0xEF && InTail(s, 1) && InTail(s, 2))
        || (s[0] == 0xF0 && |s| > 1 && 0x90 <= s[1] <= 0xBF && InTail(s, 2) && InTail(s, 3))
        || (0xF1 <= s[0] <= 0xF3 && InTail(s, 1) && InTail(s, 2) && InTail(s, 3))
        || (s[0] == 0xF4 && |s| > 1 && 0x80 <= s[1] <= 0x8F && InTail(s, 2) && InTail(s, 3)))
  }

  lemma TailGathers(s: seq<Byte>, n: nat)
    requires 2 <= n <= |s| && IsContinuation(s[n - 1])
    ensures Gather(s, n) == Gather(s, n - 1) * 0x40 + (s[n - 1] - 0x80) && Gather(s, 1) == LeadBits(s[0])
  {
  }

  lemma OneStartsWell(s: seq<Byte>)
    requires s != [] && s[0] != NUL && Announced(s[0]) <= 1
    ensures StartsWell(s) <==> IsCharacter(s)
  {
    if Announced(s[0]) == 1 {
      assert Gather(s, 1) == LeadBits(s[0]);
    }
  }

  lemma TwoStartWell(s: seq<Byte>)
    requires s != [] && Announced(s[0]) == 2
    ensures StartsWell(s) <==> IsCharacter(s)
  {
    hide Gather;
    if |s| >= 2 && IsContinuation(s[1]) {
      TailGathers(s, 2);
    }
  }

  lemma ThreeStartWell(s: seq<Byte>)
    requires s != [] && Announced(s[0]) == 3
    ensures StartsWell(s) <==> IsCharacter(s)
  {
    hide Gather;
    if |s| >= 3 && IsContinuation(s[1]) && IsContinuation(s[2]) {
      TailGathers(s, 2);
      TailGathers(s, 3);
    }
  }

  lemma FourStartWell(s: seq<Byte>)
    requires s != [] && Announced(s[0]) == 4
    ensures StartsWell(s) <==> IsCharacter(s)
  {
    hide Gather;
    if |s| >= 4 && IsContinuation(s[1]) && IsContinuation(s[2]) && IsContinuation(s[3]) {
      TailGathers(s, 2);
      TailGathers(s, 3);
      TailGathers(s, 4);
    }
  }

  /** What the validator takes for a first character is one of that grammar. */
  lemma StartsWellIff(s: seq<Byte>)
    requires s != [] && NUL !in s
    ensures StartsWell(s) <==> IsCharacter(s)
  {
    assert s[0] in s;
    hide StartsWell, IsCharacter;
    if Announced(s[0]) <= 1 {
      OneStartsWell(s);
    } else if Announced(s[0]) == 2 {
      TwoStartWell(s);
    } else if Announced(s[0]) == 3 {
      ThreeStartWell(s);
    } else {
      FourStartWell(s);
    }
  }

  // ---- the whole string ----

  /** A string is UTF-8 iff it starts with an encoding and the rest is UTF-8. */
  lemma SplitFirst(s: seq<Byte>)
    requires s != [] && NUL !in s
    ensures IsUtf8(s) <==> StartsWell(s) && IsUtf8(s[Announced(s[0])..])
  {
    if cs: seq<Scalar> :| EncodeAll(cs) == s {
      AcceptsEveryEncoding(cs[0], EncodeAll(cs[1..]));
      assert s[|Encode(cs[0])|..] == EncodeAll(cs[1..]);
    }
    if StartsWell(s) && IsUtf8(s[Announced(s[0])..]) {
      AcceptsOnlyEncodings(s);
      var n := Announced(s[0]);
      var cs: seq<Scalar> :| EncodeAll(cs) == s[n..];
      var c: Scalar := Gather(s, n);
      assert ([c] + cs)[1..] == cs;
      assert s == s[..n] + s[n..];
      assert EncodeAll([c] + cs) == s;
    }
  }

  /** No byte string encodes two different texts. */
  lemma {:induction false} DecodingIsUnique(a: seq<Scalar>, b: seq<Scalar>)
    requires EncodeAll(a) == EncodeAll(b)
    ensures a == b
  {
    if a != [] && b != [] {
      AcceptsEveryEncoding(a[0], EncodeAll(a[1..]));
      AcceptsEveryEncoding(b[0], EncodeAll(b[1..]));
      assert EncodeAll(a)[|Encode(a[0])|..] == EncodeAll(a[1..]);
      assert EncodeAll(b)[|Encode(b[0])|..] == EncodeAll(b[1..]);
      DecodingIsUnique(a[1..], b[1..]);
    }
  }

  lemma NothingIsUtf8()
    ensures IsUtf8([])
  {
    assert EncodeAll([]) == [];
  }

  /** One turn of the loop of `is_valid_utf8`. */
  method NextCharacter(mem: CString, start: nat) returns (ok: bool, at: nat)
    requires start < |Text(mem)|
    ensures ok <==> StartsWell(Text(mem)[start..])
    ensures ok ==> start < at == start + Announced(mem[start]) <= |Text(mem)|
  {
    hide Gather;
    ghost var S := Text(mem);
    ghost var s := S[start..];
    at := start;
    var cp: int, num := 0, 0;
    var b := mem[at];
    if b < 0x80 {
      cp, num := b, 1;
    } else if 0xC0 <= b < 0xE0 {
      cp, num := b - 0xC0, 2;
    } else if 0xE0 <= b < 0xF0 {
      cp, num := b - 0xE0, 3;
    } else if 0xF0 <= b < 0xF8 {
      cp, num := b - 0xF0, 4;
    } else {
      return false, at;
    }
    GatherFirst(s);
    at := at + 1;
    for i := 1 to num
      invariant at == start + i <= |S|
      invariant cp == Gather(s, i)
      invariant forall k :: 1 <= k < i ==> IsContinuation(s[k])
    {
      if !(0x80 <= mem[at] < 0xC0) {
        assert i < |s| ==> !IsContinuation(s[i]);
        return false, at;
      }
      GatherNext(s, i + 1);
      cp := cp * 0x40 + mem[at] % 0x40;
      at := at + 1;
    }
    ok := !(cp > 0x10FFFF ||
            (cp >= 0xD800 && cp <= 0xDFFF) ||
            (cp <= 0x7F && num != 1) ||
            (cp >= 0x80 && cp <= 0x7FF && num != 2) ||
            (cp >= 0x800 && cp <= 0xFFFF && num != 3) ||
            (cp >= 0x10000 && cp <= 0x1FFFFF && num != 4));
  }

  lemma GatherFirst(s: seq<Byte>)
    requires s != []
    ensures Gather(s, 1) == LeadBits(s[0])
  {
  }

  lemma GatherNext(s: seq<Byte>, n: nat)
    requires 2 <= n <= |s|
    ensures Gather(s, n) == Gather(s, n - 1) * 0x40 + s[n - 1] % 0x40
  {
  }

  /** `is_valid_utf8`; `None` is the null pointer. */
  method IsValidUtf8(text: Option<CString>) returns (valid: bool)
    ensures valid <==> text.Some? && Text(text.value) != [] && IsUtf8(Text(text.value))
  {
    hide IsUtf8, StartsWell;
    if text.None? || text.value[0] == NUL {
      return false;
    }
    var mem := text.value;
    ghost var S := Text(mem);
    var at := 0;
    assert S[0..] == S;
    while mem[at] != NUL
      invariant 0 <= at <= |S|
      invariant IsUtf8(S) <==> IsUtf8(S[at..])
      decreases |S| - at
    {
      SplitFirst(S[at..]);
      var ok, next := NextCharacter(mem, at);
      if !ok {
        return false;
      }
      assert S[at..][next - at..] == S[next..];
      at := next;
    }
    assert S[at..] == [];
    NothingIsUtf8();
    return true;
  }
}
