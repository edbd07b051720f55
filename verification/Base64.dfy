/**
 * The Base64 codec. Its encoder reads bytes through plain `char`, which is signed here,
 * so bytes from 128 on can spoil the packed word; which inputs survive is proved exactly.
 */
module Base64 {
  import opened Bytes

  const PAD: Byte := 61

  // ---- the tables ----

  /** `B64chars[i]`. */
  function Symbol(i: int): Byte
    requires 0 <= i < 64
  {
    if i < 26 then 65 + i else if i < 52 then 97 + (i - 26) else if i < 62 then 48 + (i - 52) else if i == 62 then 43
    else 47
  }

  /** `B64index[c]`: besides the alphabet, four more characters have a value, and every other one has 0. */
  function Index(c: Byte): (r: int)
    ensures 0 <= r < 64
  {
    if 65 <= c <= 90 then c - 65
    else if 97 <= c <= 122 then c - 97 + 26
    else if 48 <= c <= 57 then c - 48 + 52
    else if c == 43 || c == 45 || c == 46 then 62
    else if c == 47 || c == 44 || c == 95 then 63
    else 0
  }

  /** The alphabet of section 4 of RFC 4648. */
  const ALPHABET := "ABCDEFGHIJKLMNOP" + "QRSTUVWXYZabcdef" + "ghijklmnopqrstuv" + "wxyz0123456789+/"

  lemma SymbolsAreTheAlphabet(i: int)
    requires 0 <= i < 64
    ensures |ALPHABET| == 64 && Symbol(i) == ALPHABET[i] as int
  {
    if i < 16 {
      assert ALPHABET[i] == "ABCDEFGHIJKLMNOP"[i];
    } else if i < 32 {
      assert ALPHABET[i] == "QRSTUVWXYZabcdef"[i - 16];
    } else if i < 48 {
      assert ALPHABET[i] == "ghijklmnopqrstuv"[i - 32];
    } else {
      assert ALPHABET[i] == "wxyz0123456789+/"[i - 48];
    }
  }

  /** The index table: the alphabet's own places, `-` and `.` for `+`, `,` and `_` for `/`, and 0 for all else. */
  lemma IndexesAreTheAlphabet(c: Byte)
    ensures (exists i :: 0 <= i < 64 && ALPHABET[i] as int == c) ==> ALPHABET[Index(c)] as int == c
    ensures c == 45 || c == 46 ==> Index(c) == 62
    ensures c == 44 || c == 95 ==> Index(c) == 63
    ensures c !in {44, 45, 46, 95} && (forall i :: 0 <= i < 64 ==> ALPHABET[i] as int != c) ==> Index(c) == 0
  {
    if i :| 0 <= i < 64 && ALPHABET[i] as int == c {
      SymbolsAreTheAlphabet(i);
      IndexUndoesSymbol(i);
    }
    SymbolsAreTheAlphabet(Index(c));
    if Index(c) != 0 && c !in {44, 45, 46, 95} {
      assert Symbol(Index(c)) == c;
    }
  }

  lemma IndexUndoesSymbol(i: int)
    requires 0 <= i < 64
    ensures Index(Symbol(i)) == i && Symbol(i) != PAD
  {
  }

  // ---- words ----

  /** `a << 8 | b` for signed chars: a negative `b` fills all higher bits with ones. */
  function Pack2(a: Byte, b: Byte): int {
    if Signed(b) < 0 then Signed(b) else Signed(a) * 0x100 + b
  }

  /** `a << 16 | b << 8 | c` for signed chars. */
  function Pack3(a: Byte, b: Byte, c: Byte): int {
    if Signed(c) < 0 then Signed(c) else if Signed(b) < 0 then Signed(b) * 0x100 + c
        else Signed(a) * 0x1_0000 + b * 0x100 + c
  }

  /** What the encoder writes for three bytes; an index outside the table is no value. */
  function EncodeGroup(a: Byte, b: Byte, c: Byte): Option<seq<Byte>> {
    var n := Pack3(a, b, c);
    var top := n / 0x4_0000;
    if 0 <= top < 64 then Some([Symbol(top), Symbol(n / 0x1000 % 64), Symbol(n / 64 % 64), Symbol(n % 64)]) else None
  }

  /** What it writes for the last one or two bytes. */
  function EncodeTail(s: seq<Byte>): Option<seq<Byte>>
    requires |s| < 3
  {
    if s == [] then Some([])
    else if |s| == 1 then
      var n := Signed(s[0]);
      if 0 <= n / 4 < 64 then Some([Symbol(n / 4), Symbol(n * 16 % 64), PAD, PAD]) else None
    else
      var n := Pack2(s[0], s[1]);
      Some([Symbol(n / 0x400 % 64), Symbol(n / 16 % 64), Symbol(n * 4 % 64), PAD])
  }

  function Encode(s: seq<Byte>): Option<seq<Byte>>
    decreases |s|
  {
    if |s| < 3 then EncodeTail(s)
    else Join(EncodeGroup(s[0], s[1], s[2]), Encode(s[3..]))
  }

  function Join(a: Option<seq<Byte>>, b: Option<seq<Byte>>): Option<seq<Byte>> {
    if a.Some? && b.Some? then Some(a.value + b.value) else None
  }

  function DecodeGroup(a: Byte, b: Byte, c: Byte, d: Byte): seq<Byte> {
    var n := Index(a) * 0x4_0000 + Index(b) * 0x1000 + Index(c) * 64 + Index(d);
    [n / 0x1_0000, n / 0x100 % 0x100, n % 0x100]
  }

  /** The last four symbols: one `=` stands for a missing byte, two for two. */
  function DecodeLast(a: Byte, b: Byte, c: Byte, d: Byte): seq<Byte> {
    if d != PAD then DecodeGroup(a, b, c, d)
    else if c != PAD then DecodeGroup(a, b, c, d)[..2]
    else DecodeGroup(a, b, c, d)[..1]
  }

  /** Decoding of a padded text, four symbols at a time. */
  function Decode(t: seq<Byte>): seq<Byte>
    requires |t| % 4 == 0
    decreases |t|
  {
    if t == [] then []
    else if |t| == 4 then DecodeLast(t[0], t[1], t[2], t[3])
    else DecodeGroup(t[0], t[1], t[2], t[3]) + Decode(t[4..])
  }

  // ---- the round trip ----

  /** The inputs that the signed reads do not spoil. */
  predicate Survives(s: seq<Byte>) {
    if |s| >= 3 then s[0] < 128 && s[1] < 128 && s[2] < 128 && Survives(s[3..])
    else if |s| == 2 then s[1] < 128 || s[0] == 0xFF
    else if |s| == 1 then s[0] < 128
    else true
  }

  lemma PieceLengths(s: seq<Byte>)
    ensures |s| >= 3 && EncodeGroup(s[0], s[1], s[2]).Some? ==> |EncodeGroup(s[0], s[1], s[2]).value| == 4
    ensures |s| < 3 && EncodeTail(s).Some? ==> |EncodeTail(s).value| == if s == [] then 0 else 4
  {
    hide Pack2, Pack3, Symbol;
  }

  lemma {:induction false} EncodedLength(s: seq<Byte>)
    requires Encode(s).Some?
    ensures |Encode(s).value| == (|s| + 2) / 3 * 4
    decreases |s|
  {
    hide EncodeGroup, EncodeTail;
    PieceLengths(s);
    if |s| >= 3 {
      EncodedLength(s[3..]);
      assert (|s| + 2) / 3 == (|s| - 3 + 2) / 3 + 1;
    }
  }

  /** Splitting a word into four sextets and putting them together again. */
  lemma Regroup(n: int)
    requires 0 <= n < 0x100_0000
    ensures n / 0x4_0000 < 64
    ensures n / 0x4_0000 * 0x4_0000 + n / 0x1000 % 64 * 0x1000 + n / 64 % 64 * 64 + n % 64 == n
  {
    assert n / 64 / 64 == n / 0x1000 && n / 0x1000 / 64 == n / 0x4_0000;
  }

  /** Four symbols that carry a word's sextets decode to its bytes. */
  lemma SextetsDecode(a: Byte, b: Byte, c: Byte, d: Byte, n: int)
    requires 0 <= n < 0x100_0000
    requires Index(a) == n / 0x4_0000 && Index(b) == n / 0x1000 % 64 && Index(c) == n / 64 % 64 && Index(d) == n % 64
    ensures DecodeGroup(a, b, c, d) == [n / 0x1_0000, n / 0x100 % 0x100, n % 0x100]
  {
    Regroup(n);
  }

  lemma BytesOfWord(a: Byte, b: Byte, c: Byte)
    ensures var n: int := a as int * 0x1_0000 + b as int * 0x100 + c;
            0 <= n < 0x100_0000 && n / 0x1_0000 == a && n / 0x100 % 0x100 == b && n % 0x100 == c
  {
    var n: int := a as int * 0x1_0000 + b as int * 0x100 + c;
    assert n / 0x100 == a as int * 0x100 + b;
    assert n / 0x1_0000 == n / 0x100 / 0x100;
  }

  lemma GroupRoundTrip(a: Byte, b: Byte, c: Byte)
    ensures EncodeGroup(a, b, c).Some? <==> a < 128 && b < 128 && c < 128
    ensures EncodeGroup(a, b, c).Some? ==>
              var t := EncodeGroup(a, b, c).value;
              |t| == 4 && t[3] != PAD && DecodeGroup(t[0], t[1], t[2], t[3]) == [a, b, c]
  {
    var n := Pack3(a, b, c);
    if a < 128 && b < 128 && c < 128 {
      BytesOfWord(a, b, c);
      Regroup(n);
      IndexUndoesSymbol(n / 0x4_0000);
      IndexUndoesSymbol(n / 0x1000 % 64);
      IndexUndoesSymbol(n / 64 % 64);
      IndexUndoesSymbol(n % 64);
      hide Symbol, Index;
      SextetsDecode(Symbol(n / 0x4_0000), Symbol(n / 0x1000 % 64), Symbol(n / 64 % 64), Symbol(n % 64), n);
    } else {
      assert n < 0;
    }
  }

  /** The low sixteen bits of a packed pair: a negative second byte turns the first one into 0xFF. */
  function FirstSent(a: Byte, b: Byte): Byte {
    if b < 128 then a else 0xFF
  }

  /** Only the low sixteen bits of a packed pair reach the first symbol, */
  lemma LowBitsFirst(low: int)
    requires 0 <= low < 0x1_0000
    ensures (low - 0x1_0000) / 0x400 % 64 == low / 0x400
  {
    var q := low / 0x400;
    assert (low - 0x1_0000) / 0x400 == q - 64;
    assert (q - 64) % 64 == q;
  }

  /** the second, */
  lemma LowBitsSecond(low: int)
    ensures (low - 0x1_0000) / 16 % 64 == low / 16 % 64
  {
    var q := low / 16;
    assert (low - 0x1_0000) / 16 == q - 64 * 64;
    assert (q - 64 * 64) % 64 == q % 64;
  }

  /** and the third. */
  lemma LowBitsThird(low: int)
    ensures (low - 0x1_0000) * 4 % 64 == low * 4 % 64 == low % 16 * 4
  {
    var q, r := low / 16, low % 16;
    assert low * 4 == q * 64 + r * 4 && (low - 0x1_0000) * 4 == (q - 0x1000) * 64 + r * 4;
    LowSextet(q, r * 4);
    LowSextet(q - 0x1000, r * 4);
  }

  lemma LowSextet(q: int, t: int)
    requires 0 <= t < 64
    ensures (q * 64 + t) % 64 == t
  {
  }

  lemma PairWord(low: int)
    requires 0 <= low < 0x1_0000
    ensures var m := low * 0x100;
            m / 0x4_0000 == low / 0x400 && m / 0x1000 % 64 == low / 16 % 64 && m / 64 % 64 == low % 16 * 4 &&
                m % 64 == 0
  {
    assert low * 0x100 / 64 == low * 4;
  }

  lemma PairSextets(a: Byte, b: Byte)
    ensures var n, m: int := Pack2(a, b), FirstSent(a, b) as int * 0x1_0000 + b as int * 0x100;
            && n / 0x400 % 64 == m / 0x4_0000 && n / 16 % 64 == m / 0x1000 % 64
            && n * 4 % 64 == m / 64 % 64 && 0 == m % 64
  {
    var low: int := FirstSent(a, b) as int * 0x100 + b;
    LowBitsFirst(low);
    LowBitsSecond(low);
    LowBitsThird(low);
    PairWord(low);
  }

  lemma PairRoundTrip(a: Byte, b: Byte)
    ensures var t := EncodeTail([a, b]);
            && t.Some? && |t.value| == 4 && t.value[3] == PAD && t.value[2] != PAD
            && DecodeGroup(t.value[0], t.value[1], t.value[2], PAD)[..2] == [FirstSent(a, b), b]
  {
    var n, m: int := Pack2(a, b), FirstSent(a, b) as int * 0x1_0000 + b as int * 0x100;
    PairSextets(a, b);
    BytesOfWord(FirstSent(a, b), b, 0);
    IndexUndoesSymbol(n / 0x400 % 64);
    IndexUndoesSymbol(n / 16 % 64);
    IndexUndoesSymbol(n * 4 % 64);
    assert Index(PAD) == 0;
    hide Symbol, Index;
    SextetsDecode(Symbol(n / 0x400 % 64), Symbol(n / 16 % 64), Symbol(n * 4 % 64), PAD, m);
  }

  lemma SingleWord(a: int)
    requires 0 <= a < 128
    ensures var m := a * 0x1_0000;
            a / 4 == m / 0x4_0000 && a * 16 % 64 == m / 0x1000 % 64 && 0 == m / 64 % 64 && 0 == m % 64
            && 0 <= a / 4 < 64 && m / 0x1_0000 == a
  {
    assert a * 0x1_0000 / 0x1000 == a * 16 && a * 0x1_0000 / 64 == a * 16 * 64;
  }

  lemma SingleRoundTrip(a: Byte)
    ensures EncodeTail([a]).Some? <==> a < 128
    ensures a < 128 ==>
              var t := EncodeTail([a]).value;
              |t| == 4 && t[3] == PAD && t[2] == PAD && DecodeGroup(t[0], t[1], PAD, PAD)[..1] == [a]
  {
    if a < 128 {
      SingleWord(a);
      IndexUndoesSymbol(a / 4);
      IndexUndoesSymbol(a * 16 % 64);
      assert Index(PAD) == 0;
      hide Symbol, Index;
      SextetsDecode(Symbol(a / 4), Symbol(a * 16 % 64), PAD, PAD, a * 0x1_0000);
    }
  }

  lemma DecodeAfterGroup(x: seq<Byte>, y: seq<Byte>)
    requires |x| == 4 && x[3] != PAD && |y| % 4 == 0
    ensures Decode(x + y) == DecodeGroup(x[0], x[1], x[2], x[3]) + Decode(y)
  {
    assert (x + y)[4..] == y;
  }

  /** Decoding undoes encoding for exactly the inputs that survive the signed reads. */
  lemma {:induction false} RoundTrip(s: seq<Byte>)
    ensures Survives(s) <==> Encode(s).Some? && |Encode(s).value| % 4 == 0 && Decode(Encode(s).value) == s
    decreases |s|
  {
    hide EncodeGroup, EncodeTail, DecodeGroup, DecodeLast, Decode, Encode;
    if |s| >= 3 {
      RoundTrip(s[3..]);
      RoundTripMore(s);
    } else if |s| == 2 {
      EncodeEnds(s);
      PairComesBack(s);
    } else if |s| == 1 {
      EncodeEnds(s);
      SingleComesBack(s);
    } else {
      NothingEncodesNothing();
    }
  }

  predicate ComesBack(s: seq<Byte>) {
    Encode(s).Some? && |Encode(s).value| % 4 == 0 && Decode(Encode(s).value) == s
  }

  lemma PairComesBack(s: seq<Byte>)
    requires |s| == 2 && Encode(s) == EncodeTail(s)
    ensures ComesBack(s) <==> s[1] < 128 || s[0] == 0xFF
  {
    hide EncodeTail, DecodeGroup, Decode, Encode;
    assert s == [s[0], s[1]];
    PairRoundTrip(s[0], s[1]);
    DecodeLastGroup(EncodeTail(s).value);
  }

  lemma SingleComesBack(s: seq<Byte>)
    requires |s| == 1 && Encode(s) == EncodeTail(s)
    ensures ComesBack(s) <==> s[0] < 128
  {
    hide EncodeTail, DecodeGroup, Decode, Encode;
    assert s == [s[0]];
    SingleRoundTrip(s[0]);
    if s[0] < 128 {
      DecodeLastGroup(EncodeTail(s).value);
    }
  }

  /** A group more comes back iff it is below 128, and the rest comes back. */
  lemma RoundTripMore(s: seq<Byte>)
    requires |s| >= 3
    ensures ComesBack(s) <==> s[0] < 128 && s[1] < 128 && s[2] < 128 && ComesBack(s[3..])
  {
    hide Encode, EncodeGroup, DecodeGroup, Decode;
    GroupRoundTrip(s[0], s[1], s[2]);
    EncodeMore(s);
    var x, y := EncodeGroup(s[0], s[1], s[2]), Encode(s[3..]);
    if x.Some? && y.Some? {
      EncodedGroups(s[3..]);
      DecodeAfterGroup(x.value, y.value);
      SameRest(s, Decode(y.value));
    }
  }

  lemma EncodedGroups(s: seq<Byte>)
    requires Encode(s).Some?
    ensures |Encode(s).value| % 4 == 0
  {
    hide Encode;
    EncodedLength(s);
  }

  lemma SameRest(s: seq<Byte>, d: seq<Byte>)
    requires |s| >= 3
    ensures [s[0], s[1], s[2]] + d == s <==> d == s[3..]
  {
    assert ([s[0], s[1], s[2]] + d)[3..] == d;
    assert s == [s[0], s[1], s[2]] + s[3..];
  }

  lemma EncodeMore(s: seq<Byte>)
    requires |s| >= 3
    ensures Encode(s) == Join(EncodeGroup(s[0], s[1], s[2]), Encode(s[3..]))
  {
  }

  lemma DecodeLastGroup(t: seq<Byte>)
    requires |t| == 4
    ensures Decode(t) == DecodeLast(t[0], t[1], t[2], t[3])
  {
  }

  lemma NothingEncodesNothing()
    ensures Encode([]) == Some([]) && Decode([]) == []
  {
  }

  // ---- the symbols, as digits of one number ----

  /** The bytes taken as one number, the first one highest. */
  function Number(s: seq<Byte>): nat
    decreases |s|
  {
    if s == [] then 0 else Number(s[..|s| - 1]) * 256 + s[|s| - 1]
  }

  /** The last `m` digits of a number to the base 64, the highest one first: six bits each. */
  function Sextets(n: nat, m: nat): (r: seq<nat>)
    ensures |r| == m && forall k :: 0 <= k < m ==> r[k] < 64
    decreases m
  {
    if m == 0 then [] else Sextets(n / 64, m - 1) + [n % 64]
  }

  function Zeros(n: nat): (r: seq<Byte>)
    ensures |r| == n
  {
    seq(n, _ => 0)
  }

  /** The bytes, filled up with zeros to groups of three. */
  function Filled(s: seq<Byte>): (r: seq<Byte>)
    ensures |r| % 3 == 0
  {
    s + Zeros((3 - |s| % 3) % 3)
  }

  lemma {:induction false} EncodeInTwo(x: seq<Byte>, y: seq<Byte>)
    requires |x| % 3 == 0
    ensures Encode(x + y) == Join(Encode(x), Encode(y))
    decreases |x|
  {
    hide EncodeGroup, EncodeTail;
    if x == [] {
      assert x + y == y;
      NothingEncodesNothing();
      JoinNothing(Encode(y));
    } else {
      assert (x + y)[3..] == x[3..] + y;
      EncodeInTwo(x[3..], y);
      JoinTwice(EncodeGroup(x[0], x[1], x[2]), Encode(x[3..]), Encode(y));
    }
  }

  lemma JoinTwice(a: Option<seq<Byte>>, b: Option<seq<Byte>>, c: Option<seq<Byte>>)
    ensures Join(a, Join(b, c)) == Join(Join(a, b), c)
  {
    if a.Some? && b.Some? && c.Some? {
      assert a.value + (b.value + c.value) == a.value + b.value + c.value;
    }
  }

  /** Three bytes more, and four digits more. */
  lemma GroupOfDigits(n: nat, m: nat, a: Byte, b: Byte, c: Byte)
    ensures var g: nat := a as int * 0x1_0000 + b as int * 0x100 + c;
            Sextets(n * 0x100_0000 + g, m + 4) ==
            Sextets(n, m) + [g / 0x4_0000, g / 0x1000 % 64, g / 64 % 64, g % 64]
  {
    hide Sextets;
    var g: nat := a as int * 0x1_0000 + b as int * 0x100 + c;
    var w := n * 0x100_0000 + g;
    OneDigit(w, m + 3);
    OneDigit(w / 64, m + 2);
    OneDigit(w / 64 / 64, m + 1);
    OneDigit(w / 64 / 64 / 64, m);
    Shifted(n * 0x4_0000, g);
    Shifted(n * 0x1000, g / 64);
    Shifted(n * 64, g / 64 / 64);
    Shifted(n, g / 64 / 64 / 64);
    assert g / 64 / 64 == g / 0x1000 && g / 0x1000 / 64 == g / 0x4_0000 && g / 0x4_0000 < 64;
  }

  lemma OneDigit(n: nat, m: nat)
    ensures Sextets(n, m + 1) == Sextets(n / 64, m) + [n % 64]
  {
  }

  lemma Shifted(q: nat, g: nat)
    ensures (q * 64 + g) / 64 == q + g / 64 && (q * 64 + g) % 64 == g % 64
  {
    assert q * 64 + g == (q + g / 64) * 64 + g % 64;
  }

  lemma NumberOfGroup(x: seq<Byte>, a: Byte, b: Byte, c: Byte)
    ensures Number(x + [a, b, c]) == Number(x) * 0x100_0000 + (a as int * 0x1_0000 + b as int * 0x100 + c)
  {
    NumberOfOne(x, a);
    NumberOfOne(x + [a], b);
    NumberOfOne(x + [a] + [b], c);
    assert x + [a] + [b] + [c] == x + [a, b, c];
  }

  lemma NumberOfOne(x: seq<Byte>, a: Byte)
    ensures Number(x + [a]) == Number(x) * 256 + a
  {
    assert (x + [a])[..|x|] == x;
  }

  lemma GroupIsDigits(a: Byte, b: Byte, c: Byte)
    requires a < 128 && b < 128 && c < 128
    ensures var g: nat := a as int * 0x1_0000 + b as int * 0x100 + c;
            EncodeGroup(a, b, c) ==
            Some([Symbol(g / 0x4_0000), Symbol(g / 0x1000 % 64), Symbol(g / 64 % 64), Symbol(g % 64)])
  {
    BytesOfWord(a, b, c);
  }

  /** Whole groups of bytes below 128. */
  lemma {:induction false} GroupsAreDigits(s: seq<Byte>)
    requires |s| % 3 == 0 && forall b :: b in s ==> b < 128
    ensures Encode(s).Some? && |Encode(s).value| == |s| / 3 * 4
    ensures forall k :: 0 <= k < |s| / 3 * 4 ==>
              Encode(s).value[k] == Symbol(Sextets(Number(s), |s| / 3 * 4)[k])
    decreases |s|
  {
    hide EncodeGroup, EncodeTail, Symbol, Sextets, Encode, Number;
    if s == [] {
      NothingEncodesNothing();
    } else {
      var n := |s| - 3;
      var x, a, b, c := s[..n], s[n], s[n + 1], s[n + 2];
      assert s == x + [a, b, c] && a in s && b in s && c in s;
      assert forall d :: d in x ==> d in s;
      GroupsAreDigits(x);
      EncodeInTwo(x, [a, b, c]);
      EncodeOneGroup(a, b, c);
      NumberOfGroup(x, a, b, c);
      GroupOfDigits(Number(x), n / 3 * 4, a, b, c);
      GroupIsDigits(a, b, c);
      assert |s| / 3 * 4 == n / 3 * 4 + 4;
    }
  }

  lemma EncodeOneGroup(a: Byte, b: Byte, c: Byte)
    ensures Encode([a, b, c]) == EncodeGroup(a, b, c)
  {
    hide EncodeGroup;
    NothingEncodesNothing();
    assert [a, b, c][3..] == [];
    if EncodeGroup(a, b, c).Some? {
      assert EncodeGroup(a, b, c).value + [] == EncodeGroup(a, b, c).value;
    }
  }

  /** One or two bytes: the symbols of the filled group that carry them, and `=` for the others. */
  lemma TailIsFilled(s: seq<Byte>)
    requires 0 < |s| < 3 && forall b :: b in s ==> b < 128
    ensures var t, g := Encode(s), Encode(Filled(s));
            && t.Some? && g.Some? && |t.value| == |g.value| == 4
            && forall k :: 0 <= k < 4 ==> t.value[k] == if 6 * k < 8 * |s| then g.value[k] else 61
  {
    hide Symbol, EncodeGroup, EncodeTail, Encode, Filled;
    EncodeEnds(s);
    assert s[0] in s;
    if |s| == 1 {
      assert s == [s[0]];
      FilledOne(s[0]);
      EncodeOneGroup(s[0], 0, 0);
      SingleFilled(s[0]);
    } else {
      assert s[1] in s && s == [s[0], s[1]];
      FilledTwo(s[0], s[1]);
      EncodeOneGroup(s[0], s[1], 0);
      PairFilled(s[0], s[1]);
    }
  }

  lemma FilledOne(a: Byte)
    ensures Filled([a]) == [a, 0, 0]
  {
  }

  lemma FilledTwo(a: Byte, b: Byte)
    ensures Filled([a, b]) == [a, b, 0]
  {
  }

  lemma SingleFilled(a: Byte)
    requires a < 128
    ensures var t, g := EncodeTail([a]), EncodeGroup(a, 0, 0);
            && t.Some? && g.Some? && |t.value| == |g.value| == 4
            && t.value == [g.value[0], g.value[1], 61, 61]
  {
    GroupIsDigits(a, 0, 0);
    hide Symbol, EncodeGroup;
    SingleWord(a);
  }

  lemma PairFilled(a: Byte, b: Byte)
    requires a < 128 && b < 128
    ensures var t, g := EncodeTail([a, b]), EncodeGroup(a, b, 0);
            && t.Some? && g.Some? && |t.value| == |g.value| == 4
            && t.value == [g.value[0], g.value[1], g.value[2], 61]
  {
    GroupIsDigits(a, b, 0);
    hide Symbol, EncodeGroup, Pack2;
    PairSextets(a, b);
  }

  /**
   * For bytes below 128: symbol k is the alphabet's entry at the k-th six bits of the bytes,
   * filled up with zeros and taken as one number; where those are all filling, it is `=`.
   */
  lemma EncodedIsDigits(s: seq<Byte>)
    requires forall b :: b in s ==> b < 128
    ensures Encode(s).Some? && |Encode(s).value| == (|s| + 2) / 3 * 4
    ensures forall k :: 0 <= k < |Encode(s).value| ==>
              Encode(s).value[k] ==
              if 6 * k < 8 * |s| then ALPHABET[Sextets(Number(Filled(s)), |Encode(s).value|)[k]] as int else 61
  {
    hide Encode, Symbol, Sextets, Number;
    var m, n := (|s| + 2) / 3 * 4, Number(Filled(s));
    FilledSymbols(s);
    forall k | 0 <= k < m
      ensures Encode(s).value[k] == if 6 * k < 8 * |s| then ALPHABET[Sextets(n, m)[k]] as int else 61
    {
      SymbolsAreTheAlphabet(Sextets(n, m)[k]);
    }
  }

  lemma FilledSymbols(s: seq<Byte>)
    requires forall b :: b in s ==> b < 128
    ensures var m := (|s| + 2) / 3 * 4;
            && Encode(s).Some? && |Encode(s).value| == m
            && forall k :: 0 <= k < m ==>
                 Encode(s).value[k] ==
                 if 6 * k < 8 * |s| then Symbol(Sextets(Number(Filled(s)), m)[k]) else 61
  {
    hide Encode, Symbol, Sextets, Number, Filled;
    FilledIsShort(s);
    GroupsAreDigits(Filled(s));
    SameUpToFilling(s);
  }

  lemma FilledIsShort(s: seq<Byte>)
    requires forall b :: b in s ==> b < 128
    ensures |Filled(s)| / 3 * 4 == (|s| + 2) / 3 * 4 && forall b :: b in Filled(s) ==> b < 128
  {
  }

  lemma SameUpToFilling(s: seq<Byte>)
    requires forall b :: b in s ==> b < 128
    requires Encode(Filled(s)).Some? && |Encode(Filled(s)).value| == (|s| + 2) / 3 * 4
    ensures Encode(s).Some? && |Encode(s).value| == (|s| + 2) / 3 * 4
    ensures forall k :: 0 <= k < |Encode(s).value| ==>
              Encode(s).value[k] == if 6 * k < 8 * |s| then Encode(Filled(s)).value[k] else 61
  {
    hide Encode, Symbol, Filled;
    var r := |s| % 3;
    var x, y := s[..|s| - r], s[|s| - r..];
    assert s == x + y && forall b :: b in y ==> b in s;
    FilledTail(x, y);
    if r != 0 {
      EncodeInTwo(x, y);
      EncodeInTwo(x, Filled(y));
      TailIsFilled(y);
      EncodedLengthOf(x, Filled(y), s);
      SameInTwo(|x| / 3, r, Encode(x).value, Encode(y).value, Encode(Filled(y)).value);
    }
  }

  lemma FilledTail(x: seq<Byte>, y: seq<Byte>)
    requires |x| % 3 == 0
    ensures Filled(x + y) == x + Filled(y) && (|y| % 3 == 0 ==> Filled(y) == y)
  {
    assert |x + y| % 3 == |y| % 3;
  }

  lemma SameInTwo(q: nat, r: nat, x: seq<Byte>, t: seq<Byte>, g: seq<Byte>)
    requires |x| == 4 * q && |t| == |g| == 4
    requires forall k :: 0 <= k < 4 ==> t[k] == if 6 * k < 8 * r then g[k] else 61
    ensures forall k :: 0 <= k < |x| + 4 ==> (x + t)[k] == if 6 * k < 8 * (3 * q + r) then (x + g)[k] else 61
  {
    forall k | 0 <= k < |x| + 4 ensures (x + t)[k] == if 6 * k < 8 * (3 * q + r) then (x + g)[k] else 61 {
      if k >= |x| {
        assert (x + t)[k] == t[k - 4 * q] && (x + g)[k] == g[k - 4 * q];
      }
    }
  }

  lemma EncodedLengthOf(x: seq<Byte>, y: seq<Byte>, s: seq<Byte>)
    requires |x| % 3 == 0 && |x| == |s| - |s| % 3 && |s| % 3 != 0
    requires Join(Encode(x), Encode(y)).Some?
    ensures Encode(x).Some? && |Encode(x).value| == |x| / 3 * 4 == (|s| + 2) / 3 * 4 - 4
  {
    hide Encode;
    EncodedLength(x);
    WholeGroups(|x|, |s| % 3);
  }

  lemma WholeGroups(n: nat, r: nat)
    requires n % 3 == 0 && 0 < r < 3
    ensures (n + 2) / 3 == n / 3 && (n + r + 2) / 3 == n / 3 + 1
  {
  }

  /** Decoding, conversely: the bytes of whole groups are the digits' number. */
  lemma DecodedIsNumber(a: Byte, b: Byte, c: Byte, d: Byte)
    ensures Number(DecodeGroup(a, b, c, d)) == ((Index(a) * 64 + Index(b)) * 64 + Index(c)) * 64 + Index(d)
    ensures |DecodeGroup(a, b, c, d)| == 3
  {
    hide Index;
    var g := DecodeGroup(a, b, c, d);
    NumberOfGroup([], g[0], g[1], g[2]);
    assert [] + [g[0], g[1], g[2]] == g && Number([]) == 0;
    var n := Index(a) * 0x4_0000 + Index(b) * 0x1000 + Index(c) * 64 + Index(d);
    assert n / 0x100 / 0x100 == n / 0x1_0000;
  }

  // ---- the loops ----

  /** Four symbols written one after the other. */
  method Put4(str: array<Byte>, j: nat, a: Byte, b: Byte, c: Byte, d: Byte)
    requires j + 4 <= str.Length
    modifies str
    ensures str[..j + 4] == old(str[..j]) + [a, b, c, d]
    ensures str[j + 4..] == old(str[j + 4..])
  {
    str[j] := a;
    str[j + 1] := b;
    str[j + 2] := c;
    str[j + 3] := d;
  }

  /** Three bytes as four symbols, in place. */
  method EncodeGroupInto(a: Byte, b: Byte, c: Byte, str: array<Byte>, j: nat) returns (ok: bool)
    requires j + 4 <= str.Length
    modifies str
    ensures EncodeGroup(a, b, c) == if ok then Some(str[j..j + 4]) else None
    ensures str[..j] == old(str[..j]) && forall k :: j + 4 <= k < str.Length ==> str[k] == old(str[k])
  {
    hide Symbol, Pack3;
    var n := Pack3(a, b, c);
    if !(0 <= n / 0x4_0000 < 64) {
      return false;
    }
    ghost var before := str[..j];
    Put4(str, j, Symbol(n / 0x4_0000), Symbol(n / 0x1000 % 64), Symbol(n / 64 % 64), Symbol(n % 64));
    assert str[..j] == str[..j + 4][..j] && str[j..j + 4] == str[..j + 4][j..];
    forall k | j + 4 <= k < str.Length ensures str[k] == old(str[k]) {
      assert str[j + 4..][k - j - 4] == str[k];
    }
    return true;
  }

  /** The loop of `b64encode`: the whole groups. */
  method EncodeGroups(s: seq<Byte>, last: nat, str: array<Byte>) returns (ok: bool)
    requires last <= |s| && last % 3 == 0 && last / 3 * 4 <= str.Length
    modifies str
    ensures Encode(s) == if ok then Join(Some(str[..last / 3 * 4]), Encode(s[last..])) else None
    ensures forall k :: last / 3 * 4 <= k < str.Length ==> str[k] == old(str[k])
  {
    hide Encode, EncodeGroup, Join;
    var i, j := 0, 0;
    assert s[0..] == s && str[..0] == [];
    JoinNothing(Encode(s));
    while i < last
      invariant 0 <= i <= last && i % 3 == 0 && j == i / 3 * 4 <= str.Length
      invariant Encode(s) == Join(Some(str[..j]), Encode(s[i..]))
      invariant forall k :: last / 3 * 4 <= k < str.Length ==> str[k] == old(str[k])
    {
      Sizes(last, i);
      EncodeUnfolds(s, i, str[..j]);
      ghost var done := str[..j];
      ok := EncodeGroupInto(s[i], s[i + 1], s[i + 2], str, j);
      if !ok {
        return;
      }
      assert str[..j + 4] == done + str[j..j + 4];
      i, j := i + 3, j + 4;
    }
    return true;
  }

  /** `b64encode`; `None` where the source would index the alphabet out of range. */
  method EncodeBytes(s: seq<Byte>) returns (r: Option<seq<Byte>>)
    ensures r == Encode(s)
  {
    hide Encode, EncodeTail, EncodeGroup, Join;
    var pad := |s| % 3;
    var last := |s| - pad;
    Sizes(|s|, last);
    var str := new Byte[(|s| + 2) / 3 * 4](_ => PAD);
    var ok := EncodeGroups(s, last, str);
    if !ok {
      return None;
    }
    var j := last / 3 * 4;
    EncodeEnds(s[last..]);
    if pad == 0 {
      JoinRest(str[..j], []);
      assert str[..] == str[..j];
      return Some(str[..]);
    }
    ok := EncodeTailInto(s, last, str, j);
    JoinTail(str[..j], EncodeTail(s[last..]));
    if !ok {
      return None;
    }
    assert str[..] == str[..j] + str[j..];
    return Some(str[..]);
  }

  lemma JoinTail(x: seq<Byte>, y: Option<seq<Byte>>)
    ensures Join(Some(x), y) == match y case Some(z) => Some(x + z) case None => None
  {
  }

  /** Where the loop stands in the result. */
  lemma Sizes(n: nat, i: nat)
    requires i <= n - n % 3 && i % 3 == 0
    ensures i < n - n % 3 ==> i + 3 <= n - n % 3 && (i + 3) % 3 == 0 && (i + 3) / 3 * 4 == i / 3 * 4 + 4
    ensures (n - n % 3) % 3 == 0
    ensures (n + 2) / 3 * 4 == (n - n % 3) / 3 * 4 + (if n % 3 == 0 then 0 else 4)
    ensures i / 3 * 4 + (if i < n - n % 3 then 4 else 0) <= (n - n % 3) / 3 * 4
  {
  }

  lemma JoinRest(x: seq<Byte>, y: seq<Byte>)
    requires y == []
    ensures EncodeTail([]) == Some([]) && Join(Some(x), Some(y)) == Some(x)
  {
    assert x + y == x;
  }

  /** The last one or two bytes, with their padding. */
  method EncodeTailInto(s: seq<Byte>, last: nat, str: array<Byte>, at: nat) returns (ok: bool)
    requires last < |s| <= last + 2 && at + 4 == str.Length && str[at + 3] == PAD
    modifies str
    ensures str[..at] == old(str[..at])
    ensures EncodeTail(s[last..]) == if ok then Some(str[at..]) else None
  {
    var pad, j := |s| - last - 1, at;
    if pad == 0 && !(0 <= Signed(s[last]) / 4 < 64) {
      return false;
    }
    var n := if pad > 0 then Pack2(s[last], s[last + 1]) else Signed(s[last]);
    str[j] := Symbol(if pad > 0 then n / 0x400 % 64 else n / 4);
    j := j + 1;
    str[j] := Symbol(if pad > 0 then n / 16 % 64 else n * 16 % 64);
    j := j + 1;
    str[j] := if pad > 0 then Symbol(n * 4 % 64) else PAD;
    j := j + 1;
    assert str[at..] == [str[at], str[at + 1], str[at + 2], PAD];
    return true;
  }

  lemma JoinNothing(z: Option<seq<Byte>>)
    ensures Join(Some([]), z) == z
  {
    if z.Some? {
      assert [] + z.value == z.value;
    }
  }

  lemma EncodeUnfolds(s: seq<Byte>, i: nat, x: seq<Byte>)
    requires i + 3 <= |s|
    ensures var group := EncodeGroup(s[i], s[i + 1], s[i + 2]);
            Join(Some(x), Encode(s[i..])) == if group.None? then None
                else Join(Some(x + group.value), Encode(s[i + 3..]))
  {
    assert s[i..][3..] == s[i + 3..];
    var y, z := EncodeGroup(s[i], s[i + 1], s[i + 2]), Encode(s[i + 3..]);
    if y.Some? && z.Some? {
      assert x + (y.value + z.value) == x + y.value + z.value;
    }
  }

  lemma EncodeEnds(s: seq<Byte>)
    requires |s| < 3
    ensures Encode(s) == EncodeTail(s)
  {
  }

  /**
   * What the decoder makes of a text whose last group is short: it takes the string's
   * terminator for a symbol (and a third symbol for one even if it is `=`), or reads out
   * of bounds.
   */
  function Completed(t: seq<Byte>): (r: Option<seq<Byte>>)
    ensures r.Some? ==> |r.value| % 4 == 0
  {
    var n := |t|;
    if n % 4 == 0 then Some(t)
    else if n % 4 == 3 then Some(t[..n - 1] + [if t[n - 1] == PAD then NUL else t[n - 1], PAD])
    else if n % 4 == 2 then Some(t + if t[n - 2] != PAD then [NUL, PAD] else [PAD, PAD])
    else if n > 1 && t[n - 2] == PAD then Some(t + [NUL, PAD, PAD])
    else None
  }

  /** The decoder's view of its text: a `std::string`'s buffer, with one NUL after it. */
  function At(t: seq<Byte>, i: int): Option<Byte> {
    if 0 <= i < |t| then Some(t[i]) else if i == |t| then Some(NUL) else None
  }

  /** The loop of `b64decode`: all whole groups but the last padded one. */
  method DecodeGroups(t: seq<Byte>, last: nat) returns (str: seq<Byte>)
    requires last <= |t| && last % 4 == 0
    ensures str == Groups(t[..last])
  {
    hide Groups;
    str := [];
    var i := 0;
    GroupsOfNothing();
    assert t[0..last] == t[..last] && [] + Groups(t[..last]) == Groups(t[..last]);
    while i < last
      invariant 0 <= i <= last && i % 4 == 0
      invariant Groups(t[..last]) == str + Groups(t[i..last])
    {
      GroupsStep(str, t[i..last]);
      assert t[i..last][4..] == t[i + 4..last];
      var n := Index(t[i]) * 0x4_0000 + Index(t[i + 1]) * 0x1000 + Index(t[i + 2]) * 64 + Index(t[i + 3]);
      var group: seq<Byte> := [n / 0x1_0000, n / 0x100 % 0x100, n % 0x100];
      str := str + group;
      i := i + 4;
    }
  }

  /** Decoding with no regard to padding. */
  function Groups(t: seq<Byte>): seq<Byte>
    requires |t| % 4 == 0
    decreases |t|
  {
    if t == [] then [] else DecodeGroup(t[0], t[1], t[2], t[3]) + Groups(t[4..])
  }

  lemma GroupsOfNothing()
    ensures Groups([]) == []
  {
  }

  lemma GroupsStep(str: seq<Byte>, t: seq<Byte>)
    requires t != [] && |t| % 4 == 0
    ensures str + Groups(t) == str + DecodeGroup(t[0], t[1], t[2], t[3]) + Groups(t[4..])
  {
  }

  lemma {:induction false} GroupsThenLast(x: seq<Byte>, y: seq<Byte>)
    requires |x| % 4 == 0 && |y| == 4
    ensures Decode(x + y) == Groups(x) + DecodeLast(y[0], y[1], y[2], y[3])
    decreases |x|
  {
    if x == [] {
      assert x + y == y;
    } else {
      assert (x + y)[4..] == x[4..] + y;
      GroupsThenLast(x[4..], y);
    }
  }

  lemma DecodeUnpadded(t: seq<Byte>)
    requires |t| % 4 == 0 && (t != [] ==> t[|t| - 1] != PAD)
    ensures Decode(t) == Groups(t)
  {
    if t != [] {
      var x, y := t[..|t| - 4], t[|t| - 4..];
      assert t == x + y;
      GroupsThenLast(x, y);
      GroupsOfBoth(x, y);
    }
  }

  lemma {:induction false} GroupsOfBoth(x: seq<Byte>, y: seq<Byte>)
    requires |x| % 4 == 0 && |y| % 4 == 0
    ensures Groups(x + y) == Groups(x) + Groups(y)
    decreases |x|
  {
    if x == [] {
      assert x + y == y;
    } else {
      assert (x + y)[4..] == x[4..] + y;
      GroupsOfBoth(x[4..], y);
    }
  }

  /** `b64decode` of a string; `None` where the source would read outside it. */
  method DecodeText(t: seq<Byte>) returns (r: Option<seq<Byte>>)
    ensures r == match Completed(t)
                 case Some(whole) => Some(Decode(whole))
                 case None => None
  {
    hide Decode, Groups;
    NothingEncodesNothing();
    if |t| == 0 {
      return Some([]);
    }
    var pad1 := |t| % 4 != 0 || t[|t| - 1] == PAD;
    if pad1 && |t| % 4 <= 2 && |t| < 2 {
      return None;
    }
    var pad2 := pad1 && (|t| % 4 > 2 || t[|t| - 2] != PAD);
    var last := (|t| - if pad1 then 1 else 0) / 4 * 4;
    var str := DecodeGroups(t, last);
    if !pad1 {
      DecodeUnpadded(t);
      assert t[..last] == t;
      return Some(str);
    }
    var a, b := At(t, last), At(t, last + 1);
    if a.None? || b.None? {
      return None;
    }
    ShortGroup(t, last, pad2);
    var n := Index(a.value) * 0x4_0000 + Index(b.value) * 0x1000;
    ghost var whole := str;
    str := str + [n / 0x1_0000];
    if pad2 {
      var c := At(t, last + 2);
      if c.None? {
        return None;
      }
      ShortGroupBytes(Index(a.value), Index(b.value), Index(c.value));
      n := n + Index(c.value) * 64;
      assert whole + [n / 0x1_0000, n / 0x100 % 0x100] == str + [n / 0x100 % 0x100];
      str := str + [n / 0x100 % 0x100];
    }
    return Some(str);
  }

  lemma ShortGroupBytes(a: int, b: int, c: int)
    requires 0 <= a < 64 && 0 <= b < 64 && 0 <= c < 64
    ensures (a * 0x4_0000 + b * 0x1000 + c * 64) / 0x1_0000 == (a * 0x4_0000 + b * 0x1000) / 0x1_0000
  {
    assert (a * 0x4_0000 + b * 0x1000) / 0x1000 / 16 == (a * 0x4_0000 + b * 0x1000) / 0x1_0000;
  }

  /** The bytes of a last group of two symbols, or of three. */
  function ShortBytes(a: Byte, b: Byte, c: Byte, three: bool): seq<Byte> {
    var n := Index(a) * 0x4_0000 + Index(b) * 0x1000 + if three then Index(c) * 64 else 0;
    if three then [n / 0x1_0000, n / 0x100 % 0x100] else [n / 0x1_0000]
  }

  lemma ShortBytesDecode(a: Byte, b: Byte, c: Byte)
    ensures c != PAD ==> DecodeLast(a, b, c, PAD) == ShortBytes(a, b, c, true)
    ensures DecodeLast(a, b, NUL, PAD) == ShortBytes(a, b, PAD, true)
    ensures DecodeLast(a, b, PAD, PAD) == ShortBytes(a, b, c, false)
  {
  }

  /** The text as whole groups and one last group that ends in `=`. */
  lemma ShortGroup(t: seq<Byte>, last: nat, pad2: bool)
    requires t != [] && (|t| % 4 != 0 || t[|t| - 1] == PAD) && (|t| % 4 > 2 || |t| >= 2)
    requires last == (|t| - 1) / 4 * 4 && (pad2 <==> |t| % 4 > 2 || t[|t| - 2] != PAD)
    ensures At(t, last).Some? && At(t, last + 1).Some?
    ensures Completed(t).Some? <==> !pad2 || At(t, last + 2).Some?
    ensures Completed(t).Some? ==>
              var a, b, c := At(t, last).value, At(t, last + 1).value, if pad2 then At(t, last + 2).value else PAD;
              Decode(Completed(t).value) == Groups(t[..last]) + ShortBytes(a, b, c, pad2)
  {
    hide Decode, Groups, DecodeLast, ShortBytes;
    if Completed(t).Some? {
      var a, b, c := At(t, last).value, At(t, last + 1).value, if pad2 then At(t, last + 2).value else PAD;
      var c' := if pad2 && c == PAD then NUL else c;
      assert Completed(t).value == t[..last] + [a, b, c', PAD];
      GroupsThenLast(t[..last], [a, b, c', PAD]);
      ShortBytesDecode(a, b, c);
    }
  }

  // ---- encodings without their padding ----

  function Padding(s: seq<Byte>): nat {
    (3 - |s| % 3) % 3
  }

  lemma {:induction false} GroupsOfEncoding(x: seq<Byte>)
    requires |x| % 3 == 0 && forall b :: b in x ==> b < 128
    ensures Encode(x).Some? && |Encode(x).value| % 4 == 0 && Groups(Encode(x).value) == x
    decreases |x|
  {
    hide EncodeGroup, EncodeTail, DecodeGroup;
    if x == [] {
      NothingEncodesNothing();
    } else {
      assert x[0] in x && x[1] in x && x[2] in x && forall b :: b in x[3..] ==> b in x;
      GroupsOfEncoding(x[3..]);
      GroupRoundTrip(x[0], x[1], x[2]);
      var g, rest := EncodeGroup(x[0], x[1], x[2]).value, Encode(x[3..]).value;
      assert (g + rest)[4..] == rest && x == [x[0], x[1], x[2]] + x[3..];
    }
  }

  /** The symbols of one or two last bytes, completed and decoded. */
  lemma TailCompleted(y: seq<Byte>)
    requires 0 < |y| < 3 && forall b :: b in y ==> b < 128
    ensures EncodeTail(y).Some? && |EncodeTail(y).value| == 4
    ensures var t := EncodeTail(y).value;
            if |y| == 1 then t[0] != PAD && DecodeLast(t[0], t[1], NUL, PAD) == y + [0]
            else t[2] != PAD && DecodeLast(t[0], t[1], t[2], PAD) == y
  {
    assert y[0] in y;
    if |y| == 1 {
      assert y == [y[0]];
      LoneByteCompleted(y[0]);
    } else {
      assert y[1] in y && y == [y[0], y[1]];
      PairRoundTrip(y[0], y[1]);
    }
  }

  lemma LoneByteCompleted(a: Byte)
    requires a < 128
    ensures var t := EncodeTail([a]);
            t.Some? && |t.value| == 4 && t.value[0] != PAD && DecodeLast(t.value[0], t.value[1], NUL, PAD) == [a, 0]
  {
    SingleWord(a);
    IndexUndoesSymbol(a / 4);
    IndexUndoesSymbol(a * 16 % 64);
    NoIndex();
    hide Symbol, Index;
    SextetsDecode(Symbol(a / 4), Symbol(a * 16 % 64), NUL, PAD, a * 0x1_0000);
    LowBytesOfSingle(a);
  }

  lemma NoIndex()
    ensures Index(NUL) == 0 && Index(PAD) == 0
  {
  }

  lemma LowBytesOfSingle(a: int)
    ensures a * 0x1_0000 / 0x100 % 0x100 == 0
  {
    assert a * 0x1_0000 == a * 0x100 * 0x100;
  }

  lemma CutTwo(e: seq<Byte>, a: Byte, b: Byte)
    requires |e| % 4 == 0 && a != PAD
    ensures Completed(e + [a, b]) == Some(e + [a, b, NUL, PAD])
  {
    var u := e + [a, b];
    assert |u| % 4 == 2 && u[|u| - 2] == a;
    assert u + [NUL, PAD] == e + [a, b, NUL, PAD];
  }

  lemma CutOne(e: seq<Byte>, a: Byte, b: Byte, c: Byte)
    requires |e| % 4 == 0 && c != PAD
    ensures Completed(e + [a, b, c]) == Some(e + [a, b, c, PAD])
  {
    var u := e + [a, b, c];
    assert |u| % 4 == 3 && u[|u| - 1] == c && u[..|u| - 1] == e + [a, b];
    assert e + [a, b] + [c, PAD] == e + [a, b, c, PAD];
  }

  /** Without its padding an encoding is decoded as well, except that a lone last byte gets a NUL after it. */
  lemma UnpaddedDecodes(s: seq<Byte>)
    requires forall b :: b in s ==> b < 128
    ensures Encode(s).Some? && |Encode(s).value| >= Padding(s)
    ensures var t := Encode(s).value[..|Encode(s).value| - Padding(s)];
            && Completed(t).Some?
            && Decode(Completed(t).value) == if |s| % 3 == 1 then s + [0] else s
  {
    hide Encode, Decode, Groups, EncodeTail, DecodeLast, Completed;
    if |s| % 3 == 0 {
      AsciiSurvives(s);
      RoundTrip(s);
      WholeIsComplete(Encode(s).value);
    } else {
      UnpaddedTail(s, |s| % 3);
    }
  }

  lemma UnpaddedTail(s: seq<Byte>, r: nat)
    requires r == |s| % 3 && 0 < r && forall b :: b in s ==> b < 128
    ensures Encode(s).Some? && |Encode(s).value| >= 3 - r
    ensures var t := Encode(s).value[..|Encode(s).value| - (3 - r)];
            Completed(t).Some? && Decode(Completed(t).value) == if r == 1 then s + [0] else s
  {
    hide Encode, Decode, Groups, EncodeTail, DecodeLast, Completed;
    var x, y := s[..|s| - r], s[|s| - r..];
    SplitTail(s, r, x, y);
    GroupsOfEncoding(x);
    EncodeInTwo(x, y);
    EncodeEnds(y);
    TailCompleted(y);
    TailUnpadded(x, y, Encode(x).value, EncodeTail(y).value);
  }

  lemma SplitTail(s: seq<Byte>, r: nat, x: seq<Byte>, y: seq<Byte>)
    requires r == |s| % 3 && x == s[..|s| - r] && y == s[|s| - r..]
    requires forall b :: b in s ==> b < 128
    ensures |x| % 3 == 0 && s == x + y
    ensures (forall b :: b in x ==> b < 128) && forall b :: b in y ==> b < 128
  {
    forall b | b in x || b in y ensures b < 128 {
      assert b in s;
    }
  }

  lemma WholeIsComplete(t: seq<Byte>)
    requires |t| % 4 == 0
    ensures Completed(t) == Some(t) && t[..|t|] == t
  {
  }

  lemma TailUnpadded(x: seq<Byte>, y: seq<Byte>, e: seq<Byte>, t: seq<Byte>)
    requires 0 < |y| < 3 && |e| % 4 == 0 && Groups(e) == x && |t| == 4
    requires if |y| == 1 then t[0] != PAD && DecodeLast(t[0], t[1], NUL, PAD) == y + [0]
             else t[2] != PAD && DecodeLast(t[0], t[1], t[2], PAD) == y
    ensures var u := (e + t)[..|e| + 1 + |y|];
            && Completed(u).Some?
            && Decode(Completed(u).value) == if |y| == 1 then x + y + [0] else x + y
  {
    hide Decode, Groups, DecodeLast, Completed;
    if |y| == 1 {
      CutTwo(e, t[0], t[1]);
      LastOf(e, t[0], t[1], NUL);
      TakeTail(e, t, 2);
      assert x + (y + [0]) == x + y + [0];
    } else {
      CutOne(e, t[0], t[1], t[2]);
      LastOf(e, t[0], t[1], t[2]);
      TakeTail(e, t, 3);
    }
  }

  lemma LastOf(e: seq<Byte>, a: Byte, b: Byte, c: Byte)
    requires |e| % 4 == 0
    ensures |e + [a, b, c, PAD]| % 4 == 0
    ensures Decode(e + [a, b, c, PAD]) == Groups(e) + DecodeLast(a, b, c, PAD)
  {
    hide Decode, Groups, DecodeLast;
    var y := [a, b, c, PAD];
    FourMore(e, y);
    GroupsThenLast(e, y);
  }

  lemma FourMore(e: seq<Byte>, y: seq<Byte>)
    requires |e| % 4 == 0 && |y| == 4
    ensures |e + y| % 4 == 0
  {
  }

  lemma TakeTail(e: seq<Byte>, t: seq<Byte>, k: nat)
    requires |t| == 4 && 2 <= k <= 3
    ensures (e + t)[..|e| + k] == e + if k == 2 then [t[0], t[1]] else [t[0], t[1], t[2]]
  {
    assert t[..k] == if k == 2 then [t[0], t[1]] else [t[0], t[1], t[2]];
    assert (e + t)[..|e| + k] == e + t[..k];
  }

  lemma {:induction false} AsciiSurvives(s: seq<Byte>)
    requires forall b :: b in s ==> b < 128
    ensures Survives(s)
    decreases |s|
  {
    if |s| >= 3 {
      assert s[0] in s && s[1] in s && s[2] in s && forall b :: b in s[3..] ==> b in s;
      AsciiSurvives(s[3..]);
    } else if s != [] {
      assert s[0] in s && s[|s| - 1] in s;
    }
  }
}
