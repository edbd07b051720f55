/**
 * The binary protocol library: schemas of nested numbers, strings, lists and packets,
 * their bytes on the wire, and the lengths the library computes for them.
 */
module BinProto {
  import opened Bytes

  /** The unsigned integer types a number, a length or a list size may use. */
  datatype Width = U8 | U16 | U32 | U64
  {
    function Size(): nat {
      match this case U8 => 1 case U16 => 2 case U32 => 4 case U64 => 8
    }

    /** How many values the type has. */
    function Range(): nat {
      match this case U8 => 0x100 case U16 => 0x1_0000 case U32 => 0x1_0000_0000 case U64 => 0x1_0000_0000_0000_0000
    }
  }

  /** `uint32_t` arithmetic is modulo this. */
  const WRAP := 0x1_0000_0000

  /** The most bytes that a `std::string` can hold, and items that a container can, where `size_t` has 64 bits. */
  const MAX_SIZE := 0x7FFF_FFFF_FFFF_FFFF

  datatype Schema =
    | Number(width: Width)
    | VariableString(width: Width)
    | FixedString(length: nat)
    | List(item: Schema, width: Width)
    | Packet(fields: seq<Schema>)

  datatype Value = Num(n: nat) | Str(s: seq<Byte>) | Items(items: seq<Value>) | Fields(fields: seq<Value>)

  /** `v` is a value of the schema, and its lengths and sizes fit the integers that carry them. */
  ghost predicate Fits(sch: Schema, v: Value)
    decreases v, 1
  {
    match sch
    case Number(w) => v.Num? && v.n < w.Range()
    case VariableString(w) => v.Str? && |v.s| < w.Range()
    case FixedString(k) => v.Str? && |v.s| == k
    case List(item, w) => v.Items? && |v.items| < w.Range() && |v.items| < WRAP && AllFit(item, v.items)
    case Packet(fs) => v.Fields? && EachFits(fs, v.fields)
  }

  ghost predicate AllFit(item: Schema, vs: seq<Value>)
    decreases vs, 0
  {
    vs == [] || (Fits(item, vs[0]) && AllFit(item, vs[1..]))
  }

  ghost predicate EachFits(fs: seq<Schema>, vs: seq<Value>)
    decreases vs, 0
  {
    if vs == [] then fs == [] else fs != [] && Fits(fs[0], vs[0]) && EachFits(fs[1..], vs[1..])
  }

  // ---- numbers in network order ----

  function BigEndian(n: nat, size: nat): (r: seq<Byte>)
    ensures |r| == size
  {
    if size == 0 then [] else BigEndian(n / 256, size - 1) + [n % 256]
  }

  function FromBigEndian(b: seq<Byte>): nat {
    if b == [] then 0 else FromBigEndian(b[..|b| - 1]) * 256 + b[|b| - 1]
  }

  function Pow256(k: nat): (r: nat)
    ensures r > 0
  {
    if k == 0 then 1 else 256 * Pow256(k - 1)
  }

  lemma {:induction false} BigEndianRoundTrip(n: nat, size: nat)
    requires n < Pow256(size)
    ensures FromBigEndian(BigEndian(n, size)) == n
  {
    if size > 0 {
      BigEndianRoundTrip(n / 256, size - 1);
      var b := BigEndian(n, size);
      assert b[..|b| - 1] == BigEndian(n / 256, size - 1);
    }
  }

  /** A 64-bit number goes out as two 32-bit halves. */
  function NumberBytes(n: nat, w: Width): (r: seq<Byte>)
    ensures |r| == w.Size()
  {
    if w.U64? then BigEndian(n / WRAP, 4) + BigEndian(n % WRAP, 4) else BigEndian(n, w.Size())
  }

  function NumberFrom(b: seq<Byte>, w: Width): nat
    requires |b| == w.Size()
  {
    if w.U64? then FromBigEndian(b[..4]) * WRAP + FromBigEndian(b[4..]) else FromBigEndian(b)
  }

  lemma NumberRoundTrip(n: nat, w: Width)
    requires n < w.Range()
    ensures NumberFrom(NumberBytes(n, w), w) == n
  {
    assert Pow256(1) == 0x100 && Pow256(2) == 0x1_0000 && Pow256(3) == 0x100_0000 && Pow256(4) == WRAP;
    if w.U64? {
      var b := NumberBytes(n, w);
      assert b[..4] == BigEndian(n / WRAP, 4) && b[4..] == BigEndian(n % WRAP, 4);
      BigEndianRoundTrip(n / WRAP, 4);
      BigEndianRoundTrip(n % WRAP, 4);
    } else {
      BigEndianRoundTrip(n, w.Size());
    }
  }

  // ---- the place of each byte ----

  lemma {:induction false} BigEndianPlaces(n: nat, size: nat, i: nat)
    requires i < size
    ensures BigEndian(n, size)[i] == n / Pow256(size - 1 - i) % 256
    decreases size
  {
    if i == size - 1 {
      assert Pow256(0) == 1;
    } else {
      BigEndianPlaces(n / 256, size - 1, i);
      var p := Pow256(size - 2 - i);
      assert Pow256(size - 1 - i) == 256 * p;
      DivideTwice(n, p);
    }
  }

  lemma DivideTwice(n: nat, p: nat)
    requires p > 0
    ensures n / 256 / p == n / (256 * p)
  {
    var q, r := n / 256 / p, n / 256 % p;
    assert n == n / 256 * 256 + n % 256 && n / 256 == q * p + r;
    Regrouped(q, p, r, n % 256);
    BelowNext(p, r, n % 256);
    Quotient(n, 256 * p, q, r * 256 + n % 256);
  }

  lemma Regrouped(q: nat, p: nat, r: nat, s: nat)
    ensures (q * p + r) * 256 + s == q * (256 * p) + (r * 256 + s)
  {
  }

  lemma BelowNext(p: nat, r: nat, s: nat)
    requires r < p && s < 256
    ensures r * 256 + s < 256 * p
  {
  }

  lemma Quotient(n: nat, d: nat, q: nat, r: nat)
    requires d > 0 && r < d && n == q * d + r
    ensures n / d == q
  {
    var k := n / d;
    assert n == k * d + n % d;
    if k > q {
      Apart(q, k, d);
    } else if k < q {
      Apart(k, q, d);
    }
  }

  lemma Apart(i: nat, j: nat, d: nat)
    requires i < j
    ensures j * d >= i * d + d
  {
    var e := j - i - 1;
    assert j * d == (i + 1 + e) * d == i * d + d + e * d;
  }

  /** Network order: the byte at place `i` counts 256 times the one after it, in a number of any width. */
  lemma NumberPlaces(n: nat, w: Width, i: nat)
    requires n < w.Range() && i < w.Size()
    ensures NumberBytes(n, w)[i] == n / Pow256(w.Size() - 1 - i) % 256
  {
    if w.U64? {
      if i < 4 {
        BigEndianPlaces(n / WRAP, 4, i);
        FourPlacesMore(n, 3 - i);
      } else {
        BigEndianPlaces(n % WRAP, 4, i - 4);
        LowPlaces(n, 7 - i);
      }
    } else {
      BigEndianPlaces(n, w.Size(), i);
    }
  }

  lemma FourPlacesMore(n: nat, k: nat)
    ensures n / WRAP / Pow256(k) == n / Pow256(k + 4)
  {
    var p := Pow256(k);
    assert Pow256(k + 1) == 256 * p && Pow256(k + 2) == 256 * Pow256(k + 1);
    assert Pow256(k + 3) == 256 * Pow256(k + 2) && Pow256(k + 4) == 256 * Pow256(k + 3);
    assert n / 256 / 256 / 256 / 256 == n / WRAP;
    hide Pow256;
    DivideTwice(n / 256 / 256 / 256, p);
    DivideTwice(n / 256 / 256, 256 * p);
    DivideTwice(n / 256, 256 * (256 * p));
    DivideTwice(n, 256 * (256 * (256 * p)));
  }

  lemma LowPlaces(n: nat, k: nat)
    requires k < 4
    ensures n % WRAP / Pow256(k) % 256 == n / Pow256(k) % 256
  {
    var q, r := n / WRAP, n % WRAP;
    assert n == q * WRAP + r;
    assert Pow256(0) == 1 && Pow256(1) == 256 && Pow256(2) == 0x1_0000 && Pow256(3) == 0x100_0000;
    hide Pow256;
    if k == 0 {
      HighPart(q, 0x100_0000, r, 1);
    } else if k == 1 {
      HighPart(q, 0x1_0000, r, 256);
    } else if k == 2 {
      HighPart(q, 256, r, 0x1_0000);
    } else {
      HighPart(q, 1, r, 0x100_0000);
    }
  }

  /** What is far above a place makes no difference there. */
  lemma HighPart(q: nat, m: nat, r: nat, p: nat)
    requires p > 0
    ensures (q * (256 * m * p) + r) / p % 256 == r / p % 256
  {
    var n := q * (256 * m * p) + r;
    var k := q * (256 * m) + r / p;
    assert r == r / p * p + r % p;
    Spread(q, m, p, r / p, r % p);
    Quotient(n, p, k, r % p);
    Below(q * m, r / p);
    assert q * (256 * m) == 256 * (q * m);
  }

  lemma Spread(q: nat, m: nat, p: nat, i: nat, j: nat)
    ensures q * (256 * m * p) + (i * p + j) == (q * (256 * m) + i) * p + j
  {
    var x := 256 * m;
    assert q * (x * p) == q * x * p;
    assert (q * x + i) * p == q * x * p + i * p;
  }

  lemma Below(x: nat, y: nat)
    ensures (256 * x + y) % 256 == y % 256
  {
  }

  // ---- serializing ----

  ghost function Serialize(sch: Schema, v: Value): seq<Byte>
    requires Fits(sch, v)
    decreases v, 1
  {
    match sch
    case Number(w) => NumberBytes(v.n, w)
    case VariableString(w) => NumberBytes(|v.s|, w) + v.s
    case FixedString(_) => v.s
    case List(item, w) => NumberBytes(|v.items|, w) + SerializeAll(item, v.items)
    case Packet(fs) => SerializeEach(fs, v.fields)
  }

  ghost function SerializeAll(item: Schema, vs: seq<Value>): seq<Byte>
    requires AllFit(item, vs)
    decreases vs, 0
  {
    if vs == [] then [] else Serialize(item, vs[0]) + SerializeAll(item, vs[1..])
  }

  ghost function SerializeEach(fs: seq<Schema>, vs: seq<Value>): seq<Byte>
    requires EachFits(fs, vs)
    decreases vs, 0
  {
    if vs == [] then [] else Serialize(fs[0], vs[0]) + SerializeEach(fs[1..], vs[1..])
  }

  // ---- where everything lies ----

  /** A number is its bytes; a string its length and then its bytes; a list its size and then its items. */
  lemma SimpleOnTheWire(n: nat, s: seq<Byte>, items: seq<Value>, item: Schema, w: Width)
    requires n < w.Range() && |s| < w.Range() && Fits(List(item, w), Items(items))
    ensures Serialize(Number(w), Num(n)) == NumberBytes(n, w)
    ensures Serialize(VariableString(w), Str(s)) == NumberBytes(|s|, w) + s
    ensures Serialize(FixedString(|s|), Str(s)) == s
    ensures Serialize(List(item, w), Items(items)) == NumberBytes(|items|, w) + SerializeAll(item, items)
  {
  }

  /** The bytes before item `i`. */
  ghost function ItemOffset(item: Schema, vs: seq<Value>, i: nat): nat
    requires AllFit(item, vs) && i <= |vs|
    decreases i
  {
    if i == 0 then 0 else |Serialize(item, vs[0])| + ItemOffset(item, vs[1..], i - 1)
  }

  /** The bytes of item `i` begin where those of the items before it end. */
  lemma {:induction false} ItemOnTheWire(item: Schema, vs: seq<Value>, i: nat)
    requires AllFit(item, vs) && i < |vs|
    ensures Fits(item, vs[i])
    ensures var at, b := ItemOffset(item, vs, i), Serialize(item, vs[i]);
            && at + |b| == ItemOffset(item, vs, i + 1) <= |SerializeAll(item, vs)|
            && SerializeAll(item, vs)[at..at + |b|] == b
    decreases i
  {
    hide Serialize, Fits;
    ItemsUnfold(item, vs, i);
    var a, rest := Serialize(item, vs[0]), SerializeAll(item, vs[1..]);
    if i > 0 {
      ItemOnTheWire(item, vs[1..], i - 1);
      hide SerializeAll, ItemOffset, AllFit;
      SliceLater(a, rest, ItemOffset(item, vs[1..], i - 1), |Serialize(item, vs[i])|);
    } else {
      hide SerializeAll, AllFit;
      SliceLater([], a + rest, 0, |a|);
      assert (a + rest)[..|a|] == a;
    }
  }

  lemma ItemsUnfold(item: Schema, vs: seq<Value>, i: nat)
    requires AllFit(item, vs) && i < |vs|
    ensures Fits(item, vs[0]) && AllFit(item, vs[1..])
    ensures SerializeAll(item, vs) == Serialize(item, vs[0]) + SerializeAll(item, vs[1..])
    ensures ItemOffset(item, vs, i + 1) == |Serialize(item, vs[0])| + ItemOffset(item, vs[1..], i)
    ensures i > 0 ==> ItemOffset(item, vs, i) == |Serialize(item, vs[0])| + ItemOffset(item, vs[1..], i - 1)
    ensures ItemOffset(item, vs, 0) == 0 && ItemOffset(item, vs[1..], 0) == 0
  {
    hide Serialize, Fits;
  }

  lemma SliceLater<T>(a: seq<T>, rest: seq<T>, at: nat, n: nat)
    requires at + n <= |rest|
    ensures (a + rest)[|a| + at..|a| + at + n] == rest[at..at + n]
  {
  }

  ghost function FieldOffset(fs: seq<Schema>, vs: seq<Value>, i: nat): nat
    requires EachFits(fs, vs) && i <= |vs|
    decreases i
  {
    if i == 0 then 0 else |Serialize(fs[0], vs[0])| + FieldOffset(fs[1..], vs[1..], i - 1)
  }

  /** The same of a packet's fields. */
  lemma {:induction false} FieldOnTheWire(fs: seq<Schema>, vs: seq<Value>, i: nat)
    requires EachFits(fs, vs) && i < |vs|
    ensures |fs| == |vs| && Fits(fs[i], vs[i])
    ensures var at, b := FieldOffset(fs, vs, i), Serialize(fs[i], vs[i]);
            && at + |b| == FieldOffset(fs, vs, i + 1) <= |Serialize(Packet(fs), Fields(vs))|
            && Serialize(Packet(fs), Fields(vs))[at..at + |b|] == b
    decreases i
  {
    FieldsAlike(fs, vs);
    var a, rest := Serialize(fs[0], vs[0]), SerializeEach(fs[1..], vs[1..]);
    if i == 0 {
      assert FieldOffset(fs, vs, 1) == |a| + FieldOffset(fs[1..], vs[1..], 0);
      assert (a + rest)[..|a|] == a;
    } else {
      FieldOnTheWire(fs[1..], vs[1..], i - 1);
      var at, b := FieldOffset(fs[1..], vs[1..], i - 1), Serialize(fs[i], vs[i]);
      assert (a + rest)[|a| + at..|a| + at + |b|] == rest[at..at + |b|];
    }
  }

  lemma {:induction false} FieldsAlike(fs: seq<Schema>, vs: seq<Value>)
    requires EachFits(fs, vs)
    ensures |fs| == |vs|
    decreases |vs|
  {
    if vs != [] {
      FieldsAlike(fs[1..], vs[1..]);
    }
  }

  // ---- parsing ----

  /** What a default-constructed object holds. */
  function Default(sch: Schema): Value
    decreases sch
  {
    match sch
    case Number(_) => Num(0)
    case VariableString(_) => Str([])
    case FixedString(k) => Str(seq(k, _ => NUL))
    case List(_, _) => Items([])
    case Packet(fs) => Fields(seq(|fs|, i requires 0 <= i < |fs| => Default(fs[i])))
  }

  /** What `resize` leaves in the items that no parse reaches. */
  function Defaults(item: Schema, n: nat): (r: seq<Value>)
    ensures |r| == n && forall i :: 0 <= i < n ==> r[i] == Default(item)
  {
    seq(n, _ => Default(item))
  }

  /**
   * A parse ends with the object restored and the number of bytes used; or with an
   * exception and the object as far as it got, either the library's own one or the
   * `std::length_error` of a string or container that is to be larger than any can be; or
   * it copies from beyond the buffer; or it never ends, since it counts past the range of
   * its loop index.
   */
  datatype Outcome<V> = Done(value: V, used: nat) | Thrown(left: V) | Refused(left: V) | Overread | Endless

  /** `temp_len + to_int()`: 64-bit when the length is, else 32-bit. */
  function EndOffset(size: nat, length: nat, w: Width): nat {
    if w.U64? then (size + length) % U64.Range() else (size + length) % WRAP
  }

  function ParseVariable(w: Width, held: Value, buf: seq<Byte>): Outcome<Value> {
    var k := w.Size();
    if |buf| < k then Thrown(held)
    else
      var length := NumberFrom(buf[..k], w);
      if |buf| < EndOffset(k, length, w) then Thrown(held)
      else if length > MAX_SIZE then Refused(held)
      else if |buf| < k + length then Overread
      else Done(Str(buf[k..k + length]), k + length)
  }

  /** `parse_from_buffer` into an object that holds `held`, from a buffer of fewer than 2^32 bytes. */
  ghost function Parse(sch: Schema, held: Value, buf: seq<Byte>): (o: Outcome<Value>)
    ensures o.Done? ==> o.used <= |buf|
    decreases sch, 0
  {
    match sch
    case Number(w) => if |buf| < w.Size() then Thrown(held) else Done(Num(NumberFrom(buf[..w.Size()], w)), w.Size())
    case VariableString(w) => ParseVariable(w, held, buf)
    case FixedString(k) => if |buf| < k then Thrown(held) else Done(Str(buf[..k]), k)
    case List(item, w) =>
      if |buf| < w.Size() then Thrown(Items([])) else ParseList(item, NumberFrom(buf[..w.Size()], w), w.Size(), buf)
    case Packet(fs) =>
      match ParseEach(fs, if held.Fields? then held.fields else [], buf)
      case Done(vs, used) => Done(Fields(vs), used)
      case Thrown(left) => Thrown(Fields(left))
      case Refused(left) => Refused(Fields(left))
      case Overread => Overread
      case Endless => Endless
  }

  /** How many items the loop parses before its index starts again. */
  function Turns(count: nat): nat {
    if count < WRAP then count else WRAP
  }

  /** The items after the list's size: the loop index has 32 bits, so it never ends a longer list. */
  ghost function ParseList(item: Schema, count: nat, at: nat, buf: seq<Byte>): (o: Outcome<Value>)
    requires at <= |buf|
    ensures o.Done? ==> o.used <= |buf|
    decreases item, count + 2
  {
    if count > MAX_SIZE then Refused(Items([]))
    else
      var turns := Turns(count);
      match ParseAll(item, turns, buf[at..])
      case Done(vs, used) => if count < WRAP then Done(Items(vs), at + used) else Endless
      case Thrown(left) => Thrown(Items(left + Defaults(item, count - turns)))
      case Refused(left) => Refused(Items(left + Defaults(item, count - turns)))
      case Overread => Overread
      case Endless => Endless
  }

  ghost function ParseAll(item: Schema, count: nat, buf: seq<Byte>): (o: Outcome<seq<Value>>)
    ensures o.Done? ==> o.used <= |buf|
    decreases item, count + 1
  {
    if count == 0 then Done([], 0)
    else match Parse(item, Default(item), buf)
      case Overread => Overread
      case Endless => Endless
      case Thrown(left) => Thrown([left] + Defaults(item, count - 1))
      case Refused(left) => Refused([left] + Defaults(item, count - 1))
      case Done(v, used) =>
        match ParseAll(item, count - 1, buf[used..])
        case Overread => Overread
        case Endless => Endless
        case Thrown(left) => Thrown([v] + left)
        case Refused(left) => Refused([v] + left)
        case Done(vs, more) => Done([v] + vs, used + more)
  }

  ghost function ParseEach(fs: seq<Schema>, held: seq<Value>, buf: seq<Byte>): (o: Outcome<seq<Value>>)
    ensures o.Done? ==> o.used <= |buf|
    decreases fs, 0
  {
    if fs == [] then Done([], 0)
    else
      var first, others := if held == [] then Default(fs[0]) else held[0], if held == [] then [] else held[1..];
      match Parse(fs[0], first, buf)
      case Overread => Overread
      case Endless => Endless
      case Thrown(left) => Thrown([left] + others)
      case Refused(left) => Refused([left] + others)
      case Done(v, used) =>
        match ParseEach(fs[1..], others, buf[used..])
        case Overread => Overread
        case Endless => Endless
        case Thrown(left) => Thrown([v] + left)
        case Refused(left) => Refused([v] + left)
        case Done(vs, more) => Done([v] + vs, used + more)
  }

  // ---- what an exception leaves ----

  /** The library's own exception, or a container's. */
  predicate Throws<V>(o: Outcome<V>): (throws: bool)
    ensures throws <==> !o.Done? && !o.Overread? && !o.Endless?
  {
    o.Thrown? || o.Refused?
  }

  /** A number or a string keeps what it held; a list whose size is cut short, or too large, is empty. */
  lemma SimpleLeft(sch: Schema, held: Value, buf: seq<Byte>)
    requires Throws(Parse(sch, held, buf))
    ensures sch.Number? || sch.VariableString? || sch.FixedString? ==> Parse(sch, held, buf).left == held
    ensures sch.List? &&
            (|buf| < sch.width.Size() || NumberFrom(buf[..sch.width.Size()], sch.width) >= 0x8000_0000_0000_0000) ==>
              Parse(sch, held, buf).left == Items([])
  {
  }

  /** Where the items of a list come to grief. */
  ghost predicate ItemThrows(item: Schema, count: nat, buf: seq<Byte>, left: seq<Value>, i: nat, at: nat) {
    && i < count == |left| && at <= |buf| && ParseAll(item, i, buf) == Done(left[..i], at)
    && Throws(Parse(item, Default(item), buf[at..])) && Parse(item, Default(item), buf[at..]).left == left[i]
    && forall j :: i < j < count ==> left[j] == Default(item)
  }

  /** The items before the one that throws are restored, that one is left as it is, and the others as they began. */
  lemma {:induction false} ItemsLeft(item: Schema, count: nat, buf: seq<Byte>) returns (i: nat, at: nat)
    requires Throws(ParseAll(item, count, buf))
    ensures ItemThrows(item, count, buf, ParseAll(item, count, buf).left, i, at)
    decreases count
  {
    hide Parse, Default, ParseAll, ItemThrows;
    NoneThrows(item, buf);
    FirstItem(item, count, buf);
    var o := Parse(item, Default(item), buf);
    if o.Done? {
      var k, more := ItemsLeft(item, count - 1, buf[o.used..]);
      i, at := k + 1, o.used + more;
      LaterItemThrows(item, count, buf, k, more);
    } else {
      i, at := 0, 0;
      FirstItemThrows(item, count, buf);
    }
  }

  lemma FirstItemThrows(item: Schema, count: nat, buf: seq<Byte>)
    requires count > 0 && Throws(ParseAll(item, count, buf)) && !Parse(item, Default(item), buf).Done?
    ensures ItemThrows(item, count, buf, ParseAll(item, count, buf).left, 0, 0)
  {
    hide Parse, Default, ParseAll;
    FirstItem(item, count, buf);
    NoneThrows(item, buf);
    assert buf[0..] == buf;
  }

  lemma LaterItemThrows(item: Schema, count: nat, buf: seq<Byte>, k: nat, more: nat)
    requires count > 0 && Parse(item, Default(item), buf).Done?
    requires var rest := buf[Parse(item, Default(item), buf).used..];
             && Throws(ParseAll(item, count - 1, rest))
             && ItemThrows(item, count - 1, rest, ParseAll(item, count - 1, rest).left, k, more)
    ensures Throws(ParseAll(item, count, buf))
    ensures ItemThrows(item, count, buf, ParseAll(item, count, buf).left, k + 1,
                       Parse(item, Default(item), buf).used + more)
  {
    hide Parse, Default, ParseAll;
    var o := Parse(item, Default(item), buf);
    var rest := buf[o.used..];
    FirstItem(item, count, buf);
    FirstItem(item, k + 1, buf);
    OneInFront(o.value, ParseAll(item, count - 1, rest).left, k);
    assert rest[more..] == buf[o.used + more..];
  }

  lemma NoneThrows(item: Schema, buf: seq<Byte>)
    ensures ParseAll(item, 0, buf) == Done([], 0)
  {
  }

  lemma FirstItem(item: Schema, count: nat, buf: seq<Byte>)
    ensures count > 0 ==>
              ParseAll(item, count, buf) ==
              match Parse(item, Default(item), buf)
              case Overread => Overread
              case Endless => Endless
              case Thrown(left) => Thrown([left] + Defaults(item, count - 1))
              case Refused(left) => Refused([left] + Defaults(item, count - 1))
              case Done(v, used) =>
                match ParseAll(item, count - 1, buf[used..])
                case Overread => Overread
                case Endless => Endless
                case Thrown(left) => Thrown([v] + left)
                case Refused(left) => Refused([v] + left)
                case Done(vs, more) => Done([v] + vs, used + more)
  {
    hide Parse, Default;
  }

  lemma OneInFront<T>(x: T, s: seq<T>, k: nat)
    requires k < |s|
    ensures var t := [x] + s;
            t[..k + 1] == [x] + s[..k] && t[k + 1] == s[k] && t[k + 2..] == s[k + 1..]
    ensures forall j :: k + 1 < j < |s| + 1 ==> ([x] + s)[j] == s[j - 1]
  {
  }

  ghost predicate FieldThrows(fs: seq<Schema>, held: seq<Value>, buf: seq<Byte>, left: seq<Value>, i: nat, at: nat) {
    && i < |fs| == |held| == |left| && at <= |buf| && ParseEach(fs[..i], held[..i], buf) == Done(left[..i], at)
    && Throws(Parse(fs[i], held[i], buf[at..])) && Parse(fs[i], held[i], buf[at..]).left == left[i]
    && left[i + 1..] == held[i + 1..]
  }

  /** The fields before the one that throws are restored, that one is left as it is, and the others as they were. */
  lemma {:induction false} FieldsLeft(fs: seq<Schema>, held: seq<Value>, buf: seq<Byte>) returns (i: nat, at: nat)
    requires |held| == |fs| && Throws(ParseEach(fs, held, buf))
    ensures FieldThrows(fs, held, buf, ParseEach(fs, held, buf).left, i, at)
    decreases |fs|
  {
    hide Parse, FieldThrows;
    var o := Parse(fs[0], held[0], buf);
    if o.Done? {
      var k, more := FieldsLeft(fs[1..], held[1..], buf[o.used..]);
      i, at := k + 1, o.used + more;
      LaterFieldThrows(fs, held, buf, k, more);
    } else {
      i, at := 0, 0;
      FirstFieldThrows(fs, held, buf);
    }
  }

  lemma FirstFieldThrows(fs: seq<Schema>, held: seq<Value>, buf: seq<Byte>)
    requires |held| == |fs| && Throws(ParseEach(fs, held, buf)) && !Parse(fs[0], held[0], buf).Done?
    ensures FieldThrows(fs, held, buf, ParseEach(fs, held, buf).left, 0, 0)
  {
    hide Parse;
    assert buf[0..] == buf && ParseEach(fs, held, buf).left[..0] == [];
  }

  lemma LaterFieldThrows(fs: seq<Schema>, held: seq<Value>, buf: seq<Byte>, k: nat, more: nat)
    requires |held| == |fs| > 0 && Parse(fs[0], held[0], buf).Done?
    requires var rest := buf[Parse(fs[0], held[0], buf).used..];
             && Throws(ParseEach(fs[1..], held[1..], rest))
             && FieldThrows(fs[1..], held[1..], rest, ParseEach(fs[1..], held[1..], rest).left, k, more)
    ensures Throws(ParseEach(fs, held, buf))
    ensures FieldThrows(fs, held, buf, ParseEach(fs, held, buf).left, k + 1,
                        Parse(fs[0], held[0], buf).used + more)
  {
    hide Parse, FieldThrows;
    var o := Parse(fs[0], held[0], buf);
    var left := ParseEach(fs[1..], held[1..], buf[o.used..]).left;
    assert ParseEach(fs, held, buf).left == [o.value] + left;
    FieldInFront(fs, held, buf, left, k, more);
  }

  lemma FieldInFront(fs: seq<Schema>, held: seq<Value>, buf: seq<Byte>, left: seq<Value>, k: nat, more: nat)
    requires |held| == |fs| > 0 && Parse(fs[0], held[0], buf).Done?
    requires FieldThrows(fs[1..], held[1..], buf[Parse(fs[0], held[0], buf).used..], left, k, more)
    ensures var o := Parse(fs[0], held[0], buf);
            FieldThrows(fs, held, buf, [o.value] + left, k + 1, o.used + more)
  {
    hide Parse, ParseEach;
    var o := Parse(fs[0], held[0], buf);
    OneInFront(o.value, left, k);
    assert buf[o.used..][more..] == buf[o.used + more..];
    assert fs[1..][k] == fs[k + 1] && held[1..][k] == held[k + 1] && held[1..][k + 1..] == held[k + 2..];
    FieldsInFront(fs, held, buf, k + 1);
  }

  lemma FieldsInFront(fs: seq<Schema>, held: seq<Value>, buf: seq<Byte>, i: nat)
    requires |held| == |fs| && 0 < i <= |fs| && Parse(fs[0], held[0], buf).Done?
    ensures var o := Parse(fs[0], held[0], buf);
            ParseEach(fs[..i], held[..i], buf) ==
            match ParseEach(fs[1..][..i - 1], held[1..][..i - 1], buf[o.used..])
            case Done(vs, more) => Done([o.value] + vs, o.used + more)
            case Thrown(left) => Thrown([o.value] + left)
            case Refused(left) => Refused([o.value] + left)
            case Overread => Overread
            case Endless => Endless
  {
    hide Parse;
    assert fs[..i][1..] == fs[1..][..i - 1] && held[..i][1..] == held[1..][..i - 1];
    assert fs[..i][0] == fs[0] && held[..i][0] == held[0];
  }

  // ---- parsing undoes serializing ----

  /**
   * Serialized bytes, whatever follows them, restore the value, whatever the object held, and use
   * exactly their length.
   */
  lemma {:induction false} RoundTrip(sch: Schema, v: Value, held: Value, rest: seq<Byte>)
    requires Fits(sch, v) && |Serialize(sch, v)| + |rest| < WRAP
    ensures Parse(sch, held, Serialize(sch, v) + rest) == Done(v, |Serialize(sch, v)|)
    decreases v, 1
  {
    hide ParseVariable, ParseAll, ParseEach, AllFit, EachFits, NumberBytes, NumberFrom, SerializeAll, SerializeEach;
    match sch
    case Number(w) => HeaderRoundTrip(v.n, w, rest);
    case VariableString(w) => StringRoundTrip(v.s, w, held, rest);
    case FixedString(k) => assert (v.s + rest)[..k] == v.s;
    case List(item, w) =>
      var body := SerializeAll(item, v.items);
      DropFirst(NumberBytes(|v.items|, w), body, rest);
      HeaderRoundTrip(|v.items|, w, body + rest);
      AllRoundTrip(item, v.items, rest);
    case Packet(fs) => EachRoundTrip(fs, v.fields, if held.Fields? then held.fields else [], rest);
  }

  lemma HeaderRoundTrip(n: nat, w: Width, rest: seq<Byte>)
    requires n < w.Range()
    ensures var buf := NumberBytes(n, w) + rest;
            NumberFrom(buf[..w.Size()], w) == n && buf[w.Size()..] == rest
  {
    assert (NumberBytes(n, w) + rest)[..w.Size()] == NumberBytes(n, w);
    NumberRoundTrip(n, w);
  }

  lemma NoWrap(w: Width, length: nat)
    requires w.Size() + length < WRAP
    ensures EndOffset(w.Size(), length, w) == w.Size() + length
  {
  }

  lemma StringRoundTrip(s: seq<Byte>, w: Width, held: Value, rest: seq<Byte>)
    requires |s| < w.Range() && w.Size() + |s| + |rest| < WRAP
    ensures ParseVariable(w, held, NumberBytes(|s|, w) + s + rest) == Done(Str(s), w.Size() + |s|)
  {
    hide NumberBytes, NumberFrom, EndOffset;
    NoWrap(w, |s|);
    var buf := NumberBytes(|s|, w) + s + rest;
    assert buf == NumberBytes(|s|, w) + (s + rest);
    HeaderRoundTrip(|s|, w, s + rest);
    assert buf[w.Size()..w.Size() + |s|] == s;
  }

  lemma DropFirst<T>(a: seq<T>, b: seq<T>, rest: seq<T>)
    ensures a + b + rest == a + (b + rest) && (a + (b + rest))[|a|..] == b + rest
  {
  }

  lemma HeadThenRest<T>(s: seq<T>)
    requires s != []
    ensures [s[0]] + s[1..] == s
  {
  }

  lemma {:induction false} AllRoundTrip(item: Schema, vs: seq<Value>, rest: seq<Byte>)
    requires AllFit(item, vs) && |SerializeAll(item, vs)| + |rest| < WRAP
    ensures ParseAll(item, |vs|, SerializeAll(item, vs) + rest) == Done(vs, |SerializeAll(item, vs)|)
    decreases vs, 0
  {
    hide Parse, Serialize, Fits, Default, Defaults;
    if vs != [] {
      var a, b := Serialize(item, vs[0]), SerializeAll(item, vs[1..]);
      RoundTrip(item, vs[0], Default(item), b + rest);
      DropFirst(a, b, rest);
      AllRoundTrip(item, vs[1..], rest);
      HeadThenRest(vs);
    }
  }

  lemma {:induction false} EachRoundTrip(fs: seq<Schema>, vs: seq<Value>, held: seq<Value>, rest: seq<Byte>)
    requires EachFits(fs, vs) && |SerializeEach(fs, vs)| + |rest| < WRAP
    ensures ParseEach(fs, held, SerializeEach(fs, vs) + rest) == Done(vs, |SerializeEach(fs, vs)|)
    decreases vs, 0
  {
    hide Parse, Serialize, Fits, Default;
    if vs != [] {
      var a, b := Serialize(fs[0], vs[0]), SerializeEach(fs[1..], vs[1..]);
      RoundTrip(fs[0], vs[0], if held == [] then Default(fs[0]) else held[0], b + rest);
      DropFirst(a, b, rest);
      EachRoundTrip(fs[1..], vs[1..], if held == [] then [] else held[1..], rest);
      HeadThenRest(vs);
    }
  }

  /** Cut short anywhere, serialized bytes make the parser throw. */
  lemma {:induction false} PrefixThrows(sch: Schema, v: Value, held: Value, k: nat)
    requires Fits(sch, v) && k < |Serialize(sch, v)| < WRAP
    ensures Parse(sch, held, Serialize(sch, v)[..k]).Thrown?
    decreases v, 1
  {
    hide ParseVariable, ParseAll, ParseEach, AllFit, EachFits, NumberBytes, NumberFrom, SerializeAll, SerializeEach;
    match sch
    case Number(w) =>
    case FixedString(_) =>
    case VariableString(w) => StringPrefixThrows(v.s, w, held, k);
    case List(item, w) =>
      if k >= w.Size() {
        AllPrefixThrows(item, v.items, k - w.Size());
        HeaderThenCut(|v.items|, w, SerializeAll(item, v.items), k);
      }
    case Packet(fs) => EachPrefixThrows(fs, v.fields, if held.Fields? then held.fields else [], k);
  }

  lemma HeaderThenCut(n: nat, w: Width, body: seq<Byte>, k: nat)
    requires n < w.Range() && w.Size() <= k < w.Size() + |body|
    ensures var cut := (NumberBytes(n, w) + body)[..k];
            NumberFrom(cut[..w.Size()], w) == n && cut[w.Size()..] == body[..k - w.Size()]
  {
    assert (NumberBytes(n, w) + body)[..k] == NumberBytes(n, w) + body[..k - w.Size()];
    HeaderRoundTrip(n, w, body[..k - w.Size()]);
  }

  lemma StringPrefixThrows(s: seq<Byte>, w: Width, held: Value, k: nat)
    requires |s| < w.Range() && k < w.Size() + |s| < WRAP
    ensures ParseVariable(w, held, (NumberBytes(|s|, w) + s)[..k]).Thrown?
  {
    hide NumberBytes, NumberFrom, EndOffset;
    NoWrap(w, |s|);
    if k >= w.Size() {
      HeaderThenCut(|s|, w, s, k);
    }
  }

  lemma {:induction false} AllPrefixThrows(item: Schema, vs: seq<Value>, k: nat)
    requires AllFit(item, vs) && k < |SerializeAll(item, vs)| < WRAP
    ensures ParseAll(item, |vs|, SerializeAll(item, vs)[..k]).Thrown?
    decreases vs, 0
  {
    hide Parse, Serialize, Fits;
    var a, b := Serialize(item, vs[0]), SerializeAll(item, vs[1..]);
    if k < |a| {
      assert (a + b)[..k] == a[..k];
      PrefixThrows(item, vs[0], Default(item), k);
    } else {
      assert (a + b)[..k] == a + b[..k - |a|] && (a + b[..k - |a|])[|a|..] == b[..k - |a|];
      RoundTrip(item, vs[0], Default(item), b[..k - |a|]);
      AllPrefixThrows(item, vs[1..], k - |a|);
    }
  }

  lemma {:induction false} EachPrefixThrows(fs: seq<Schema>, vs: seq<Value>, held: seq<Value>, k: nat)
    requires EachFits(fs, vs) && k < |SerializeEach(fs, vs)| < WRAP
    ensures ParseEach(fs, held, SerializeEach(fs, vs)[..k]).Thrown?
    decreases vs, 0
  {
    var first, others := if held == [] then Default(fs[0]) else held[0], if held == [] then [] else held[1..];
    var a, b := Serialize(fs[0], vs[0]), SerializeEach(fs[1..], vs[1..]);
    if k < |a| {
      assert (a + b)[..k] == a[..k];
      PrefixThrows(fs[0], vs[0], first, k);
    } else {
      assert (a + b)[..k] == a + b[..k - |a|] && (a + b[..k - |a|])[|a|..] == b[..k - |a|];
      RoundTrip(fs[0], vs[0], first, b[..k - |a|]);
      EachPrefixThrows(fs[1..], vs[1..], others, k - |a|);
    }
  }

  lemma TakeRest<T>(a: seq<T>, b: seq<T>)
    requires a <= b
    ensures b == a + b[|a|..] && b + [] == b && |a| + |b[|a|..]| == |b|
  {
  }

  /** No value's bytes begin another value's, so a stream of them splits in one way only. */
  lemma PrefixFree(sch: Schema, v: Value, w: Value)
    requires Fits(sch, v) && Fits(sch, w) && |Serialize(sch, v)| < WRAP && |Serialize(sch, w)| < WRAP
    requires Serialize(sch, v) <= Serialize(sch, w)
    ensures v == w
  {
    hide *;
    var a, b := Serialize(sch, v), Serialize(sch, w);
    TakeRest(a, b);
    RoundTrip(sch, v, Num(0), b[|a|..]);
    RoundTrip(sch, w, Num(0), []);
  }

  lemma {:induction false} FromBigEndianBound(b: seq<Byte>)
    ensures FromBigEndian(b) < Pow256(|b|)
    decreases |b|
  {
    if b != [] {
      FromBigEndianBound(b[..|b| - 1]);
    }
  }

  lemma NumberFromBound(b: seq<Byte>, w: Width)
    requires |b| == w.Size()
    ensures NumberFrom(b, w) < w.Range()
  {
    assert Pow256(1) == 0x100 && Pow256(2) == 0x1_0000 && Pow256(3) == 0x100_0000 && Pow256(4) == WRAP;
    FromBigEndianBound(b);
    if w.U64? {
      FromBigEndianBound(b[..4]);
      FromBigEndianBound(b[4..]);
    }
  }

  /**
   * The bound check of a string parse is computed in the length's own arithmetic. With a
   * four-byte length it lets a copy run past the buffer for exactly the lengths that make
   * that sum wrap around; one- and two-byte lengths never do.
   */
  lemma OverreadIffWrap(w: Width, held: Value, buf: seq<Byte>)
    requires |buf| < WRAP
    ensures ParseVariable(w, held, buf).Overread? <==>
            w == U32 && |buf| >= w.Size() && w.Size() + NumberFrom(buf[..w.Size()], w) >= WRAP
  {
    NumberFromSmall(w, buf);
  }

  /** With an eight-byte length, the lengths that pass the check by wrapping around are larger than any string. */
  lemma RefusedIffWrap(w: Width, held: Value, buf: seq<Byte>)
    requires |buf| < WRAP
    ensures ParseVariable(w, held, buf).Refused? <==>
            w == U64 && |buf| >= w.Size() && w.Size() + NumberFrom(buf[..w.Size()], w) >= w.Range()
  {
    NumberFromSmall(w, buf);
  }

  /** A length that fills the type with the length's own size is taken for none. */
  lemma OverreadHappens(held: Value, rest: seq<Byte>)
    requires 4 + |rest| < WRAP
    ensures Parse(VariableString(U32), held, NumberBytes(WRAP - 4, U32) + rest).Overread?
  {
    HeaderRoundTrip(WRAP - 4, U32, rest);
    OverreadIffWrap(U32, held, NumberBytes(WRAP - 4, U32) + rest);
  }

  lemma RefusalHappens(held: Value, rest: seq<Byte>)
    requires 8 + |rest| < WRAP
    ensures Parse(VariableString(U64), held, NumberBytes(U64.Range() - 8, U64) + rest) == Refused(held)
  {
    HeaderRoundTrip(U64.Range() - 8, U64, rest);
    RefusedIffWrap(U64, held, NumberBytes(U64.Range() - 8, U64) + rest);
  }

  lemma NumberFromSmall(w: Width, buf: seq<Byte>)
    ensures |buf| >= w.Size() ==> NumberFrom(buf[..w.Size()], w) < w.Range()
  {
    if |buf| >= w.Size() {
      NumberFromBound(buf[..w.Size()], w);
    }
  }

  // ---- the least that a parse uses ----

  /** The bytes of the schema's shortest value. */
  function Shortest(sch: Schema): nat
    decreases sch, 0
  {
    match sch
    case Number(w) => w.Size()
    case VariableString(w) => w.Size()
    case FixedString(k) => k
    case List(_, w) => w.Size()
    case Packet(fs) => ShortestEach(fs)
  }

  function ShortestEach(fs: seq<Schema>): nat
    decreases fs, 0
  {
    if fs == [] then 0 else Shortest(fs[0]) + ShortestEach(fs[1..])
  }

  /** A parse that succeeds uses no less; where that is nothing, every parse succeeds. */
  lemma {:induction false} UsesAtLeast(sch: Schema, held: Value, buf: seq<Byte>)
    ensures var o := Parse(sch, held, buf);
            (o.Done? ==> o.used >= Shortest(sch)) && (Shortest(sch) == 0 ==> o.Done? && o.used == 0)
    decreases sch, 0
  {
    hide ParseAll, ParseEach, NumberFrom, ShortestEach;
    if sch.Packet? {
      FieldsUseAtLeast(sch.fields, if held.Fields? then held.fields else [], buf);
    }
  }

  lemma {:induction false} FieldsUseAtLeast(fs: seq<Schema>, held: seq<Value>, buf: seq<Byte>)
    ensures var o := ParseEach(fs, held, buf);
            (o.Done? ==> o.used >= ShortestEach(fs)) && (ShortestEach(fs) == 0 ==> o.Done? && o.used == 0)
    decreases fs, 0
  {
    hide Parse, Shortest;
    if fs != [] {
      var first, others := if held == [] then Default(fs[0]) else held[0], if held == [] then [] else held[1..];
      UsesAtLeast(fs[0], first, buf);
      var o := Parse(fs[0], first, buf);
      if o.Done? {
        FieldsUseAtLeast(fs[1..], others, buf[o.used..]);
      }
    }
  }

  lemma {:induction false} ItemsUseAtLeast(item: Schema, count: nat, buf: seq<Byte>)
    ensures var o := ParseAll(item, count, buf);
            if Shortest(item) == 0 then o.Done? && o.used == 0 else o.Done? ==> o.used >= count
    decreases count
  {
    hide Parse, Shortest;
    if count > 0 {
      UsesAtLeast(item, Default(item), buf);
      var o := Parse(item, Default(item), buf);
      if o.Done? {
        ItemsUseAtLeast(item, count - 1, buf[o.used..]);
      }
    }
  }

  function Zeros(n: nat): (r: seq<Byte>)
    ensures |r| == n
  {
    seq(n, _ => NUL)
  }

  /** A default-constructed object is its schema's shortest value: nothing but zero bytes. */
  lemma {:induction false} DefaultIsZeros(sch: Schema)
    ensures Fits(sch, Default(sch)) && Serialize(sch, Default(sch)) == Zeros(Shortest(sch))
    decreases sch, 0
  {
    match sch
    case Packet(fs) =>
      DefaultsAreZeros(fs);
      assert Default(sch).fields == FieldDefaults(fs);
    case FixedString(_) =>
    case _ => ZeroNumber(sch.width);
  }

  function FieldDefaults(fs: seq<Schema>): seq<Value> {
    seq(|fs|, i requires 0 <= i < |fs| => Default(fs[i]))
  }

  lemma {:induction false} DefaultsAreZeros(fs: seq<Schema>)
    ensures EachFits(fs, FieldDefaults(fs))
    ensures SerializeEach(fs, FieldDefaults(fs)) == Zeros(ShortestEach(fs))
    decreases fs, 0
  {
    hide Default, Serialize, Shortest, Fits;
    if fs != [] {
      DefaultIsZeros(fs[0]);
      DefaultsAreZeros(fs[1..]);
      assert FieldDefaults(fs)[1..] == FieldDefaults(fs[1..]);
    }
  }

  lemma ZeroNumber(w: Width)
    ensures NumberBytes(0, w) == Zeros(w.Size())
  {
    forall i | 0 <= i < w.Size() ensures NumberBytes(0, w)[i] == 0 {
      NumberPlaces(0, w, i);
      Quotient(0, Pow256(w.Size() - 1 - i), 0, 0);
    }
  }

  lemma {:induction false} ZerosAreZero(n: nat)
    ensures FromBigEndian(Zeros(n)) == 0
  {
    if n > 0 {
      assert Zeros(n)[..n - 1] == Zeros(n - 1);
      ZerosAreZero(n - 1);
    }
  }

  lemma ZeroHeader(w: Width, n: nat, rest: seq<Byte>)
    requires n >= w.Size()
    ensures NumberFrom((Zeros(n) + rest)[..w.Size()], w) == 0
  {
    var b := (Zeros(n) + rest)[..w.Size()];
    assert b == Zeros(w.Size());
    ZerosAreZero(w.Size());
    assert w.U64? ==> b[..4] == Zeros(4) && b[4..] == Zeros(4);
    ZerosAreZero(4);
  }

  lemma NoItems(item: Schema, at: nat, buf: seq<Byte>)
    requires at <= |buf|
    ensures ParseList(item, 0, at, buf) == Done(Items([]), at)
  {
    assert ParseAll(item, 0, buf[at..]) == Done([], 0);
  }

  /** So many zeros are a value, whatever follows them. */
  lemma {:induction false} ZerosParse(sch: Schema, held: Value, rest: seq<Byte>)
    ensures var o := Parse(sch, held, Zeros(Shortest(sch)) + rest);
            o.Done? && o.used == Shortest(sch)
    decreases sch, 0
  {
    hide ParseEach, ParseList, NumberFrom, ShortestEach;
    match sch
    case Number(_) =>
    case FixedString(_) =>
    case VariableString(w) => ZeroHeader(w, w.Size(), rest);
    case List(item, w) =>
      ZeroHeader(w, w.Size(), rest);
      NoItems(item, w.Size(), Zeros(w.Size()) + rest);
    case Packet(fs) => ZerosParseEach(fs, if held.Fields? then held.fields else [], rest);
  }

  lemma {:induction false} ZerosParseEach(fs: seq<Schema>, held: seq<Value>, rest: seq<Byte>)
    ensures var o := ParseEach(fs, held, Zeros(ShortestEach(fs)) + rest);
            o.Done? && o.used == ShortestEach(fs)
    decreases fs, 0
  {
    hide Parse, Shortest;
    if fs != [] {
      var first, others := if held == [] then Default(fs[0]) else held[0], if held == [] then [] else held[1..];
      var a, b := Zeros(Shortest(fs[0])), Zeros(ShortestEach(fs[1..]));
      assert Zeros(ShortestEach(fs)) == a + b;
      DropFirst(a, b, rest);
      ZerosParse(fs[0], first, b + rest);
      ZerosParseEach(fs[1..], others, rest);
    }
  }

  /**
   * A list never ends iff its size is beyond the 32-bit index and its items take no bytes,
   * or an item's own list never ends. Items that take bytes run out of them instead.
   */
  lemma EndlessIff(item: Schema, count: nat, at: nat, buf: seq<Byte>)
    requires at <= |buf| < WRAP
    ensures ParseList(item, count, at, buf).Endless? <==>
            count < 0x8000_0000_0000_0000 &&
            ((count >= WRAP && Shortest(item) == 0) || ParseAll(item, Turns(count), buf[at..]).Endless?)
  {
    hide ParseAll, Shortest;
    ItemsUseAtLeast(item, Turns(count), buf[at..]);
  }

  /** Eight bytes for a size of 2^32 are enough, when the items take none. */
  lemma EndlessHappens(item: Schema, held: Value, rest: seq<Byte>)
    requires Shortest(item) == 0 && 8 + |rest| < WRAP
    ensures Parse(List(item, U64), held, NumberBytes(WRAP, U64) + rest).Endless?
  {
    hide ParseList;
    HeaderRoundTrip(WRAP, U64, rest);
    EndlessIff(item, WRAP, 8, NumberBytes(WRAP, U64) + rest);
  }

  // ---- exactly which schemas come to grief ----

  /** How a parse may end other than with a value or the library's own exception. */
  datatype Mishap = CopyBeyond | NoEnd | Refusal

  predicate Is<V>(o: Outcome<V>, kind: Mishap) {
    match kind
    case CopyBeyond => o.Overread?
    case NoEnd => o.Endless?
    case Refusal => o.Refused?
  }

  /**
   * A parse can get, within `n` bytes, to where the mishap lies in wait: behind the
   * four-byte length of a string for a copy from beyond the buffer, the eight-byte one of a
   * string or list for a refusal, or the eight-byte size of a list whose items take no bytes
   * for one that never ends.
   */
  predicate May(kind: Mishap, sch: Schema, n: int)
    decreases sch, 0
  {
    match sch
    case Number(_) => false
    case VariableString(w) =>
      n >= w.Size() && ((kind == CopyBeyond && w == U32) || (kind == Refusal && w == U64))
    case FixedString(_) => false
    case List(item, w) =>
      n >= w.Size() &&
      ((w == U64 && (kind == Refusal || (kind == NoEnd && Shortest(item) == 0))) || May(kind, item, n - w.Size()))
    case Packet(fs) => SomeMay(kind, fs, n)
  }

  predicate SomeMay(kind: Mishap, fs: seq<Schema>, n: int)
    decreases fs, 0
  {
    fs != [] && (May(kind, fs[0], n) || SomeMay(kind, fs[1..], n - Shortest(fs[0])))
  }

  lemma {:induction false} MayWithMore(kind: Mishap, sch: Schema, n: int, m: int)
    requires n <= m && May(kind, sch, n)
    ensures May(kind, sch, m)
    decreases sch, 0
  {
    if sch.List? && !(sch.width == U64 && (kind == Refusal || (kind == NoEnd && Shortest(sch.item) == 0))) {
      MayWithMore(kind, sch.item, n - sch.width.Size(), m - sch.width.Size());
    } else if sch.Packet? {
      SomeMayWithMore(kind, sch.fields, n, m);
    }
  }

  lemma {:induction false} SomeMayWithMore(kind: Mishap, fs: seq<Schema>, n: int, m: int)
    requires n <= m && SomeMay(kind, fs, n)
    ensures SomeMay(kind, fs, m)
    decreases fs, 0
  {
    if May(kind, fs[0], n) {
      MayWithMore(kind, fs[0], n, m);
    } else {
      SomeMayWithMore(kind, fs[1..], n - Shortest(fs[0]), m - Shortest(fs[0]));
    }
  }

  /** A mishap befalls a parse only where it may. */
  lemma {:induction false} OnlyWhereItMay(kind: Mishap, sch: Schema, held: Value, buf: seq<Byte>)
    requires |buf| < WRAP && Is(Parse(sch, held, buf), kind)
    ensures May(kind, sch, |buf|)
    decreases sch, 0
  {
    hide ParseVariable, ParseAll, ParseEach, NumberFrom, SomeMay, Shortest;
    match sch
    case Number(_) =>
    case FixedString(_) =>
    case VariableString(w) =>
      OverreadIffWrap(w, held, buf);
      RefusedIffWrap(w, held, buf);
      VariableEnds(w, held, buf);
    case List(item, w) =>
      var count := NumberFrom(buf[..w.Size()], w);
      NumberFromSmall(w, buf);
      EndlessIff(item, count, w.Size(), buf);
      if Is(ParseAll(item, Turns(count), buf[w.Size()..]), kind) {
        ItemsOnlyWhereTheyMay(kind, item, Turns(count), buf[w.Size()..]);
      }
    case Packet(fs) => FieldsOnlyWhereTheyMay(kind, fs, if held.Fields? then held.fields else [], buf);
  }

  lemma VariableEnds(w: Width, held: Value, buf: seq<Byte>)
    ensures !ParseVariable(w, held, buf).Endless?
  {
  }

  lemma {:induction false} ItemsOnlyWhereTheyMay(kind: Mishap, item: Schema, count: nat, buf: seq<Byte>)
    requires |buf| < WRAP && Is(ParseAll(item, count, buf), kind)
    ensures May(kind, item, |buf|)
    decreases item, count + 1
  {
    hide Parse, May;
    if count > 0 {
      var o := Parse(item, Default(item), buf);
      if o.Done? {
        ItemsOnlyWhereTheyMay(kind, item, count - 1, buf[o.used..]);
        MayWithMore(kind, item, |buf| - o.used, |buf|);
      } else {
        OnlyWhereItMay(kind, item, Default(item), buf);
      }
    }
  }

  lemma {:induction false} FieldsOnlyWhereTheyMay(kind: Mishap, fs: seq<Schema>, held: seq<Value>, buf: seq<Byte>)
    requires |buf| < WRAP && Is(ParseEach(fs, held, buf), kind)
    ensures SomeMay(kind, fs, |buf|)
    decreases fs, 0
  {
    hide Parse, May, Shortest;
    if fs != [] {
      var first, others := if held == [] then Default(fs[0]) else held[0], if held == [] then [] else held[1..];
      var o := Parse(fs[0], first, buf);
      if o.Done? {
        UsesAtLeast(fs[0], first, buf);
        FieldsOnlyWhereTheyMay(kind, fs[1..], others, buf[o.used..]);
        SomeMayWithMore(kind, fs[1..], |buf| - o.used, |buf| - Shortest(fs[0]));
      } else {
        OnlyWhereItMay(kind, fs[0], first, buf);
      }
    }
  }

  /** Where it may, it does, on some buffer of any size that is large enough. */
  lemma {:induction false} BufferFor(kind: Mishap, sch: Schema, held: Value, n: nat) returns (buf: seq<Byte>)
    requires n < WRAP && May(kind, sch, n)
    ensures |buf| == n && Is(Parse(sch, held, buf), kind)
    decreases sch, 0
  {
    hide ParseVariable, ParseAll, ParseEach, NumberFrom, NumberBytes, SomeMay, Shortest;
    match sch
    case VariableString(w) =>
      if w == U32 {
        buf := NumberBytes(WRAP - 4, U32) + Zeros(n - 4);
        OverreadHappens(held, Zeros(n - 4));
      } else {
        buf := NumberBytes(U64.Range() - 8, U64) + Zeros(n - 8);
        RefusalHappens(held, Zeros(n - 8));
      }
    case List(item, w) =>
      if w == U64 && kind == Refusal {
        buf := NumberBytes(MAX_SIZE + 1, U64) + Zeros(n - 8);
        HeaderRoundTrip(MAX_SIZE + 1, U64, Zeros(n - 8));
      } else if w == U64 && kind == NoEnd && Shortest(item) == 0 {
        buf := NumberBytes(WRAP, U64) + Zeros(n - 8);
        EndlessHappens(item, held, Zeros(n - 8));
      } else {
        var one := BufferFor(kind, item, Default(item), n - w.Size());
        buf := NumberBytes(1, w) + one;
        HeaderRoundTrip(1, w, one);
        OneItemIs(kind, item, one);
      }
    case Packet(fs) => buf := BufferForFields(kind, fs, if held.Fields? then held.fields else [], n);
  }

  lemma OneItemIs(kind: Mishap, item: Schema, buf: seq<Byte>)
    requires Is(Parse(item, Default(item), buf), kind)
    ensures Is(ParseAll(item, 1, buf), kind)
  {
  }

  lemma {:induction false} BufferForFields(kind: Mishap, fs: seq<Schema>, held: seq<Value>, n: nat)
                                           returns (buf: seq<Byte>)
    requires n < WRAP && SomeMay(kind, fs, n)
    ensures |buf| == n && Is(ParseEach(fs, held, buf), kind)
    decreases fs, 0
  {
    hide Parse, May, Shortest;
    var first, others := if held == [] then Default(fs[0]) else held[0], if held == [] then [] else held[1..];
    if May(kind, fs[0], n) {
      buf := BufferFor(kind, fs[0], first, n);
    } else {
      var k := Shortest(fs[0]);
      SomeMayFits(kind, fs[1..], n - k);
      var rest := BufferForFields(kind, fs[1..], others, n - k);
      buf := Zeros(k) + rest;
      ZerosParse(fs[0], first, rest);
      assert buf[k..] == rest;
    }
  }

  lemma {:induction false} MayFits(kind: Mishap, sch: Schema, n: int)
    requires May(kind, sch, n)
    ensures n >= 0
    decreases sch, 0
  {
    if sch.Packet? {
      SomeMayFits(kind, sch.fields, n);
    }
  }

  lemma {:induction false} SomeMayFits(kind: Mishap, fs: seq<Schema>, n: int)
    requires SomeMay(kind, fs, n)
    ensures n >= 0
    decreases fs, 0
  {
    if May(kind, fs[0], n) {
      MayFits(kind, fs[0], n);
    } else {
      SomeMayFits(kind, fs[1..], n - Shortest(fs[0]));
    }
  }

  ghost predicate Befalls(kind: Mishap, sch: Schema, held: Value, buf: seq<Byte>) {
    Is(Parse(sch, held, buf), kind)
  }

  /** For every schema and size: some buffer of that size brings the mishap iff the schema lets it within that size. */
  lemma MishapIff(kind: Mishap, sch: Schema, held: Value, n: nat)
    requires n < WRAP
    ensures (exists buf: seq<Byte> :: |buf| == n && Befalls(kind, sch, held, buf)) <==> May(kind, sch, n)
  {
    hide Parse, May;
    if buf: seq<Byte> :| |buf| == n && Befalls(kind, sch, held, buf) {
      OnlyWhereItMay(kind, sch, held, buf);
    }
    if May(kind, sch, n) {
      var buf := BufferFor(kind, sch, held, n);
      assert Befalls(kind, sch, held, buf);
    }
  }

  // ---- what is parsed is what was serialized ----

  lemma {:induction false} BigEndianBack(b: seq<Byte>)
    ensures BigEndian(FromBigEndian(b), |b|) == b
    decreases |b|
  {
    if b != [] {
      var init, last := b[..|b| - 1], b[|b| - 1];
      BigEndianBack(init);
      assert b == init + [last];
    }
  }

  lemma HighAndLow(high: nat, low: nat)
    requires low < WRAP
    ensures (high * WRAP + low) / WRAP == high && (high * WRAP + low) % WRAP == low
  {
  }

  lemma LowHalf(b: seq<Byte>)
    requires |b| == 4
    ensures FromBigEndian(b) < WRAP
  {
    assert Pow256(1) == 0x100 && Pow256(2) == 0x1_0000 && Pow256(3) == 0x100_0000 && Pow256(4) == WRAP;
    FromBigEndianBound(b);
  }

  lemma NumberBack(b: seq<Byte>, w: Width)
    requires |b| == w.Size()
    ensures NumberBytes(NumberFrom(b, w), w) == b && NumberFrom(b, w) < w.Range()
  {
    hide BigEndian, FromBigEndian;
    NumberFromBound(b, w);
    if w.U64? {
      BigEndianBack(b[..4]);
      BigEndianBack(b[4..]);
      LowHalf(b[4..]);
      HighAndLow(FromBigEndian(b[..4]), FromBigEndian(b[4..]));
      assert b == b[..4] + b[4..];
    } else {
      BigEndianBack(b);
    }
  }

  lemma HeaderBack(buf: seq<Byte>, w: Width, length: nat)
    requires w.Size() + length <= |buf|
    ensures var k := w.Size();
            && NumberFrom(buf[..k], w) < w.Range()
            && NumberBytes(NumberFrom(buf[..k], w), w) + buf[k..][..length] == buf[..k + length]
            && buf[k..k + length] == buf[k..][..length]
  {
    NumberBack(buf[..w.Size()], w);
  }

  /** Whatever the bytes: a value that is parsed fits the schema, and serializes to just the bytes that were used. */
  lemma {:induction false} ParsedIsSerialized(sch: Schema, held: Value, buf: seq<Byte>)
    requires Parse(sch, held, buf).Done?
    ensures var o := Parse(sch, held, buf);
            Fits(sch, o.value) && Serialize(sch, o.value) == buf[..o.used]
    decreases sch, 0
  {
    hide ParseAll, ParseEach, NumberFrom, NumberBytes, AllFit, EachFits, SerializeAll, SerializeEach;
    match sch
    case Number(w) => NumberBack(buf[..w.Size()], w);
    case FixedString(_) =>
    case VariableString(w) => HeaderBack(buf, w, NumberFrom(buf[..w.Size()], w));
    case List(item, w) =>
      var count := NumberFrom(buf[..w.Size()], w);
      ItemsAreSerialized(item, count, buf[w.Size()..]);
      HeaderBack(buf, w, ParseAll(item, count, buf[w.Size()..]).used);
    case Packet(fs) => FieldsAreSerialized(fs, if held.Fields? then held.fields else [], buf);
  }

  lemma TakeMore<T>(buf: seq<T>, i: nat, j: nat)
    requires i + j <= |buf|
    ensures buf[..i] + buf[i..][..j] == buf[..i + j]
  {
  }

  lemma {:induction false} ItemsAreSerialized(item: Schema, count: nat, buf: seq<Byte>)
    requires ParseAll(item, count, buf).Done?
    ensures var o := ParseAll(item, count, buf);
            |o.value| == count && AllFit(item, o.value) && SerializeAll(item, o.value) == buf[..o.used]
    decreases item, count + 1
  {
    hide Parse, Fits, Serialize;
    if count > 0 {
      ParsedIsSerialized(item, Default(item), buf);
      var o := Parse(item, Default(item), buf);
      ItemsAreSerialized(item, count - 1, buf[o.used..]);
      var p := ParseAll(item, count - 1, buf[o.used..]);
      assert ([o.value] + p.value)[1..] == p.value;
      TakeMore(buf, o.used, p.used);
    }
  }

  lemma {:induction false} FieldsAreSerialized(fs: seq<Schema>, held: seq<Value>, buf: seq<Byte>)
    requires ParseEach(fs, held, buf).Done?
    ensures var o := ParseEach(fs, held, buf);
            EachFits(fs, o.value) && SerializeEach(fs, o.value) == buf[..o.used]
    decreases fs, 0
  {
    hide Parse, Fits, Serialize;
    if fs != [] {
      var first, others := if held == [] then Default(fs[0]) else held[0], if held == [] then [] else held[1..];
      ParsedIsSerialized(fs[0], first, buf);
      var o := Parse(fs[0], first, buf);
      FieldsAreSerialized(fs[1..], others, buf[o.used..]);
      var p := ParseEach(fs[1..], others, buf[o.used..]);
      assert ([o.value] + p.value)[1..] == p.value;
      TakeMore(buf, o.used, p.used);
    }
  }

  // ---- lengths ----

  /** `STATIC_BINARY_LENGTH`: zero unless every part has a non-zero static length. */
  function StaticLength(sch: Schema): nat
    decreases sch, 0
  {
    match sch
    case Number(w) => w.Size()
    case VariableString(_) => 0
    case FixedString(k) => k
    case List(_, _) => 0
    case Packet(fs) => if AllStatic(fs) then StaticSum(fs) else 0
  }

  predicate AllStatic(fs: seq<Schema>)
    decreases fs, 0
  {
    fs == [] || (StaticLength(fs[0]) != 0 && AllStatic(fs[1..]))
  }

  function StaticSum(fs: seq<Schema>): nat
    decreases fs, 0
  {
    if fs == [] then 0 else StaticLength(fs[0]) + StaticSum(fs[1..])
  }

  /** A non-zero static length is the length of every value's bytes. */
  lemma {:induction false} StaticLengthIsExact(sch: Schema, v: Value)
    requires Fits(sch, v) && StaticLength(sch) != 0
    ensures |Serialize(sch, v)| == StaticLength(sch)
    decreases v, 1
  {
    if sch.Packet? {
      StaticSumIsExact(sch.fields, v.fields);
    }
  }

  lemma {:induction false} StaticSumIsExact(fs: seq<Schema>, vs: seq<Value>)
    requires EachFits(fs, vs) && AllStatic(fs)
    ensures |SerializeEach(fs, vs)| == StaticSum(fs)
    decreases vs, 0
  {
    if vs != [] {
      StaticLengthIsExact(fs[0], vs[0]);
      StaticSumIsExact(fs[1..], vs[1..]);
    }
  }

  lemma {:induction false} StaticItemsAreExact(item: Schema, vs: seq<Value>)
    requires AllFit(item, vs) && StaticLength(item) != 0
    ensures |SerializeAll(item, vs)| == StaticLength(item) * |vs|
    decreases vs
  {
    var each := StaticLength(item);
    if vs != [] {
      StaticLengthIsExact(item, vs[0]);
      StaticItemsAreExact(item, vs[1..]);
      var n := |vs| - 1;
      OneMore(each, n);
    }
  }

  lemma OneMore(k: nat, n: nat)
    ensures k + k * n == k * (n + 1)
  {
  }

  // ---- the library's methods ----

  lemma WrapSum(a: nat, b: nat)
    ensures (a % WRAP + b) % WRAP == (a + b) % WRAP
    ensures (a + b % WRAP) % WRAP == (a + b) % WRAP
  {
  }

  /** `get_binary_len`: the static length when there is one, else the sum over the parts, in 32 bits. */
  method GetBinaryLength(sch: Schema, v: Value) returns (n: nat)
    requires Fits(sch, v)
    ensures n == |Serialize(sch, v)| % WRAP
    decreases v, 1
  {
    match sch
    case Number(w) => n := w.Size();
    case VariableString(w) => n := (w.Size() + |v.s|) % WRAP;
    case FixedString(k) => n := k % WRAP;
    case List(item, w) =>
      var body := ListLength(item, v.items);
      WrapSum(w.Size(), |SerializeAll(item, v.items)|);
      n := (w.Size() + body) % WRAP;
    case Packet(fs) =>
      if StaticLength(sch) != 0 {
        StaticLengthIsExact(sch, v);
        n := StaticLength(sch) % WRAP;
      } else {
        n := PacketLength(fs, v.fields);
      }
  }

  method ListLength(item: Schema, vs: seq<Value>) returns (n: nat)
    requires AllFit(item, vs)
    ensures n == |SerializeAll(item, vs)| % WRAP
    decreases vs, 0
  {
    if StaticLength(item) != 0 {
      StaticItemsAreExact(item, vs);
      return StaticLength(item) * |vs| % WRAP;
    }
    n := 0;
    for i := 0 to |vs|
      invariant AllFit(item, vs[i..])
      invariant (n + |SerializeAll(item, vs[i..])|) % WRAP == |SerializeAll(item, vs)| % WRAP
    {
      var one := GetBinaryLength(item, vs[i]);
      var a, b := |Serialize(item, vs[i])|, |SerializeAll(item, vs[i + 1..])|;
      assert vs[i..][1..] == vs[i + 1..];
      WrapSum(n + b, a);
      n := n + one;
    }
    n := n % WRAP;
  }

  method PacketLength(fs: seq<Schema>, vs: seq<Value>) returns (n: nat)
    requires EachFits(fs, vs)
    ensures n == |SerializeEach(fs, vs)| % WRAP
    decreases vs, 0
  {
    n := 0;
    for i := 0 to |fs|
      invariant i <= |vs| && EachFits(fs[i..], vs[i..]) && n < WRAP
      invariant (n + |SerializeEach(fs[i..], vs[i..])|) % WRAP == |SerializeEach(fs, vs)| % WRAP
    {
      var one := GetBinaryLength(fs[i], vs[i]);
      ghost var a, b := |Serialize(fs[i], vs[i])|, |SerializeEach(fs[i + 1..], vs[i + 1..])|;
      assert vs[i..][1..] == vs[i + 1..] && fs[i..][1..] == fs[i + 1..];
      WrapSum(n + b, a);
      WrapSum(n + one, b);
      n := (n + one) % WRAP;
    }
    assert fs[|fs|..] == [] && vs[|fs|..] == [];
  }
}
