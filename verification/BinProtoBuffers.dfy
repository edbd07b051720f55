/** The binary protocol's methods on buffers: they write and read exactly what the schema says. */
module BinProtoBuffers {
  import opened Bytes
  import opened BinProto

  /** `memcpy` into the buffer. */
  method Copy(buffer: array<Byte>, at: nat, bytes: seq<Byte>)
    requires at + |bytes| <= buffer.Length
    modifies buffer
    ensures buffer[..] == old(buffer[..at]) + bytes + old(buffer[at + |bytes|..])
  {
    for i := 0 to |bytes|
      invariant buffer[..at] == old(buffer[..at])
      invariant buffer[at..at + i] == bytes[..i]
      invariant buffer[at + i..] == old(buffer[at + i..])
    {
      buffer[at + i] := bytes[i];
    }
  }

  /** `buffer` holds `bytes` from `at` on and is `was` everywhere else. */
  ghost predicate Written(buffer: seq<Byte>, was: seq<Byte>, at: nat, bytes: seq<Byte>) {
    at + |bytes| <= |was| && buffer == was[..at] + bytes + was[at + |bytes|..]
  }

  lemma WrittenTwice(b0: seq<Byte>, b1: seq<Byte>, b2: seq<Byte>, at: nat, x: seq<Byte>, y: seq<Byte>)
    requires Written(b1, b0, at, x) && Written(b2, b1, at + |x|, y)
    ensures Written(b2, b0, at, x + y)
  {
    assert b1[..at + |x|] == b0[..at] + x;
    assert b1[at + |x| + |y|..] == b0[at + |x| + |y|..];
  }

  /** `serialize_to_buffer`, given the room its assertion asks for. */
  method SerializeToBuffer(sch: Schema, v: Value, buffer: array<Byte>, at: nat) returns (used: nat)
    requires Fits(sch, v) && at + |Serialize(sch, v)| <= buffer.Length
    modifies buffer
    ensures used == |Serialize(sch, v)|
    ensures Written(buffer[..], old(buffer[..]), at, Serialize(sch, v))
    decreases v, 1
  {
    hide AllFit, EachFits, SerializeAll, SerializeEach, NumberBytes;
    match sch
    case Number(w) =>
      Copy(buffer, at, NumberBytes(v.n, w));
      used := w.Size();
    case VariableString(w) =>
      Copy(buffer, at, NumberBytes(|v.s|, w));
      ghost var middle := buffer[..];
      Copy(buffer, at + w.Size(), v.s);
      WrittenTwice(old(buffer[..]), middle, buffer[..], at, NumberBytes(|v.s|, w), v.s);
      used := w.Size() + |v.s|;
    case FixedString(k) =>
      Copy(buffer, at, v.s);
      used := k;
    case List(item, w) =>
      Copy(buffer, at, NumberBytes(|v.items|, w));
      ghost var middle := buffer[..];
      var body := SerializeItems(item, v.items, buffer, at + w.Size());
      WrittenTwice(old(buffer[..]), middle, buffer[..], at, NumberBytes(|v.items|, w), SerializeAll(item, v.items));
      used := w.Size() + body;
    case Packet(fs) => used := SerializeFields(fs, v.fields, buffer, at);
  }

  method SerializeItems(item: Schema, vs: seq<Value>, buffer: array<Byte>, at: nat) returns (used: nat)
    requires AllFit(item, vs) && at + |SerializeAll(item, vs)| <= buffer.Length
    modifies buffer
    ensures used == |SerializeAll(item, vs)|
    ensures Written(buffer[..], old(buffer[..]), at, SerializeAll(item, vs))
    decreases vs, 0
  {
    hide Fits, Serialize, AllFit, SerializeAll, Written;
    ghost var done: seq<Byte> := [];
    NothingWritten(buffer[..], at);
    used := 0;
    assert vs[0..] == vs;
    for i := 0 to |vs|
      invariant AllFit(item, vs[i..]) && used == |done|
      invariant SerializeAll(item, vs) == done + SerializeAll(item, vs[i..])
      invariant Written(buffer[..], old(buffer[..]), at, done)
    {
      ghost var before := buffer[..];
      AllUnfolds(item, vs, i, done);
      var one := SerializeToBuffer(item, vs[i], buffer, at + used);
      WrittenTwice(old(buffer[..]), before, buffer[..], at, done, Serialize(item, vs[i]));
      done := done + Serialize(item, vs[i]);
      used := used + one;
    }
    NoItemsNoBytes(item, vs[|vs|..]);
    assert done + [] == done;
  }

  lemma NothingWritten(b: seq<Byte>, at: nat)
    requires at <= |b|
    ensures Written(b, b, at, [])
  {
  }

  lemma AllUnfolds(item: Schema, vs: seq<Value>, i: nat, done: seq<Byte>)
    requires i < |vs| && AllFit(item, vs[i..])
    ensures Fits(item, vs[i]) && AllFit(item, vs[i + 1..])
    ensures done + SerializeAll(item, vs[i..]) == done + Serialize(item, vs[i]) + SerializeAll(item, vs[i + 1..])
  {
    assert vs[i..][1..] == vs[i + 1..];
  }

  lemma NoItemsNoBytes(item: Schema, vs: seq<Value>)
    requires vs == []
    ensures AllFit(item, vs) && SerializeAll(item, vs) == []
  {
  }

  method SerializeFields(fs: seq<Schema>, vs: seq<Value>, buffer: array<Byte>, at: nat) returns (used: nat)
    requires EachFits(fs, vs) && at + |SerializeEach(fs, vs)| <= buffer.Length
    modifies buffer
    ensures used == |SerializeEach(fs, vs)|
    ensures Written(buffer[..], old(buffer[..]), at, SerializeEach(fs, vs))
    decreases vs, 0
  {
    hide Fits, Serialize, EachFits, SerializeEach, Written;
    ghost var done: seq<Byte> := [];
    NothingWritten(buffer[..], at);
    used := 0;
    assert vs[0..] == vs && fs[0..] == fs;
    for i := 0 to |fs|
      invariant i <= |vs| && EachFits(fs[i..], vs[i..]) && used == |done|
      invariant SerializeEach(fs, vs) == done + SerializeEach(fs[i..], vs[i..])
      invariant Written(buffer[..], old(buffer[..]), at, done)
    {
      ghost var before := buffer[..];
      EachUnfolds(fs, vs, i, done);
      var one := SerializeToBuffer(fs[i], vs[i], buffer, at + used);
      WrittenTwice(old(buffer[..]), before, buffer[..], at, done, Serialize(fs[i], vs[i]));
      done := done + Serialize(fs[i], vs[i]);
      used := used + one;
    }
    NoFieldsNoBytes(fs[|fs|..], vs[|fs|..]);
    assert done + [] == done;
  }

  lemma EachUnfolds(fs: seq<Schema>, vs: seq<Value>, i: nat, done: seq<Byte>)
    requires i < |fs| && i <= |vs| && EachFits(fs[i..], vs[i..])
    ensures i < |vs| && Fits(fs[i], vs[i]) && EachFits(fs[i + 1..], vs[i + 1..])
    ensures done + SerializeEach(fs[i..], vs[i..]) == done + Serialize(fs[i], vs[i]) +
            SerializeEach(fs[i + 1..], vs[i + 1..])
  {
    assert vs[i..] != [] ==> vs[i..][1..] == vs[i + 1..];
    assert fs[i..][1..] == fs[i + 1..];
  }

  lemma NoFieldsNoBytes(fs: seq<Schema>, vs: seq<Value>)
    requires fs == [] && EachFits(fs, vs)
    ensures SerializeEach(fs, vs) == []
  {
  }

  /** `parse_from_buffer` into an object that holds `held`. */
  method ParseFromBuffer(sch: Schema, held: Value, buf: seq<Byte>) returns (o: Outcome<Value>)
    ensures o == Parse(sch, held, buf)
    decreases sch, 0
  {
    hide ParseList, ParseEach;
    match sch
    case Number(w) =>
      if |buf| < w.Size() {
        return Thrown(held);
      }
      return Done(Num(NumberFrom(buf[..w.Size()], w)), w.Size());
    case VariableString(w) => return ParseVariable(w, held, buf);
    case FixedString(k) =>
      if |buf| < k {
        return Thrown(held);
      }
      return Done(Str(buf[..k]), k);
    case List(item, w) =>
      if |buf| < w.Size() {
        return Thrown(Items([]));
      }
      o := ParseItems(item, NumberFrom(buf[..w.Size()], w), w.Size(), buf);
    case Packet(fs) =>
      var each := ParseFields(fs, if held.Fields? then held.fields else [], buf);
      match each
      case Done(vs, used) => return Done(Fields(vs), used);
      case Thrown(left) => return Thrown(Fields(left));
      case Refused(left) => return Refused(Fields(left));
      case Overread => return Overread;
      case Endless => return Endless;
  }

  /** An outcome after `done` parts and `used` bytes. */
  ghost function After(done: seq<Value>, used: nat, o: Outcome<seq<Value>>): Outcome<seq<Value>> {
    match o
    case Done(vs, more) => Done(done + vs, used + more)
    case Thrown(left) => Thrown(done + left)
    case Refused(left) => Refused(done + left)
    case Overread => Overread
    case Endless => Endless
  }

  lemma AfterStep(done: seq<Value>, v: Value, used: nat, one: nat, o: Outcome<seq<Value>>)
    ensures After(done, used, After([v], one, o)) == After(done + [v], used + one, o)
  {
    match o
    case Done(vs, more) => assert done + ([v] + vs) == done + [v] + vs;
    case Thrown(left) => assert done + ([v] + left) == done + [v] + left;
    case Refused(left) => assert done + ([v] + left) == done + [v] + left;
    case Overread =>
    case Endless =>
  }

  /** One more item of a list, after `done` items and `used` bytes. */
  lemma OneMoreItem(item: Schema, count: nat, buf: seq<Byte>, done: seq<Value>, used: nat)
    requires count > 0
    ensures After(done, used, ParseAll(item, count, buf)) ==
            match Parse(item, Default(item), buf)
            case Overread => Overread
            case Endless => Endless
            case Thrown(left) => Thrown(done + ([left] + Defaults(item, count - 1)))
            case Refused(left) => Refused(done + ([left] + Defaults(item, count - 1)))
            case Done(v, n) => After(done + [v], used + n, ParseAll(item, count - 1, buf[n..]))
  {
    var o := Parse(item, Default(item), buf);
    if o.Done? {
      AfterStep(done, o.value, used, o.used, ParseAll(item, count - 1, buf[o.used..]));
    }
  }

  /** The list's own loop; the index is a `uint32_t`, so it stays below 2^32 whatever the count. */
  method ParseItems(item: Schema, count: nat, at: nat, buf: seq<Byte>) returns (o: Outcome<Value>)
    requires at <= |buf|
    ensures o == ParseList(item, count, at, buf)
    decreases item, 1
  {
    hide ParseAll, Parse, Default, Defaults, After;
    if count > MAX_SIZE {
      return Refused(Items([]));
    }
    ghost var turns := Turns(count);
    var items, used, i := [], at, 0;
    AfterNothing(ParseAll(item, turns, buf[at..]));
    while i < count && i < WRAP
      invariant i <= turns && at <= used <= |buf| && |items| == i
      invariant ParseAll(item, turns, buf[at..]) == After(items, used - at, ParseAll(item, turns - i, buf[used..]))
    {
      var one := ParseFromBuffer(item, Default(item), buf[used..]);
      OneMoreItem(item, turns - i, buf[used..], items, used - at);
      match one {
        case Overread => return Overread;
        case Endless => return Endless;
        case Thrown(left) =>
          DefaultsInTwo(items, left, item, turns - i - 1, count - turns);
          return Thrown(Items(items + [left] + Defaults(item, count - i - 1)));
        case Refused(left) =>
          DefaultsInTwo(items, left, item, turns - i - 1, count - turns);
          return Refused(Items(items + [left] + Defaults(item, count - i - 1)));
        case Done(v, n) =>
          assert buf[used..][n..] == buf[used + n..];
          items, used, i := items + [v], used + n, i + 1;
      }
    }
    AfterLast(item, items, used - at, buf[used..]);
    if count >= WRAP {
      return Endless;
    }
    return Done(Items(items), used);
  }

  lemma DefaultsInTwo(items: seq<Value>, left: Value, item: Schema, m: nat, n: nat)
    ensures items + ([left] + Defaults(item, m)) + Defaults(item, n) == items + [left] + Defaults(item, m + n)
  {
  }

  lemma AfterLast(item: Schema, items: seq<Value>, used: nat, buf: seq<Byte>)
    ensures After(items, used, ParseAll(item, 0, buf)) == Done(items, used)
  {
    assert items + [] == items;
  }

  lemma AfterNothing(o: Outcome<seq<Value>>)
    ensures After([], 0, o) == o
  {
    match o
    case Done(vs, _) => assert [] + vs == vs;
    case Thrown(left) => assert [] + left == left;
    case Refused(left) => assert [] + left == left;
    case Overread =>
    case Endless =>
  }

  lemma ParseEachUnfolds(fs: seq<Schema>, held: seq<Value>, buf: seq<Byte>)
    requires fs != []
    ensures var first, others := if held == [] then Default(fs[0]) else held[0], if held == [] then [] else held[1..];
            ParseEach(fs, held, buf) ==
            match Parse(fs[0], first, buf)
            case Overread => Overread
            case Endless => Endless
            case Thrown(left) => Thrown([left] + others)
            case Refused(left) => Refused([left] + others)
            case Done(v, used) => After([v], used, ParseEach(fs[1..], others, buf[used..]))
  {
  }

  /** A packet's fields, parsed one after the other. */
  method ParseFields(fs: seq<Schema>, held: seq<Value>, buf: seq<Byte>) returns (o: Outcome<seq<Value>>)
    ensures o == ParseEach(fs, held, buf)
    decreases fs, 1
  {
    hide ParseEach, Parse;
    var done, rest, used := [], held, 0;
    AfterNothing(ParseEach(fs, held, buf));
    assert fs[0..] == fs && buf[0..] == buf;
    for i := 0 to |fs|
      invariant used <= |buf|
      invariant ParseEach(fs, held, buf) == After(done, used, ParseEach(fs[i..], rest, buf[used..]))
    {
      var first := if rest == [] then Default(fs[i]) else rest[0];
      var others := if rest == [] then [] else rest[1..];
      var one := ParseFromBuffer(fs[i], first, buf[used..]);
      ParseEachUnfolds(fs[i..], rest, buf[used..]);
      match one {
        case Overread => return Overread;
        case Endless => return Endless;
        case Thrown(left) => return Thrown(done + ([left] + others));
        case Refused(left) => return Refused(done + ([left] + others));
        case Done(v, n) =>
          assert buf[used..][n..] == buf[used + n..] && fs[i..][1..] == fs[i + 1..];
          AfterStep(done, v, used, n, ParseEach(fs[i + 1..], others, buf[used + n..]));
          done, rest, used := done + [v], others, used + n;
      }
    }
    assert fs[|fs|..] == [];
    ParseNoFields(rest, buf[used..]);
    assert done + [] == done;
    return Done(done, used);
  }

  lemma ParseNoFields(held: seq<Value>, buf: seq<Byte>)
    ensures ParseEach([], held, buf) == Done([], 0)
  {
  }
}
