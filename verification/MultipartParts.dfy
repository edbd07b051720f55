/**
 * What the C++ parser's callbacks accumulate, and the printed form of a list of parts with
 * the exact conditions under which parsing gives the list back.
 */
module MultipartParts {
  import opened Bytes
  import opened MultipartMachine
  import opened MultipartLaws

  type Text = seq<Byte>

  datatype Part = Part(headers: map<Text, Text>, body: Text)

  /** The members the callbacks write. */
  datatype Account = Account(begun: bool, ended: bool, name: Text, value: Text, parts: seq<Part>)

  const EMPTY := Account(false, false, [], [], [])

  /** `on_header_done`; it works on the last part. */
  function HeaderDone(a: Account): Account {
    if a.parts == [] then a.(name := [], value := [])
    else
      var last := |a.parts| - 1;
      var p := a.parts[last];
      a.(parts := a.parts[last := p.(headers := p.headers[a.name := a.value])], name := [], value := [])
  }

  /** A header is complete once it has a value. */
  function Flush(a: Account): Account {
    if a.value != [] then HeaderDone(a) else a
  }

  function AddData(a: Account, bytes: Text): Account {
    if a.parts == [] then a
    else
      var last := |a.parts| - 1;
      a.(parts := a.parts[last := a.parts[last].(body := a.parts[last].body + bytes)])
  }

  function Apply(a: Account, n: Note): Account {
    match n
    case BodyBegin => a.(begun := true)
    case PartBegin => a.(parts := a.parts + [Part(map[], [])])
    case FieldByte(b) => var f := Flush(a); f.(name := f.name + [b])
    case ValueByte(b) => a.(value := a.value + [b])
    case HeadersComplete => Flush(a)
    case DataByte(b) => AddData(a, [b])
    case PartEnd => a
    case BodyEnd => a.(ended := true)
  }

  function Fold(a: Account, notes: seq<Note>): Account
    decreases |notes|
  {
    if notes == [] then a else Fold(Apply(a, notes[0]), notes[1..])
  }

  lemma {:induction false} FoldConcat(a: Account, x: seq<Note>, y: seq<Note>)
    ensures Fold(a, x + y) == Fold(Fold(a, x), y)
    decreases |x|
  {
    if x == [] {
      assert x + y == y;
    } else {
      assert (x + y)[1..] == x[1..] + y;
      FoldConcat(Apply(a, x[0]), x[1..], y);
    }
  }

  // ---- slices ----

  /** `on_header_field` with a whole slice is its bytes one by one. */
  lemma {:induction false} FoldField(a: Account, bytes: Text)
    requires bytes != []
    ensures Fold(a, FieldNotes(bytes)) == Flush(a).(name := Flush(a).name + bytes)
    decreases |bytes|
  {
    var rest := bytes[1..];
    assert FieldNotes(bytes)[1..] == FieldNotes(rest);
    var b := Apply(a, FieldByte(bytes[0]));
    if rest == [] {
      assert Fold(b, FieldNotes(rest)) == b && bytes == [bytes[0]];
    } else {
      FoldField(b, rest);
      assert Flush(a).name + bytes == Flush(a).name + [bytes[0]] + rest;
    }
  }

  lemma {:induction false} FoldValue(a: Account, bytes: Text)
    ensures Fold(a, ValueNotes(bytes)) == a.(value := a.value + bytes)
    decreases |bytes|
  {
    if bytes == [] {
      assert a.value + bytes == a.value;
    } else {
      assert ValueNotes(bytes)[1..] == ValueNotes(bytes[1..]);
      FoldValue(Apply(a, ValueByte(bytes[0])), bytes[1..]);
      assert a.value + bytes == a.value + [bytes[0]] + bytes[1..];
    }
  }

  lemma {:induction false} FoldData(a: Account, bytes: Text)
    ensures Fold(a, DataNotes(bytes)) == AddData(a, bytes)
    decreases |bytes|
  {
    if bytes == [] {
      if a.parts != [] {
        var last := |a.parts| - 1;
        assert a.parts[last].body + bytes == a.parts[last].body;
        assert a.parts[last := a.parts[last]] == a.parts;
      }
    } else {
      assert DataNotes(bytes)[1..] == DataNotes(bytes[1..]);
      FoldData(Apply(a, DataByte(bytes[0])), bytes[1..]);
      if a.parts != [] {
        var last := |a.parts| - 1;
        assert a.parts[last].body + bytes == a.parts[last].body + [bytes[0]] + bytes[1..];
      }
    }
  }

  /** The account never stores an empty value. */
  ghost predicate NoEmptyValue(a: Account) {
    forall i, n :: 0 <= i < |a.parts| && n in a.parts[i].headers ==> a.parts[i].headers[n] != []
  }

  lemma {:induction false} FoldStoresNoEmptyValue(a: Account, notes: seq<Note>)
    requires NoEmptyValue(a)
    ensures NoEmptyValue(Fold(a, notes))
    decreases |notes|
  {
    if notes != [] {
      assert NoEmptyValue(Apply(a, notes[0]));
      FoldStoresNoEmptyValue(Apply(a, notes[0]), notes[1..]);
    }
  }

  // ---- calls ----

  /** All that a parser keeps between calls. */
  datatype Kept = Kept(m: Machine, a: Account)

  /** One call: what is kept then, and the count it returns. */
  ghost function Call(boundary: Text, k: Kept, data: Text): (Kept, nat)
    requires Bounded(boundary, k.m)
  {
    var f := Feed(boundary, k.m, data);
    (Kept(f.m, Fold(k.a, f.notes)), f.used)
  }

  /** Call after call until one returns less than its chunk's size: what is kept then, and the total count. */
  ghost function Calls(boundary: Text, k: Kept, chunks: seq<Text>): (Kept, nat)
    requires Bounded(boundary, k.m)
    decreases |chunks|
  {
    if chunks == [] then (k, 0)
    else
      var (k', n) := Call(boundary, k, chunks[0]);
      if n < |chunks[0]| then (k', n)
      else
        var (end, total) := Calls(boundary, k', chunks[1..]);
        (end, n + total)
  }

  function Join(chunks: seq<Text>): Text {
    if chunks == [] then [] else chunks[0] + Join(chunks[1..])
  }

  lemma CallInTwo(boundary: Text, k: Kept, a: Text, b: Text)
    requires Bounded(boundary, k.m)
    ensures var (k1, n1) := Call(boundary, k, a);
            Call(boundary, k, a + b) == if n1 < |a| then (k1, n1)
                                        else var (k2, n2) := Call(boundary, k1, b); (k2, n1 + n2)
  {
    hide Feed, Fold;
    FeedConcat(boundary, k.m, a, b);
    var f := Feed(boundary, k.m, a);
    if f.ok {
      FoldConcat(k.a, f.notes, Feed(boundary, f.m, b).notes);
    }
  }

  lemma CallStaysBounded(boundary: Text, k: Kept, data: Text)
    requires Bounded(boundary, k.m)
    ensures var (k', n) := Call(boundary, k, data);
            Bounded(boundary, k'.m) && n <= |data|
  {
  }

  lemma CallOnNothing(boundary: Text, k: Kept)
    requires Bounded(boundary, k.m)
    ensures Call(boundary, k, []) == (k, 0)
  {
  }

  /** However the input is cut into chunks, the parser ends in the same state after the same number of bytes. */
  lemma {:induction false} ChunksDoNotMatter(boundary: Text, k: Kept, chunks: seq<Text>)
    requires Bounded(boundary, k.m)
    ensures Calls(boundary, k, chunks) == Call(boundary, k, Join(chunks))
    decreases |chunks|
  {
    hide Call, Bounded;
    if chunks == [] {
      CallOnNothing(boundary, k);
    } else {
      CallStaysBounded(boundary, k, chunks[0]);
      CallInTwo(boundary, k, chunks[0], Join(chunks[1..]));
      ChunksDoNotMatter(boundary, Call(boundary, k, chunks[0]).0, chunks[1..]);
    }
  }
}
