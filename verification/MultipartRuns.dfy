/** Stretches of input that a machine accepts whole. */
module MultipartRuns {
  import opened Bytes
  import opened MultipartMachine

  /** From `m`, all of `s` is accepted, telling `notes` and leaving `m'`. */
  ghost predicate Goes(boundary: seq<Byte>, m: Machine, s: seq<Byte>, m': Machine, notes: seq<Note>) {
    Bounded(boundary, m) && Feed(boundary, m, s) == Fed(m', notes, |s|, true)
  }

  lemma GoesOn(boundary: seq<Byte>, m: Machine, x: seq<Byte>, m1: Machine, n1: seq<Note>, y: seq<Byte>, m2: Machine,
               n2: seq<Note>)
    requires Goes(boundary, m, x, m1, n1) && Goes(boundary, m1, y, m2, n2)
    ensures Goes(boundary, m, x + y, m2, n1 + n2)
  {
    FeedConcat(boundary, m, x, y);
  }

  lemma ByteGoes(boundary: seq<Byte>, m: Machine, c: Byte)
    requires Bounded(boundary, m) && Step(boundary, m, c).verdict.Advance?
    ensures var t := Step(boundary, m, c);
            Goes(boundary, m, [c], t.m, t.notes)
  {
    var t := Step(boundary, m, c);
    assert [c][1..] == [] && t.notes + [] == t.notes;
  }

  /** Two bytes in a row. */
  lemma PairGoes(boundary: seq<Byte>, m: Machine, c: Byte, d: Byte)
    requires Bounded(boundary, m) && Step(boundary, m, c).verdict.Advance?
    requires Step(boundary, Step(boundary, m, c).m, d).verdict.Advance?
    ensures var t := Step(boundary, m, c);
            var u := Step(boundary, t.m, d);
            Goes(boundary, m, [c, d], u.m, t.notes + u.notes)
  {
    hide Step;
    var t := Step(boundary, m, c);
    ByteGoes(boundary, m, c);
    ByteGoes(boundary, t.m, d);
    GoesOn(boundary, m, [c], t.m, t.notes, [d], Step(boundary, t.m, d).m, Step(boundary, t.m, d).notes);
    assert [c] + [d] == [c, d];
  }

  lemma TokenGoes(boundary: seq<Byte>, m: Machine, c: Byte)
    requires Bounded(boundary, m)
    requires (m.state.HeaderFieldStart? || m.state.HeaderField?) && IsToken(c)
    ensures Goes(boundary, m, [c], m.(state := HeaderField), [FieldByte(c)]) &&
            Bounded(boundary, m.(state := HeaderField))
  {
    assert Step(boundary, m, c) == Turn(m.(state := HeaderField), [FieldByte(c)], Advance);
    ByteGoes(boundary, m, c);
  }

  lemma {:induction false} NameGoes(boundary: seq<Byte>, m: Machine, name: seq<Byte>)
    requires Bounded(boundary, m)
    requires (m.state.HeaderFieldStart? || m.state.HeaderField?) && name != [] && forall c :: c in name ==> IsToken(c)
    ensures Goes(boundary, m, name, m.(state := HeaderField), FieldNotes(name))
    decreases |name|
  {
    hide *;
    var c, rest, next := name[0], name[1..], m.(state := HeaderField);
    TokenGoes(boundary, m, c);
    if rest == [] {
      assert name == [c] && FieldNotes(name) == [FieldByte(c)];
    } else {
      NameGoes(boundary, next, rest);
      HeadThenRest(name);
      FieldNotesInTwo(name);
      GoesOn(boundary, m, [c], next, [FieldByte(c)], rest, next, FieldNotes(rest));
    }
  }

  lemma {:induction false} ValueGoes(boundary: seq<Byte>, m: Machine, value: seq<Byte>)
    requires Bounded(boundary, m)
    requires m.state.HeaderValue? && CR !in value
    ensures Goes(boundary, m, value, m, ValueNotes(value))
    decreases |value|
  {
    if value != [] {
      assert Step(boundary, m, value[0]) == Turn(m, [ValueByte(value[0])], Advance);
      ByteGoes(boundary, m, value[0]);
      ValueGoes(boundary, m, value[1..]);
      FirstThenRest(boundary, m, m, value, m);
    }
  }

  /** A value byte and then the others. */
  lemma FirstThenRest(boundary: seq<Byte>, m: Machine, v: Machine, value: seq<Byte>, m': Machine)
    requires value != []
    requires Goes(boundary, m, [value[0]], v, [ValueByte(value[0])]) &&
             Goes(boundary, v, value[1..], m', ValueNotes(value[1..]))
    ensures Goes(boundary, m, value, m', ValueNotes(value))
  {
    hide *;
    HeadThenRest(value);
    ValueNotesInTwo(value);
    GoesOn(boundary, m, [value[0]], v, [ValueByte(value[0])], value[1..], m', ValueNotes(value[1..]));
  }

  lemma HeadThenRest<T>(s: seq<T>)
    requires s != []
    ensures [s[0]] + s[1..] == s
  {
  }

  lemma FieldNotesInTwo(s: seq<Byte>)
    requires s != []
    ensures [FieldByte(s[0])] + FieldNotes(s[1..]) == FieldNotes(s)
  {
    hide *;
    assert forall i :: 0 <= i < |s| ==> FieldNotes(s)[i] == FieldByte(s[i]);
    assert FieldNotes(s)[1..] == FieldNotes(s[1..]);
    HeadThenRest(FieldNotes(s));
  }

  lemma ValueNotesInTwo(s: seq<Byte>)
    requires s != []
    ensures [ValueByte(s[0])] + ValueNotes(s[1..]) == ValueNotes(s)
  {
    hide *;
    assert forall i :: 0 <= i < |s| ==> ValueNotes(s)[i] == ValueByte(s[i]);
    assert ValueNotes(s)[1..] == ValueNotes(s[1..]);
    HeadThenRest(ValueNotes(s));
  }

  lemma DataNotesInTwo(s: seq<Byte>)
    requires s != []
    ensures [DataByte(s[0])] + DataNotes(s[1..]) == DataNotes(s)
  {
    hide *;
    assert forall i :: 0 <= i < |s| ==> DataNotes(s)[i] == DataByte(s[i]);
    assert DataNotes(s)[1..] == DataNotes(s[1..]);
    HeadThenRest(DataNotes(s));
  }

  lemma DataByteGoes(boundary: seq<Byte>, m: Machine, b: Byte)
    requires Bounded(boundary, m)
    requires m.state.InData? && b != CR
    ensures Goes(boundary, m, [b], m, [DataByte(b)])
  {
    assert Step(boundary, m, b) == Turn(m, [DataByte(b)], Advance);
    ByteGoes(boundary, m, b);
  }

  lemma {:induction false} DataGoes(boundary: seq<Byte>, m: Machine, bytes: seq<Byte>)
    requires Bounded(boundary, m)
    requires m.state.InData? && CR !in bytes
    ensures Goes(boundary, m, bytes, m, DataNotes(bytes))
    decreases |bytes|
  {
    if bytes != [] {
      var b, rest := bytes[0], bytes[1..];
      assert b in bytes;
      hide *;
      DataByteGoes(boundary, m, b);
      DataGoes(boundary, m, rest);
      HeadThenRest(bytes);
      DataNotesInTwo(bytes);
      GoesOn(boundary, m, [b], m, [DataByte(b)], rest, m, DataNotes(rest));
    }
  }

  // ---- positions in a chunk ----

  function Min(a: nat, b: nat): nat {
    if a < b then a else b
  }

  lemma EpilogueStays(boundary: seq<Byte>, m: Machine, c: Byte)
    requires Bounded(boundary, m)
    requires m.state.Epilogue?
    ensures Switch(boundary, m, c) == Turn(m, [], Advance)
  {
  }

  lemma GoesNowhere(boundary: seq<Byte>, m: Machine, data: seq<Byte>)
    requires Bounded(boundary, m)
    ensures Goes(boundary, m, data[..0], m, [])
  {
  }

  /** Reading `data` from `p`, the machine refuses the byte at `q`. */
  ghost predicate Refuses(boundary: seq<Byte>, m: Machine, data: seq<Byte>, p: nat, m': Machine, q: nat,
                          notes: seq<Note>) {
    && p <= q < |data| && Bounded(boundary, m)
    && Feed(boundary, m, data[p..q + 1]) == Fed(m', notes, q - p, false)
  }

  /** Within a byte: `m` is where the machine `b` that was given the byte stands, having told `first` so far. */
  ghost predicate Within(boundary: seq<Byte>, b: Machine, c: Byte, m: Machine, first: seq<Note>) {
    Bounded(boundary, b) && ((m == b && first == []) || Switch(boundary, b, c) == Turn(m, first, Again))
  }

  lemma WithinBegins(boundary: seq<Byte>, b: Machine, c: Byte)
    requires Bounded(boundary, b)
    ensures Within(boundary, b, c, b, [])
    ensures var t := Switch(boundary, b, c);
            t.verdict.Again? ==> Within(boundary, b, c, t.m, t.notes)
  {
  }

  lemma GoesAll(boundary: seq<Byte>, m: Machine, data: seq<Byte>, m': Machine, notes: seq<Note>)
    requires Goes(boundary, m, data[..|data|], m', notes)
    ensures Feed(boundary, m, data) == Fed(m', notes, |data|, true)
  {
    assert data[..|data|] == data;
  }

  /** A pass through the switch that is the last on its byte. */
  lemma LastPass(boundary: seq<Byte>, m: Machine, data: seq<Byte>, p: nat)
    requires Bounded(boundary, m) && p < |data|
    ensures var t := Switch(boundary, m, data[p]);
            && (t.verdict.Advance? ==> Goes(boundary, m, data[p..p + 1], t.m, t.notes))
            && (t.verdict.Fail? ==> Refuses(boundary, m, data, p, t.m, p, t.notes))
  {
    hide Switch;
    var t := Switch(boundary, m, data[p]);
    assert data[p..p + 1] == [data[p]];
    if t.verdict.Advance? {
      ByteGoes(boundary, m, data[p]);
    }
  }

  lemma WithinFeed(boundary: seq<Byte>, b: Machine, m: Machine, first: seq<Note>, s: seq<Byte>)
    requires s != [] && Within(boundary, b, s[0], m, first)
    ensures Feed(boundary, b, s) == After(first, 0, Feed(boundary, m, s))
  {
    if m == b && first == [] {
      AfterNothing(Feed(boundary, m, s));
    } else {
      FeedAgain(boundary, b, s);
    }
  }

  /** Bytes up to `p`, the passes so far on the byte at `p`, and a pass that consumes up to `end`. */
  lemma PassGoes(boundary: seq<Byte>, start: Machine, data: seq<Byte>, p: nat, b: Machine, told: seq<Note>,
                 m: Machine, first: seq<Note>, end: nat, m': Machine, notes: seq<Note>)
    requires p < end <= |data| && Goes(boundary, start, data[..p], b, told) && Within(boundary, b, data[p], m, first)
    requires Goes(boundary, m, data[p..end], m', notes)
    ensures Goes(boundary, start, data[..end], m', told + first + notes)
  {
    hide Within;
    WithinFeed(boundary, b, m, first, data[p..end]);
    GoesOn(boundary, start, data[..p], b, told, data[p..end], m', first + notes);
    assert data[..p] + data[p..end] == data[..end] && told + (first + notes) == told + first + notes;
  }

  /** The same, when the pass refuses the byte at `q`. */
  lemma PassFails(boundary: seq<Byte>, start: Machine, data: seq<Byte>, p: nat, b: Machine, told: seq<Note>,
                  m: Machine, first: seq<Note>, q: nat, m': Machine, notes: seq<Note>)
    requires p < |data| && Goes(boundary, start, data[..p], b, told) && Within(boundary, b, data[p], m, first)
    requires Refuses(boundary, m, data, p, m', q, notes)
    ensures Feed(boundary, start, data) == Fed(m', told + first + notes, q, false)
  {
    hide Within, Feed;
    var s, rest := data[p..q + 1], data[q + 1..];
    assert data == data[..p] + (s + rest) && told + (first + notes) == told + first + notes;
    WithinFeed(boundary, b, m, first, s);
    FeedConcat(boundary, b, s, rest);
    FeedConcat(boundary, start, data[..p], s + rest);
  }

  // ---- stopping in the middle ----

  /** Reading `data` from `p`, a callback stops the parser at `q`, after `notes`. */
  ghost predicate Stops(boundary: seq<Byte>, m: Machine, data: seq<Byte>, p: nat, q: nat, notes: seq<Note>) {
    && p <= q <= |data| && p < |data| && Bounded(boundary, m)
    && if q > p then Feed(boundary, m, data[p..q]).ok && Feed(boundary, m, data[p..q]).notes == notes
       else notes <= Switch(boundary, m, data[p]).notes
  }

  /**
   * What was told when the parser stopped at `n`: all that the bytes before tell, and part of what
   * the next one tells.
   */
  ghost predicate StoppedAt(boundary: seq<Byte>, start: Machine, data: seq<Byte>, n: nat, told: seq<Note>) {
    && n <= |data| && Bounded(boundary, start)
    && Feed(boundary, start, data[..n]).ok
    && Feed(boundary, start, data[..n]).notes <= told <= Feed(boundary, start, data[..Min(n + 1, |data|)]).notes
  }

  /** The passes on a byte tell what the byte tells, in order. */
  lemma ByteTells(boundary: seq<Byte>, b: Machine, c: Byte, m: Machine, first: seq<Note>)
    requires Within(boundary, b, c, m, first)
    ensures first + Switch(boundary, m, c).notes <= Feed(boundary, b, [c]).notes
  {
    hide Switch;
    assert [c][1..] == [];
    AtMostOneReexecuteWithin(boundary, b, c, m, first);
    assert [] + Switch(boundary, m, c).notes == Switch(boundary, m, c).notes;
    assert Step(boundary, b, c).notes + [] == Step(boundary, b, c).notes;
  }

  lemma AtMostOneReexecuteWithin(boundary: seq<Byte>, b: Machine, c: Byte, m: Machine, first: seq<Note>)
    requires Within(boundary, b, c, m, first)
    ensures (m == b && first == []) || !Switch(boundary, m, c).verdict.Again?
  {
    if !(m == b && first == []) {
      AtMostOneReexecute(boundary, b, c);
    }
  }

  lemma FeedGrows(boundary: seq<Byte>, m: Machine, data: seq<Byte>, n: nat)
    requires Bounded(boundary, m) && n <= |data|
    ensures Feed(boundary, m, data[..n]).notes <= Feed(boundary, m, data).notes
    ensures Feed(boundary, m, data[..n]).used <= Feed(boundary, m, data).used
  {
    hide Feed;
    FeedConcat(boundary, m, data[..n], data[n..]);
    assert data[..n] + data[n..] == data;
  }

  lemma PassStops(boundary: seq<Byte>, start: Machine, data: seq<Byte>, p: nat, b: Machine, told: seq<Note>,
                  m: Machine, first: seq<Note>, q: nat, notes: seq<Note>)
    requires p < |data| && Goes(boundary, start, data[..p], b, told) && Within(boundary, b, data[p], m, first)
    requires Stops(boundary, m, data, p, q, notes)
    ensures StoppedAt(boundary, start, data, q, told + first + notes)
  {
    hide Within, Feed, Switch;
    var end := Min(q + 1, |data|);
    if q > p {
      var k := Feed(boundary, m, data[p..q]).m;
      PassGoes(boundary, start, data, p, b, told, m, first, q, k, notes);
      FeedGrows(boundary, start, data[..end], q);
      assert data[..end][..q] == data[..q];
    } else {
      assert data[..end] == data[..p] + [data[p]];
      FeedConcat(boundary, start, data[..p], [data[p]]);
      ByteTells(boundary, b, data[p], m, first);
      PrefixAfter(told, first, notes, Switch(boundary, m, data[p]).notes, Feed(boundary, b, [data[p]]).notes);
    }
  }

  lemma PrefixAfter<T>(a: seq<T>, b: seq<T>, x: seq<T>, y: seq<T>, z: seq<T>)
    requires x <= y && b + y <= z
    ensures a <= a + b + x <= a + z
  {
    assert b + x <= b + y;
    assert a + (b + x) <= a + z;
    assert a + b + x == a + (b + x);
  }

  /** What a stopped parser told is a beginning of what the chunk tells, and it stopped no later than an error. */
  lemma StoppedToldLess(boundary: seq<Byte>, start: Machine, data: seq<Byte>, n: nat, told: seq<Note>)
    requires StoppedAt(boundary, start, data, n, told)
    ensures told <= Feed(boundary, start, data).notes && n <= Feed(boundary, start, data).used
  {
    FeedGrows(boundary, start, data, n);
    FeedGrows(boundary, start, data, Min(n + 1, |data|));
  }

  /** The states a slice leaves behind it when it ends the chunk. */
  predicate Telling(s: State) {
    s.HeaderField? || s.HeaderValue? || s.InData?
  }

  lemma SwitchTells(boundary: seq<Byte>, m: Machine, c: Byte)
    requires Bounded(boundary, m) && Switch(boundary, m, c).verdict.Advance? && Telling(Switch(boundary, m, c).m.state)
    ensures |Switch(boundary, m, c).notes| > 0
  {
  }

  /** A byte that leads to one of them tells something, and after a release more than the release. */
  lemma LastByteTells(boundary: seq<Byte>, b: Machine, c: Byte)
    requires Bounded(boundary, b) && Step(boundary, b, c).verdict.Advance? && Telling(Step(boundary, b, c).m.state)
    ensures var first, t := Switch(boundary, b, c), Step(boundary, b, c);
            |t.notes| > if first.verdict.Again? then |first.notes| else 0
  {
    hide Switch, Telling, Bounded;
    var first := Switch(boundary, b, c);
    SwitchTells(boundary, if first.verdict.Again? then first.m else b, c);
  }

  /** A stop before the end of the chunk is not mistaken for one at the end. */
  lemma AbortIsSeen(boundary: seq<Byte>, start: Machine, data: seq<Byte>, p: nat, b: Machine, told: seq<Note>,
                    m: Machine, first: seq<Note>, q: nat, notes: seq<Note>)
    requires p < |data| && Goes(boundary, start, data[..p], b, told) && Within(boundary, b, data[p], m, first)
    requires Stops(boundary, m, data, p, q, notes) && q < |data|
    requires q == p ==> Switch(boundary, m, data[p]).verdict.Again?
    ensures var f := Feed(boundary, start, data);
            !(f.ok && f.notes == told + first + notes && Telling(f.m.state))
  {
    hide Switch, Within, Step, Feed, Telling;
    if Feed(boundary, start, data).ok && Telling(Feed(boundary, start, data).m.state) {
      LastByteGrows(boundary, start, data);
      StopTellsAtMost(boundary, start, data, p, b, told, m, first, q, notes);
    }
  }

  /** What may be told before the last byte is done with: what those before tell, and what it releases. */
  ghost function BeforeLast(boundary: seq<Byte>, start: Machine, data: seq<Byte>): nat
    requires Bounded(boundary, start) && data != []
  {
    var g := Feed(boundary, start, data[..|data| - 1]);
    var first := Switch(boundary, g.m, data[|data| - 1]);
    |g.notes| + if first.verdict.Again? then |first.notes| else 0
  }

  lemma StopTellsAtMost(boundary: seq<Byte>, start: Machine, data: seq<Byte>, p: nat, b: Machine, told: seq<Note>,
                        m: Machine, first: seq<Note>, q: nat, notes: seq<Note>)
    requires p < |data| && Goes(boundary, start, data[..p], b, told) && Within(boundary, b, data[p], m, first)
    requires Stops(boundary, m, data, p, q, notes) && q < |data|
    requires q == p ==> Switch(boundary, m, data[p]).verdict.Again?
    ensures |told + first + notes| <= BeforeLast(boundary, start, data)
  {
    hide Switch, Within, Step, Feed;
    var last := |data| - 1;
    if q < last {
      PassStops(boundary, start, data, p, b, told, m, first, q, notes);
      FeedGrows(boundary, start, data[..last], q + 1);
      assert data[..last][..q + 1] == data[..q + 1];
    } else if q > p {
      PassGoes(boundary, start, data, p, b, told, m, first, q, Feed(boundary, m, data[p..q]).m, notes);
    } else {
      AtMostOneReexecuteWithin(boundary, b, data[p], m, first);
    }
  }

  /** Over an accepted chunk that leads to one of them, the last byte's share of what is told. */
  lemma LastByteGrows(boundary: seq<Byte>, start: Machine, data: seq<Byte>)
    requires Bounded(boundary, start) && data != []
    requires Feed(boundary, start, data).ok && Telling(Feed(boundary, start, data).m.state)
    ensures |Feed(boundary, start, data).notes| > BeforeLast(boundary, start, data)
  {
    hide Switch, Telling;
    var last := |data| - 1;
    assert data == data[..last] + [data[last]] && [data[last]][1..] == [];
    FeedConcat(boundary, start, data[..last], [data[last]]);
    var g := Feed(boundary, start, data[..last]);
    FeedUnfolds(boundary, g.m, [data[last]]);
    LastByteTells(boundary, g.m, data[last]);
  }

  // ---- the stretches the cases look ahead over ----

  /** A header name, up to the first byte that is no token character or the end of the chunk. */
  lemma NameRun(boundary: seq<Byte>, i: nat, data: seq<Byte>, p: nat, q: nat)
    requires i <= |boundary| + 1
    requires p <= q <= |data| && (forall k :: p <= k < q ==> IsToken(data[k])) && (q < |data| ==> !IsToken(data[q]))
    ensures var m, notes := Machine(HeaderField, i), FieldNotes(data[p..q]);
            && Goes(boundary, m, data[p..q], m, notes)
            && (q < |data| && data[q] == COLON ==> Goes(boundary, m, data[p..q + 1], Machine(HeaderValueStart, i),
               notes))
            && (q < |data| && data[q] != COLON ==> Feed(boundary, m, data[p..q + 1]) == Fed(m, notes, q - p, false))
  {
    hide *;
    var m, notes := Machine(HeaderField, i), FieldNotes(data[p..q]);
    HeaderIsBounded(boundary, i);
    if p < q {
      NameGoes(boundary, m, data[p..q]);
    } else {
      NoName(boundary, m);
      assert data[p..q] == [];
    }
    if q < |data| {
      NameEnds(boundary, m, data[q]);
      assert data[p..q + 1] == data[p..q] + [data[q]] && notes + [] == notes;
      if data[q] == COLON {
        GoesOn(boundary, m, data[p..q], m, notes, [data[q]], Machine(HeaderValueStart, i), []);
      } else {
        GoesThenFails(boundary, m, data[p..q], m, notes, [data[q]], m);
      }
    }
  }

  lemma HeaderIsBounded(boundary: seq<Byte>, i: nat)
    requires i <= |boundary| + 1
    ensures Bounded(boundary, Machine(HeaderField, i))
  {
  }

  lemma GoesThenFails(boundary: seq<Byte>, m: Machine, x: seq<Byte>, m1: Machine, n1: seq<Note>, y: seq<Byte>,
                      m2: Machine)
    requires Goes(boundary, m, x, m1, n1) && Feed(boundary, m1, y) == Fed(m2, [], 0, false)
    ensures Feed(boundary, m, x + y) == Fed(m2, n1, |x|, false)
  {
    hide Feed, Bounded;
    FeedConcat(boundary, m, x, y);
    assert n1 + [] == n1;
  }

  lemma NoName(boundary: seq<Byte>, m: Machine)
    requires Bounded(boundary, m)
    ensures FieldNotes([]) == [] && Goes(boundary, m, [], m, [])
  {
  }

  /** The byte after a name. */
  lemma NameEnds(boundary: seq<Byte>, m: Machine, c: Byte)
    requires m.state.HeaderField? && !IsToken(c) && Bounded(boundary, m)
    ensures c == COLON ==> Goes(boundary, m, [c], m.(state := HeaderValueStart), [])
    ensures c != COLON ==> Feed(boundary, m, [c]) == Fed(m, [], 0, false)
  {
    if c == COLON {
      ByteGoes(boundary, m, c);
    }
  }

  /** A stretch without CR, and the CR if there is one, for a state that keeps all else. */
  lemma ValueRun(boundary: seq<Byte>, i: nat, data: seq<Byte>, p: nat, q: nat)
    requires i <= |boundary| + 1
    requires p <= q <= |data| && (forall k :: p <= k < q ==> data[k] != CR) && (q < |data| ==> data[q] == CR)
    ensures var m, notes := Machine(HeaderValue, i), ValueNotes(data[p..q]);
            && Goes(boundary, m, data[p..q], m, notes)
            && (q < |data| ==> Goes(boundary, m, data[p..q + 1], Machine(HeaderValueCr, i), notes))
  {
    var m, notes := Machine(HeaderValue, i), ValueNotes(data[p..q]);
    ValueGoes(boundary, m, data[p..q]);
    if q < |data| {
      assert data[p..q + 1] == data[p..q] + [CR] && notes + [] == notes;
      assert Step(boundary, m, CR) == To(m, HeaderValueCr);
      ByteGoes(boundary, m, CR);
      hide Goes;
      GoesOn(boundary, m, data[p..q], m, notes, [CR], Machine(HeaderValueCr, i), []);
    }
  }

  lemma DataRun(boundary: seq<Byte>, i: nat, data: seq<Byte>, p: nat, q: nat)
    requires i <= |boundary| + 1
    requires p <= q <= |data| && (forall k :: p <= k < q ==> data[k] != CR) && (q < |data| ==> data[q] == CR)
    ensures var m, notes := Machine(InData, i), DataNotes(data[p..q]);
            && Goes(boundary, m, data[p..q], m, notes)
            && (q < |data| ==> Goes(boundary, m, data[p..q + 1], Machine(DataCr, i), notes))
  {
    var m, notes := Machine(InData, i), DataNotes(data[p..q]);
    DataGoes(boundary, m, data[p..q]);
    if q < |data| {
      assert data[p..q + 1] == data[p..q] + [CR] && notes + [] == notes;
      assert Step(boundary, m, CR) == To(m, DataCr);
      ByteGoes(boundary, m, CR);
      hide Goes;
      GoesOn(boundary, m, data[p..q], m, notes, [CR], Machine(DataCr, i), []);
    }
  }

  /** Two machines that treat a byte alike go alike from it. */
  lemma FeedAlike(boundary: seq<Byte>, m: Machine, k: Machine, s: seq<Byte>)
    requires Bounded(boundary, m) && Bounded(boundary, k) && s != []
    requires Step(boundary, m, s[0]) == Step(boundary, k, s[0])
    ensures Feed(boundary, m, s) == Feed(boundary, k, s)
  {
    hide Step;
    FeedUnfolds(boundary, m, s);
    FeedUnfolds(boundary, k, s);
  }

  lemma StepFallsThrough(boundary: seq<Byte>, i: nat, c: Byte)
    requires i <= |boundary| + 1
    ensures c != CR ==> Step(boundary, Machine(HeaderFieldStart, i), c) == Step(boundary, Machine(HeaderField, i), c)
    ensures c != SP && c != HT ==>
            Step(boundary, Machine(HeaderValueStart, i), c) == Step(boundary, Machine(HeaderValue, i), c)
  {
  }

  /** Falling through to the next case of the switch. */
  lemma FieldFallsThrough(boundary: seq<Byte>, i: nat, data: seq<Byte>, p: nat, q: nat)
    requires i <= |boundary| + 1
    requires p < q <= |data| && data[p] != CR
    ensures Feed(boundary, Machine(HeaderFieldStart, i), data[p..q]) ==
            Feed(boundary, Machine(HeaderField, i), data[p..q])
  {
    StepFallsThrough(boundary, i, data[p]);
    hide Step, Feed;
    FeedAlike(boundary, Machine(HeaderFieldStart, i), Machine(HeaderField, i), data[p..q]);
  }

  lemma ValueFallsThrough(boundary: seq<Byte>, i: nat, data: seq<Byte>, p: nat, q: nat)
    requires i <= |boundary| + 1
    requires p < q <= |data| && data[p] != SP && data[p] != HT
    ensures Feed(boundary, Machine(HeaderValueStart, i), data[p..q]) ==
            Feed(boundary, Machine(HeaderValue, i), data[p..q])
  {
    StepFallsThrough(boundary, i, data[p]);
    hide Step, Feed;
    FeedAlike(boundary, Machine(HeaderValueStart, i), Machine(HeaderValue, i), data[p..q]);
  }

  /** The whole case of a header name, from either of its states. */
  lemma NameCase(boundary: seq<Byte>, s: State, i: nat, data: seq<Byte>, p: nat, q: nat)
    requires i <= |boundary| + 1 && (s == HeaderFieldStart || s == HeaderField)
    requires p < |data| && (s == HeaderFieldStart ==> data[p] != CR)
    requires p <= q <= |data| && (forall k :: p <= k < q ==> IsToken(data[k])) && (q < |data| ==> !IsToken(data[q]))
    ensures var m, notes := Machine(s, i), FieldNotes(data[p..q]);
            && (q > p ==> Goes(boundary, m, data[p..q], Machine(HeaderField, i), notes))
            && (q < |data| && data[q] == COLON ==> Goes(boundary, m, data[p..q + 1], Machine(HeaderValueStart, i),
               notes))
            && (q < |data| && data[q] != COLON ==> Refuses(boundary, m, data, p, Machine(HeaderField, i), q, notes))
  {
    hide IsToken, FieldNotes, Feed;
    NameRun(boundary, i, data, p, q);
    if s == HeaderFieldStart {
      FieldFallsThrough(boundary, i, data, p, Min(q + 1, |data|));
      if q > p {
        FieldFallsThrough(boundary, i, data, p, q);
      }
    }
  }

  /** The whole case of a header value, from either of its states. */
  lemma ValueCase(boundary: seq<Byte>, s: State, i: nat, data: seq<Byte>, p: nat, q: nat)
    requires i <= |boundary| + 1 && (s == HeaderValueStart || s == HeaderValue)
    requires p < |data| && (s == HeaderValueStart ==> data[p] != SP && data[p] != HT)
    requires p <= q <= |data| && (forall k :: p <= k < q ==> data[k] != CR) && (q < |data| ==> data[q] == CR)
    ensures var m, notes := Machine(s, i), ValueNotes(data[p..q]);
            && (q > p ==> Goes(boundary, m, data[p..q], Machine(HeaderValue, i), notes))
            && (q < |data| ==> Goes(boundary, m, data[p..q + 1], Machine(HeaderValueCr, i), notes))
  {
    hide ValueNotes, Feed;
    ValueRun(boundary, i, data, p, q);
    if s == HeaderValueStart {
      ValueFallsThrough(boundary, i, data, p, Min(q + 1, |data|));
      if q > p {
        ValueFallsThrough(boundary, i, data, p, q);
      }
    }
  }
}
