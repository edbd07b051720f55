/** The calls that the C parser makes for a chunk when none of them stops it. */
module CallbackCalls {
  import opened Bytes
  import opened MultipartMachine
  import opened MultipartRuns

  /** A callback call. */
  datatype Event =
    | OnBodyBegin | OnPartBegin | OnHeaderField(bytes: seq<Byte>) | OnHeaderValue(bytes: seq<Byte>)
    | OnHeadersComplete | OnData(bytes: seq<Byte>) | OnPartEnd | OnBodyEnd

  /** The bytes of a slice, told one by one. */
  function NotesOf(e: Event): seq<Note> {
    match e
    case OnBodyBegin => [BodyBegin]
    case OnPartBegin => [PartBegin]
    case OnHeaderField(bytes) => FieldNotes(bytes)
    case OnHeaderValue(bytes) => ValueNotes(bytes)
    case OnHeadersComplete => [HeadersComplete]
    case OnData(bytes) => DataNotes(bytes)
    case OnPartEnd => [PartEnd]
    case OnBodyEnd => [BodyEnd]
  }

  function Flat(trace: seq<Event>): seq<Note> {
    if trace == [] then [] else Flat(trace[..|trace| - 1]) + NotesOf(trace[|trace| - 1])
  }

  lemma FlatOne(was: seq<Event>, e: Event)
    ensures Flat(was + [e]) == Flat(was) + NotesOf(e)
  {
    assert (was + [e])[..|was|] == was;
  }

  lemma {:induction false} FlatConcat(a: seq<Event>, b: seq<Event>)
    ensures Flat(a + b) == Flat(a) + Flat(b)
    decreases |b|
  {
    hide Flat, NotesOf;
    if b == [] {
      FlatNone();
      assert a + b == a && Flat(a) + [] == Flat(a);
    } else {
      var init, last := b[..|b| - 1], b[|b| - 1];
      assert a + b == a + init + [last] && b == init + [last];
      FlatConcat(a, init);
      FlatOne(a + init, last);
      FlatOne(init, last);
      assert Flat(a) + Flat(init) + NotesOf(last) == Flat(a) + (Flat(init) + NotesOf(last));
    }
  }

  lemma FlatNone()
    ensures Flat([]) == []
  {
  }

  predicate IsSlice(e: Event) {
    e.OnHeaderField? || e.OnHeaderValue? || e.OnData?
  }

  /** The state that a slice leaves when the chunk ends with it. */
  function StateOf(e: Event): State
    requires IsSlice(e)
  {
    if e.OnHeaderField? then HeaderField else if e.OnHeaderValue? then HeaderValue else InData
  }

  // ---- slices ----

  /** A byte that goes into a slice, in a state that may begin or go on with one. */
  predicate TellsByte(s: State, c: Byte) {
    match s
    case HeaderFieldStart => IsToken(c)
    case HeaderField => IsToken(c)
    case HeaderValueStart => c != SP && c != HT && c != CR
    case HeaderValue => c != CR
    case InData => c != CR
    case _ => false
  }

  /** The state in which such a slice goes on. */
  function SliceState(s: State): State {
    if s.HeaderFieldStart? || s.HeaderField? then HeaderField
    else if s.HeaderValueStart? || s.HeaderValue? then HeaderValue
    else s
  }

  function SliceOf(s: State, bytes: seq<Byte>): (e: Event)
    ensures IsSlice(e) && e.bytes == bytes
  {
    if s.HeaderFieldStart? || s.HeaderField? then OnHeaderField(bytes)
    else if s.HeaderValueStart? || s.HeaderValue? then OnHeaderValue(bytes)
    else OnData(bytes)
  }

  /** How many bytes the slice at the start of the chunk has: as many as there are in a row. */
  function RunLength(s: State, data: seq<Byte>): (k: nat)
    ensures k <= |data|
    decreases |data|
  {
    if data != [] && TellsByte(s, data[0]) then 1 + RunLength(SliceState(s), data[1..]) else 0
  }

  /** The bytes that are given to the body when they turn out not to begin a boundary. */
  function Held(boundary: seq<Byte>, m: Machine): seq<Byte>
    requires Bounded(boundary, m)
  {
    match m.state
    case DataCr => [CR]
    case DataCrLf => [CR, LF]
    case DataCrLfHy => [CR, LF, HYPHEN]
    case DataBoundary => boundary[..m.index]
    case _ => []
  }

  function EventOf(n: Note): Event {
    match n
    case BodyBegin => OnBodyBegin
    case PartBegin => OnPartBegin
    case FieldByte(b) => OnHeaderField([b])
    case ValueByte(b) => OnHeaderValue([b])
    case HeadersComplete => OnHeadersComplete
    case DataByte(b) => OnData([b])
    case PartEnd => OnPartEnd
    case BodyEnd => OnBodyEnd
  }

  function Singles(notes: seq<Note>): seq<Event> {
    seq(|notes|, i requires 0 <= i < |notes| => EventOf(notes[i]))
  }

  /** The calls for a byte that goes into no slice of the chunk: a release, empty or not, is one call. */
  function ByteCalls(boundary: seq<Byte>, m: Machine, t: Turn): seq<Event>
    requires Bounded(boundary, m)
  {
    if t.verdict.Again? then if t.m.state.InData? then [OnData(Held(boundary, m))] else []
    else Singles(t.notes)
  }

  /** All the calls for a chunk, up to an error. */
  ghost function CallsOn(boundary: seq<Byte>, m: Machine, data: seq<Byte>): seq<Event>
    requires Bounded(boundary, m)
    decreases |data|, MayReexecute(m.state)
  {
    if data == [] then []
    else
      var k := RunLength(m.state, data);
      if k > 0 then
        [SliceOf(m.state, data[..k])] + CallsOn(boundary, m.(state := SliceState(m.state)), data[k..])
      else
        var t := Switch(boundary, m, data[0]);
        AgainOnlyFrom(boundary, m, data[0]);
        ByteCalls(boundary, m, t) +
        match t.verdict
        case Fail => []
        case Again => CallsOn(boundary, t.m, data)
        case Advance => CallsOn(boundary, t.m, data[1..])
  }

  /** Where a run ends. */
  lemma {:induction false} RunIs(s: State, data: seq<Byte>, p: nat, q: nat)
    requires p <= q <= |data| && (p < q ==> TellsByte(s, data[p]))
    requires forall k :: p < k < q ==> TellsByte(SliceState(s), data[k])
    requires q < |data| ==> !TellsByte(if p < q then SliceState(s) else s, data[q])
    ensures RunLength(s, data[p..]) == q - p
    decreases q - p
  {
    if p < q {
      assert data[p..][1..] == data[p + 1..];
      RunIs(SliceState(s), data, p + 1, q);
    }
  }

  /** A slice, if there is one, and what the byte after it leads to. */
  lemma SliceCalls(boundary: seq<Byte>, m: Machine, data: seq<Byte>, p: nat, q: nat, m': Machine, v: Verdict)
    requires Bounded(boundary, m) && LooksAhead(m.state) && p < |data| && p <= q <= |data|
    requires RunLength(m.state, data[p..]) == q - p && !v.Again?
    requires var m1 := if p < q then m.(state := SliceState(m.state)) else m;
             Bounded(boundary, m1) && (q < |data| ==> Switch(boundary, m1, data[q]) == Turn(m', [], v))
    ensures q < |data| ==> Bounded(boundary, m')
    ensures CallsOn(boundary, m, data[p..]) ==
            (if p < q then [SliceOf(m.state, data[p..q])] else [])
            + if q == |data| || v.Fail? then [] else CallsOn(boundary, m', data[q + 1..])
    ensures StopsOn(boundary, m, data[p..]) ==
            (if p < q then [SliceStop(m, q == |data|)] else [])
            + if q == |data| || v.Fail? then [] else StopsOn(boundary, m', data[q + 1..])
  {
    hide Switch, SliceOf, SliceStop, Bounded, CallsOn, StopsOn, ByteCalls;
    var d, k := data[p..], q - p;
    assert d[..k] == data[p..q] && d[k..] == data[q..];
    var m1 := if p < q then m.(state := SliceState(m.state)) else m;
    if p < q {
      RunEnds(m.state, d);
      SliceFirst(boundary, m, d);
    }
    if q < |data| {
      assert data[q..][1..] == data[q + 1..] && data[q..][0] == data[q];
      NoSlice(boundary, m1, data[q..]);
      EmptySums(CallsOn(boundary, m1, data[q..]), StopsOn(boundary, m1, data[q..]));
    } else {
      NoBytesNoCalls(boundary, m1);
    }
  }

  lemma EmptySums<S, T>(a: seq<S>, b: seq<T>)
    ensures [] + a == a && [] + b == b && a + [] == a && b + [] == b
  {
  }

  lemma NoBytesNoCalls(boundary: seq<Byte>, m: Machine)
    requires Bounded(boundary, m)
    ensures CallsOn(boundary, m, []) == [] && StopsOn(boundary, m, []) == []
  {
  }

  /** A run, and the calls for what follows it. */
  lemma SliceFirst(boundary: seq<Byte>, m: Machine, data: seq<Byte>)
    requires Bounded(boundary, m) && RunLength(m.state, data) > 0
    ensures var k, m' := RunLength(m.state, data), m.(state := SliceState(m.state));
            && Bounded(boundary, m')
            && CallsOn(boundary, m, data) == [SliceOf(m.state, data[..k])] + CallsOn(boundary, m', data[k..])
            && StopsOn(boundary, m, data) == [SliceStop(m, k == |data|)] + StopsOn(boundary, m', data[k..])
  {
  }

  lemma {:induction false} RunEnds(s: State, data: seq<Byte>)
    requires RunLength(s, data) > 0
    ensures RunLength(SliceState(s), data[RunLength(s, data)..]) == 0
    decreases |data|
  {
    var k := RunLength(s, data);
    assert data[1..][k - 1..] == data[k..];
    if k > 1 {
      RunEnds(SliceState(s), data[1..]);
    }
  }

  /** A byte that goes into no slice. */
  lemma NoSlice(boundary: seq<Byte>, m: Machine, data: seq<Byte>)
    requires Bounded(boundary, m) && data != [] && RunLength(m.state, data) == 0
    ensures var t := Switch(boundary, m, data[0]);
            && CallsOn(boundary, m, data) ==
               ByteCalls(boundary, m, t) +
               (match t.verdict
                case Fail => []
                case Again => CallsOn(boundary, t.m, data)
                case Advance => CallsOn(boundary, t.m, data[1..]))
            && StopsOn(boundary, m, data) ==
               seq(|ByteCalls(boundary, m, t)|, _ => ByteStop(m)) +
               (match t.verdict
                case Fail => []
                case Again => StopsOn(boundary, t.m, data)
                case Advance => StopsOn(boundary, t.m, data[1..]))
            && (t.notes == [] && !t.verdict.Again? ==> ByteCalls(boundary, m, t) == [])
  {
  }

  // ---- where a call that stops the parser leaves it ----

  /** At a slice: in its state, unless the byte after it has moved the parser on already. */
  function SliceStop(m: Machine, atEnd: bool): Machine {
    m.(state :=
      if SliceState(m.state).HeaderValue? && !atEnd then HeaderValueCr
      else if m.state.InData? && !atEnd then DataCr
      else SliceState(m.state))
  }

  /** At any other call: where it stood, since the state is set afterwards. */
  function ByteStop(m: Machine): Machine {
    if m.state.DataBoundaryStart? then Machine(DataBoundary, 0) else m
  }

  /** Stopped at such a call and given the same byte again, it goes on as if it had not been stopped. */
  lemma ResumedAsBefore(boundary: seq<Byte>, m: Machine, c: Byte)
    requires Bounded(boundary, m)
    ensures Bounded(boundary, ByteStop(m)) && Switch(boundary, ByteStop(m), c) == Switch(boundary, m, c)
    ensures !m.state.DataBoundaryStart? ==> ByteStop(m) == m
  {
  }

  /** For each of the calls for a chunk, where the parser is left if that call stops it. */
  ghost function StopsOn(boundary: seq<Byte>, m: Machine, data: seq<Byte>): (r: seq<Machine>)
    requires Bounded(boundary, m)
    ensures |r| == |CallsOn(boundary, m, data)|
    decreases |data|, MayReexecute(m.state)
  {
    if data == [] then []
    else
      var k := RunLength(m.state, data);
      if k > 0 then
        [SliceStop(m, k == |data|)] + StopsOn(boundary, m.(state := SliceState(m.state)), data[k..])
      else
        var t := Switch(boundary, m, data[0]);
        AgainOnlyFrom(boundary, m, data[0]);
        seq(|ByteCalls(boundary, m, t)|, _ => ByteStop(m)) +
        match t.verdict
        case Fail => []
        case Again => StopsOn(boundary, t.m, data)
        case Advance => StopsOn(boundary, t.m, data[1..])
  }

  // ---- the calls tell what the machine tells ----

  lemma SliceStateBounded(boundary: seq<Byte>, m: Machine)
    requires Bounded(boundary, m)
    ensures Bounded(boundary, m.(state := SliceState(m.state)))
  {
  }

  lemma SliceByteFed(boundary: seq<Byte>, m: Machine, data: seq<Byte>)
    requires Bounded(boundary, m) && data != [] && TellsByte(m.state, data[0])
    ensures var m' := m.(state := SliceState(m.state));
            && NotesOf(SliceOf(m.state, data[..1])) != []
            && Feed(boundary, m, data) ==
               After(NotesOf(SliceOf(m.state, [data[0]])), 1, Feed(boundary, m', data[1..]))
  {
    hide Feed;
    var m', note := m.(state := SliceState(m.state)), NotesOf(SliceOf(m.state, [data[0]]));
    assert |note| == 1 && Step(boundary, m, data[0]) == Turn(m', note, Advance);
    hide Step;
    FeedUnfolds(boundary, m, data);
  }

  lemma SliceInTwo(s: State, bytes: seq<Byte>)
    requires bytes != []
    ensures NotesOf(SliceOf(s, bytes)) ==
            NotesOf(SliceOf(s, [bytes[0]])) + NotesOf(SliceOf(SliceState(s), bytes[1..]))
    ensures NotesOf(SliceOf(s, [])) == []
  {
    hide FieldNotes, ValueNotes, DataNotes;
    FieldNotesInTwo(bytes);
    ValueNotesInTwo(bytes);
    DataNotesInTwo(bytes);
    OneByteNotes(bytes[0]);
  }

  lemma OneByteNotes(c: Byte)
    ensures FieldNotes([c]) == [FieldByte(c)] && ValueNotes([c]) == [ValueByte(c)] && DataNotes([c]) == [DataByte(c)]
    ensures FieldNotes([]) == [] && ValueNotes([]) == [] && DataNotes([]) == []
  {
  }

  lemma {:induction false} RunFed(boundary: seq<Byte>, m: Machine, data: seq<Byte>)
    requires Bounded(boundary, m) && RunLength(m.state, data) > 0
    ensures var k := RunLength(m.state, data);
            var m' := m.(state := SliceState(m.state));
            && RunLength(m'.state, data[k..]) == 0
            && Feed(boundary, m, data).notes ==
               NotesOf(SliceOf(m.state, data[..k])) + Feed(boundary, m', data[k..]).notes
    decreases |data|
  {
    hide Feed, NotesOf, SliceOf, RunLength, TellsByte, SliceState;
    var k := RunLength(m.state, data);
    var m' := m.(state := SliceState(m.state));
    RunUnfolds(m.state, data);
    SliceStateBounded(boundary, m);
    SliceByteFed(boundary, m, data);
    SliceInTwo(m.state, data[..k]);
    TakeDrop(data, k);
    if k > 1 {
      RunFed(boundary, m', data[1..]);
      var rest := data[k..];
      AppendTwice(NotesOf(SliceOf(m.state, [data[0]])), NotesOf(SliceOf(m'.state, data[..k][1..])),
                  Feed(boundary, m', rest).notes);
    } else {
      SliceInTwo(m'.state, [NUL]);
      EmptySums(NotesOf(SliceOf(m.state, [data[0]])), data);
    }
  }

  lemma RunUnfolds(s: State, data: seq<Byte>)
    requires RunLength(s, data) > 0
    ensures data != [] && TellsByte(s, data[0]) && RunLength(SliceState(s), data[1..]) == RunLength(s, data) - 1
    ensures SliceState(SliceState(s)) == SliceState(s)
  {
  }

  lemma TakeDrop<T>(s: seq<T>, k: nat)
    requires 1 <= k <= |s|
    ensures s[..k] != [] && s[..k][0] == s[0] && s[..k][1..] == s[1..][..k - 1] && s[1..][k - 1..] == s[k..]
    ensures k == 1 ==> s[..k][1..] == []
  {
  }

  lemma AppendTwice<T>(a: seq<T>, b: seq<T>, c: seq<T>)
    ensures a + (b + c) == a + b + c
  {
  }

  lemma EventTells(n: Note)
    ensures NotesOf(EventOf(n)) == [n]
  {
  }

  lemma {:induction false} FlatSingles(notes: seq<Note>)
    ensures Flat(Singles(notes)) == notes
    decreases |notes|
  {
    if notes == [] {
      FlatNone();
    } else {
      var init, last := notes[..|notes| - 1], notes[|notes| - 1];
      assert Singles(notes) == Singles(init) + [EventOf(last)] && notes == init + [last];
      hide *;
      FlatSingles(init);
      FlatOne(Singles(init), EventOf(last));
      EventTells(last);
    }
  }

  /** A second pass on the same byte comes after a release, or after a whole delimiter. */
  lemma AgainTells(boundary: seq<Byte>, m: Machine, c: Byte)
    requires Bounded(boundary, m) && Switch(boundary, m, c).verdict.Again?
    ensures var t := Switch(boundary, m, c);
            t.notes == if t.m.state.InData? then DataNotes(Held(boundary, m)) else []
  {
    assert boundary[..0] == [];
  }

  lemma ByteCallsTell(boundary: seq<Byte>, m: Machine, c: Byte)
    requires Bounded(boundary, m)
    ensures var t := Switch(boundary, m, c);
            Flat(ByteCalls(boundary, m, t)) == t.notes
  {
    hide Switch, Flat, Singles, Held;
    var t := Switch(boundary, m, c);
    if t.verdict.Again? {
      AgainTells(boundary, m, c);
      FlatNone();
      FlatSingle(OnData(Held(boundary, m)));
    } else {
      FlatSingles(t.notes);
    }
  }

  lemma FlatSingle(e: Event)
    ensures Flat([e]) == NotesOf(e)
  {
    FlatOne([], e);
    assert [] + [e] == [e];
  }

  /** The calls for a chunk, flattened, are what the machine tells of it. */
  lemma {:induction false} CallsTell(boundary: seq<Byte>, m: Machine, data: seq<Byte>)
    requires Bounded(boundary, m)
    ensures Flat(CallsOn(boundary, m, data)) == Feed(boundary, m, data).notes
    decreases |data|, MayReexecute(m.state)
  {
    if data != [] {
      var k := RunLength(m.state, data);
      hide Feed, Switch, Flat, NotesOf, SliceOf, ByteCalls, Bounded;
      if k > 0 {
        var m', e := m.(state := SliceState(m.state)), SliceOf(m.state, data[..k]);
        SliceStateBounded(boundary, m);
        RunFed(boundary, m, data);
        CallsTell(boundary, m', data[k..]);
        FlatConcat([e], CallsOn(boundary, m', data[k..]));
        FlatSingle(e);
      } else {
        ByteThenRest(boundary, m, data);
      }
    }
  }

  lemma {:induction false} ByteThenRest(boundary: seq<Byte>, m: Machine, data: seq<Byte>)
    requires Bounded(boundary, m) && data != [] && RunLength(m.state, data) == 0
    ensures Flat(CallsOn(boundary, m, data)) == Feed(boundary, m, data).notes
    decreases |data|, MayReexecute(m.state), 0
  {
    hide Switch, Flat, NotesOf, ByteCalls, Bounded;
    var t := Switch(boundary, m, data[0]);
    var es := ByteCalls(boundary, m, t);
    AgainOnlyFrom(boundary, m, data[0]);
    ByteCallsTell(boundary, m, data[0]);
    match t.verdict
    case Fail =>
      FeedUnfolds(boundary, m, data);
      assert es + [] == es;
    case Again =>
      FeedAgain(boundary, m, data);
      CallsTell(boundary, t.m, data);
      FlatConcat(es, CallsOn(boundary, t.m, data));
    case Advance =>
      FeedUnfolds(boundary, m, data);
      CallsTell(boundary, t.m, data[1..]);
      FlatConcat(es, CallsOn(boundary, t.m, data[1..]));
  }
}
