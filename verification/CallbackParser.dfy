/** The C parser: the same machine, telling its owner through callbacks that may stop it. */
module CallbackParser {
  import opened Bytes
  import opened MultipartMachine
  import opened MultipartRuns
  import opened MultipartGrammar
  import opened CallbackCalls

  /** The size of the boundary buffer. */
  const BOUNDARY_SIZE := 70

  /** The kind of a call, as a letter of the grammar. */
  function Letter(e: Event): Note {
    match e
    case OnBodyBegin => BodyBegin
    case OnPartBegin => PartBegin
    case OnHeaderField(_) => FieldByte(NUL)
    case OnHeaderValue(_) => ValueByte(NUL)
    case OnHeadersComplete => HeadersComplete
    case OnData(_) => DataByte(NUL)
    case OnPartEnd => PartEnd
    case OnBodyEnd => BodyEnd
  }

  function Letters(trace: seq<Event>): (r: seq<Note>)
    ensures |r| == |trace| && forall i :: 0 <= i < |r| ==> r[i] == Letter(trace[i])
  {
    seq(|trace|, i requires 0 <= i < |trace| => Letter(trace[i]))
  }

  /** Where the calls so far stand in the grammar. */
  ghost function PlaceAfter(trace: seq<Event>): Option<Place> {
    FollowAll(Before, Letters(trace))
  }

  lemma PlaceAfterOne(trace: seq<Event>, e: Event)
    ensures PlaceAfter(trace + [e]) ==
            (if PlaceAfter(trace).Some? then Follow(PlaceAfter(trace).value, Letter(e)) else None)
  {
    assert Letters(trace + [e]) == Letters(trace) + [Letter(e)];
    FollowConcat(Before, Letters(trace), [Letter(e)]);
    if PlaceAfter(trace).Some? {
      FollowShort(PlaceAfter(trace).value, Letter(e), BodyEnd);
    }
  }

  /** Whether a call returns non-zero, given all the calls up to it. */
  type Callbacks = seq<Event> -> bool

  /** The calls went from `was` to `now`, each but possibly the last returning zero. */
  ghost predicate Heard(was: seq<Event>, now: seq<Event>, aborts: Callbacks) {
    was <= now && forall k :: |was| < k < |now| ==> !aborts(now[..k])
  }

  /** The last of the calls from `was` to `now` returned non-zero. */
  predicate Aborted(was: seq<Event>, now: seq<Event>, aborts: Callbacks) {
    |was| < |now| && aborts(now)
  }

  lemma HeardShort(was: seq<Event>, e: Event, f: Event, aborts: Callbacks)
    ensures Heard(was, was, aborts) && Heard(was, was + [e], aborts)
    ensures !aborts(was + [e]) ==> Heard(was, was + [e] + [f], aborts)
  {
    assert (was + [e] + [f])[..|was| + 1] == was + [e];
  }

  lemma HeardOn(a: seq<Event>, b: seq<Event>, c: seq<Event>, aborts: Callbacks)
    requires Heard(a, b, aborts) && !Aborted(a, b, aborts) && Heard(b, c, aborts)
    ensures Heard(a, c, aborts) && (Aborted(a, c, aborts) <==> Aborted(b, c, aborts))
  {
    assert c[..|b|] == b;
    if |b| == |c| {
      assert c == b;
    }
    forall k | |a| < k < |c| ensures !aborts(c[..k]) {
      if k < |b| {
        assert c[..k] == b[..k];
      }
    }
  }

  /**
   * A case of the switch, from `old_` to `new_`: the calls it makes tell `notes`, and, unless
   * they stop it, keep the machine's place in the grammar.
   */
  ghost predicate Tells(was: seq<Event>, old_: State, now: seq<Event>, new_: State, notes: seq<Note>,
                        aborts: Callbacks) {
    && Heard(was, now, aborts)
    && Flat(now) == Flat(was) + notes
    && (PlaceAfter(was) == Some(PlaceOf(old_)) ==>
        PlaceAfter(now).Some? && (!Aborted(was, now, aborts) ==> PlaceAfter(now) == Some(PlaceOf(new_))))
  }

  /** The calls made are those of `es`, in their order, up to one that stopped them or to the end. */
  ghost predicate Made(was: seq<Event>, now: seq<Event>, aborts: Callbacks, es: seq<Event>) {
    was <= now && now[|was|..] <= es && (!Aborted(was, now, aborts) ==> now == was + es)
  }

  /** From `m` and `d` to `m'` and `d'`: the calls made so far, and the ones to come. */
  ghost predicate InStep(boundary: seq<Byte>, m: Machine, d: seq<Byte>, was: seq<Event>, now: seq<Event>, m': Machine,
                         d': seq<Byte>) {
    && Bounded(boundary, m) && Bounded(boundary, m') && was <= now
    && CallsOn(boundary, m, d) == now[|was|..] + CallsOn(boundary, m', d')
    && StopsOn(boundary, m, d)[|now| - |was|..] == StopsOn(boundary, m', d')
  }

  /** The last of the calls from `was` to `now` has stopped the parser and left it at `m'`. */
  ghost predicate LeftBy(boundary: seq<Byte>, m: Machine, d: seq<Byte>, was: seq<Event>, now: seq<Event>, m': Machine)
    requires Bounded(boundary, m)
  {
    var k := |now| - |was|;
    0 < k <= |StopsOn(boundary, m, d)| && m' == StopsOn(boundary, m, d)[k - 1]
  }

  /** One pass makes the next of the chunk's calls; stopped at the chunk's end, it has made the last one. */
  ghost predicate Calling(boundary: seq<Byte>, m: Machine, data: seq<Byte>, p: nat, q: nat, was: seq<Event>,
                          now: seq<Event>, aborts: Callbacks, m': Machine, v: Verdict) {
    && Bounded(boundary, m) && Bounded(boundary, m') && p < |data| && p <= q <= |data| && was <= now
    && if Aborted(was, now, aborts) then
         var es := CallsOn(boundary, m, data[p..]);
         now[|was|..] <= es && (q == |data| ==> now[|was|..] == es) && LeftBy(boundary, m, data[p..], was, now, m')
       else
         match v
         case Fail => CallsOn(boundary, m, data[p..]) == now[|was|..]
         case Again => InStep(boundary, m, data[p..], was, now, m', data[p..])
         case Advance => InStep(boundary, m, data[p..], was, now, m', data[Min(q + 1, |data|)..])
  }

  function Last(trace: seq<Event>): Event
    requires trace != []
  {
    trace[|trace| - 1]
  }

  /** A slice told for one byte releases what was withheld, and is empty only before the boundary's first byte. */
  ghost predicate Releasing(s: State, t: Turn, e: Event) {
    IsSlice(e) ==> t.verdict.Again? && (e.bytes == [] ==> s.DataBoundaryStart? || s.DataBoundary?)
  }

  /** A case that looks at one byte does what the switch says, or is stopped within what the switch tells. */
  ghost predicate Obeys(s: State, t: Turn, was: seq<Event>, now: seq<Event>, aborts: Callbacks, m: Machine, v: Verdict,
                        notes: seq<Note>) {
    if Aborted(was, now, aborts) then v.Fail? && notes <= t.notes && Releasing(s, t, Last(now))
    else m == t.m && v == t.verdict && notes == t.notes
  }

  /** How a case is stopped: at the byte itself, or after a slice of the bytes up to `q`. */
  ghost predicate StoppedBy(boundary: seq<Byte>, m: Machine, data: seq<Byte>, p: nat, q: nat, m': Machine,
                            notes: seq<Note>, e: Event) {
    && Stops(boundary, m, data, p, q, notes)
    && (q == p ==> Releasing(m.state, Switch(boundary, m, data[p]), e))
    && (q > p ==> IsSlice(e) && e.bytes == data[p..q])
    && (q == |data| ==> Goes(boundary, m, data[p..q], m', notes) && IsSlice(e) && m'.state == StateOf(e))
  }

  predicate SliceEnds(e: Event, data: seq<Byte>) {
    IsSlice(e) && e.bytes != [] && |e.bytes| <= |data| && data[|data| - |e.bytes|..] == e.bytes
  }

  /**
   * A stop that the returned size does not show: the last call is a slice that ends the
   * chunk, and the machine fed all of the chunk stands where that slice leaves it, having
   * told just what was told.
   */
  ghost predicate Unseen(boundary: seq<Byte>, start: Machine, data: seq<Byte>, told: seq<Note>, e: Event)
    requires Bounded(boundary, start)
  {
    var f := Feed(boundary, start, data);
    && SliceEnds(e, data) && f.ok && f.notes == told && f.m.state == StateOf(e)
  }

  /**
   * A stop that the returned size does not show, told before the call: of the calls that a run
   * never stopped would make, the last is the first to be refused, it is a non-empty slice that
   * ends the chunk, and the machine fed all of the chunk stands where that slice leaves it.
   */
  ghost predicate StopsUnseen(boundary: seq<Byte>, start: Machine, data: seq<Byte>, was: seq<Event>,
                              aborts: Callbacks)
    requires Bounded(boundary, start)
  {
    var es, f := CallsOn(boundary, start, data), Feed(boundary, start, data);
    && es != [] && aborts(was + es) && (forall k :: 0 < k < |es| ==> !aborts(was + es[..k]))
    && SliceEnds(Last(es), data) && f.ok && f.m.state == StateOf(Last(es))
  }

  /** A slice with no bytes is told only for a byte that fails a delimiter at its boundary's start. */
  ghost predicate EmptyAtBoundary(boundary: seq<Byte>, start: Machine, data: seq<Byte>, n: nat, e: Event)
    requires Bounded(boundary, start)
  {
    IsSlice(e) && e.bytes == [] ==>
      n < |data| && var s := Feed(boundary, start, data[..n]).m.state; s.DataBoundaryStart? || s.DataBoundary?
  }

  class Parser {
    const boundary: seq<Byte>
    var state: State
    var index: nat
    /** The calls made so far. */
    var trace: seq<Event>

    ghost function At(): Machine
      reads this
    {
      Machine(state, index)
    }

    ghost predicate Valid()
      reads this
    {
      Bounded(boundary, At())
    }

    /** The buffer is cut at its size; the bytes after it are cleared, so they end the string there. */
    constructor (boundaryStr: CString)
      ensures Valid() && boundary == Text(boundaryStr)[..Min(|Text(boundaryStr)|, BOUNDARY_SIZE)]
      ensures At() == START && trace == []
    {
      boundary := Text(boundaryStr)[..Min(|Text(boundaryStr)|, BOUNDARY_SIZE)];
      index := 0;
      state := Preamble;
      trace := [];
    }

    method Notify(e: Event, aborts: Callbacks) returns (stop: bool)
      modifies this`trace
      ensures trace == old(trace) + [e] && stop == aborts(trace)
    {
      trace := trace + [e];
      stop := aborts(trace);
    }

    // ---- the cases that look at one byte ----

    method Opening(c: Byte, aborts: Callbacks) returns (v: Verdict, ghost notes: seq<Note>)
      requires Valid() && PlaceOf(state) == Before
      modifies this
      ensures Valid() && Tells(old(trace), old(state), trace, state, notes, aborts)
      ensures Obeys(old(state), Switch(boundary, old(At()), c), old(trace), trace, aborts, At(), v, notes)
      ensures Made(old(trace), trace, aborts, ByteCalls(boundary, old(At()), Switch(boundary, old(At()), c)))
      ensures Aborted(old(trace), trace, aborts) ==> At() == ByteStop(old(At()))
    {
      hide Tells, Made;
      NoneTold(trace, state, aborts);
      notes := [];
      v := Advance;
      if state == Preamble {
        if c == HYPHEN {
          state := PreambleHyHy;
        }
      } else if state == PreambleHyHy {
        if c == HYPHEN {
          state := FirstBoundary;
        } else {
          state := Preamble;
        }
      } else if index == |boundary| {
        if c != CR {
          return Fail, [];
        }
        index := index + 1;
      } else if index == |boundary| + 1 {
        if c != LF {
          return Fail, [];
        }
        TwoTold(trace, state, OnBodyBegin, OnPartBegin, HeaderFieldStart, aborts);
        assert NotesOf(OnBodyBegin) + NotesOf(OnPartBegin) == [BodyBegin, PartBegin];
        assert Singles([BodyBegin, PartBegin]) == [OnBodyBegin, OnPartBegin];
        var stop := Notify(OnBodyBegin, aborts);
        if stop {
          return Fail, [BodyBegin];
        }
        stop := Notify(OnPartBegin, aborts);
        notes := [BodyBegin, PartBegin];
        if stop {
          return Fail, notes;
        }
        index := 0;
        state := HeaderFieldStart;
      } else if c == Signed(boundary[index]) {
        index := index + 1;
      } else {
        v := Fail;
      }
    }

    method LineEnd(c: Byte, aborts: Callbacks) returns (v: Verdict, ghost notes: seq<Note>)
      requires Valid() && (state == HeaderValueCr || state == HeadersDone)
      modifies this
      ensures Valid() && Tells(old(trace), old(state), trace, state, notes, aborts)
      ensures Obeys(old(state), Switch(boundary, old(At()), c), old(trace), trace, aborts, At(), v, notes)
      ensures Made(old(trace), trace, aborts, ByteCalls(boundary, old(At()), Switch(boundary, old(At()), c)))
      ensures Aborted(old(trace), trace, aborts) ==> At() == ByteStop(old(At()))
    {
      hide Tells, Made;
      NoneTold(trace, state, aborts);
      notes := [];
      if c != LF {
        return Fail, [];
      }
      v := Advance;
      if state == HeaderValueCr {
        state := HeaderFieldStart;
      } else {
        OneTold(trace, state, OnHeadersComplete, InData, aborts);
        assert Singles([HeadersComplete]) == [OnHeadersComplete];
        var stop := Notify(OnHeadersComplete, aborts);
        notes := [HeadersComplete];
        if stop {
          return Fail, notes;
        }
        state := InData;
      }
    }

    method Withheld(c: Byte, aborts: Callbacks) returns (v: Verdict, ghost notes: seq<Note>)
      requires Valid() && (state == DataCr || state == DataCrLf || state == DataCrLfHy)
      modifies this
      ensures Valid() && Tells(old(trace), old(state), trace, state, notes, aborts)
      ensures Obeys(old(state), Switch(boundary, old(At()), c), old(trace), trace, aborts, At(), v, notes)
      ensures Made(old(trace), trace, aborts, ByteCalls(boundary, old(At()), Switch(boundary, old(At()), c)))
      ensures Aborted(old(trace), trace, aborts) ==> At() == ByteStop(old(At()))
    {
      hide Tells, Made;
      NoneTold(trace, state, aborts);
      notes := [];
      v := Advance;
      var held;
      if state == DataCr {
        if c == LF {
          state := DataCrLf;
          return;
        }
        held := [CR];
      } else if state == DataCrLf {
        if c == HYPHEN {
          state := DataCrLfHy;
          return;
        }
        held := [CR, LF];
      } else {
        if c == HYPHEN {
          state := DataBoundaryStart;
          return;
        }
        held := [CR, LF, HYPHEN];
      }
      OneTold(trace, state, OnData(held), InData, aborts);
      var stop := Notify(OnData(held), aborts);
      notes := DataNotes(held);
      if stop {
        return Fail, notes;
      }
      state := InData;
      v := Again;
    }

    method Delimiting(c: Byte, aborts: Callbacks) returns (v: Verdict, ghost notes: seq<Note>)
      requires Valid() && (state == DataBoundaryStart || state == DataBoundary)
      modifies this
      ensures Valid() && Tells(old(trace), old(state), trace, state, notes, aborts)
      ensures Obeys(old(state), Switch(boundary, old(At()), c), old(trace), trace, aborts, At(), v, notes)
      ensures Made(old(trace), trace, aborts, ByteCalls(boundary, old(At()), Switch(boundary, old(At()), c)))
      ensures Aborted(old(trace), trace, aborts) ==> At() == ByteStop(old(At()))
    {
      hide Tells, Made;
      NoneTold(trace, state, aborts);
      notes := [];
      if state == DataBoundaryStart {
        index := 0;
        state := DataBoundary;
      }
      if index == |boundary| {
        index := 0;
        state := DataBoundaryDone;
        return Again, [];
      }
      if c == Signed(boundary[index]) {
        index := index + 1;
        return Advance, [];
      }
      OneTold(trace, old(state), OnData(boundary[..index]), InData, aborts);
      OneTold(trace, old(state), OnData(boundary[..index]), DataBoundary, aborts);
      var stop := Notify(OnData(boundary[..index]), aborts);
      notes := DataNotes(boundary[..index]);
      if stop {
        return Fail, notes;
      }
      state := InData;
      v := Again;
    }

    method Delimited(c: Byte, aborts: Callbacks) returns (v: Verdict, ghost notes: seq<Note>)
      requires Valid() && PastBoundary(state)
      modifies this
      ensures Valid() && Tells(old(trace), old(state), trace, state, notes, aborts)
      ensures Obeys(old(state), Switch(boundary, old(At()), c), old(trace), trace, aborts, At(), v, notes)
      ensures Made(old(trace), trace, aborts, ByteCalls(boundary, old(At()), Switch(boundary, old(At()), c)))
      ensures Aborted(old(trace), trace, aborts) ==> At() == ByteStop(old(At()))
    {
      hide Tells, Made;
      NoneTold(trace, state, aborts);
      notes := [];
      v := Advance;
      if state == DataBoundaryDone {
        if c == CR {
          state := DataBoundaryDoneCrLf;
        } else if c == HYPHEN {
          state := DataBoundaryDoneHyHy;
        } else {
          v := Fail;
        }
        return;
      }
      if state == DataBoundaryDoneCrLf && c != LF {
        return Fail, [];
      }
      if state == DataBoundaryDoneHyHy && c != HYPHEN {
        return Fail, [];
      }
      var last := if state == DataBoundaryDoneCrLf then OnPartBegin else OnBodyEnd;
      var next := if state == DataBoundaryDoneCrLf then HeaderFieldStart else Epilogue;
      TwoTold(trace, state, OnPartEnd, last, next, aborts);
      assert NotesOf(OnPartEnd) + NotesOf(last) == [PartEnd, Letter(last)];
      assert Singles([PartEnd, Letter(last)]) == [OnPartEnd, last];
      var stop := Notify(OnPartEnd, aborts);
      if stop {
        return Fail, [PartEnd];
      }
      stop := Notify(last, aborts);
      notes := [PartEnd, Letter(last)];
      if stop {
        return Fail, notes;
      }
      state := next;
    }

    // ---- the cases that look ahead ----

    method HeaderName(data: seq<Byte>, p: nat, aborts: Callbacks) returns (q: nat, v: Verdict, ghost notes: seq<Note>)
      requires Valid() && p < |data| && (state == HeaderFieldStart || state == HeaderField)
      modifies this
      ensures Valid() && Tells(old(trace), old(state), trace, state, notes, aborts) && p <= q <= |data| && !v.Again?
      ensures var stop := Aborted(old(trace), trace, aborts);
              && (stop ==> v.Fail? && StoppedBy(boundary, old(At()), data, p, q, At(), notes, Last(trace)))
              && (!stop && v.Advance? ==> Goes(boundary, old(At()), data[p..Min(q + 1, |data|)], At(), notes))
              && (!stop && v.Fail? ==> Refuses(boundary, old(At()), data, p, At(), q, notes))
      ensures Calling(boundary, old(At()), data, p, q, old(trace), trace, aborts, At(), v)
    {
      hide Tells, Feed, Calling, Made, RunLength, SliceOf, TellsByte;
      NoneTold(trace, state, aborts);
      ghost var was, m := trace, At();
      if state == HeaderFieldStart {
        if data[p] == CR {
          LastPass(boundary, At(), data, p);
          state := HeadersDone;
          SkipCalls(boundary, m, data, p, was, aborts);
          return p, Advance, [];
        }
        state := HeaderField;
      }
      var mark, c := p, data[p];
      q := p;
      while q != |data|
        invariant p <= q <= |data|
        invariant forall k :: p <= k < q ==> IsToken(data[k])
      {
        c := data[q];
        if !IsToken(c) {
          break;
        }
        q := q + 1;
      }
      notes := FieldNotes(data[p..q]);
      NameCase(boundary, old(state), index, data, p, q);
      if q > mark {
        OneTold(trace, old(state), OnHeaderField(data[mark..q]), HeaderField, aborts);
        OneTold(trace, old(state), OnHeaderField(data[mark..q]), HeaderValueStart, aborts);
        var stop := Notify(OnHeaderField(data[mark..q]), aborts);
        if stop {
          NameCalls(boundary, m, data, p, q, was, trace, aborts, At(), Fail);
          return q, Fail, notes;
        }
      } else {
        assert notes == [];
      }
      v := if q == |data| || c == COLON then Advance else Fail;
      if q < |data| && c == COLON {
        state := HeaderValueStart;
      }
      NameCalls(boundary, m, data, p, q, was, trace, aborts, At(), v);
    }

    method HeaderText(data: seq<Byte>, p: nat, aborts: Callbacks) returns (q: nat, v: Verdict, ghost notes: seq<Note>)
      requires Valid() && p < |data| && (state == HeaderValueStart || state == HeaderValue)
      modifies this
      ensures Valid() && Tells(old(trace), old(state), trace, state, notes, aborts) && p <= q <= |data|
      ensures var stop := Aborted(old(trace), trace, aborts);
              && (if stop then v.Fail? && StoppedBy(boundary, old(At()), data, p, q, At(), notes, Last(trace))
                 else v.Advance?)
              && (!stop ==> Goes(boundary, old(At()), data[p..Min(q + 1, |data|)], At(), notes))
      ensures Calling(boundary, old(At()), data, p, q, old(trace), trace, aborts, At(), v)
    {
      hide Tells, Feed, Calling, Made, RunLength, SliceOf, TellsByte;
      NoneTold(trace, state, aborts);
      ghost var was, m := trace, At();
      v := Advance;
      if state == HeaderValueStart {
        if data[p] == SP || data[p] == HT {
          LastPass(boundary, At(), data, p);
          SkipCalls(boundary, m, data, p, was, aborts);
          return p, Advance, [];
        }
        state := HeaderValue;
      }
      var mark := p;
      q := p;
      while q != |data|
        invariant p <= q <= |data| && state == HeaderValue
        invariant forall k :: p <= k < q ==> data[k] != CR
        invariant Valid() && index == old(index) && trace == old(trace)
      {
        if data[q] == CR {
          state := HeaderValueCr;
          break;
        }
        q := q + 1;
      }
      notes := ValueNotes(data[p..q]);
      ValueCase(boundary, old(state), index, data, p, q);
      if q > mark {
        OneTold(trace, old(state), OnHeaderValue(data[mark..q]), state, aborts);
        var stop := Notify(OnHeaderValue(data[mark..q]), aborts);
        if stop {
          ValueCalls(boundary, m, data, p, q, was, trace, aborts, At(), Fail);
          return q, Fail, notes;
        }
      } else {
        assert notes == [];
      }
      ValueCalls(boundary, m, data, p, q, was, trace, aborts, At(), Advance);
    }

    method BodyData(data: seq<Byte>, p: nat, aborts: Callbacks) returns (q: nat, v: Verdict, ghost notes: seq<Note>)
      requires Valid() && p < |data| && state == InData
      modifies this
      ensures Valid() && Tells(old(trace), old(state), trace, state, notes, aborts) && p <= q <= |data|
      ensures var stop := Aborted(old(trace), trace, aborts);
              && (if stop then v.Fail? && StoppedBy(boundary, old(At()), data, p, q, At(), notes, Last(trace))
                 else v.Advance?)
              && (!stop ==> Goes(boundary, old(At()), data[p..Min(q + 1, |data|)], At(), notes))
      ensures Calling(boundary, old(At()), data, p, q, old(trace), trace, aborts, At(), v)
    {
      hide Tells, Feed, Calling, Made, RunLength, SliceOf, TellsByte;
      NoneTold(trace, state, aborts);
      ghost var was, m := trace, At();
      v := Advance;
      var mark := p;
      q := p;
      while q != |data|
        invariant p <= q <= |data| && state == InData
        invariant forall k :: p <= k < q ==> data[k] != CR
        invariant Valid() && At() == old(At()) && trace == old(trace)
      {
        if data[q] == CR {
          state := DataCr;
          break;
        }
        q := q + 1;
      }
      notes := DataNotes(data[p..q]);
      DataRun(boundary, index, data, p, q);
      if q > mark {
        OneTold(trace, old(state), OnData(data[mark..q]), state, aborts);
        var stop := Notify(OnData(data[mark..q]), aborts);
        if stop {
          DataCalls(boundary, m, data, p, q, was, trace, aborts, At(), Fail);
          return q, Fail, notes;
        }
      } else {
        assert notes == [];
      }
      DataCalls(boundary, m, data, p, q, was, trace, aborts, At(), Advance);
    }

    // ---- the loop ----

    /** The cases that look at one byte only. */
    method OneByte(c: Byte, aborts: Callbacks) returns (v: Verdict, ghost notes: seq<Note>)
      requires Valid() && !LooksAhead(state)
      modifies this
      ensures Valid() && Tells(old(trace), old(state), trace, state, notes, aborts)
      ensures Obeys(old(state), Switch(boundary, old(At()), c), old(trace), trace, aborts, At(), v, notes)
      ensures Made(old(trace), trace, aborts, ByteCalls(boundary, old(At()), Switch(boundary, old(At()), c)))
      ensures Aborted(old(trace), trace, aborts) ==> At() == ByteStop(old(At()))
    {
      hide Switch, Tells, Made, ByteCalls;
      if PlaceOf(state) == Before {
        v, notes := Opening(c, aborts);
      } else if state == HeaderValueCr || state == HeadersDone {
        v, notes := LineEnd(c, aborts);
      } else if state == DataCr || state == DataCrLf || state == DataCrLfHy {
        v, notes := Withheld(c, aborts);
      } else if state == DataBoundaryStart || state == DataBoundary {
        v, notes := Delimiting(c, aborts);
      } else if PastBoundary(state) {
        v, notes := Delimited(c, aborts);
      } else {
        EpilogueStays(boundary, At(), c);
        NoneTold(trace, state, aborts);
        NothingCalled(boundary, At());
        v, notes := Advance, [];
      }
    }

    /** One pass through the switch, with the bytes its case consumes. */
    method Pass(data: seq<Byte>, p: nat, aborts: Callbacks) returns (q: nat, v: Verdict, ghost notes: seq<Note>)
      requires Valid() && p < |data|
      modifies this
      ensures Valid() && Tells(old(trace), old(state), trace, state, notes, aborts) && p <= q <= |data|
      ensures var stop := Aborted(old(trace), trace, aborts);
              && (stop ==> v.Fail? && StoppedBy(boundary, old(At()), data, p, q, At(), notes, Last(trace)))
              && (!stop && v.Advance? ==> Goes(boundary, old(At()), data[p..Min(q + 1, |data|)], At(), notes))
              && (!stop && v.Fail? ==> Refuses(boundary, old(At()), data, p, At(), q, notes))
      ensures v.Again? ==> q == p && Switch(boundary, old(At()), data[p]) == Turn(At(), notes, Again)
      ensures v.Again? ==> MayReexecute(old(state)) && !MayReexecute(state)
      ensures Calling(boundary, old(At()), data, p, q, old(trace), trace, aborts, At(), v)
    {
      hide Goes, Refuses, Tells, Feed, Switch, Bounded, Releasing, Made, Calling, ByteCalls;
      if state == HeaderFieldStart || state == HeaderField {
        q, v, notes := HeaderName(data, p, aborts);
      } else if state == HeaderValueStart || state == HeaderValue {
        q, v, notes := HeaderText(data, p, aborts);
      } else if state == InData {
        q, v, notes := BodyData(data, p, aborts);
      } else {
        LastPass(boundary, At(), data, p);
        AgainOnlyFrom(boundary, At(), data[p]);
        ghost var was, m := trace, At();
        v, notes := OneByte(data[p], aborts);
        q := p;
        ByteCalling(boundary, m, data, p, was, trace, aborts, At(), v, notes);
      }
    }

    /**
     * Unless a callback stops it, the parser feeds the chunk to the machine, its calls tell what
     * the machine tells, and the result counts the bytes accepted. Stopped, it has told all that
     * the bytes before the returned offset tell, and part of what the byte there tells. Its
     * calls are those of a run that is never stopped, up to the first that is refused, and the
     * state is the one that this call leaves.
     */
    method Execute(data: seq<Byte>, aborts: Callbacks) returns (n: nat, ghost told: seq<Note>)
      requires Valid()
      modifies this
      ensures Valid() && Tells(old(trace), old(state), trace, state, told, aborts)
      ensures !Aborted(old(trace), trace, aborts) ==> Feed(boundary, old(At()), data) == Fed(At(), told, n, n == |data|)
      ensures Aborted(old(trace), trace, aborts) ==> StoppedAt(boundary, old(At()), data, n, told)
      ensures Aborted(old(trace), trace, aborts) ==>
              && (n == |data| <==> Unseen(boundary, old(At()), data, told, Last(trace)))
              && EmptyAtBoundary(boundary, old(At()), data, n, Last(trace))
      ensures Aborted(old(trace), trace, aborts) && n == |data| ==>
              Feed(boundary, old(At()), data) == Fed(At(), told, n, true)
      ensures Made(old(trace), trace, aborts, CallsOn(boundary, old(At()), data))
      ensures Aborted(old(trace), trace, aborts) ==> LeftBy(boundary, old(At()), data, old(trace), trace, At())
      ensures Aborted(old(trace), trace, aborts) && n == |data| <==>
              StopsUnseen(boundary, old(At()), data, old(trace), aborts)
    {
      hide Goes, Refuses, Within, Feed, Switch, Tells, StoppedBy, StoppedAt, Aborted, Unseen, EmptyAtBoundary;
      hide Calling, InStep, Made, StopsUnseen, CallsOn, StopsOn, LeftBy;
      var p := 0;
      told := [];
      NoneTold(trace, state, aborts);
      GoesNowhere(boundary, At(), data);
      ghost var was, start := trace, At();
      InStepAtFirst(boundary, start, data, was);
      while p < |data|
        invariant Valid() && Tells(old(trace), old(state), trace, state, told, aborts)
        invariant !Aborted(old(trace), trace, aborts)
        invariant Goes(boundary, old(At()), data[..Min(p, |data|)], At(), told)
        invariant InStep(boundary, start, data, was, trace, At(), data[Min(p, |data|)..])
      {
        ghost var here, b, before := p, At(), told;
        ghost var first: seq<Note> := [];
        WithinBegins(boundary, b, data[p]);
        var again := true;
        while again
          invariant Valid() && Tells(old(trace), old(state), trace, state, told, aborts)
          invariant !Aborted(old(trace), trace, aborts)
          invariant if again then p == here && told == before + first && Within(boundary, b, data[here], At(), first)
                    else p > here && Goes(boundary, old(At()), data[..Min(p, |data|)], At(), told)
          invariant (first == [] && At() == b) || !again || !MayReexecute(state)
          invariant InStep(boundary, start, data, was, trace, At(), data[Min(p, |data|)..])
          decreases again, MayReexecute(state)
        {
          ghost var m, t, s := At(), trace, state;
          var q, v, notes := Pass(data, p, aborts);
          TellsOn(old(trace), old(state), t, s, told, trace, state, notes, aborts);
          told := told + notes;
          CallingOn(boundary, start, data, was, t, m, here, q, trace, aborts, At(), v);
          ghost var stop := Aborted(t, trace, aborts);
          if stop {
            AbortedIsACall(t, trace, aborts);
            StopMeans(boundary, old(At()), data, p, b, before, m, first, q, At(), notes, Last(trace));
          }
          if v == Fail {
            if !stop {
              PassFails(boundary, old(At()), data, p, b, before, m, first, q, At(), notes);
            }
            StopsUnseenIff(boundary, start, data, was, trace, state, aborts, q, told);
            return q, told;
          }
          if v == Again {
            first := notes;
          } else {
            PassGoes(boundary, old(At()), data, p, b, before, m, first, Min(q + 1, |data|), At(), notes);
          }
          again := v == Again;
          p := if again then q else q + 1;
        }
      }
      GoesAll(boundary, old(At()), data, At(), told);
      n := |data|;
      NothingToCome(boundary, start, data, was, trace, aborts, At());
      StopsUnseenIff(boundary, start, data, was, trace, state, aborts, n, told);
    }
  }

  // ---- the calls of a run that is never stopped ----

  lemma NothingCalled(boundary: seq<Byte>, m: Machine)
    requires Bounded(boundary, m)
    ensures ByteCalls(boundary, m, Turn(m, [], Advance)) == []
  {
  }

  lemma NoneTellingTells(boundary: seq<Byte>, m: Machine, c: Byte)
    requires Bounded(boundary, m) && LooksAhead(m.state) && !TellsByte(m.state, c)
    ensures Switch(boundary, m, c).notes == [] && !Switch(boundary, m, c).verdict.Again?
  {
  }

  lemma AfterRun(s: State, data: seq<Byte>, p: nat, q: nat)
    requires p <= q < |data| && RunLength(s, data[p..]) == q - p
    ensures !TellsByte(if p < q then SliceState(s) else s, data[q])
  {
    if p < q {
      RunEnds(s, data[p..]);
      assert data[p..][q - p..] == data[q..];
    }
    assert data[q..][0] == data[q];
  }

  /** A case that looks ahead makes the next of the chunk's calls. */
  lemma LookAhead(boundary: seq<Byte>, m: Machine, data: seq<Byte>, p: nat, q: nat, was: seq<Event>, now: seq<Event>,
                  aborts: Callbacks, m': Machine, v: Verdict)
    requires Bounded(boundary, m) && Bounded(boundary, m') && LooksAhead(m.state) && p < |data| && p <= q <= |data|
    requires RunLength(m.state, data[p..]) == q - p
    requires now == was + if p < q then [SliceOf(m.state, data[p..q])] else []
    requires Aborted(was, now, aborts) ==> m' == SliceStop(m, q == |data|)
    requires !Aborted(was, now, aborts) ==>
               if q == |data| then v.Advance?
               else
                 var m1 := if p < q then m.(state := SliceState(m.state)) else m;
                 Bounded(boundary, m1) && !v.Again? && Switch(boundary, m1, data[q]) == Turn(m', [], v)
    ensures Calling(boundary, m, data, p, q, was, now, aborts, m', v)
  {
    hide Switch, SliceOf, Bounded, CallsOn, StopsOn;
    var m1 := if p < q then m.(state := SliceState(m.state)) else m;
    SliceStateBounded(boundary, m);
    if q < |data| {
      AfterRun(m.state, data, p, q);
      NoneTellingTells(boundary, m1, data[q]);
      var t := Switch(boundary, m1, data[q]);
      SliceCalls(boundary, m, data, p, q, t.m, t.verdict);
    } else {
      SliceCalls(boundary, m, data, p, q, m', Advance);
      NoBytesNoCalls(boundary, m');
      assert data[|data|..] == [];
    }
    var es := if p < q then [SliceOf(m.state, data[p..q])] else [];
    assert (was + es)[|was|..] == es && es + [] == es;
  }

  /** So does a case that looks at one byte. */
  lemma ByteCalling(boundary: seq<Byte>, m: Machine, data: seq<Byte>, p: nat, was: seq<Event>, now: seq<Event>,
                    aborts: Callbacks, m': Machine, v: Verdict, notes: seq<Note>)
    requires Bounded(boundary, m) && Bounded(boundary, m') && !LooksAhead(m.state) && p < |data|
    requires Made(was, now, aborts, ByteCalls(boundary, m, Switch(boundary, m, data[p])))
    requires Obeys(m.state, Switch(boundary, m, data[p]), was, now, aborts, m', v, notes)
    requires Aborted(was, now, aborts) ==> m' == ByteStop(m)
    ensures Calling(boundary, m, data, p, p, was, now, aborts, m', v)
  {
    hide Switch, Bounded, CallsOn, StopsOn, ByteCalls;
    var d, t := data[p..], Switch(boundary, m, data[p]);
    assert RunLength(m.state, d) == 0;
    assert d[0] == data[p] && d[1..] == data[p + 1..];
    NoSlice(boundary, m, d);
    var es := ByteCalls(boundary, m, t);
    assert (was + es)[|was|..] == es && es + [] == es;
    assert now[|was|..] <= es ==> now[|was|..] <= CallsOn(boundary, m, d);
  }

  lemma NameCalls(boundary: seq<Byte>, m: Machine, data: seq<Byte>, p: nat, q: nat, was: seq<Event>, now: seq<Event>,
                  aborts: Callbacks, m': Machine, v: Verdict)
    requires Bounded(boundary, m) && (m.state == HeaderFieldStart || m.state == HeaderField)
    requires p < |data| && p <= q <= |data| && (m.state == HeaderFieldStart ==> data[p] != CR)
    requires (forall k :: p <= k < q ==> IsToken(data[k])) && (q < |data| ==> !IsToken(data[q]))
    requires now == was + if p < q then [OnHeaderField(data[p..q])] else []
    requires Aborted(was, now, aborts) || q == |data| ==> m' == m.(state := HeaderField)
    requires !Aborted(was, now, aborts) ==>
               if q == |data| then v == Advance
               else if data[q] == COLON then v == Advance && m' == m.(state := HeaderValueStart)
               else v == Fail && m' == m.(state := HeaderField)
    ensures Calling(boundary, m, data, p, q, was, now, aborts, m', v)
  {
    hide IsToken;
    RunIs(m.state, data, p, q);
    LookAhead(boundary, m, data, p, q, was, now, aborts, m', v);
  }

  lemma ValueCalls(boundary: seq<Byte>, m: Machine, data: seq<Byte>, p: nat, q: nat, was: seq<Event>,
                   now: seq<Event>, aborts: Callbacks, m': Machine, v: Verdict)
    requires Bounded(boundary, m) && (m.state == HeaderValueStart || m.state == HeaderValue)
    requires p < |data| && p <= q <= |data| && (m.state == HeaderValueStart ==> data[p] != SP && data[p] != HT)
    requires (forall k :: p <= k < q ==> data[k] != CR) && (q < |data| ==> data[q] == CR)
    requires now == was + if p < q then [OnHeaderValue(data[p..q])] else []
    requires m' == m.(state := if q == |data| then HeaderValue else HeaderValueCr)
    requires !Aborted(was, now, aborts) ==> v == Advance
    ensures Calling(boundary, m, data, p, q, was, now, aborts, m', v)
  {
    RunIs(m.state, data, p, q);
    LookAhead(boundary, m, data, p, q, was, now, aborts, m', v);
  }

  lemma DataCalls(boundary: seq<Byte>, m: Machine, data: seq<Byte>, p: nat, q: nat, was: seq<Event>,
                  now: seq<Event>, aborts: Callbacks, m': Machine, v: Verdict)
    requires Bounded(boundary, m) && m.state == InData && p < |data| && p <= q <= |data|
    requires (forall k :: p <= k < q ==> data[k] != CR) && (q < |data| ==> data[q] == CR)
    requires now == was + if p < q then [OnData(data[p..q])] else []
    requires m' == m.(state := if q == |data| then InData else DataCr)
    requires !Aborted(was, now, aborts) ==> v == Advance
    ensures Calling(boundary, m, data, p, q, was, now, aborts, m', v)
  {
    RunIs(m.state, data, p, q);
    LookAhead(boundary, m, data, p, q, was, now, aborts, m', v);
  }

  /** A byte that leads a state with a slice to one without, and tells nothing. */
  lemma SkipCalls(boundary: seq<Byte>, m: Machine, data: seq<Byte>, p: nat, was: seq<Event>, aborts: Callbacks)
    requires Bounded(boundary, m) && p < |data|
    requires (m.state == HeaderFieldStart && data[p] == CR) ||
             (m.state == HeaderValueStart && (data[p] == SP || data[p] == HT))
    ensures var m' := m.(state := if m.state == HeaderFieldStart then HeadersDone else HeaderValueStart);
            Calling(boundary, m, data, p, p, was, was, aborts, m', Advance)
  {
    var m' := m.(state := if m.state == HeaderFieldStart then HeadersDone else HeaderValueStart);
    RunIs(m.state, data, p, p);
    LookAhead(boundary, m, data, p, p, was, was, aborts, m', Advance);
  }

  lemma InStepAtFirst(boundary: seq<Byte>, m: Machine, data: seq<Byte>, was: seq<Event>)
    requires Bounded(boundary, m)
    ensures InStep(boundary, m, data, was, was, m, data[Min(0, |data|)..])
  {
    hide CallsOn;
    assert data[0..] == data && [] + CallsOn(boundary, m, data) == CallsOn(boundary, m, data);
  }

  lemma MadeInTwo<T>(was: seq<T>, t: seq<T>, now: seq<T>)
    requires was <= t <= now
    ensures now[|was|..] == t[|was|..] + now[|t|..] && now == was + now[|was|..]
  {
  }

  lemma PrefixLater<T>(a: seq<T>, b: seq<T>, rest: seq<T>)
    requires b <= rest
    ensures a + b <= a + rest
  {
  }

  lemma CallingStopped(boundary: seq<Byte>, start: Machine, data: seq<Byte>, was: seq<Event>, t: seq<Event>,
                       m: Machine, p: nat, q: nat, now: seq<Event>, aborts: Callbacks, m': Machine, v: Verdict)
    requires p < |data| && InStep(boundary, start, data, was, t, m, data[Min(p, |data|)..])
    requires Aborted(t, now, aborts) && Calling(boundary, m, data, p, q, t, now, aborts, m', v)
    requires Aborted(was, now, aborts)
    ensures Made(was, now, aborts, CallsOn(boundary, start, data))
    ensures LeftBy(boundary, start, data, was, now, m')
    ensures q == |data| ==> now == was + CallsOn(boundary, start, data)
  {
    hide CallsOn, StopsOn, Bounded, LeftBy, Aborted;
    MadeInTwo(was, t, now);
    PrefixLater(t[|was|..], now[|t|..], CallsOn(boundary, m, data[p..]));
    LeftByLater(boundary, start, data, was, t, m, data[p..], now, m');
  }

  lemma CallingFailed(boundary: seq<Byte>, start: Machine, data: seq<Byte>, was: seq<Event>, t: seq<Event>,
                      m: Machine, p: nat, q: nat, now: seq<Event>, aborts: Callbacks, m': Machine, v: Verdict)
    requires p < |data| && InStep(boundary, start, data, was, t, m, data[Min(p, |data|)..])
    requires !Aborted(t, now, aborts) && Calling(boundary, m, data, p, q, t, now, aborts, m', v) && v.Fail?
    ensures Made(was, now, aborts, CallsOn(boundary, start, data))
  {
    hide CallsOn, StopsOn, Bounded, Aborted;
    MadeInTwo(was, t, now);
  }

  lemma CallingGoes(boundary: seq<Byte>, start: Machine, data: seq<Byte>, was: seq<Event>, t: seq<Event>, m: Machine,
                    p: nat, q: nat, now: seq<Event>, aborts: Callbacks, m': Machine, v: Verdict)
    requires p < |data| && InStep(boundary, start, data, was, t, m, data[Min(p, |data|)..])
    requires !Aborted(t, now, aborts) && Calling(boundary, m, data, p, q, t, now, aborts, m', v) && !v.Fail?
    ensures InStep(boundary, start, data, was, now, m', if v.Again? then data[p..] else data[Min(q + 1, |data|)..])
  {
    hide CallsOn, StopsOn, Bounded, Aborted;
    var d := if v.Again? then data[p..] else data[Min(q + 1, |data|)..];
    MadeInTwo(was, t, now);
    AppendTwice(t[|was|..], now[|t|..], CallsOn(boundary, m', d));
    DropTwice(StopsOn(boundary, start, data), |t| - |was|, |now| - |t|);
  }

  /** Passes in a row. */
  lemma CallingOn(boundary: seq<Byte>, start: Machine, data: seq<Byte>, was: seq<Event>, t: seq<Event>, m: Machine,
                  p: nat, q: nat, now: seq<Event>, aborts: Callbacks, m': Machine, v: Verdict)
    requires p < |data| && InStep(boundary, start, data, was, t, m, data[Min(p, |data|)..])
    requires !Aborted(was, t, aborts) && Calling(boundary, m, data, p, q, t, now, aborts, m', v)
    ensures v.Fail? || Aborted(t, now, aborts) ==> Made(was, now, aborts, CallsOn(boundary, start, data))
    ensures Aborted(t, now, aborts) ==> LeftBy(boundary, start, data, was, now, m')
    ensures Aborted(t, now, aborts) && q == |data| ==> now == was + CallsOn(boundary, start, data)
    ensures !Aborted(t, now, aborts) && v.Again? ==> InStep(boundary, start, data, was, now, m', data[p..])
    ensures !Aborted(t, now, aborts) && v.Advance? ==>
              InStep(boundary, start, data, was, now, m', data[Min(q + 1, |data|)..])
  {
    hide CallsOn, StopsOn, Bounded, LeftBy, Aborted, Made;
    AbortedLater(was, t, now, aborts);
    if Aborted(t, now, aborts) {
      CallingStopped(boundary, start, data, was, t, m, p, q, now, aborts, m', v);
    } else if v.Fail? {
      CallingFailed(boundary, start, data, was, t, m, p, q, now, aborts, m', v);
    } else {
      CallingGoes(boundary, start, data, was, t, m, p, q, now, aborts, m', v);
    }
  }

  lemma LeftByLater(boundary: seq<Byte>, start: Machine, data: seq<Byte>, was: seq<Event>, t: seq<Event>, m: Machine,
                    d: seq<Byte>, now: seq<Event>, m': Machine)
    requires Bounded(boundary, start) && Bounded(boundary, m) && was <= t <= now
    requires |t| - |was| <= |StopsOn(boundary, start, data)|
    requires StopsOn(boundary, start, data)[|t| - |was|..] == StopsOn(boundary, m, d)
    requires LeftBy(boundary, m, d, t, now, m')
    ensures LeftBy(boundary, start, data, was, now, m')
  {
    hide StopsOn, Bounded;
    var i, k := |t| - |was|, |now| - |t|;
    assert StopsOn(boundary, start, data)[i..][k - 1] == StopsOn(boundary, start, data)[i + k - 1];
  }

  lemma DropTwice<T>(s: seq<T>, i: nat, j: nat)
    requires i + j <= |s|
    ensures s[i..][j..] == s[i + j..]
  {
  }

  lemma AbortedLater(was: seq<Event>, t: seq<Event>, now: seq<Event>, aborts: Callbacks)
    requires was <= t <= now && !Aborted(was, t, aborts)
    ensures Aborted(was, now, aborts) <==> Aborted(t, now, aborts)
  {
    if |t| == |now| {
      assert t == now;
    }
  }

  lemma NothingToCome(boundary: seq<Byte>, start: Machine, data: seq<Byte>, was: seq<Event>, now: seq<Event>,
                      aborts: Callbacks, m: Machine)
    requires InStep(boundary, start, data, was, now, m, data[|data|..])
    ensures Made(was, now, aborts, CallsOn(boundary, start, data))
  {
    hide CallsOn;
    NoBytesNoCalls(boundary, m);
    assert data[|data|..] == [] && now == was + now[|was|..] && now[|was|..] + [] == now[|was|..];
  }

  lemma StopsUnseenIff(boundary: seq<Byte>, start: Machine, data: seq<Byte>, was: seq<Event>, now: seq<Event>,
                       s: State, aborts: Callbacks, n: nat, told: seq<Note>)
    requires Bounded(boundary, start) && Tells(was, start.state, now, s, told, aborts)
    requires Made(was, now, aborts, CallsOn(boundary, start, data))
    requires Aborted(was, now, aborts) ==>
               && now != [] && (n == |data| <==> Unseen(boundary, start, data, told, Last(now)))
               && (n == |data| ==> now == was + CallsOn(boundary, start, data))
    ensures Aborted(was, now, aborts) && n == |data| <==> StopsUnseen(boundary, start, data, was, aborts)
  {
    hide CallsOn, Feed, PlaceAfter, PlaceOf, Flat;
    var es := CallsOn(boundary, start, data);
    CallsTell(boundary, start, data);
    FlatConcat(was, es);
    assert forall k :: 0 < k < |es| ==> (was + es)[..|was| + k] == was + es[..k];
    if Aborted(was, now, aborts) && n == |data| {
      assert Last(now) == Last(es);
    }
    if StopsUnseen(boundary, start, data, was, aborts) {
      var k := |now| - |was|;
      assert now == was + now[|was|..] && now[|was|..] == es[..k];
      if k == |es| {
        assert now == was + es && Last(now) == Last(es);
        SameTail(Flat(was), told, Flat(es));
      }
    }
  }

  /** What a stop in a pass means for the whole chunk. */
  lemma StopMeans(boundary: seq<Byte>, start: Machine, data: seq<Byte>, p: nat, b: Machine, told: seq<Note>,
                  m: Machine, first: seq<Note>, q: nat, m': Machine, notes: seq<Note>, e: Event)
    requires p < |data| && Goes(boundary, start, data[..p], b, told) && Within(boundary, b, data[p], m, first)
    requires StoppedBy(boundary, m, data, p, q, m', notes, e)
    ensures StoppedAt(boundary, start, data, q, told + first + notes)
    ensures q == |data| ==> Feed(boundary, start, data) == Fed(m', told + first + notes, q, true)
    ensures q == |data| <==> Unseen(boundary, start, data, told + first + notes, e)
    ensures EmptyAtBoundary(boundary, start, data, q, e)
  {
    hide Within, Feed, Switch;
    PassStops(boundary, start, data, p, b, told, m, first, q, notes);
    if q == |data| {
      PassGoes(boundary, start, data, p, b, told, m, first, q, m', notes);
      GoesAll(boundary, start, data, m', told + first + notes);
    } else if IsSlice(e) {
      AbortIsSeen(boundary, start, data, p, b, told, m, first, q, notes);
    }
    ReleaseIsFirst(boundary, b, data[p], m, first);
  }

  /** A pass that may release is the first on its byte. */
  lemma ReleaseIsFirst(boundary: seq<Byte>, b: Machine, c: Byte, m: Machine, first: seq<Note>)
    requires Within(boundary, b, c, m, first)
    ensures MayReexecute(m.state) ==> m == b
  {
    AgainOnlyFrom(boundary, b, c);
  }

  /**
   * Any body bytes without a CR that end a chunk, told to a callback that stops: the size returned
   * does not show it.
   */
  lemma UnseenHappens(boundary: seq<Byte>, i: nat, bytes: seq<Byte>)
    requires bytes != [] && CR !in bytes && i <= |boundary| + 1
    ensures Unseen(boundary, Machine(InData, i), bytes, DataNotes(bytes), OnData(bytes))
  {
    DataGoes(boundary, Machine(InData, i), bytes);
  }

  lemma AbortedIsACall(was: seq<Event>, now: seq<Event>, aborts: Callbacks)
    requires Aborted(was, now, aborts)
    ensures now != []
  {
  }

  lemma SecondCallIsHeard(was: seq<Event>, now: seq<Event>, aborts: Callbacks)
    requires Heard(was, now, aborts)
    ensures |now| > |was| + 1 ==> !aborts(now[..|was| + 1])
  {
  }

  lemma NoCallTellsNothing(was: seq<Event>, now: seq<Event>, told: seq<Note>)
    requires was <= now && Flat(now) == Flat(was) + told
    ensures |now| == |was| ==> now == was && told == []
  {
    if |now| == |was| {
      assert now == was && Flat(was) + [] == Flat(was);
      SameTail(Flat(was), told, []);
    }
  }

  /** With callbacks that always stop, telling something is one call, and what it tells is what is told. */
  lemma OneCall(was: seq<Event>, s: State, now: seq<Event>, s': State, told: seq<Note>, always: Callbacks)
                returns (e: Event)
    requires Tells(was, s, now, s', told, always) && (forall t :: always(t)) && (told != [] || was != now)
    ensures Aborted(was, now, always) && now == was + [e] && told == NotesOf(e)
  {
    hide NotesOf, PlaceAfter, Flat;
    NoCallTellsNothing(was, now, told);
    SecondCallIsHeard(was, now, always);
    e := Last(now);
    assert now == was + [e];
    FlatOne(was, e);
    SameTail(Flat(was), told, NotesOf(e));
  }

  lemma SameTail<T>(a: seq<T>, x: seq<T>, y: seq<T>)
    requires a + x == a + y
    ensures x == y
  {
    assert (a + x)[|a|..] == x && (a + y)[|a|..] == y;
  }

  /** A call that tells one data byte is a slice of that byte; one that tells nothing is an empty slice. */
  lemma CallOf(e: Event, c: Byte)
    ensures NotesOf(e) == [DataByte(c)] ==> e == OnData([c])
    ensures NotesOf(e) == [] ==> IsSlice(e) && e.bytes == []
  {
    match e
    case OnHeaderField(bytes) => assert bytes != [] ==> FieldNotes(bytes)[0].FieldByte?;
    case OnHeaderValue(bytes) => assert bytes != [] ==> ValueNotes(bytes)[0].ValueByte?;
    case OnData(bytes) => assert bytes != [] ==> DataNotes(bytes)[0] == DataByte(bytes[0]);
    case _ =>
  }

  lemma OneByteFed(boundary: seq<Byte>, m: Machine, c: Byte)
    requires m.state.InData? && c != CR && Bounded(boundary, m)
    ensures [c][..0] == [] && [c][..1] == [c] && [c][0..] == [c]
    ensures Feed(boundary, m, []) == Fed(m, [], 0, true) && Feed(boundary, m, [c]) == Fed(m, [DataByte(c)], 1, true)
  {
    DataByteGoes(boundary, m, c);
  }

  /** One data byte, and callbacks that always stop: what the contract of `Execute` says of that. */
  lemma OneByteUnseen(boundary: seq<Byte>, m: Machine, c: Byte, was: seq<Event>, now: seq<Event>, told: seq<Note>,
                      n: nat, m': Machine, always: Callbacks)
    requires m.state.InData? && c != CR && Bounded(boundary, m)
    requires Tells(was, m.state, now, m'.state, told, always) && forall t :: always(t)
    requires Aborted(was, now, always) || Feed(boundary, m, [c]) == Fed(m', told, n, n == 1)
    requires Aborted(was, now, always) ==>
               && now != [] && StoppedAt(boundary, m, [c], n, told)
               && (n == 1 <==> Unseen(boundary, m, [c], told, Last(now))) &&
                  EmptyAtBoundary(boundary, m, [c], n, Last(now))
    requires Aborted(was, now, always) && n == 1 ==> Feed(boundary, m, [c]) == Fed(m', told, n, true)
    ensures n == 1 && now == was + [OnData([c])] && m' == m
  {
    hide Feed, Tells, NotesOf, Bounded;
    OneByteFed(boundary, m, c);
    assert Aborted(was, now, always) ==> was != now;
    var e := OneCall(was, m.state, now, m'.state, told, always);
    CallOf(e, c);
    assert Last(now) == e;
  }

  /**
   * The least such chunk, on the parser itself: it returns 1 for 1 byte, and nothing but the call
   * tells of the stop.
   */
  method AbortGoesUnseen(parser: Parser, c: Byte) returns (n: nat)
    requires parser.Valid() && parser.state == InData && c != CR
    modifies parser
    ensures n == 1 && parser.trace == old(parser.trace) + [OnData([c])] && parser.At() == old(parser.At())
  {
    hide Feed, Tells, StoppedAt, Unseen, EmptyAtBoundary;
    ghost var was, m := parser.trace, parser.At();
    var always: Callbacks := _ => true;
    ghost var told;
    n, told := parser.Execute([c], always);
    OneByteUnseen(parser.boundary, m, c, was, parser.trace, told, n, parser.At(), always);
  }

  /** Cases in a row. */
  lemma TellsOn(a: seq<Event>, s: State, b: seq<Event>, t: State, x: seq<Note>, c: seq<Event>, u: State, y: seq<Note>,
                aborts: Callbacks)
    requires Tells(a, s, b, t, x, aborts) && !Aborted(a, b, aborts) && Tells(b, t, c, u, y, aborts)
    ensures Tells(a, s, c, u, x + y, aborts) && (Aborted(a, c, aborts) <==> Aborted(b, c, aborts))
  {
    hide Heard, Flat, PlaceAfter, PlaceOf;
    HeardOn(a, b, c, aborts);
    assert Flat(a) + x + y == Flat(a) + (x + y);
  }

  /** A case that makes no call. */
  lemma NoneTold(was: seq<Event>, s: State, aborts: Callbacks)
    ensures forall s': State :: PlaceOf(s') == PlaceOf(s) ==> Tells(was, s, was, s', [], aborts)
    ensures !Aborted(was, was, aborts) && Made(was, was, aborts, []) && Singles([]) == []
  {
    assert Flat(was) + [] == Flat(was);
  }

  /** A case that makes one call, and then, unless stopped, moves to `s'`. */
  lemma OneTold(was: seq<Event>, s: State, e: Event, s': State, aborts: Callbacks)
    requires Follow(PlaceOf(s), Letter(e)) == Some(PlaceOf(s'))
    ensures Tells(was, s, was + [e], s', NotesOf(e), aborts)
    ensures aborts(was + [e]) ==> Tells(was, s, was + [e], s, NotesOf(e), aborts)
    ensures Made(was, was + [e], aborts, [e])
  {
    hide Flat, Follow, Letter, NotesOf, PlaceAfter, PlaceOf, Heard;
    HeardShort(was, e, e, aborts);
    PlaceAfterOne(was, e);
    FlatOne(was, e);
  }

  /** A case that makes two calls. */
  lemma TwoTold(was: seq<Event>, s: State, e: Event, f: Event, s': State, aborts: Callbacks)
    requires Follow(PlaceOf(s), Letter(e)).Some?
    requires Follow(Follow(PlaceOf(s), Letter(e)).value, Letter(f)) == Some(PlaceOf(s'))
    ensures if aborts(was + [e]) then Tells(was, s, was + [e], s, NotesOf(e), aborts)
            else Tells(was, s, was + [e] + [f], s', NotesOf(e) + NotesOf(f), aborts)
    ensures !aborts(was + [e]) && aborts(was + [e] + [f]) ==>
            Tells(was, s, was + [e] + [f], s, NotesOf(e) + NotesOf(f), aborts)
    ensures Made(was, if aborts(was + [e]) then was + [e] else was + [e] + [f], aborts, [e, f])
  {
    hide Flat, Follow, Letter, NotesOf, PlaceAfter, PlaceOf, Heard;
    HeardShort(was, e, f, aborts);
    PlaceAfterOne(was, e);
    PlaceAfterOne(was + [e], f);
    FlatOne(was, e);
    FlatOne(was + [e], f);
    assert Flat(was) + NotesOf(e) + NotesOf(f) == Flat(was) + (NotesOf(e) + NotesOf(f));
  }

  /**
   * Whatever the chunks, and whatever the callbacks of each call return, the calls a new parser
   * has made up to the first abort are a prefix of the grammar.
   */
  lemma {:induction false} CallsFollowGrammar(traces: seq<seq<Event>>, states: seq<State>, told: seq<seq<Note>>,
                                              callbacks: seq<Callbacks>)
    requires |traces| == |states| == |told| + 1 == |callbacks| + 1 && traces[0] == [] && states[0] == Preamble
    requires forall i :: 0 <= i < |told| ==>
               Tells(traces[i], states[i], traces[i + 1], states[i + 1], told[i], callbacks[i])
    requires forall i :: 0 <= i < |told| - 1 ==> !Aborted(traces[i], traces[i + 1], callbacks[i])
    ensures IsPrefixOfGrammar(Letters(traces[|told|]))
    ensures told == [] || !Aborted(traces[|told| - 1], traces[|told|], callbacks[|told| - 1]) ==>
            PlaceAfter(traces[|told|]) == Some(PlaceOf(states[|told|]))
    decreases |told|
  {
    var n := |told|;
    if n == 0 {
      assert Letters([]) == [];
    } else {
      CallsFollowGrammar(traces[..n], states[..n], told[..n - 1], callbacks[..n - 1]);
      assert Tells(traces[n - 1], states[n - 1], traces[n], states[n], told[n - 1], callbacks[n - 1]);
    }
    FollowedIsPrefix(Letters(traces[n]));
  }
}
