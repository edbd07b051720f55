/**
 * The state machine that both multipart parsers implement, one byte at a time, and what it
 * tells its owner. Data that the parsers report in slices is told byte by byte here.
 */
module MultipartMachine {
  import opened Bytes

  datatype State =
    | Preamble | PreambleHyHy | FirstBoundary
    | HeaderFieldStart | HeaderField | HeaderValueStart | HeaderValue | HeaderValueCr | HeadersDone
    | InData | DataCr | DataCrLf | DataCrLfHy
    | DataBoundaryStart | DataBoundary | DataBoundaryDone | DataBoundaryDoneCrLf | DataBoundaryDoneHyHy
    | Epilogue

  datatype Note =
    | BodyBegin | PartBegin | FieldByte(b: Byte) | ValueByte(b: Byte) | HeadersComplete | DataByte(b: Byte)
    | PartEnd | BodyEnd

  datatype Machine = Machine(state: State, index: nat)

  const START := Machine(Preamble, 0)

  /** The token characters of section 2.2 of RFC 2616, which the header name table lists. */
  predicate IsToken(c: Byte) {
    || c == 33 || 35 <= c <= 39 || c == 42 || c == 43 || c == 45 || c == 46 || 48 <= c <= 57
    || 65 <= c <= 90 || 94 <= c <= 122 || c == 124 || c == 126
  }

  /** The index never leaves the boundary, its CR and its LF; while a delimiter is matched, it stays in the boundary. */
  predicate Bounded(boundary: seq<Byte>, m: Machine) {
    && m.index <= |boundary| + 1
    && (m.state.Preamble? || m.state.PreambleHyHy? ==> m.index == 0)
    && (m.state.DataBoundary? ==> m.index <= |boundary|)
  }

  /** The byte read is unsigned, the boundary's is a signed `char`: a boundary byte from 128 on matches nothing. */
  predicate MatchesBoundary(c: Byte, b: Byte) {
    c == Signed(b)
  }

  function DataNotes(bytes: seq<Byte>): (r: seq<Note>)
    ensures |r| == |bytes|
    ensures forall i :: 0 <= i < |r| ==> r[i] == DataByte(bytes[i])
  {
    seq(|bytes|, i requires 0 <= i < |bytes| => DataByte(bytes[i]))
  }

  function FieldNotes(bytes: seq<Byte>): (r: seq<Note>)
    ensures |r| == |bytes|
    ensures forall i :: 0 <= i < |r| ==> r[i] == FieldByte(bytes[i])
  {
    seq(|bytes|, i requires 0 <= i < |bytes| => FieldByte(bytes[i]))
  }

  function ValueNotes(bytes: seq<Byte>): (r: seq<Note>)
    ensures |r| == |bytes|
    ensures forall i :: 0 <= i < |r| ==> r[i] == ValueByte(bytes[i])
  {
    seq(|bytes|, i requires 0 <= i < |bytes| => ValueByte(bytes[i]))
  }

  /** After a turn of the switch: take the next byte, run the switch again on this one, or stop with an error. */
  datatype Verdict = Advance | Again | Fail

  datatype Turn = Turn(m: Machine, notes: seq<Note>, verdict: Verdict)

  function To(m: Machine, state: State): Turn {
    Turn(m.(state := state), [], Advance)
  }

  function Fails(m: Machine): Turn {
    Turn(m, [], Fail)
  }

  /** Bytes held back that turn out not to begin a boundary. */
  function Release(m: Machine, bytes: seq<Byte>): Turn {
    Turn(m.(state := InData), DataNotes(bytes), Again)
  }

  function SwitchField(m: Machine, c: Byte): Turn {
    if IsToken(c) then Turn(m.(state := HeaderField), [FieldByte(c)], Advance)
    else if c == COLON then To(m, HeaderValueStart)
    else Fails(m.(state := HeaderField))
  }

  function SwitchValue(m: Machine, c: Byte): Turn {
    if c == CR then To(m, HeaderValueCr) else Turn(m.(state := HeaderValue), [ValueByte(c)], Advance)
  }

  function SwitchFirstBoundary(boundary: seq<Byte>, m: Machine, c: Byte): Turn
    requires m.index <= |boundary| + 1
  {
    var next := Turn(m.(index := m.index + 1), [], Advance);
    if m.index == |boundary| then if c == CR then next else Fails(m)
    else if m.index == |boundary| + 1 then
      if c == LF then Turn(Machine(HeaderFieldStart, 0), [BodyBegin, PartBegin], Advance) else Fails(m)
      else if MatchesBoundary(c, boundary[m.index]) then next
    else Fails(m)
  }

  function SwitchBoundary(boundary: seq<Byte>, m: Machine, c: Byte): Turn
    requires m.index <= |boundary|
  {
    if m.index == |boundary| then Turn(Machine(DataBoundaryDone, 0), [], Again)
    else if MatchesBoundary(c, boundary[m.index]) then Turn(Machine(DataBoundary, m.index + 1), [], Advance)
    else Release(m, boundary[..m.index])
  }

  function SwitchHeaders(m: Machine, c: Byte): Turn {
    match m.state
    case HeaderFieldStart => if c == CR then To(m, HeadersDone) else SwitchField(m, c)
    case HeaderField => SwitchField(m, c)
    case HeaderValueStart => if c == SP || c == HT then To(m, HeaderValueStart) else SwitchValue(m, c)
    case HeaderValue => SwitchValue(m, c)
    case HeaderValueCr => if c == LF then To(m, HeaderFieldStart) else Fails(m)
    case _ => if c == LF then Turn(m.(state := InData), [HeadersComplete], Advance) else Fails(m)
  }

  function SwitchData(m: Machine, c: Byte): Turn {
    match m.state
    case InData => if c == CR then To(m, DataCr) else Turn(m, [DataByte(c)], Advance)
    case DataCr => if c == LF then To(m, DataCrLf) else Release(m, [CR])
    case DataCrLf => if c == HYPHEN then To(m, DataCrLfHy) else Release(m, [CR, LF])
    case _ => if c == HYPHEN then To(m, DataBoundaryStart) else Release(m, [CR, LF, HYPHEN])
  }

  function SwitchDone(m: Machine, c: Byte): Turn {
    match m.state
    case DataBoundaryDone =>
      if c == CR then To(m, DataBoundaryDoneCrLf) else if c == HYPHEN then To(m, DataBoundaryDoneHyHy) else Fails(m)
    case DataBoundaryDoneCrLf =>
      if c == LF then Turn(m.(state := HeaderFieldStart), [PartEnd, PartBegin], Advance) else Fails(m)
    case _ =>
      if c == HYPHEN then Turn(m.(state := Epilogue), [PartEnd, BodyEnd], Advance) else Fails(m)
  }

  predicate InHeaders(s: State) {
    || s.HeaderFieldStart? || s.HeaderField? || s.HeaderValueStart? || s.HeaderValue? || s.HeaderValueCr?
    || s.HeadersDone?
  }

  predicate HoldsData(s: State) {
    s.InData? || s.DataCr? || s.DataCrLf? || s.DataCrLfHy?
  }

  predicate PastBoundary(s: State) {
    s.DataBoundaryDone? || s.DataBoundaryDoneCrLf? || s.DataBoundaryDoneHyHy?
  }

  /** One pass through the switch. */
  function Switch(boundary: seq<Byte>, m: Machine, c: Byte): (t: Turn)
    requires Bounded(boundary, m)
    ensures Bounded(boundary, t.m)
  {
    if InHeaders(m.state) then SwitchHeaders(m, c)
    else if HoldsData(m.state) then SwitchData(m, c)
    else if PastBoundary(m.state) then SwitchDone(m, c)
    else match m.state
      case Preamble => if c == HYPHEN then To(m, PreambleHyHy) else To(m, Preamble)
      case PreambleHyHy => if c == HYPHEN then To(m, FirstBoundary) else To(m, Preamble)
      case FirstBoundary => SwitchFirstBoundary(boundary, m, c)
      case DataBoundaryStart => SwitchBoundary(boundary, Machine(DataBoundary, 0), c)
      case DataBoundary => SwitchBoundary(boundary, m, c)
      case _ => To(m, Epilogue)
  }

  /** States whose cases go on to the bytes after the current one. */
  predicate LooksAhead(s: State) {
    s.HeaderFieldStart? || s.HeaderField? || s.HeaderValueStart? || s.HeaderValue? || s.InData?
  }

  /** States that can run the switch again on the same byte. */
  predicate MayReexecute(s: State) {
    s.DataCr? || s.DataCrLf? || s.DataCrLfHy? || s.DataBoundaryStart? || s.DataBoundary?
  }

  lemma AgainOnlyFrom(boundary: seq<Byte>, m: Machine, c: Byte)
    requires Bounded(boundary, m)
    ensures var t := Switch(boundary, m, c);
            t.verdict.Again? ==> MayReexecute(m.state) && !MayReexecute(t.m.state)
  {
  }

  /** A byte is never run through the switch more than twice. */
  lemma AtMostOneReexecute(boundary: seq<Byte>, m: Machine, c: Byte)
    requires Bounded(boundary, m) && Switch(boundary, m, c).verdict.Again?
    ensures !Switch(boundary, Switch(boundary, m, c).m, c).verdict.Again?
  {
    hide Switch, MayReexecute;
    AgainOnlyFrom(boundary, m, c);
    AgainOnlyFrom(boundary, Switch(boundary, m, c).m, c);
  }

  /** One byte, with its second pass if it needs one. */
  function Step(boundary: seq<Byte>, m: Machine, c: Byte): (t: Turn)
    requires Bounded(boundary, m)
    ensures Bounded(boundary, t.m) && !t.verdict.Again?
  {
    var first := Switch(boundary, m, c);
    if !first.verdict.Again? then first
    else
      AtMostOneReexecute(boundary, m, c);
      var second := Switch(boundary, first.m, c);
      second.(notes := first.notes + second.notes)
  }

  // ---- chunks ----

  /** What a call does with a chunk: where it leaves the machine, what it tells, how many bytes it accepts. */
  datatype Fed = Fed(m: Machine, notes: seq<Note>, used: nat, ok: bool)

  function Feed(boundary: seq<Byte>, m: Machine, data: seq<Byte>): (f: Fed)
    requires Bounded(boundary, m)
    ensures Bounded(boundary, f.m)
    ensures f.used <= |data| && (f.ok <==> f.used == |data|)
    decreases |data|
  {
    if data == [] then Fed(m, [], 0, true)
    else
      var t := Step(boundary, m, data[0]);
      if t.verdict.Fail? then Fed(t.m, t.notes, 0, false) else After(t.notes, 1, Feed(boundary, t.m, data[1..]))
  }

  function After(notes: seq<Note>, used: nat, f: Fed): Fed {
    f.(notes := notes + f.notes, used := used + f.used)
  }

  lemma AfterTwice(x: seq<Note>, i: nat, y: seq<Note>, j: nat, f: Fed)
    ensures After(x, i, After(y, j, f)) == After(x + y, i + j, f)
  {
    assert x + (y + f.notes) == x + y + f.notes;
  }

  lemma AfterNothing(f: Fed)
    ensures After([], 0, f) == f
  {
    assert [] + f.notes == f.notes;
  }

  /** Chunking does not matter: feeding `a` and then, if it was accepted, `b` is feeding `a + b`. */
  lemma {:induction false} FeedConcat(boundary: seq<Byte>, m: Machine, a: seq<Byte>, b: seq<Byte>)
    requires Bounded(boundary, m)
    ensures var f := Feed(boundary, m, a);
            Feed(boundary, m, a + b) == if f.ok then After(f.notes, f.used, Feed(boundary, f.m, b)) else f
    decreases |a|
  {
    if a == [] {
      assert a + b == b;
      AfterNothing(Feed(boundary, m, b));
    } else {
      assert (a + b)[1..] == a[1..] + b;
      var t := Step(boundary, m, a[0]);
      if !t.verdict.Fail? {
        FeedConcat(boundary, t.m, a[1..], b);
        var f := Feed(boundary, t.m, a[1..]);
        if f.ok {
          AfterTwice(t.notes, 1, f.notes, f.used, Feed(boundary, f.m, b));
        }
      }
    }
  }

  /** Running the switch again on a byte is feeding from the machine it left. */
  lemma FeedAgain(boundary: seq<Byte>, m: Machine, data: seq<Byte>)
    requires Bounded(boundary, m) && data != [] && Switch(boundary, m, data[0]).verdict.Again?
    ensures var t := Switch(boundary, m, data[0]);
            Feed(boundary, m, data) == After(t.notes, 0, Feed(boundary, t.m, data))
  {
    hide Switch, Bounded;
    var first := Switch(boundary, m, data[0]);
    var second := Switch(boundary, first.m, data[0]);
    AtMostOneReexecute(boundary, m, data[0]);
    assert Step(boundary, first.m, data[0]) == second;
    assert Step(boundary, m, data[0]) == second.(notes := first.notes + second.notes);
    hide Step;
    FeedUnfolds(boundary, m, data);
    FeedUnfolds(boundary, first.m, data);
    hide Feed;
    if !second.verdict.Fail? {
      AfterTwice(first.notes, 0, second.notes, 1, Feed(boundary, second.m, data[1..]));
    }
  }

  lemma FeedUnfolds(boundary: seq<Byte>, m: Machine, data: seq<Byte>)
    requires Bounded(boundary, m) && data != []
    ensures var t := Step(boundary, m, data[0]);
            Feed(boundary, m, data) ==
            if t.verdict.Fail? then Fed(t.m, t.notes, 0, false) else After(t.notes, 1, Feed(boundary, t.m, data[1..]))
  {
  }

  // ---- the grammar of notes ----

  /** Where in `body_begin (part_begin (field|value)* headers_complete data* part_end)+ body_end` a trace stands. */
  datatype Place = Before | Opened | Headers | Content | Between | Closed

  function Follow(g: Place, n: Note): Option<Place> {
    match (g, n)
    case (Before, BodyBegin) => Some(Opened)
    case (Opened, PartBegin) => Some(Headers)
    case (Headers, FieldByte(_)) => Some(Headers)
    case (Headers, ValueByte(_)) => Some(Headers)
    case (Headers, HeadersComplete) => Some(Content)
    case (Content, DataByte(_)) => Some(Content)
    case (Content, PartEnd) => Some(Between)
    case (Between, PartBegin) => Some(Headers)
    case (Between, BodyEnd) => Some(Closed)
    case _ => None
  }

  function FollowAll(g: Place, notes: seq<Note>): Option<Place>
    decreases |notes|
  {
    if notes == [] then Some(g)
    else match Follow(g, notes[0])
      case Some(g') => FollowAll(g', notes[1..])
      case None => None
  }

  /** The part of the grammar a state belongs to. */
  function PlaceOf(s: State): Place {
    match s
    case Preamble => Before case PreambleHyHy => Before case FirstBoundary => Before
    case HeaderFieldStart => Headers case HeaderField => Headers case HeaderValueStart => Headers
    case HeaderValue => Headers case HeaderValueCr => Headers case HeadersDone => Headers
    case Epilogue => Closed
    case _ => Content
  }

  lemma {:induction false} FollowConcat(g: Place, x: seq<Note>, y: seq<Note>)
    ensures FollowAll(g, x + y) == if FollowAll(g, x).Some? then FollowAll(FollowAll(g, x).value, y) else None
    decreases |x|
  {
    if x == [] {
      assert x + y == y;
    } else {
      assert (x + y)[1..] == x[1..] + y;
      var g' := Follow(g, x[0]);
      if g'.Some? {
        FollowConcat(g'.value, x[1..], y);
      }
    }
  }

  lemma {:induction false} ContentTakesData(bytes: seq<Byte>)
    ensures FollowAll(Content, DataNotes(bytes)) == Some(Content)
    decreases |bytes|
  {
    if bytes != [] {
      assert DataNotes(bytes)[1..] == DataNotes(bytes[1..]);
      ContentTakesData(bytes[1..]);
    }
  }

  lemma FollowOne(g: Place, x: Note)
    ensures FollowAll(g, []) == Some(g) && FollowAll(g, [x]) == Follow(g, x)
  {
    hide Follow;
    assert [x][1..] == [];
  }

  lemma FollowShort(g: Place, x: Note, y: Note)
    ensures FollowAll(g, []) == Some(g) && FollowAll(g, [x]) == Follow(g, x)
    ensures FollowAll(g, [x, y]) == if Follow(g, x).Some? then Follow(Follow(g, x).value, y) else None
  {
    hide Follow;
    FollowOne(g, x);
    if Follow(g, x).Some? {
      FollowOne(Follow(g, x).value, y);
    }
    assert [x, y][1..] == [y];
  }

  lemma ContentTakesByte(c: Byte)
    ensures FollowAll(Content, []) == Some(Content) && FollowAll(Content, [DataByte(c)]) == Some(Content)
  {
    FollowShort(Content, DataByte(c), BodyEnd);
  }

  /** The parts of the switch that tell data only. */
  lemma DataFollows(boundary: seq<Byte>, m: Machine, c: Byte)
    requires Bounded(boundary, m) && (HoldsData(m.state) || m.state.DataBoundaryStart? || m.state.DataBoundary?)
    ensures var t := Switch(boundary, m, c);
            FollowAll(PlaceOf(m.state), t.notes) == Some(PlaceOf(t.m.state))
  {
    hide FollowAll;
    ContentTakesByte(c);
    ContentTakesData([CR]);
    ContentTakesData([CR, LF]);
    ContentTakesData([CR, LF, HYPHEN]);
    ContentTakesData(boundary[..if m.state.DataBoundary? then m.index else 0]);
  }

  lemma HeadersFollow(m: Machine, c: Byte)
    requires InHeaders(m.state)
    ensures var t := SwitchHeaders(m, c);
            FollowAll(Headers, t.notes) == Some(PlaceOf(t.m.state))
  {
    hide FollowAll;
    FollowShort(Headers, FieldByte(c), BodyEnd);
    FollowShort(Headers, ValueByte(c), BodyEnd);
    FollowShort(Headers, HeadersComplete, BodyEnd);
  }

  /** A pass through the switch tells only what the grammar allows next, and stays in step with it. */
  lemma SwitchFollows(boundary: seq<Byte>, m: Machine, c: Byte)
    requires Bounded(boundary, m)
    ensures var t := Switch(boundary, m, c);
            FollowAll(PlaceOf(m.state), t.notes) == Some(PlaceOf(t.m.state))
  {
    hide FollowAll, SwitchHeaders, SwitchData, SwitchBoundary;
    if InHeaders(m.state) {
      HeadersFollow(m, c);
    } else if HoldsData(m.state) || m.state.DataBoundaryStart? || m.state.DataBoundary? {
      DataFollows(boundary, m, c);
    } else {
      FollowShort(Before, BodyBegin, PartBegin);
      FollowShort(Content, PartEnd, PartBegin);
      FollowShort(Content, PartEnd, BodyEnd);
      FollowShort(Closed, PartEnd, BodyEnd);
    }
  }

  /** Over any bytes, up to the first error, the notes follow the grammar. */
  lemma {:induction false} FeedFollows(boundary: seq<Byte>, m: Machine, data: seq<Byte>)
    requires Bounded(boundary, m)
    ensures var f := Feed(boundary, m, data);
            FollowAll(PlaceOf(m.state), f.notes) == Some(PlaceOf(f.m.state))
    decreases |data|
  {
    hide Switch;
    if data != [] {
      var first := Switch(boundary, m, data[0]);
      SwitchFollows(boundary, m, data[0]);
      if first.verdict.Again? {
        SwitchFollows(boundary, first.m, data[0]);
        FollowConcat(PlaceOf(m.state), first.notes, Switch(boundary, first.m, data[0]).notes);
      }
      var t := Step(boundary, m, data[0]);
      if !t.verdict.Fail? {
        FeedFollows(boundary, t.m, data[1..]);
        FollowConcat(PlaceOf(m.state), t.notes, Feed(boundary, t.m, data[1..]).notes);
      }
    }
  }
}
