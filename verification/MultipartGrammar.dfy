/** The language of note traces, written out, and that both parsers' traces are prefixes of it. */
module MultipartGrammar {
  import opened Bytes
  import opened MultipartMachine

  /** What is told about one part between its begin and its end. */
  datatype PartNotes = PartNotes(head: seq<Note>, body: seq<Byte>)

  predicate IsHead(head: seq<Note>) {
    forall n :: n in head ==> n.FieldByte? || n.ValueByte?
  }

  predicate AreParts(ps: seq<PartNotes>) {
    forall p :: p in ps ==> IsHead(p.head)
  }

  function PartWord(p: PartNotes): seq<Note> {
    [PartBegin] + Inside(p.head, p.body)
  }

  function Inside(head: seq<Note>, body: seq<Byte>): seq<Note> {
    head + ([HeadersComplete] + DataNotes(body) + [PartEnd])
  }

  function PartWords(ps: seq<PartNotes>): seq<Note> {
    if ps == [] then [] else PartWord(ps[0]) + PartWords(ps[1..])
  }

  /** `body_begin (part_begin (field|value)* headers_complete data* part_end)+ body_end`. */
  ghost predicate InGrammar(notes: seq<Note>) {
    exists ps :: ps != [] && AreParts(ps) && notes == [BodyBegin] + PartWords(ps) + [BodyEnd]
  }

  ghost predicate IsPrefixOfGrammar(notes: seq<Note>) {
    exists more :: InGrammar(notes + more)
  }

  // ---- what each place still expects ----

  /** The last part's end, more parts, and the end. */
  function Ending(ps: seq<PartNotes>): seq<Note> {
    [PartEnd] + (PartWords(ps) + [BodyEnd])
  }

  lemma FollowUnfolds(g: Place, notes: seq<Note>)
    requires notes != [] && FollowAll(g, notes).Some?
    ensures Follow(g, notes[0]).Some? && FollowAll(Follow(g, notes[0]).value, notes[1..]) == FollowAll(g, notes)
    ensures notes == [notes[0]] + notes[1..]
  {
    hide Follow;
  }

  lemma FollowNothing(g: Place, notes: seq<Note>)
    requires FollowAll(g, notes) == Some(Closed) && g != Closed
    ensures notes != []
  {
    hide Follow;
  }

  lemma OneMoreByte(b: Byte, body: seq<Byte>, tail: seq<Note>)
    ensures [DataByte(b)] + (DataNotes(body) + tail) == DataNotes([b] + body) + tail
  {
    assert DataNotes([b] + body) == [DataByte(b)] + DataNotes(body);
  }

  lemma {:induction false} FromContent(notes: seq<Note>) returns (body: seq<Byte>, ps: seq<PartNotes>)
    requires FollowAll(Content, notes) == Some(Closed)
    ensures AreParts(ps) && notes == DataNotes(body) + Ending(ps)
    decreases |notes|
  {
    hide FollowAll, AreParts, PartWords;
    FollowNothing(Content, notes);
    FollowUnfolds(Content, notes);
    if notes[0].PartEnd? {
      body := [];
      ps := FromBetween(notes[1..]);
      assert DataNotes([]) + Ending(ps) == Ending(ps);
    } else {
      var b;
      b, ps := FromContent(notes[1..]);
      body := [notes[0].b] + b;
      OneMoreByte(notes[0].b, b, Ending(ps));
    }
  }

  lemma {:induction false} FromHeaders(notes: seq<Note>) returns (head: seq<Note>, body: seq<Byte>, ps: seq<PartNotes>)
    requires FollowAll(Headers, notes) == Some(Closed)
    ensures IsHead(head) && AreParts(ps) && notes == Inside(head, body) + (PartWords(ps) + [BodyEnd])
    decreases |notes|
  {
    hide FollowAll, AreParts, PartWords, DataNotes;
    FollowNothing(Headers, notes);
    FollowUnfolds(Headers, notes);
    if notes[0].HeadersComplete? {
      body, ps := FromContent(notes[1..]);
      head := [];
      NothingInside(body, PartWords(ps) + [BodyEnd]);
    } else {
      var h;
      h, body, ps := FromHeaders(notes[1..]);
      head := [notes[0]] + h;
      OneMoreInside(notes[0], h, body, PartWords(ps) + [BodyEnd]);
    }
  }

  lemma NothingInside(body: seq<Byte>, tail: seq<Note>)
    ensures Inside([], body) + tail == [HeadersComplete] + (DataNotes(body) + ([PartEnd] + tail))
  {
  }

  lemma OneMoreInside(n: Note, head: seq<Note>, body: seq<Byte>, tail: seq<Note>)
    ensures Inside([n] + head, body) + tail == [n] + (Inside(head, body) + tail)
  {
  }

  lemma {:induction false} FromBetween(notes: seq<Note>) returns (ps: seq<PartNotes>)
    requires FollowAll(Between, notes) == Some(Closed)
    ensures AreParts(ps) && notes == PartWords(ps) + [BodyEnd]
    decreases |notes|
  {
    hide FollowAll, Inside;
    FollowNothing(Between, notes);
    FollowUnfolds(Between, notes);
    if notes[0].BodyEnd? {
      ps := [];
      NothingAfterEnd(notes[1..]);
    } else {
      var head, body, more := FromHeaders(notes[1..]);
      ps := FirstPart(head, body, more);
    }
  }

  lemma NothingAfterEnd(notes: seq<Note>)
    requires FollowAll(Closed, notes).Some?
    ensures notes == []
  {
  }

  lemma FirstPart(head: seq<Note>, body: seq<Byte>, more: seq<PartNotes>) returns (ps: seq<PartNotes>)
    requires IsHead(head) && AreParts(more)
    ensures AreParts(ps) && ps != []
    ensures [PartBegin] + (Inside(head, body) + (PartWords(more) + [BodyEnd])) == PartWords(ps) + [BodyEnd]
  {
    hide Inside, IsHead;
    ps := [PartNotes(head, body)] + more;
    assert ps[1..] == more;
  }

  /** A trace that reaches the end is a word of the grammar. */
  lemma ClosedIsInGrammar(notes: seq<Note>)
    requires FollowAll(Before, notes) == Some(Closed)
    ensures InGrammar(notes)
  {
    hide FollowAll, Inside, PartWords, AreParts;
    FollowNothing(Before, notes);
    FollowUnfolds(Before, notes);
    var inner := notes[1..];
    FollowNothing(Opened, inner);
    FollowUnfolds(Opened, inner);
    var head, body, more := FromHeaders(inner[1..]);
    var ps := FirstPart(head, body, more);
    assert notes == [BodyBegin] + (PartWords(ps) + [BodyEnd]);
    assert [BodyBegin] + (PartWords(ps) + [BodyEnd]) == [BodyBegin] + PartWords(ps) + [BodyEnd];
  }

  /** One way to finish from each place. */
  function Completion(g: Place): (r: seq<Note>)
  {
    match g
    case Closed => []
    case Between => [BodyEnd]
    case Content => [PartEnd, BodyEnd]
    case Headers => [HeadersComplete, PartEnd, BodyEnd]
    case Opened => [PartBegin, HeadersComplete, PartEnd, BodyEnd]
    case Before => [BodyBegin, PartBegin, HeadersComplete, PartEnd, BodyEnd]
  }

  lemma CompletionReachesEnd(g: Place)
    ensures FollowAll(g, Completion(g)) == Some(Closed)
  {
    var w := [BodyBegin, PartBegin, HeadersComplete, PartEnd, BodyEnd];
    assert FollowAll(Closed, []) == Some(Closed);
    assert [BodyEnd][1..] == [] && FollowAll(Between, [BodyEnd]) == Some(Closed);
    assert [PartEnd, BodyEnd][1..] == [BodyEnd] && FollowAll(Content, [PartEnd, BodyEnd]) == Some(Closed);
    assert [HeadersComplete, PartEnd, BodyEnd][1..] == [PartEnd, BodyEnd];
    assert FollowAll(Headers, [HeadersComplete, PartEnd, BodyEnd]) == Some(Closed);
    assert w[1..][1..] == [HeadersComplete, PartEnd, BodyEnd];
    assert FollowAll(Opened, w[1..]) == Some(Closed);
  }

  /** Following the automaton is being a prefix of the grammar. */
  lemma FollowedIsPrefix(notes: seq<Note>)
    requires FollowAll(Before, notes).Some?
    ensures IsPrefixOfGrammar(notes)
  {
    var g := FollowAll(Before, notes).value;
    FollowConcat(Before, notes, Completion(g));
    CompletionReachesEnd(g);
    ClosedIsInGrammar(notes + Completion(g));
  }

  /** Whatever bytes a fresh machine is fed, up to the first error it tells a prefix of the grammar. */
  lemma FeedTellsGrammar(boundary: seq<Byte>, data: seq<Byte>)
    ensures IsPrefixOfGrammar(Feed(boundary, START, data).notes)
  {
    FeedFollows(boundary, START, data);
    FollowedIsPrefix(Feed(boundary, START, data).notes);
  }
}
