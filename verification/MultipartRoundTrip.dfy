/** Printing a list of parts and parsing the print: what comes back, and exactly when it is the list. */
module MultipartRoundTrip {
  import opened Bytes
  import opened MultipartMachine
  import opened MultipartLaws
  import opened MultipartParts
  import opened MultipartRuns
  import Language = MultipartLanguage

  datatype Header = Header(name: Text, value: Text)

  datatype Message = Message(headers: seq<Header>, body: Text)

  const BREAK: Text := [CR, LF]
  const DOUBLE_HYPHEN: Text := [HYPHEN, HYPHEN]

  function PrintHeader(h: Header): Text {
    h.name + ([COLON, SP] + (h.value + BREAK))
  }

  function PrintHeaders(hs: seq<Header>): Text {
    if hs == [] then [] else PrintHeader(hs[0]) + PrintHeaders(hs[1..])
  }

  function PrintMessage(boundary: Text, p: Message): Text {
    PrintHeaders(p.headers) + (BREAK + (p.body + Delimiter(boundary)))
  }

  function PrintMessages(boundary: Text, ps: seq<Message>): Text
    requires ps != []
  {
    PrintMessage(boundary, ps[0]) + if |ps| == 1 then DOUBLE_HYPHEN else BREAK + PrintMessages(boundary, ps[1..])
  }

  function Opening(boundary: Text): Text {
    DOUBLE_HYPHEN + (boundary + BREAK)
  }

  function Print(boundary: Text, ps: seq<Message>): Text
    requires ps != []
  {
    Opening(boundary) + PrintMessages(boundary, ps)
  }

  // ---- what may be printed ----

  /** A token name; a value in one line that does not start with the blanks the parser skips. */
  predicate IsHeader(h: Header) {
    && h.name != [] && (forall c :: c in h.name ==> IsToken(c))
    && CR !in h.value && (h.value != [] ==> h.value[0] != SP && h.value[0] != HT)
  }

  ghost predicate AreHeaders(hs: seq<Header>) {
    && (forall i :: 0 <= i < |hs| ==> IsHeader(hs[i]))
    && (forall i, j :: 0 <= i < j < |hs| ==> hs[i].name != hs[j].name)
  }

  ghost predicate Printable(boundary: Text, p: Message) {
    AreHeaders(p.headers) && NoDelimiter(boundary, p.body)
  }

  // ---- feeding, piece by piece ----

  function HeaderNotes(h: Header): seq<Note> {
    FieldNotes(h.name) + ValueNotes(h.value)
  }

  function HeadersNotes(hs: seq<Header>): seq<Note> {
    if hs == [] then [] else HeaderNotes(hs[0]) + HeadersNotes(hs[1..])
  }

  lemma HeaderGoes(boundary: Text, i: nat, h: Header)
    requires i <= |boundary| + 1
    requires IsHeader(h)
    ensures Goes(boundary, Machine(HeaderFieldStart, i), PrintHeader(h), Machine(HeaderFieldStart, i), HeaderNotes(h))
  {
    var l := Language.Line(h.name, [SP], h.value);
    assert PrintHeader(h) == Language.LineText(l);
    Language.LineGoes(boundary, i, l);
  }

  lemma {:induction false} HeadersGoes(boundary: Text, i: nat, hs: seq<Header>)
    requires i <= |boundary| + 1
    requires AreHeaders(hs)
    ensures Goes(boundary, Machine(HeaderFieldStart, i), PrintHeaders(hs), Machine(HeaderFieldStart, i),
            HeadersNotes(hs))
    decreases |hs|
  {
    var m := Machine(HeaderFieldStart, i);
    if hs != [] {
      HeaderGoes(boundary, i, hs[0]);
      HeadersGoes(boundary, i, hs[1..]);
      hide Goes;
      GoesOn(boundary, m, PrintHeader(hs[0]), m, HeaderNotes(hs[0]), PrintHeaders(hs[1..]), m, HeadersNotes(hs[1..]));
    }
  }

  function MessageNotes(p: Message): seq<Note> {
    HeadersNotes(p.headers) + ([HeadersComplete] + DataNotes(Stripped(p.body)))
  }

  /** One part and the delimiter that closes it. */
  lemma MessageGoes(boundary: Text, i: nat, p: Message) returns (end: Machine)
    requires i <= |boundary| + 1
    requires IsAscii(boundary) && Printable(boundary, p)
    ensures Goes(boundary, Machine(HeaderFieldStart, i), PrintMessage(boundary, p), end, MessageNotes(p))
    ensures Bounded(boundary, end) && Inside(end) && AtEnd(boundary, end)
  {
    var m, d := Machine(HeaderFieldStart, i), Machine(InData, i);
    HeadersGoes(boundary, i, p.headers);
    PairGoes(boundary, m, CR, LF);
    assert [] + p.body == p.body && [] + [HeadersComplete] == [HeadersComplete];
    BodyLaw(boundary, d, p.body);
    end := Feed(boundary, d, p.body + Delimiter(boundary)).m;
    assert Goes(boundary, d, p.body + Delimiter(boundary), end, DataNotes(Stripped(p.body)));
    hide Goes;
    GoesOn(boundary, m, BREAK, d, [HeadersComplete], p.body + Delimiter(boundary), end, DataNotes(Stripped(p.body)));
    GoesOn(boundary, m, PrintHeaders(p.headers), m, HeadersNotes(p.headers), BREAK + (p.body + Delimiter(boundary)),
        end,
           [HeadersComplete] + DataNotes(Stripped(p.body)));
  }

  /** A byte after a whole delimiter is read as one after the boundary. */
  lemma EndStep(boundary: Text, end: Machine, c: Byte)
    requires Bounded(boundary, end) && Inside(end) && AtEnd(boundary, end) && (c == CR || c == HYPHEN)
    ensures Step(boundary, end, c) ==
            Turn(Machine(if c == CR then DataBoundaryDoneCrLf else DataBoundaryDoneHyHy, 0), [], Advance)
  {
    hide SwitchHeaders, SwitchData;
    assert Switch(boundary, end, c) == Turn(Machine(DataBoundaryDone, 0), [], Again);
  }

  /** After a delimiter, a line end opens the next part and two hyphens end the body. */
  lemma AfterDelimiter(boundary: Text, end: Machine)
    requires Bounded(boundary, end) && Inside(end) && AtEnd(boundary, end)
    ensures Goes(boundary, end, BREAK, Machine(HeaderFieldStart, 0), [PartEnd, PartBegin])
    ensures Goes(boundary, end, DOUBLE_HYPHEN, Machine(Epilogue, 0), [PartEnd, BodyEnd])
  {
    EndStep(boundary, end, CR);
    EndStep(boundary, end, HYPHEN);
    assert Step(boundary, Machine(DataBoundaryDoneCrLf, 0), LF)
        == Turn(Machine(HeaderFieldStart, 0), [PartEnd, PartBegin], Advance);
    assert Step(boundary, Machine(DataBoundaryDoneHyHy, 0), HYPHEN)
        == Turn(Machine(Epilogue, 0), [PartEnd, BodyEnd], Advance);
    hide Step, Goes;
    PairGoes(boundary, end, CR, LF);
    PairGoes(boundary, end, HYPHEN, HYPHEN);
    assert [] + [PartEnd, PartBegin] == [PartEnd, PartBegin] && [] + [PartEnd, BodyEnd] == [PartEnd, BodyEnd];
  }

  function MessagesNotes(ps: seq<Message>): seq<Note>
    requires ps != []
  {
    MessageNotes(ps[0]) + if |ps| == 1 then [PartEnd, BodyEnd] else [PartEnd, PartBegin] + MessagesNotes(ps[1..])
  }

  lemma {:induction false} MessagesGoes(boundary: Text, i: nat, ps: seq<Message>)
    requires i <= |boundary| + 1
    requires IsAscii(boundary) && ps != [] && forall p :: p in ps ==> Printable(boundary, p)
    ensures Goes(boundary, Machine(HeaderFieldStart, i), PrintMessages(boundary, ps), Machine(Epilogue, 0),
            MessagesNotes(ps))
    decreases |ps|
  {
    var m, e := Machine(HeaderFieldStart, i), Machine(Epilogue, 0);
    var end := MessageGoes(boundary, i, ps[0]);
    AfterDelimiter(boundary, end);
    if |ps| > 1 {
      MessagesGoes(boundary, 0, ps[1..]);
    }
    hide Goes;
    if |ps| == 1 {
      GoesOn(boundary, m, PrintMessage(boundary, ps[0]), end, MessageNotes(ps[0]), DOUBLE_HYPHEN, e,
          [PartEnd, BodyEnd]);
    } else {
      GoesOn(boundary, end, BREAK, Machine(HeaderFieldStart, 0), [PartEnd, PartBegin],
             PrintMessages(boundary, ps[1..]), e, MessagesNotes(ps[1..]));
      GoesOn(boundary, m, PrintMessage(boundary, ps[0]), end, MessageNotes(ps[0]),
             BREAK + PrintMessages(boundary, ps[1..]), e, [PartEnd, PartBegin] + MessagesNotes(ps[1..]));
    }
  }

  lemma {:induction false} EpilogueGoes(boundary: Text, i: nat, s: Text)
    requires i <= |boundary| + 1
    ensures Goes(boundary, Machine(Epilogue, i), s, Machine(Epilogue, i), [])
    decreases |s|
  {
    if s != [] {
      EpilogueGoes(boundary, i, s[1..]);
    }
  }

  lemma HyphensGo(boundary: Text)
    ensures Goes(boundary, START, DOUBLE_HYPHEN, Machine(FirstBoundary, 0), [])
  {
    PairGoes(boundary, START, HYPHEN, HYPHEN);
  }

  lemma OpeningGoes(boundary: Text)
    requires IsAscii(boundary)
    ensures Goes(boundary, START, Opening(boundary), Machine(HeaderFieldStart, 0), [BodyBegin, PartBegin])
  {
    hide Goes;
    HyphensGo(boundary);
    Language.RestOfBoundaryGoes(boundary, 0);
    assert boundary[0..] == boundary && [] + [BodyBegin, PartBegin] == [BodyBegin, PartBegin];
    GoesOn(boundary, START, DOUBLE_HYPHEN, Machine(FirstBoundary, 0), [],
           boundary + BREAK, Machine(HeaderFieldStart, 0), [BodyBegin, PartBegin]);
  }

  /** A boundary byte from 128 on is read as a negative `char`, so even the first boundary line is refused. */
  lemma {:induction false} HighByteIsRefused(boundary: Text, i: nat, rest: Text)
    requires i < |boundary| && !IsAscii(boundary[i..])
    ensures !Feed(boundary, Machine(FirstBoundary, i), boundary[i..] + rest).ok
    decreases |boundary| - i
  {
    var s := boundary[i..] + rest;
    var m := Machine(FirstBoundary, i);
    FeedUnfolds(boundary, m, s);
    if boundary[i] < 128 {
      assert s[1..] == boundary[i + 1..] + rest;
      assert boundary[i..] == [boundary[i]] + boundary[i + 1..];
      HighByteIsRefused(boundary, i + 1, rest);
    }
  }

  lemma PrintGoesWhole(boundary: Text, ps: seq<Message>, epilogue: Text)
    requires IsAscii(boundary) && ps != [] && forall p :: p in ps ==> Printable(boundary, p)
    ensures Goes(boundary, START, Print(boundary, ps) + epilogue, Machine(Epilogue, 0), [BodyBegin, PartBegin] +
            MessagesNotes(ps))
  {
    hide Goes, PrintMessages, MessagesNotes, Opening, Printable;
    var h, e := Machine(HeaderFieldStart, 0), Machine(Epilogue, 0);
    OpeningGoes(boundary);
    MessagesGoes(boundary, 0, ps);
    EpilogueGoes(boundary, 0, epilogue);
    GoesOn(boundary, START, Opening(boundary), h, [BodyBegin, PartBegin], PrintMessages(boundary, ps), e,
        MessagesNotes(ps));
    GoesOn(boundary, START, Print(boundary, ps), e, [BodyBegin, PartBegin] + MessagesNotes(ps), epilogue, e, []);
    assert [BodyBegin, PartBegin] + MessagesNotes(ps) + [] == [BodyBegin, PartBegin] + MessagesNotes(ps);
  }

  lemma PrintIsRefused(boundary: Text, ps: seq<Message>, epilogue: Text)
    requires !IsAscii(boundary) && ps != []
    ensures !Feed(boundary, START, Print(boundary, ps) + epilogue).ok
  {
    hide Feed, PrintMessages, IsAscii;
    var rest := BREAK + PrintMessages(boundary, ps) + epilogue;
    assert boundary[0..] == boundary && Print(boundary, ps) + epilogue == DOUBLE_HYPHEN + (boundary + rest);
    assert boundary != [] by { NothingIsAscii(); }
    HighByteIsRefused(boundary, 0, rest);
    HyphensGo(boundary);
    FeedConcat(boundary, START, DOUBLE_HYPHEN, boundary + rest);
  }

  lemma NothingIsAscii()
    ensures IsAscii([])
  {
  }

  /** The whole print, with anything after it, is accepted iff the boundary is ASCII. */
  lemma PrintGoes(boundary: Text, ps: seq<Message>, epilogue: Text)
    requires ps != [] && forall p :: p in ps ==> Printable(boundary, p)
    ensures var f := Feed(boundary, START, Print(boundary, ps) + epilogue);
            && (f.ok <==> IsAscii(boundary))
            && (f.ok ==> f == Fed(Machine(Epilogue, 0), [BodyBegin, PartBegin] + MessagesNotes(ps),
                                  |Print(boundary, ps)| + |epilogue|, true))
  {
    hide Feed, Print, MessagesNotes, IsAscii, Printable;
    if IsAscii(boundary) {
      PrintGoesWhole(boundary, ps, epilogue);
    } else {
      PrintIsRefused(boundary, ps, epilogue);
    }
  }

  // ---- what the account makes of it ----

  /** `headers[name] = value` for each header in turn. */
  function Collect(m: map<Text, Text>, hs: seq<Header>): map<Text, Text>
    decreases |hs|
  {
    if hs == [] then m else Collect(m[hs[0].name := hs[0].value], hs[1..])
  }

  lemma {:induction false} CollectKeeps(m: map<Text, Text>, hs: seq<Header>, n: Text)
    requires forall i :: 0 <= i < |hs| ==> hs[i].name != n
    requires n in m
    ensures n in Collect(m, hs) && Collect(m, hs)[n] == m[n]
    decreases |hs|
  {
    if hs != [] {
      CollectKeeps(m[hs[0].name := hs[0].value], hs[1..], n);
    }
  }

  lemma {:induction false} CollectHas(m: map<Text, Text>, hs: seq<Header>, i: nat)
    requires i < |hs| && AreHeaders(hs)
    ensures hs[i].name in Collect(m, hs) && Collect(m, hs)[hs[i].name] == hs[i].value
    decreases |hs|
  {
    if i == 0 {
      CollectKeeps(m[hs[0].name := hs[0].value], hs[1..], hs[0].name);
    } else {
      CollectHas(m[hs[0].name := hs[0].value], hs[1..], i - 1);
    }
  }

  /** The part a message is meant to become. */
  function PartOf(p: Message): Part {
    Part(Collect(map[], p.headers), p.body)
  }

  function PartsOf(ps: seq<Message>): (r: seq<Part>)
    ensures |r| == |ps| && forall i :: 0 <= i < |ps| ==> r[i] == PartOf(ps[i])
  {
    seq(|ps|, i requires 0 <= i < |ps| => PartOf(ps[i]))
  }

  predicate HasAllValues(p: Message) {
    forall h :: h in p.headers ==> h.value != []
  }

  /** The headers that arrive when `carry` is a name without a value, and the name that is left without one. */
  function Merged(carry: Text, hs: seq<Header>): (seq<Header>, Text)
    decreases |hs|
  {
    if hs == [] then ([], carry)
    else
      var name := carry + hs[0].name;
      if hs[0].value == [] then Merged(name, hs[1..])
      else
        var (rest, left) := Merged([], hs[1..]);
        ([Header(name, hs[0].value)] + rest, left)
  }

  /** The account with the last part's headers extended, and a name without a value pending. */
  function WithHeaders(a: Account, hs: seq<Header>, carry: Text): Account
    requires a.parts != []
  {
    var last := |a.parts| - 1;
    var p := a.parts[last];
    a.(parts := a.parts[last := p.(headers := Collect(p.headers, hs))], name := carry, value := [])
  }

  lemma HeaderFolds(a: Account, h: Header)
    requires h.name != [] && a.parts != []
    ensures var b := Fold(a, HeaderNotes(h));
            b == Flush(a).(name := Flush(a).name + h.name, value := h.value)
  {
    FoldConcat(a, FieldNotes(h.name), ValueNotes(h.value));
    FoldField(a, h.name);
    FoldValue(Fold(a, FieldNotes(h.name)), h.value);
    assert [] + h.value == h.value;
  }

  /** A name without a value runs into the next one; the others reach the map. */
  lemma {:induction false} HeadersFold(a: Account, hs: seq<Header>)
    requires a.parts != [] && forall h :: h in hs ==> h.name != []
    ensures var (merged, left) := Merged(Flush(a).name, hs);
            var b := Fold(a, HeadersNotes(hs));
            b.parts != [] && Flush(b) == WithHeaders(Flush(a), merged, left)
    decreases |hs|
  {
    hide Fold, Flush, HeaderNotes, HeadersNotes, WithHeaders;
    FlushKeepsParts(a);
    if hs == [] {
      NothingFolds(a);
    } else {
      var f, h := Flush(a), hs[0];
      var b := f.(name := f.name + h.name, value := h.value);
      NamesBelow(hs);
      HeaderFolds(a, h);
      HeadersFold(b, hs[1..]);
      FoldInTwo(a, hs);
      if h.value == [] {
        HeaderCarried(f, b, Merged(b.name, hs[1..]).0, Merged(b.name, hs[1..]).1);
      } else {
        HeaderStored(f, b, h.value, Merged([], hs[1..]).0, Merged([], hs[1..]).1);
      }
    }
  }

  lemma FlushKeepsParts(a: Account)
    requires a.parts != []
    ensures Flush(a).parts != [] && Flush(a).value == []
  {
  }

  lemma NothingFolds(a: Account)
    requires a.parts != []
    ensures Fold(a, HeadersNotes([])) == a && WithHeaders(Flush(a), [], Flush(a).name) == Flush(a)
  {
    var f := Flush(a);
    var last := |f.parts| - 1;
    assert f.parts[last := f.parts[last]] == f.parts;
  }

  lemma FoldInTwo(a: Account, hs: seq<Header>)
    requires hs != []
    ensures Fold(a, HeadersNotes(hs)) == Fold(Fold(a, HeaderNotes(hs[0])), HeadersNotes(hs[1..]))
  {
    hide Fold, HeaderNotes;
    FoldConcat(a, HeaderNotes(hs[0]), HeadersNotes(hs[1..]));
  }

  lemma HeaderCarried(f: Account, b: Account, rest: seq<Header>, left: Text)
    requires f.parts != [] && f.value == [] && b.value == [] && b == f.(name := b.name)
    ensures Flush(b) == b && WithHeaders(b, rest, left) == WithHeaders(f, rest, left)
  {
  }

  lemma NamesBelow(hs: seq<Header>)
    requires hs != [] && forall h :: h in hs ==> h.name != []
    ensures hs[0].name != [] && forall h :: h in hs[1..] ==> h.name != []
  {
    assert hs[0] in hs && forall h :: h in hs[1..] ==> h in hs;
  }

  lemma HeaderStored(f: Account, b: Account, value: Text, rest: seq<Header>, left: Text)
    requires f.parts != [] && value != [] && b.parts == f.parts && b.value == value
    requires b.begun == f.begun && b.ended == f.ended
    ensures Flush(b).parts != [] && Flush(b).name == []
    ensures WithHeaders(Flush(b), rest, left) == WithHeaders(f, [Header(b.name, value)] + rest, left)
  {
    var last := |f.parts| - 1;
    var p := f.parts[last];
    var q := p.(headers := p.headers[b.name := value]);
    assert ([Header(b.name, value)] + rest)[1..] == rest;
    assert f.parts[last := q][last := q.(headers := Collect(q.headers, rest))]
        == f.parts[last := p.(headers := Collect(q.headers, rest))];
  }

  /** The account at the start of a part: its last part is new and no value is pending. */
  ghost predicate Fresh(a: Account) {
    a.value == [] && a.parts != [] && a.parts[|a.parts| - 1] == Part(map[], [])
  }

  /** The part that a message becomes after such a name, and the name that is pending after it. */
  function Arriving(carry: Text, p: Message): (Part, Text) {
    var (headers, left) := Merged(carry, p.headers);
    (Part(Collect(map[], headers), Stripped(p.body)), left)
  }

  /** The account with its last part and the pending name replaced. */
  function WithLast(a: Account, arrived: (Part, Text)): Account
    requires a.parts != []
  {
    a.(parts := a.parts[|a.parts| - 1 := arrived.0], name := arrived.1)
  }

  lemma MessageFolds(a: Account, p: Message)
    requires Fresh(a) && AreHeaders(p.headers)
    ensures Fold(a, MessageNotes(p)) == WithLast(a, Arriving(a.name, p))
  {
    hide Collect, Merged, Stripped;
    HeadersFold(a, p.headers);
    FoldConcat(a, HeadersNotes(p.headers), [HeadersComplete] + DataNotes(Stripped(p.body)));
    BodyFolds(Fold(a, HeadersNotes(p.headers)), Stripped(p.body));
    assert [] + Stripped(p.body) == Stripped(p.body);
    var part := Arriving(a.name, p).0;
    var last, p1 := |a.parts| - 1, part.(body := []);
    hide Fold, Flush;
    assert a.parts[last := p1][last := part] == a.parts[last := part];
  }

  lemma BodyFolds(a: Account, body: Text)
    ensures Fold(a, [HeadersComplete] + DataNotes(body)) == AddData(Flush(a), body)
  {
    assert ([HeadersComplete] + DataNotes(body))[1..] == DataNotes(body);
    FoldData(Flush(a), body);
  }

  /** Notes of no effect on the account's parts but the two around a part's end. */
  lemma BetweenFolds(a: Account, notes: seq<Note>)
    ensures Fold(a, [PartEnd, PartBegin] + notes) == Fold(a.(parts := a.parts + [Part(map[], [])]), notes)
    ensures Fold(a, [PartEnd, BodyEnd]) == a.(ended := true)
  {
    var s := [PartEnd, PartBegin] + notes;
    assert s[1..] == [PartBegin] + notes && s[1..][1..] == notes;
    assert [PartEnd, BodyEnd][1..] == [BodyEnd] && [BodyEnd][1..] == [];
  }

  /** What arrives of the messages, one after the other, and the name pending at the end. */
  function Arrived(carry: Text, ps: seq<Message>): (seq<Part>, Text)
    decreases |ps|
  {
    if ps == [] then ([], carry)
    else
      var (part, left) := Arriving(carry, ps[0]);
      var (parts, end) := Arrived(left, ps[1..]);
      ([part] + parts, end)
  }

  lemma LastMessageFolds(a: Account, p: Message)
    requires Fresh(a) && AreHeaders(p.headers)
    ensures Fold(a, MessageNotes(p) + [PartEnd, BodyEnd]) == WithLast(a, Arriving(a.name, p)).(ended := true)
  {
    MessageFolds(a, p);
    hide Fold, MessageNotes;
    BetweenFolds(WithLast(a, Arriving(a.name, p)), []);
    FoldConcat(a, MessageNotes(p), [PartEnd, BodyEnd]);
  }

  /** A part arrives, and the next one begins. */
  lemma MessageThenFolds(a: Account, p: Message, notes: seq<Note>) returns (c: Account)
    requires Fresh(a) && AreHeaders(p.headers)
    ensures var (part, left) := Arriving(a.name, p);
            Fresh(c) && c == a.(parts := a.parts[|a.parts| - 1 := part] + [Part(map[], [])], name := left)
    ensures Fold(a, MessageNotes(p) + ([PartEnd, PartBegin] + notes)) == Fold(c, notes)
  {
    MessageFolds(a, p);
    hide Fold, MessageNotes, Arriving;
    var (part, left) := Arriving(a.name, p);
    c := a.(parts := a.parts[|a.parts| - 1 := part] + [Part(map[], [])], name := left);
    BetweenFolds(WithLast(a, (part, left)), notes);
    FoldConcat(a, MessageNotes(p), [PartEnd, PartBegin] + notes);
  }

  lemma {:induction false} MessagesFold(a: Account, ps: seq<Message>)
    requires Fresh(a) && ps != [] && forall p :: p in ps ==> AreHeaders(p.headers)
    ensures var (parts, left) := Arrived(a.name, ps);
            Fold(a, MessagesNotes(ps)) ==
            a.(parts := a.parts[..|a.parts| - 1] + parts, name := left, ended := true)
    decreases |ps|
  {
    hide Fold, AreHeaders, MessageNotes, Arriving;
    var (part, left) := Arriving(a.name, ps[0]);
    var rest := ps[1..];
    if |ps| == 1 {
      LastMessageFolds(a, ps[0]);
      assert rest == [] && [part] + Arrived(left, rest).0 == [part];
      assert WithLast(a, (part, left)).parts == a.parts[..|a.parts| - 1] + [part];
    } else {
      var c := MessageThenFolds(a, ps[0], MessagesNotes(rest));
      assert forall p :: p in rest ==> p in ps;
      MessagesFold(c, rest);
      ReplaceLast(a.parts, part, Part(map[], []), Arrived(left, rest).0);
    }
  }

  lemma ReplaceLast<T>(s: seq<T>, x: T, y: T, rest: seq<T>)
    requires s != []
    ensures var t := s[|s| - 1 := x] + [y];
            t[..|t| - 1] + rest == s[..|s| - 1] + ([x] + rest)
  {
  }

  // ---- what arrives, part by part ----

  function Received(p: Message): Part {
    Part(Collect(map[], p.headers), Stripped(p.body))
  }

  function AllReceived(ps: seq<Message>): (r: seq<Part>)
    ensures |r| == |ps| && forall i :: 0 <= i < |ps| ==> r[i] == Received(ps[i])
  {
    seq(|ps|, i requires 0 <= i < |ps| => Received(ps[i]))
  }

  lemma {:induction false} AllValuesMerge(hs: seq<Header>)
    requires forall h :: h in hs ==> h.value != []
    ensures Merged([], hs) == (hs, [])
    decreases |hs|
  {
    if hs != [] {
      assert hs[0] in hs && forall h :: h in hs[1..] ==> h in hs;
      AllValuesMerge(hs[1..]);
      assert [] + hs[0].name == hs[0].name && [hs[0]] + hs[1..] == hs;
    }
  }

  /** With a value in every header, each message arrives with its own headers. */
  lemma {:induction false} AllValuesArrive(ps: seq<Message>)
    requires forall p :: p in ps ==> HasAllValues(p)
    ensures Arrived([], ps) == (AllReceived(ps), [])
    decreases |ps|
  {
    if ps != [] {
      assert ps[0] in ps && forall p :: p in ps[1..] ==> p in ps;
      AllValuesMerge(ps[0].headers);
      AllValuesArrive(ps[1..]);
      assert [Received(ps[0])] + AllReceived(ps[1..]) == AllReceived(ps);
    }
  }

  function Bodies(parts: seq<Part>): (r: seq<Text>)
    ensures |r| == |parts| && forall i :: 0 <= i < |parts| ==> r[i] == parts[i].body
  {
    seq(|parts|, i requires 0 <= i < |parts| => parts[i].body)
  }

  /** Whatever the headers, the bodies arrive stripped and in order. */
  lemma {:induction false} BodiesArrive(carry: Text, ps: seq<Message>)
    ensures Bodies(Arrived(carry, ps).0) == Bodies(AllReceived(ps))
    decreases |ps|
  {
    if ps != [] {
      var (part, left) := Arriving(carry, ps[0]);
      BodiesArrive(left, ps[1..]);
      var parts := Arrived(left, ps[1..]).0;
      assert Bodies([part] + parts) == [part.body] + Bodies(parts);
      assert Bodies(AllReceived(ps)) == [Received(ps[0]).body] + Bodies(AllReceived(ps[1..]));
    }
  }

  // ---- the round trip ----

  /** A fresh parser, given `data` in one call (or in several): did it accept it all, and what has it gathered. */
  ghost function Parse(boundary: Text, data: Text): (bool, Account) {
    var (k, n) := Call(boundary, Kept(START, EMPTY), data);
    (n == |data|, k.a)
  }

  /** All of the print is accepted, the end was seen, and the parts are those printed. */
  ghost predicate ComesBack(boundary: Text, ps: seq<Message>, epilogue: Text)
    requires ps != []
  {
    var (ok, a) := Parse(boundary, Print(boundary, ps) + epilogue);
    ok && a.begun && a.ended && a.parts == PartsOf(ps)
  }

  /** The account just after the first part has begun. */
  const BEGUN := EMPTY.(begun := true, parts := [Part(map[], [])])

  lemma PrintedParts(ps: seq<Message>)
    requires ps != [] && forall p :: p in ps ==> AreHeaders(p.headers)
    ensures var a := Fold(BEGUN, MessagesNotes(ps));
            a.begun && a.ended && a.parts == Arrived([], ps).0
  {
    hide Fold, MessagesNotes, Arrived, AreHeaders;
    MessagesFold(BEGUN, ps);
    assert BEGUN.parts[..0] + Arrived([], ps).0 == Arrived([], ps).0;
  }

  /** What the parser accumulates over an accepted print, whatever the headers. */
  lemma PrintParses(boundary: Text, ps: seq<Message>, epilogue: Text)
    requires ps != [] && forall p :: p in ps ==> Printable(boundary, p)
    ensures var (ok, a) := Parse(boundary, Print(boundary, ps) + epilogue);
            && (ok <==> IsAscii(boundary))
            && (ok ==> a.begun && a.ended && a.parts == Arrived([], ps).0 && NoEmptyValue(a))
            && (ok ==> Bodies(a.parts) == Bodies(AllReceived(ps)))
            && (ok && (forall p :: p in ps ==> HasAllValues(p)) ==> a.parts == AllReceived(ps))
  {
    hide Fold, Feed, Print, MessagesNotes, Arrived, AllReceived, Bodies, NoEmptyValue, HasAllValues, IsAscii,
         AreHeaders,
         NoDelimiter;
    PrintGoes(boundary, ps, epilogue);
    OpeningFolds(MessagesNotes(ps));
    PrintedParts(ps);
    BodiesArrive([], ps);
    FoldStoresNoEmptyValue(EMPTY, [BodyBegin, PartBegin] + MessagesNotes(ps));
    if forall p :: p in ps ==> HasAllValues(p) {
      AllValuesArrive(ps);
    }
  }

  /** A preamble changes nothing of what is gathered. */
  lemma PreambleParses(boundary: Text, preamble: Text, data: Text)
    requires Language.IsPreamble(preamble)
    ensures Parse(boundary, preamble + data) == Parse(boundary, data)
  {
    hide Feed, Fold;
    Language.PreambleIsSkipped(boundary, preamble, data);
    assert [] + Feed(boundary, START, data).notes == Feed(boundary, START, data).notes;
  }

  /** The text of a print, by literal codes: of a header, */
  lemma HeaderIsSpelled(h: Header)
    ensures PrintHeader(h) == h.name + [58, 32] + h.value + [13, 10]
  {
  }

  /** of a part, */
  lemma MessageIsSpelled(boundary: Text, p: Message)
    ensures PrintMessage(boundary, p) == PrintHeaders(p.headers) + [13, 10] + p.body + [13, 10, 45, 45] + boundary
  {
    hide PrintHeaders;
    Regroup(PrintHeaders(p.headers), p.body, boundary);
  }

  lemma Regroup(a: Text, b: Text, c: Text)
    ensures a + ([13, 10] + (b + ([13, 10, 45, 45] + c))) == a + [13, 10] + b + [13, 10, 45, 45] + c
  {
  }

  /** and of all parts. */
  lemma PrintIsSpelled(boundary: Text, ps: seq<Message>)
    requires ps != []
    ensures Print(boundary, ps) == [45, 45] + boundary + [13, 10] + PrintMessages(boundary, ps)
    ensures PrintMessages(boundary, ps) ==
            if |ps| == 1 then PrintMessage(boundary, ps[0]) + [45, 45]
            else PrintMessage(boundary, ps[0]) + [13, 10] + PrintMessages(boundary, ps[1..])
  {
    hide PrintMessage;
    var x := PrintMessages(boundary, ps);
    assert [45, 45] + (boundary + [13, 10]) + x == [45, 45] + boundary + [13, 10] + x;
    if |ps| > 1 {
      var one, others := PrintMessage(boundary, ps[0]), PrintMessages(boundary, ps[1..]);
      assert one + ([13, 10] + others) == one + [13, 10] + others;
    }
  }

  lemma OpeningFolds(notes: seq<Note>)
    ensures NoEmptyValue(EMPTY)
    ensures Fold(EMPTY, [BodyBegin, PartBegin] + notes) == Fold(BEGUN, notes)
  {
    var s := [BodyBegin, PartBegin] + notes;
    assert s[1..] == [PartBegin] + notes && s[1..][1..] == notes;
    assert Apply(Apply(EMPTY, BodyBegin), PartBegin) == BEGUN;
  }

  /**
   * The round trip: a printed list of parts comes back, whatever epilogue follows, exactly
   * when the boundary is ASCII, no header value is empty, and no body holds `CR LF - -`.
   */
  lemma RoundTrip(boundary: Text, ps: seq<Message>, epilogue: Text)
    requires ps != [] && forall p :: p in ps ==> Printable(boundary, p)
    ensures ComesBack(boundary, ps, epilogue) <==>
            IsAscii(boundary) && forall p :: p in ps ==> HasAllValues(p) && !Contains(p.body, DASHES)
  {
    hide Parse, Print, Stripped;
    PrintParses(boundary, ps, epilogue);
    var (ok, a) := Parse(boundary, Print(boundary, ps) + epilogue);
    forall p: Message ensures Stripped(p.body) == p.body <==> !Contains(p.body, DASHES) {
      StrippedIsExact(p.body);
    }
    if ComesBack(boundary, ps, epilogue) {
      forall p | p in ps ensures HasAllValues(p) && !Contains(p.body, DASHES) {
        var i :| 0 <= i < |ps| && ps[i] == p;
        assert Bodies(a.parts)[i] == p.body && Bodies(AllReceived(ps))[i] == Stripped(p.body);
        forall h | h in p.headers ensures h.value != [] {
          var j :| 0 <= j < |p.headers| && p.headers[j] == h;
          CollectHas(map[], p.headers, j);
          assert a.parts[i].headers[h.name] == h.value;
        }
      }
    }
    if IsAscii(boundary) && forall p :: p in ps ==> HasAllValues(p) && !Contains(p.body, DASHES) {
      assert forall i :: 0 <= i < |ps| ==> ps[i] in ps;
      assert AllReceived(ps) == PartsOf(ps);
    }
  }
}
