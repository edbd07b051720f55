/** Which byte strings the multipart machine accepts, written out as a language by literal codes. */
module MultipartLanguage {
  import opened Bytes
  import opened MultipartMachine
  import opened MultipartLaws
  import opened MultipartRuns

  type Text = seq<Byte>

  // ---- token characters ----

  const SEPARATORS := "()<>@,;:\\\"/" + "[]?={} \t"

  /** The ASCII characters that are no control character or separator of section 2.2 of RFC 2616. */
  lemma TokensAreStandard(c: Byte)
    ensures IsToken(c) <==> 32 <= c < 127 && forall i :: 0 <= i < |SEPARATORS| ==> SEPARATORS[i] as int != c
  {
    var a, b := "()<>@,;:\\\"/", "[]?={} \t";
    assert forall i :: 0 <= i < |a| ==> SEPARATORS[i] == a[i];
    assert forall i :: 0 <= i < |b| ==> SEPARATORS[|a| + i] == b[i];
    if 32 <= c < 127 && !IsToken(c) {
      assert a[0] as int == 40 && a[1] as int == 41 && a[2] as int == 60 && a[3] as int == 62 && a[4] as int == 64;
      assert a[5] as int == 44 && a[6] as int == 59 && a[7] as int == 58 && a[8] as int == 92 && a[9] as int == 34;
      assert a[10] as int == 47 && b[0] as int == 91 && b[1] as int == 93 && b[2] as int == 63 && b[3] as int == 61;
      assert b[4] as int == 123 && b[5] as int == 125 && b[6] as int == 32 && b[7] as int == 9;
    }
    if IsToken(c) {
      forall i | 0 <= i < |SEPARATORS| ensures SEPARATORS[i] as int != c {
        if i < |a| {
          NoSeparatorIsToken(a[i], b[0]);
        } else {
          NoSeparatorIsToken(a[0], b[i - |a|]);
        }
      }
    }
  }

  lemma NoSeparatorIsToken(x: char, y: char)
    requires x in "()<>@,;:\\\"/" && y in "[]?={} \t"
    ensures x as int < 256 && !IsToken(x as int) && y as int < 256 && !IsToken(y as int)
  {
  }

  // ---- the language ----

  predicate NoTwoHyphens(s: Text) {
    forall i :: 0 <= i < |s| - 1 ==> !(s[i] == 45 && s[i + 1] == 45)
  }

  /** What is skipped before the first boundary. */
  predicate IsPreamble(s: Text) {
    NoTwoHyphens(s) && (s != [] ==> s[|s| - 1] != 45)
  }

  datatype Line = Line(name: Text, blanks: Text, value: Text)

  /** A token, or nothing; blanks; a value in one line that does not begin with a blank. */
  predicate IsLine(l: Line) {
    && (forall c :: c in l.name ==> IsToken(c)) && (forall c :: c in l.blanks ==> c == 32 || c == 9)
    && 13 !in l.value && (l.value != [] ==> l.value[0] != 32 && l.value[0] != 9)
  }

  function LineText(l: Line): Text {
    l.name + [58] + l.blanks + l.value + [13, 10]
  }

  function LinesText(ls: seq<Line>): Text
    decreases |ls|
  {
    if ls == [] then [] else LinesText(ls[..|ls| - 1]) + LineText(ls[|ls| - 1])
  }

  datatype Item = Item(lines: seq<Line>, body: Text)

  predicate AreLines(ls: seq<Line>) {
    forall i :: 0 <= i < |ls| ==> IsLine(ls[i])
  }

  /** A part, up to and with the delimiter that ends it. */
  function ItemText(boundary: Text, it: Item): Text {
    LinesText(it.lines) + [13, 10] + it.body + [13, 10, 45, 45] + boundary
  }

  /** Parts that are followed by another. */
  function ItemsText(boundary: Text, items: seq<Item>): Text
    decreases |items|
  {
    if items == [] then []
    else ItemsText(boundary, items[..|items| - 1]) + ItemText(boundary, items[|items| - 1]) + [13, 10]
  }

  predicate AreItems(items: seq<Item>) {
    forall i :: 0 <= i < |items| ==> AreLines(items[i].lines)
  }

  /** All up to the start of some part. */
  function FrontText(boundary: Text, pre: Text, items: seq<Item>): Text {
    pre + [45, 45] + boundary + [13, 10] + ItemsText(boundary, items)
  }

  /** Preamble, boundary line, parts with a delimiter between each two, the last one closed by hyphens, epilogue. */
  function WholeText(boundary: Text, pre: Text, items: seq<Item>, last: Item, epilogue: Text): Text {
    FrontText(boundary, pre, items) + ItemText(boundary, last) + [45, 45] + epilogue
  }

  ghost predicate IsWhole(boundary: Text, s: Text) {
    exists pre, items, last, epilogue ::
      IsPreamble(pre) && AreItems(items + [last]) && s == WholeText(boundary, pre, items, last, epilogue)
  }

  // ---- all that is accepted to its end is in the language ----

  /** What was read so far, as far as it can be told apart. */
  datatype Reading =
    | Skipping(pre: Text)
    | InBoundary(pre: Text, k: nat)
    | InLine(pre: Text, items: seq<Item>, lines: seq<Line>, line: Line)
    | InBody(pre: Text, items: seq<Item>, lines: seq<Line>, body: Text)
    | Closing(pre: Text, items: seq<Item>, last: Item)
    | Ended(pre: Text, items: seq<Item>, last: Item, epilogue: Text)

  /** The line at hand, as far as the state has got in it. */
  function Partial(l: Line, s: State): Text {
    match s
    case HeaderFieldStart => []
    case HeaderField => l.name
    case HeaderValueStart => l.name + [58] + l.blanks
    case HeaderValue => l.name + [58] + l.blanks + l.value
    case HeaderValueCr => l.name + [58] + l.blanks + l.value + [13]
    case _ => [13]
  }

  function TextOf(boundary: Text, r: Reading, m: Machine): Text {
    match r
    case Skipping(pre) => pre
    case InBoundary(pre, k) => pre + [45, 45] + (boundary + [13])[..if k <= |boundary| then k else |boundary| + 1]
    case InLine(pre, items, lines, line) =>
      FrontText(boundary, pre, items) + LinesText(lines) + Partial(line, m.state)
    case InBody(pre, items, lines, body) => FrontText(boundary, pre, items) + LinesText(lines) + [13, 10] + body
    case Closing(pre, items, last) =>
      FrontText(boundary, pre, items) + ItemText(boundary, last) + [if m.state.DataBoundaryDoneCrLf? then 13 else 45]
    case Ended(pre, items, last, epilogue) => WholeText(boundary, pre, items, last, epilogue)
  }

  /** The reading is one of the state. */
  ghost predicate Reads(boundary: Text, r: Reading, m: Machine)
    requires Bounded(boundary, m)
  {
    match r
    case Skipping(pre) =>
      && NoTwoHyphens(pre) && (m.state.Preamble? || m.state.PreambleHyHy?)
      && (m.state.PreambleHyHy? <==> pre != [] && pre[|pre| - 1] == 45)
    case InBoundary(pre, k) => IsPreamble(pre) && m.state.FirstBoundary? && k == m.index
    case InLine(pre, items, lines, line) =>
      && IsPreamble(pre) && AreItems(items) && AreLines(lines) && IsLine(line) && InHeaders(m.state)
      && (m.state.HeaderValueStart? ==> line.value == []) && (m.state.HeaderValue? ==> line.value != [])
    case InBody(pre, items, lines, body) =>
      && IsPreamble(pre) && AreItems(items) && AreLines(lines) && Inside(m)
      && |Held(boundary, m)| <= |body| && body[|body| - |Held(boundary, m)|..] == Held(boundary, m)
    case Closing(pre, items, last) =>
      && IsPreamble(pre) && AreItems(items + [last])
      && (m.state.DataBoundaryDoneCrLf? || m.state.DataBoundaryDoneHyHy?)
    case Ended(pre, items, last, _) => IsPreamble(pre) && AreItems(items + [last]) && m.state.Epilogue?
  }

  /** A byte more. */
  ghost predicate Extends(boundary: Text, r: Reading, m: Machine, c: Byte, r': Reading) {
    Bounded(boundary, m) && var t := Step(boundary, m, c);
    Reads(boundary, r', t.m) && TextOf(boundary, r', t.m) == TextOf(boundary, r, m) + [c]
  }

  lemma SkipStep(boundary: Text, r: Reading, m: Machine, c: Byte) returns (r': Reading)
    requires Bounded(boundary, m) && r.Skipping? && Reads(boundary, r, m) && Step(boundary, m, c).verdict.Advance?
    ensures Extends(boundary, r, m, c, r')
  {
    hide Step, IsPreamble, NoTwoHyphens;
    SkipTurn(boundary, m, c);
    if m.state.PreambleHyHy? && c == HYPHEN {
      var pre := r.pre[..|r.pre| - 1];
      BoundaryBegins(boundary, r.pre, pre);
      r' := InBoundary(pre, 0);
    } else {
      SkipMore(r.pre, c);
      r' := Skipping(r.pre + [c]);
    }
  }

  lemma BoundaryBegins(boundary: Text, all: Text, pre: Text)
    requires NoTwoHyphens(all) && all != [] && all[|all| - 1] == 45 && pre == all[..|all| - 1]
    ensures IsPreamble(pre)
    ensures pre + [45, 45] + (boundary + [13])[..0] == all + [45]
  {
    hide IsPreamble, NoTwoHyphens;
    assert all == pre + [45];
    DropHyphen(pre);
  }

  lemma SkipTurn(boundary: Text, m: Machine, c: Byte)
    requires Bounded(boundary, m) && (m.state.Preamble? || m.state.PreambleHyHy?)
    ensures Step(boundary, m, c).m ==
            Machine(if c != 45 then Preamble else if m.state.Preamble? then PreambleHyHy else FirstBoundary, 0)
  {
  }

  lemma DropHyphen(pre: Text)
    requires NoTwoHyphens(pre + [45])
    ensures IsPreamble(pre)
  {
    assert forall i :: 0 <= i < |pre| ==> (pre + [45])[i] == pre[i];
    assert (pre + [45])[|pre|] == 45;
  }

  lemma SkipMore(pre: Text, c: Byte)
    requires NoTwoHyphens(pre) && (pre != [] && pre[|pre| - 1] == 45 ==> c != 45)
    ensures NoTwoHyphens(pre + [c])
  {
    assert forall i :: 0 <= i < |pre| ==> (pre + [c])[i] == pre[i];
  }

  lemma BoundaryStep(boundary: Text, r: Reading, m: Machine, c: Byte) returns (r': Reading)
    requires Bounded(boundary, m) && r.InBoundary? && Reads(boundary, r, m) && Step(boundary, m, c).verdict.Advance?
    ensures Extends(boundary, r, m, c, r')
  {
    var b := boundary + [13];
    if m.index == |boundary| + 1 {
      r' := InLine(r.pre, [], [], Line([], [], []));
      assert b[..|b|] == b;
      assert FrontText(boundary, r.pre, []) + LinesText([]) + [] == r.pre + [45, 45] + b + [10];
    } else {
      r' := InBoundary(r.pre, r.k + 1);
      assert b[..r.k + 1] == b[..r.k] + [b[r.k]];
      assert r.pre + [45, 45] + (b[..r.k] + [b[r.k]]) == r.pre + [45, 45] + b[..r.k] + [b[r.k]];
    }
  }

  /** The line that a byte leads to, and what is then read of it. */
  function NextLine(l: Line, s: State, c: Byte): Line {
    match s
    case HeaderFieldStart => if IsToken(c) then Line([c], [], []) else Line([], [], [])
    case HeaderField => if IsToken(c) then Line(l.name + [c], [], []) else Line(l.name, [], [])
    case HeaderValueStart =>
      if c == 32 || c == 9 then Line(l.name, l.blanks + [c], [])
          else Line(l.name, l.blanks, if c == 13 then [] else [c])
    case HeaderValue => Line(l.name, l.blanks, if c == 13 then l.value else l.value + [c])
    case _ => l
  }

  lemma LineGrows(l: Line, s: State, c: Byte, s': State)
    requires IsLine(l) && (s.HeaderValueStart? ==> l.value == []) && (s.HeaderValue? ==> l.value != [])
    requires match s
             case HeaderFieldStart => (IsToken(c) && s' == HeaderField) || (c == 58 && s' == HeaderValueStart)
             case HeaderField => (IsToken(c) && s' == HeaderField) || (c == 58 && s' == HeaderValueStart)
             case HeaderValueStart =>
               if c == 32 || c == 9 then s' == HeaderValueStart
               else s' == if c == 13 then HeaderValueCr else HeaderValue
             case HeaderValue => s' == if c == 13 then HeaderValueCr else HeaderValue
             case _ => false
    ensures var l' := NextLine(l, s, c);
            && IsLine(l') && Partial(l', s') == Partial(l, s) + [c]
            && (s'.HeaderValueStart? ==> l'.value == []) && (s'.HeaderValue? ==> l'.value != [])
  {
    assert !IsToken(58);
  }

  lemma Append3(a: Text, b: Text, c: Text, d: Text)
    ensures a + b + (c + d) == a + b + c + d
  {
  }

  lemma LineStep(boundary: Text, r: Reading, m: Machine, c: Byte) returns (r': Reading)
    requires Bounded(boundary, m) && r.InLine? && Reads(boundary, r, m) && Step(boundary, m, c).verdict.Advance?
    ensures Extends(boundary, r, m, c, r')
  {
    hide IsLine, FrontText, LinesText, AreItems;
    var front := FrontText(boundary, r.pre, r.items);
    if m.state.HeaderValueCr? {
      r' := InLine(r.pre, r.items, r.lines + [r.line], Line([], [], []));
      LinesMore(r.lines, r.line);
      EmptyLine();
      assert Partial(r.line, HeaderValueCr) + [10] == LineText(r.line);
      Append3(front, LinesText(r.lines), Partial(r.line, HeaderValueCr), [10]);
      assert front + (LinesText(r.lines) + LineText(r.line)) + [] == front + LinesText(r.lines) + LineText(r.line);
    } else if m.state.HeadersDone? {
      r' := InBody(r.pre, r.items, r.lines, []);
      assert front + LinesText(r.lines) + [13, 10] + [] == front + LinesText(r.lines) + [13] + [10];
    } else if m.state.HeaderFieldStart? && c == CR {
      r' := r;
      assert front + LinesText(r.lines) + [] + [13] == front + LinesText(r.lines) + [13];
    } else {
      var s' := Step(boundary, m, c).m.state;
      LineGrows(r.line, m.state, c, s');
      r' := InLine(r.pre, r.items, r.lines, NextLine(r.line, m.state, c));
      Append3(front, LinesText(r.lines), Partial(r.line, m.state), [c]);
    }
  }

  lemma EmptyLine()
    ensures IsLine(Line([], [], []))
  {
  }

  lemma LinesMore(ls: seq<Line>, l: Line)
    ensures LinesText(ls + [l]) == LinesText(ls) + LineText(l)
  {
    assert (ls + [l])[..|ls|] == ls;
  }

  lemma ItemsMore(boundary: Text, items: seq<Item>, it: Item)
    ensures ItemsText(boundary, items + [it]) == ItemsText(boundary, items) + ItemText(boundary, it) + [13, 10]
  {
    assert (items + [it])[..|items|] == items;
  }

  lemma BodyStep(boundary: Text, r: Reading, m: Machine, c: Byte) returns (r': Reading)
    requires Bounded(boundary, m) && r.InBody? && Reads(boundary, r, m) && Step(boundary, m, c).verdict.Advance?
    requires !AtEnd(boundary, m)
    ensures Extends(boundary, r, m, c, r')
  {
    r' := InBody(r.pre, r.items, r.lines, r.body + [c]);
    var x := FrontText(boundary, r.pre, r.items) + LinesText(r.lines) + [13, 10];
    assert x + (r.body + [c]) == x + r.body + [c];
    hide Step, FrontText, LinesText, AreItems, AreLines, Switch;
    if Releases(boundary, m, c) {
      ReleaseStep(boundary, m, c);
    } else {
      HoldStep(boundary, m, c);
      var held := Held(boundary, m);
      assert (r.body + [c])[|r.body| - |held|..] == r.body[|r.body| - |held|..] + [c];
    }
  }

  /** After a whole delimiter. */
  lemma DelimiterStep(boundary: Text, r: Reading, m: Machine, c: Byte) returns (r': Reading)
    requires Bounded(boundary, m) && r.InBody? && Reads(boundary, r, m) && Step(boundary, m, c).verdict.Advance?
    requires AtEnd(boundary, m)
    ensures Extends(boundary, r, m, c, r')
  {
    HeldAtEnd(boundary, m);
    AfterEnd(boundary, m, c);
    hide Step, FrontText, LinesText, Held, AtEnd, AreLines, Inside, IsPreamble;
    var d := Delimiter(boundary);
    var body := r.body[..|r.body| - |d|];
    assert r.body == body + d;
    var last := Item(r.lines, body);
    r' := Closing(r.pre, r.items, last);
    LastItem(r.items, last);
    DelimiterText(boundary);
    ItemAtEnd(FrontText(boundary, r.pre, r.items), LinesText(r.lines), body, boundary, c);
  }

  lemma LastItem(items: seq<Item>, last: Item)
    requires AreItems(items) && AreLines(last.lines)
    ensures AreItems(items + [last])
  {
  }

  lemma DelimiterText(boundary: Text)
    ensures Delimiter(boundary) == [13, 10, 45, 45] + boundary
  {
  }

  lemma ItemAtEnd(front: Text, lines: Text, body: Text, boundary: Text, c: Byte)
    ensures front + (lines + [13, 10] + body + [13, 10, 45, 45] + boundary) + [c] ==
            front + lines + [13, 10] + (body + ([13, 10, 45, 45] + boundary)) + [c]
  {
  }

  lemma HeldAtEnd(boundary: Text, m: Machine)
    requires Bounded(boundary, m) && Inside(m) && AtEnd(boundary, m)
    ensures Held(boundary, m) == Delimiter(boundary)
  {
    assert boundary[..|boundary|] == boundary && (boundary == [] ==> DASHES + boundary == DASHES);
  }

  lemma AfterEnd(boundary: Text, m: Machine, c: Byte)
    requires Bounded(boundary, m) && Inside(m) && AtEnd(boundary, m) && Step(boundary, m, c).verdict.Advance?
    ensures (c == 13 || c == 45) && Bounded(boundary, Step(boundary, m, c).m)
    ensures Step(boundary, m, c).m.state == if c == 13 then DataBoundaryDoneCrLf else DataBoundaryDoneHyHy
  {
    hide SwitchHeaders, SwitchData;
    assert Switch(boundary, m, c) == Turn(Machine(DataBoundaryDone, 0), [], Again);
  }

  lemma ClosingStep(boundary: Text, r: Reading, m: Machine, c: Byte) returns (r': Reading)
    requires Bounded(boundary, m) && r.Closing? && Reads(boundary, r, m) && Step(boundary, m, c).verdict.Advance?
    ensures Extends(boundary, r, m, c, r')
  {
    hide ItemText, ItemsText, LinesText;
    var front, item := FrontText(boundary, r.pre, r.items), ItemText(boundary, r.last);
    if m.state.DataBoundaryDoneCrLf? {
      r' := InLine(r.pre, r.items + [r.last], [], Line([], [], []));
      ItemsMore(boundary, r.items, r.last);
      NoLines();
      var x := r.pre + [45, 45] + boundary + [13, 10];
      FrontMore(x, ItemsText(boundary, r.items), item);
    } else {
      r' := Ended(r.pre, r.items, r.last, []);
      assert front + item + [45] + [45] == front + item + [45, 45] + [];
    }
  }

  lemma NoLines()
    ensures LinesText([]) == []
  {
  }

  lemma FrontMore(x: Text, items: Text, item: Text)
    ensures x + (items + item + [13, 10]) + [] + [] == x + items + item + [13] + [10]
  {
  }

  lemma EndedStep(boundary: Text, r: Reading, m: Machine, c: Byte) returns (r': Reading)
    requires Bounded(boundary, m) && r.Ended? && Reads(boundary, r, m)
    ensures Extends(boundary, r, m, c, r')
  {
    hide FrontText, ItemText, AreItems;
    r' := r.(epilogue := r.epilogue + [c]);
    var x := FrontText(boundary, r.pre, r.items) + ItemText(boundary, r.last) + [45, 45];
    assert x + (r.epilogue + [c]) == x + r.epilogue + [c];
  }

  lemma ReadStep(boundary: Text, r: Reading, m: Machine, c: Byte) returns (r': Reading)
    requires Bounded(boundary, m) && Reads(boundary, r, m) && Step(boundary, m, c).verdict.Advance?
    ensures Extends(boundary, r, m, c, r')
  {
    hide Step, Reads, Extends;
    match r
    case Skipping(_) => r' := SkipStep(boundary, r, m, c);
    case InBoundary(_, _) => r' := BoundaryStep(boundary, r, m, c);
    case InLine(_, _, _, _) => r' := LineStep(boundary, r, m, c);
    case InBody(_, _, _, _) =>
      if AtEnd(boundary, m) {
        r' := DelimiterStep(boundary, r, m, c);
      } else {
        r' := BodyStep(boundary, r, m, c);
      }
    case Closing(_, _, _) => r' := ClosingStep(boundary, r, m, c);
    case Ended(_, _, _, _) => r' := EndedStep(boundary, r, m, c);
  }

  /** Whatever is accepted can be read. */
  lemma {:induction false} AcceptedIsRead(boundary: Text, s: Text) returns (r: Reading)
    requires Feed(boundary, START, s).ok
    ensures var m := Feed(boundary, START, s).m;
            Reads(boundary, r, m) && TextOf(boundary, r, m) == s
    decreases |s|
  {
    if s == [] {
      r := Skipping([]);
    } else {
      var init, c := s[..|s| - 1], s[|s| - 1];
      assert s == init + [c];
      FeedConcat(boundary, START, init, [c]);
      var m := Feed(boundary, START, init).m;
      OneFed(boundary, m, c);
      hide Feed, Step, Reads;
      var q := AcceptedIsRead(boundary, init);
      r := ReadStep(boundary, q, m, c);
    }
  }

  lemma OneFed(boundary: Text, m: Machine, c: Byte)
    requires Bounded(boundary, m)
    ensures var t := Step(boundary, m, c);
            if t.verdict.Advance? then Feed(boundary, m, [c]) == Fed(t.m, t.notes, 1, true)
            else !Feed(boundary, m, [c]).ok
  {
    hide Step;
    var t := Step(boundary, m, c);
    assert [c][1..] == [] && t.notes + [] == t.notes;
  }

  /** What is accepted up to the end of the body is in the language. */
  lemma AcceptedIsWhole(boundary: Text, s: Text)
    requires Feed(boundary, START, s).ok && Feed(boundary, START, s).m.state.Epilogue?
    ensures IsWhole(boundary, s)
  {
    hide Feed, WholeText;
    var r := AcceptedIsRead(boundary, s);
  }

  // ---- all that is accepted can be gone on with to such an end ----

  lemma {:induction false} RestOfBoundaryGoes(boundary: Text, i: nat)
    requires IsAscii(boundary) && i <= |boundary|
    ensures Goes(boundary, Machine(FirstBoundary, i), boundary[i..] + [13, 10], Machine(HeaderFieldStart, 0),
            [BodyBegin, PartBegin])
    decreases |boundary| - i
  {
    var m := Machine(FirstBoundary, i);
    if i == |boundary| {
      PairGoes(boundary, m, CR, LF);
      assert boundary[i..] + [13, 10] == [CR, LF] && [] + [BodyBegin, PartBegin] == [BodyBegin, PartBegin];
    } else {
      assert boundary[i] in boundary;
      ByteGoes(boundary, m, boundary[i]);
      RestOfBoundaryGoes(boundary, i + 1);
      GoesOn(boundary, m, [boundary[i]], Machine(FirstBoundary, i + 1), [],
             boundary[i + 1..] + [13, 10], Machine(HeaderFieldStart, 0), [BodyBegin, PartBegin]);
      assert [boundary[i]] + (boundary[i + 1..] + [13, 10]) == boundary[i..] + [13, 10];
    }
  }

  /** Some bytes lead to the end of the body. */
  ghost predicate CanEnd(boundary: Text, m: Machine) {
    Bounded(boundary, m) && exists more :: Ends(boundary, m, more)
  }

  ghost predicate Ends(boundary: Text, m: Machine, more: Text)
    requires Bounded(boundary, m)
  {
    Feed(boundary, m, more).ok && Feed(boundary, m, more).m.state.Epilogue?
  }

  lemma EndsAfter(boundary: Text, m: Machine, x: Text, m': Machine, notes: seq<Note>)
    requires Goes(boundary, m, x, m', notes) && CanEnd(boundary, m')
    ensures CanEnd(boundary, m)
  {
    hide Feed;
    var more :| Ends(boundary, m', more);
    FeedConcat(boundary, m, x, more);
    assert Ends(boundary, m, x + more);
  }

  lemma BytesThenEnds(boundary: Text, m: Machine, c: Byte)
    requires Bounded(boundary, m) && Step(boundary, m, c).verdict.Advance? && CanEnd(boundary, Step(boundary, m, c).m)
    ensures CanEnd(boundary, m)
  {
    hide Step;
    ByteGoes(boundary, m, c);
    EndsAfter(boundary, m, [c], Step(boundary, m, c).m, Step(boundary, m, c).notes);
  }

  lemma EpilogueEnds(boundary: Text, m: Machine)
    requires Bounded(boundary, m) && m.state.Epilogue?
    ensures CanEnd(boundary, m)
  {
    assert Ends(boundary, m, []);
  }

  lemma DelimitedEnds(boundary: Text, m: Machine)
    requires Bounded(boundary, m) && Inside(m) && AtEnd(boundary, m)
    ensures CanEnd(boundary, m)
  {
    hide SwitchHeaders, SwitchData;
    assert Switch(boundary, m, HYPHEN) == Turn(Machine(DataBoundaryDone, 0), [], Again);
    var done := Step(boundary, m, HYPHEN).m;
    assert done == Machine(DataBoundaryDoneHyHy, 0);
    HyphensEnd(boundary, done);
    BytesThenEnds(boundary, m, HYPHEN);
  }

  lemma HyphensEnd(boundary: Text, m: Machine)
    requires Bounded(boundary, m) && m.state.DataBoundaryDoneHyHy?
    ensures CanEnd(boundary, m)
  {
    EpilogueEnds(boundary, Step(boundary, m, HYPHEN).m);
    BytesThenEnds(boundary, m, HYPHEN);
  }

  lemma DataEnds(boundary: Text, m: Machine)
    requires IsAscii(boundary) && Bounded(boundary, m) && m.state.InData?
    ensures CanEnd(boundary, m)
  {
    NothingHasNoDelimiter(boundary);
    BodyLaw(boundary, m, []);
    var f := Feed(boundary, m, [] + Delimiter(boundary));
    DelimitedEnds(boundary, f.m);
    hide Feed;
    EndsAfter(boundary, m, [] + Delimiter(boundary), f.m, f.notes);
  }

  lemma NothingHasNoDelimiter(boundary: Text)
    ensures NoDelimiter(boundary, [])
  {
  }

  /** A byte that no ASCII boundary has ends whatever is held. */
  lemma BodyEnds(boundary: Text, m: Machine)
    requires IsAscii(boundary) && Bounded(boundary, m) && Inside(m)
    ensures CanEnd(boundary, m)
  {
    if AtEnd(boundary, m) {
      DelimitedEnds(boundary, m);
    } else if m.state.InData? {
      DataEnds(boundary, m);
    } else {
      assert m.state.DataBoundary? ==> boundary[m.index] in boundary;
      assert m.state.DataBoundaryStart? ==> boundary[0] in boundary;
      HighByteReleases(boundary, m);
      DataEnds(boundary, Step(boundary, m, 255).m);
      BytesThenEnds(boundary, m, 255);
    }
  }

  lemma HighByteReleases(boundary: Text, m: Machine)
    requires Bounded(boundary, m) && Inside(m) && !AtEnd(boundary, m) && !m.state.InData?
    requires m.state.DataBoundary? ==> boundary[m.index] < 128
    requires m.state.DataBoundaryStart? ==> boundary[0] < 128
    ensures Step(boundary, m, 255).verdict.Advance? && Step(boundary, m, 255).m.state.InData?
  {
    var t := Switch(boundary, m, 255);
    assert t.verdict.Again? && t.m.state.InData?;
  }

  lemma HeaderStartEnds(boundary: Text, m: Machine)
    requires IsAscii(boundary) && Bounded(boundary, m) && (m.state.HeaderFieldStart? || m.state.HeadersDone?)
    ensures CanEnd(boundary, m)
  {
    var done := m.(state := HeadersDone);
    assert Step(boundary, done, LF).m == m.(state := InData);
    DataEnds(boundary, m.(state := InData));
    BytesThenEnds(boundary, done, LF);
    if m.state.HeaderFieldStart? {
      assert Step(boundary, m, CR).m == done;
      BytesThenEnds(boundary, m, CR);
    }
  }

  lemma HeadersEnd(boundary: Text, m: Machine)
    requires IsAscii(boundary) && Bounded(boundary, m) && InHeaders(m.state)
    ensures CanEnd(boundary, m)
  {
    if m.state.HeaderFieldStart? || m.state.HeadersDone? {
      HeaderStartEnds(boundary, m);
    } else {
      var cr := m.(state := HeaderValueCr);
      HeaderStartEnds(boundary, m.(state := HeaderFieldStart));
      BytesThenEnds(boundary, cr, LF);
      if m.state.HeaderField? {
        var v := m.(state := HeaderValueStart);
        assert Step(boundary, v, CR).m == cr && Step(boundary, m, COLON).m == v;
        BytesThenEnds(boundary, v, CR);
        BytesThenEnds(boundary, m, COLON);
      } else if !m.state.HeaderValueCr? {
        assert Step(boundary, m, CR).m == cr;
        BytesThenEnds(boundary, m, CR);
      }
    }
  }

  lemma BoundaryEnds(boundary: Text, m: Machine)
    requires IsAscii(boundary) && Bounded(boundary, m) && m.state.FirstBoundary?
    ensures CanEnd(boundary, m)
  {
    var start := Machine(HeaderFieldStart, 0);
    HeaderStartEnds(boundary, start);
    if m.index == |boundary| + 1 {
      assert Step(boundary, m, LF).m == start;
      hide CanEnd;
      BytesThenEnds(boundary, m, LF);
    } else {
      RestOfBoundaryGoes(boundary, m.index);
      hide CanEnd, Goes, Step;
      EndsAfter(boundary, m, boundary[m.index..] + [13, 10], start, [BodyBegin, PartBegin]);
    }
  }

  lemma OpeningEnds(boundary: Text, m: Machine)
    requires IsAscii(boundary) && Bounded(boundary, m) && PlaceOf(m.state) == Before
    ensures CanEnd(boundary, m)
  {
    hide CanEnd, IsAscii;
    if m.state.FirstBoundary? {
      BoundaryEnds(boundary, m);
    } else {
      var hy := Machine(PreambleHyHy, 0);
      BoundaryEnds(boundary, Machine(FirstBoundary, 0));
      assert Step(boundary, hy, HYPHEN).m == Machine(FirstBoundary, 0);
      BytesThenEnds(boundary, hy, HYPHEN);
      if m.state.Preamble? {
        assert Step(boundary, m, HYPHEN).m == hy;
        BytesThenEnds(boundary, m, HYPHEN);
      }
    }
  }

  lemma AnyEnds(boundary: Text, m: Machine)
    requires IsAscii(boundary) && Bounded(boundary, m)
    ensures CanEnd(boundary, m)
  {
    hide IsAscii, CanEnd, Step;
    if PlaceOf(m.state) == Before {
      OpeningEnds(boundary, m);
    } else if InHeaders(m.state) {
      HeadersEnd(boundary, m);
    } else if Inside(m) {
      BodyEnds(boundary, m);
    } else if m.state.Epilogue? {
      EpilogueEnds(boundary, m);
    } else {
      DoneEnds(boundary, m);
    }
  }

  lemma DoneEnds(boundary: Text, m: Machine)
    requires IsAscii(boundary) && Bounded(boundary, m) && PastBoundary(m.state)
    ensures CanEnd(boundary, m)
  {
    if m.state.DataBoundaryDoneCrLf? {
      HeaderStartEnds(boundary, Step(boundary, m, LF).m);
      BytesThenEnds(boundary, m, LF);
    } else {
      HyphensEnd(boundary, m.(state := DataBoundaryDoneHyHy));
      if m.state.DataBoundaryDone? {
        assert Step(boundary, m, HYPHEN).m == m.(state := DataBoundaryDoneHyHy);
        BytesThenEnds(boundary, m, HYPHEN);
      }
    }
  }

  /**
   * With an ASCII boundary: bytes are accepted iff some more lead to the end of the body; then the
   * whole is in the language.
   */
  lemma AcceptedIff(boundary: Text, s: Text)
    requires IsAscii(boundary)
    ensures Feed(boundary, START, s).ok <==> exists more :: Ends(boundary, START, s + more)
    ensures forall more :: Ends(boundary, START, s + more) ==> IsWhole(boundary, s + more)
  {
    hide Feed, IsAscii;
    if Feed(boundary, START, s).ok {
      AnyEnds(boundary, Feed(boundary, START, s).m);
      var more :| Ends(boundary, Feed(boundary, START, s).m, more);
      FeedConcat(boundary, START, s, more);
      assert Ends(boundary, START, s + more);
    }
    if more :| Ends(boundary, START, s + more) {
      FeedConcat(boundary, START, s, more);
    }
    forall more | Ends(boundary, START, s + more) ensures IsWhole(boundary, s + more) {
      AcceptedIsWhole(boundary, s + more);
    }
  }

  // ---- preambles and lines are accepted ----

  lemma {:induction false} PreambleGoes(boundary: Text, s: State, x: Text)
    requires (s == Preamble || s == PreambleHyHy) && NoTwoHyphens(x) && (s == PreambleHyHy && x != [] ==> x[0] != 45)
    ensures var s' := if x == [] then s else if x[|x| - 1] == 45 then PreambleHyHy else Preamble;
            Goes(boundary, Machine(s, 0), x, Machine(s', 0), [])
    decreases |x|
  {
    if x != [] {
      var m, t := Machine(s, 0), Machine(if x[0] == 45 then PreambleHyHy else Preamble, 0);
      assert Step(boundary, m, x[0]) == Turn(t, [], Advance);
      ByteGoes(boundary, m, x[0]);
      assert forall i :: 0 <= i < |x| - 1 ==> x[1..][i] == x[i + 1];
      PreambleGoes(boundary, t.state, x[1..]);
      hide Goes, Step;
      var s' := if x[|x| - 1] == 45 then PreambleHyHy else Preamble;
      GoesOn(boundary, m, [x[0]], t, [], x[1..], Machine(s', 0), []);
      assert [x[0]] + x[1..] == x;
    }
  }

  /** A preamble changes nothing of what the rest yields, but the count of bytes. */
  lemma PreambleIsSkipped(boundary: Text, x: Text, rest: Text)
    requires IsPreamble(x)
    ensures Feed(boundary, START, x + rest) == After([], |x|, Feed(boundary, START, rest))
  {
    PreambleGoes(boundary, Preamble, x);
    hide Feed;
    FeedConcat(boundary, START, x, rest);
  }

  lemma {:induction false} BlanksGo(boundary: Text, i: nat, blanks: Text)
    requires i <= |boundary| + 1 && forall c :: c in blanks ==> c == 32 || c == 9
    ensures Goes(boundary, Machine(HeaderValueStart, i), blanks, Machine(HeaderValueStart, i), [])
    decreases |blanks|
  {
    if blanks != [] {
      var m := Machine(HeaderValueStart, i);
      assert blanks[0] in blanks && Step(boundary, m, blanks[0]) == Turn(m, [], Advance);
      ByteGoes(boundary, m, blanks[0]);
      assert forall c :: c in blanks[1..] ==> c in blanks;
      BlanksGo(boundary, i, blanks[1..]);
      hide Goes, Step;
      GoesOn(boundary, m, [blanks[0]], m, [], blanks[1..], m, []);
      assert [blanks[0]] + blanks[1..] == blanks;
    }
  }

  /** A header line of the language tells its name and its value, and none of the blanks between them. */
  lemma LineGoes(boundary: Text, i: nat, l: Line)
    requires i <= |boundary| + 1 && IsLine(l)
    ensures Goes(boundary, Machine(HeaderFieldStart, i), LineText(l), Machine(HeaderFieldStart, i),
                 FieldNotes(l.name) + ValueNotes(l.value))
  {
    ColonGoes(boundary, i, l.name);
    BlanksGo(boundary, i, l.blanks);
    ValueThenLine(boundary, i, l.value);
    LineInThree(l);
    hide *;
    var m, v := Machine(HeaderFieldStart, i), Machine(HeaderValueStart, i);
    GoesOn(boundary, v, l.blanks, v, [], l.value + [13, 10], m, ValueNotes(l.value));
    assert [] + ValueNotes(l.value) == ValueNotes(l.value);
    GoesOn(boundary, m, l.name + [58], v, FieldNotes(l.name), l.blanks + (l.value + [13, 10]), m, ValueNotes(l.value));
  }

  lemma LineInThree(l: Line)
    ensures LineText(l) == l.name + [58] + (l.blanks + (l.value + [13, 10]))
  {
  }

  lemma ColonGoes(boundary: Text, i: nat, name: Text)
    requires i <= |boundary| + 1 && forall c :: c in name ==> IsToken(c)
    ensures Goes(boundary, Machine(HeaderFieldStart, i), name + [58], Machine(HeaderValueStart, i), FieldNotes(name))
  {
    var m, f, v := Machine(HeaderFieldStart, i), Machine(HeaderField, i), Machine(HeaderValueStart, i);
    if name == [] {
      assert Step(boundary, m, COLON) == Turn(v, [], Advance);
      ByteGoes(boundary, m, COLON);
      assert name + [58] == [COLON] && FieldNotes(name) == [];
    } else {
      NameGoes(boundary, m, name);
      assert Step(boundary, f, COLON) == Turn(v, [], Advance);
      ByteGoes(boundary, f, COLON);
      hide Goes;
      GoesOn(boundary, m, name, f, FieldNotes(name), [58], v, []);
      assert FieldNotes(name) + [] == FieldNotes(name);
    }
  }

  lemma ValueThenLine(boundary: Text, i: nat, value: Text)
    requires i <= |boundary| + 1
    requires 13 !in value && (value != [] ==> value[0] != 32 && value[0] != 9)
    ensures Goes(boundary, Machine(HeaderValueStart, i), value + [13, 10], Machine(HeaderFieldStart, i),
                 ValueNotes(value))
  {
    var m, v, f := Machine(HeaderValueStart, i), Machine(HeaderValue, i), Machine(HeaderFieldStart, i);
    PairGoes(boundary, m, CR, LF);
    PairGoes(boundary, v, CR, LF);
    if value == [] {
      assert value + [13, 10] == [CR, LF] && ValueNotes(value) == [];
    } else {
      assert Step(boundary, m, value[0]) == Turn(v, [ValueByte(value[0])], Advance);
      ByteGoes(boundary, m, value[0]);
      ValueGoes(boundary, v, value[1..]);
      FirstThenRest(boundary, m, v, value, v);
      hide Goes, Step;
      GoesOn(boundary, m, value, v, ValueNotes(value), [13, 10], f, []);
      assert ValueNotes(value) + [] == ValueNotes(value);
    }
  }
}
