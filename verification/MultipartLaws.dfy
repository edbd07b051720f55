/** What the machine makes of bodies and of printed parts. */
module MultipartLaws {
  import opened Bytes
  import opened MultipartMachine

  /** What precedes the boundary in a closing delimiter. */
  const DASHES: seq<Byte> := [CR, LF, HYPHEN, HYPHEN]

  function Delimiter(boundary: seq<Byte>): seq<Byte> {
    DASHES + boundary
  }

  predicate IsAscii(s: seq<Byte>) {
    forall b :: b in s ==> b < 128
  }

  /** `s` without any `CR LF - -`, removed from left to right. */
  function Stripped(s: seq<Byte>): seq<Byte>
    decreases |s|
  {
    if s == [] then [] else if DASHES <= s then Stripped(s[4..]) else [s[0]] + Stripped(s[1..])
  }

  // ---- stripping ----

  lemma {:induction false} StripPlain(x: seq<Byte>, w: seq<Byte>)
    requires CR !in x
    ensures Stripped(x + w) == x + Stripped(w)
    decreases |x|
  {
    if x == [] {
      assert x + w == w;
    } else {
      assert (x + w)[1..] == x[1..] + w && (x + w)[0] == x[0];
      assert DASHES[0] == CR;
      StripPlain(x[1..], w);
    }
  }

  lemma StripDashes(w: seq<Byte>)
    ensures Stripped(DASHES + w) == Stripped(w)
  {
    assert (DASHES + w)[4..] == w;
  }

  lemma HeadOfConcat<T>(x: seq<T>, w: seq<T>)
    requires x != []
    ensures (x + w)[0] == x[0] && (x + w)[1..] == x[1..] + w && [x[0]] + (x[1..] + w) == x + w
  {
  }

  lemma StripKept(x: seq<Byte>, w: seq<Byte>)
    requires x != [] && CR !in x[1..] && !(DASHES <= x + w)
    ensures Stripped(x + w) == x + Stripped(w)
  {
    HeadOfConcat(x, w);
    assert Stripped(x + w) == [x[0]] + Stripped(x[1..] + w);
    hide Stripped;
    StripPlain(x[1..], w);
    HeadOfConcat(x, Stripped(w));
  }

  /** A start of `CR LF - -` that goes on differently is kept. */
  lemma StripPartial(k: nat, c: Byte, w: seq<Byte>)
    requires 1 <= k <= 3 && c != DASHES[k]
    ensures Stripped(DASHES[..k] + [c] + w) == DASHES[..k] + Stripped([c] + w)
  {
    hide Stripped;
    var x := DASHES[..k];
    assert x + [c] + w == x + ([c] + w) && (x + ([c] + w))[k] == c;
    StripKept(x, [c] + w);
  }

  lemma ContainsSuffix(x: seq<Byte>, y: seq<Byte>, needle: seq<Byte>)
    requires Contains(y, needle)
    ensures Contains(x + y, needle)
  {
    var i :| 0 <= i <= |y| && needle <= y[i..];
    assert (x + y)[|x| + i..] == y[i..];
  }

  /** Stripping changes nothing iff there is nothing to strip. */
  lemma {:induction false} StrippedIsExact(s: seq<Byte>)
    ensures |Stripped(s)| <= |s|
    ensures Stripped(s) == s <==> !Contains(s, DASHES)
    decreases |s|
  {
    if s == [] {
    } else if DASHES <= s {
      StrippedIsExact(s[4..]);
      assert DASHES <= s[0..];
    } else {
      StrippedIsExact(s[1..]);
      assert s == [s[0]] + s[1..];
      if Contains(s[1..], DASHES) {
        ContainsSuffix([s[0]], s[1..], DASHES);
      }
      if Contains(s, DASHES) {
        var i :| 0 <= i <= |s| && DASHES <= s[i..];
        assert s[1..][i - 1..] == s[i..];
      }
    }
  }

  // ---- bodies ----

  /** The machine is inside a body. */
  predicate Inside(m: Machine) {
    m.state in {InData, DataCr, DataCrLf, DataCrLfHy, DataBoundaryStart, DataBoundary}
  }

  /** The bytes it has read and not yet told. */
  function Held(boundary: seq<Byte>, m: Machine): seq<Byte>
    requires Inside(m) && Bounded(boundary, m)
  {
    match m.state
    case InData => []
    case DataCr => DASHES[..1]
    case DataCrLf => DASHES[..2]
    case DataCrLfHy => DASHES[..3]
    case DataBoundaryStart => DASHES
    case DataBoundary => DASHES + boundary[..m.index]
  }

  /** It has read a whole delimiter. */
  predicate AtEnd(boundary: seq<Byte>, m: Machine) {
    (m.state.DataBoundary? && m.index == |boundary|) || (m.state.DataBoundaryStart? && boundary == [])
  }

  /**
   * The delimiter is not in `s`; nor, when the boundary itself holds a CR, the four bytes
   * that start it.
   */
  ghost predicate NoDelimiter(boundary: seq<Byte>, s: seq<Byte>) {
    !Contains(s, Delimiter(boundary)) && (CR in boundary ==> !Contains(s, DASHES))
  }

  /** What is told of the held bytes when they turn out not to begin a delimiter. */
  function Released(boundary: seq<Byte>, m: Machine): seq<Byte>
    requires Inside(m) && Bounded(boundary, m)
  {
    match m.state
    case DataBoundaryStart => []
    case DataBoundary => boundary[..m.index]
    case _ => Held(boundary, m)
  }

  /** A byte met in plain body data: a CR is held, any other is told. */
  function Told(c: Byte): seq<Byte> {
    if c == CR then [] else [c]
  }

  function HeldOf(c: Byte): seq<Byte> {
    if c == CR then [CR] else []
  }

  /** Byte `c` does not continue what is held back. */
  predicate Releases(boundary: seq<Byte>, m: Machine, c: Byte)
    requires Bounded(boundary, m)
  {
    if m.state.InData? then c != CR else Switch(boundary, m, c).verdict.Again?
  }

  /** The byte does not continue what is held back: that is released, and the byte met as plain data. */
  lemma ReleaseStep(boundary: seq<Byte>, m: Machine, c: Byte)
    requires Inside(m) && Bounded(boundary, m) && !AtEnd(boundary, m) && Releases(boundary, m, c)
    ensures var t := Step(boundary, m, c);
            && t.verdict.Advance? && Inside(t.m) && Bounded(boundary, t.m) && !AtEnd(boundary, t.m)
            && t.notes == DataNotes(Released(boundary, m) + Told(c)) && Held(boundary, t.m) == HeldOf(c)
  {
    var first := Switch(boundary, m, c);
    var t := Step(boundary, m, c);
    if m.state.DataBoundaryStart? {
      assert boundary[..0] == [];
    }
    if !m.state.InData? {
      assert first.m.state.InData? && first.notes == DataNotes(Released(boundary, m));
      var second := Switch(boundary, first.m, c);
      assert second.notes == DataNotes(Told(c));
      assert t.notes == DataNotes(Released(boundary, m) + Told(c));
    }
  }

  /** Or it does. */
  lemma HoldStep(boundary: seq<Byte>, m: Machine, c: Byte)
    requires Inside(m) && Bounded(boundary, m) && !AtEnd(boundary, m) && !Releases(boundary, m, c)
    ensures var t := Step(boundary, m, c);
            && t.verdict.Advance? && Inside(t.m) && Bounded(boundary, t.m)
            && t.notes == [] && Held(boundary, t.m) == Held(boundary, m) + [c]
  {
    if m.state.DataBoundaryStart? {
      assert boundary[0] in boundary && boundary[..1] == [boundary[0]];
    } else if m.state.DataBoundary? {
      assert boundary[m.index] in boundary;
      assert boundary[..m.index + 1] == boundary[..m.index] + [boundary[m.index]];
    }
  }

  /** Releasing is what stripping does with the held bytes, when the byte does not continue them. */
  lemma ReleaseStrips(boundary: seq<Byte>, m: Machine, c: Byte, w: seq<Byte>)
    requires Inside(m) && Bounded(boundary, m) && !AtEnd(boundary, m) && Releases(boundary, m, c)
    requires CR in boundary ==> !m.state.DataBoundaryStart? && !m.state.DataBoundary?
    ensures Stripped(Held(boundary, m) + [c] + w) == Released(boundary, m) + Stripped([c] + w)
  {
    match m.state
    case InData => assert [] + [c] + w == [c] + w;
    case DataCr => StripPartial(1, c, w);
    case DataCrLf => StripPartial(2, c, w);
    case DataCrLfHy => StripPartial(3, c, w);
    case DataBoundaryStart =>
      assert DASHES + [c] + w == DASHES + ([c] + w);
      StripDashes([c] + w);
    case DataBoundary =>
      var b := boundary[..m.index];
      assert Held(boundary, m) + [c] + w == DASHES + (b + ([c] + w));
      StripDashes(b + ([c] + w));
      StripPlain(b, [c] + w);
  }

  lemma StripOne(c: Byte, w: seq<Byte>)
    ensures Stripped([c] + w) == Told(c) + Stripped(HeldOf(c) + w)
  {
    if c != CR {
      StripPlain([c], w);
      assert [] + w == w;
    }
  }

  lemma StrippedHeld(boundary: seq<Byte>, m: Machine)
    requires Inside(m) && Bounded(boundary, m)
    requires CR in boundary ==> !m.state.DataBoundary?
    ensures Stripped(Held(boundary, m)) == Released(boundary, m)
  {
    var q := Held(boundary, m);
    if m.state.DataBoundaryStart? || m.state.DataBoundary? {
      var b := if m.state.DataBoundary? then boundary[..m.index] else [];
      assert q == DASHES + b && b + [] == b;
      StripDashes(b);
      StripPlain(b, []);
    } else if q != [] {
      assert q[1..] + [] == q[1..] && q == [CR] + q[1..];
      StripPlain(q[1..], []);
    }
  }

  lemma DataNotesConcat(x: seq<Byte>, y: seq<Byte>)
    ensures DataNotes(x) + DataNotes(y) == DataNotes(x + y)
  {
  }

  /** Holding a beginning of the delimiter, the machine holds on to its next byte. */
  lemma DelimiterContinues(boundary: seq<Byte>, m: Machine, k: nat)
    requires IsAscii(boundary) && Inside(m) && Bounded(boundary, m)
    requires 1 <= k <= |Delimiter(boundary)| && Held(boundary, m) == Delimiter(boundary)[..k]
    ensures k == |Delimiter(boundary)| <==> AtEnd(boundary, m)
    ensures k < |Delimiter(boundary)| ==> !Releases(boundary, m, Delimiter(boundary)[k])
  {
    var d := Delimiter(boundary);
    assert |Held(boundary, m)| == k;
    if 4 <= k < |d| {
      assert d[k] == boundary[k - 4] && boundary[k - 4] in boundary;
    }
  }

  /** A delimiter that has begun is recognised to its end. */
  lemma {:induction false} RestOfDelimiter(boundary: seq<Byte>, m: Machine, k: nat)
    requires IsAscii(boundary) && Inside(m) && Bounded(boundary, m)
    requires 1 <= k <= |Delimiter(boundary)| && Held(boundary, m) == Delimiter(boundary)[..k]
    ensures var f := Feed(boundary, m, Delimiter(boundary)[k..]);
            f.ok && f.notes == [] && Inside(f.m) && AtEnd(boundary, f.m)
    decreases |Delimiter(boundary)| - k
  {
    hide IsAscii, Inside, AtEnd, Held, Releases, Step, Bounded, Delimiter;
    var d := Delimiter(boundary);
    DelimiterContinues(boundary, m, k);
    if k < |d| {
      assert d[k..][0] == d[k] && d[k..][1..] == d[k + 1..] && d[..k] + [d[k]] == d[..k + 1];
      HoldStep(boundary, m, d[k]);
      RestOfDelimiter(boundary, Step(boundary, m, d[k]).m, k + 1);
      FeedUnfolds(boundary, m, d[k..]);
    }
  }

  /**
   * The held bytes of a machine that has seen `CR LF - -` would break the no-delimiter condition
   * for a boundary with a CR.
   */
  lemma NotInBoundary(boundary: seq<Byte>, m: Machine, z: seq<Byte>)
    requires Inside(m) && Bounded(boundary, m) && NoDelimiter(boundary, Held(boundary, m) + z)
    ensures CR in boundary ==> !m.state.DataBoundaryStart? && !m.state.DataBoundary?
  {
    var s := Held(boundary, m) + z;
    assert s[0..] == s;
    assert DASHES <= s[0..] ==> Contains(s, DASHES);
  }

  lemma DelimiterStarts(boundary: seq<Byte>)
    ensures Delimiter(boundary)[..1] == [CR]
  {
  }

  lemma DelimiterFromBody(boundary: seq<Byte>, m: Machine)
    requires IsAscii(boundary) && Inside(m) && Bounded(boundary, m) && !AtEnd(boundary, m)
    requires CR in boundary ==> !m.state.DataBoundaryStart? && !m.state.DataBoundary?
    ensures var f := Feed(boundary, m, Delimiter(boundary));
            f.ok && f.notes == DataNotes(Stripped(Held(boundary, m))) && Inside(f.m) && AtEnd(boundary, f.m)
  {
    var d := Delimiter(boundary);
    var t := Step(boundary, m, CR);
    StrippedHeld(boundary, m);
    if m.state.InData? {
      HoldStep(boundary, m, CR);
    } else {
      if m.state.DataBoundary? {
        assert boundary[m.index] in boundary;
      } else if m.state.DataBoundaryStart? {
        assert boundary[0] in boundary;
      }
      ReleaseStep(boundary, m, CR);
    }
    assert t.notes == DataNotes(Released(boundary, m)) by {
      assert Released(boundary, m) + [] == Released(boundary, m);
    }
    DelimiterStarts(boundary);
    assert Held(boundary, t.m) == [CR];
    RestOfDelimiter(boundary, t.m, 1);
    FeedUnfolds(boundary, m, d);
  }

  lemma NoDelimiterBelow(boundary: seq<Byte>, x: seq<Byte>, y: seq<Byte>)
    requires NoDelimiter(boundary, x + y)
    ensures NoDelimiter(boundary, y)
  {
    if Contains(y, Delimiter(boundary)) {
      ContainsSuffix(x, y, Delimiter(boundary));
    }
    if Contains(y, DASHES) {
      ContainsSuffix(x, y, DASHES);
    }
  }

  /**
   * The body law: from inside a body, everything up to the next delimiter is told, except
   * that each `CR LF - -` in it is dropped.
   */
  lemma {:induction false} BodyLaw(boundary: seq<Byte>, m: Machine, z: seq<Byte>)
    requires IsAscii(boundary) && Inside(m) && Bounded(boundary, m) && !AtEnd(boundary, m)
    requires NoDelimiter(boundary, Held(boundary, m) + z)
    ensures var f := Feed(boundary, m, z + Delimiter(boundary));
            f.ok && f.notes == DataNotes(Stripped(Held(boundary, m) + z)) && Inside(f.m) && AtEnd(boundary, f.m)
    decreases |z|
  {
    hide Stripped, Switch, Held, Released, NoDelimiter, Feed, Inside, AtEnd, Step, Releases, Bounded, IsAscii,
         Delimiter, Told, HeldOf;
    var q, d := Held(boundary, m), Delimiter(boundary);
    NotInBoundary(boundary, m, z);
    if z == [] {
      NothingBetween(q, d);
      DelimiterFromBody(boundary, m);
    } else {
      var c, w := z[0], z[1..];
      OneBetween(q, z, d);
      FeedUnfolds(boundary, m, z + d);
      var t := Step(boundary, m, c);
      if Releases(boundary, m, c) {
        ReleaseStep(boundary, m, c);
        ReleaseStrips(boundary, m, c, w);
        StripOne(c, w);
        BodyAfterRelease(boundary, q, c, w);
        BodyLaw(boundary, t.m, w);
        DataNotesConcat(Released(boundary, m) + Told(c), Stripped(HeldOf(c) + w));
        Assoc(Released(boundary, m), Told(c), Stripped(HeldOf(c) + w));
      } else {
        HoldStep(boundary, m, c);
        HeldIsNotDelimiter(boundary, t.m, w);
        BodyLaw(boundary, t.m, w);
      }
    }
  }

  lemma NothingBetween<T>(q: seq<T>, d: seq<T>)
    ensures [] + d == d && q + [] == q
  {
  }

  lemma OneBetween<T>(q: seq<T>, z: seq<T>, d: seq<T>)
    requires z != []
    ensures (z + d)[0] == z[0] && (z + d)[1..] == z[1..] + d && q + z == q + [z[0]] + z[1..]
  {
  }

  lemma Assoc<T>(a: seq<T>, b: seq<T>, c: seq<T>)
    ensures a + (b + c) == a + b + c
  {
  }

  lemma BodyAfterRelease(boundary: seq<Byte>, q: seq<Byte>, c: Byte, w: seq<Byte>)
    requires NoDelimiter(boundary, q + [c] + w)
    ensures NoDelimiter(boundary, HeldOf(c) + w)
  {
    if c == CR {
      assert q + [c] + w == q + ([c] + w);
      NoDelimiterBelow(boundary, q, [c] + w);
    } else {
      NoDelimiterBelow(boundary, q + [c], w);
      assert [] + w == w;
    }
  }

  lemma HeldIsNotDelimiter(boundary: seq<Byte>, m: Machine, w: seq<Byte>)
    requires Inside(m) && Bounded(boundary, m) && NoDelimiter(boundary, Held(boundary, m) + w)
    ensures !AtEnd(boundary, m)
  {
    var s := Held(boundary, m) + w;
    assert boundary[..|boundary|] == boundary;
    assert s[0..] == s;
    assert Delimiter(boundary) <= s[0..] ==> Contains(s, Delimiter(boundary));
  }
}
