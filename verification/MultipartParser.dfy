/** The C++ parser: an object whose members the byte loop and the callbacks update. */
module MultipartParser {
  import opened Bytes
  import opened MultipartMachine
  import opened MultipartRuns
  import opened MultipartParts

  /** A part has begun. */
  predicate HasPart(s: State) {
    !(s.Preamble? || s.PreambleHyHy? || s.FirstBoundary?)
  }

  class Parser {
    const boundary: Text
    const boundaryLen: nat
    /** The bytes that count: those before a NUL. */
    ghost const limit: Text
    var state: State
    var index: nat
    var begun: bool
    var ended: bool
    var name: Text
    var value: Text
    var parts: seq<Part>

    ghost function At(): Machine
      reads this
    {
      Machine(state, index)
    }

    ghost function Told(): Account
      reads this
    {
      Account(begun, ended, name, value, parts)
    }

    ghost predicate Valid()
      reads this
    {
      boundaryLen == StrLen(boundary) && limit == boundary[..boundaryLen] && Bounded(limit, At()) &&
          (HasPart(state) ==> parts != [])
    }

    constructor (boundaryStr: Text)
      ensures Valid() && boundary == boundaryStr && limit == boundaryStr[..StrLen(boundaryStr)]
      ensures At() == START && Told() == EMPTY
    {
      boundary := boundaryStr;
      boundaryLen := StrLen(boundaryStr);
      limit := boundaryStr[..StrLen(boundaryStr)];
      begun, ended := false, false;
      index := 0;
      state := Preamble;
      name, value, parts := [], [], [];
    }

    // ---- callbacks ----

    method OnBodyBegin()
      modifies this`begun
      ensures begun
    {
      begun := true;
    }

    method OnPartBegin()
      modifies this`parts
      ensures parts == old(parts) + [Part(map[], [])]
    {
      parts := parts + [Part(map[], [])];
    }

    method OnHeaderDone()
      requires parts != []
      modifies this`name, this`value, this`parts
      ensures Told() == HeaderDone(old(Told())) && parts != []
    {
      var last := |parts| - 1;
      parts := parts[last := parts[last].(headers := parts[last].headers[name := value])];
      name := [];
      value := [];
    }

    method OnHeaderField(data: Text)
      requires parts != [] && data != []
      modifies this`name, this`value, this`parts
      ensures Told() == Fold(old(Told()), FieldNotes(data)) && parts != []
    {
      if |value| > 0 {
        OnHeaderDone();
      }
      name := name + data;
      FoldField(old(Told()), data);
    }

    method OnHeaderValue(data: Text)
      modifies this`value
      ensures Told() == Fold(old(Told()), ValueNotes(data))
    {
      value := value + data;
      FoldValue(old(Told()), data);
    }

    method OnHeadersComplete()
      requires parts != []
      modifies this`name, this`value, this`parts
      ensures Told() == Flush(old(Told())) && parts != []
    {
      if |value| > 0 {
        OnHeaderDone();
      }
    }

    method OnData(data: Text)
      requires parts != []
      modifies this`parts
      ensures Told() == Fold(old(Told()), DataNotes(data)) && parts != []
    {
      var last := |parts| - 1;
      parts := parts[last := parts[last].(body := parts[last].body + data)];
      FoldData(old(Told()), data);
    }

    method OnPartEnd()
    {
    }

    method OnBodyEnd()
      modifies this`ended
      ensures ended
    {
      ended := true;
    }

    // ---- the cases that look at one byte ----

    method Opening(c: Byte) returns (v: Verdict)
      requires Valid() && !HasPart(state)
      modifies this
      ensures var t := Switch(limit, old(At()), c);
              Valid() && At() == t.m && v == t.verdict && Told() == Fold(old(Told()), t.notes)
    {
      v := Advance;
      if state == Preamble {
        if c == HYPHEN {
          state := PreambleHyHy;
        }
      } else if state == PreambleHyHy {
        if c == HYPHEN {
          state := FirstBoundary;
        } else {
          state := Preamble;
        }
      } else if index == boundaryLen {
        if c != CR {
          return Fail;
        }
        index := index + 1;
      } else if index == boundaryLen + 1 {
        if c != LF {
          return Fail;
        }
        BetweenShort(Told());
        OnBodyBegin();
        OnPartBegin();
        index := 0;
        state := HeaderFieldStart;
      } else if c == Signed(boundary[index]) {
        index := index + 1;
      } else {
        v := Fail;
      }
    }

    method LineEnd(c: Byte) returns (v: Verdict)
      requires Valid() && (state == HeaderValueCr || state == HeadersDone)
      modifies this
      ensures var t := Switch(limit, old(At()), c);
              Valid() && At() == t.m && v == t.verdict && Told() == Fold(old(Told()), t.notes)
    {
      if c != LF {
        return Fail;
      }
      v := Advance;
      if state == HeaderValueCr {
        state := HeaderFieldStart;
      } else {
        BetweenShort(Told());
        OnHeadersComplete();
        state := InData;
      }
    }

    method Withheld(c: Byte) returns (v: Verdict)
      requires Valid() && (state == DataCr || state == DataCrLf || state == DataCrLfHy)
      modifies this
      ensures var t := Switch(limit, old(At()), c);
              Valid() && At() == t.m && v == t.verdict && Told() == Fold(old(Told()), t.notes)
    {
      v := Advance;
      if state == DataCr {
        if c == LF {
          state := DataCrLf;
          return;
        }
        OnData([CR]);
      } else if state == DataCrLf {
        if c == HYPHEN {
          state := DataCrLfHy;
          return;
        }
        OnData([CR, LF]);
      } else {
        if c == HYPHEN {
          state := DataBoundaryStart;
          return;
        }
        OnData([CR, LF, HYPHEN]);
      }
      state := InData;
      v := Again;
    }

    method Delimiting(c: Byte) returns (v: Verdict)
      requires Valid() && (state == DataBoundaryStart || state == DataBoundary)
      modifies this
      ensures var t := Switch(limit, old(At()), c);
              Valid() && At() == t.m && v == t.verdict && Told() == Fold(old(Told()), t.notes)
    {
      if state == DataBoundaryStart {
        index := 0;
        state := DataBoundary;
      }
      if index == boundaryLen {
        index := 0;
        state := DataBoundaryDone;
        return Again;
      }
      if c == Signed(boundary[index]) {
        index := index + 1;
        return Advance;
      }
      assert limit[..index] == boundary[..index];
      OnData(boundary[..index]);
      state := InData;
      v := Again;
    }

    method Delimited(c: Byte) returns (v: Verdict)
      requires Valid() && PastBoundary(state)
      modifies this
      ensures var t := Switch(limit, old(At()), c);
              Valid() && At() == t.m && v == t.verdict && Told() == Fold(old(Told()), t.notes)
    {
      v := Advance;
      BetweenShort(Told());
      if state == DataBoundaryDone {
        if c == CR {
          state := DataBoundaryDoneCrLf;
        } else if c == HYPHEN {
          state := DataBoundaryDoneHyHy;
        } else {
          v := Fail;
        }
      } else if state == DataBoundaryDoneCrLf {
        if c != LF {
          return Fail;
        }
        OnPartEnd();
        OnPartBegin();
        state := HeaderFieldStart;
      } else {
        if c != HYPHEN {
          return Fail;
        }
        OnPartEnd();
        OnBodyEnd();
        state := Epilogue;
      }
    }

    // ---- the cases that look ahead ----

    method HeaderName(data: Text, p: nat) returns (q: nat, v: Verdict, ghost notes: seq<Note>)
      requires Valid() && p < |data| && (state == HeaderFieldStart || state == HeaderField)
      modifies this
      ensures Valid() && Told() == Fold(old(Told()), notes) && p <= q <= |data| && !v.Again?
      ensures v.Advance? ==> Goes(limit, old(At()), data[p..Min(q + 1, |data|)], At(), notes)
      ensures v.Fail? ==> Refuses(limit, old(At()), data, p, At(), q, notes)
    {
      hide Fold, Goes, Refuses, FieldNotes, ValueNotes;
      BetweenShort(Told());
      if state == HeaderFieldStart {
        if data[p] == CR {
          LastPass(limit, At(), data, p);
          state := HeadersDone;
          return p, Advance, [];
        }
        state := HeaderField;
      }
      var mark, c := p, data[p];
      q := p;
      while q != |data|
        invariant p <= q <= |data|
        invariant forall k :: p <= k < q ==> IsToken(data[k])
      {
        c := data[q];
        if !IsToken(c) {
          break;
        }
        q := q + 1;
      }
      notes := FieldNotes(data[p..q]);
      NameCase(limit, old(state), index, data, p, q);
      if q > mark {
        OnHeaderField(data[mark..q]);
      } else {
        assert notes == [];
      }
      if q == |data| {
        return q, Advance, notes;
      }
      if c == COLON {
        state := HeaderValueStart;
        return q, Advance, notes;
      }
      v := Fail;
    }

    method HeaderText(data: Text, p: nat) returns (q: nat, v: Verdict, ghost notes: seq<Note>)
      requires Valid() && p < |data| && (state == HeaderValueStart || state == HeaderValue)
      modifies this
      ensures Valid() && Told() == Fold(old(Told()), notes) && p <= q <= |data| && v.Advance?
      ensures Goes(limit, old(At()), data[p..Min(q + 1, |data|)], At(), notes)
    {
      hide Fold, Goes, Refuses, FieldNotes, ValueNotes;
      BetweenShort(Told());
      v := Advance;
      if state == HeaderValueStart {
        if data[p] == SP || data[p] == HT {
          LastPass(limit, At(), data, p);
          return p, Advance, [];
        }
        state := HeaderValue;
      }
      var mark := p;
      q := p;
      while q != |data|
        invariant p <= q <= |data| && state == HeaderValue
        invariant forall k :: p <= k < q ==> data[k] != CR
        invariant Valid() && index == old(index) && Told() == old(Told())
      {
        if data[q] == CR {
          state := HeaderValueCr;
          break;
        }
        q := q + 1;
      }
      notes := ValueNotes(data[p..q]);
      ValueCase(limit, old(state), index, data, p, q);
      if q > mark {
        OnHeaderValue(data[mark..q]);
      } else {
        assert notes == [];
      }
    }

    method BodyData(data: Text, p: nat) returns (q: nat, v: Verdict, ghost notes: seq<Note>)
      requires Valid() && p < |data| && state == InData
      modifies this
      ensures Valid() && Told() == Fold(old(Told()), notes) && p <= q <= |data| && v.Advance?
      ensures Goes(limit, old(At()), data[p..Min(q + 1, |data|)], At(), notes)
    {
      hide Goes, Fold;
      BetweenShort(Told());
      v := Advance;
      var mark := p;
      q := p;
      while q != |data|
        invariant p <= q <= |data| && state == InData
        invariant forall k :: p <= k < q ==> data[k] != CR
        invariant Valid() && At() == old(At()) && Told() == old(Told())
      {
        if data[q] == CR {
          state := DataCr;
          break;
        }
        q := q + 1;
      }
      notes := DataNotes(data[p..q]);
      DataRun(limit, index, data, p, q);
      if q > mark {
        OnData(data[mark..q]);
      } else {
        assert notes == [];
      }
    }

    // ---- the loop ----

    lemma StaysBounded()
      requires Valid()
      ensures Bounded(limit, At())
    {
    }

    /** The cases that look at one byte only. */
    method OneByte(c: Byte) returns (v: Verdict)
      requires Valid() && !LooksAhead(state)
      modifies this
      ensures var t := Switch(limit, old(At()), c);
              Valid() && At() == t.m && v == t.verdict && Told() == Fold(old(Told()), t.notes)
    {
      hide Switch, Fold;
      if !HasPart(state) {
        v := Opening(c);
      } else if state == HeaderValueCr || state == HeadersDone {
        v := LineEnd(c);
      } else if state == DataCr || state == DataCrLf || state == DataCrLfHy {
        v := Withheld(c);
      } else if state == DataBoundaryStart || state == DataBoundary {
        v := Delimiting(c);
      } else if PastBoundary(state) {
        v := Delimited(c);
      } else {
        EpilogueStays(limit, At(), c);
        BetweenShort(Told());
        v := Advance;
      }
    }

    /** One pass through the switch, with the bytes its case consumes. */
    method Pass(data: Text, p: nat) returns (q: nat, v: Verdict, ghost notes: seq<Note>)
      requires Valid() && p < |data|
      modifies this
      ensures Valid() && Told() == Fold(old(Told()), notes) && p <= q <= |data|
      ensures v.Advance? ==> Goes(limit, old(At()), data[p..Min(q + 1, |data|)], At(), notes)
      ensures v.Again? ==> q == p && Switch(limit, old(At()), data[p]) == Turn(At(), notes, Again)
      ensures v.Again? ==> MayReexecute(old(state)) && !MayReexecute(state)
      ensures v.Fail? ==> Refuses(limit, old(At()), data, p, At(), q, notes)
    {
      hide Goes, Refuses, Fold, Switch, Bounded, Told, Valid, MayReexecute;
      StaysBounded();
      if state == HeaderFieldStart || state == HeaderField {
        q, v, notes := HeaderName(data, p);
      } else if state == HeaderValueStart || state == HeaderValue {
        q, v, notes := HeaderText(data, p);
      } else if state == InData {
        q, v, notes := BodyData(data, p);
      } else {
        LastPass(limit, At(), data, p);
        AgainOnlyFrom(limit, At(), data[p]);
        notes := Switch(limit, At(), data[p]).notes;
        v := OneByte(data[p]);
        q := p;
      }
    }

    /** The chunk is fed to the machine, the account folds what it tells, and the result counts the bytes accepted. */
    method ParserData(data: Text) returns (n: nat)
      requires Valid()
      modifies this
      ensures Valid()
      ensures (Kept(At(), Told()), n) == Call(limit, Kept(old(At()), old(Told())), data)
    {
      hide Goes, Refuses, Within, Fold, Feed, Switch;
      var p := 0;
      ghost var told: seq<Note> := [];
      BetweenShort(Told());
      GoesNowhere(limit, At(), data);
      while p < |data|
        invariant Valid() && Told() == Fold(old(Told()), told)
        invariant Goes(limit, old(At()), data[..Min(p, |data|)], At(), told)
      {
        ghost var here, b, before := p, At(), told;
        ghost var first: seq<Note> := [];
        WithinBegins(limit, b, data[p]);
        var again := true;
        while again
          invariant Valid() && Told() == Fold(old(Told()), told)
          invariant if again then p == here && told == before + first && Within(limit, b, data[here], At(), first)
                    else p > here && Goes(limit, old(At()), data[..Min(p, |data|)], At(), told)
          invariant (first == [] && At() == b) || !again || !MayReexecute(state)
          decreases again, MayReexecute(state)
        {
          ghost var m := At();
          var q, v, notes := Pass(data, p);
          FoldConcat(old(Told()), told, notes);
          told := told + notes;
          if v == Fail {
            PassFails(limit, old(At()), data, p, b, before, m, first, q, At(), notes);
            return q;
          }
          if v == Again {
            first := notes;
          } else {
            PassGoes(limit, old(At()), data, p, b, before, m, first, Min(q + 1, |data|), At(), notes);
          }
          again := v == Again;
          p := if again then q else q + 1;
        }
      }
      GoesAll(limit, old(At()), data, At(), told);
      n := |data|;
    }
  }

  lemma BetweenShort(a: Account)
    ensures Fold(a, []) == a
    ensures Fold(a, [HeadersComplete]) == Flush(a)
    ensures Fold(a, [BodyBegin, PartBegin]) == a.(begun := true, parts := a.parts + [Part(map[], [])])
    ensures Fold(a, [PartEnd, PartBegin]) == a.(parts := a.parts + [Part(map[], [])])
    ensures Fold(a, [PartEnd, BodyEnd]) == a.(ended := true)
  {
    assert forall x: Note, y: Note :: [x, y][1..] == [y] && [y][1..] == [];
    assert [HeadersComplete][1..] == [];
    assert [BodyBegin, PartBegin][1..] == [PartBegin];
    assert [PartEnd, PartBegin][1..] == [PartBegin];
    assert [PartEnd, BodyEnd][1..] == [BodyEnd];
  }

}
