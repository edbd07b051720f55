/** The growing output buffer and its JSON string writer. */
module StringStream {
  import opened Bytes
  import opened Json

  const INIT_BUFF_SIZE: nat := 1024

  class Stream {
    var header: array<Byte>
    var readPos: nat
    var writePos: nat
    var length: nat

    ghost predicate Valid()
      reads this
    {
      header.Length == length && readPos <= writePos <= length && 0 < length && length % INIT_BUFF_SIZE == 0
    }

    ghost function Contents(): seq<Byte>
      requires Valid()
      reads this, header
    {
      header[..writePos]
    }

    constructor ()
      ensures Valid() && Contents() == [] && fresh(header) && readPos == 0 && length == 1024
    {
      header := new Byte[INIT_BUFF_SIZE](_ => 0);
      readPos, writePos, length := 0, 0, INIT_BUFF_SIZE;
    }

    /** `growpup`: move to a buffer of the next multiple of 1024 that holds `want` bytes. */
    method GrowUp(want: nat) returns (newSize: nat)
      requires Valid() && want > length
      modifies this
      ensures Valid() && fresh(header) && length == newSize >= want
      ensures Contents() == old(Contents()) && readPos == old(readPos)
      ensures newSize % 1024 == 0 && newSize < want + 1024
    {
      newSize := (want + INIT_BUFF_SIZE - 1) / INIT_BUFF_SIZE * INIT_BUFF_SIZE;
      var temp := header;
      header := new Byte[newSize](_ => 0);
      for i := 0 to length
        invariant header[..i] == temp[..i]
        invariant temp[..] == old(header[..])
        modifies header
      {
        header[i] := temp[i];
      }
      assert header[..writePos] == header[..length][..writePos];
      length := newSize;
    }

    method Put(c: Byte)
      requires Valid()
      modifies this, header
      ensures Valid() && (header == old(header) || fresh(header))
      ensures Contents() == old(Contents()) + [c] && readPos == old(readPos)
    {
      if writePos + 1 > length {
        var _ := GrowUp(writePos + 1);
      }
      header[writePos] := c;
      writePos := writePos + 1;
    }

    method Write(buffer: seq<Byte>) returns (n: nat)
      requires Valid()
      modifies this, header
      ensures Valid() && (header == old(header) || fresh(header)) && n == |buffer|
      ensures Contents() == old(Contents()) + buffer && readPos == old(readPos)
    {
      if writePos + |buffer| > length {
        var _ := GrowUp(writePos + |buffer|);
      }
      ghost var before := header[..writePos];
      for i := 0 to |buffer|
        invariant header[..writePos] == before
        invariant header[writePos..writePos + i] == buffer[..i]
        modifies header
      {
        header[writePos + i] := buffer[i];
      }
      writePos := writePos + |buffer|;
      assert Contents() == before + buffer;
      n := |buffer|;
    }

    method Clear()
      requires Valid()
      modifies this
      ensures Valid() && Contents() == [] && readPos == 0
      ensures header == old(header) && length == old(length)
    {
      readPos, writePos := 0, 0;
    }

    /** `write_str`: the string as a JSON literal, at the end of what was written. */
    method WriteStr(str: seq<Byte>)
      requires Valid()
      modifies this, header
      ensures Valid() && (header == old(header) || fresh(header)) && readPos == old(readPos)
      ensures Contents() == old(Contents()) + [QUOTE] + Escaped(str) + [QUOTE]
    {
      hide Escaped, EscapeLetter, HexChar, Contents;
      Put(QUOTE);
      ghost var start, done: seq<Byte> := Contents(), [];
      var ptr := 0;
      assert str[0..] == str && [] + Escaped(str) == Escaped(str);
      while ptr < |str|
        invariant ptr <= |str| && Valid() && (header == old(header) || fresh(header)) && readPos == old(readPos)
        invariant Contents() == start + done && Escaped(str) == done + Escaped(str[ptr..])
        decreases |str| - ptr
      {
        var c := str[ptr];
        EscapedStep(str, ptr, done);
        if c == NUL {
          break;
        }
        ptr := ptr + 1;
        var letter := EscapeLetter(c);
        ghost var piece := [c];
        if letter != 0 {
          var buff := [BACKSLASH, letter];
          if letter == LOWER_U {
            if ptr < |str| {
              buff := buff + [HexChar(c / 16), HexChar(c % 16)];
              var c1 := str[ptr];
              ptr := ptr + 1;
              buff := buff + [HexChar(c1 / 16), HexChar(c1 % 16)];
            } else {
              buff := buff + [48, 48, HexChar(c / 16), HexChar(c % 16)];
            }
          }
          var _ := Write(buff);
          piece := buff;
        } else {
          Put(c);
        }
        Assoc(start, done, piece);
        done := done + piece;
      }
      EscapedEnd(str, ptr);
      assert done + [] == done;
      Put(QUOTE);
    }
  }

  /** What `Escaped` makes of the next one or two bytes. */
  lemma EscapedStep(str: seq<Byte>, ptr: nat, done: seq<Byte>)
    requires ptr < |str|
    ensures var c, letter := str[ptr], EscapeLetter(str[ptr]);
            && (c == NUL ==> Escaped(str[ptr..]) == [])
            && (c != NUL && letter == 0 ==> done + Escaped(str[ptr..]) == done + [c] + Escaped(str[ptr + 1..]))
            && (c != NUL && letter != 0 && letter != LOWER_U ==>
                  done + Escaped(str[ptr..]) == done + [BACKSLASH, letter] + Escaped(str[ptr + 1..]))
            && (c != NUL && letter == LOWER_U ==>
                  done + Escaped(str[ptr..]) ==
                  if ptr + 1 < |str| then
                    done + ([BACKSLASH, letter] + [HexChar(c / 16), HexChar(c % 16)]
                            + [HexChar(str[ptr + 1] / 16), HexChar(str[ptr + 1] % 16)]) + Escaped(str[ptr + 2..])
                  else
                    done + ([BACKSLASH, letter] + [48, 48, HexChar(c / 16), HexChar(c % 16)]) + Escaped(str[ptr + 1..]))
  {
    assert str[ptr..][1..] == str[ptr + 1..];
    if ptr + 1 < |str| {
      assert str[ptr..][2..] == str[ptr + 2..];
    } else {
      assert str[ptr + 1..] == [];
    }
    assert HexChar(0 / 16) == 48 && HexChar(0 % 16) == 48;
  }

  lemma Assoc<T>(a: seq<T>, b: seq<T>, c: seq<T>)
    ensures a + b + c == a + (b + c)
  {
  }

  lemma EscapedEnd(str: seq<Byte>, ptr: nat)
    requires ptr <= |str| && (ptr < |str| ==> str[ptr] == NUL)
    ensures Escaped(str[ptr..]) == []
  {
  }
}
