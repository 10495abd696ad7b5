/** The Annex B reader over a file with a cursor and an end-of-file flag (NALDecoder.c). */
module NalDecoder {
  import opened Bytes
  import opened AnnexB

  /** A file opened for reading, as stdio presents it. */
  class BitFile {
    const bytes: seq<byte>
    var cursor: nat
    var eof: bool

    ghost predicate Valid()
      reads this
    {
      cursor <= |bytes| && (eof ==> cursor == |bytes|)
    }

    ghost function Rest(): seq<byte>
      requires Valid()
      reads this
    {
      bytes[cursor..]
    }

    constructor (bytes: seq<byte>)
      ensures Valid() && this.bytes == bytes && Rest() == bytes && !eof
    {
      this.bytes := bytes;
      cursor, eof := 0, false;
    }

    /** fread of n bytes into buf at index at; the flag is set when fewer are left. */
    method Read(buf: array<byte>, at: nat, n: nat) returns (count: nat)
      requires Valid() && at + n <= buf.Length
      modifies this`cursor, this`eof, buf
      ensures Valid()
      ensures count == if n <= |old(Rest())| then n else |old(Rest())|
      ensures cursor == old(cursor) + count && (eof <==> old(eof) || count < n)
      ensures buf[at..at + count] == old(Rest())[..count]
      ensures forall i :: 0 <= i < at || at + count <= i < buf.Length ==> buf[i] == old(buf[i])
    {
      count := if n <= |bytes| - cursor then n else |bytes| - cursor;
      ghost var data := Rest()[..count];
      forall i | 0 <= i < count {
        buf[at + i] := bytes[cursor + i];
      }
      assert buf[at..at + count] == data;
      cursor := cursor + count;
      eof := eof || count < n;
    }

    /** fgetc, its result stored in a byte: 0xff at the end of the file. */
    method GetC() returns (c: byte)
      requires Valid()
      modifies this`cursor, this`eof
      ensures Valid()
      ensures old(Rest()) == [] ==> c == 0xff && cursor == old(cursor) && eof
      ensures old(Rest()) != [] ==> c == old(Rest())[0] && cursor == old(cursor) + 1 && eof == old(eof)
    {
      if cursor == |bytes| {
        eof := true;
        return 0xff;
      }
      c := bytes[cursor];
      cursor := cursor + 1;
    }

    /** fseek backwards from the current position. */
    method SeekBack(n: nat)
      requires Valid() && n <= cursor
      modifies this`cursor, this`eof
      ensures Valid() && cursor == old(cursor) - n && !eof
    {
      cursor := cursor - n;
      eof := false;
    }
  }

  class Nalu {
    var startcodeprefixLen: nat
    var len: nat
    var forbiddenBit: byte
    var nalReferenceIdc: byte
    var nalUnitType: byte
    const buf: array<byte>

    constructor (maxSize: nat)
      ensures fresh(buf) && buf.Length == maxSize
    {
      startcodeprefixLen, len := 0, 0;
      forbiddenBit, nalReferenceIdc, nalUnitType := 0, 0, 0;
      buf := new byte[maxSize](_ => 0);
    }

    /** The fields describe a unit of `size` bytes, start code included, at the front of buf. */
    ghost predicate Describes(unit: seq<byte>, prefix: nat)
      reads this, buf
    {
      && prefix <= |unit| && prefix < buf.Length && |unit| <= buf.Length
      && buf[..|unit|] == unit
      && startcodeprefixLen == prefix && len == |unit| - prefix
      && forbiddenBit == buf[prefix] & 0x80
      && nalReferenceIdc == buf[prefix] & 0x60
      && nalUnitType == buf[prefix] & 0x1f
    }

    /** The three fields are the unit's octet taken apart: top bit, two bits, five bits. */
    lemma FieldsAreOctet(unit: seq<byte>, prefix: nat)
      requires Describes(unit, prefix) && prefix < |unit|
      ensures forbiddenBit | nalReferenceIdc | nalUnitType == unit[prefix]
      ensures (forbiddenBit == 0 || forbiddenBit == 0x80) && nalReferenceIdc & 0x9f == 0 && nalUnitType < 0x20
    {
      assert buf[prefix] == buf[..|unit|][prefix];
    }

    /** Copies the unit out of the reader's buffer and decodes the byte after the start code. */
    method Take(from: array<byte>, size: nat, prefix: nat)
      requires from != buf && prefix <= size <= from.Length && size <= buf.Length && prefix < buf.Length
      modifies this, buf
      ensures Describes(from[..size], prefix)
    {
      startcodeprefixLen, len := prefix, size - prefix;
      forall i | 0 <= i < size {
        buf[i] := from[i];
      }
      forbiddenBit := buf[prefix] & 0x80;
      nalReferenceIdc := buf[prefix] & 0x60;
      nalUnitType := buf[prefix] & 0x1f;
      assert buf[..size] == from[..size];
    }
  }

  /** FindStartCode2: 00 00 01 at index i. */
  method FindStartCode2(buf: array<byte>, i: nat) returns (found: bool)
    requires i + 3 <= buf.Length
    ensures found <==> IsStartCode(buf[..], i)
  {
    found := !(buf[i] != 0 || buf[i + 1] != 0 || buf[i + 2] != 1);
  }

  /** FindStartCode3: 00 00 00 01 at index i. */
  method FindStartCode3(buf: array<byte>, i: nat) returns (found: bool)
    requires i + 4 <= buf.Length
    ensures found <==> buf[i] == 0 && IsStartCode(buf[..], i + 1)
  {
    found := !(buf[i] != 0 || buf[i + 1] != 0 || buf[i + 2] != 0 || buf[i + 3] != 1);
  }

  /** GetAnnexbNALU. Returns the size of the unit with its start code, 0 when the file ends
      before a start code, -1 when there is none; the cursor is left on the next start code. */
  method GetAnnexbNALU(file: BitFile, nalu: Nalu) returns (size: int)
    requires file.Valid() && !file.eof
    requires ReadExtent(file.Rest()) <= nalu.buf.Length
    modifies file`cursor, file`eof, nalu, nalu.buf
    ensures file.Valid()
    ensures match NextUnit(old(file.Rest()))
            case NoData => size == 0 && file.eof
            case NotStart => size == -1 && file.cursor == old(file.cursor) + 4 && !file.eof
            case Unit(prefix, n, last) =>
              size == n && file.cursor == old(file.cursor) + n && file.eof == last
              && nalu.Describes(old(file.Rest())[..n], prefix)
    ensures !NextUnit(old(file.Rest())).Unit? ==> nalu.startcodeprefixLen == 3 && nalu.buf[..] == old(nalu.buf[..])
  {
    hide Searched;
    var buf := new byte[nalu.buf.Length](_ => 0);
    ghost var rest := file.Rest();
    ghost var start := file.cursor;
    nalu.startcodeprefixLen := 3;
    var prefix := ReadPrefix(file, buf);
    if prefix <= 0 {
      return prefix;
    }
    SearchBegins(rest, prefix);
    ExtentCovers(rest, prefix, prefix);
    size := ReadUnit(file, nalu, buf, prefix, start);
  }

  /** The start code in front: its length, or what the caller returns at once. */
  method ReadPrefix(file: BitFile, buf: array<byte>) returns (prefix: int)
    requires file.Valid() && !file.eof && buf.Length >= 4
    modifies file`cursor, file`eof, buf
    ensures file.Valid()
    ensures match NextUnit(old(file.Rest()))
            case NoData => prefix == 0 && file.eof
            case NotStart => prefix == -1 && file.cursor == old(file.cursor) + 4 && !file.eof
            case Unit(h, _, _) =>
              prefix == h && file.cursor == old(file.cursor) + h && !file.eof
              && buf[..h] == old(file.Rest())[..h] && buf[h - 1] == 1
              && NextUnit(old(file.Rest())) == Behind(old(file.Rest()), h)
  {
    hide Behind;
    ghost var rest := file.Rest();
    var count := file.Read(buf, 0, 3);
    if count != 3 {
      return 0;
    }
    assert buf[..3] == buf[0..3] == rest[..3];
    SameStartCodes(buf[..], rest, 3);
    prefix := 3;
    var info2 := FindStartCode2(buf, 0);
    if !info2 {
      count := file.Read(buf, 3, 1);
      if count != 1 {
        return 0;
      }
      assert buf[3] == buf[3..4][0] == rest[3];
      assert buf[..4] == rest[..4];
      SameStartCodes(buf[..], rest, 4);
      var info3 := FindStartCode3(buf, 0);
      if !info3 {
        return -1;
      }
      prefix := 4;
    }
  }

  /** State of the search after pos bytes: nothing found before, and with a hit the last three
      bytes are the start code, counted as four-byte exactly when a zero stands before it. */
  ghost predicate Searched(rest: seq<byte>, prefix: nat, pos: nat, found2: bool, found3: bool) {
    && prefix <= pos <= |rest| && !(found2 && found3)
    && NoStartCodeIn(rest, prefix, if found2 || found3 then pos - 1 else pos)
    && (found2 || found3 ==>
          && prefix <= pos - 3 && IsStartCode(rest, pos - 3)
          && (found3 <==> prefix < pos - 3 && rest[pos - 4] == 0))
  }

  /** No start code overlaps the 01 that ends the previous one. */
  lemma SearchStep(rest: seq<byte>, prefix: nat, pos: nat, found2: bool, found3: bool)
    requires 3 <= prefix < pos <= |rest| && rest[prefix - 1] == 1
    requires Searched(rest, prefix, pos - 1, false, false)
    requires found3 <==> rest[pos - 4] == 0 && IsStartCode(rest, pos - 3)
    requires found2 <==> !found3 && IsStartCode(rest, pos - 3)
    ensures Searched(rest, prefix, pos, found2, found3)
  {
  }

  lemma SearchEnds(rest: seq<byte>, prefix: nat, pos: nat, found2: bool, found3: bool)
    requires Searched(rest, prefix, pos, found2, found3)
    ensures found2 || found3 ==> Behind(rest, prefix) == Unit(prefix, pos - (if found3 then 4 else 3), false)
    ensures !found2 && !found3 && pos == |rest| ==> Behind(rest, prefix) == Unit(prefix, |rest|, true)
    ensures found2 || found3 ==> prefix <= pos - (if found3 then 4 else 3)
  {
  }

  lemma ExtentCovers(rest: seq<byte>, prefix: nat, pos: nat)
    requires Searched(rest, prefix, pos, false, false)
    requires NextUnit(rest) == Behind(rest, prefix)
    ensures pos < ReadExtent(rest)
  {
  }

  lemma SameStartCodes(a: seq<byte>, b: seq<byte>, n: nat)
    requires n <= |a| && n <= |b| && a[..n] == b[..n]
    ensures forall i :: 0 <= i <= n - 3 ==> (IsStartCode(a, i) <==> IsStartCode(b, i))
    ensures forall i :: 0 <= i < n ==> a[i] == b[i]
  {
  }

  /** One byte more, and whether it completes a start code. */
  method ReadByte(file: BitFile, buf: array<byte>, pos: nat, ghost prefix: nat, ghost start: nat)
    returns (found2: bool, found3: bool)
    requires file.Valid() && !file.eof && file.cursor == start + pos && 3 <= prefix <= pos < buf.Length
    requires pos <= |file.bytes[start..]| && buf[..pos] == file.bytes[start..][..pos] && buf[prefix - 1] == 1
    requires Searched(file.bytes[start..], prefix, pos, false, false)
    modifies file`cursor, file`eof, buf
    ensures file.Valid() && buf[prefix - 1] == 1
    ensures var rest := file.bytes[start..];
            if file.eof then
              pos == |rest| && buf[..pos] == rest && !found2 && !found3
            else
              file.cursor == start + pos + 1 && pos < |rest| && buf[..pos + 1] == rest[..pos + 1]
              && Searched(rest, prefix, pos + 1, found2, found3)
  {
    hide Searched, NoStartCodeIn;
    ghost var rest := file.bytes[start..];
    var c := file.GetC();
    buf[pos] := c;
    found2 := false;
    found3 := FindStartCode3(buf, pos - 3);
    if !found3 {
      found2 := FindStartCode2(buf, pos - 2);
    }
    if !file.eof {
      assert buf[..pos + 1] == rest[..pos + 1];
      SameStartCodes(buf[..], rest, pos + 1);
      SearchStep(rest, prefix, pos + 1, found2, found3);
    } else {
      assert buf[..pos] == rest;
    }
  }

  /** The reading loop behind the start code. */
  method ReadUnit(file: BitFile, nalu: Nalu, buf: array<byte>, prefix: nat, ghost start: nat) returns (size: int)
    requires file.Valid() && !file.eof && buf != nalu.buf && buf.Length == nalu.buf.Length
    requires 3 <= prefix <= 4 && prefix < buf.Length && file.cursor == start + prefix
    requires buf.Length >= ReadExtent(file.bytes[start..])
    requires NextUnit(file.bytes[start..]) == Behind(file.bytes[start..], prefix)
    requires buf[..prefix] == file.bytes[start..start + prefix] && buf[prefix - 1] == 1
    modifies file`cursor, file`eof, nalu, nalu.buf, buf
    ensures file.Valid()
    ensures var rest := file.bytes[start..];
            var n := Behind(rest, prefix);
            size == n.size && file.cursor == start + n.size && file.eof == n.last
            && nalu.Describes(rest[..n.size], prefix)
  {
    hide Searched, ReadExtent, NextUnit, Behind, NoStartCodeIn, IsStartCode;
    ghost var rest := file.bytes[start..];
    var pos := prefix;
    var found2, found3 := false, false;
    SearchBegins(rest, prefix);
    assert buf[..prefix] == rest[..prefix];
    while !(found2 || found3)
      invariant file.Valid() && prefix <= pos <= buf.Length && buf[prefix - 1] == 1
      invariant !file.eof ==> file.cursor == start + pos && pos <= |rest| && buf[..pos] == rest[..pos]
                              && Searched(rest, prefix, pos, found2, found3)
      invariant file.eof ==> pos == |rest| + 1 && buf[..pos - 1] == rest && !found2 && !found3
                             && Searched(rest, prefix, pos - 1, false, false)
      decreases |rest| + 2 - pos, !(found2 || found3)
    {
      if file.eof {
        SearchEnds(rest, prefix, pos - 1, false, false);
        size := pos - 1;
        nalu.Take(buf, pos - 1, prefix);
        return;
      }
      ExtentCovers(rest, prefix, pos);
      found2, found3 := ReadByte(file, buf, pos, prefix, start);
      pos := pos + 1;
    }
    SearchEnds(rest, prefix, pos, found2, found3);
    var back := if found3 then 4 else 3;
    file.SeekBack(back);
    size := pos - back;
    assert buf[..size] == buf[..pos][..size] == rest[..size];
    nalu.Take(buf, pos - back, prefix);
  }

  lemma SearchBegins(rest: seq<byte>, prefix: nat)
    requires prefix <= |rest|
    ensures Searched(rest, prefix, prefix, false, false)
  {
  }
}
