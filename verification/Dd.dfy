/** dd: conversion between lines and records of fixed length, and output in blocks. */
module Dd {
  import opened Common
  import opened DdTables

  const SPACE: byte := 32
  const NL: byte := 10

  // ---- What the conversions do, byte by byte ----

  /** block: how far in the record, how many lines were too long, and what was put out. */
  datatype Blocking = Blocking(cbc: nat, ntrunc: nat, out: seq<byte>)

  function Spaces(n: nat): (s: seq<byte>)
    ensures |s| == n
  {
    seq(n, i => SPACE)
  }

  function BlockByte(cbs: nat, b: Blocking, c: byte): Blocking {
    if cbs == 0 then b.(out := b.out + [c])
    else if c == NL then
      Blocking(0, b.ntrunc, b.out + if b.cbc < cbs then Spaces(cbs - b.cbc) else [])
    else
      Blocking(b.cbc + 1, b.ntrunc + (if b.cbc == cbs then 1 else 0), b.out + if b.cbc < cbs then [c] else [])
  }

  function BlockAll(cbs: nat, b: Blocking, text: seq<byte>): Blocking {
    if text == [] then b
    else BlockByte(cbs, BlockAll(cbs, b, text[..|text| - 1]), text[|text| - 1])
  }

  /** unblock: how far in the record, how many spaces are held back, and what was put out. */
  datatype Unblocking = Unblocking(cbc: nat, nspace: nat, out: seq<byte>)

  function UnblockByte(cbs: nat, u: Unblocking, c: byte): Unblocking {
    if cbs == 0 then u.(out := u.out + [c])
    else
      var v := if c == SPACE then Unblocking(u.cbc + 1, u.nspace + 1, u.out)
               else Unblocking(u.cbc + 1, 0, u.out + Spaces(u.nspace) + [c]);
      if v.cbc >= cbs then Unblocking(0, 0, v.out + [NL]) else v
  }

  function UnblockAll(cbs: nat, u: Unblocking, text: seq<byte>): Unblocking {
    if text == [] then u
    else UnblockByte(cbs, UnblockAll(cbs, u, text[..|text| - 1]), text[|text| - 1])
  }

  function Mapped(f: byte -> byte, s: seq<byte>): (r: seq<byte>)
    ensures |r| == |s|
  {
    seq(|s|, i requires 0 <= i < |s| => f(s[i]))
  }

  // ---- Lines and records ----

  function TextOf(lines: seq<seq<byte>>): seq<byte> {
    if lines == [] then [] else TextOf(lines[..|lines| - 1]) + lines[|lines| - 1] + [NL]
  }

  function Cut(line: seq<byte>, cbs: nat): (r: seq<byte>)
    ensures |r| <= cbs
  {
    if |line| <= cbs then line else line[..cbs]
  }

  function Padded(line: seq<byte>, cbs: nat): (r: seq<byte>)
    requires |line| <= cbs
    ensures |r| == cbs
  {
    line + Spaces(cbs - |line|)
  }

  function Records(lines: seq<seq<byte>>, cbs: nat): seq<byte> {
    if lines == [] then []
    else Records(lines[..|lines| - 1], cbs) + Padded(Cut(lines[|lines| - 1], cbs), cbs)
  }

  /** Without the spaces at its end. */
  function Stripped(line: seq<byte>): (r: seq<byte>)
    ensures |r| <= |line|
  {
    if line == [] || line[|line| - 1] != SPACE then line else Stripped(line[..|line| - 1])
  }

  function Strips(lines: seq<seq<byte>>, cbs: nat): (r: seq<seq<byte>>)
    ensures |r| == |lines|
  {
    seq(|lines|, i requires 0 <= i < |lines| => Stripped(Cut(lines[i], cbs)))
  }

  function TooLong(lines: seq<seq<byte>>, cbs: nat): nat {
    if lines == [] then 0
    else TooLong(lines[..|lines| - 1], cbs) + if |lines[|lines| - 1]| > cbs then 1 else 0
  }

  predicate Plain(lines: seq<seq<byte>>) {
    forall k :: 0 <= k < |lines| ==> NL !in lines[k]
  }

  // ---- block ----

  lemma {:induction false} BlockConcat(cbs: nat, b: Blocking, s: seq<byte>, t: seq<byte>)
    ensures BlockAll(cbs, b, s + t) == BlockAll(cbs, BlockAll(cbs, b, s), t)
  {
    if t == [] {
      assert s + t == s;
    } else {
      BlockConcat(cbs, b, s, t[..|t| - 1]);
      assert (s + t)[..|s + t| - 1] == s + t[..|t| - 1];
    }
  }

  /** Within a line. */
  lemma {:induction false} BlockLine(cbs: nat, b: Blocking, line: seq<byte>)
    requires cbs > 0 && b.cbc == 0 && NL !in line
    ensures BlockAll(cbs, b, line) ==
      Blocking(|line|, b.ntrunc + (if |line| > cbs then 1 else 0), b.out + Cut(line, cbs))
  {
    if line == [] {
      assert b.out + Cut(line, cbs) == b.out;
    } else {
      var front, c := line[..|line| - 1], line[|line| - 1];
      BlockLine(cbs, b, front);
      assert c in line;
      if |front| < cbs {
        assert b.out + front + [c] == b.out + line;
      } else {
        assert Cut(front, cbs) == Cut(line, cbs);
      }
    }
  }

  lemma BlockLineEnd(cbs: nat, b: Blocking, line: seq<byte>)
    requires cbs > 0 && b.cbc == 0 && NL !in line
    ensures BlockAll(cbs, b, line + [NL]) ==
      Blocking(0, b.ntrunc + (if |line| > cbs then 1 else 0), b.out + Padded(Cut(line, cbs), cbs))
  {
    BlockLine(cbs, b, line);
    BlockConcat(cbs, b, line, [NL]);
    var v := BlockAll(cbs, b, line);
    assert BlockAll(cbs, v, [NL]) == BlockByte(cbs, v, NL) by {
      assert [NL][..0] == [];
    }
    assert b.out + Cut(line, cbs) + Spaces(cbs - |Cut(line, cbs)|) == b.out + Padded(Cut(line, cbs), cbs);
  }

  /** A text of lines becomes one record for each, cut or filled with spaces; the lines that are
      cut are counted. */
  lemma {:induction false} BlockText(cbs: nat, lines: seq<seq<byte>>)
    requires cbs > 0 && Plain(lines)
    ensures BlockAll(cbs, Blocking(0, 0, []), TextOf(lines)) == Blocking(0, TooLong(lines, cbs), Records(lines, cbs))
  {
    if lines != [] {
      var front, line := lines[..|lines| - 1], lines[|lines| - 1];
      BlockText(cbs, front);
      assert TextOf(lines) == TextOf(front) + (line + [NL]);
      BlockConcat(cbs, Blocking(0, 0, []), TextOf(front), line + [NL]);
      BlockLineEnd(cbs, BlockAll(cbs, Blocking(0, 0, []), TextOf(front)), line);
    }
  }

  // ---- unblock ----

  lemma {:induction false} UnblockConcat(cbs: nat, u: Unblocking, s: seq<byte>, t: seq<byte>)
    ensures UnblockAll(cbs, u, s + t) == UnblockAll(cbs, UnblockAll(cbs, u, s), t)
  {
    if t == [] {
      assert s + t == s;
    } else {
      UnblockConcat(cbs, u, s, t[..|t| - 1]);
      assert (s + t)[..|s + t| - 1] == s + t[..|t| - 1];
    }
  }

  lemma {:induction false} StripSpaces(s: seq<byte>)
    ensures |Stripped(s)| <= |s| && s == Stripped(s) + Spaces(|s| - |Stripped(s)|)
  {
    if s != [] && s[|s| - 1] == SPACE {
      var front := s[..|s| - 1];
      StripSpaces(front);
      assert s == front + [SPACE];
      assert Spaces(|s| - |Stripped(s)|) == Spaces(|front| - |Stripped(front)|) + [SPACE];
    } else {
      assert Spaces(0) == [];
    }
  }

  /** Within a record: trailing spaces are held back. */
  lemma {:induction false} UnblockPart(cbs: nat, u: Unblocking, rec: seq<byte>)
    requires u.cbc == 0 && u.nspace == 0 && |rec| < cbs
    ensures UnblockAll(cbs, u, rec) == Unblocking(|rec|, |rec| - |Stripped(rec)|, u.out + Stripped(rec))
  {
    StripSpaces(rec);
    if rec == [] {
      assert u.out + Stripped(rec) == u.out;
    } else {
      var front, c := rec[..|rec| - 1], rec[|rec| - 1];
      UnblockPart(cbs, u, front);
      StripSpaces(front);
      if c != SPACE {
        assert rec == front + [c];
        assert u.out + Stripped(front) + Spaces(|front| - |Stripped(front)|) + [c] == u.out + rec;
      }
    }
  }

  lemma UnblockRecord(cbs: nat, u: Unblocking, rec: seq<byte>)
    requires u.cbc == 0 && u.nspace == 0 && |rec| == cbs > 0
    ensures UnblockAll(cbs, u, rec) == Unblocking(0, 0, u.out + (Stripped(rec) + [NL]))
  {
    var front, c := rec[..|rec| - 1], rec[|rec| - 1];
    UnblockPart(cbs, u, front);
    StripSpaces(front);
    assert rec == front + [c];
    if c != SPACE {
      assert u.out + Stripped(front) + Spaces(|front| - |Stripped(front)|) + [c] == u.out + rec;
    }
  }

  lemma {:induction false} StripPadded(line: seq<byte>, n: nat)
    ensures Stripped(line + Spaces(n)) == Stripped(line)
  {
    if n == 0 {
      assert line + Spaces(0) == line;
    } else {
      StripPadded(line, n - 1);
      assert (line + Spaces(n))[..|line| + n - 1] == line + Spaces(n - 1);
    }
  }

  lemma {:induction false} UnblockRecords(cbs: nat, lines: seq<seq<byte>>)
    requires cbs > 0
    ensures UnblockAll(cbs, Unblocking(0, 0, []), Records(lines, cbs)) == Unblocking(0, 0, TextOf(Strips(lines, cbs)))
  {
    if lines != [] {
      var front, line := lines[..|lines| - 1], lines[|lines| - 1];
      var rec := Padded(Cut(line, cbs), cbs);
      UnblockRecords(cbs, front);
      UnblockConcat(cbs, Unblocking(0, 0, []), Records(front, cbs), rec);
      UnblockRecord(cbs, Unblocking(0, 0, TextOf(Strips(front, cbs))), rec);
      StripPadded(Cut(line, cbs), cbs - |Cut(line, cbs)|);
      assert Strips(lines, cbs)[..|lines| - 1] == Strips(front, cbs);
      var t := TextOf(Strips(front, cbs));
      assert t + (Stripped(rec) + [NL]) == t + Stripped(rec) + [NL];
    }
  }

  /** Blocking a text and unblocking the records gives every line back, cut and without its
      trailing spaces. */
  lemma BlockThenUnblock(cbs: nat, lines: seq<seq<byte>>)
    requires cbs > 0 && Plain(lines)
    ensures UnblockAll(cbs, Unblocking(0, 0, []), BlockAll(cbs, Blocking(0, 0, []), TextOf(lines)).out)
            == Unblocking(0, 0, TextOf(Strips(lines, cbs)))
  {
    BlockText(cbs, lines);
    UnblockRecords(cbs, lines);
  }

  lemma RecordsNext(lines: seq<seq<byte>>, cbs: nat, r: seq<byte>) returns (last: seq<byte>)
    requires lines != [] && r == Records(lines[..|lines| - 1], cbs) && |r| == (|lines| - 1) * cbs
    ensures Records(lines, cbs) == r + last && |r + last| == |lines| * cbs && IsRecord(last, lines[|lines| - 1], cbs)
  {
    last := Padded(Cut(lines[|lines| - 1], cbs), cbs);
    OneTimeMore(|lines|, cbs);
  }

  /** The line, as much of it as there is room for, and spaces. */
  predicate IsRecord(rec: seq<byte>, line: seq<byte>, cbs: nat) {
    |rec| == cbs && forall i :: 0 <= i < cbs ==> rec[i] == if i < |line| then line[i] else ' ' as byte
  }

  lemma OneTimeMore(n: nat, c: nat)
    requires n > 0
    ensures (n - 1) * c + c == n * c
  {
  }

  /** The k-th record is made of the k-th line. */
  lemma {:induction false} RecordAt(cbs: nat, lines: seq<seq<byte>>, k: nat, start: nat)
    requires k < |lines| && start == k * cbs
    ensures start + cbs <= |Records(lines, cbs)| == |lines| * cbs
    ensures IsRecord(Records(lines, cbs)[start..start + cbs], lines[k], cbs)
  {
    var front := lines[..|lines| - 1];
    RecordsLength(front, cbs);
    var last := RecordsNext(lines, cbs, Records(front, cbs));
    if k < |front| {
      RecordAt(cbs, front, k, start);
      assert Records(lines, cbs)[start..start + cbs] == Records(front, cbs)[start..start + cbs];
    } else {
      assert Records(lines, cbs)[start..start + cbs] == last;
    }
  }

  lemma {:induction false} RecordsLength(lines: seq<seq<byte>>, cbs: nat)
    ensures |Records(lines, cbs)| == |lines| * cbs
  {
    if lines != [] {
      RecordsLength(lines[..|lines| - 1], cbs);
      var last := RecordsNext(lines, cbs, Records(lines[..|lines| - 1], cbs));
    }
  }

  /** Lines that are not too long and have no space at their end come back as they were. */
  lemma {:induction false} LinesComeBack(cbs: nat, lines: seq<seq<byte>>)
    requires cbs > 0 && Plain(lines)
    requires forall k :: 0 <= k < |lines| ==> |lines[k]| <= cbs && (lines[k] != [] ==> lines[k][|lines[k]| - 1] != ' ' as byte)
    ensures UnblockAll(cbs, Unblocking(0, 0, []), BlockAll(cbs, Blocking(0, 0, []), TextOf(lines)).out).out == TextOf(lines)
    ensures AsciiAll(cbs, Unblocking(0, 0, []), EbcdicAll(cbs, Blocking(0, 0, []), TextOf(lines)).out).out == TextOf(lines)
  {
    BlockThenUnblock(cbs, lines);
    EbcdicThenAsciiText(cbs, lines);
    assert Strips(lines, cbs) == lines;
  }

  /** Translated to EBCDIC on the way out and back on the way in, nothing else changes. */
  lemma EbcdicThenAscii(s: seq<byte>)
    ensures Mapped(Etoa, Mapped(Atoe, s)) == s
  {
    forall i | 0 <= i < |s|
      ensures Etoa(Atoe(s[i])) == s[i]
    {
      TablesInverse(s[i]);
    }
  }

  // ---- The translating conversions ----

  /** ebcdic: like block, but what is put out is translated. */
  function EbcdicByte(cbs: nat, b: Blocking, c: byte): Blocking {
    if cbs == 0 then b.(out := b.out + [Atoe(c)])
    else if c == NL then
      Blocking(0, b.ntrunc, b.out + if b.cbc < cbs then Mapped(Atoe, Spaces(cbs - b.cbc)) else [])
    else
      Blocking(b.cbc + 1, b.ntrunc + (if b.cbc == cbs then 1 else 0), b.out + if b.cbc < cbs then [Atoe(c)] else [])
  }

  function EbcdicAll(cbs: nat, b: Blocking, text: seq<byte>): Blocking {
    if text == [] then b
    else EbcdicByte(cbs, EbcdicAll(cbs, b, text[..|text| - 1]), text[|text| - 1])
  }

  /** ascii: like unblock, on what was translated. */
  function AsciiAll(cbs: nat, u: Unblocking, text: seq<byte>): Unblocking {
    if text == [] then u
    else UnblockByte(cbs, AsciiAll(cbs, u, text[..|text| - 1]), Etoa(text[|text| - 1]))
  }

  lemma {:induction false} EbcdicIsBlock(cbs: nat, text: seq<byte>)
    ensures var b := BlockAll(cbs, Blocking(0, 0, []), text);
      EbcdicAll(cbs, Blocking(0, 0, []), text) == b.(out := Mapped(Atoe, b.out))
  {
    if text == [] {
      assert Mapped(Atoe, []) == [];
    } else {
      EbcdicIsBlock(cbs, text[..|text| - 1]);
      var b, c := BlockAll(cbs, Blocking(0, 0, []), text[..|text| - 1]), text[|text| - 1];
      var more := if cbs == 0 then [c]
                  else if c == NL then if b.cbc < cbs then Spaces(cbs - b.cbc) else []
                  else if b.cbc < cbs then [c] else [];
      assert Mapped(Atoe, b.out + more) == Mapped(Atoe, b.out) + Mapped(Atoe, more);
      assert Mapped(Atoe, [c]) == [Atoe(c)];
    }
  }

  lemma {:induction false} AsciiIsUnblock(cbs: nat, u: Unblocking, text: seq<byte>)
    ensures AsciiAll(cbs, u, text) == UnblockAll(cbs, u, Mapped(Etoa, text))
  {
    if text != [] {
      AsciiIsUnblock(cbs, u, text[..|text| - 1]);
      assert Mapped(Etoa, text)[..|text| - 1] == Mapped(Etoa, text[..|text| - 1]);
    }
  }

  /** The same for the translating conversions. */
  lemma EbcdicThenAsciiText(cbs: nat, lines: seq<seq<byte>>)
    requires cbs > 0 && Plain(lines)
    ensures AsciiAll(cbs, Unblocking(0, 0, []), EbcdicAll(cbs, Blocking(0, 0, []), TextOf(lines)).out)
            == Unblocking(0, 0, TextOf(Strips(lines, cbs)))
  {
    EbcdicIsBlock(cbs, TextOf(lines));
    var out := EbcdicAll(cbs, Blocking(0, 0, []), TextOf(lines)).out;
    AsciiIsUnblock(cbs, Unblocking(0, 0, []), out);
    EbcdicThenAscii(BlockAll(cbs, Blocking(0, 0, []), TextOf(lines)).out);
    BlockThenUnblock(cbs, lines);
  }

  // ---- Output ----

  /** Every block but the last is full. */
  predicate Blocked(records: seq<seq<byte>>, obs: nat) {
    forall k :: 0 <= k < |records| ==> 0 < |records[k]| <= obs && (k < |records| - 1 ==> |records[k]| == obs)
  }

  datatype Conv = Null | Block | Unblock | Ebcdic | Ascii

  function Converted(conv: Conv, cbs: nat, text: seq<byte>): seq<byte> {
    match conv
    case Null => text
    case Block => BlockAll(cbs, Blocking(0, 0, []), text).out
    case Unblock => UnblockAll(cbs, Unblocking(0, 0, []), text).out
    case Ebcdic => EbcdicAll(cbs, Blocking(0, 0, []), text).out
    case Ascii => AsciiAll(cbs, Unblocking(0, 0, []), text).out
  }

  class Copier {
    const obs: nat
    const cbs: nat
    const obuf: array<byte>
    var op: nat
    var obc: nat
    var written: seq<seq<byte>>
    var nofr: nat
    var nopr: nat
    var cbc: nat
    var nspace: nat
    var ntrunc: nat

    /** Between bytes: all that was written is whole blocks, and the buffer is not full. */
    ghost predicate Valid()
      reads this
    {
      && obuf.Length == obs && op == obc < obs
      && (forall r :: r in written ==> |r| == obs) && nofr == |written| && nopr == 0
    }

    ghost function Sent(): seq<byte>
      requires Valid()
      reads this, obuf
    {
      Flat(written) + obuf[..obc]
    }

    constructor (obs: nat, cbs: nat)
      requires obs > 0
      ensures Valid() && Sent() == [] && cbc == 0 && nspace == 0 && ntrunc == 0
      ensures this.obs == obs && this.cbs == cbs && fresh(obuf)
    {
      this.obs, this.cbs := obs, cbs;
      obuf := new byte[obs](_ => 0);
      op, obc, written, nofr, nopr, cbc, nspace, ntrunc := 0, 0, [], 0, 0, 0, 0, 0;
    }

    /** Writes what is in the buffer; a full block and a partial one are counted apart. */
    method Flsh()
      requires obuf.Length == obs && obc <= obs
      modifies this`written, this`nofr, this`nopr, this`obc
      ensures obc == 0
      ensures if old(obc) == 0 then written == old(written) && nofr == old(nofr) && nopr == old(nopr)
              else written == old(written) + [obuf[..old(obc)]] &&
                   nofr == old(nofr) + (if old(obc) == obs then 1 else 0) &&
                   nopr == old(nopr) + (if old(obc) == obs then 0 else 1)
    {
      if obc != 0 {
        if obc == obs {
          nofr := nofr + 1;
        } else {
          nopr := nopr + 1;
        }
        written := written + [obuf[..obc]];
        obc := 0;
      }
    }

    /** One byte of output. */
    method PutNull(c: byte)
      requires Valid()
      modifies this`op, this`obc, this`written, this`nofr, this`nopr, obuf
      ensures Valid() && Sent() == old(Sent()) + [c]
    {
      obuf[op] := c;
      op := op + 1;
      obc := obc + 1;
      assert obuf[..obc] == old(obuf[..obc]) + [c];
      if obc >= obs {
        FlatAppend(written, obuf[..obc]);
        Flsh();
        op := 0;
      }
    }

    /** Fills the record. */
    method Fill(c: byte)
      requires Valid()
      modifies this`op, this`obc, this`written, this`nofr, this`nopr, this`cbc, obuf
      ensures Valid() && Sent() == old(Sent()) + if old(cbc) < cbs then Times(c, cbs - old(cbc)) else []
    {
      ghost var k: nat, was, from := 0, Sent(), cbc;
      assert was + Times(c, 0) == was;
      while cbc < cbs
        invariant Valid() && cbc == from + k && (if from < cbs then cbc <= cbs else k == 0) && Sent() == was + Times(c, k)
      {
        PutNull(c);
        assert (was + Times(c, k)) + [c] == was + Times(c, k + 1);
        cbc, k := cbc + 1, k + 1;
      }
    }

    /** The spaces held back turn out not to end the record. */
    method Spill()
      requires Valid()
      modifies this`op, this`obc, this`written, this`nofr, this`nopr, this`nspace, obuf
      ensures Valid() && nspace == 0 && Sent() == old(Sent()) + Spaces(old(nspace))
    {
      ghost var k: nat, was, from := 0, Sent(), nspace;
      assert was + Spaces(0) == was;
      while nspace > 0
        invariant Valid() && nspace + k == from && Sent() == was + Spaces(k)
      {
        PutNull(SPACE);
        assert (was + Spaces(k)) + [SPACE] == was + Spaces(k + 1);
        nspace, k := nspace - 1, k + 1;
      }
    }

    method PutBlock(cc: byte)
      requires Valid()
      modifies this`op, this`obc, this`written, this`nofr, this`nopr, this`cbc, this`ntrunc, obuf
      ensures Valid() && Blocking(cbc, ntrunc, Sent()) == BlockByte(cbs, old(Blocking(cbc, ntrunc, Sent())), cc)
    {
      if cbs == 0 {
        PutNull(cc);
        return;
      }
      if cc == NL {
        assert Spaces(cbs) == Times(SPACE, cbs);
        Fill(SPACE);
        cbc := 0;
        return;
      }
      if cbc == cbs {
        ntrunc := ntrunc + 1;
      }
      cbc := cbc + 1;
      if cbc <= cbs {
        PutNull(cc);
      }
    }

    method PutEbcdic(cc: byte)
      requires Valid()
      modifies this`op, this`obc, this`written, this`nofr, this`nopr, this`cbc, this`ntrunc, obuf
      ensures Valid() && Blocking(cbc, ntrunc, Sent()) == EbcdicByte(cbs, old(Blocking(cbc, ntrunc, Sent())), cc)
    {
      var c := Atoe(cc);
      if cbs == 0 {
        PutNull(c);
        return;
      }
      if cc == NL {
        TranslatedSpaces(cbs - cbc);
        Fill(Atoe(SPACE));
        cbc := 0;
        return;
      }
      if cbc == cbs {
        ntrunc := ntrunc + 1;
      }
      cbc := cbc + 1;
      if cbc <= cbs {
        PutNull(c);
      }
    }

    /** unblock; ascii is the same after translation. */
    method PutUnblock(c: byte)
      requires Valid()
      modifies this`op, this`obc, this`written, this`nofr, this`nopr, this`cbc, this`nspace, obuf
      ensures Valid() && Unblocking(cbc, nspace, Sent()) == UnblockByte(cbs, old(Unblocking(cbc, nspace, Sent())), c)
    {
      if cbs == 0 {
        PutNull(c);
        return;
      }
      if c == SPACE {
        nspace := nspace + 1;
      } else {
        Spill();
        PutNull(c);
      }
      cbc := cbc + 1;
      if cbc >= cbs {
        PutNull(NL);
        cbc, nspace := 0, 0;
      }
    }

    /** The whole input, and what is left in the buffer at its end: whatever the block size, the
        blocks hold the converted input, and all but the last are full. */
    method Convert(conv: Conv, text: seq<byte>)
      requires Valid() && Sent() == [] && cbc == 0 && nspace == 0 && ntrunc == 0
      modifies this, obuf
      ensures Flat(written) == Converted(conv, cbs, text)
      ensures Blocked(written, obs)
      ensures nofr + nopr == |written| && nopr <= 1
      ensures nopr == 1 <==> written != [] && |written[|written| - 1]| < obs
      ensures conv.Block? ==> ntrunc == BlockAll(cbs, Blocking(0, 0, []), text).ntrunc
      ensures conv.Ebcdic? ==> ntrunc == EbcdicAll(cbs, Blocking(0, 0, []), text).ntrunc
    {
      ConvertBytes(conv, text);
      Finish();
    }

    /** Everything up to the end of the input. */
    method ConvertBytes(conv: Conv, text: seq<byte>)
      requires Valid() && Sent() == [] && cbc == 0 && nspace == 0 && ntrunc == 0
      modifies this, obuf
      ensures Valid() && At(conv, text)
    {
      var i := 0;
      while i < |text|
        invariant 0 <= i <= |text| && Valid() && At(conv, text[..i])
      {
        assert text[..i + 1] == text[..i] + [text[i]];
        PutByte(conv, text[i], text[..i]);
        i := i + 1;
      }
      assert text[..i] == text;
    }

    /** The end of the input. */
    method Finish()
      requires Valid()
      modifies this`written, this`nofr, this`nopr, this`obc
      ensures Flat(written) == old(Sent()) && Blocked(written, obs)
      ensures nofr + nopr == |written| && nopr <= 1
      ensures nopr == 1 <==> written != [] && |written[|written| - 1]| < obs
    {
      FlatAppend(written, obuf[..obc]);
      Flsh();
    }

    /** (*conv)(c) */
    method PutByte(conv: Conv, c: byte, ghost text: seq<byte>)
      requires Valid() && At(conv, text)
      modifies this, obuf
      ensures Valid() && At(conv, text + [c])
    {
      assert (text + [c])[..|text|] == text;
      match conv {
        case Null => PutNull(c);
        case Block => PutBlock(c);
        case Unblock => PutUnblock(c);
        case Ebcdic => PutEbcdic(c);
        case Ascii => PutUnblock(Etoa(c));
      }
    }

    /** Where a conversion stands after this much of the input. */
    ghost predicate At(conv: Conv, text: seq<byte>)
      requires Valid()
      reads this, obuf
    {
      match conv
      case Null => Sent() == text
      case Block => Blocking(cbc, ntrunc, Sent()) == BlockAll(cbs, Blocking(0, 0, []), text)
      case Unblock => Unblocking(cbc, nspace, Sent()) == UnblockAll(cbs, Unblocking(0, 0, []), text)
      case Ebcdic => Blocking(cbc, ntrunc, Sent()) == EbcdicAll(cbs, Blocking(0, 0, []), text)
      case Ascii => Unblocking(cbc, nspace, Sent()) == AsciiAll(cbs, Unblocking(0, 0, []), text)
    }
  }

  lemma TranslatedSpaces(n: int)
    ensures n >= 0 ==> Mapped(Atoe, Spaces(n)) == Times(Atoe(SPACE), n)
  {
  }

  function Times(c: byte, n: nat): (s: seq<byte>)
    ensures |s| == n
  {
    seq(n, i => c)
  }
}
