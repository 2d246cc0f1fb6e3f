/** tar: blocks on a tape, written and read in records of nblock blocks. */
module Tape {
  import opened Common

  const TBLOCK: nat := 512
  const NBLOCK: nat := 20   // a reader asks for at most this many blocks at once

  type Block = b: seq<byte> | |b| == TBLOCK witness seq(TBLOCK, i => 0)

  const ZERO: Block := seq(TBLOCK, i => 0)

  /** How many blocks so many bytes fill. */
  function BlocksOf(size: nat): (n: nat)
    ensures size <= n * TBLOCK < size + TBLOCK
  {
    (size + TBLOCK - 1) / TBLOCK
  }

  function Bytes(blocks: seq<Block>): (bs: seq<byte>)
    ensures |bs| == |blocks| * TBLOCK
  {
    if blocks == [] then [] else Bytes(blocks[..|blocks| - 1]) + blocks[|blocks| - 1]
  }

  lemma {:induction false} BytesOfConcat(a: seq<Block>, b: seq<Block>)
    ensures Bytes(a + b) == Bytes(a) + Bytes(b)
  {
    if b == [] {
      assert a + b == a;
    } else {
      var front := b[..|b| - 1];
      BytesOfConcat(a, front);
      assert (a + b)[..|a + b| - 1] == a + front;
      assert Bytes(a) + (Bytes(front) + b[|b| - 1]) == Bytes(a) + Bytes(front) + b[|b| - 1];
    }
  }

  datatype Kind = Regular | HardLink | Symlink | Directory

  /** What the reader takes from a header block; how it is encoded does not matter here. */
  datatype Format = Format(size: Block -> nat, kind: Block -> Kind, end: Block -> bool)

  /** The data blocks that follow a header: only regular files have any, whatever size it records. */
  function DataBlocks(f: Format, header: Block): nat {
    if f.kind(header).Regular? then BlocksOf(f.size(header)) else 0
  }

  /** The header of a directory or a symbolic link records no size; that of a hard link may. */
  predicate SizeOk(f: Format, header: Block) {
    f.kind(header).Directory? || f.kind(header).Symlink? ==> f.size(header) == 0
  }

  /** The blocks that hold these bytes. */
  function Chop(bs: seq<byte>): (blocks: seq<Block>)
    requires |bs| % TBLOCK == 0
    ensures |blocks| * TBLOCK == |bs|
    decreases |bs|
  {
    if bs == [] then [] else Chop(bs[..|bs| - TBLOCK]) + [bs[|bs| - TBLOCK..]]
  }

  lemma {:induction false} BytesOfChop(bs: seq<byte>)
    requires |bs| % TBLOCK == 0
    ensures Bytes(Chop(bs)) == bs
    decreases |bs|
  {
    if bs != [] {
      var front := bs[..|bs| - TBLOCK];
      BytesOfChop(front);
      assert Chop(bs)[..|Chop(bs)| - 1] == Chop(front);
      assert bs == front + bs[|bs| - TBLOCK..];
    }
  }

  class Writer {
    const nblock: nat
    const tbuf: array<Block>
    var recno: nat
    var tape: seq<seq<Block>>   // the records on the tape

    ghost predicate Valid()
      reads this
    {
      nblock > 0 && tbuf.Length == nblock && recno <= nblock && forall r :: r in tape ==> |r| == nblock
    }

    /** Everything submitted so far: what is on the tape, and what waits in the buffer. */
    ghost function Submitted(): seq<Block>
      requires Valid()
      reads this, tbuf
    {
      Flat(tape) + tbuf[..recno]
    }

    constructor (nblock: nat)
      requires nblock > 0
      ensures Valid() && Submitted() == [] && fresh(tbuf) && this.nblock == nblock
    {
      this.nblock := nblock;
      tbuf := new Block[nblock](_ => ZERO);
      recno, tape := 0, [];
    }

    /** write(mt, record, TBLOCK * nblock) */
    method WriteRecord(record: seq<Block>)
      requires Valid() && |record| == nblock
      modifies this`tape
      ensures Valid() && tape == old(tape) + [record] && Flat(tape) == Flat(old(tape)) + record
    {
      FlatAppend(tape, record);
      tape := tape + [record];
    }

    method CopyBlock(b: Block)
      requires Valid() && recno < nblock
      modifies this`recno, this`tape, tbuf
      ensures Valid() && recno < nblock && Submitted() == old(Submitted()) + [b]
    {
      tbuf[recno] := b;
      recno := recno + 1;
      assert tbuf[..recno] == old(tbuf[..recno]) + [b];
      if recno >= nblock {
        WriteRecord(tbuf[..]);
        recno := 0;
      }
    }

    /** Submits the first n blocks of the buffer; whole records go straight to the tape when the
        buffer is empty.  Returns how many blocks would fill the record. */
    method WriteTBuf(buffer: seq<Block>, n0: nat) returns (hint: nat)
      requires Valid() && n0 <= |buffer|
      modifies this`recno, this`tape, tbuf
      ensures Valid() && Submitted() == old(Submitted()) + buffer[..n0]
      ensures hint == nblock - recno && recno < nblock
    {
      if recno >= nblock {
        WriteRecord(tbuf[..]);
        recno := 0;
      }
      ghost var was := Submitted();
      var k := WriteRecords(buffer, n0);
      CopyBlocks(buffer, k, n0);
      Parts(was, buffer, k, n0);
      hint := nblock - recno;
    }

    /** while (recno == 0 && n >= nblock) */
    method WriteRecords(buffer: seq<Block>, n0: nat) returns (k: nat)
      requires Valid() && recno < nblock && n0 <= |buffer|
      modifies this`tape
      ensures Valid() && k <= n0 && Submitted() == old(Submitted()) + buffer[..k]
    {
      k := 0;
      ghost var was := Submitted();
      while recno == 0 && n0 - k >= nblock
        invariant Valid() && k <= n0 && Submitted() == was + buffer[..k]
        decreases n0 - k
      {
        WriteDirect(buffer[k..k + nblock]);
        Longer(was, buffer, k, nblock);
        k := k + nblock;
      }
    }

    /** while (n-- > 0) */
    method CopyBlocks(buffer: seq<Block>, k0: nat, n0: nat)
      requires Valid() && recno < nblock && k0 <= n0 <= |buffer|
      modifies this`recno, this`tape, tbuf
      ensures Valid() && recno < nblock && Submitted() == old(Submitted()) + buffer[k0..n0]
    {
      var k := k0;
      ghost var was := Submitted();
      while k < n0
        invariant Valid() && recno < nblock && k0 <= k <= n0 && Submitted() == was + buffer[k0..k]
      {
        CopyBlock(buffer[k]);
        OneLonger(was, buffer, k0, k);
        k := k + 1;
      }
    }

    lemma OneLonger(was: seq<Block>, buffer: seq<Block>, k0: nat, k: nat)
      requires k0 <= k < |buffer|
      ensures was + buffer[k0..k + 1] == (was + buffer[k0..k]) + [buffer[k]]
    {
    }

    lemma Parts(was: seq<Block>, buffer: seq<Block>, k: nat, n: nat)
      requires k <= n <= |buffer|
      ensures (was + buffer[..k]) + buffer[k..n] == was + buffer[..n]
    {
      assert buffer[..n] == buffer[..k] + buffer[k..n];
    }

    method WriteDirect(record: seq<Block>)
      requires Valid() && |record| == nblock && recno == 0
      modifies this`tape
      ensures Valid() && recno == 0 && Submitted() == old(Submitted()) + record
    {
      WriteRecord(record);
      assert tbuf[..recno] == [];
    }

    lemma Longer(was: seq<Block>, buffer: seq<Block>, k: nat, n: nat)
      requires k + n <= |buffer|
      ensures was + buffer[..k + n] == (was + buffer[..k]) + buffer[k..k + n]
    {
      assert buffer[..k + n] == buffer[..k] + buffer[k..k + n];
    }

    method PutEmpty()
      requires Valid()
      modifies this`recno, this`tape, tbuf
      ensures Valid() && recno < nblock && Submitted() == old(Submitted()) + [ZERO]
    {
      var hint := WriteTBuf([ZERO], 1);
    }

    /** Two empty blocks, and what it takes to fill the record. */
    method EndArchive()
      requires Valid()
      modifies this`recno, this`tape, tbuf
      ensures Valid() && old(Submitted()) + [ZERO, ZERO] <= Flat(tape)
    {
      ghost var was := Submitted();
      PutEmpty();
      PutEmpty();
      Associate(was, [ZERO], [ZERO]);
      assert [ZERO] + [ZERO] == [ZERO, ZERO];
      FlushTape();
    }

    /** The rest of the last record is whatever the buffer holds. */
    method FlushTape()
      requires Valid()
      modifies this`tape
      ensures Valid() && old(Submitted()) <= Flat(tape)
    {
      WriteRecord(tbuf[..]);
    }

    /** The data of a regular file, always BlocksOf(size) blocks of it: what read gives, which may
        be less or more than the file was to have, and empty blocks for what is missing. */
    method PutData(size: nat, versions: seq<seq<byte>>, maxread: nat, hint0: nat, bigbuf0: seq<byte>,
                   ghost file: seq<byte>)
      returns (ghost data: seq<Block>)
      requires Valid() && recno < nblock && hint0 == nblock - recno
      requires maxread > 0 && maxread % TBLOCK == 0 && |bigbuf0| == maxread
      requires versions != []
      modifies this`recno, this`tape, tbuf
      ensures Valid() && recno < nblock && Submitted() == old(Submitted()) + data && |data| == BlocksOf(size)
      ensures Faithful(versions, file) && |file| == size ==> Bytes(data)[..size] == file
    {
      ghost var was := Submitted();
      var blocks;
      blocks, data := ReadIn(size, versions, maxread, hint0, bigbuf0, file);
      while blocks > 0
        invariant Valid() && recno < nblock
        invariant Submitted() == was + data && |data| + blocks == BlocksOf(size)
        invariant Faithful(versions, file) && |file| == size ==> size <= |Bytes(data)| && Bytes(data)[..size] == file
      {
        PutEmpty();
        BytesOfConcat(data, [ZERO]);
        assert (was + data) + [ZERO] == was + (data + [ZERO]);
        data := data + [ZERO];
        blocks := blocks - 1;
      }
    }

    /** The loop that reads the file; returns how many blocks are missing. */
    method ReadIn(size: nat, versions: seq<seq<byte>>, maxread: nat, hint0: nat, bigbuf0: seq<byte>, ghost file: seq<byte>)
      returns (blocks: nat, ghost data: seq<Block>)
      requires Valid() && recno < nblock && hint0 == nblock - recno
      requires maxread > 0 && maxread % TBLOCK == 0 && |bigbuf0| == maxread
      requires versions != []
      modifies this`recno, this`tape, tbuf
      ensures Valid() && recno < nblock && Submitted() == old(Submitted()) + data && |data| + blocks == BlocksOf(size)
      ensures Faithful(versions, file) && |file| == size ==> size <= |Bytes(data)| && Bytes(data)[..size] == file
    {
      ghost var was, total := Submitted(), BlocksOf(size);
      var k: nat, pos: nat, hint: nat, bigbuf := 0, 0, hint0, bigbuf0;
      blocks, data := BlocksOf(size), [];
      while true
        invariant Valid() && recno < nblock && hint == nblock - recno && |bigbuf| == maxread
        invariant Submitted() == was + data && |data| + blocks == total
        invariant CopiedIf(versions, file, size, data, pos)
        decreases blocks
      {
        var chunk := ReadAt(versions, k, pos, Want(hint, maxread));
        if |chunk| == 0 || blocks == 0 {
          CopyEnds(versions, file, size, data, k, pos, Want(hint, maxread), chunk, blocks);
          return;
        }
        hint, blocks, bigbuf, data := CopyChunk(versions, k, pos, hint, maxread, chunk, bigbuf, blocks, file, size, data, was);
        pos, k := pos + |chunk|, k + 1;
      }
    }

    /** What was read goes to the beginning of the buffer, and the blocks it touches to the tape. */
    method CopyChunk(versions: seq<seq<byte>>, k: nat, pos: nat, hint0: nat, maxread: nat, chunk: seq<byte>, bigbuf0: seq<byte>,
                     blocks0: nat, ghost file: seq<byte>, size: nat, ghost data0: seq<Block>, ghost was: seq<Block>)
      returns (hint: nat, blocks: nat, bigbuf: seq<byte>, ghost data: seq<Block>)
      requires Valid() && hint0 > 0 && maxread > 0 && maxread % TBLOCK == 0 && |bigbuf0| == maxread && versions != []
      requires chunk == ReadAt(versions, k, pos, Want(hint0, maxread)) && chunk != [] && blocks0 > 0
      requires Submitted() == was + data0 && |data0| + blocks0 == BlocksOf(size) && CopiedIf(versions, file, size, data0, pos)
      modifies this`recno, this`tape, tbuf
      ensures Valid() && recno < nblock && hint == nblock - recno && |bigbuf| == maxread && blocks < blocks0
      ensures Submitted() == was + data && |data| + blocks == BlocksOf(size)
      ensures CopiedIf(versions, file, size, data, pos + |chunk|)
    {
      bigbuf := Overlay(chunk, bigbuf0);
      CopyStep(versions, file, size, data0, k, pos, Want(hint0, maxread), chunk, bigbuf, blocks0);
      ghost var more := Touched(chunk, bigbuf, blocks0);
      hint, blocks := PutChunk(chunk, bigbuf, blocks0);
      Associate(was, data0, more);
      data := data0 + more;
    }

    lemma Associate(a: seq<Block>, b: seq<Block>, c: seq<Block>)
      ensures (a + b) + c == a + (b + c)
    {
    }

    /** A header and, for a regular file, its data. */
    method PutMember(f: Format, header: Block, versions: seq<seq<byte>>, maxread: nat, ghost file: seq<byte>)
      returns (ghost data: seq<Block>)
      requires Valid() && versions != [] && maxread > 0 && maxread % TBLOCK == 0
      modifies this`recno, this`tape, tbuf
      ensures Valid() && Submitted() == old(Submitted()) + ([header] + data) && |data| == DataBlocks(f, header)
      ensures f.kind(header).Regular? && Faithful(versions, file) && |file| == f.size(header) ==>
        Bytes(data)[..f.size(header)] == file
    {
      ghost var was := Submitted();
      var hint := WriteTBuf([header], 1);
      assert [header][..1] == [header];
      if !f.kind(header).Regular? {
        data := [];
        assert [header] + data == [header];
      } else {
        data := PutData(f.size(header), versions, maxread, hint, seq(maxread, i => 0), file);
        Associate(was, [header], data);
      }
    }

    /** Writes as many blocks of the buffer as the chunk at its beginning touches, but not more
        than there are to be. */
    method PutChunk(chunk: seq<byte>, bigbuf: seq<byte>, blocks0: nat) returns (hint: nat, blocks: nat)
      requires Valid() && 0 < |chunk| <= |bigbuf| && |bigbuf| % TBLOCK == 0 && blocks0 > 0
      modifies this`recno, this`tape, tbuf
      ensures Valid() && recno < nblock && hint == nblock - recno
      ensures Submitted() == old(Submitted()) + Touched(chunk, bigbuf, blocks0)
      ensures blocks == blocks0 - |Touched(chunk, bigbuf, blocks0)|
    {
      var nblks: nat := (|chunk| - 1) / TBLOCK + 1;
      if nblks > blocks0 {
        nblks := blocks0;
      }
      hint := WriteTBuf(Chop(bigbuf), nblks);
      blocks := blocks0 - nblks;
    }
  }

  /** What the buffer holds after a read. */
  function Overlay(chunk: seq<byte>, bigbuf: seq<byte>): (r: seq<byte>)
    requires |chunk| <= |bigbuf|
    ensures |r| == |bigbuf| && chunk <= r
  {
    chunk + bigbuf[|chunk|..]
  }

  /** The blocks that the chunk at the beginning of the buffer touches, but not more than n. */
  function Touched(chunk: seq<byte>, bigbuf: seq<byte>, n: nat): (r: seq<Block>)
    requires 0 < |chunk| <= |bigbuf| && |bigbuf| % TBLOCK == 0
    ensures |r| == Min((|chunk| - 1) / TBLOCK + 1, n)
  {
    BlocksFit(chunk, bigbuf, Min((|chunk| - 1) / TBLOCK + 1, n));
    Chop(bigbuf)[..Min((|chunk| - 1) / TBLOCK + 1, n)]
  }

  /** How much to read: up to the end of the record, but not more than the buffer holds. */
  function Want(hint: nat, maxread: nat): (w: nat)
    requires hint > 0 && maxread > 0 && maxread % TBLOCK == 0
    ensures 0 < w <= maxread && w % TBLOCK == 0
  {
    Min(hint * TBLOCK, maxread)
  }

  lemma BlocksFit(chunk: seq<byte>, bigbuf: seq<byte>, nblks: nat)
    requires 0 < |chunk| <= |bigbuf| && |bigbuf| % TBLOCK == 0 && nblks <= (|chunk| - 1) / TBLOCK + 1
    ensures nblks <= |Chop(bigbuf)| && nblks * TBLOCK <= |bigbuf| && nblks * TBLOCK < |chunk| + TBLOCK
  {
  }

  /** pos bytes of the file are in the blocks; a block is full unless it is the last. */
  predicate Copied(file: seq<byte>, data: seq<Block>, pos: nat) {
    && pos <= |file| && pos <= |Bytes(data)| && Bytes(data)[..pos] == file[..pos]
    && (pos < |file| ==> pos == |data| * TBLOCK)
  }

  ghost predicate CopiedIf(versions: seq<seq<byte>>, file: seq<byte>, size: nat, data: seq<Block>, pos: nat) {
    Faithful(versions, file) && |file| == size ==> Copied(file, data, pos)
  }

  lemma {:induction false} ChopPrefix(bs: seq<byte>, n: nat)
    requires |bs| % TBLOCK == 0 && n * TBLOCK <= |bs|
    ensures n <= |Chop(bs)| && Bytes(Chop(bs)[..n]) == bs[..n * TBLOCK]
    decreases |bs|
  {
    if n * TBLOCK == |bs| {
      BytesOfChop(bs);
      assert Chop(bs)[..n] == Chop(bs) && bs[..n * TBLOCK] == bs;
    } else {
      var front := bs[..|bs| - TBLOCK];
      ChopPrefix(front, n);
      assert Chop(bs)[..n] == Chop(front)[..n] && bs[..n * TBLOCK] == front[..n * TBLOCK];
    }
  }

  lemma CopyStep(versions: seq<seq<byte>>, file: seq<byte>, size: nat, data: seq<Block>, k: nat, pos: nat, want: nat,
                 chunk: seq<byte>, bigbuf: seq<byte>, blocks: nat)
    requires versions != [] && want > 0 && want % TBLOCK == 0 && chunk == ReadAt(versions, k, pos, want)
    requires |chunk| > 0 && |data| + blocks == BlocksOf(size) && chunk <= bigbuf && |bigbuf| % TBLOCK == 0
    requires CopiedIf(versions, file, size, data, pos)
    ensures CopiedIf(versions, file, size, data + Touched(chunk, bigbuf, blocks), pos + |chunk|)
  {
    if Faithful(versions, file) && |file| == size {
      var more := Touched(chunk, bigbuf, blocks);
      assert chunk == file[pos..Min(pos + want, size)];
      BlocksFit(chunk, bigbuf, |more|);
      ChopPrefix(bigbuf, |more|);
      BytesOfConcat(data, more);
      StepSizes(size, |data|, pos, want, |chunk|, |more|, blocks);
      JoinBytes(Bytes(data), bigbuf, file, pos, |chunk|, |more| * TBLOCK);
    }
  }

  lemma StepSizes(size: nat, n: nat, pos: nat, want: nat, chunk: nat, nblks: nat, blocks: nat)
    requires want > 0 && want % TBLOCK == 0 && chunk > 0 && n + blocks == BlocksOf(size) && pos < size
    requires pos == n * TBLOCK && chunk == Min(pos + want, size) - pos && nblks == Min((chunk - 1) / TBLOCK + 1, blocks)
    ensures chunk <= nblks * TBLOCK
    ensures pos + chunk < size ==> pos + chunk == (n + nblks) * TBLOCK
  {
  }

  lemma JoinBytes(done: seq<byte>, bigbuf: seq<byte>, file: seq<byte>, pos: nat, n: nat, m: nat)
    requires pos == |done| && pos + n <= |file| && n <= m <= |bigbuf| && done[..pos] == file[..pos]
    requires bigbuf[..n] == file[pos..pos + n]
    ensures (done + bigbuf[..m])[..pos + n] == file[..pos + n]
  {
    assert (done + bigbuf[..m])[..pos + n] == done + bigbuf[..n];
    assert file[..pos + n] == file[..pos] + file[pos..pos + n];
  }

  lemma CopyEnds(versions: seq<seq<byte>>, file: seq<byte>, size: nat, data: seq<Block>, k: nat, pos: nat, want: nat,
                 chunk: seq<byte>, blocks: nat)
    requires versions != [] && want > 0 && chunk == ReadAt(versions, k, pos, want) && (|chunk| == 0 || blocks == 0) && |data| + blocks == BlocksOf(size)
    requires CopiedIf(versions, file, size, data, pos)
    ensures Faithful(versions, file) && |file| == size ==> size <= |Bytes(data)| && Bytes(data)[..size] == file
  {
    if Faithful(versions, file) && |file| == size {
      assert chunk == file[pos..Min(pos + want, size)];
      assert pos == size && file[..pos] == file;
    }
  }

  /** The k-th read, at pos; the file may be another one by then. */
  function ReadAt(versions: seq<seq<byte>>, k: nat, pos: nat, want: nat): (chunk: seq<byte>)
    requires versions != []
    ensures |chunk| <= want
  {
    var file := versions[Min(k, |versions| - 1)];
    if pos <= |file| then file[pos..Min(pos + want, |file|)] else []
  }

  /** The file does not change. */
  predicate Faithful(versions: seq<seq<byte>>, file: seq<byte>) {
    forall k :: 0 <= k < |versions| ==> versions[k] == file
  }

  // ---- Archives ----

  datatype Member = Member(header: Block, data: seq<Block>)

  /** One thing to archive: its header, the file as each read finds it, and how much a read may ask for. */
  datatype Input = Input(header: Block, versions: seq<seq<byte>>, maxread: nat)

  predicate Usable(f: Format, i: Input) {
    !f.end(i.header) && SizeOk(f, i.header) && i.versions != [] && i.maxread > 0 && i.maxread % TBLOCK == 0
  }

  function Layout(ms: seq<Member>): seq<Block> {
    if ms == [] then [] else Layout(ms[..|ms| - 1]) + ([ms[|ms| - 1].header] + ms[|ms| - 1].data)
  }

  lemma LayoutAppend(ms: seq<Member>, m: Member)
    ensures Layout(ms + [m]) == Layout(ms) + ([m.header] + m.data)
  {
    assert (ms + [m])[..|ms|] == ms;
  }

  lemma {:induction false} LayoutPrepend(m: Member, ms: seq<Member>)
    ensures Layout([m] + ms) == ([m.header] + m.data) + Layout(ms)
  {
    if ms == [] {
      assert [m] + ms == [] + [m];
      LayoutAppend([], m);
    } else {
      var front, last := ms[..|ms| - 1], ms[|ms| - 1];
      LayoutPrepend(m, front);
      assert ([m] + ms)[..|ms|] == [m] + front;
    }
  }

  /** The member has the blocks its header promises, and the file if that did not change. */
  ghost predicate Archives(f: Format, m: Member, i: Input) {
    && m.header == i.header && |m.data| == DataBlocks(f, m.header) && !f.end(m.header) && SizeOk(f, m.header)
    && forall file :: f.kind(m.header).Regular? && Faithful(i.versions, file) && |file| == f.size(m.header) ==>
         Bytes(m.data)[..f.size(m.header)] == file
  }

  ghost predicate Archived(f: Format, ms: seq<Member>, inputs: seq<Input>) {
    |ms| <= |inputs| && forall k :: 0 <= k < |ms| ==> Archives(f, ms[k], inputs[k])
  }

  lemma ArchivedMore(f: Format, ms: seq<Member>, inputs: seq<Input>, m: Member)
    requires Archived(f, ms, inputs) && |ms| < |inputs| && Archives(f, m, inputs[|ms|])
    ensures Archived(f, ms + [m], inputs)
  {
  }

  /** All of them, two empty blocks, and the rest of the last record. */
  method WriteArchive(f: Format, inputs: seq<Input>, w: Writer) returns (ghost ms: seq<Member>)
    requires w.Valid() && w.Submitted() == [] && forall k :: 0 <= k < |inputs| ==> Usable(f, inputs[k])
    modifies w, w.tbuf
    ensures w.Valid() && |ms| == |inputs| && Archived(f, ms, inputs)
    ensures Layout(ms) + [ZERO, ZERO] <= Flat(w.tape)
  {
    ms := [];
    var k := 0;
    while k < |inputs|
      invariant 0 <= k <= |inputs| && w.Valid() && |ms| == k && w.Submitted() == Layout(ms)
      invariant Archived(f, ms, inputs)
    {
      ghost var m := PutInput(f, inputs[k], w, ms);
      ArchivedMore(f, ms, inputs, m);
      ms := ms + [m];
      k := k + 1;
    }
    w.EndArchive();
  }

  method PutInput(f: Format, i: Input, w: Writer, ghost ms: seq<Member>) returns (ghost m: Member)
    requires w.Valid() && w.Submitted() == Layout(ms) && Usable(f, i)
    modifies w, w.tbuf
    ensures w.Valid() && w.Submitted() == Layout(ms + [m]) && Archives(f, m, i)
  {
    ghost var data := w.PutMember(f, i.header, i.versions, i.maxread, i.versions[0]);
    m := Member(i.header, data);
    LayoutAppend(ms, m);
    assert forall file :: Faithful(i.versions, file) ==> i.versions[0] == file;
  }

  class Reader {
    const nblock: nat
    const tbuf: array<Block>
    const tape: seq<seq<Block>>
    var recno: nat
    var first: bool
    var pos: nat               // records read

    ghost predicate Valid()
      reads this
    {
      && nblock > 0 && tbuf.Length == nblock && recno <= nblock && pos <= |tape|
      && forall r :: r in tape ==> |r| == nblock
    }

    /** What is still to be read. */
    ghost function Ahead(): seq<Block>
      requires Valid()
      reads this, tbuf
    {
      if first then tbuf[recno..] + FlatFrom(tape, pos) else FlatFrom(tape, pos)
    }

    constructor (nblock: nat, tape: seq<seq<Block>>)
      requires nblock > 0 && forall r :: r in tape ==> |r| == nblock
      ensures Valid() && Ahead() == Flat(tape) && fresh(tbuf)
    {
      this.nblock, this.tape := nblock, tape;
      tbuf := new Block[nblock](_ => ZERO);
      recno, first, pos := 0, false, 0;
      new;
      FlatFromStart(tape, 0);
      assert tape[..0] == [];
    }

    /** bread(mt, tbuf, TBLOCK * nblock), at the end of the buffer */
    method ReadRecord()
      requires Valid() && (first ==> recno >= nblock) && Ahead() != []
      modifies this`recno, this`first, this`pos, tbuf
      ensures Valid() && first && recno == 0 && Ahead() == old(Ahead())
    {
      AtEnd();
      Load(tape[pos]);
      first, recno, pos := true, 0, pos + 1;
      assert tbuf[recno..] == tbuf[..];
    }

    /** With the buffer used up, the next record comes next. */
    lemma AtEnd()
      requires Valid() && (first ==> recno >= nblock) && Ahead() != []
      ensures pos < |tape| && |tape[pos]| == nblock && Ahead() == tape[pos] + FlatFrom(tape, pos + 1)
    {
      assert first ==> tbuf[recno..] == [];
      assert Ahead() == FlatFrom(tape, pos);
      assert tape[pos] in tape;
    }

    method Load(record: seq<Block>)
      requires tbuf.Length == |record|
      modifies tbuf
      ensures tbuf[..] == record
    {
      var i := 0;
      while i < |record|
        invariant 0 <= i <= |record| && tbuf[..i] == record[..i]
      {
        tbuf[i] := record[i];
        i := i + 1;
      }
    }

    /** As many as n blocks, but only what is left of the record. */
    method ReadTBuf(n: nat) returns (blocks: seq<Block>)
      requires Valid() && n > 0 && Ahead() != []
      modifies this`recno, this`first, this`pos, tbuf
      ensures Valid() && 0 < |blocks| <= n && old(Ahead()) == blocks + Ahead()
    {
      if recno >= nblock || !first {
        ReadRecord();
      }
      blocks := Take(Min(n, nblock - recno));
    }

    method Take(m: nat) returns (blocks: seq<Block>)
      requires Valid() && first && recno + m <= nblock
      modifies this`recno
      ensures Valid() && |blocks| == m && old(Ahead()) == blocks + Ahead()
    {
      blocks := tbuf[recno..recno + m];
      SplitOff(tbuf[..], recno, m, FlatFrom(tape, pos));
      recno := recno + m;
    }

    lemma SplitOff(a: seq<Block>, k: nat, m: nat, rest: seq<Block>)
      requires k + m <= |a|
      ensures a[k..] + rest == a[k..k + m] + (a[k + m..] + rest)
    {
      assert a[k..] == a[k..k + m] + a[k + m..];
    }

    /** passtape: reads past a member's data, block by block. */
    method PassBlocks(n: nat)
      requires Valid() && n <= |Ahead()|
      modifies this`recno, this`first, this`pos, tbuf
      ensures Valid() && Ahead() == old(Ahead())[n..]
    {
      var blocks: nat := n;
      ghost var all, k: nat := Ahead(), 0;
      while blocks > 0
        invariant Valid() && k + blocks == n && Ahead() == all[k..]
        decreases blocks
      {
        ghost var was := Ahead();
        var b := ReadTBuf(1);
        Drop(all, k, was, b, Ahead());
        blocks, k := blocks - 1, k + |b|;
      }
    }

    lemma Drop(all: seq<Block>, k: nat, was: seq<Block>, b: seq<Block>, now: seq<Block>)
      requires k <= |all| && was == all[k..] && was == b + now
      ensures k + |b| <= |all| && now == all[k + |b|..] && b == all[k..k + |b|]
    {
      assert now == was[|b|..] && b == was[..|b|];
    }

    /** Reads the blocks of a regular file and writes its bytes. */
    method Extract(size: nat) returns (file: seq<byte>)
      requires Valid() && BlocksOf(size) <= |Ahead()|
      modifies this`recno, this`first, this`pos, tbuf
      ensures Valid() && Ahead() == old(Ahead())[BlocksOf(size)..]
      ensures file == Bytes(old(Ahead())[..BlocksOf(size)])[..size]
    {
      var blocks: nat, bytes: int := BlocksOf(size), size;
      file := [];
      ghost var all, k: nat, total: nat := Ahead(), 0, blocks;
      while blocks > 0
        invariant Valid() && k + blocks == total && Ahead() == all[k..] && bytes == size - k * TBLOCK
        invariant file == Written(all, k, size)
        decreases blocks
      {
        var n, piece;
        MoreBytes(size, k);
        n, piece := ExtractSome(Min(NBLOCK, blocks), bytes, all, k, size);
        file := file + piece;
        bytes, blocks, k := bytes - n * TBLOCK, blocks - n, k + n;
      }
    }

    /** One pass of the loop: reads at most nwant blocks, and writes what of them is in the file. */
    method ExtractSome(nwant: nat, bytes: int, ghost all: seq<Block>, ghost k: nat, ghost size: nat)
      returns (n: nat, piece: seq<byte>)
      requires Valid() && k + nwant <= |all| && nwant > 0 && Ahead() == all[k..] && bytes == size - k * TBLOCK > 0
      modifies this`recno, this`first, this`pos, tbuf
      ensures Valid() && 0 < n <= nwant && Ahead() == all[k + n..]
      ensures Written(all, k, size) + piece == Written(all, k + n, size)
    {
      ghost var was := Ahead();
      var bufp := ReadTBuf(nwant);
      n := |bufp|;
      Drop(all, k, was, bufp, Ahead());
      WrittenMore(all, k, bufp, size, bytes);
      piece := Bytes(bufp)[..if n * TBLOCK < bytes then n * TBLOCK else bytes];
    }

    lemma MoreBytes(size: nat, k: nat)
      ensures k < BlocksOf(size) ==> k * TBLOCK < size
    {
    }

    /** What the first k blocks give of a file. */
    ghost function Written(all: seq<Block>, k: nat, size: nat): seq<byte>
      requires k <= |all|
    {
      Bytes(all[..k])[..Min(k * TBLOCK, size)]
    }

    lemma WrittenMore(all: seq<Block>, k: nat, b: seq<Block>, size: nat, bytes: int)
      requires k + |b| <= |all| && b == all[k..k + |b|] && bytes == size - k * TBLOCK > 0
      ensures var n := |b| * TBLOCK; var take: nat := if n < bytes then n else bytes;
        Written(all, k, size) + Bytes(b)[..take] == Written(all, k + |b|, size)
    {
      assert all[..k + |b|] == all[..k] + b;
      BytesOfConcat(all[..k], b);
      var n := |b| * TBLOCK;
      var take: nat := if n < bytes then n else bytes;
      JoinPart(Bytes(all[..k]), Bytes(b), take);
      assert Min(k * TBLOCK, size) == k * TBLOCK == |Bytes(all[..k])|;
      assert Min((k + |b|) * TBLOCK, size) == k * TBLOCK + take;
    }

    lemma JoinPart(a: seq<byte>, b: seq<byte>, n: nat)
      requires n <= |b|
      ensures a[..|a|] + b[..n] == (a + b)[..|a| + n]
    {
    }
  }

  /** What the reader makes of a member: a file, a directory or a link, or nothing. */
  datatype Seen = Extracted(header: Block, file: seq<byte>) | Made(header: Block) | Passed(header: Block)

  /** What it should be for the k-th member. */
  function SeenAs(f: Format, m: Member, k: nat, chosen: set<nat>): Seen
    requires |m.data| == DataBlocks(f, m.header)
  {
    if k !in chosen then Passed(m.header)
    else if f.kind(m.header).Regular? then Extracted(m.header, Bytes(m.data)[..f.size(m.header)])
    else Made(m.header)
  }

  predicate WellFormed(f: Format, ms: seq<Member>) {
    forall k :: 0 <= k < |ms| ==> MemberOk(f, ms[k])
  }

  predicate MemberOk(f: Format, m: Member) {
    |m.data| == DataBlocks(f, m.header) && !f.end(m.header) && SizeOk(f, m.header)
  }

  ghost predicate AllSeen(f: Format, ms: seq<Member>, seen: seq<Seen>, chosen: set<nat>)
    requires WellFormed(f, ms)
  {
    |seen| <= |ms| && forall k :: 0 <= k < |seen| ==> seen[k] == SeenAs(f, ms[k], k, chosen)
  }

  lemma OneMoreSeen(f: Format, ms: seq<Member>, seen: seq<Seen>, chosen: set<nat>, s: Seen)
    requires WellFormed(f, ms) && AllSeen(f, ms, seen, chosen) && |seen| < |ms| && s == SeenAs(f, ms[|seen|], |seen|, chosen)
    ensures AllSeen(f, ms, seen + [s], chosen)
  {
  }

  /** Reads an archive to its end, extracting the chosen members and passing over the others. */
  method ReadArchive(f: Format, r: Reader, chosen: set<nat>, ghost ms: seq<Member>) returns (seen: seq<Seen>)
    requires r.Valid() && WellFormed(f, ms) && Layout(ms) + [ZERO, ZERO] <= r.Ahead() && f.end(ZERO)
    modifies r, r.tbuf
    ensures |seen| == |ms| && AllSeen(f, ms, seen, chosen)
  {
    seen := [];
    ghost var k: nat := 0;
    while true
      invariant r.Valid() && k == |seen| <= |ms| && Layout(ms[k..]) + [ZERO, ZERO] <= r.Ahead()
      invariant AllSeen(f, ms, seen, chosen)
      decreases |ms| - k
    {
      ghost var was := r.Ahead();
      var header := r.ReadTBuf(1);
      NextHeader(ms, k, was, header, r.Ahead());
      if f.end(header[0]) {
        return;
      }
      ghost var rest := Layout(ms[k + 1..]) + [ZERO, ZERO];
      var s := ReadMember(f, r, header[0], |seen|, chosen, ms[k], rest);
      OneMoreSeen(f, ms, seen, chosen, s);
      seen := seen + [s];
      k := k + 1;
    }
  }

  lemma NextHeader(ms: seq<Member>, k: nat, was: seq<Block>, header: seq<Block>, now: seq<Block>)
    requires k <= |ms| && Layout(ms[k..]) + [ZERO, ZERO] <= was && |header| == 1 && was == header + now
    ensures k == |ms| ==> header[0] == ZERO
    ensures k < |ms| ==> header[0] == ms[k].header && ms[k].data + (Layout(ms[k + 1..]) + [ZERO, ZERO]) <= now
  {
    if k < |ms| {
      var m, tail := ms[k], [ZERO, ZERO];
      assert ms[k..] == [m] + ms[k + 1..];
      LayoutPrepend(m, ms[k + 1..]);
      var all := [m.header] + (m.data + (Layout(ms[k + 1..]) + tail));
      assert Layout(ms[k..]) + tail == all;
      assert was[0] == all[0] && was[1..] == now && all[1..] == m.data + (Layout(ms[k + 1..]) + tail);
    } else {
      assert ms[k..] == [];
      assert was[0] == ([] + [ZERO, ZERO])[0];
    }
  }

  /** What follows a header: extracted or passed over, and read to its end either way. */
  method ReadMember(f: Format, r: Reader, header: Block, k: nat, chosen: set<nat>, ghost m: Member, ghost rest: seq<Block>)
    returns (s: Seen)
    requires r.Valid() && header == m.header && MemberOk(f, m) && m.data + rest <= r.Ahead()
    modifies r, r.tbuf
    ensures r.Valid() && rest <= r.Ahead() && s == SeenAs(f, m, k, chosen)
  {
    Front(m.data, rest, r.Ahead());
    if k !in chosen {
      PassTape(f, r, header);
      return Passed(header);
    }
    match f.kind(header)
    case Regular =>
      var file := r.Extract(f.size(header));
      s := Extracted(header, file);
    case _ =>
      s := Made(header);
  }

  /** passtape: passes over what follows a header; only that of a hard link is known to have nothing. */
  method PassTape(f: Format, r: Reader, header: Block)
    requires r.Valid() && SizeOk(f, header) && DataBlocks(f, header) <= |r.Ahead()|
    modifies r, r.tbuf
    ensures r.Valid() && r.Ahead() == old(r.Ahead())[DataBlocks(f, header)..]
  {
    if !f.kind(header).HardLink? {
      r.PassBlocks(BlocksOf(f.size(header)));
    }
  }

  lemma Front(a: seq<Block>, b: seq<Block>, all: seq<Block>)
    requires a + b <= all
    ensures |a| <= |all| && all[..|a|] == a && b <= all[|a|..]
  {
    assert all[..|a|] == (a + b)[..|a|] && all[|a|..][..|b|] == (a + b)[|a|..];
  }

  /** Whatever is archived, and whichever members are extracted: the reader sees the headers in
      order, and each chosen regular file that did not change while it was archived comes back. */
  method RoundTrip(f: Format, inputs: seq<Input>, nblock: nat, chosen: set<nat>) returns (seen: seq<Seen>)
    requires nblock > 0 && f.end(ZERO) && forall k :: 0 <= k < |inputs| ==> Usable(f, inputs[k])
    ensures |seen| == |inputs| && forall k :: 0 <= k < |inputs| ==> Returned(f, inputs[k], k, chosen, seen[k])
  {
    var w := new Writer(nblock);
    ghost var ms := WriteArchive(f, inputs, w);
    var r := new Reader(nblock, w.tape);
    ArchivedIsWellFormed(f, ms, inputs);
    seen := ReadArchive(f, r, chosen, ms);
    forall k | 0 <= k < |inputs|
      ensures Returned(f, inputs[k], k, chosen, seen[k])
    {
      OneReturned(f, ms, inputs, seen, chosen, k);
    }
  }

  lemma ArchivedIsWellFormed(f: Format, ms: seq<Member>, inputs: seq<Input>)
    requires Archived(f, ms, inputs)
    ensures WellFormed(f, ms)
  {
    forall k | 0 <= k < |ms|
      ensures MemberOk(f, ms[k])
    {
      assert Archives(f, ms[k], inputs[k]);
    }
  }

  /** What comes back of the k-th thing archived: its header, and if it is a chosen regular file
      as many bytes as the header says, which are those of the file if it did not change. */
  ghost predicate Returned(f: Format, i: Input, k: nat, chosen: set<nat>, s: Seen) {
    && s.header == i.header
    && (s.Passed? <==> k !in chosen)
    && (s.Extracted? <==> k in chosen && f.kind(i.header).Regular?)
    && (s.Extracted? ==> |s.file| == f.size(i.header))
    && (s.Extracted? ==> forall file :: Faithful(i.versions, file) && |file| == f.size(i.header) ==> s.file == file)
  }

  lemma OneReturned(f: Format, ms: seq<Member>, inputs: seq<Input>, seen: seq<Seen>, chosen: set<nat>, k: nat)
    requires WellFormed(f, ms) && Archived(f, ms, inputs) && AllSeen(f, ms, seen, chosen) && k < |seen|
    ensures Returned(f, inputs[k], k, chosen, seen[k])
  {
    assert Archives(f, ms[k], inputs[k]) && seen[k] == SeenAs(f, ms[k], k, chosen);
  }

  function FlatFrom(tape: seq<seq<Block>>, pos: nat): seq<Block>
    requires pos <= |tape|
    decreases |tape| - pos
  {
    if pos == |tape| then [] else tape[pos] + FlatFrom(tape, pos + 1)
  }

  lemma {:induction false} FlatFromStart(tape: seq<seq<Block>>, pos: nat)
    requires pos <= |tape|
    ensures Flat(tape[..pos]) + FlatFrom(tape, pos) == Flat(tape)
    decreases |tape| - pos
  {
    if pos == |tape| {
      assert tape[..pos] == tape;
    } else {
      FlatFromStart(tape, pos + 1);
      assert tape[..pos + 1] == tape[..pos] + [tape[pos]];
      FlatAppend(tape[..pos], tape[pos]);
      assert (Flat(tape[..pos]) + tape[pos]) + FlatFrom(tape, pos + 1) == Flat(tape[..pos]) + (tape[pos] + FlatFrom(tape, pos + 1));
    }
  }
}
