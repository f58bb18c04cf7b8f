/** The line store of ed (ed.c): lines are kept in a temporary file that is seen through one buffer for reading and one
    for writing, and are named by their position in units of two bytes, whose lowest bit is left for marks. */
module EdStore {
  import opened Arithmetic
  import opened Crypt

  const BLOCK := 512
  const LAST := 255

  datatype Key = Key(on: bool, t1: seq<int>, t2: seq<int>, t3: seq<int>)

  ghost predicate GoodKey(key: Key) {
    Inverse(key.t1, key.t2) && Involution(key.t3)
  }

  type Blocks = map<int, seq<int>>

  // ---------------------------------------------------------------- blocks on disk

  /** With `-x` the blocks of the temporary file are enciphered. */
  ghost predicate OnDisk(key: Key, plain: seq<int>, d: seq<int>)
    requires GoodKey(key)
  {
    if key.on then Enciphered(key.t1, key.t2, key.t3, 0, plain, d) else d == plain
  }

  method Keep(key: Key, buf: seq<int>) returns (d: seq<int>)
    requires GoodKey(key)
    ensures OnDisk(key, buf, d)
  {
    d := buf;
    if key.on {
      d := CrBlock(key.t1, key.t2, key.t3, buf, 0);
    }
  }

  method Load(key: Key, d: seq<int>, ghost plain: seq<int>) returns (buf: seq<int>)
    requires GoodKey(key) && Bytes(plain) && OnDisk(key, plain, d)
    ensures buf == plain
  {
    buf := d;
    if key.on {
      buf := CrBlock(key.t1, key.t2, key.t3, d, 0);
      StreamTwice(key.t1, key.t2, key.t3, 0, plain, d, buf);
    }
  }

  // --------------------------------------------------------- the temporary file as it would be with everything written

  ghost predicate Block(b: seq<int>) {
    |b| == BLOCK && Bytes(b)
  }

  ghost predicate Saved(key: Key, file: Blocks, disk: Blocks, b: int)
    requires GoodKey(key)
  {
    b in file && b in disk && OnDisk(key, file[b], disk[b])
  }

  /** Blocks not in a buffer that differs from disk are on disk. */
  ghost predicate Backed(key: Key, file: Blocks, disk: Blocks, oblock: int, dirty: int)
    requires GoodKey(key)
  {
    forall b | b in file :: b >= 0 && Block(file[b]) && (b != oblock && b != dirty ==> Saved(key, file, disk, b))
  }

  /** A buffer holds the block it is said to hold. */
  ghost predicate Holds(file: Blocks, b: int, buf: seq<int>) {
    Block(buf) && (b >= 0 ==> b in file && file[b] == buf)
  }

  lemma {:induction false} BackedSave(key: Key, file: Blocks, disk: Blocks, oblock: int, dirty: int, b: int,
                                      d: seq<int>)
    requires GoodKey(key) && Backed(key, file, disk, oblock, dirty) && b in file && OnDisk(key, file[b], d)
    ensures Backed(key, file, disk[b := d], if b == oblock then -1 else oblock, if b == dirty then -1 else dirty)
  {
  }

  lemma {:induction false} BackedLess(key: Key, file: Blocks, disk: Blocks, oblock: int, dirty: int, b: int)
    requires GoodKey(key) && Backed(key, file, disk, oblock, dirty) && (dirty == -1 || dirty == b)
    ensures Backed(key, file, disk, oblock, b)
  {
    forall c | c in file && c != oblock && c != b ensures Saved(key, file, disk, c) {
    }
  }

  lemma {:induction false} BackedWrite(key: Key, file: Blocks, disk: Blocks, dirty: int, b: int, buf: seq<int>)
    requires GoodKey(key) && Backed(key, file, disk, -1, dirty) && Block(buf) && b >= 0
    ensures Backed(key, file[b := buf], disk, b, dirty)
  {
    var more := file[b := buf];
    forall c | c in more && c != b && c != dirty ensures Saved(key, more, disk, c) {
      assert Saved(key, file, disk, c);
    }
  }

  // ---------------------------------------------------------------- bytes of the file

  ghost predicate ByteAt(file: Blocks, x: int, c: int) {
    x >= 0 && x / BLOCK in file && |file[x / BLOCK]| == BLOCK && file[x / BLOCK][x % BLOCK] == c
  }

  lemma {:induction false} Put(file: Blocks, b: int, off: int, c: int, x: int)
    requires b in file && |file[b]| == BLOCK && 0 <= b && 0 <= off < BLOCK && x == b * BLOCK + off
    ensures ByteAt(file[b := file[b][off := c]], x, c)
    ensures forall y, d | y != x && ByteAt(file, y, d) :: ByteAt(file[b := file[b][off := c]], y, d)
  {
    assert x / BLOCK == b && x % BLOCK == off;
    var more := file[b := file[b][off := c]];
    forall y, d | y != x && ByteAt(file, y, d) ensures ByteAt(more, y, d) {
      if y / BLOCK == b {
        assert y == y / BLOCK * BLOCK + y % BLOCK;
      }
    }
  }

  /** The line is found at x, its end marked by 0. */
  ghost predicate LineAt(file: Blocks, x: int, line: seq<int>) {
    (forall k | 0 <= k < |line| :: ByteAt(file, x + k, line[k])) && ByteAt(file, x + |line|, 0)
  }

  ghost predicate Text(line: seq<int>) {
    |line| < BLOCK && forall k | 0 <= k < |line| :: 0 < line[k] < ROTORSZ && line[k] != '\n' as int
  }

  /** Handle h names the line, which lies below the end of the store. */
  ghost predicate Named(file: Blocks, tline: int, h: int, line: seq<int>) {
    h % 2 == 0 && 2 <= h && 2 * h + |line| < 2 * tline && Text(line) && LineAt(file, 2 * h, line)
  }

  ghost predicate AllNamed(file: Blocks, tline: int, lines: Blocks) {
    forall h | h in lines :: Named(file, tline, h, lines[h])
  }

  /** A change at or after the end of the store loses no line. */
  lemma {:induction false} NamedKept(file: Blocks, more: Blocks, tline: int, lines: Blocks)
    requires AllNamed(file, tline, lines) && forall y, d | y < 2 * tline && ByteAt(file, y, d) :: ByteAt(more, y, d)
    ensures AllNamed(more, tline, lines)
  {
    forall h | h in lines ensures Named(more, tline, h, lines[h]) {
      assert Named(file, tline, h, lines[h]);
      var line := lines[h];
      forall k | 0 <= k < |line| ensures ByteAt(more, 2 * h + k, line[k]) {
        assert ByteAt(file, 2 * h + k, line[k]);
      }
    }
  }

  /** A buffer taken for a block that is not in the file yet changes no byte. */
  lemma {:induction false} FreshBlock(file: Blocks, b: int, buf: seq<int>, tline: int, lines: Blocks)
    requires b !in file && AllNamed(file, tline, lines)
    ensures AllNamed(file[b := buf], tline, lines)
    ensures forall y, d | ByteAt(file, y, d) :: ByteAt(file[b := buf], y, d)
  {
    NamedKept(file, file[b := buf], tline, lines);
  }

  /** The first bytes of the line are in place. */
  ghost predicate Written(file: Blocks, x: int, linebuf: seq<int>, lp: nat) {
    lp <= |linebuf| && forall k | 0 <= k < lp :: ByteAt(file, x + k, linebuf[k])
  }

  lemma {:induction false} WrittenKept(file: Blocks, more: Blocks, x: int, linebuf: seq<int>, lp: nat)
    requires Written(file, x, linebuf, lp) && forall y, d | y < x + lp && ByteAt(file, y, d) :: ByteAt(more, y, d)
    ensures Written(more, x, linebuf, lp)
  {
    forall k | 0 <= k < lp ensures ByteAt(more, x + k, linebuf[k]) {
      assert ByteAt(file, x + k, linebuf[k]);
    }
  }

  /** `linebuf` holds a line that ends within it. */
  ghost predicate Buffer(linebuf: seq<int>) {
    |linebuf| == BLOCK && Bytes(linebuf) && 0 in linebuf
  }

  /** The first newline or the end of the line. */
  ghost function LineEnd(linebuf: seq<int>, k: nat): (e: nat)
    requires Buffer(linebuf)
    ensures k < |linebuf| ==> k <= e <= |linebuf|
                              && (forall i | k <= i < e :: linebuf[i] != 0 && linebuf[i] != '\n' as int)
    decreases |linebuf| - k
  {
    if k >= |linebuf| || linebuf[k] == 0 || linebuf[k] == '\n' as int then k else LineEnd(linebuf, k + 1)
  }

  /** The end of the store moves behind the line, no further than the next block. */
  lemma {:induction false} Rounded(tline: nat, e: nat, more: nat, b: int, off: nat)
    requires tline % 2 == 0 && more == tline + (e + 1 + 3) / 2 / 2 * 2 && b * BLOCK + off == 2 * tline + e
             && off < BLOCK
    requires 0 <= b < LAST
    ensures more % 2 == 0 && 2 * tline + e < 2 * more && more <= LAST * 256 && 2 * tline + e < LAST * BLOCK
    ensures b <= more / 256 <= b + 1
  {
  }

  /** Neither newline nor end comes before lp. */
  ghost predicate BeforeEnd(linebuf: seq<int>, lp: nat) {
    Buffer(linebuf) && LineEnd(linebuf, lp) == LineEnd(linebuf, 0) && lp <= LineEnd(linebuf, 0) < |linebuf|
  }

  lemma {:induction false} BeforeEndNext(linebuf: seq<int>, lp: nat, next: nat)
    requires BeforeEnd(linebuf, lp) && linebuf[lp] != 0 && linebuf[lp] != '\n' as int && next == lp + 1
    ensures BeforeEnd(linebuf, next)
  {
  }

  lemma {:induction false} EndInside(linebuf: seq<int>, k: nat)
    requires Buffer(linebuf) && k < |linebuf| && exists z :: k <= z < |linebuf| && linebuf[z] == 0
    ensures LineEnd(linebuf, k) < |linebuf|
    decreases |linebuf| - k
  {
    if linebuf[k] != 0 && linebuf[k] != '\n' as int {
      EndInside(linebuf, k + 1);
    }
  }

  /** The line just written gets its handle, and the end of the store moves behind it. */
  lemma {:induction false} EndMoves(file: Blocks, tline: nat, more: nat, lines: Blocks, linebuf: seq<int>, e: nat)
    requires AllNamed(file, tline, lines) && Buffer(linebuf) && e == LineEnd(linebuf, 0) && e < |linebuf|
    requires tline % 2 == 0 && 2 <= tline && 2 * tline + e < 2 * more
    requires Written(file, 2 * tline, linebuf, e) && ByteAt(file, 2 * tline + e, 0)
    ensures AllNamed(file, more, lines[tline := linebuf[..e]]) && tline !in lines
  {
    forall h | h in lines ensures Named(file, more, h, lines[h]) && h != tline {
      assert Named(file, tline, h, lines[h]);
    }
    assert LineAt(file, 2 * tline, linebuf[..e]);
  }

  /** The block at the end of the store is in use from now on. */
  lemma {:induction false} Begun(file: Blocks, more: Blocks, tline: nat, lines: Blocks, buf: seq<int>,
                                 linebuf: seq<int>)
    requires AllNamed(file, tline, lines) && (more == if tline / 256 !in file then file[tline / 256 := buf] else file)
    requires forall b | b in file :: 0 <= b <= tline / 256
    ensures AllNamed(more, tline, lines) && Written(more, 2 * tline, linebuf, 0)
            && forall b | b in more :: 0 <= b <= tline / 256
  {
    if tline / 256 !in file {
      FreshBlock(file, tline / 256, buf, tline, lines);
    }
  }

  // ---------------------------------------------------------------- the store

  class LineStore {
    const key: Key
    var disk: Blocks
    var ibuff: seq<int>
    var obuff: seq<int>
    var iblock: int
    var oblock: int
    var ichanged: bool
    var tline: nat
    ghost var file: Blocks
    ghost var lines: Blocks

    ghost predicate Buffers()
      reads this
    {
      && GoodKey(key) && Holds(file, iblock, ibuff) && Holds(file, oblock, obuff) && (iblock >= 0 ==> iblock != oblock)
      && (ichanged ==> iblock >= 0)
      && Backed(key, file, disk, oblock, if ichanged then iblock else -1)
    }

    /** Only the last block may be written to, and once begun it is in the buffer for writing. */
    ghost predicate Front()
      reads this
    {
      && tline % 2 == 0 && 2 <= tline <= LAST * 256 && !ichanged
      && (forall b | b in file :: 0 <= b <= tline / 256) && (tline / 256 in file ==> oblock == tline / 256)
    }

    ghost predicate Valid()
      reads this
    {
      Buffers() && Front() && AllNamed(file, tline, lines)
    }

    /** `init` */
    constructor (key: Key, ibuff: seq<int>, obuff: seq<int>)
      requires GoodKey(key) && Block(ibuff) && Block(obuff)
      ensures Valid() && lines == map[] && this.key == key
    {
      this.key := key;
      this.ibuff, this.obuff := ibuff, obuff;
      disk, file, lines := map[], map[], map[];
      iblock, oblock, ichanged, tline := -1, -1, false, 2;
    }

    /** A block to read, or for writing a block that is in a buffer or not yet begun: which buffer it is in. */
    method GetBlock(atl: nat, write: bool) returns (ok: bool, input: bool, off: nat)
      requires Buffers() && atl < 65536
      requires atl / 256 < LAST ==> if write then atl / 256 !in file || atl / 256 == iblock || atl / 256 == oblock
               else atl / 256 in file
      modifies this`disk, this`ibuff, this`iblock, this`oblock, this`ichanged, this`file
      ensures ok <==> atl / 256 < LAST
      ensures off == atl * 2 % BLOCK / 4 * 4
      ensures Buffers()
      ensures !ok ==> file == old(file) && iblock == old(iblock) && oblock == old(oblock) && ichanged == old(ichanged)
      ensures ok ==> (if input then iblock else oblock) == atl / 256
      ensures ok && input && write ==> old(iblock) == atl / 256
      ensures file == if ok && atl / 256 !in old(file) then old(file)[atl / 256 := obuff] else old(file)
      ensures !write ==> oblock == old(oblock)
      ensures !old(ichanged) && !(ok && input && write) ==> !ichanged
    {
      var bno := atl / 256 % 256;
      off := atl * 2 % BLOCK / 4 * 4;
      ok, input := true, false;
      if bno >= LAST {
        ok := false;
        return;
      }
      if bno == iblock {
        BackedLess(key, file, disk, oblock, if ichanged then iblock else -1, iblock);
        ichanged := ichanged || write;
        input := true;
        return;
      }
      if bno == oblock {
        return;
      }
      if !write {
        FetchBlock(bno);
        input := true;
        return;
      }
      StartBlock(bno);
    }

    /** The buffer for reading goes back to disk if it was changed, and takes another block. */
    method FetchBlock(bno: nat)
      requires Buffers() && bno in file && bno != iblock && bno != oblock
      modifies this`disk, this`ibuff, this`iblock, this`ichanged
      ensures Buffers() && iblock == bno && !ichanged
    {
      if ichanged {
        var d := Keep(key, ibuff);
        BackedSave(key, file, disk, oblock, iblock, iblock, d);
        disk := disk[iblock := d];
      }
      ichanged := false;
      iblock := bno;
      ibuff := Load(key, disk[bno], file[bno]);
    }

    /** The buffer for writing goes to disk and is taken, as it is, for a new block. */
    method StartBlock(bno: nat)
      requires Buffers() && bno !in file && bno != iblock && bno != oblock
      modifies this`disk, this`oblock, this`file
      ensures Buffers() && oblock == bno && file == old(file)[bno := obuff]
    {
      ghost var dirty := if ichanged then iblock else -1;
      if oblock >= 0 {
        var d := Keep(key, obuff);
        BackedSave(key, file, disk, oblock, dirty, oblock, d);
        disk := disk[oblock := d];
      }
      BackedWrite(key, file, disk, dirty, bno, obuff);
      oblock := bno;
      file := file[bno := obuff];
    }

    /** `*bp = c` in either buffer */
    method SetByte(input: bool, off: nat, c: int)
      requires Buffers() && off < BLOCK && 0 <= c < ROTORSZ && (if input then iblock >= 0 && ichanged else oblock >= 0)
      modifies this`ibuff, this`obuff, this`file
      ensures Buffers()
      ensures var b := if input then iblock else oblock; file == old(file)[b := old(file)[b][off := c]]
    {
      if input {
        ibuff := ibuff[off := c];
        file := file[iblock := ibuff];
      } else {
        obuff := obuff[off := c];
        file := file[oblock := obuff];
      }
    }

    /** Part of a line has been written behind the end of the store; off is the place in the buffer for its
        next byte. */
    ghost predicate Writing(linebuf: seq<int>, lp: nat, off: nat)
      reads this
    {
      && Buffers() && !ichanged && AllNamed(file, tline, lines) && off < BLOCK && oblock < LAST
      && tline % 2 == 0 && 2 <= tline && tline / 256 <= oblock && oblock * BLOCK + off == 2 * tline + lp
      && (forall b | b in file :: 0 <= b <= oblock) && Written(file, 2 * tline, linebuf, lp)
    }

    /** The next byte of the line. */
    method PutByte(ghost linebuf: seq<int>, ghost lp: nat, off: nat, c: int)
      requires Writing(linebuf, lp, off) && lp < |linebuf| && 0 <= c < ROTORSZ
      modifies this`obuff, this`file, this`ibuff
      ensures Writing(linebuf, lp, off) && ByteAt(file, 2 * tline + lp, c) && oblock in file
      ensures forall y, d | y < 2 * tline + lp && ByteAt(old(file), y, d) :: ByteAt(file, y, d)
    {
      ghost var x, before := 2 * tline + lp, file;
      Put(file, oblock, off, c, x);
      SetByte(false, off, c);
      NamedKept(before, file, tline, lines);
      WrittenKept(before, file, 2 * tline, linebuf, lp);
    }

    /** With the buffer full the line goes on in the next block. */
    method NextBlock(ghost linebuf: seq<int>, ghost lp: nat, tl: nat) returns (ok: bool, off: nat)
      requires Writing(linebuf, lp, BLOCK - 1) && lp < |linebuf| && oblock in file
               && ByteAt(file, 2 * tline + lp, linebuf[lp])
      requires tl == 256 * (oblock + 1)
      modifies this`disk, this`ibuff, this`iblock, this`oblock, this`ichanged, this`file
      ensures ok <==> tl / 256 < LAST
      ensures !ok ==> Buffers() && !ichanged && file == old(file) && oblock == old(oblock) && iblock == old(iblock)
      ensures ok ==> off == 0 && oblock == tl / 256 && Writing(linebuf, lp + 1, off)
    {
      ghost var before := file;
      var input;
      ok, input, off := GetBlock(tl, true);
      if ok {
        FreshBlock(before, tl / 256, obuff, tline, lines);
        ghost var next := lp + 1;
        WrittenKept(before, file, 2 * tline, linebuf, next);
      }
    }

    /** On to the next byte. */
    method StepOn(ghost linebuf: seq<int>, ghost lp: nat, ghost next: nat, at0: nat, nl0: nat, tl0: nat)
      returns (ok: bool, at: nat, nl: nat, tl: nat)
      requires Writing(linebuf, lp, at0) && Buffer(linebuf) && lp < |linebuf| && next == lp + 1 && nl0 == BLOCK - at0
               && tl0 == 256 * oblock
      requires oblock in file && ByteAt(file, 2 * tline + lp, linebuf[lp])
      modifies this`disk, this`ibuff, this`iblock, this`oblock, this`ichanged, this`file
      ensures ok ==> Writing(linebuf, next, at) && nl == BLOCK - at && tl == 256 * oblock
      ensures !ok ==> Buffers() && !ichanged && file == old(file) && oblock == old(oblock) && at0 == BLOCK - 1
                      && oblock + 1 >= LAST
    {
      ok, at, nl, tl := true, at0, nl0 - 1, tl0;
      if nl == 0 {
        tl := tl + 256;
        ok, at := NextBlock(linebuf, lp, tl);
        nl := if ok then BLOCK - at else 0;
      } else {
        at := at + 1;
      }
    }

    /** Where writing had to stop the store is as it was before. */
    lemma {:induction false} Stopped(linebuf: seq<int>, lp: nat)
      requires Writing(linebuf, lp, BLOCK - 1) && lp < BLOCK && tline <= LAST * 256 && oblock + 1 >= LAST
      ensures Front() && AllNamed(file, tline, lines) && 2 * tline + lp + 1 >= LAST * BLOCK
    {
    }

    method WriteByte(linebuf: seq<int>, lp: nat, at0: nat, nl0: nat, tl0: nat)
      returns (ok: bool, at: nat, nl: nat, tl: nat)
      requires Writing(linebuf, lp, at0) && nl0 == BLOCK - at0 && tl0 == 256 * oblock && tline <= LAST * 256
      requires BeforeEnd(linebuf, lp) && BeforeEnd(linebuf, lp + 1)
      modifies this`disk, this`ibuff, this`obuff, this`iblock, this`oblock, this`ichanged, this`file
      ensures ok ==> Writing(linebuf, lp + 1, at) && nl == BLOCK - at && tl == 256 * oblock
      ensures !ok ==> Buffers() && Front() && AllNamed(file, tline, lines)
                      && 2 * tline + LineEnd(linebuf, 0) >= LAST * BLOCK
    {
      PutByte(linebuf, lp, at0, linebuf[lp]);
      ghost var next := lp + 1;
      ok, at, nl, tl := StepOn(linebuf, lp, next, at0, nl0, tl0);
      if !ok {
        Stopped(linebuf, lp);
      }
    }

    method WriteBytes(linebuf: seq<int>, off0: nat) returns (ok: bool, e: nat, ghost off: nat)
      requires Writing(linebuf, 0, off0) && Buffer(linebuf) && tline <= LAST * 256
      modifies this`disk, this`ibuff, this`obuff, this`iblock, this`oblock, this`ichanged, this`file
      ensures ok ==> Ended(linebuf, e, off)
      ensures !ok ==> Buffers() && Front() && AllNamed(file, tline, lines)
                      && 2 * tline + LineEnd(linebuf, 0) >= LAST * BLOCK
    {
      var lp: nat, at: nat, tl: nat := 0, off0, 256 * oblock;
      var nl: nat := BLOCK - at;
      EndInside(linebuf, 0);
      ok, e, off := true, 0, 0;
      while linebuf[lp] != 0 && linebuf[lp] != '\n' as int
        invariant Writing(linebuf, lp, at) && nl == BLOCK - at && tl == 256 * oblock && BeforeEnd(linebuf, lp)
        decreases |linebuf| - lp
      {
        ghost var here := lp;
        BeforeEndNext(linebuf, here, lp + 1);
        ok, at, nl, tl := WriteByte(linebuf, lp, at, nl, tl);
        if !ok {
          return;
        }
        lp := lp + 1;
      }
      Terminate(linebuf, lp, at);
      e, off := lp, at;
    }

    /** A newline is written and then made the end of the line. */
    method Terminate(linebuf: seq<int>, lp: nat, at: nat)
      requires Writing(linebuf, lp, at) && BeforeEnd(linebuf, lp) && (linebuf[lp] == 0 || linebuf[lp] == '\n' as int)
      modifies this`obuff, this`file, this`ibuff
      ensures Ended(linebuf, lp, at)
    {
      if linebuf[lp] != 0 {
        PutByte(linebuf, lp, at, linebuf[lp]);
      }
      PutByte(linebuf, lp, at, 0);
    }

    /** All of the line is written. */
    ghost predicate Ended(linebuf: seq<int>, e: nat, off: nat)
      reads this
    {
      Buffer(linebuf) && Writing(linebuf, e, off) && ByteAt(file, 2 * tline + e, 0) && e == LineEnd(linebuf, 0)
          && e < |linebuf|
    }

    /** The line gets its handle, and the end of the store moves to the next multiple of four bytes. */
    method Finish(linebuf: seq<int>, e: nat, ghost off: nat) returns (handle: nat)
      requires Ended(linebuf, e, off)
      modifies this`tline, this`lines
      ensures Valid() && 2 * old(tline) + e < LAST * BLOCK
      ensures handle % 2 == 0 && handle !in old(lines) && lines == old(lines)[handle := linebuf[..e]]
    {
      handle := tline;
      var more: nat := tline + (e + 1 + 3) / 2 / 2 * 2;
      EndMoves(file, tline, more, lines, linebuf, e);
      Rounded(tline, e, more, oblock, off);
      lines := lines[tline := linebuf[..e]];
      tline := more;
    }

    /** The block the end of the store is in, begun now if it was not. */
    method Begin(linebuf: seq<int>, tl: nat) returns (ok: bool, off: nat)
      requires Valid() && Buffer(linebuf) && tl == tline
      modifies this`disk, this`ibuff, this`iblock, this`oblock, this`ichanged, this`file
      ensures ok <==> tl / 256 < LAST
      ensures !ok ==> Valid()
      ensures ok ==> Writing(linebuf, 0, off)
    {
      ghost var before := file;
      var input;
      ok, input, off := GetBlock(tl, true);
      HandleBlock(tline, tl);
      if ok {
        Begun(before, file, tline, lines, obuff, linebuf);
      }
    }

    /** Unless the store is full, the line up to its first newline or end is kept under a new handle. */
    method PutLine(linebuf: seq<int>) returns (ok: bool, handle: nat)
      requires Valid() && Buffer(linebuf)
      modifies this
      ensures Valid()
      ensures ok <==> 2 * old(tline) + LineEnd(linebuf, 0) < LAST * BLOCK
      ensures ok ==> handle % 2 == 0 && handle !in old(lines)
                     && lines == old(lines)[handle := linebuf[..LineEnd(linebuf, 0)]]
      ensures !ok ==> lines == old(lines) && tline == old(tline)
    {
      handle := 0;
      var off, e;
      ghost var last;
      EndInside(linebuf, 0);
      ok, off := Begin(linebuf, tline);
      if !ok {
        return;
      }
      ok, e, last := WriteBytes(linebuf, off);
      if !ok {
        return;
      }
      handle := Finish(linebuf, e, last);
    }

    /** Byte n of the line named h is at off in one of the buffers. */
    ghost predicate Reading(h: nat, line: seq<int>, n: nat, input: bool, off: nat, tl: nat)
      reads this
    {
      var b := if input then iblock else oblock;
      && Valid() && h in lines && line == lines[h] && n <= |line|
      && off < BLOCK && 0 <= b < LAST && b * BLOCK + off == 2 * h + n && tl == 256 * b
    }

    /** The byte read: 0 only at the end of the line. */
    method Read(ghost h: nat, ghost line: seq<int>, ghost n: nat, input: bool, off: nat, ghost tl: nat) returns (c: int)
      requires Reading(h, line, n, input, off, tl)
      ensures IsNext(line, n, c)
    {
      LineByte(file, tline, lines, h, n);
      c := if input then ibuff[off] else obuff[off];
    }

    /** The block that byte n of a line is in. */
    method Enter(ghost h: nat, ghost line: seq<int>, ghost n: nat, tl0: nat) returns (input: bool, off: nat, tl: nat)
      requires Valid() && h in lines && line == lines[h] && n <= |line|
      requires tl0 / 256 == (2 * h + n) / BLOCK && tl0 * 2 % BLOCK / 4 * 4 == (2 * h + n) % BLOCK
      modifies this`disk, this`ibuff, this`iblock, this`oblock, this`ichanged, this`file
      ensures Reading(h, line, n, input, off, tl)
    {
      LineByte(file, tline, lines, h, n);
      var ok;
      ok, input, off := GetBlock(tl0, false);
      tl := tl0 / 256 * 256;
    }

    method ReadOn(ghost h: nat, ghost line: seq<int>, ghost n: nat, ghost next: nat, input0: bool, off0: nat, nl0: nat,
                  tl0: nat)
      returns (input: bool, off: nat, nl: nat, tl: nat)
      requires Reading(h, line, n, input0, off0, tl0) && n < |line| && nl0 == BLOCK - off0 && next == n + 1
      modifies this`disk, this`ibuff, this`iblock, this`oblock, this`ichanged, this`file
      ensures Reading(h, line, next, input, off, tl) && nl == BLOCK - off
    {
      input, off, nl, tl := input0, off0, nl0 - 1, tl0;
      if nl == 0 {
        tl := tl + 256;
        input, off, tl := Enter(h, line, next, tl);
        nl := BLOCK - off;
      } else {
        off := off + 1;
      }
    }

    /** About to look at c, byte n of the line. */
    ghost predicate Fetching(h: nat, line: seq<int>, n: nat, input: bool, off: nat, nl: int, tl: nat, c: int)
      reads this
    {
      Reading(h, line, n, input, off, tl) && nl == BLOCK - off && IsNext(line, n, c)
    }

    method FirstByte(atl: nat, ghost h: nat) returns (input: bool, off: nat, nl: nat, tl: nat, c: int)
      requires Valid() && h in lines && (atl == h || atl == h + 1)
      modifies this`disk, this`ibuff, this`iblock, this`oblock, this`ichanged, this`file
      ensures Fetching(h, lines[h], 0, input, off, nl, tl, c)
    {
      ghost var line := lines[h];
      assert Named(file, tline, h, line);
      HandleBlock(h, atl);
      input, off, tl := Enter(h, line, 0, atl);
      nl := BLOCK - off;
      c := Read(h, line, 0, input, off, tl);
    }

    method NextByte(ghost h: nat, ghost line: seq<int>, ghost n: nat, ghost next: nat, input0: bool, off0: nat,
                    nl0: nat, tl0: nat, ghost c0: int)
      returns (input: bool, off: nat, nl: nat, tl: nat, c: int)
      requires Fetching(h, line, n, input0, off0, nl0, tl0, c0) && c0 != 0 && next == n + 1
      modifies this`disk, this`ibuff, this`iblock, this`oblock, this`ichanged, this`file
      ensures Fetching(h, line, next, input, off, nl, tl, c)
    {
      input, off, nl, tl := ReadOn(h, line, n, next, input0, off0, nl0, tl0);
      c := Read(h, line, next, input, off, tl);
    }

    /** The handle of a line, marked or not, gives back the line. */
    method GetLine(atl: nat, ghost h: nat) returns (line: seq<int>)
      requires Valid() && h in lines && (atl == h || atl == h + 1)
      modifies this`disk, this`ibuff, this`iblock, this`oblock, this`ichanged, this`file
      ensures Valid() && line == lines[h]
    {
      line := [];
      ghost var whole, n: nat := lines[h], 0;
      var input, off: nat, nl: nat, tl: nat, c;
      input, off, nl, tl, c := FirstByte(atl, h);
      while c != 0
        invariant Fetching(h, whole, n, input, off, nl, tl, c) && Copied(line, whole, n)
        decreases |whole| - n
      {
        ghost var last, was, c0 := n, line, c;
        n := n + 1;
        line := line + [c];
        CopiedMore(was, whole, last, c, line, n);
        input, off, nl, tl, c := NextByte(h, whole, last, n, input, off, nl, tl, c0);
      }
    }
  }

  /** The byte after n of them, or the end. */
  ghost predicate IsNext(line: seq<int>, n: nat, c: int) {
    n <= |line| && (c == 0 <==> n == |line|) && (n < |line| ==> c == line[n])
  }

  ghost predicate Copied(line: seq<int>, whole: seq<int>, n: nat) {
    n <= |whole| && line == whole[..n]
  }

  lemma {:induction false} CopiedMore(line: seq<int>, whole: seq<int>, n: nat, c: int, more: seq<int>, next: nat)
    requires Copied(line, whole, n) && IsNext(whole, n, c) && c != 0 && more == line + [c] && next == n + 1
    ensures Copied(more, whole, next)
  {
  }

  lemma {:induction false} HandleBlock(h: nat, atl: nat)
    requires h % 2 == 0 && (atl == h || atl == h + 1)
    ensures atl / 256 == 2 * h / BLOCK && atl * 2 % BLOCK / 4 * 4 == 2 * h % BLOCK
  {
    var g, m := h / 2, atl - h;
    var b, r := g / 128, g % 128;
    QuotientIs(atl, 256, b, 2 * r + m);
    QuotientIs(2 * h, BLOCK, b, 4 * r);
    QuotientIs(2 * atl, BLOCK, b, 4 * r + 2 * m);
    QuotientIs(4 * r + 2 * m, 4, r, 2 * m);
  }

  /** The next byte of a named line: 0 only at its end. */
  lemma {:induction false} LineByte(file: Blocks, tline: int, lines: Blocks, h: nat, n: nat)
    requires AllNamed(file, tline, lines) && h in lines && n <= |lines[h]|
    ensures ByteAt(file, 2 * h + n, if n < |lines[h]| then lines[h][n] else 0) && 2 * h + n < 2 * tline
    ensures n < |lines[h]| ==> lines[h][n] != 0
  {
    assert Named(file, tline, h, lines[h]);
  }
}
