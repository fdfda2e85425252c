/** Reading and writing files through the shared window of MiSTerFS (sw/MiSTerFS/MiSTerFS.C): the
    token handshake of sendquery and the chunk loops of READFIL and WRITEFIL. */
module MisterFs {
  import opened Basics

  const FRAME_SIZE := 1090
  const HEADER := 8
  const CHUNK := 1024
  const AL_READFIL: byte := 0x08
  const AL_WRITEFIL: byte := 0x09
  const NETWORK_ERROR := 0xFFFF

  // ------------------------------------------------------------------ files

  /** The bytes of f from pos on, at most n. */
  function Slice(f: seq<byte>, pos: nat, n: nat): (s: seq<byte>)
    ensures |s| == if pos >= |f| then 0 else Min(n, |f| - pos)
  {
    if pos >= |f| then [] else f[pos..pos + Min(n, |f| - pos)]
  }

  /** f with bs written at pos; a gap before pos reads as zero. Writing nothing changes nothing. */
  function Overwrite(f: seq<byte>, pos: nat, bs: seq<byte>): (r: seq<byte>)
    ensures bs == [] ==> r == f
    ensures bs != [] ==> |r| == if pos + |bs| > |f| then pos + |bs| else |f|
  {
    if bs == [] then f
    else
      seq(if pos + |bs| > |f| then pos + |bs| else |f|, i requires 0 <= i =>
        if pos <= i < pos + |bs| then bs[i - pos] else if i < |f| then f[i] else 0)
  }

  /** Byte by byte: the bytes written, else the old ones, else the zeros of the gap. */
  lemma OverwriteAt(f: seq<byte>, pos: nat, bs: seq<byte>, i: nat)
    requires bs != [] && i < |Overwrite(f, pos, bs)|
    ensures Overwrite(f, pos, bs)[i] ==
            if pos <= i < pos + |bs| then bs[i - pos] else if i < |f| then f[i] else 0
  {
  }

  lemma OverwriteAppend(f: seq<byte>, pos: nat, a: seq<byte>, b: seq<byte>)
    ensures Overwrite(Overwrite(f, pos, a), pos + |a|, b) == Overwrite(f, pos, a + b)
  {
    if a == [] {
      assert a + b == b;
    } else if b == [] {
      assert a + b == a;
    } else {
      OverwriteTwice(f, pos, a, b, a + b);
    }
  }

  lemma OverwriteTwice(f: seq<byte>, pos: nat, a: seq<byte>, b: seq<byte>, c: seq<byte>)
    requires a != [] && b != [] && |c| == |a| + |b|
    requires (forall k :: 0 <= k < |a| ==> c[k] == a[k]) && (forall k :: |a| <= k < |c| ==> c[k] == b[k - |a|])
    ensures Overwrite(Overwrite(f, pos, a), pos + |a|, b) == Overwrite(f, pos, c)
  {
    var once := Overwrite(f, pos, a);
    var twice, both := Overwrite(once, pos + |a|, b), Overwrite(f, pos, c);
    assert |twice| == |both|;
    forall i | 0 <= i < |twice| ensures twice[i] == both[i] {
      OverwriteAt(once, pos + |a|, b, i);
      OverwriteAt(f, pos, c, i);
      if i < |once| { OverwriteAt(f, pos, a, i); }
    }
  }

  lemma SliceAppend(f: seq<byte>, pos: nat, n: nat, m: nat)
    requires pos + n <= |f|
    ensures Slice(f, pos, n) + Slice(f, pos + n, m) == Slice(f, pos, n + m)
  {
  }

  /** Reading back what was written. */
  lemma WriteThenRead(f: seq<byte>, pos: nat, bs: seq<byte>)
    ensures Slice(Overwrite(f, pos, bs), pos, |bs|) == bs
  {
  }

  // ------------------------------------------------------------------ the server

  /** How the server meets one query: normally, moving at most `limit` bytes, or with an error. */
  datatype Behaviour = Serves(limit: nat) | BackendError(code: nat) | NetworkDown

  function WordAt(q: seq<byte>, at: nat): (w: nat)
    requires at + 1 < |q|
    ensures w < 0x1_0000
  {
    q[at] as nat + 0x100 * q[at + 1] as nat
  }

  function PosOf(q: seq<byte>): nat
    requires |q| == FRAME_SIZE
  {
    FromLe32(q[HEADER..HEADER + 4])
  }

  function Word(w: nat): (bs: seq<byte>)
    requires w < 0x1_0000
    ensures |bs| == 2 && bs[0] as nat + 0x100 * bs[1] as nat == w
  {
    [(w % 0x100) as byte, (w / 0x100) as byte]
  }

  /** A reply frame: length, two bytes kept, AX, two bytes kept, data, the rest of the window kept. */
  function Reply(q: seq<byte>, length: nat, ax: nat, data: seq<byte>): (r: seq<byte>)
    requires |q| == FRAME_SIZE && length < 0x1_0000 && ax < 0x1_0000 && |data| <= CHUNK
    ensures |r| == FRAME_SIZE && WordAt(r, 0) == length && WordAt(r, 4) == ax
    ensures r[HEADER..HEADER + |data|] == data
  {
    Splice(Splice(Splice(q, 0, Word(length)), 4, Word(ax)), HEADER, data)
  }

  type Files = map<nat, seq<byte>>

  /** The server's answer to a query frame, and the files after it. */
  function Respond(files: Files, q: seq<byte>, b: Behaviour): (r: (Files, seq<byte>))
    requires |q| == FRAME_SIZE
    ensures |r.1| == FRAME_SIZE
  {
    var id, n := WordAt(q, 12), WordAt(q, 14);
    match b
    case NetworkDown => (files, Reply(q, 0xFFFF, 0, []))
    case BackendError(code) => (files, Reply(q, 0, code % 0xFFFF + 1, []))
    case Serves(limit) =>
      if id !in files || n > CHUNK then (files, Reply(q, 0, 6, []))
      else if q[4] == AL_READFIL then
        var data := Slice(files[id], PosOf(q), Min(n, limit));
        (files, Reply(q, |data|, 0, data))
      else if q[4] == AL_WRITEFIL then
        var written := Min(n, limit);
        var data := q[HEADER + 8..HEADER + 8 + written];
        (files[id := Overwrite(files[id], PosOf(q), data)], Reply(q, 2, 0, Word(written)))
      else (files, Reply(q, 0, 1, []))
  }

  /** The error code that comes of a query to read or write at most a chunk. */
  function ErrorOf(b: Behaviour): nat {
    match b
    case NetworkDown => 2
    case BackendError(code) => code % 0xFFFF + 1
    case Serves(_) => 6
  }

  /** The layout of a query: its length, the drive, the function, and the arguments. */
  predicate Asks(q: seq<byte>, length: nat, drive: byte, query: byte, pos: nat, id: nat, n: nat) {
    |q| == FRAME_SIZE && q[0] as nat + 0x100 * q[1] as nat == length && q[3] == drive && q[4] == query
    && q[8] as nat + 0x100 * q[9] as nat + 0x1_0000 * q[10] as nat + 0x100_0000 * q[11] as nat == pos
    && q[12] as nat + 0x100 * q[13] as nat == id && q[14] as nat + 0x100 * q[15] as nat == n
  }

  /** The memory shared with the server: two token words and a frame. */
  class Window {
    var request: nat
    var response: nat
    const frame: array<byte>

    ghost predicate Valid()
      reads this
    {
      frame.Length == FRAME_SIZE && request < 0x1_0000
    }

    constructor ()
      ensures Valid() && fresh(frame)
    {
      frame := new byte[FRAME_SIZE];
      request, response := 0, 0;
    }
  }

  /** The server acts when the request word is not the one it saw last, and answers by repeating it. */
  class Server {
    const window: Window
    const behaviourAt: nat -> Behaviour
    var files: Files
    var seen: nat
    var served: nat
    ghost var asked: seq<byte>

    constructor (window: Window, files: Files, behaviourAt: nat -> Behaviour)
      ensures this.window == window && this.files == files && this.behaviourAt == behaviourAt
      ensures seen == window.request && served == 0
    {
      this.window, this.files, this.behaviourAt := window, files, behaviourAt;
      seen, served, asked := window.request, 0, [];
    }

    /** A server that answers every query in full. */
    ghost predicate Reliable() {
      forall k: nat :: behaviourAt(k).Serves? && behaviourAt(k).limit >= CHUNK
    }

    /** Nothing is asked at the moment. */
    ghost predicate Quiet()
      reads this, window
    {
      window.Valid() && seen == window.request
    }

    method Serve()
      requires window.Valid() && window.request != seen
      modifies this`files, this`seen, this`served, this`asked, window`response, window.frame
      ensures Quiet() && window.response == window.request && served == old(served) + 1
      ensures asked == old(window.frame[..])
      ensures (files, window.frame[..]) == Respond(old(files), old(window.frame[..]), behaviourAt(old(served)))
    {
      asked := window.frame[..];
      var (after, reply) := Respond(files, window.frame[..], behaviourAt(served));
      files := after;
      forall i | 0 <= i < FRAME_SIZE {
        window.frame[i] := reply[i];
      }
      assert window.frame[..] == reply;
      seen := window.request;
      served := served + 1;
      window.response := window.request;
    }
  }

  // ------------------------------------------------------------------ the handshake

  const WAITING := 0xA55A

  /** The next request token: the low byte counts, the high byte is derived from it. */
  function Token(previous: nat): (n: nat)
    requires previous < 0x1_0000
    ensures n < 0x1_0000 && n % 0x100 == (previous + 1) % 0x100 && n / 0x100 == (previous + 78) % 0x100
  {
    var n := (previous + 1) % 0x1_0000;
    (n + 77) % 0x100 * 0x100 + n % 0x100
  }

  /** A token always differs from the one before, so the server notices it, and never equals the
      value the response word is preset to, so the wait cannot end before the server answers. */
  lemma TokenFresh(previous: nat)
    requires previous < 0x1_0000
    ensures Token(previous) != previous && Token(previous) != WAITING
  {
    assert Token(previous) % 0x100 == (previous + 1) % 0x100;
    assert Token(previous) / 0x100 == ((previous + 1) % 0x1_0000 + 77) % 0x100;
  }

  /** The frame with the header of a query filled in. */
  function Headed(f: seq<byte>, query: byte, drive: byte, seqNo: byte, bufflen: nat): (q: seq<byte>)
    requires |f| == FRAME_SIZE && bufflen < 0x1_0000
    ensures |q| == FRAME_SIZE && WordAt(q, 0) == bufflen && q[2] == seqNo && q[3] == drive && q[4] == query
    ensures q[HEADER..] == f[HEADER..]
  {
    f[0 := Word(bufflen)[0]][1 := Word(bufflen)[1]][2 := seqNo][3 := drive][4 := query]
  }

  /** The fields of DOS's system file table entry that a transfer uses. */
  class Sft {
    var openMode: nat
    var startSector: nat
    var fileSize: nat
    var filePos: nat

    ghost predicate Valid()
      reads this
    {
      startSector < 0x1_0000 && filePos < 0x1_0000_0000
    }

    constructor (openMode: nat, startSector: nat, fileSize: nat, filePos: nat)
      requires startSector < 0x1_0000 && filePos < 0x1_0000_0000
      ensures Valid() && this.openMode == openMode && this.startSector == startSector
      ensures this.fileSize == fileSize && this.filePos == filePos
    {
      this.openMode, this.startSector, this.fileSize, this.filePos := openMode, startSector, fileSize, filePos;
    }
  }

  /** copybytes: byte by byte from the front. */
  method CopyBytes(dst: array<byte>, at: nat, src: seq<byte>)
    requires at + |src| <= dst.Length
    modifies dst
    ensures dst[..] == Splice(old(dst[..]), at, src)
  {
    for i := 0 to |src|
      invariant dst[..] == Splice(old(dst[..]), at, src[..i])
    {
      dst[at + i] := src[i];
    }
    assert src[..|src|] == src;
  }

  class Redirector {
    const server: Server
    const window: Window
    const drive: byte
    var seqNo: byte

    ghost predicate Valid()
      reads this, server, window
    {
      server.window == window && server.Quiet()
    }

    constructor (server: Server, drive: byte)
      requires server.Quiet()
      ensures Valid() && this.server == server && window == server.window
    {
      this.server, this.window, this.drive, seqNo := server, server.window, drive, 0;
    }

    /** The header of a query. */
    method PutHeader(query: byte, bufflen: nat)
      requires Valid() && bufflen < 0x1_0000
      modifies window.frame
      ensures Valid() && window.frame[..] == Headed(old(window.frame[..]), query, drive, seqNo, bufflen)
    {
      window.frame[0], window.frame[1] := (bufflen % 0x100) as byte, (bufflen / 0x100) as byte;
      window.frame[2] := seqNo;
      window.frame[3] := drive;
      window.frame[4] := query;
    }

    /** The request is made, and the answer waited for. */
    method Handshake()
      requires Valid()
      modifies window, window.frame, server`files, server`seen, server`served, server`asked
      ensures Valid() && server.served == old(server.served) + 1 && server.asked == old(window.frame[..])
      ensures (server.files, window.frame[..])
           == Respond(old(server.files), old(window.frame[..]), server.behaviourAt(old(server.served)))
    {
      TokenFresh(window.request);
      window.response := WAITING;
      var n := Token(window.request);
      window.request := n;
      assert window.response != n;
      server.Serve();
      assert window.response == n;
    }

    /** sendquery: the query is served exactly once, and what comes back is its answer. */
    method SendQuery(query: byte, bufflen: nat) returns (recv: seq<byte>)
      requires Valid() && bufflen <= FRAME_SIZE
      modifies this`seqNo, window, window.frame, server`files, server`seen, server`served, server`asked
      ensures Valid() && server.served == old(server.served) + 1
      ensures seqNo as int == (old(seqNo) as int + 1) % 0x100
      ensures var q := Headed(old(window.frame[..]), query, drive, seqNo, bufflen);
              && server.asked == q
              && (server.files, recv) == Respond(old(server.files), q, server.behaviourAt(old(server.served)))
      ensures window.frame[..] == recv
    {
      seqNo := if seqNo == 255 then 0 else seqNo + 1;
      PutHeader(query, bufflen);
      Handshake();
      recv := window.frame[..];
    }

    /** The query arguments: offset, file id and length, little-endian. */
    method PutArguments(pos: nat, id: nat, n: nat)
      requires Valid() && pos < 0x1_0000_0000 && id < 0x1_0000 && n < 0x1_0000
      modifies window.frame
      ensures Valid()
      ensures var q := window.frame;
        && q[8] as nat + 0x100 * q[9] as nat + 0x1_0000 * q[10] as nat + 0x100_0000 * q[11] as nat == pos
        && q[12] as nat + 0x100 * q[13] as nat == id && q[14] as nat + 0x100 * q[15] as nat == n
    {
      var le := Le32(pos);
      Le32RoundTrip(pos);
      window.frame[8], window.frame[9], window.frame[10], window.frame[11] := le[0], le[1], le[2], le[3];
      window.frame[12], window.frame[13] := (id % 0x100) as byte, (id / 0x100) as byte;
      window.frame[14], window.frame[15] := (n % 0x100) as byte, (n / 0x100) as byte;
    }

    /** The query to read: eight bytes of arguments. */
    method AskToRead(pos: nat, id: nat, n: nat) returns (recv: seq<byte>)
      requires Valid() && pos < 0x1_0000_0000 && id < 0x1_0000 && n <= CHUNK
      modifies this`seqNo, window, window.frame, server`files, server`seen, server`served, server`asked
      ensures Valid() && server.served == old(server.served) + 1
      ensures Asks(server.asked, 8, drive, 0x08, pos, id, n)
      ensures (server.files, recv) == Respond(old(server.files), server.asked, server.behaviourAt(old(server.served)))
    {
      PutArguments(pos, id, n);
      ghost var f := window.frame[..];
      recv := SendQuery(AL_READFIL, 8);
      HeaderKept(f, server.asked, 0);
    }

    /** One chunk read: what the server answers to an offset, a file and a length. */
    method ReadChunk(pos: nat, id: nat, n: nat) returns (length: nat, ax: nat, data: seq<byte>)
      requires Valid() && pos < 0x1_0000_0000 && id < 0x1_0000 && n <= CHUNK
      modifies this`seqNo, window, window.frame, server`files, server`seen, server`served, server`asked
      ensures Valid() && server.served == old(server.served) + 1 && server.files == old(server.files)
      ensures length < 0x1_0000 && ax < 0x1_0000 && |data| == Min(length, CHUNK)
      ensures length != NETWORK_ERROR && ax == 0 ==>
        id in server.files && length <= n && Slice(server.files[id], pos, length) == data
      ensures var b := server.behaviourAt(old(server.served));
              && (length == NETWORK_ERROR <==> b.NetworkDown?)
              && (length == NETWORK_ERROR || ax != 0 ==> ErrorOf(b) == if length == NETWORK_ERROR then 2 else ax)
              && (id in server.files && b.Serves? && b.limit >= CHUNK ==>
                    ax == 0 && data == Slice(server.files[id], pos, n) && length == |data|)
    {
      var recv := AskToRead(pos, id, n);
      AsksMeans(server.asked, 8, drive, AL_READFIL, pos, id, n);
      AnswerToRead(old(server.files), server.asked, server.behaviourAt(old(server.served)), pos, id, n);
      length, ax := WordAt(recv, 0), WordAt(recv, 4);
      data := recv[HEADER..HEADER + Min(length, CHUNK)];
    }

    /** One chunk, read and copied behind those before it. */
    method ReadInto(pos: nat, id: nat, tot: nat, chunklen: nat, dta: array<byte>,
                    ghost cx: nat, ghost d0: seq<byte>, ghost file: seq<byte>)
      returns (length: nat, ax: nat, carry: bool)
      requires Valid() && id < 0x1_0000 && dta != window.frame
      requires chunklen <= CHUNK && tot + chunklen <= cx <= dta.Length && pos + cx <= 0x1_0000_0000
      requires 0 < chunklen && file == (if id in server.files then server.files[id] else [])
      requires ReadSoFar(d0, dta[..], file, pos, tot)
      modifies this`seqNo, window, window.frame, server`files, server`seen, server`served, server`asked, dta
      ensures Valid() && server.files == old(server.files)
      ensures server.served == old(server.served) + 1
      ensures ax == if carry then ErrorOf(server.behaviourAt(old(server.served))) else 0
      ensures !carry ==> id in server.files && length <= chunklen && ReadSoFar(d0, dta[..], file, pos, tot + length)
      ensures server.Reliable() && id in server.files ==>
        !carry && (length < chunklen ==> Slice(file, pos, tot + length) == Slice(file, pos, cx))
    {
      var data;
      length, ax, data := ReadChunk(pos + tot, id, chunklen);
      if length == NETWORK_ERROR { return length, 2, true; }
      if ax != 0 { return length, ax, true; }
      CopyBytes(dta, tot, data);
      ChunkRead(d0, file, pos, tot, length, chunklen, cx);
      carry := false;
    }

    /** The chunk loop of a read: the bytes moved lie at the start of the buffer, and are all there are
        when the server answers in full. */
    method ReadChunks(pos: nat, id: nat, cx: nat, dta: array<byte>, ghost file: seq<byte>)
      returns (tot: nat, ax: nat, carry: bool)
      requires Valid() && id < 0x1_0000 && 0 < cx < 0x1_0000 && cx <= dta.Length && dta != window.frame
      requires pos + cx <= 0x1_0000_0000 && file == (if id in server.files then server.files[id] else [])
      modifies this`seqNo, window, window.frame, server`files, server`seen, server`served, server`asked, dta
      ensures Valid() && server.files == old(server.files) && (!carry ==> tot <= cx)
      ensures server.served > old(server.served)
      ensures ax == if carry then ErrorOf(server.behaviourAt(server.served - 1)) else 0
      ensures !carry ==> id in server.files && ReadSoFar(old(dta[..]), dta[..], file, pos, tot)
      ensures server.Reliable() && id in server.files ==> !carry && Slice(file, pos, tot) == Slice(file, pos, cx)
    {
      ghost var files, d0 := server.files, dta[..];
      tot := 0;
      assert Splice(d0, 0, Slice(file, pos, 0)) == d0;
      while true
        invariant Valid() && server.files == files && tot < cx && ReadSoFar(d0, dta[..], file, pos, tot)
        invariant server.served >= old(server.served)
        decreases cx - tot
      {
        var chunklen := if cx - tot < CHUNK then cx - tot else CHUNK;
        var length;
        length, ax, carry := ReadInto(pos, id, tot, chunklen, dta, cx, d0, file);
        if carry { return; }
        tot := tot + length;
        if length < chunklen || tot == cx { return; }
      }
    }

    /** AL_READFIL. A successful read has put the bytes of the file from the old position on at the
        start of the buffer, and position and CX say how many; a failed one moves neither. With a
        server that answers in full the chunks together are one slice of the file. */
    method ReadFil(sft: Sft, cx: nat, dta: array<byte>) returns (cxOut: nat, ax: nat, carry: bool)
      requires Valid() && sft.Valid() && cx < 0x1_0000 && cx <= dta.Length && dta != window.frame
      requires sft.filePos + cx <= 0x1_0000_0000
      modifies this`seqNo, window, window.frame, server`files, server`seen, server`served, server`asked
      modifies sft`filePos, dta
      ensures Valid() && server.files == old(server.files)
      ensures sft.openMode % 2 == 1 ==> carry && ax == 5 && dta[..] == old(dta[..])
      ensures sft.openMode % 2 == 0 ==>
        ax == if carry && server.served > 0 then ErrorOf(server.behaviourAt(server.served - 1)) else 0
      ensures sft.openMode % 2 == 0 && carry ==> server.served > old(server.served)
      ensures carry ==> cxOut == cx && sft.filePos == old(sft.filePos)
      ensures !carry ==> cxOut <= cx && sft.filePos == old(sft.filePos) + cxOut
      ensures !carry && cx > 0 ==>
        sft.startSector in server.files
        && var bytes := Slice(server.files[sft.startSector], old(sft.filePos), cxOut);
           |bytes| == cxOut && dta[..] == Splice(old(dta[..]), 0, bytes)
      ensures sft.openMode % 2 == 0 && server.Reliable() && sft.startSector in server.files ==>
        var bytes := Slice(server.files[sft.startSector], old(sft.filePos), cx);
        !carry && cxOut == |bytes| && dta[..] == Splice(old(dta[..]), 0, bytes)
    {
      if sft.openMode % 2 == 1 { return cx, 5, true; }
      if cx == 0 { return 0, 0, false; }
      ghost var file := if sft.startSector in server.files then server.files[sft.startSector] else [];
      var tot;
      tot, ax, carry := ReadChunks(sft.filePos, sft.startSector, cx, dta, file);
      if carry { return cx, ax, true; }
      sft.filePos := sft.filePos + tot;
      cxOut := tot;
    }

    /** The query to write: eight bytes of arguments and the data. */
    method AskToWrite(pos: nat, id: nat, data: seq<byte>) returns (recv: seq<byte>)
      requires Valid() && pos < 0x1_0000_0000 && id < 0x1_0000 && |data| <= CHUNK
      modifies this`seqNo, window, window.frame, server`files, server`seen, server`served, server`asked
      ensures Valid() && server.served == old(server.served) + 1
      ensures Asks(server.asked, |data| + 8, drive, 0x09, pos, id, |data|)
      ensures server.asked[16..16 + |data|] == data
      ensures (server.files, recv) == Respond(old(server.files), server.asked, server.behaviourAt(old(server.served)))
    {
      PutArguments(pos, id, |data|);
      ghost var f := window.frame[..];
      CopyBytes(window.frame, HEADER + 8, data);
      ghost var g := window.frame[..];
      SpliceParts(f, HEADER + 8, data);
      assert g[HEADER + 8..HEADER + 8 + |data|] == data;
      recv := SendQuery(AL_WRITEFIL, |data| + 8);
      HeaderKept(g, server.asked, |data|);
    }

    /** One chunk written: what the server makes of an offset, a file and some bytes. */
    method WriteChunk(pos: nat, id: nat, data: seq<byte>) returns (count: nat, ax: nat, carry: bool)
      requires Valid() && pos < 0x1_0000_0000 && id < 0x1_0000 && |data| <= CHUNK
      modifies this`seqNo, window, window.frame, server`files, server`seen, server`served, server`asked
      ensures Valid() && server.served == old(server.served) + 1
      ensures ax == if carry then ErrorOf(server.behaviourAt(old(server.served))) else 0
      ensures carry ==> count == 0 && server.files == old(server.files)
      ensures !carry ==>
        id in old(server.files) && count <= |data|
        && server.files == Written(old(server.files), id, pos, data[..count])
      ensures server.Reliable() && id in old(server.files) ==> !carry && count == |data|
    {
      var recv := AskToWrite(pos, id, data);
      AsksMeans(server.asked, |data| + 8, drive, AL_WRITEFIL, pos, id, |data|);
      DataMeans(server.asked, data);
      AnswerToWrite(old(server.files), server.asked, server.behaviourAt(old(server.served)), pos, id, data);
      var length;
      length, ax, count := WordAt(recv, 0), WordAt(recv, 4), WordAt(recv, HEADER);
      if length == NETWORK_ERROR { return 0, 2, true; }
      if ax != 0 || length != 2 { return 0, ax, true; }
      carry := false;
    }

    /** The position moves on; the file is as long as it has been written. */
    method Advance(sft: Sft, count: nat)
      requires sft.Valid() && sft.filePos + count < 0x1_0000_0000
      modifies sft`filePos, sft`fileSize
      ensures sft.Valid() && sft.filePos == old(sft.filePos) + count
      ensures sft.fileSize == if sft.filePos > old(sft.fileSize) then sft.filePos else old(sft.fileSize)
    {
      sft.filePos := sft.filePos + count;
      if sft.filePos > sft.fileSize {
        sft.fileSize := sft.filePos;
      }
    }

    /** One round of the write loop, up to the test whether the server has stopped short. */
    method WriteFrom(sft: Sft, data: seq<byte>, ghost d: seq<byte>, ghost written: nat, ghost files: Files,
                     ghost pos: nat)
      returns (count: nat, ax: nat, carry: bool)
      requires Valid() && sft.Valid() && |data| <= CHUNK && written + |data| <= |d|
      requires data == d[written..written + |data|]
      requires sft.filePos == pos + written && pos + written + |data| < 0x1_0000_0000
      requires Gone(server.files, files, sft.startSector, pos, d, written)
      modifies this`seqNo, window, window.frame, server`files, server`seen, server`served, server`asked
      modifies sft`filePos, sft`fileSize
      ensures Valid() && (carry ==> count == 0) && count <= |data| && server.served == old(server.served) + 1
      ensures ax == if carry then ErrorOf(server.behaviourAt(old(server.served))) else 0
      ensures Gone(server.files, files, sft.startSector, pos, d, written + count)
      ensures !carry ==> sft.startSector in files
      ensures sft.Valid() && sft.filePos == pos + written + count
      ensures sft.fileSize == if !carry && sft.filePos > old(sft.fileSize) then sft.filePos else old(sft.fileSize)
      ensures server.Reliable() && sft.startSector in files ==> !carry && count == |data|
    {
      count, ax, carry := WriteChunk(sft.filePos, sft.startSector, data);
      if !carry {
        ChunkGone(files, sft.startSector, pos, d, written, data, count);
        Advance(sft, count);
      }
    }

    /** The chunk loop of a write. `written` bytes of the buffer have gone to the file at the old
        position; together with what is left they are what was asked for. */
    method WriteChunks(sft: Sft, cx: nat, dta: array<byte>)
      returns (written: nat, bytesleft: nat, cxOut: nat, ax: nat, carry: bool)
      requires Valid() && sft.Valid() && cx < 0x1_0000 && cx <= dta.Length && dta != window.frame
      requires sft.filePos + cx < 0x1_0000_0000
      modifies this`seqNo, window, window.frame, server`files, server`seen, server`served, server`asked
      modifies sft`filePos, sft`fileSize
      ensures Valid() && written + bytesleft == cx && sft.filePos == old(sft.filePos) + written
      ensures written > 0 ==> sft.startSector in old(server.files)
      ensures server.files == Written(old(server.files), sft.startSector, old(sft.filePos), dta[..written])
      ensures cxOut == if carry && written == 0 then cx else written
      ensures sft.fileSize == if cx == 0 || (carry && written == 0) then old(sft.fileSize)
                              else if sft.filePos > old(sft.fileSize) then sft.filePos else old(sft.fileSize)
      ensures carry ==> bytesleft > 0 && server.served > old(server.served)
      ensures ax == if carry && server.served > 0 then ErrorOf(server.behaviourAt(server.served - 1)) else 0
      ensures server.Reliable() && sft.startSector in old(server.files) ==>
        !carry && written == cx && server.served == old(server.served) + (cx + 1023) / 1024
    {
      written, bytesleft, cxOut, ax, carry := 0, cx, cx, 0, false;
      ghost var files, pos, id, size, d := server.files, sft.filePos, sft.startSector, sft.fileSize, dta[..];
      while bytesleft > 0
        invariant Valid() && sft.Valid() && written + bytesleft == cx && sft.filePos == pos + written
        invariant dta[..] == d && Gone(server.files, files, id, pos, d, written)
        invariant ax == 0 && server.served >= old(server.served)
        invariant server.Reliable() && id in files ==>
          server.served == old(server.served) + (written + 1023) / 1024 && (bytesleft > 0 ==> written % 1024 == 0)
        invariant !carry && cxOut == (if written == 0 then cx else written) && (written > 0 ==> id in files)
        invariant written > 0 ==> sft.fileSize == if sft.filePos > size then sft.filePos else size
        invariant written == 0 ==> sft.fileSize == size
        decreases bytesleft
      {
        var chunklen := if bytesleft > CHUNK then CHUNK else bytesleft;
        var count;
        count, ax, carry := WriteFrom(sft, dta[..][written..written + chunklen], d, written, files, pos);
        if carry { return; }
        if written % 1024 == 0 && count > 0 { ChunkCounted(written, count); }
        written := written + count;
        bytesleft := bytesleft - count;
        cxOut := written;
        if count != chunklen { return; }
      }
    }

    /** AL_WRITEFIL. A file not open for writing is refused; otherwise the chunks written are one
        overwrite of the file at the old position, and position, size and CX match the bytes that
        have really gone out, also when the server stops short or fails half-way. */
    method WriteFil(sft: Sft, cx: nat, dta: array<byte>) returns (cxOut: nat, ax: nat, carry: bool)
      requires Valid() && sft.Valid() && cx < 0x1_0000 && cx <= dta.Length && dta != window.frame
      requires sft.filePos + cx < 0x1_0000_0000
      modifies this`seqNo, window, window.frame, server`files, server`seen, server`served, server`asked
      modifies sft`filePos, sft`fileSize
      ensures Valid() && old(sft.filePos) <= sft.filePos <= old(sft.filePos) + cx
      ensures var written := sft.filePos - old(sft.filePos);
              && server.files == Written(old(server.files), sft.startSector, old(sft.filePos), dta[..written])
              && (sft.openMode % 4 == 0 ==> written == 0 && carry && ax == 5 && cxOut == cx)
              && (sft.openMode % 4 != 0 ==>
                    && ax == (if carry && server.served > 0 then ErrorOf(server.behaviourAt(server.served - 1)) else 0)
                    && (carry ==> server.served > old(server.served)))
              && sft.fileSize == (if cx == 0 || (carry && written == 0) then old(sft.fileSize)
                                  else if sft.filePos > old(sft.fileSize) then sft.filePos else old(sft.fileSize))
              && (cxOut == if carry && written == 0 then cx else written)
              && (sft.openMode % 4 != 0 && server.Reliable() && sft.startSector in old(server.files) ==>
                    !carry && written == cx && server.served == old(server.served) + (cx + 1023) / 1024)
    {
      if sft.openMode % 4 == 0 {
        assert dta[..0] == [];
        return cx, 5, true;
      }
      var written, bytesleft;
      written, bytesleft, cxOut, ax, carry := WriteChunks(sft, cx, dta);
    }

    /** The same bytes come back from the same place. */
    method WriteThenReadBack(sft: Sft, n: nat, source: array<byte>, target: array<byte>)
      requires Valid() && sft.Valid() && sft.openMode % 4 == 2 && n < 0x1_0000
      requires n <= source.Length && n <= target.Length && source != window.frame && target != window.frame
      requires source != target && sft.filePos + n < 0x1_0000_0000
      requires server.Reliable() && sft.startSector in server.files
      modifies this`seqNo, window, window.frame, server`files, server`seen, server`served, server`asked
      modifies sft`filePos, sft`fileSize, target
      ensures target[..n] == old(source[..n]) && sft.filePos == old(sft.filePos) + n
    {
      var pos := sft.filePos;
      var written, ax, carry := WriteFil(sft, n, source);
      ghost var bytes := source[..n];
      WriteThenRead(old(server.files)[sft.startSector], pos, bytes);
      assert Slice(server.files[sft.startSector], pos, n) == bytes;
      sft.filePos := pos;
      var count;
      ghost var before := target[..];
      count, ax, carry := ReadFil(sft, n, target);
      SpliceParts(before, 0, bytes);
    }
  }

  /** The files after bs has been written to one of them. */
  function Written(files: Files, id: nat, pos: nat, bs: seq<byte>): Files {
    if id in files then files[id := Overwrite(files[id], pos, bs)] else files
  }

  lemma ChunkWritten(files: Files, id: nat, pos: nat, d: seq<byte>, written: nat, count: nat)
    requires id in files && written + count <= |d|
    ensures Written(Written(files, id, pos, d[..written]), id, pos + written, d[written..written + count])
         == Written(files, id, pos, d[..written + count])
  {
    OverwriteAppend(files[id], pos, d[..written], d[written..written + count]);
    assert d[..written] + d[written..written + count] == d[..written + count];
  }

  /** The first bytes of d have been written to a file from pos on. */
  ghost predicate Gone(now: Files, files: Files, id: nat, pos: nat, d: seq<byte>, written: nat) {
    written <= |d| && now == Written(files, id, pos, d[..written])
  }

  lemma ChunkCounted(written: nat, count: nat)
    requires written % 1024 == 0 && 0 < count <= 1024
    ensures (written + count + 1023) / 1024 == (written + 1023) / 1024 + 1
    ensures count == 1024 ==> (written + count) % 1024 == 0
  {
  }

  lemma ChunkGone(files: Files, id: nat, pos: nat, d: seq<byte>, written: nat, data: seq<byte>, count: nat)
    requires id in files && written + |data| <= |d| && data == d[written..written + |data|] && count <= |data|
    ensures Written(Written(files, id, pos, d[..written]), id, pos + written, data[..count])
         == Written(files, id, pos, d[..written + count])
  {
    assert data[..count] == d[written..written + count];
    ChunkWritten(files, id, pos, d, written, count);
  }

  /** The server reads the arguments as they are laid out. */
  lemma AsksMeans(q: seq<byte>, length: nat, drive: byte, query: byte, pos: nat, id: nat, n: nat)
    requires Asks(q, length, drive, query, pos, id, n)
    ensures PosOf(q) == pos && WordAt(q, 12) == id && WordAt(q, 14) == n
  {
    assert q[HEADER..HEADER + 4] == [q[8], q[9], q[10], q[11]];
  }

  lemma DataMeans(q: seq<byte>, data: seq<byte>)
    requires |q| == FRAME_SIZE && |data| <= CHUNK && q[HEADER + 8..HEADER + 8 + |data|] == data
    ensures forall k :: 0 <= k <= |data| ==> q[HEADER + 8..HEADER + 8 + k] == data[..k]
  {
    forall k | 0 <= k <= |data| ensures q[HEADER + 8..HEADER + 8 + k] == data[..k] {
      assert data[..k] == q[HEADER + 8..HEADER + 8 + |data|][..k];
    }
  }

  /** What the server makes of a query to write. */
  lemma AnswerToWrite(files: Files, q: seq<byte>, b: Behaviour, pos: nat, id: nat, data: seq<byte>)
    requires |q| == FRAME_SIZE && q[4] == AL_WRITEFIL && |data| <= CHUNK
    requires PosOf(q) == pos && WordAt(q, 12) == id && WordAt(q, 14) == |data|
    requires forall k :: 0 <= k <= |data| ==> q[HEADER + 8..HEADER + 8 + k] == data[..k]
    ensures var (after, r) := Respond(files, q, b);
            var length, ax, count := WordAt(r, 0), WordAt(r, 4), WordAt(r, HEADER);
            && (length != NETWORK_ERROR && ax == 0 && length == 2 ==>
                  id in files && count <= |data| && after == Written(files, id, pos, data[..count]))
            && (length == NETWORK_ERROR || ax != 0 || length != 2 ==> after == files)
            && (length == NETWORK_ERROR <==> b.NetworkDown?)
            && (length == NETWORK_ERROR || ax != 0 || length != 2 ==>
                  ErrorOf(b) == if length == NETWORK_ERROR then 2 else ax)
            && (id in files && b.Serves? && b.limit >= CHUNK ==> ax == 0 && length == 2 && count == |data|)
  {
    var r := Respond(files, q, b).1;
    if b.Serves? && id in files {
      var written := Min(|data|, b.limit);
      assert r[HEADER..HEADER + 2] == Word(written);
      assert r[HEADER] == Word(written)[0] && r[HEADER + 1] == Word(written)[1];
    }
  }

  /** What the server makes of a query to read. */
  lemma AnswerToRead(files: Files, q: seq<byte>, b: Behaviour, pos: nat, id: nat, n: nat)
    requires |q| == FRAME_SIZE && q[4] == AL_READFIL && n <= CHUNK
    requires PosOf(q) == pos && WordAt(q, 12) == id && WordAt(q, 14) == n
    ensures var (after, r) := Respond(files, q, b);
            var length, ax := WordAt(r, 0), WordAt(r, 4);
            var data := r[HEADER..HEADER + Min(length, CHUNK)];
            && after == files
            && (length == NETWORK_ERROR <==> b.NetworkDown?)
            && (length == NETWORK_ERROR || ax != 0 ==> ErrorOf(b) == if length == NETWORK_ERROR then 2 else ax)
            && (length != NETWORK_ERROR && ax == 0 ==>
                  id in files && length <= n && Slice(files[id], pos, length) == data)
            && (id in files && b.Serves? && b.limit >= CHUNK ==>
                  ax == 0 && data == Slice(files[id], pos, n) && length == |data|)
  {
    if b.Serves? && id in files {
      var data := Slice(files[id], pos, Min(n, b.limit));
      assert Slice(files[id], pos, |data|) == data;
    }
  }

  /** The header does not touch the arguments and the data behind it. */
  lemma HeaderKept(g: seq<byte>, q: seq<byte>, n: nat)
    requires |g| == |q| == FRAME_SIZE && q[HEADER..] == g[HEADER..] && n <= CHUNK
    ensures forall i :: HEADER <= i < FRAME_SIZE ==> q[i] == g[i]
    ensures q[HEADER + 8..HEADER + 8 + n] == g[HEADER + 8..HEADER + 8 + n]
  {
    assert forall i :: HEADER <= i < FRAME_SIZE ==> q[i] == q[HEADER..][i - HEADER] == g[HEADER..][i - HEADER] == g[i];
  }

  /** The first `tot` bytes of the buffer are those of the file from pos on. */
  ghost predicate ReadSoFar(d0: seq<byte>, d: seq<byte>, file: seq<byte>, pos: nat, tot: nat) {
    tot <= |d0| && |Slice(file, pos, tot)| == tot && d == Splice(d0, 0, Slice(file, pos, tot))
  }

  /** A chunk continues the slice; a short one that the file's end explains ends it. */
  lemma ChunkRead(d0: seq<byte>, file: seq<byte>, pos: nat, tot: nat, length: nat, chunk: nat, cx: nat)
    requires |Slice(file, pos, tot)| == tot && |Slice(file, pos + tot, length)| == length
    requires length <= chunk && tot + chunk <= cx <= |d0|
    ensures ReadSoFar(d0, Splice(Splice(d0, 0, Slice(file, pos, tot)), tot, Slice(file, pos + tot, length)),
                      file, pos, tot + length)
    ensures length < chunk && Slice(file, pos + tot, length) == Slice(file, pos + tot, chunk) ==>
      Slice(file, pos, tot + length) == Slice(file, pos, cx)
  {
    SliceJoins(file, pos, tot, length);
    SpliceAppend(d0, 0, Slice(file, pos, tot), Slice(file, pos + tot, length));
    if length < chunk && Slice(file, pos + tot, length) == Slice(file, pos + tot, chunk) {
      SliceEnds(file, pos, tot, length, chunk, cx);
    }
  }

  lemma SliceJoins(file: seq<byte>, pos: nat, tot: nat, length: nat)
    requires |Slice(file, pos, tot)| == tot
    ensures Slice(file, pos, tot) + Slice(file, pos + tot, length) == Slice(file, pos, tot + length)
  {
    if tot > 0 {
      SliceAppend(file, pos, tot, length);
    } else {
      assert Slice(file, pos, 0) == [];
    }
  }

  lemma SliceEnds(file: seq<byte>, pos: nat, tot: nat, length: nat, chunk: nat, cx: nat)
    requires |Slice(file, pos, tot)| == tot && length < chunk && tot + chunk <= cx
    requires |Slice(file, pos + tot, length)| == length
    requires Slice(file, pos + tot, length) == Slice(file, pos + tot, chunk)
    ensures Slice(file, pos, tot + length) == Slice(file, pos, cx)
  {
    assert |file| <= pos + tot + length;
  }
}
