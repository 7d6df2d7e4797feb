/** Authenticated encryption of a stream in chunks of 64 KiB, each under its own counter nonce. */
module ChunkedCrypt {
  import opened Bytes
  import opened Faults
  import opened Pieces

  const CHUNK := 64 * 1024
  const NONCE := 12
  const OVERHEAD := 16
  const SALT := 16
  const UINT64 := 0x1_0000_0000_0000_0000
  const HEADER: seq<byte> := [65, 69, 65, 68, 118, 49]

  /** A key turns a nonce and a plaintext into a sealed text, and back if the nonce and text belong together. */
  datatype Aead = Aead(seal: (seq<byte>, seq<byte>) -> seq<byte>, open: (seq<byte>, seq<byte>) -> Option<seq<byte>>)

  ghost predicate Correct(a: Aead) {
    forall nonce: seq<byte>, x: seq<byte> :: |nonce| == NONCE ==>
      |a.seal(nonce, x)| == |x| + OVERHEAD && a.open(nonce, a.seal(nonce, x)) == Some(x)
  }

  /** The password, as the function from salts to keys that it induces. */
  type Password = seq<byte> -> Aead

  ghost predicate CorrectPassword(p: Password) {
    forall salt :: Correct(p(salt))
  }

  /** The assumption can be met: a seal that only appends a tag does. */
  lemma CorrectAeadExists() returns (a: Aead)
    ensures Correct(a)
  {
    a := Aead((nonce, x) => x + Zeros(OVERHEAD),
              (nonce, t) => if |t| < OVERHEAD then None else Some(t[..|t| - OVERHEAD]));
    assert forall x: seq<byte> :: (x + Zeros(OVERHEAD))[..|x|] == x;
  }

  // ---- nonces ----

  /** The k low-order bytes of n, most significant first. */
  function BigEndian(n: nat, k: nat): (s: seq<byte>)
    ensures |s| == k
  {
    if k == 0 then [] else BigEndian(n / 256, k - 1) + [(n % 256) as byte]
  }

  function Nonce(n: nat): (s: seq<byte>)
    ensures |s| == NONCE
  {
    Zeros(4) + BigEndian(n, 8)
  }

  function Pow256(k: nat): nat {
    if k == 0 then 1 else 256 * Pow256(k - 1)
  }

  lemma {:induction false} BigEndianInjective(m: nat, n: nat, k: nat)
    requires BigEndian(m, k) == BigEndian(n, k) && m < Pow256(k) && n < Pow256(k)
    ensures m == n
  {
    if k > 0 {
      var s, t := BigEndian(m, k), BigEndian(n, k);
      assert s[..k - 1] == BigEndian(m / 256, k - 1) && t[..k - 1] == BigEndian(n / 256, k - 1);
      assert s[k - 1] == t[k - 1];
      BigEndianInjective(m / 256, n / 256, k - 1);
    }
  }

  /** The number that bytes stand for, most significant first. */
  function Number(s: seq<byte>): nat {
    if s == [] then 0 else 256 * Number(s[..|s| - 1]) + s[|s| - 1] as nat
  }

  lemma {:induction false} BigEndianIsNumber(n: nat, k: nat)
    requires n < Pow256(k)
    ensures Number(BigEndian(n, k)) == n
  {
    if k > 0 {
      var s := BigEndian(n, k);
      assert s[..|s| - 1] == BigEndian(n / 256, k - 1);
      BigEndianIsNumber(n / 256, k - 1);
    }
  }

  /** The nonce is the counter itself, as eight bytes after four zero bytes. */
  lemma NonceIsCounter(n: nat)
    requires n < UINT64
    ensures Nonce(n)[..4] == [0, 0, 0, 0] && Number(Nonce(n)[4..]) == n
  {
    assert Pow256(8) == UINT64 by { assert Pow256(4) == 0x1_0000_0000; }
    assert Nonce(n)[4..] == BigEndian(n, 8);
    BigEndianIsNumber(n, 8);
  }

  /** Counters that fit in 64 bits have distinct nonces. */
  lemma NoncesDistinct(m: nat, n: nat)
    requires m < UINT64 && n < UINT64 && m != n
    ensures Nonce(m) != Nonce(n)
  {
    assert Pow256(8) == UINT64 by { assert Pow256(4) == 0x1_0000_0000; }
    if Nonce(m) == Nonce(n) {
      assert BigEndian(m, 8) == Nonce(m)[4..] && BigEndian(n, 8) == Nonce(n)[4..];
      BigEndianInjective(m, n, 8);
    }
  }

  // ---- the stream format ----

  /** Chunk number n; the counter is a 64-bit word. */
  function Frame(a: Aead, n: nat, chunk: seq<byte>): seq<byte> {
    var nonce := Nonce(n % UINT64);
    nonce + a.seal(nonce, chunk)
  }

  function Frames(a: Aead, n: nat, data: seq<byte>): seq<byte>
    decreases |data|
  {
    if |data| == 0 then []
    else if |data| <= CHUNK then Frame(a, n, data)
    else Frame(a, n, data[..CHUNK]) + Frames(a, n + 1, data[CHUNK..])
  }

  function Encrypted(p: Password, salt: seq<byte>, data: seq<byte>): seq<byte> {
    HEADER + salt + Frames(p(salt), 0, data)
  }

  /** Reading frames until the input ends; each but the last takes up the room of a full chunk. */
  function Opened(a: Aead, input: seq<byte>): Option<seq<byte>>
    decreases |input|
  {
    if |input| == 0 then Some([])
    else if |input| < NONCE then None
    else
      var n := FrameLength(input);
      var first := a.open(input[..NONCE], input[NONCE..n]);
      var rest := Opened(a, input[n..]);
      if first.None? || rest.None? then None else Some(first.value + rest.value)
  }

  function FrameLength(input: seq<byte>): (n: nat)
    requires |input| >= NONCE
    ensures NONCE <= n <= |input|
  {
    if |input| < NONCE + CHUNK + OVERHEAD then |input| else NONCE + CHUNK + OVERHEAD
  }

  function Decrypted(p: Password, stream: seq<byte>): Option<seq<byte>> {
    if |stream| < |HEADER| + SALT || stream[..|HEADER|] != HEADER then None
    else Opened(p(stream[|HEADER|..|HEADER| + SALT]), stream[|HEADER| + SALT..])
  }

  lemma {:induction false} FramesOpen(a: Aead, n: nat, data: seq<byte>)
    requires Correct(a)
    ensures Opened(a, Frames(a, n, data)) == Some(data)
    decreases |data|
  {
    if 0 < |data| <= CHUNK {
      OneFrameOpens(a, n, data, []);
      assert Frame(a, n, data) + [] == Frame(a, n, data) && data + [] == data;
    } else if |data| > CHUNK {
      FramesOpen(a, n + 1, data[CHUNK..]);
      OneFrameOpens(a, n, data[..CHUNK], Frames(a, n + 1, data[CHUNK..]));
      assert data == data[..CHUNK] + data[CHUNK..];
    }
  }

  lemma OneFrameOpens(a: Aead, n: nat, chunk: seq<byte>, rest: seq<byte>)
    requires Correct(a) && 0 < |chunk| <= CHUNK && (|chunk| == CHUNK || rest == []) && Opened(a, rest).Some?
    ensures Opened(a, Frame(a, n, chunk) + rest) == Some(chunk + Opened(a, rest).value)
  {
    var nonce := Nonce(n % UINT64);
    var f := Frame(a, n, chunk);
    var input := f + rest;
    assert |f| == NONCE + |chunk| + OVERHEAD;
    assert FrameLength(input) == |f|;
    assert input[..NONCE] == nonce && input[NONCE..|f|] == a.seal(nonce, chunk) && input[|f|..] == rest;
  }

  /** Decrypting what was encrypted gives the plaintext back, whatever its length. */
  lemma RoundTrip(p: Password, salt: seq<byte>, data: seq<byte>)
    requires CorrectPassword(p) && |salt| == SALT
    ensures Decrypted(p, Encrypted(p, salt, data)) == Some(data)
  {
    var s := Encrypted(p, salt, data);
    assert s[..|HEADER|] == HEADER && s[|HEADER|..|HEADER| + SALT] == salt;
    assert s[|HEADER| + SALT..] == Frames(p(salt), 0, data);
    FramesOpen(p(salt), 0, data);
  }

  // ---- the shape of the stream ----

  function Framed(a: Aead, n: nat, chunks: seq<seq<byte>>): seq<byte>
    decreases |chunks|
  {
    if chunks == [] then [] else Frame(a, n, chunks[0]) + Framed(a, n + 1, chunks[1..])
  }

  /** The stream is one frame per chunk, numbered consecutively; the chunks make up the data, and all but
    * the last one are full. */
  lemma {:induction false} FramesAreChunks(a: Aead, n: nat, data: seq<byte>)
    ensures Frames(a, n, data) == Framed(a, n, Split(data, CHUNK))
    ensures Flatten(Split(data, CHUNK)) == data
    ensures forall i :: 0 <= i < |Split(data, CHUNK)| - 1 ==> |Split(data, CHUNK)[i]| == CHUNK
    decreases |data|
  {
    SplitPieces(data, CHUNK);
    var cs := Split(data, CHUNK);
    if 0 < |data| <= CHUNK {
      assert cs[1..] == [] && Framed(a, n, cs) == Frame(a, n, data) + [];
    } else if |data| > CHUNK {
      FramesAreChunks(a, n + 1, data[CHUNK..]);
      assert cs[1..] == Split(data[CHUNK..], CHUNK);
    }
  }

  lemma Associative(x: seq<byte>, y: seq<byte>, z: seq<byte>)
    ensures x + (y + z) == x + y + z
  {
  }

  lemma FramesStep(a: Aead, n: nat, first: seq<byte>, rest: seq<byte>)
    requires |first| == CHUNK
    ensures Frames(a, n, first + rest) == Frame(a, n, first) + Frames(a, n + 1, rest)
  {
    if rest == [] {
      assert first + rest == first && Frame(a, n, first) + [] == Frame(a, n, first);
    } else {
      assert (first + rest)[..CHUNK] == first && (first + rest)[CHUNK..] == rest;
    }
  }

  /** Full chunks followed by one more chunk. */
  lemma {:induction false} FramesAppend(a: Aead, n: nat, data: seq<byte>, k: nat, chunk: seq<byte>)
    requires |data| == k * CHUNK && 0 < |chunk| <= CHUNK
    ensures Frames(a, n, data + chunk) == Frames(a, n, data) + Frame(a, n + k, chunk)
    decreases k
  {
    if k == 0 {
      assert data + chunk == chunk;
    } else {
      var first, rest := data[..CHUNK], data[CHUNK..];
      FramesAppend(a, n + 1, rest, k - 1, chunk);
      FramesStep(a, n, first, rest);
      FramesStep(a, n, first, rest + chunk);
      assert data == first + rest;
      Associative(first, rest, chunk);
      Associative(Frame(a, n, first), Frames(a, n + 1, rest), Frame(a, n + k, chunk));
    }
  }

  lemma Regrouped(header: seq<byte>, frames: seq<byte>, nonce: seq<byte>, ciphertext: seq<byte>)
    ensures header + frames + nonce + ciphertext == header + (frames + (nonce + ciphertext))
  {
  }

  lemma CounterStep(n: nat)
    ensures (n % UINT64 + 1) % UINT64 == (n + 1) % UINT64
  {
  }

  // ---- writing ----

  class Writer {
    const reliable: bool
    ghost const header: seq<byte>
    const aead: Aead
    var out: seq<byte>
    var buf: seq<byte>
    var chunkNum: nat
    ghost var sent: seq<byte>
    ghost var chunks: nat

    ghost function Written(): seq<byte>
      reads this
    {
      sent + buf
    }

    /** What has been sent is in frames, all of them full; the buffer is never full between calls. */
    ghost predicate Valid()
      reads this
    {
      Buffering() && |buf| < CHUNK
    }

    ghost predicate Buffering()
      reads this
    {
      && |buf| <= CHUNK && |sent| == chunks * CHUNK
      && chunkNum == chunks % UINT64
      && out == header + Frames(aead, 0, sent)
    }

    constructor (reliable: bool, p: Password, salt: seq<byte>)
      requires |salt| == SALT
      ensures this.reliable == reliable
      ensures Valid() && Written() == [] && header == HEADER + salt && aead == p(salt)
    {
      this.reliable := reliable;
      aead, out, buf, chunkNum := p(salt), HEADER + salt, [], 0;
      header, sent, chunks := HEADER + salt, [], 0;
    }

    /** Sends the buffer as one frame. */
    method Flush() returns (ok: bool)
      requires Buffering() && |buf| > 0
      modifies this
      ensures ok ==> buf == [] && sent == old(sent + buf) && out == header + Frames(aead, 0, sent)
      ensures ok ==> chunks == old(chunks) + 1 && chunkNum == chunks % UINT64
      ensures reliable ==> ok
    {
      ok := Attempt(reliable);
      if !ok { return; }
      var nonce := Nonce(chunkNum);
      var ciphertext := aead.seal(nonce, buf);
      Regrouped(header, Frames(aead, 0, sent), nonce, ciphertext);
      FramesAppend(aead, 0, sent, chunks, buf);
      CounterStep(chunks);
      out := out + nonce + ciphertext;
      sent := sent + buf;
      chunkNum := (chunkNum + 1) % UINT64;
      chunks := chunks + 1;
      buf := [];
    }

    /** Takes as much of the data as fits into the buffer, and sends the buffer when it is full. */
    method Append(piece: seq<byte>) returns (ok: bool)
      requires Valid() && |buf| + |piece| <= CHUNK
      modifies this
      ensures ok ==> Valid() && Written() == old(Written()) + piece
      ensures reliable ==> ok
    {
      Associative(sent, buf, piece);
      buf := buf + piece;
      ok := true;
      if |buf| == CHUNK {
        ok := Flush();
        assert sent + [] == sent;
      }
    }

    method Write(p: seq<byte>) returns (ok: bool, total: nat)
      requires Valid()
      modifies this
      ensures total <= |p| && (ok ==> total == |p|)
      ensures ok ==> Valid() && Written() == old(Written()) + p
      ensures reliable ==> ok
    {
      total := 0;
      assert old(Written()) + p[..0] == old(Written());
      while total < |p|
        invariant total <= |p|
        invariant Valid() && Written() == old(Written()) + p[..total]
      {
        var space := if CHUNK - |buf| > |p| - total then |p| - total else CHUNK - |buf|;
        var piece := p[total..total + space];
        Associative(old(Written()), p[..total], piece);
        assert p[..total + space] == p[..total] + piece;
        ok := Append(piece);
        total := total + space;
        if !ok { return; }
      }
      assert p[..total] == p;
      ok := true;
    }

    /** After Close the output is a function of the plaintext alone. */
    method Close() returns (ok: bool)
      requires Valid()
      modifies this
      ensures ok ==> out == header + Frames(aead, 0, old(Written()))
      ensures reliable ==> ok
    {
      ok := true;
      if |buf| > 0 {
        ok := Flush();
      } else {
        assert sent + buf == sent;
      }
    }
  }

  /** However the plaintext is split into Write calls, the result is the same stream. */
  method Encrypt(reliable: bool, p: Password, salt: seq<byte>, pieces: seq<seq<byte>>)
    returns (ok: bool, stream: seq<byte>)
    requires |salt| == SALT
    ensures reliable ==> ok
    ensures ok ==> stream == Encrypted(p, salt, Flatten(pieces))
  {
    var w := new Writer(reliable, p, salt);
    stream := [];
    for i := 0 to |pieces|
      invariant w.Valid() && w.reliable == reliable && w.aead == p(salt) && w.header == HEADER + salt
      invariant w.Written() + Flatten(pieces[i..]) == Flatten(pieces)
    {
      var n;
      assert pieces[i..][1..] == pieces[i + 1..];
      Associative(w.Written(), pieces[i], Flatten(pieces[i + 1..]));
      ok, n := w.Write(pieces[i]);
      if !ok { return; }
    }
    assert w.Written() + [] == w.Written();
    ok := w.Close();
    stream := w.out;
  }

  // ---- reading ----

  datatype ReadResult = Read(data: seq<byte>) | Eof | Corrupt | Failed

  function After(first: seq<byte>, rest: Option<seq<byte>>): Option<seq<byte>> {
    if rest.None? then None else Some(first + rest.value)
  }

  lemma EmptyPrefix(rest: Option<seq<byte>>)
    ensures After([], rest) == rest
  {
    if rest.Some? { assert [] + rest.value == rest.value; }
  }

  lemma Delivered(buf: seq<byte>, n: nat, rest: Option<seq<byte>>)
    requires n <= |buf|
    ensures After(buf, rest) == After(buf[..n], After(buf[n..], rest))
  {
    if rest.Some? { assert buf[..n] + (buf[n..] + rest.value) == buf + rest.value; }
  }

  lemma AfterBoth(x: seq<byte>, y: seq<byte>, rest: Option<seq<byte>>)
    ensures After(x, After(y, rest)) == After(x + y, rest)
  {
    if rest.Some? { assert x + (y + rest.value) == x + y + rest.value; }
  }

  class Reader {
    const reliable: bool
    const aead: Aead
    var input: seq<byte>
    var buf: seq<byte>

    /** The plaintext still to be delivered, if the rest of the stream is intact. */
    function Remaining(): Option<seq<byte>>
      reads this
    {
      After(buf, Opened(aead, input))
    }

    constructor (reliable: bool, aead: Aead, input: seq<byte>)
      ensures this.reliable == reliable && this.aead == aead && this.input == input && buf == []
    {
      this.reliable, this.aead, this.input, this.buf := reliable, aead, input, [];
    }

    /** Opens the next frame into the empty buffer. */
    method Fill() returns (r: ReadResult)
      requires buf == []
      modifies this
      ensures r.Eof? ==> Remaining() == old(Remaining()) == Some([])
      ensures r.Corrupt? ==> old(Remaining()).None?
      ensures r.Read? ==> |input| < |old(input)| && Remaining() == old(Remaining())
      ensures reliable ==> !r.Failed?
    {
      var ok := Attempt(reliable);
      if !ok { return Failed; }
      if |input| == 0 {
        EmptyPrefix(Some([]));
        return Eof;
      }
      if |input| < NONCE { return Corrupt; }
      var n := FrameLength(input);
      var plaintext := aead.open(input[..NONCE], input[NONCE..n]);
      if plaintext.None? { return Corrupt; }
      input, buf := input[n..], plaintext.value;
      assert Remaining() == old(Remaining()) by { EmptyPrefix(old(Opened(aead, input))); }
      r := Read([]);
    }

    /** Delivers the next bytes of the plaintext, at most as many as asked for. */
    method ReadSome(size: nat) returns (r: ReadResult)
      modifies this
      ensures r.Eof? ==> Remaining() == old(Remaining()) == Some([])
      ensures r.Corrupt? ==> old(Remaining()).None?
      ensures r.Read? ==> |r.data| <= size && old(Remaining()) == After(r.data, Remaining())
      ensures r.Read? ==> |input| < |old(input)| || (input == old(input) && (size > 0 ==> |buf| < |old(buf)|))
      ensures reliable ==> !r.Failed?
    {
      if |buf| == 0 {
        r := Fill();
        if !r.Read? { return; }
      }
      var n := if size < |buf| then size else |buf|;
      r := Read(buf[..n]);
      Delivered(buf, n, Opened(aead, input));
      buf := buf[n..];
    }

    /** Reading with any non-empty buffer sizes delivers exactly the plaintext, then the end; on a damaged
      * stream it ends in an error. */
    method ReadAll(sizes: nat -> nat) returns (r: Result<seq<byte>, ReadResult>)
      requires forall i: nat :: sizes(i) > 0
      modifies this
      ensures r.Ok? ==> old(Remaining()) == Some(r.value)
      ensures r.Err? ==> (!reliable && r.error.Failed?) || (r.error.Corrupt? && old(Remaining()).None?)
    {
      var out, i := [], 0;
      EmptyPrefix(Remaining());
      while true
        invariant old(Remaining()) == After(out, Remaining())
        decreases |input|, |buf|
      {
        var step := ReadSome(sizes(i));
        AfterBoth(out, if step.Read? then step.data else [], Remaining());
        match step {
          case Eof =>
            assert out + [] == out;
            return Ok(out);
          case Corrupt => return Err(Corrupt);
          case Failed => return Err(Failed);
          case Read(data) =>
            out, i := out + data, i + 1;
        }
      }
    }
  }

  /** If no read fails, exactly the plaintext of an intact stream, and an error exactly for a damaged one. */
  method Decrypt(reliable: bool, p: Password, stream: seq<byte>, sizes: nat -> nat)
    returns (r: Result<seq<byte>, ReadResult>)
    requires forall i: nat :: sizes(i) > 0
    ensures (!reliable && r == Err(Failed)) || r == match Decrypted(p, stream)
      case Some(plaintext) => Ok(plaintext)
      case None => Err(Corrupt)
  {
    if |stream| < |HEADER| + SALT || stream[..|HEADER|] != HEADER { return Err(Corrupt); }
    var reader := new Reader(reliable, p(stream[|HEADER|..|HEADER| + SALT]), stream[|HEADER| + SALT..]);
    EmptyPrefix(Opened(reader.aead, reader.input));
    r := reader.ReadAll(sizes);
  }
}
