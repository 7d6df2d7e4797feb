/** The store as a logical map: one entry per logical name, whatever suffixes its stored names carry. */
module Storage {
  import opened Bytes
  import opened Faults
  import opened Strings
  import opened Variants
  import ChunkedCrypt

  datatype StoreError = NotExist | Undecodable | BackendError

  type Objects = map<string, seq<byte>>

  function Lookup(files: Objects, k: string): Option<seq<byte>> {
    if k in files then Some(files[k]) else None
  }

  predicate IsVariant(base: string, k: string, exts: seq<string>) {
    base <= k && k[|base|..] in exts
  }

  function EncodeBy(c: Option<Codec>, seed: nat, data: seq<byte>): seq<byte> {
    if c.None? then data else c.value.enc(seed, data)
  }

  function DecodeBy(c: Option<Codec>, data: seq<byte>): Option<seq<byte>> {
    if c.None? then Some(data) else c.value.dec(data)
  }

  /** Compression inside, encryption outside. */
  function Encode(t: Transforms, compSeed: nat, cryptSeed: nat, data: seq<byte>): seq<byte> {
    EncodeBy(t.crypter, cryptSeed, EncodeBy(t.compressor, compSeed, data))
  }

  function Decode(t: Transforms, stored: seq<byte>): Option<seq<byte>> {
    var inner := DecodeBy(t.crypter, stored);
    if inner.None? then None else DecodeBy(t.compressor, inner.value)
  }

  lemma DecodeEncode(alg: Algorithms, name: string, compSeed: nat, cryptSeed: nat, data: seq<byte>)
    requires AllLossless(alg)
    ensures var t := TransformsFromName(alg, name);
      Decode(t, Encode(t, compSeed, cryptSeed, data)) == Some(data)
  {
  }

  /** What the object under a stored name holds, suffix by suffix: compressed data inside, sealed outside. */
  lemma StoredFormat(alg: Algorithms, base: string, ext: string, compSeed: nat, cryptSeed: nat, data: seq<byte>)
    requires Clean(alg, base) && IsSupportedExt(alg, ext)
    ensures var packed :=
        if ext in {GZ, GZ_AES} then alg.gzip.value.enc(compSeed, data)
        else if ext in {ZST, ZST_AES} then alg.zstd.value.enc(compSeed, data) else data;
      Encode(TransformsFromName(alg, base + ext), compSeed, cryptSeed, data) ==
      if ext in {AES, GZ_AES, ZST_AES} then alg.aes.value.enc(cryptSeed, packed) else packed
  {
    TransformsOfVariant(alg, base, ext);
  }

  /** The chunked encryption as such a transformation; the seed chooses the salt. */
  function AesCodec(p: ChunkedCrypt.Password, salt: nat -> seq<byte>): Codec {
    Codec((seed: nat, data) => ChunkedCrypt.Encrypted(p, salt(seed), data), stored => ChunkedCrypt.Decrypted(p, stored))
  }

  lemma AesCodecLossless(p: ChunkedCrypt.Password, salt: nat -> seq<byte>)
    requires ChunkedCrypt.CorrectPassword(p) && forall seed: nat :: |salt(seed)| == ChunkedCrypt.SALT
    ensures Lossless(AesCodec(p, salt))
  {
    forall seed: nat, data: seq<byte>
      ensures AesCodec(p, salt).dec(AesCodec(p, salt).enc(seed, data)) == Some(data)
    {
      ChunkedCrypt.RoundTrip(p, salt(seed), data);
    }
  }

  function Read(alg: Algorithms, files: Objects, stored: string): Result<seq<byte>, StoreError> {
    if stored !in files then Err(NotExist) else
    var data := Decode(TransformsFromName(alg, stored), files[stored]);
    if data.None? then Err(Undecodable) else Ok(data.value)
  }

  function FirstExisting(files: Objects, base: string, exts: seq<string>): Option<string> {
    if exts == [] then None
    else if base + exts[0] in files then Some(base + exts[0])
    else FirstExisting(files, base, exts[1..])
  }

  /** What Get answers: the named object itself if the name carries a known suffix, else its first variant. */
  function Fetch(alg: Algorithms, files: Objects, path: string): Result<seq<byte>, StoreError> {
    if !Clean(alg, path) then Read(alg, files, path) else
    var stored := FirstExisting(files, path, SupportedExts(alg));
    if stored.None? then Err(NotExist) else Read(alg, files, stored.value)
  }

  // ---- the logical map ----

  /** The variant of highest priority. */
  ghost predicate Best(alg: Algorithms, files: Objects, base: string, ext: string) {
    && IsSupportedExt(alg, ext) && base + ext in files
    && forall e :: IsSupportedExt(alg, e) && base + e in files ==> Rank(ext) <= Rank(e)
  }

  ghost predicate NoVariant(alg: Algorithms, files: Objects, base: string) {
    forall e :: IsSupportedExt(alg, e) ==> base + e !in files
  }

  lemma {:induction false} FirstOf(files: Objects, base: string, exts: seq<string>, i: nat)
    requires i <= |exts| && (i < |exts| ==> base + exts[i] in files)
    requires forall j :: 0 <= j < i ==> base + exts[j] !in files
    ensures FirstExisting(files, base, exts) == if i < |exts| then Some(base + exts[i]) else None
  {
    if i > 0 { FirstOf(files, base, exts[1..], i - 1); }
  }

  lemma FetchBest(alg: Algorithms, files: Objects, base: string, ext: string)
    requires Clean(alg, base) && Best(alg, files, base, ext)
    ensures Fetch(alg, files, base) == Read(alg, files, base + ext)
  {
    var exts := SupportedExts(alg);
    var i :| 0 <= i < |exts| && exts[i] == ext;
    assert forall j :: 0 <= j < i ==> exts[j] in exts && Rank(exts[j]) < Rank(ext);
    FirstOf(files, base, exts, i);
  }

  lemma FetchNone(alg: Algorithms, files: Objects, base: string)
    requires Clean(alg, base) && NoVariant(alg, files, base)
    ensures Fetch(alg, files, base) == Err(NotExist)
  {
    var exts := SupportedExts(alg);
    assert forall j :: 0 <= j < |exts| ==> exts[j] in exts;
    FirstOf(files, base, exts, |exts|);
  }

  lemma {:induction false} BestExists(alg: Algorithms, files: Objects, base: string, ext: string) returns (best: string)
    requires IsSupportedExt(alg, ext) && base + ext in files
    ensures Best(alg, files, base, best)
    decreases Rank(ext)
  {
    if e :| IsSupportedExt(alg, e) && base + e in files && Rank(e) < Rank(ext) {
      best := BestExists(alg, files, base, e);
    } else {
      best := ext;
    }
  }

  /** What the object under a stored name reads as: the data, or an error if it is missing or does not decode. */
  predicate ReadsAs(alg: Algorithms, files: Objects, stored: string, r: Result<seq<byte>, StoreError>) {
    if stored !in files then r == Err(NotExist)
    else if Decode(TransformsFromName(alg, stored), files[stored]).None? then r == Err(Undecodable)
    else r == Ok(Decode(TransformsFromName(alg, stored), files[stored]).value)
  }

  /** A name that carries a known suffix is read as it is; a logical name as its variant of highest priority, and
    * without any variant it does not exist. */
  lemma FetchAnswers(alg: Algorithms, files: Objects, path: string)
    ensures !Clean(alg, path) ==> ReadsAs(alg, files, path, Fetch(alg, files, path))
    ensures Clean(alg, path) && NoVariant(alg, files, path) ==> Fetch(alg, files, path) == Err(NotExist)
    ensures Clean(alg, path) ==>
      forall ext :: Best(alg, files, path, ext) ==> ReadsAs(alg, files, path + ext, Fetch(alg, files, path))
  {
    if Clean(alg, path) {
      if NoVariant(alg, files, path) { FetchNone(alg, files, path); }
      forall ext | Best(alg, files, path, ext) ensures ReadsAs(alg, files, path + ext, Fetch(alg, files, path)) {
        FetchBest(alg, files, path, ext);
      }
    }
  }

  /** Fetching depends only on the variants of the name. */
  lemma FetchDepends(alg: Algorithms, files: Objects, files': Objects, base: string)
    requires Clean(alg, base)
    requires forall e :: IsSupportedExt(alg, e) ==> (base + e in files <==> base + e in files')
    requires forall e :: IsSupportedExt(alg, e) && base + e in files ==> files[base + e] == files'[base + e]
    ensures Fetch(alg, files, base) == Fetch(alg, files', base)
  {
    if e :| IsSupportedExt(alg, e) && base + e in files {
      var best := BestExists(alg, files, base, e);
      FetchBest(alg, files, base, best);
      FetchBest(alg, files', base, best);
    } else {
      FetchNone(alg, files, base);
      FetchNone(alg, files', base);
    }
  }

  /** New data shows unless an older variant of higher priority hides it. For a name that already carries
    * a suffix it shows exactly if nothing is appended to that name. */
  ghost predicate Visible(alg: Algorithms, files: Objects, path: string, writeExt: string) {
    if Clean(alg, path) then forall e :: IsSupportedExt(alg, e) && Rank(e) < Rank(writeExt) ==> path + e !in files
    else writeExt == ""
  }

  /** Put, then Get: the data written, if it is visible, and otherwise what was there before. The reader need
    * not use the suffix the writer uses. */
  lemma PutThenGet(alg: Algorithms, files: Objects, path: string, writeExt: string, a: nat, b: nat, data: seq<byte>)
    requires AllLossless(alg) && IsSupportedExt(alg, writeExt)
    ensures var stored := path + writeExt;
      var files' := files[stored := Encode(TransformsFromName(alg, stored), a, b, data)];
      Fetch(alg, files', path) == if Visible(alg, files, path, writeExt) then Ok(data) else Fetch(alg, files, path)
  {
    var stored := path + writeExt;
    var files' := files[stored := Encode(TransformsFromName(alg, stored), a, b, data)];
    DecodeEncode(alg, stored, a, b, data);
    if !Clean(alg, path) {
      assert writeExt == "" ==> stored == path;
    } else if Visible(alg, files, path, writeExt) {
      forall e | IsSupportedExt(alg, e) && path + e in files' ensures Rank(writeExt) <= Rank(e) {
        if path + e == stored { VariantsDistinct(alg, path, e, path, writeExt); }
      }
      FetchBest(alg, files', path, writeExt);
    } else {
      HiddenPut(alg, files, files', path, writeExt);
    }
  }

  lemma HiddenPut(alg: Algorithms, files: Objects, files': Objects, path: string, writeExt: string)
    requires Clean(alg, path) && IsSupportedExt(alg, writeExt) && !Visible(alg, files, path, writeExt)
    requires path + writeExt in files' && files' == files[path + writeExt := files'[path + writeExt]]
    ensures Fetch(alg, files', path) == Fetch(alg, files, path)
  {
    var e :| IsSupportedExt(alg, e) && Rank(e) < Rank(writeExt) && path + e in files;
    var best := BestExists(alg, files, path, e);
    FetchBest(alg, files, path, best);
    if path + best == path + writeExt { VariantsDistinct(alg, path, best, path, writeExt); }
    forall o | IsSupportedExt(alg, o) && path + o in files' ensures Rank(best) <= Rank(o) {
      if path + o == path + writeExt { VariantsDistinct(alg, path, o, path, writeExt); }
    }
    FetchBest(alg, files', path, best);
  }

  /** A change to variants of one logical name does not show under another. */
  lemma OthersUnchanged(alg: Algorithms, files: Objects, files': Objects, base: string, other: string)
    requires Clean(alg, base) && Clean(alg, other) && base != other
    requires forall k :: Lookup(files, k) == Lookup(files', k) || IsVariant(base, k, SupportedExts(alg))
    ensures Fetch(alg, files', other) == Fetch(alg, files, other)
  {
    forall o | IsSupportedExt(alg, o)
      ensures other + o in files <==> other + o in files'
      ensures other + o in files ==> files[other + o] == files'[other + o]
    {
      var k := other + o;
      if IsVariant(base, k, SupportedExts(alg)) { VariantsDistinct(alg, other, o, base, k[|base|..]); }
      assert Lookup(files, k) == Lookup(files', k);
    }
    FetchDepends(alg, files, files', other);
  }

  // ---- moving an entry ----

  /** What a stored name holds after the variants in exts of one base have been moved to another. */
  function Moved(files: Objects, exts: seq<string>, from: string, to: string, k: string): Option<seq<byte>> {
    if IsVariant(to, k, exts) && from + k[|to|..] in files then Some(files[from + k[|to|..]])
    else if IsVariant(from, k, exts) then None
    else Lookup(files, k)
  }

  /** Rename to a logical name without variants moves the logical entry. */
  lemma RenameMoves(alg: Algorithms, files: Objects, files': Objects, from: string, to: string)
    requires Clean(alg, from) && Clean(alg, to) && from != to && NoVariant(alg, files, to)
    requires files' == MoveAll(files, SupportedExts(alg), from, to)
    ensures Fetch(alg, files', to) == Fetch(alg, files, from)
    ensures Fetch(alg, files', from) == Err(NotExist)
  {
    var exts := SupportedExts(alg);
    MoveAllMoves(alg, files, exts, from, to);
    forall e | IsSupportedExt(alg, e) ensures from + e !in files' {
      MovedAway(alg, files, from, to, e);
      assert Lookup(files', from + e) == None;
    }
    FetchNone(alg, files', from);
    forall e | IsSupportedExt(alg, e) ensures Lookup(files', to + e) == Lookup(files, from + e) {
      MovedHere(alg, files, from, to, e);
    }
    FetchMoved(alg, files, files', from, to);
  }

  /** A logical name whose variants are those of another one reads the same. */
  lemma FetchMoved(alg: Algorithms, files: Objects, files': Objects, from: string, to: string)
    requires Clean(alg, from) && Clean(alg, to)
    requires forall e :: IsSupportedExt(alg, e) ==> Lookup(files', to + e) == Lookup(files, from + e)
    ensures Fetch(alg, files', to) == Fetch(alg, files, from)
  {
    if e :| IsSupportedExt(alg, e) && from + e in files {
      var best := BestExists(alg, files, from, e);
      assert Lookup(files', to + best) == Lookup(files, from + best);
      forall o | IsSupportedExt(alg, o) && to + o in files' ensures Rank(best) <= Rank(o) {
        assert Lookup(files', to + o) == Lookup(files, from + o);
      }
      FetchBest(alg, files, from, best);
      FetchBest(alg, files', to, best);
      TransformsOfVariant(alg, from, best);
      TransformsOfVariant(alg, to, best);
    } else {
      FetchNone(alg, files, from);
      forall o | IsSupportedExt(alg, o) ensures to + o !in files' {
        assert Lookup(files', to + o) == Lookup(files, from + o);
      }
      FetchNone(alg, files', to);
    }
  }

  lemma VariantName(base: string, e: string, exts: seq<string>)
    ensures IsVariant(base, base + e, exts) <==> e in exts
    ensures (base + e)[|base|..] == e
  {
  }

  lemma MovedAway(alg: Algorithms, files: Objects, from: string, to: string, e: string)
    requires Clean(alg, from) && Clean(alg, to) && from != to && IsSupportedExt(alg, e)
    ensures Moved(files, SupportedExts(alg), from, to, from + e) == None
  {
    var k, exts := from + e, SupportedExts(alg);
    VariantName(from, e, exts);
    if IsVariant(to, k, exts) { VariantsDistinct(alg, from, e, to, k[|to|..]); }
  }

  lemma MovedHere(alg: Algorithms, files: Objects, from: string, to: string, e: string)
    requires Clean(alg, from) && Clean(alg, to) && from != to && IsSupportedExt(alg, e) && NoVariant(alg, files, to)
    ensures Moved(files, SupportedExts(alg), from, to, to + e) == Lookup(files, from + e)
  {
  }

  /** Moving one more variant, seen from its old name, ... */
  lemma MoveFrom(alg: Algorithms, files: Objects, done: seq<string>, e: string, from: string, to: string)
    requires Clean(alg, from) && Clean(alg, to) && from != to
    requires IsSupportedExt(alg, e) && e !in done && forall x :: x in done ==> IsSupportedExt(alg, x)
    ensures Moved(files, done, from, to, from + e) == Lookup(files, from + e)
    ensures Moved(files, done + [e], from, to, from + e) == None
  {
    VariantName(from, e, done);
    VariantName(from, e, done + [e]);
    if to <= from + e {
      var x := (from + e)[|to|..];
      assert to + x == from + e;
      if x in done + [e] { VariantsDistinct(alg, from, e, to, x); }
    }
  }

  /** ... from its new name, ... */
  lemma MoveTo(alg: Algorithms, files: Objects, done: seq<string>, e: string, from: string, to: string)
    requires Clean(alg, from) && Clean(alg, to) && from != to
    requires IsSupportedExt(alg, e) && e !in done && forall x :: x in done ==> IsSupportedExt(alg, x)
    ensures Moved(files, done, from, to, to + e) == Lookup(files, to + e)
    ensures Moved(files, done + [e], from, to, to + e)
      == if from + e in files then Some(files[from + e]) else Lookup(files, to + e)
  {
    VariantName(to, e, done);
    VariantName(to, e, done + [e]);
    if from <= to + e {
      var x := (to + e)[|from|..];
      assert from + x == to + e;
      if x in done + [e] { VariantsDistinct(alg, to, e, from, x); }
    }
  }

  /** ... and from any other name. */
  lemma MoveElsewhere(files: Objects, done: seq<string>, e: string, from: string, to: string, k: string)
    requires k != from + e && k != to + e
    ensures Moved(files, done + [e], from, to, k) == Moved(files, done, from, to, k)
  {
  }

  function OneMoved(files: Objects, e: string, from: string, to: string): Objects {
    if from + e in files then files[to + e := files[from + e]] - {from + e} else files
  }

  /** Every stored name holds what it should after the variants in exts have been moved. */
  ghost predicate AllMoved(files: Objects, now: Objects, exts: seq<string>, from: string, to: string) {
    forall k :: Lookup(now, k) == Moved(files, exts, from, to, k)
  }

  /** One turn of the rename loop. */
  lemma MoveStep(alg: Algorithms, files: Objects, was: Objects, now: Objects, done: seq<string>, e: string,
                 from: string, to: string)
    requires Clean(alg, from) && Clean(alg, to) && from != to
    requires IsSupportedExt(alg, e) && e !in done && forall x :: x in done ==> IsSupportedExt(alg, x)
    requires AllMoved(files, was, done, from, to)
    requires now == OneMoved(was, e, from, to)
    ensures AllMoved(files, now, done + [e], from, to)
  {
    MoveFrom(alg, files, done, e, from, to);
    MoveTo(alg, files, done, e, from, to);
    if from + e == to + e { VariantsDistinct(alg, from, e, to, e); }
    assert Lookup(was, from + e) == Lookup(files, from + e) && Lookup(was, to + e) == Lookup(files, to + e);
    forall k ensures Lookup(now, k) == Moved(files, done + [e], from, to, k) {
      if k != from + e && k != to + e { MoveElsewhere(files, done, e, from, to, k); }
    }
  }

  /** Moving the variants one after the other. */
  function MoveAll(files: Objects, exts: seq<string>, from: string, to: string): Objects {
    if exts == [] then files
    else OneMoved(MoveAll(files, exts[..|exts| - 1], from, to), exts[|exts| - 1], from, to)
  }

  lemma MoveAllOne(files: Objects, exts: seq<string>, i: nat, from: string, to: string)
    requires i < |exts|
    ensures MoveAll(files, exts[..i + 1], from, to) == OneMoved(MoveAll(files, exts[..i], from, to), exts[i], from, to)
  {
    assert exts[..i + 1][..i] == exts[..i];
  }

  lemma Unmoved(files: Objects, from: string, to: string)
    ensures AllMoved(files, MoveAll(files, [], from, to), [], from, to)
  {
  }

  ghost predicate DistinctExts(alg: Algorithms, exts: seq<string>) {
    && (forall x :: x in exts ==> IsSupportedExt(alg, x))
    && (forall i, j :: 0 <= i < j < |exts| ==> exts[i] != exts[j])
  }

  /** Between logical names this leaves every stored name as Moved says. */
  lemma {:induction false} MoveAllMoves(alg: Algorithms, files: Objects, exts: seq<string>, from: string, to: string)
    requires Clean(alg, from) && Clean(alg, to) && from != to && DistinctExts(alg, exts)
    ensures AllMoved(files, MoveAll(files, exts, from, to), exts, from, to)
  {
    if exts == [] {
      Unmoved(files, from, to);
    } else {
      var n := |exts| - 1;
      var done, e := exts[..n], exts[n];
      assert exts == done + [e];
      MoveAllMoves(alg, files, done, from, to);
      MoveStep(alg, files, MoveAll(files, done, from, to), MoveAll(files, exts, from, to), done, e, from, to);
    }
  }

  /** What one backend rename may have done when it fails: nothing, only the copy, or everything. */
  predicate MayMove(was: Objects, now: Objects, e: string, from: string, to: string) {
    now == was || now == OneMoved(was, e, from, to) || (from + e in was && now == was[to + e := was[from + e]])
  }

  /** A variant is still under its old name or already under its new one. */
  predicate Either(was: Objects, now: Objects, e: string, from: string, to: string) {
    from + e in was ==> Lookup(was, from + e) in {Lookup(now, from + e), Lookup(now, to + e)}
  }

  /** A rename under way: no variant is lost, and no other object is touched. */
  ghost predicate SafeMove(alg: Algorithms, was: Objects, now: Objects, from: string, to: string) {
    && (forall e :: IsSupportedExt(alg, e) ==> Either(was, now, e, from, to))
    && (forall k :: !IsVariant(from, k, SupportedExts(alg)) && !IsVariant(to, k, SupportedExts(alg)) ==>
          Lookup(now, k) == Lookup(was, k))
  }

  /** The variants from the i-th on have not been touched. */
  ghost predicate Untouched(was: Objects, now: Objects, exts: seq<string>, i: nat, from: string) {
    forall j :: i <= j < |exts| ==> Lookup(now, from + exts[j]) == Lookup(was, from + exts[j])
  }

  lemma SafeMoveStep(alg: Algorithms, was: Objects, now: Objects, next: Objects, i: nat, from: string, to: string)
    requires Clean(alg, from) && Clean(alg, to) && from != to && i < |SupportedExts(alg)|
    requires SafeMove(alg, was, now, from, to) && Untouched(was, now, SupportedExts(alg), i, from)
    requires MayMove(now, next, SupportedExts(alg)[i], from, to)
    ensures SafeMove(alg, was, next, from, to) && Untouched(was, next, SupportedExts(alg), i + 1, from)
  {
    var exts := SupportedExts(alg);
    var e := exts[i];
    forall x | IsSupportedExt(alg, x) ensures Either(was, next, x, from, to) {
      NamesApart(alg, x, e, from, to);
      assert Either(was, now, x, from, to);
    }
    forall j | i + 1 <= j < |exts| ensures Lookup(next, from + exts[j]) == Lookup(was, from + exts[j]) {
      NamesApart(alg, exts[j], e, from, to);
    }
    forall k | !IsVariant(from, k, exts) && !IsVariant(to, k, exts) ensures Lookup(next, k) == Lookup(was, k) {
      VariantName(from, e, exts);
      VariantName(to, e, exts);
    }
  }

  lemma NamesApart(alg: Algorithms, x: string, e: string, from: string, to: string)
    requires Clean(alg, from) && Clean(alg, to) && from != to && IsSupportedExt(alg, x) && IsSupportedExt(alg, e)
    ensures from + x != to + e && to + x != from + e
    ensures x != e ==> from + x != from + e && to + x != to + e
  {
    if from + x == to + e { VariantsDistinct(alg, from, x, to, e); }
    if to + x == from + e { VariantsDistinct(alg, to, x, from, e); }
    if from + x == from + e { VariantsDistinct(alg, from, x, from, e); }
    if to + x == to + e { VariantsDistinct(alg, to, x, to, e); }
  }

  /** A deletion under way: only variants of the path may be missing. */
  ghost predicate OnlyVariantsGone(was: Objects, now: Objects, path: string, exts: seq<string>) {
    && (forall k :: k in now ==> k in was && now[k] == was[k])
    && (forall k :: k in was && k !in now ==> IsVariant(path, k, exts))
  }

  // ---- the store ----

  /** past records the store after every backend call that may have changed it; reliable says that no backend
    * call fails. */
  class VariadicStorage {
    const reliable: bool
    const alg: Algorithms
    const writeExt: string
    var files: Objects
    ghost var past: seq<Objects>

    constructor (reliable: bool, alg: Algorithms, writeExt: string, files: Objects)
      requires IsSupportedExt(alg, writeExt)
      ensures this.reliable == reliable
      ensures this.alg == alg && this.writeExt == writeExt && this.files == files && past == []
    {
      this.reliable, this.alg, this.writeExt, this.files, past := reliable, alg, writeExt, files, [];
    }

    /** A failed write may leave anything under the one stored name. */
    method Put(path: string, data: seq<byte>) returns (ok: bool, ghost a: nat, ghost b: nat)
      modifies this
      ensures ok ==> var stored := path + writeExt;
        files == old(files)[stored := Encode(TransformsFromName(alg, stored), a, b, data)]
      ensures forall k :: k != path + writeExt ==> Lookup(files, k) == Lookup(old(files), k)
      ensures past == old(past) + [files]
      ensures reliable ==> ok
    {
      var stored := path + writeExt;
      var compSeed: int, cryptSeed: int := *, *;
      if compSeed < 0 || cryptSeed < 0 { compSeed, cryptSeed := 0, 0; }
      a, b := compSeed, cryptSeed;
      ok := Attempt(reliable);
      var content := Encode(TransformsFromName(alg, stored), compSeed, cryptSeed, data);
      if !ok { content := *; }
      var touched: bool := *;
      if ok || touched { files := files[stored := content]; }
      past := past + [files];
    }

    method FindExistingName(base: string) returns (r: Result<string, StoreError>)
      ensures (!reliable && r == Err(BackendError)) || r == match FirstExisting(files, base, SupportedExts(alg))
        case Some(stored) => Ok(stored)
        case None => Err(NotExist)
    {
      var exts := SupportedExts(alg);
      for i := 0 to |exts|
        invariant forall j :: 0 <= j < i ==> base + exts[j] !in files
      {
        var answered := Attempt(reliable);
        if !answered { return Err(BackendError); }
        if base + exts[i] in files {
          FirstOf(files, base, exts, i);
          return Ok(base + exts[i]);
        }
      }
      FirstOf(files, base, exts, |exts|);
      return Err(NotExist);
    }

    method ReadObject(stored: string) returns (r: Result<seq<byte>, StoreError>)
      ensures (!reliable && r == Err(BackendError)) || r == Read(alg, files, stored)
    {
      var answered := Attempt(reliable);
      r := if answered then Read(alg, files, stored) else Err(BackendError);
    }

    method Get(path: string) returns (r: Result<seq<byte>, StoreError>)
      ensures (!reliable && r == Err(BackendError)) || r == Fetch(alg, files, path)
    {
      var exts := SupportedExts(alg);
      for i := 0 to |exts|
        invariant forall j :: 0 <= j < i && exts[j] != "" ==> !HasSuffix(path, exts[j])
      {
        if exts[i] != "" && HasSuffix(path, exts[i]) {
          r := ReadObject(path);
          return;
        }
      }
      var stored := FindExistingName(path);
      if stored.Err? { return Err(stored.error); }
      r := ReadObject(stored.value);
    }

    /** The object is gone unless an error is returned; then it may be gone as well. */
    method BackendDelete(k: string) returns (ok: bool)
      modifies this
      ensures files == old(files) - {k} || (!ok && files == old(files))
      ensures past == old(past) + [files]
      ensures reliable ==> ok
    {
      ok := Attempt(reliable);
      var gone: bool := *;
      if ok || gone { files := files - {k}; }
      past := past + [files];
    }

    /** Removes all variants of a name, one backend call each, and nothing else. */
    method Delete(path: string) returns (ok: bool)
      modifies this
      ensures ok ==> NoVariant(alg, files, path)
      ensures reliable ==> ok
      ensures OnlyVariantsGone(old(files), files, path, SupportedExts(alg))
      ensures old(past) <= past && |past| == |old(past)| + |SupportedExts(alg)|
      ensures forall i :: |old(past)| <= i < |past| ==> OnlyVariantsGone(old(files), past[i], path, SupportedExts(alg))
    {
      var exts := SupportedExts(alg);
      ok := true;
      for i := 0 to |exts|
        invariant ok ==> forall j :: 0 <= j < i ==> path + exts[j] !in files
        invariant reliable ==> ok
        invariant OnlyVariantsGone(old(files), files, path, exts)
        invariant old(past) <= past && |past| == |old(past)| + i
        invariant forall j :: |old(past)| <= j < |past| ==> OnlyVariantsGone(old(files), past[j], path, exts)
      {
        VariantName(path, exts[i], exts);
        var done := BackendDelete(path + exts[i]);
        ok := ok && done;
      }
    }

    /** A backend may rename by copying and then deleting. */
    method RenameVariant(ext: string, from: string, to: string) returns (ok: bool)
      modifies this
      ensures ok ==> files == OneMoved(old(files), ext, from, to)
      ensures MayMove(old(files), files, ext, from, to)
      ensures past == old(past) + [files]
      ensures reliable ==> ok
    {
      ok := Attempt(reliable);
      var copied: bool, moved: bool := *, *;
      if ok || moved {
        files := OneMoved(files, ext, from, to);
      } else if copied && from + ext in files {
        files := files[to + ext := files[from + ext]];
      }
      past := past + [files];
    }

    /** Moves the variants of the old logical name one after the other. Between logical names no variant is ever
      * lost, whatever fails. */
    method Rename(oldPath: string, newPath: string) returns (ok: bool)
      modifies this
      ensures var from, to := DecodePath(alg, oldPath), DecodePath(alg, newPath);
        && (from == to ==> ok && files == old(files) && past == old(past))
        && (from != to && ok ==> files == MoveAll(old(files), SupportedExts(alg), from, to))
        && (from != to && Clean(alg, from) && Clean(alg, to) ==>
              SafeMove(alg, old(files), files, from, to)
              && forall i :: |old(past)| <= i < |past| ==> SafeMove(alg, old(files), past[i], from, to))
      ensures old(past) <= past && (reliable ==> ok)
    {
      var from, to := DecodePath(alg, oldPath), DecodePath(alg, newPath);
      ok := true;
      if from == to { return; }
      var exts := SupportedExts(alg);
      ghost var logical := Clean(alg, from) && Clean(alg, to);
      for i := 0 to |exts|
        invariant ok ==> files == MoveAll(old(files), exts[..i], from, to)
        invariant reliable ==> ok
        invariant logical ==> SafeMove(alg, old(files), files, from, to) && Untouched(old(files), files, exts, i, from)
        invariant old(past) <= past
        invariant logical ==> forall j :: |old(past)| <= j < |past| ==> SafeMove(alg, old(files), past[j], from, to)
      {
        ghost var was := files;
        var moved := RenameVariant(exts[i], from, to);
        ok := ok && moved;
        if logical { SafeMoveStep(alg, old(files), was, files, i, from, to); }
        MoveAllOne(old(files), exts, i, from, to);
      }
      assert exts[..|exts|] == exts;
    }
  }
}
