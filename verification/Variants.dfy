/** Storage names with transformation suffixes, and the store that reads and writes through them. */
module Variants {
  import opened Bytes
  import opened Strings

  /** A transformation and its inverse; the seed stands for salts and other free choices. */
  datatype Codec = Codec(enc: (nat, seq<byte>) -> seq<byte>, dec: seq<byte> -> Option<seq<byte>>)

  ghost predicate Lossless(c: Codec) {
    forall seed: nat, data: seq<byte> :: c.dec(c.enc(seed, data)) == Some(data)
  }

  /** The algorithms a store has been given. */
  datatype Algorithms = Algorithms(gzip: Option<Codec>, zstd: Option<Codec>, aes: Option<Codec>)

  ghost predicate AllLossless(alg: Algorithms) {
    && (alg.gzip.Some? ==> Lossless(alg.gzip.value))
    && (alg.zstd.Some? ==> Lossless(alg.zstd.value))
    && (alg.aes.Some? ==> Lossless(alg.aes.value))
  }

  const GZ := ".gz"
  const ZST := ".zst"
  const AES := ".aes"
  const GZ_AES := ".gz.aes"
  const ZST_AES := ".zst.aes"

  function When(b: bool, ext: string): seq<string> {
    if b then [ext] else []
  }

  /** The order of lookup among suffixes. */
  function Rank(ext: string): nat {
    if ext == GZ_AES then 0 else if ext == ZST_AES then 1 else if ext == GZ then 2
    else if ext == ZST then 3 else if ext == AES then 4 else 5
  }

  /** All suffixes the store knows, in the order of lookup; plain comes last. */
  function SupportedExts(alg: Algorithms): (exts: seq<string>)
    ensures forall e :: e in exts <==> IsSupportedExt(alg, e)
    ensures forall i, j :: 0 <= i < j < |exts| ==> Rank(exts[i]) < Rank(exts[j])
  {
    When(alg.gzip.Some? && alg.aes.Some?, GZ_AES) + When(alg.zstd.Some? && alg.aes.Some?, ZST_AES)
    + When(alg.gzip.Some?, GZ) + When(alg.zstd.Some?, ZST) + When(alg.aes.Some?, AES) + [""]
  }

  predicate IsSupportedExt(alg: Algorithms, ext: string) {
    || ext == ""
    || (ext == GZ && alg.gzip.Some?) || (ext == ZST && alg.zstd.Some?) || (ext == AES && alg.aes.Some?)
    || (ext == GZ_AES && alg.gzip.Some? && alg.aes.Some?) || (ext == ZST_AES && alg.zstd.Some? && alg.aes.Some?)
  }

  // ---- names ----

  datatype Transforms = Transforms(compressor: Option<Codec>, crypter: Option<Codec>)

  /** Determined by the suffixes of the stored name alone. */
  function TransformsFromName(alg: Algorithms, name: string): Transforms {
    var sealed := alg.aes.Some? && HasSuffix(name, AES);
    var crypter := if sealed then alg.aes else None;
    var inner := if sealed then TrimSuffix(name, AES) else name;
    if alg.gzip.Some? && HasSuffix(inner, GZ) then Transforms(alg.gzip, crypter)
    else if alg.zstd.Some? && HasSuffix(inner, ZST) then Transforms(alg.zstd, crypter)
    else Transforms(None, crypter)
  }

  /** What a suffix means. */
  function ExtTransforms(alg: Algorithms, ext: string): Transforms {
    Transforms(if ext in {GZ, GZ_AES} then alg.gzip else if ext in {ZST, ZST_AES} then alg.zstd else None,
               if ext in {AES, GZ_AES, ZST_AES} then alg.aes else None)
  }

  /** A logical name: it ends in no suffix the store knows. */
  predicate Clean(alg: Algorithms, base: string) {
    forall e :: e in SupportedExts(alg) && e != "" ==> !HasSuffix(base, e)
  }

  lemma CleanOf(alg: Algorithms, base: string, ext: string)
    requires Clean(alg, base) && IsSupportedExt(alg, ext) && ext != ""
    ensures !HasSuffix(base, ext)
  {
  }

  lemma SameLast(s: string, x: string, y: string)
    requires x != "" && y != ""
    ensures HasSuffix(s, x) && HasSuffix(s, y) ==> x[|x| - 1] == y[|y| - 1]
  {
  }

  lemma CompressorOf(alg: Algorithms, base: string, ext: string)
    requires Clean(alg, base) && IsSupportedExt(alg, ext) && ext in {"", GZ, ZST}
    ensures alg.aes.Some? ==> !HasSuffix(base + ext, AES)
    ensures alg.gzip.Some? ==> (HasSuffix(base + ext, GZ) <==> ext == GZ)
    ensures alg.zstd.Some? ==> (HasSuffix(base + ext, ZST) <==> ext == ZST)
  {
    if ext == "" {
      assert base + ext == base;
      if alg.aes.Some? { CleanOf(alg, base, AES); }
      if alg.gzip.Some? { CleanOf(alg, base, GZ); }
      if alg.zstd.Some? { CleanOf(alg, base, ZST); }
    } else {
      SuffixAppended(base, ext);
      SameLast(base + ext, ext, AES);
      SameLast(base + ext, ext, GZ);
      SameLast(base + ext, ext, ZST);
    }
  }

  /** On a logical name plus suffix, the stored name is read as what the suffix means. */
  lemma TransformsOfVariant(alg: Algorithms, base: string, ext: string)
    requires Clean(alg, base) && IsSupportedExt(alg, ext)
    ensures TransformsFromName(alg, base + ext) == ExtTransforms(alg, ext)
  {
    if ext in {AES, GZ_AES, ZST_AES} {
      var inner := if ext == GZ_AES then GZ else if ext == ZST_AES then ZST else "";
      assert ext == inner + AES && base + ext == base + inner + AES;
      SuffixAppended(base + inner, AES);
      CompressorOf(alg, base, inner);
    } else {
      CompressorOf(alg, base, ext);
    }
  }

  /** No two variants of logical names share a stored name. */
  lemma VariantsDistinct(alg: Algorithms, b1: string, e1: string, b2: string, e2: string)
    requires Clean(alg, b1) && IsSupportedExt(alg, e1) && Clean(alg, b2) && IsSupportedExt(alg, e2)
    requires b1 + e1 == b2 + e2
    ensures b1 == b2 && e1 == e2
  {
    if |e1| < |e2| {
      LongerVariant(alg, b1, e1, b2, e2);
    } else if |e2| < |e1| {
      LongerVariant(alg, b2, e2, b1, e1);
    } else {
      assert (b1 + e1)[..|b1|] == b1 && (b2 + e2)[..|b2|] == b2;
      assert (b1 + e1)[|b1|..] == e1 && (b2 + e2)[|b2|..] == e2;
    }
  }

  /** A logical name with a suffix is not a logical name with a longer suffix. */
  lemma LongerVariant(alg: Algorithms, b1: string, e1: string, b2: string, e2: string)
    requires Clean(alg, b1) && IsSupportedExt(alg, e1) && IsSupportedExt(alg, e2)
    requires |e1| < |e2|
    ensures b1 + e1 != b2 + e2
  {
    if b1 + e1 == b2 + e2 {
      var n := |e2| - |e1|;
      var middle := e2[..n];
      var s := b1 + e1;
      assert s[|b1|..] == e1 && s[|b1|..] == e2[n..];
      assert e2[n..] == e1;
      assert s[..|b1|] == b1 && s[..|b1|] == b2 + middle;
      MiddleIsExt(alg, e1, e2);
      SuffixAppended(b2, middle);
      CleanOf(alg, b1, middle);
    }
  }

  /** If a suffix ends in a shorter one, what comes before is a suffix too. */
  lemma MiddleIsExt(alg: Algorithms, e1: string, e2: string)
    requires IsSupportedExt(alg, e1) && IsSupportedExt(alg, e2) && |e1| < |e2|
    requires e2[|e2| - |e1|..] == e1
    ensures IsSupportedExt(alg, e2[..|e2| - |e1|]) && e2[..|e2| - |e1|] != ""
  {
  }

  /** Strips the first known suffix. */
  function DecodePath(alg: Algorithms, encoded: string): string {
    StripFirst(SupportedExts(alg), encoded)
  }

  function StripFirst(exts: seq<string>, s: string): string {
    if exts == [] then s
    else if exts[0] != "" && HasSuffix(s, exts[0]) then TrimSuffix(s, exts[0])
    else StripFirst(exts[1..], s)
  }

  lemma {:induction false} StripFinds(exts: seq<string>, base: string, ext: string, i: nat)
    requires i < |exts| && exts[i] == ext
    requires forall j :: 0 <= j < i ==> !HasSuffix(base + ext, exts[j])
    requires ext == "" ==> i == |exts| - 1
    ensures StripFirst(exts, base + ext) == base
  {
    SuffixAppended(base, ext);
    if i > 0 {
      StripFinds(exts[1..], base, ext, i - 1);
    } else if ext == "" {
      assert base + ext == base;
    }
  }

  lemma NotSuffixOfLater(alg: Algorithms, base: string, ext: string, e: string)
    requires Clean(alg, base) && IsSupportedExt(alg, ext) && IsSupportedExt(alg, e) && Rank(e) < Rank(ext)
    ensures !HasSuffix(base + ext, e)
  {
    if |ext| < |e| {
      if HasSuffix(base + ext, e) {
        SuffixSplits(base + ext, e);
        LongerVariant(alg, base, ext, TrimSuffix(base + ext, e), e);
      }
    } else if ext == ZST_AES {
      assert (base + ext)[|base + ext| - 7] == 'z';
    } else {
      SuffixAppended(base, ext);
      SameLast(base + ext, ext, e);
    }
  }

  /** Decoding a variant's stored name gives the logical name back. */
  lemma DecodeVariant(alg: Algorithms, base: string, ext: string)
    requires Clean(alg, base) && IsSupportedExt(alg, ext)
    ensures DecodePath(alg, base + ext) == base
  {
    var exts := SupportedExts(alg);
    var i :| 0 <= i < |exts| && exts[i] == ext;
    forall j | 0 <= j < i ensures !HasSuffix(base + ext, exts[j]) {
      NotSuffixOfLater(alg, base, ext, exts[j]);
    }
    StripFinds(exts, base, ext, i);
  }
}
