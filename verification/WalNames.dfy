/** Which objects of the WAL archive are segments, and of which name: paths, suffixes and letter case. */
module WalNames {
  import opened Arith
  import opened Strings
  import opened Variants
  import opened XLog

  const LZ4 := ".lz4"
  const HISTORY := ".history"

  // ---- paths ----

  function StripSlashes(s: string): string {
    if s != "" && s[|s| - 1] == '/' then StripSlashes(s[..|s| - 1]) else s
  }

  function AfterSlash(s: string): string {
    if s == "" || s[|s| - 1] == '/' then "" else AfterSlash(s[..|s| - 1]) + [s[|s| - 1]]
  }

  /** filepath.Base on a system whose separator is a slash. */
  function Base(path: string): string {
    if path == "" then "." else
    var t := StripSlashes(path);
    if t == "" then "/" else AfterSlash(t)
  }

  function WithoutDot(s: string): string {
    if HasPrefix(s, "./") then s[2..] else s
  }

  predicate IsRootStoragePath(path: string) {
    var clean := WithoutDot(TrimSpace(path));
    clean != "" && '/' !in clean
  }

  // ---- transformation suffixes ----

  predicate IsSimpleExt(e: string) { e == GZ || e == ZST || e == LZ4 || e == AES }

  /** The name without any transformation suffixes. */
  function Stem(s: string): string {
    if HasSuffix(s, GZ) then Stem(TrimSuffix(s, GZ))
    else if HasSuffix(s, ZST) then Stem(TrimSuffix(s, ZST))
    else if HasSuffix(s, LZ4) then Stem(TrimSuffix(s, LZ4))
    else if HasSuffix(s, AES) then Stem(TrimSuffix(s, AES))
    else s
  }

  lemma StemTrimmed(s: string, e: string)
    requires IsSimpleExt(e)
    ensures Stem(TrimSuffix(s, e)) == Stem(s)
  {
    SameLast(s, e, GZ);
    SameLast(s, e, ZST);
    SameLast(s, e, LZ4);
    SameLast(s, e, AES);
  }

  lemma StemOne(s: string, e: string)
    requires e == "" || IsSimpleExt(e)
    ensures Stem(s + e) == Stem(s)
  {
    if e == "" {
      assert s + e == s;
    } else {
      SuffixAppended(s, e);
      StemTrimmed(s + e, e);
    }
  }

  lemma Grouped(s: string, x: string, y: string)
    ensures s + (x + y) == s + x + y
  {
  }

  lemma ExtParts(alg: Algorithms, e: string) returns (x: string, y: string)
    requires IsSupportedExt(alg, e)
    ensures e == x + y && (x == "" || IsSimpleExt(x)) && (y == "" || IsSimpleExt(y))
  {
    if e == GZ_AES {
      x, y := GZ, AES;
    } else if e == ZST_AES {
      x, y := ZST, AES;
    } else {
      x, y := "", e;
    }
  }

  lemma StemAppended(s: string, alg: Algorithms, e: string)
    requires IsSupportedExt(alg, e)
    ensures Stem(s + e) == Stem(s)
  {
    var x, y := ExtParts(alg, e);
    Grouped(s, x, y);
    StemOne(s + x, y);
    StemOne(s, x);
  }

  datatype WalName = NotWal | History | Segment(name: string)

  function Classified(stem: string): WalName {
    if HasSuffix(stem, HISTORY) then History
    else if |stem| == 24 && AllHex(stem) then Segment(ToUpper(stem))
    else NotWal
  }

  function Normalized(path: string): WalName {
    Classified(Stem(Base(path)))
  }

  method IsHexName(base: string) returns (ok: bool)
    ensures ok <==> AllHex(base)
  {
    for i := 0 to |base|
      invariant AllHex(base[..i])
    {
      if !IsHex(base[i]) { return false; }
    }
    assert base[..|base|] == base;
    return true;
  }

  /** Rounds of stripping at most one of each suffix end in the name without any. */
  method NormalizeWALFilename(path: string) returns (r: WalName)
    ensures r == Normalized(path)
  {
    var base := Base(path);
    var stripping := true;
    while stripping
      invariant Stem(base) == Stem(Base(path))
      invariant !stripping ==> base == Stem(base)
      decreases stripping, |base|
    {
      var was := base;
      StemTrimmed(base, GZ);
      base := TrimSuffix(base, GZ);
      StemTrimmed(base, ZST);
      base := TrimSuffix(base, ZST);
      StemTrimmed(base, LZ4);
      base := TrimSuffix(base, LZ4);
      StemTrimmed(base, AES);
      base := TrimSuffix(base, AES);
      stripping := was != base;
    }
    if HasSuffix(base, HISTORY) { return History; }
    if |base| != 24 { return NotWal; }
    var hex := IsHexName(base);
    if !hex { return NotWal; }
    return Segment(ToUpper(base));
  }

  // ---- variants of one object have one normal form ----

  lemma {:induction false} TrimKeepsLast(s: string)
    requires s != "" && !IsSpace(s[|s| - 1])
    ensures TrimSpace(s) != "" && TrimSpace(s)[|TrimSpace(s)| - 1] == s[|s| - 1]
    ensures |TrimSpace(s)| <= |s| && s[|s| - |TrimSpace(s)|..] == TrimSpace(s)
  {
    if IsSpace(s[0]) {
      TrimKeepsLast(s[1..]);
      var t := TrimSpace(s);
      assert s[|s| - |t|..] == s[1..][|s[1..]| - |t|..];
    }
  }

  lemma {:induction false} TrimAppend(s: string, e: string)
    requires s != "" && !IsSpace(s[|s| - 1]) && e != "" && !IsSpace(e[|e| - 1])
    ensures TrimSpace(s + e) == TrimSpace(s) + e
  {
    if IsSpace(s[0]) {
      assert (s + e)[1..] == s[1..] + e;
      TrimAppend(s[1..], e);
    }
  }

  lemma RootHasNoTrailingSlash(path: string)
    requires IsRootStoragePath(path)
    ensures path != "" && path[|path| - 1] != '/'
  {
    if path != "" && path[|path| - 1] == '/' {
      TrimKeepsLast(path);
      CleanKeepsLast(TrimSpace(path));
    }
  }

  lemma CleanKeepsLast(t: string)
    requires t != "" && t[|t| - 1] == '/'
    ensures WithoutDot(t) == "" || '/' in WithoutDot(t)
  {
  }

  lemma {:induction false} AfterSlashAppend(s: string, e: string)
    requires '/' !in e
    ensures AfterSlash(s + e) == AfterSlash(s) + e
  {
    if e == "" {
      assert s + e == s;
    } else {
      var h := e[..|e| - 1];
      assert (s + e)[..|s + e| - 1] == s + h && (s + e)[|s + e| - 1] == e[|e| - 1];
      assert '/' !in h && e[|e| - 1] in e;
      AfterSlashAppend(s, h);
    }
  }

  lemma BaseAppend(path: string, e: string)
    requires path != "" && path[|path| - 1] != '/' && '/' !in e
    ensures Base(path + e) == Base(path) + e
    ensures Base(path) != "" && Base(path)[|Base(path)| - 1] == path[|path| - 1]
  {
    if e != "" { assert (path + e)[|path + e| - 1] == e[|e| - 1] && e[|e| - 1] in e; } else { assert path + e == path; }
    AfterSlashAppend(path, e);
  }

  lemma {:induction false} StemLast(s: string)
    requires s != "" && AllHex(Stem(s))
    ensures !IsSpace(s[|s| - 1])
  {
  }

  lemma ExtChars(alg: Algorithms, e: string)
    requires IsSupportedExt(alg, e)
    ensures '/' !in e && (e != "" ==> !IsSpace(e[|e| - 1]))
  {
  }

  /** An archived object below the boundary, as retention sees it. */
  predicate Doomed(path: string, boundary: string) {
    IsRootStoragePath(path) && Normalized(path).Segment? && WalBefore(Normalized(path).name, boundary)
  }

  /** Adding a suffix to the path of a segment changes neither its name nor its place at the root. */
  lemma VariantsAlike(alg: Algorithms, path: string, e: string)
    requires IsSupportedExt(alg, e) && IsRootStoragePath(path) && Normalized(path).Segment?
    ensures IsRootStoragePath(path + e) && Normalized(path + e) == Normalized(path)
  {
    ExtChars(alg, e);
    RootHasNoTrailingSlash(path);
    BaseAppend(path, e);
    StemAppended(Base(path), alg, e);
    StemLast(Base(path));
    if e == "" {
      assert path + e == path;
    } else {
      TrimAppend(path, e);
      var t := TrimSpace(path);
      assert WithoutDot(t) + e == WithoutDot(t + e) by { RootPrefix(t, e); }
    }
  }

  lemma RootPrefix(t: string, e: string)
    requires WithoutDot(t) != "" && '/' !in WithoutDot(t) && '/' !in e
    ensures WithoutDot(t + e) == WithoutDot(t) + e
  {
    if HasPrefix(t, "./") {
      assert HasPrefix(t + e, "./");
      assert (t + e)[2..] == t[2..] + e;
    } else {
      assert '/' !in t + e;
      PrefixMember(t + e, "./", 1);
    }
  }

  lemma PrefixMember(s: string, p: string, i: nat)
    requires i < |p|
    ensures HasPrefix(s, p) ==> p[i] in s
  {
  }

  // ---- names as the receiver writes them ----

  lemma NotASuffix(name: string, e: string)
    requires AllHex(name) && e != "" && e[0] == '.'
    ensures !HasSuffix(name, e)
  {
    SuffixStarts(name, e);
  }

  lemma SuffixStarts(s: string, e: string)
    requires e != ""
    ensures HasSuffix(s, e) ==> s[|s| - |e|] == e[0]
  {
  }

  lemma HexStem(name: string)
    requires AllHex(name)
    ensures Stem(name) == name && !HasSuffix(name, HISTORY)
  {
    NotASuffix(name, GZ);
    NotASuffix(name, ZST);
    NotASuffix(name, LZ4);
    NotASuffix(name, AES);
    NotASuffix(name, HISTORY);
  }

  lemma PlainBase(name: string)
    requires name != "" && '/' !in name
    ensures Base(name) == name
  {
    AfterSlashAppend("", name);
    assert "" + name == name && name[|name| - 1] in name;
  }

  lemma PlainRoot(name: string)
    requires name != "" && '/' !in name && !IsSpace(name[0]) && !IsSpace(name[|name| - 1])
    ensures IsRootStoragePath(name)
  {
    PrefixMember(name, "./", 1);
  }

  lemma UpperIsUpper(name: string)
    requires AllUpperHex(name)
    ensures ToUpper(name) == name
  {
  }

  /** A segment file name stands for itself, at the root and without suffixes. */
  lemma SegmentIsItself(name: string)
    requires IsXLogFileName(name)
    ensures IsRootStoragePath(name) && Normalized(name) == Segment(name)
  {
    assert IsHex(name[0]) && IsHex(name[|name| - 1]);
    PlainRoot(name);
    PlainBase(name);
    HexStem(name);
    UpperIsUpper(name);
  }

  // ---- what is never below a boundary ----

  lemma {:induction false} TrimKeeps(s: string, c: char)
    requires c in s && !IsSpace(c)
    ensures c in TrimSpace(s)
    decreases |s|
  {
    if IsSpace(s[0]) {
      assert s == [s[0]] + s[1..];
      TrimKeeps(s[1..], c);
    } else if IsSpace(s[|s| - 1]) {
      assert s == s[..|s| - 1] + [s[|s| - 1]];
      TrimKeeps(s[..|s| - 1], c);
    }
  }

  lemma {:induction false} TrimKeepsFirst(s: string)
    requires s != "" && !IsSpace(s[0])
    ensures TrimSpace(s) != "" && TrimSpace(s) <= s
    decreases |s|
  {
    if IsSpace(s[|s| - 1]) {
      TrimKeepsFirst(s[..|s| - 1]);
      assert s[..|s| - 1] <= s;
    }
  }

  /** An object in a directory is not at the root, and so never below a boundary. */
  lemma NestedIsNotDoomed(dir: string, rest: string, boundary: string)
    requires dir != "" && dir != "." && '/' !in dir && !IsSpace(dir[0])
    ensures !IsRootStoragePath(dir + "/" + rest) && !Doomed(dir + "/" + rest, boundary)
  {
    var path := dir + "/" + rest;
    assert path[|dir|] == '/' && path[0] == dir[0];
    TrimKeeps(path, '/');
    TrimKeepsFirst(path);
    NotHere(dir, rest);
    var t := TrimSpace(path);
    assert HasPrefix(t, "./") ==> HasPrefix(path, "./");
  }

  lemma NotHere(dir: string, rest: string)
    requires dir != "" && dir != "." && '/' !in dir
    ensures !HasPrefix(dir + "/" + rest, "./")
  {
    if |dir| > 1 {
      assert (dir + "/" + rest)[1] == dir[1] && dir[1] in dir;
    } else {
      assert (dir + "/" + rest)[0] == dir[0] && dir == [dir[0]];
    }
  }

  /** The suffixes that stripping takes off, in any number and order. */
  predicate OnlyExts(s: string)
    decreases |s|
  {
    s == "" || exists e :: e in {GZ, ZST, LZ4, AES} && HasSuffix(s, e) && OnlyExts(s[..|s| - |e|])
  }

  lemma OneMoreExt(rest: string, e: string)
    requires OnlyExts(rest) && e in {GZ, ZST, LZ4, AES}
    ensures OnlyExts(rest + e)
  {
    SuffixAppended(rest, e);
    assert (rest + e)[..|rest + e| - |e|] == rest;
  }

  lemma {:induction false} StemIsPrefix(s: string) returns (exts: string)
    ensures s == Stem(s) + exts && OnlyExts(exts)
    decreases |s|
  {
    if e :| e in {GZ, ZST, LZ4, AES} && HasSuffix(s, e) {
      SuffixSplits(s, e);
      StemTrimmed(s, e);
      var rest := StemIsPrefix(TrimSuffix(s, e));
      OneMoreExt(rest, e);
      Grouped(Stem(s), rest, e);
      exts := rest + e;
    } else {
      exts := "";
      assert Stem(s) + "" == s;
    }
  }

  lemma SuffixGrows(h: string, a: string, c: string)
    requires HasSuffix(h, a)
    ensures HasSuffix(h + c, a + c)
  {
    SuffixSplits(h, a);
    var lead := TrimSuffix(h, a);
    Grouped(lead, a, c);
    SuffixAppended(lead, a + c);
  }

  lemma {:induction false} AfterSlashEnds(s: string)
    ensures AfterSlash(s) == s || HasSuffix(s, "/" + AfterSlash(s))
  {
    if s == "" {
    } else if s[|s| - 1] == '/' {
      assert s == s[..|s| - 1] + "/" && "/" + "" == "/";
      SuffixAppended(s[..|s| - 1], "/");
    } else {
      var h, c := s[..|s| - 1], [s[|s| - 1]];
      assert s == h + c;
      AfterSlashEnds(h);
      var a := AfterSlash(h);
      if a != h {
        SuffixGrows(h, "/" + a, c);
        Grouped("/", a, c);
      }
    }
  }

  /** What is below a boundary ends in 24 hexadecimal digits and suffixes, after a slash or from the beginning. */
  lemma DoomedIsSegment(path: string, boundary: string) returns (name: string, exts: string)
    requires Doomed(path, boundary)
    ensures |name| == 24 && AllHex(name) && OnlyExts(exts)
    ensures path == name + exts || HasSuffix(path, "/" + (name + exts))
  {
    RootHasNoTrailingSlash(path);
    AfterSlashEnds(path);
    name := Stem(Base(path));
    exts := StemIsPrefix(Base(path));
  }

  /** History files stay, under any suffix. */
  lemma HistoryIsNotDoomed(name: string, alg: Algorithms, e: string, boundary: string)
    requires '/' !in name && IsSupportedExt(alg, e)
    ensures !Doomed(name + HISTORY + e, boundary)
  {
    var file := name + HISTORY;
    var path := file + e;
    ExtChars(alg, e);
    assert file[|file| - 1] == 'y';
    BaseAppend(file, e);
    PlainBase(file);
    StemAppended(file, alg, e);
    NotTransformed(file);
    SuffixAppended(name, HISTORY);
  }

  lemma NotTransformed(s: string)
    requires s != "" && s[|s| - 1] == 'y'
    ensures Stem(s) == s
  {
    LastDiffers(s, GZ);
    LastDiffers(s, ZST);
    LastDiffers(s, LZ4);
    LastDiffers(s, AES);
  }

  lemma LastDiffers(s: string, e: string)
    requires s != "" && e != "" && s[|s| - 1] != e[|e| - 1]
    ensures !HasSuffix(s, e)
  {
  }

  // ---- the order of names ----

  /** strings.ToUpper and strings.TrimSpace on both sides, then plain string order. */
  predicate WalBefore(name: string, boundary: string) {
    var a, b := ToUpper(TrimSpace(name)), ToUpper(TrimSpace(boundary));
    a != "" && b != "" && Less(a, b)
  }

  predicate Earlier(p: SegName, q: SegName) {
    p.tli < q.tli || (p.tli == q.tli && p.segno < q.segno)
  }

  lemma PartOrder(a: string, b: string)
    requires AllHex(a) && AllHex(b) && |a| == |b|
    ensures Less(ToUpper(a), ToUpper(b)) <==> Value(a) < Value(b)
    ensures ToUpper(a) == ToUpper(b) <==> Value(a) == Value(b)
  {
    UpperValue(a);
    UpperValue(b);
    NumeralOrder(ToUpper(a), ToUpper(b));
  }

  lemma FirstPartOrder(a: string, u: string, b: string, v: string)
    requires AllHex(a) && AllHex(b) && |a| == |b|
    ensures Less(ToUpper(a) + u, ToUpper(b) + v) <==> Value(a) < Value(b) || (Value(a) == Value(b) && Less(u, v))
  {
    PartOrder(a, b);
    LessJoin(ToUpper(a), u, ToUpper(b), v);
  }

  lemma UpperParts(s: string)
    requires |s| == 24
    ensures ToUpper(s) == ToUpper(s[..8]) + (ToUpper(s[8..16]) + ToUpper(s[16..24]))
  {
  }

  lemma ThreePartOrder(a: string, b: string)
    requires ThreeHexParts(a) && ThreeHexParts(b)
    ensures Less(ToUpper(a), ToUpper(b)) <==>
      Value(a[..8]) < Value(b[..8]) || (Value(a[..8]) == Value(b[..8]) &&
        (Value(a[8..16]) < Value(b[8..16]) ||
          (Value(a[8..16]) == Value(b[8..16]) && Value(a[16..24]) < Value(b[16..24]))))
  {
    UpperParts(a);
    UpperParts(b);
    FirstPartOrder(a[..8], ToUpper(a[8..16]) + ToUpper(a[16..24]), b[..8], ToUpper(b[8..16]) + ToUpper(b[16..24]));
    FirstPartOrder(a[8..16], ToUpper(a[16..24]), b[8..16], ToUpper(b[16..24]));
    PartOrder(a[16..24], b[16..24]);
  }

  /** The textual order of segment names is the order of timeline, then segment number. */
  lemma NameOrder(a: string, b: string, w: nat)
    requires 0 < w <= WORD && IsSegmentName(a, w) && IsSegmentName(b, w)
    ensures WalBefore(a, b) <==> Earlier(XLogFromFileName(a, w).value, XLogFromFileName(b, w).value)
  {
    var n := SegmentsPerXLogId(w);
    ThreePartOrder(a, b);
    Lexicographic(Value(a[8..16]), Value(a[16..24]), Value(b[8..16]), Value(b[16..24]), n);
    assert TrimSpace(a) == a && TrimSpace(b) == b;
  }

  /** ... in particular for names as the receiver writes them. */
  lemma FileNameOrder(t: nat, s: nat, t': nat, s': nat, w: nat)
    requires IsValidWalSegSize(w) && InRange(t, s, w) && InRange(t', s', w)
    ensures WalBefore(XLogFileName(t, s, w), XLogFileName(t', s', w)) <==> Earlier(SegName(t, s), SegName(t', s'))
  {
    NameReadBack(t, s, w);
    NameReadBack(t', s', w);
    NameOrder(XLogFileName(t, s, w), XLogFileName(t', s', w), w);
  }

  lemma BoundaryOrder(name: string, b: string, c: string)
    requires ToUpper(TrimSpace(name)) != "" && ToUpper(TrimSpace(b)) != ""
    requires !WalBefore(name, b) && !WalBefore(b, c)
    ensures !WalBefore(name, c)
  {
    LessNotTransitive(ToUpper(TrimSpace(name)), ToUpper(TrimSpace(b)), ToUpper(TrimSpace(c)));
  }
}
