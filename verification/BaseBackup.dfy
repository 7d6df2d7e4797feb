/** Receiving a base backup: one message stream cut into archives and a manifest, and the marker object that
  * says the backup is complete. */
module BaseBackup {
  import opened Bytes
  import opened Faults
  import opened Strings

  datatype Msg =
    | CopyOut
    | NewArchive(body: string)
    | Data(payload: seq<byte>)
    | ManifestStart
    | Progress
    | UnknownData
    | CopyDone
    | Other

  // ---- archives and manifest of a message sequence ----

  /** A C string and what follows it. */
  function ReadCString(buf: string): (r: Option<(string, string)>)
    ensures r.None? <==> '\0' !in buf
    ensures r.Some? ==> '\0' !in r.value.0 && buf == r.value.0 + "\0" + r.value.1
  {
    if buf == "" then None
    else if buf[0] == '\0' then Some(("", buf[1..]))
    else
      var r := ReadCString(buf[1..]);
      if r.None? then None else Some(([buf[0]] + r.value.0, r.value.1))
  }

  /** An archive name and a tablespace path must both be there; only the name is used. */
  function ArchiveName(body: string): Option<string> {
    var name := ReadCString(body);
    if name.None? || ReadCString(name.value.1).None? then None
    else Some(if HasPrefix(name.value.0, "./") then name.value.0[2..] else name.value.0)
  }

  /** The text before the first zero byte at k, without a leading "./". */
  function PlainName(body: string, k: nat): string
    requires k < |body|
  {
    if |body[..k]| >= 2 && body[0] == '.' && body[1] == '/' then body[2..k] else body[..k]
  }

  predicate FirstZero(body: string, k: nat) {
    k < |body| && body[k] == '\0' && forall j :: 0 <= j < k ==> body[j] != '\0'
  }

  /** A message names an archive exactly if it holds two zero bytes, and then by what stands before the first. */
  lemma ArchiveNameExactly(body: string)
    ensures ArchiveName(body).Some? <==> exists k, j :: 0 <= k < j < |body| && body[k] == body[j] == '\0'
    ensures forall k: nat :: FirstZero(body, k) && ArchiveName(body).Some? ==>
      ArchiveName(body).value == PlainName(body, k)
  {
    var name := ReadCString(body);
    if name.Some? {
      FirstZeroRead(body, name.value.0, name.value.1);
      var path := ReadCString(name.value.1);
      if path.Some? { SecondZero(body, name.value.0, name.value.1, path.value.0, path.value.1); }
    }
  }

  lemma FirstZeroRead(body: string, name: string, rest: string)
    requires body == name + "\0" + rest && '\0' !in name
    ensures FirstZero(body, |name|) && body[..|name|] == name && rest == body[|name| + 1..]
    ensures forall k: nat :: FirstZero(body, k) ==> k == |name|
    ensures forall k, j :: 0 <= k < j < |body| && body[k] == body[j] == '\0' ==> '\0' in rest
  {
    forall j | 0 <= j < |name| ensures body[j] != '\0' { assert body[j] == name[j]; }
    forall k, j | 0 <= k < j < |body| && body[k] == body[j] == '\0' ensures '\0' in rest {
      assert j > |name| && rest[j - |name| - 1] == body[j];
    }
  }

  lemma SecondZero(body: string, name: string, rest: string, path: string, after: string)
    requires body == name + "\0" + rest && rest == path + "\0" + after
    ensures exists k, j :: 0 <= k < j < |body| && body[k] == body[j] == '\0'
  {
    var k, j := |name|, |name| + 1 + |path|;
    assert rest[|path|] == '\0' && body[j] == rest[|path|] && body[k] == '\0';
  }

  /** In particular, a name and a path come back as they were sent. */
  lemma ArchiveNameOf(name: string, path: string, rest: string)
    requires '\0' !in name && '\0' !in path
    ensures var body := name + "\0" + path + "\0" + rest;
      ArchiveName(body) == Some(if "./" <= name then name[2..] else name)
  {
    var tail := path + "\0" + rest;
    var body := name + "\0" + path + "\0" + rest;
    assert body == name + "\0" + tail;
    FirstZeroRead(body, name, tail);
    SecondZero(body, name, tail, path, rest);
    ArchiveNameExactly(body);
    assert |name| >= 2 ==> body[0] == name[0] && body[1] == name[1] && body[2..|name|] == name[2..];
    assert "./" <= name <==> |name| >= 2 && name[0] == '.' && name[1] == '/';
  }

  predicate IsMark(m: Msg) { m.NewArchive? || m.ManifestStart? }

  function PayloadOf(m: Msg): seq<byte> {
    if m.Data? then m.payload else []
  }

  /** The data messages from i up to, and not including, j. */
  function Payloads(msgs: seq<Msg>, i: nat, j: nat): seq<byte>
    requires j <= |msgs|
    decreases j
  {
    if i >= j then [] else Payloads(msgs, i, j - 1) + PayloadOf(msgs[j - 1])
  }

  /** The next mark at or after i, or n. */
  function EndOf(msgs: seq<Msg>, i: nat, n: nat): (e: nat)
    requires i <= n <= |msgs|
    ensures i <= e <= n
    ensures forall j :: i <= j < e ==> !IsMark(msgs[j])
    ensures e < n ==> IsMark(msgs[e])
    decreases n - i
  {
    if i == n || IsMark(msgs[i]) then i else EndOf(msgs, i + 1, n)
  }

  /** What the mark at i governs: the data up to the next mark or the end. */
  function Section(msgs: seq<Msg>, i: nat, n: nat): seq<byte>
    requires i < n <= |msgs|
  {
    Payloads(msgs, i + 1, EndOf(msgs, i + 1, n))
  }

  /** Sum of the lengths of all archives that start at or after i. */
  function ArchiveBytes(msgs: seq<Msg>, i: nat, n: nat): nat
    requires i <= n <= |msgs|
    decreases n - i
  {
    if i == n then 0
    else (if msgs[i].NewArchive? then |Section(msgs, i, n)| else 0) + ArchiveBytes(msgs, i + 1, n)
  }

  /** The last mark before n, or -1. */
  function LastMark(msgs: seq<Msg>, n: nat): (m: int)
    requires n <= |msgs|
    ensures -1 <= m < n
    ensures m >= 0 ==> IsMark(msgs[m])
    ensures forall j :: m < j < n ==> !IsMark(msgs[j])
  {
    if n == 0 then -1 else if IsMark(msgs[n - 1]) then n - 1 else LastMark(msgs, n - 1)
  }

  /** The last manifest start before n, or -1. */
  function LastManifest(msgs: seq<Msg>, n: nat): (m: int)
    requires n <= |msgs|
    ensures -1 <= m < n
    ensures m >= 0 ==> msgs[m].ManifestStart?
    ensures forall j :: m < j < n ==> !msgs[j].ManifestStart?
  {
    if n == 0 then -1 else if msgs[n - 1].ManifestStart? then n - 1 else LastManifest(msgs, n - 1)
  }

  function Manifest(msgs: seq<Msg>, n: nat): seq<byte>
    requires n <= |msgs|
  {
    if LastManifest(msgs, n) < 0 then [] else Section(msgs, LastManifest(msgs, n), n)
  }

  /** One more message extends the section of the last mark and no other. */
  lemma SectionStep(msgs: seq<Msg>, i: nat, n: nat)
    requires i < n < |msgs| && IsMark(msgs[i])
    ensures Section(msgs, i, n + 1) ==
      if i == LastMark(msgs, n) && !IsMark(msgs[n]) then Section(msgs, i, n) + PayloadOf(msgs[n])
      else Section(msgs, i, n)
  {
  }

  lemma {:induction false} ArchiveBytesStep(msgs: seq<Msg>, i: nat, n: nat)
    requires i <= n < |msgs|
    ensures var m := LastMark(msgs, n);
      ArchiveBytes(msgs, i, n + 1) == ArchiveBytes(msgs, i, n)
        + if m >= i && msgs[m].NewArchive? && !IsMark(msgs[n]) then |PayloadOf(msgs[n])| else 0
    decreases n - i
  {
    if i == n {
      assert ArchiveBytes(msgs, n + 1, n + 1) == 0;
      assert Section(msgs, n, n + 1) == [];
    } else {
      ArchiveBytesStep(msgs, i + 1, n);
      if msgs[i].NewArchive? { SectionStep(msgs, i, n); }
    }
  }

  // ---- storage ----

  class ObjectStore {
    const reliable: bool
    var objects: map<string, seq<byte>>

    constructor (reliable: bool, objects: map<string, seq<byte>>)
      ensures this.reliable == reliable && this.objects == objects
    {
      this.reliable, this.objects := reliable, objects;
    }

    /** A failed Put may leave anything under the name. */
    method Put(path: string, data: seq<byte>) returns (ok: bool)
      modifies this
      ensures ok ==> objects == old(objects)[path := data]
      ensures objects - {path} == old(objects) - {path}
      ensures reliable ==> ok
    {
      ok := Attempt(reliable);
      var touched: bool, partial: seq<byte> := *, *;
      if ok {
        objects := objects[path := data];
      } else if touched {
        objects := objects[path := partial];
      }
    }
  }

  /** An archive on its way to storage: a background Put reads from a pipe until the writer closes it. */
  class StreamingFile {
    const store: ObjectStore
    const path: string
    var piped: seq<byte>
    var putErr: bool
    var closed: bool

    constructor (store: ObjectStore, path: string)
      ensures this.store == store && this.path == path && piped == [] && !putErr && !closed
    {
      this.store, this.path := store, path;
      piped, putErr, closed := [], false, false;
    }

    /** The Put may fail at any time unless the store is reliable; after that nothing more is read from the pipe. */
    method Write(p: seq<byte>) returns (ok: bool)
      modifies this
      ensures closed == old(closed) && (old(putErr) ==> putErr)
      ensures ok ==> !putErr && piped == old(piped) + p
      ensures store.reliable && !old(putErr) && !old(closed) ==> ok
    {
      var reading := Attempt(store.reliable);
      putErr := putErr || !reading;
      if putErr || closed { return false; }
      piped := piped + p;
      ok := Attempt(store.reliable);
      putErr := !ok;
    }

    /** Waits for the Put. The first Close returns without an error only if all that was written is stored. */
    method Close() returns (ok: bool)
      modifies this, store
      ensures closed && (old(closed) ==> ok && store.objects == old(store.objects))
      ensures !old(closed) && ok ==> !old(putErr) && store.objects == old(store.objects)[path := old(piped)]
      ensures store.objects - {path} == old(store.objects) - {path}
      ensures store.reliable && !old(putErr) ==> ok
    {
      if closed { return true; }
      closed := true;
      var partial: seq<byte> := *;
      if putErr {
        var touched: bool := *;
        if touched { store.objects := store.objects[path := partial]; }
        return false;
      }
      ok := store.Put(path, piped);
      putErr := !ok;
    }
  }

  // ---- the message loop ----

  datatype Info<!M> = Info(bytesTotal: nat, manifest: Option<M>)

  predicate DistinctNames(msgs: seq<Msg>) {
    forall i, j ::
      0 <= i < j < |msgs| && msgs[i].NewArchive? && msgs[j].NewArchive? && ArchiveName(msgs[i].body).Some? ==>
      ArchiveName(msgs[i].body) != ArchiveName(msgs[j].body)
  }

  /** Names of archives among the first n messages. */
  function NamesBefore(msgs: seq<Msg>, n: nat): set<string>
    requires n <= |msgs|
  {
    set i | 0 <= i < n && msgs[i].NewArchive? && ArchiveName(msgs[i].body).Some? :: ArchiveName(msgs[i].body).value
  }

  /** Everything in storage but the archives. */
  function Others(msgs: seq<Msg>, objects: map<string, seq<byte>>): map<string, seq<byte>> {
    objects - NamesBefore(msgs, |msgs|)
  }

  /** Every archive that starts before n, other than one at skip, is stored in full. */
  ghost predicate ArchivesStored(msgs: seq<Msg>, n: nat, skip: int, objects: map<string, seq<byte>>)
    requires n <= |msgs|
  {
    forall i :: 0 <= i < n && msgs[i].NewArchive? && i != skip ==>
      var name := ArchiveName(msgs[i].body);
      name.Some? && name.value in objects && objects[name.value] == Section(msgs, i, n)
  }

  /** For every archive message among the first n: the object named by the text before the first zero byte of the
    * message holds the section. */
  ghost predicate StoredByName(msgs: seq<Msg>, n: nat, objects: map<string, seq<byte>>)
    requires n <= |msgs|
  {
    forall i, k: nat :: 0 <= i < n && msgs[i].NewArchive? && FirstZero(msgs[i].body, k) ==>
      var key := PlainName(msgs[i].body, k);
      key in objects && objects[key] == Section(msgs, i, n)
  }

  lemma StoredIsByName(msgs: seq<Msg>, n: nat, objects: map<string, seq<byte>>)
    requires n <= |msgs| && ArchivesStored(msgs, n, -1, objects)
    ensures StoredByName(msgs, n, objects)
  {
    forall i, k: nat | 0 <= i < n && msgs[i].NewArchive? && FirstZero(msgs[i].body, k)
      ensures var key := PlainName(msgs[i].body, k);
        key in objects && objects[key] == Section(msgs, i, n)
    {
      ArchiveNameExactly(msgs[i].body);
    }
  }

  /** How far the data, the manifest and the byte count have come after i messages. */
  ghost predicate InStep(msgs: seq<Msg>, i: nat, inManifest: bool, manifest: seq<byte>, total: nat)
    requires i <= |msgs|
  {
    && manifest == Manifest(msgs, i) && total == ArchiveBytes(msgs, 0, i)
    && (inManifest <==> LastMark(msgs, i) >= 0 && msgs[LastMark(msgs, i)].ManifestStart?)
  }

  predicate Streaming(msgs: seq<Msg>, i: nat)
    requires i <= |msgs|
  {
    LastMark(msgs, i) >= 0 && msgs[LastMark(msgs, i)].NewArchive?
  }

  lemma MarkStep(msgs: seq<Msg>, i: nat, inManifest: bool, manifest: seq<byte>, total: nat)
    requires i < |msgs| && IsMark(msgs[i]) && InStep(msgs, i, inManifest, manifest, total)
    ensures msgs[i].NewArchive? ==> InStep(msgs, i + 1, false, manifest, total)
    ensures msgs[i].ManifestStart? ==> InStep(msgs, i + 1, true, [], total)
    ensures Section(msgs, i, i + 1) == []
  {
    ArchiveBytesStep(msgs, 0, i);
    assert EndOf(msgs, i + 1, i + 1) == i + 1;
    var k := LastManifest(msgs, i);
    if k >= 0 { SectionStep(msgs, k, i); }
  }

  lemma PlainStep(msgs: seq<Msg>, i: nat, inManifest: bool, manifest: seq<byte>, total: nat)
    requires i < |msgs| && !IsMark(msgs[i]) && InStep(msgs, i, inManifest, manifest, total)
    ensures InStep(msgs, i + 1, inManifest, manifest + if inManifest then PayloadOf(msgs[i]) else [],
                   total + if Streaming(msgs, i) then |PayloadOf(msgs[i])| else 0)
  {
    ArchiveBytesStep(msgs, 0, i);
    var k := LastManifest(msgs, i);
    assert inManifest ==> k == LastMark(msgs, i);
    if k >= 0 { SectionStep(msgs, k, i); }
    assert manifest + [] == manifest;
  }

  /** Completed archives are not touched by later messages. */
  lemma StoredStep(msgs: seq<Msg>, i: nat, objects: map<string, seq<byte>>)
    requires i < |msgs|
    requires ArchivesStored(msgs, i, if Streaming(msgs, i) then LastMark(msgs, i) else -1, objects)
    requires IsMark(msgs[i]) ==> ArchivesStored(msgs, i, -1, objects)
    ensures ArchivesStored(msgs, i + 1, if Streaming(msgs, i + 1) then LastMark(msgs, i + 1) else -1, objects)
  {
    forall j | 0 <= j < i && msgs[j].NewArchive? ensures IsMark(msgs[j]) {
      SectionStep(msgs, j, i);
    }
    forall j | 0 <= j < i && msgs[j].NewArchive? && (IsMark(msgs[i]) || j != LastMark(msgs, i))
      ensures Section(msgs, j, i + 1) == Section(msgs, j, i)
    {
      SectionStep(msgs, j, i);
    }
  }

  /** Storing the archive that was being written completes them all. */
  lemma ClosedStep(msgs: seq<Msg>, i: nat, before: map<string, seq<byte>>, after: map<string, seq<byte>>)
    requires i <= |msgs| && DistinctNames(msgs) && Streaming(msgs, i)
    requires ArchivesStored(msgs, i, LastMark(msgs, i), before)
    requires var name := ArchiveName(msgs[LastMark(msgs, i)].body);
      name.Some? && after == before[name.value := Section(msgs, LastMark(msgs, i), i)]
    ensures ArchivesStored(msgs, i, -1, after)
  {
  }

  lemma OutsideOf(before: map<string, seq<byte>>, after: map<string, seq<byte>>, k: string, names: set<string>)
    requires k in names && after - {k} == before - {k}
    ensures after - names == before - names
  {
    assert after - names == (after - {k}) - names && before - names == (before - {k}) - names;
  }

  /** A message that the receiver does not accept after the first i. */
  predicate Refused(msgs: seq<Msg>, i: nat)
    requires i < |msgs|
  {
    || msgs[i].Other?
    || (msgs[i].NewArchive? && ArchiveName(msgs[i].body).None?)
    || (msgs[i].Data? && LastMark(msgs, i) < 0)
  }

  /** The first n messages are accepted, and none of them ends the stream. */
  predicate AcceptedTo(msgs: seq<Msg>, n: nat)
    requires n <= |msgs|
  {
    forall i :: 0 <= i < n ==> !Refused(msgs, i) && !msgs[i].CopyDone?
  }

  /** reliable says that the connection does not fail. */
  class BaseBackup {
    const reliable: bool
    const timestamp: string
    const store: ObjectStore

    constructor (reliable: bool, timestamp: string, store: ObjectStore)
      ensures this.reliable == reliable && this.timestamp == timestamp && this.store == store
    {
      this.reliable, this.timestamp, this.store := reliable, timestamp, store;
    }

    /** After i messages: earlier archives are stored, and an archive being written has got its data so far. */
    ghost predicate FilesInStep(curFile: StreamingFile?, msgs: seq<Msg>, i: nat)
      requires i <= |msgs|
      reads store, curFile
    {
      && (curFile != null <==> Streaming(msgs, i))
      && ArchivesStored(msgs, i, if Streaming(msgs, i) then LastMark(msgs, i) else -1, store.objects)
      && (curFile != null ==>
           && curFile.store == store && !curFile.closed && (store.reliable ==> !curFile.putErr)
           && ArchiveName(msgs[LastMark(msgs, i)].body) == Some(curFile.path)
           && curFile.piped == Section(msgs, LastMark(msgs, i), i))
    }

    /** Closes the archive being written, if any; then every archive started so far is stored. */
    method CloseCurrent(curFile: StreamingFile?, ghost msgs: seq<Msg>, ghost i: nat) returns (ok: bool)
      requires i <= |msgs| && DistinctNames(msgs) && FilesInStep(curFile, msgs, i)
      modifies store, curFile
      ensures ok ==> ArchivesStored(msgs, i, -1, store.objects)
      ensures store.reliable ==> ok
      ensures Others(msgs, store.objects) == Others(msgs, old(store.objects))
    {
      ok := true;
      if curFile != null {
        ghost var before := store.objects;
        assert curFile.path in NamesBefore(msgs, |msgs|);
        ok := curFile.Close();
        OutsideOf(before, store.objects, curFile.path, NamesBefore(msgs, |msgs|));
        if ok { ClosedStep(msgs, i, before, store.objects); }
      }
    }

    /** A message that starts a new archive or the manifest. */
    method StartSection(curFile: StreamingFile?, msgs: seq<Msg>, i: nat) returns (file: StreamingFile?, ok: bool)
      requires i < |msgs| && IsMark(msgs[i]) && DistinctNames(msgs) && FilesInStep(curFile, msgs, i)
      modifies store, curFile
      ensures ok ==> FilesInStep(file, msgs, i + 1) && (file != null ==> fresh(file)) && !Refused(msgs, i)
      ensures store.reliable && !Refused(msgs, i) ==> ok
      ensures Others(msgs, store.objects) == Others(msgs, old(store.objects))
    {
      file := null;
      ok := CloseCurrent(curFile, msgs, i);
      if !ok { return; }
      StoredStep(msgs, i, store.objects);
      assert EndOf(msgs, i + 1, i + 1) == i + 1;
      if msgs[i].NewArchive? {
        var name := ArchiveName(msgs[i].body);
        if name.None? { return null, false; }
        file := new StreamingFile(store, name.value);
      }
    }

    /** Archive data; on an error the archive is closed. */
    method WriteArchive(curFile: StreamingFile, msgs: seq<Msg>, i: nat) returns (ok: bool)
      requires i < |msgs| && msgs[i].Data? && DistinctNames(msgs) && FilesInStep(curFile, msgs, i)
      modifies store, curFile
      ensures ok ==> FilesInStep(curFile, msgs, i + 1)
      ensures store.reliable ==> ok
      ensures Others(msgs, store.objects) == Others(msgs, old(store.objects))
    {
      ok := curFile.Write(msgs[i].payload);
      if ok {
        StoredStep(msgs, i, store.objects);
        SectionStep(msgs, LastMark(msgs, i), i);
      } else {
        ghost var before := store.objects;
        assert curFile.path in NamesBefore(msgs, |msgs|);
        var closed := curFile.Close();
        OutsideOf(before, store.objects, curFile.path, NamesBefore(msgs, |msgs|));
      }
    }

    /** Messages without archive data leave the files in step. */
    lemma FilesUnmoved(curFile: StreamingFile?, msgs: seq<Msg>, i: nat)
      requires i < |msgs| && !IsMark(msgs[i]) && FilesInStep(curFile, msgs, i)
      requires curFile == null || PayloadOf(msgs[i]) == []
      ensures FilesInStep(curFile, msgs, i + 1)
    {
      StoredStep(msgs, i, store.objects);
      if curFile != null {
        SectionStep(msgs, LastMark(msgs, i), i);
        assert curFile.piped + [] == curFile.piped;
      }
    }

    /** Data go to the manifest or to the current archive. */
    method TakeData(curFile: StreamingFile?, msgs: seq<Msg>, i: nat, inManifest: bool, manifestBuf: seq<byte>,
                    totalBytes: nat)
      returns (ok: bool, manifest: seq<byte>, total: nat)
      requires i < |msgs| && msgs[i].Data? && DistinctNames(msgs) && FilesInStep(curFile, msgs, i)
      requires InStep(msgs, i, inManifest, manifestBuf, totalBytes)
      modifies store, curFile
      ensures Others(msgs, store.objects) == Others(msgs, old(store.objects))
      ensures ok ==> InStep(msgs, i + 1, inManifest, manifest, total) && FilesInStep(curFile, msgs, i + 1)
      ensures ok ==> !Refused(msgs, i)
      ensures store.reliable && !Refused(msgs, i) ==> ok
    {
      manifest, total := manifestBuf, totalBytes;
      PlainStep(msgs, i, inManifest, manifestBuf, totalBytes);
      if inManifest {
        FilesUnmoved(curFile, msgs, i);
        manifest := manifestBuf + msgs[i].payload;
        return true, manifest, total;
      }
      if curFile == null { return false, manifest, total; }
      ok := WriteArchive(curFile, msgs, i);
      total := totalBytes + |msgs[i].payload|;
    }

    lemma PassOver(curFile: StreamingFile?, msgs: seq<Msg>, i: nat, inManifest: bool, manifestBuf: seq<byte>,
                   totalBytes: nat)
      requires i < |msgs| && !IsMark(msgs[i]) && !msgs[i].Data? && FilesInStep(curFile, msgs, i)
      requires InStep(msgs, i, inManifest, manifestBuf, totalBytes)
      ensures InStep(msgs, i + 1, inManifest, manifestBuf, totalBytes) && FilesInStep(curFile, msgs, i + 1)
    {
      PlainStep(msgs, i, inManifest, manifestBuf, totalBytes);
      FilesUnmoved(curFile, msgs, i);
      assert manifestBuf + [] == manifestBuf;
    }

    /** The first i messages have been accepted and processed. */
    ghost predicate Going(curFile: StreamingFile?, msgs: seq<Msg>, i: nat, inManifest: bool, manifestBuf: seq<byte>,
                          totalBytes: nat)
      requires i <= |msgs|
      reads store, curFile
    {
      InStep(msgs, i, inManifest, manifestBuf, totalBytes) && FilesInStep(curFile, msgs, i) && AcceptedTo(msgs, i)
    }

    /** One turn of the message loop. */
    method TakeMessage(curFile: StreamingFile?, msgs: seq<Msg>, i: nat, inManifest: bool, manifestBuf: seq<byte>,
                       totalBytes: nat)
      returns (ok: bool, file: StreamingFile?, inside: bool, manifest: seq<byte>, total: nat)
      requires i < |msgs| && !msgs[i].CopyDone? && DistinctNames(msgs)
      requires Going(curFile, msgs, i, inManifest, manifestBuf, totalBytes)
      modifies store, curFile
      ensures Others(msgs, store.objects) == Others(msgs, old(store.objects))
      ensures ok ==> Going(file, msgs, i + 1, inside, manifest, total)
      ensures ok ==> file == null || file == curFile || fresh(file)
      ensures store.reliable && !Refused(msgs, i) ==> ok
    {
      file, inside, manifest, total := curFile, inManifest, manifestBuf, totalBytes;
      if IsMark(msgs[i]) {
        MarkStep(msgs, i, inManifest, manifestBuf, totalBytes);
        file, ok := StartSection(curFile, msgs, i);
        inside := msgs[i].ManifestStart?;
        if inside { manifest := []; }
      } else if msgs[i].Data? {
        ok, manifest, total := TakeData(curFile, msgs, i, inManifest, manifestBuf, totalBytes);
      } else if msgs[i].Other? {
        ok := false;
      } else {
        PassOver(curFile, msgs, i, inManifest, manifestBuf, totalBytes);
        ok := true;
      }
    }

    lemma Beginning(msgs: seq<Msg>)
      ensures Going(null, msgs, 0, false, [], 0)
    {
    }

    /** Messages up to the end of the stream. */
    method TakeAll(msgs: seq<Msg>)
      returns (ended: bool, ghost n: nat, file: StreamingFile?, inside: bool, manifest: seq<byte>, total: nat)
      requires DistinctNames(msgs)
      modifies store
      ensures n <= |msgs| && AcceptedTo(msgs, n) && Others(msgs, store.objects) == Others(msgs, old(store.objects))
      ensures ended ==> n < |msgs| && msgs[n].CopyDone? && Going(file, msgs, n, inside, manifest, total)
      ensures file != null ==> fresh(file)
      ensures reliable && store.reliable && n < |msgs| ==> ended || Refused(msgs, n)
    {
      n, file, inside, manifest, total := 0, null, false, [], 0;
      Beginning(msgs);
      for i := 0 to |msgs|
        invariant Going(file, msgs, i, inside, manifest, total) && (file != null ==> fresh(file))
        invariant Others(msgs, store.objects) == Others(msgs, old(store.objects))
      {
        n := i;
        var received := Attempt(reliable);
        if !received {
          var closed := CloseCurrent(file, msgs, i);
          return false, i, null, inside, manifest, total;
        }
        if msgs[i].CopyDone? { return true, i, file, inside, manifest, total; }
        var ok;
        ok, file, inside, manifest, total := TakeMessage(file, msgs, i, inside, manifest, total);
        if !ok { return false, i, null, inside, manifest, total; }
      }
      return false, |msgs|, null, inside, manifest, total;
    }

    /** The end of the copy stream: the last archive is completed and the manifest parsed. */
    method FinishStream<M>(curFile: StreamingFile?, ghost msgs: seq<Msg>, ghost i: nat, ghost inManifest: bool,
                           manifestBuf: seq<byte>, totalBytes: nat, parse: seq<byte> -> Option<M>)
      returns (r: Option<Info<M>>)
      requires i < |msgs| && DistinctNames(msgs) && FilesInStep(curFile, msgs, i)
      requires InStep(msgs, i, inManifest, manifestBuf, totalBytes)
      modifies store, curFile
      ensures Others(msgs, store.objects) == Others(msgs, old(store.objects))
      ensures r.Some? ==> ArchivesStored(msgs, i, -1, store.objects) && r.value.bytesTotal == ArchiveBytes(msgs, 0, i)
      ensures r.Some? ==> r.value.manifest == if Manifest(msgs, i) == [] then None else parse(Manifest(msgs, i))
      ensures reliable && store.reliable ==> (r.Some? <==> Manifest(msgs, i) == [] || parse(Manifest(msgs, i)).Some?)
    {
      var ok := CloseCurrent(curFile, msgs, i);
      var finished := Attempt(reliable);
      if !ok || !finished { return None; }
      var manifest := if manifestBuf == [] then None else parse(manifestBuf);
      if manifestBuf != [] && manifest.None? { return None; }
      r := Some(Info(totalBytes, manifest));
    }

    /** On success, after n messages: each archive is stored under its name and equals the data messages from
      * its start to the next archive, manifest or end; bytesTotal is the sum of their lengths; the manifest is
      * the data since the last manifest start. Whatever happens, no other object changes. If nothing fails, it
      * succeeds exactly when an end of the stream comes before a message that is refused, and the manifest can be
      * parsed. */
    method StreamBaseBackup<M>(msgs: seq<Msg>, parse: seq<byte> -> Option<M>) returns (r: Option<Info<M>>, ghost n: nat)
      requires DistinctNames(msgs)
      modifies store
      ensures n <= |msgs| && Others(msgs, store.objects) == Others(msgs, old(store.objects))
      ensures r.Some? ==> n < |msgs| && msgs[n].CopyDone? && ArchivesStored(msgs, n, -1, store.objects)
      ensures r.Some? ==> StoredByName(msgs, n, store.objects)
      ensures r.Some? ==> r.value.bytesTotal == ArchiveBytes(msgs, 0, n)
      ensures r.Some? ==> r.value.manifest == if Manifest(msgs, n) == [] then None else parse(Manifest(msgs, n))
      ensures AcceptedTo(msgs, n)
      ensures reliable && store.reliable && n < |msgs| ==> Refused(msgs, n) || msgs[n].CopyDone?
      ensures reliable && store.reliable && n < |msgs| && msgs[n].CopyDone? ==>
        (r.Some? <==> Manifest(msgs, n) == [] || parse(Manifest(msgs, n)).Some?)
    {
      var ended, curFile, inManifest, manifestBuf, totalBytes;
      ended, n, curFile, inManifest, manifestBuf, totalBytes := TakeAll(msgs);
      if !ended { return None, n; }
      r := FinishStream(curFile, msgs, n, inManifest, manifestBuf, totalBytes, parse);
      if r.Some? { StoredIsByName(msgs, n, store.objects); }
    }

    /** The marker object is written last: if it has changed at all, every archive is stored in full. */
    method StreamBackup<M>(msgs: seq<Msg>, parse: seq<byte> -> Option<M>, marshal: Info<M> -> seq<byte>)
      returns (r: Option<Info<M>>, ghost n: nat)
      requires DistinctNames(msgs) && timestamp + ".json" !in NamesBefore(msgs, |msgs|)
      modifies store
      ensures n <= |msgs|
      ensures var marker := timestamp + ".json";
        && (r.Some? ==> marker in store.objects && store.objects[marker] == marshal(r.value))
        && (r.Some? || Touched(marker, old(store.objects), store.objects) ==>
             n < |msgs| && msgs[n].CopyDone? && ArchivesStored(msgs, n, -1, store.objects)
             && StoredByName(msgs, n, store.objects))
      ensures r.Some? ==> r.value.bytesTotal == ArchiveBytes(msgs, 0, n)
      ensures r.Some? ==> r.value.manifest == if Manifest(msgs, n) == [] then None else parse(Manifest(msgs, n))
      ensures AcceptedTo(msgs, n)
      ensures reliable && store.reliable ==> (r.Some? <==>
        n < |msgs| && msgs[n].CopyDone? && (Manifest(msgs, n) == [] || parse(Manifest(msgs, n)).Some?))
    {
      var marker := timestamp + ".json";
      ghost var before := store.objects;
      r, n := StreamBaseBackup(msgs, parse);
      Untouched(marker, before, store.objects, NamesBefore(msgs, |msgs|));
      if r.None? { return; }
      ghost var complete := store.objects;
      var ok := store.Put(marker, marshal(r.value));
      MarkerApart(msgs, n, complete, store.objects, marker);
      StoredIsByName(msgs, n, store.objects);
      if !ok { r := None; }
    }
  }

  predicate Touched(k: string, before: map<string, seq<byte>>, after: map<string, seq<byte>>) {
    (k in before) != (k in after) || (k in before && before[k] != after[k])
  }

  lemma Untouched(k: string, before: map<string, seq<byte>>, after: map<string, seq<byte>>, names: set<string>)
    requires k !in names && after - names == before - names
    ensures !Touched(k, before, after)
  {
    assert k in before <==> k in before - names;
    assert k in after <==> k in after - names;
    if k in before { assert before[k] == (before - names)[k] && after[k] == (after - names)[k]; }
  }

  lemma MarkerApart(msgs: seq<Msg>, n: nat, before: map<string, seq<byte>>, after: map<string, seq<byte>>,
                    marker: string)
    requires n <= |msgs| && marker !in NamesBefore(msgs, |msgs|)
    requires after - {marker} == before - {marker} && ArchivesStored(msgs, n, -1, before)
    ensures ArchivesStored(msgs, n, -1, after)
  {
    forall i | 0 <= i < n && msgs[i].NewArchive?
      ensures var name := ArchiveName(msgs[i].body);
        name.Some? && name.value in after && after[name.value] == Section(msgs, i, n)
    {
      var name := ArchiveName(msgs[i].body).value;
      assert name in NamesBefore(msgs, |msgs|);
      Untouched(name, before, after, {marker});
    }
  }
}
