/** Uploading to an S3 bucket in parts: the choice of the part size, and the upload of a stream of unknown length. */
module Multipart {
  import opened Arith
  import opened Bytes
  import opened Faults
  import opened Pieces

  const MIB := 1024 * 1024
  const MIN_PART_SIZE := 5 * 1024 * 1024
  const MAX_PART_SIZE := 5 * 1024 * 1024 * 1024
  const DEFAULT_PART_SIZE := 16 * 1024 * 1024
  const MAX_PARTS := 10000
  const INT64 := 0x1_0000_0000_0000_0000

  // ---- part sizes ----

  function Distance(x: int, y: int): nat { if x < y then y - x else x - y }

  /** 16 MiB by default, otherwise the permitted size nearest to the requested one. */
  function NormalizePartSize(partSize: int): (n: nat)
    ensures MIN_PART_SIZE <= n <= MAX_PART_SIZE
    ensures partSize <= 0 ==> n == 16 * MIB
    ensures partSize > 0 ==>
      forall m: int :: MIN_PART_SIZE <= m <= MAX_PART_SIZE ==> Distance(n, partSize) <= Distance(m, partSize)
  {
    if partSize <= 0 then DEFAULT_PART_SIZE
    else if partSize < MIN_PART_SIZE then MIN_PART_SIZE
    else if partSize > MAX_PART_SIZE then MAX_PART_SIZE
    else partSize
  }

  /** The value a 64-bit signed addition leaves. */
  function Wrapped(x: int): int {
    if x >= INT64 / 2 then x - INT64 else x
  }

  function PartCount(size: nat, partSize: nat): nat
    requires partSize > 0
  {
    (size + partSize - 1) / partSize
  }

  /** For every size that 10000 parts of 5 GiB can hold, the part size is the smallest whole number of MiB, at
    * least 5, with which 10000 parts suffice. No part size at all suffices for larger objects. */
  method ChooseUploadPartSize(size: int) returns (partSize: nat)
    requires size < INT64 / 2
    ensures MIN_PART_SIZE <= partSize <= MAX_PART_SIZE && partSize % MIB == 0
    ensures size <= 0 ==> partSize == DEFAULT_PART_SIZE
    ensures 0 < size ==> (size <= MAX_PARTS * partSize <==> size <= MAX_PARTS * MAX_PART_SIZE)
    ensures 0 < size && partSize > MIN_PART_SIZE ==> size > MAX_PARTS * (partSize - MIB)
  {
    if size <= 0 { return DEFAULT_PART_SIZE; }
    var sum := Wrapped(size + MAX_PARTS - 1);
    var p: int := if sum >= 0 then sum / MAX_PARTS else -(-sum / MAX_PARTS);
    if sum >= 0 { DivMod(sum, MAX_PARTS); }
    if p < MIN_PART_SIZE { p := MIN_PART_SIZE; }
    DivMod(p, MIB);
    var rem := p % MIB;
    if rem != 0 { p := p + (MIB - rem); }
    MultipleOf(p / MIB, MIB);
    partSize := NormalizePartSize(p);
  }

  /** Parts of a given size suffice exactly when so many of them hold the object. */
  lemma CountWithin(size: nat, partSize: nat, limit: nat)
    requires partSize > 0
    ensures PartCount(size, partSize) <= limit <==> size <= limit * partSize
  {
    DivBelow(size + partSize - 1, partSize, limit + 1);
    assert (limit + 1) * partSize == limit * partSize + partSize;
  }

  // ---- the bucket ----

  datatype Status = Full | Partial | End | Broken

  /** A reader of unknown length that may fail at any time unless it is reliable. */
  class Source {
    const reliable: bool
    const data: seq<byte>
    var pos: nat

    constructor (reliable: bool, data: seq<byte>)
      ensures this.reliable == reliable && this.data == data && pos == 0
    {
      this.reliable, this.data, pos := reliable, data, 0;
    }

    /** io.ReadFull: fills the buffer unless the data ends before. */
    method ReadFull(buf: array<byte>) returns (n: nat, status: Status)
      requires pos <= |data| && buf.Length > 0
      modifies this, buf
      ensures pos <= |data| && n <= buf.Length
      ensures !status.Broken? ==> pos == old(pos) + n && buf[..n] == data[old(pos)..pos]
      ensures status.Full? ==> n == buf.Length
      ensures status.Partial? ==> 0 < n < buf.Length && pos == |data|
      ensures status.End? ==> n == 0 && pos == |data|
      ensures reliable ==> !status.Broken?
    {
      var works := Attempt(reliable);
      if !works { return 0, Broken; }
      n := if |data| - pos < buf.Length then |data| - pos else buf.Length;
      ghost var start := pos;
      for k := 0 to n
        invariant pos == start + k && buf[..k] == data[start..pos]
      {
        buf[k] := data[pos];
        pos := pos + 1;
      }
      status := if n == buf.Length then Full else if n > 0 then Partial else End;
    }
  }

  /** The parts with the given numbers, one after the other. */
  function Joined(parts: map<nat, seq<byte>>, numbers: seq<nat>): seq<byte> {
    if numbers == [] then []
    else (if numbers[0] in parts then parts[numbers[0]] else []) + Joined(parts, numbers[1..])
  }

  function WithPart(parts: map<nat, seq<byte>>, number: nat, data: seq<byte>): map<nat, seq<byte>> {
    parts[number := data]
  }

  class Bucket {
    const reliable: bool
    var objects: map<string, seq<byte>>
    var uploads: map<nat, map<nat, seq<byte>>>
    var aborts: seq<nat>

    /** The backend answers with the identifier of a new upload, or not at all. */
    method CreateUpload(given: Option<nat>) returns (id: Option<nat>)
      modifies this`uploads
      ensures id.None? ==> uploads == old(uploads)
      ensures id.Some? ==> id.value !in old(uploads) && uploads == old(uploads)[id.value := map[]]
      ensures given.Some? && given.value !in old(uploads) ==> id == given
    {
      if given.None? || given.value in uploads { return None; }
      uploads := uploads[given.value := map[]];
      id := given;
    }

    method UploadPart(id: nat, number: nat, data: seq<byte>) returns (ok: bool)
      requires id in uploads
      modifies this`uploads
      ensures uploads == old(uploads)[id := WithPart(old(uploads)[id], number, data)]
        || (!ok && uploads == old(uploads))
      ensures reliable ==> ok
    {
      ok := Attempt(reliable);
      var stored: bool := *;
      if ok || stored { uploads := uploads[id := WithPart(uploads[id], number, data)]; }
    }

    /** The answer may be lost after the object has appeared. */
    method CompleteUpload(path: string, id: nat, numbers: seq<nat>) returns (ok: bool)
      requires id in uploads
      modifies this`uploads, this`objects
      ensures (objects == old(objects)[path := Joined(old(uploads)[id], numbers)] && uploads == old(uploads) - {id})
        || (!ok && objects == old(objects) && uploads == old(uploads))
      ensures reliable ==> ok
    {
      ok := Attempt(reliable);
      var done: bool := *;
      if ok || done {
        objects := objects[path := Joined(uploads[id], numbers)];
        uploads := uploads - {id};
      }
    }

    /** An abort that fails is only logged. */
    method AbortUpload(id: nat)
      modifies this`uploads, this`aborts
      ensures aborts == old(aborts) + [id]
      ensures uploads == old(uploads) || uploads == old(uploads) - {id}
    {
      aborts := aborts + [id];
      var works: bool := *;
      if works { uploads := uploads - {id}; }
    }

    method PutObject(path: string, data: seq<byte>) returns (ok: bool)
      modifies this`objects
      ensures objects == old(objects)[path := data] || (!ok && objects == old(objects))
      ensures reliable ==> ok
    {
      ok := Attempt(reliable);
      var stored: bool := *;
      if ok || stored { objects := objects[path := data]; }
    }

    // ---- the upload of a stream ----

    /** parts 1..n of the open upload are the given pieces. */
    ghost predicate Uploaded(id: nat, pieces: seq<seq<byte>>, numbers: seq<nat>)
      reads this
    {
      && id in uploads && |numbers| == |pieces|
      && forall k :: 0 <= k < |pieces| ==>
        numbers[k] == k + 1 && k + 1 in uploads[id] && uploads[id][k + 1] == pieces[k]
    }

    method UploadNext(id: nat, partNumber: nat, data: seq<byte>, ghost pieces: seq<seq<byte>>, ghost numbers: seq<nat>)
      returns (ok: bool)
      requires Uploaded(id, pieces, numbers) && partNumber == |pieces| + 1
      modifies this`uploads
      ensures id in uploads && uploads - {id} == old(uploads) - {id}
      ensures ok ==> Uploaded(id, pieces + [data], numbers + [partNumber])
      ensures reliable ==> ok
    {
      ok := UploadPart(id, partNumber, data);
      assert uploads - {id} == old(uploads) - {id};
    }

    /** Reads and uploads part after part; false means that an error is to be answered by an abort. */
    method UploadParts(source: Source, partSize: nat, id: nat)
      returns (ok: bool, numbers: seq<nat>, ghost pieces: seq<seq<byte>>)
      requires source.pos == 0 && partSize > 0 && id in uploads
      modifies this`uploads, source
      ensures id in uploads && uploads - {id} == old(uploads) - {id}
      ensures ok ==> pieces == Split(source.data, partSize) && |pieces| <= MAX_PARTS && Uploaded(id, pieces, numbers)
      ensures reliable && source.reliable ==> (ok <==> |Split(source.data, partSize)| <= MAX_PARTS)
    {
      var buf := new byte[partSize];
      var partNumber := 1;
      numbers, pieces := [], [];
      CuttingStarts(source.data, partSize);
      while true
        invariant source.pos <= |source.data| && partNumber == |pieces| + 1 && |pieces| <= MAX_PARTS
        invariant Uploaded(id, pieces, numbers) && uploads - {id} == old(uploads) - {id}
        invariant Cutting(pieces, source.data, source.pos, partSize)
        decreases |source.data| - source.pos
      {
        ghost var start := source.pos;
        var n, status := source.ReadFull(buf);
        if status.Broken? { return false, numbers, pieces; }
        Progress(pieces, source.data, start, partSize, n);
        if n > 0 {
          if partNumber > MAX_PARTS {
            assert |Split(source.data, partSize)| >= |pieces + [source.data[start..start + n]]|;
            return false, numbers, pieces;
          }
          ok := UploadNext(id, partNumber, buf[..n], pieces, numbers);
          if !ok { return; }
          pieces, numbers := pieces + [buf[..n]], numbers + [partNumber];
          partNumber := partNumber + 1;
        }
        if status.Partial? || status.End? {
          CuttingEnds(pieces, source.data, partSize);
          return true, numbers, pieces;
        }
      }
    }

    /** On success the object is the source. A non-empty source was uploaded in at most 10000 parts numbered
      * from 1, all but the last of the normalized part size, and nothing is left open; for an empty one the
      * upload is aborted and an empty object stored. Every error after creation aborts the upload. */
    method PutMultipartStream(path: string, source: Source, requested: int, given: Option<nat>)
      returns (ok: bool, id: Option<nat>, ghost numbers: seq<nat>)
      requires source.pos == 0
      modifies this, source
      ensures ok ==> id.Some? && objects == old(objects)[path := source.data]
      ensures reliable && source.reliable && given.Some? && given.value !in old(uploads) ==>
        (ok <==> |Split(source.data, NormalizePartSize(requested))| <= MAX_PARTS)
      ensures ok && source.data != [] ==> aborts == old(aborts) && uploads == old(uploads)
      ensures ok && source.data != [] ==> |numbers| == |Split(source.data, NormalizePartSize(requested))| <= MAX_PARTS
      ensures ok && source.data != [] ==> forall k :: 0 <= k < |numbers| ==> numbers[k] == k + 1
      ensures id.Some? && (!ok || source.data == []) ==> aborts == old(aborts) + [id.value]
      ensures id.None? ==> !ok && objects == old(objects) && uploads == old(uploads) && aborts == old(aborts)
      ensures objects - {path} == old(objects) - {path}
      ensures id.Some? ==> uploads - {id.value} == old(uploads) && id.value !in old(uploads)
    {
      var partSize := NormalizePartSize(requested);
      numbers := [];
      id := CreateUpload(given);
      if id.None? { return false, id, numbers; }
      assert uploads - {id.value} == old(uploads);
      var completedParts;
      ghost var pieces;
      ok, completedParts, pieces := UploadParts(source, partSize, id.value);
      numbers := completedParts;
      if !ok {
        AbortUpload(id.value);
        return;
      }
      SplitPieces(source.data, partSize);
      if |completedParts| == 0 {
        AbortUpload(id.value);
        ok := PutObject(path, []);
        return;
      }
      JoinedPieces(uploads[id.value], numbers, pieces);
      ok := CompleteUpload(path, id.value, completedParts);
      if !ok { AbortUpload(id.value); }
    }
  }

  /** The pieces taken off so far, and those still to come, are the split of the data. */
  ghost predicate Cutting(done: seq<seq<byte>>, data: seq<byte>, pos: nat, size: nat)
    requires size > 0 && pos <= |data|
  {
    done + Split(data[pos..], size) == Split(data, size)
  }

  lemma CuttingStarts(data: seq<byte>, size: nat)
    requires size > 0
    ensures Cutting([], data, 0, size)
  {
    assert data[0..] == data;
  }

  lemma CuttingEnds(done: seq<seq<byte>>, data: seq<byte>, size: nat)
    requires size > 0 && Cutting(done, data, |data|, size)
    ensures done == Split(data, size)
  {
    assert done + [] == done;
  }

  /** Taking the next n bytes off takes off the next piece, if any. */
  lemma Progress(done: seq<seq<byte>>, data: seq<byte>, pos: nat, size: nat, n: nat)
    requires size > 0 && pos + n <= |data| && Cutting(done, data, pos, size)
    requires n == size || (n < size && pos + n == |data|)
    ensures Cutting(if n > 0 then done + [data[pos..pos + n]] else done, data, pos + n, size)
  {
    var rest := data[pos..];
    assert rest[..n] == data[pos..pos + n] && rest[n..] == data[pos + n..];
    if n == |rest| { assert rest[..n] == rest && rest[n..] == []; }
    if n > 0 {
      assert Split(rest, size) == [rest[..n]] + Split(rest[n..], size);
      assert done + ([rest[..n]] + Split(rest[n..], size)) == done + [rest[..n]] + Split(rest[n..], size);
    }
  }

  lemma {:induction false} JoinedPieces(parts: map<nat, seq<byte>>, numbers: seq<nat>, pieces: seq<seq<byte>>)
    requires |numbers| == |pieces|
    requires forall k :: 0 <= k < |numbers| ==> numbers[k] in parts && parts[numbers[k]] == pieces[k]
    ensures Joined(parts, numbers) == Flatten(pieces)
  {
    if numbers != [] { JoinedPieces(parts, numbers[1..], pieces[1..]); }
  }

  /** A stream that does not fit in 10000 parts of the normalized size is not uploaded. */
  lemma {:induction false} SplitCount(data: seq<byte>, size: nat)
    requires size > 0
    ensures |Split(data, size)| == PartCount(|data|, size)
    decreases |data|
  {
    if |data| == 0 {
      DivModUnique(size, 0, size - 1, size - 1);
    } else if |data| <= size {
      DivModUnique(size, 1, |data| - 1, |data| + size - 1);
    } else {
      SplitCount(data[size..], size);
      var m := |data| - 1;
      DivMod(m, size);
      DivModUnique(size, m / size + 1, m % size, m + size);
    }
  }
}
