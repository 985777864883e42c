/**
 * The FAT partition mounted at /spiflash and the chunked file sender of
 * main/fatfs_manager.c (main/state_manager.c carries a second copy of the
 * same sender and of fatfs_init; they are modelled once, here).
 */
module FatfsManager {
  import opened Esp
  import opened Http

  const BasePath := "/spiflash"

  /** SCRATCH_BUFSIZE: the size of one read and thus of one response chunk. */
  const ScratchBufSize: nat := 10240

  /** The mounted FAT volume: whether the mount succeeded and the files it holds, by full path. */
  class FileSystem {
    var mounted: bool
    var files: map<string, string>

    constructor(contents: map<string, string>)
      ensures !mounted && files == contents
    {
      mounted := false;
      files := contents;
    }

    /**
     * fatfs_init: mounts the partition once; a failed mount is only logged,
     * and every later file operation then fails.
     */
    method Mount(mountOk: bool)
      modifies this
      ensures mounted == mountOk && files == old(files)
    {
      mounted := mountOk;
    }

    /** Whether open(path) succeeds. */
    predicate Exists(path: string)
      reads this
    {
      mounted && path in files
    }
  }

  /**
   * The full path of a served file: base_path + file_path when file_path
   * starts with '/', base_path + "/" + file_path otherwise, cut to the
   * 127 characters the 128-byte buffer holds.
   */
  function JoinPath(filePath: string): (r: string)
    ensures |r| <= 127
    ensures |filePath| > 0 && filePath[0] == '/' ==>
      r <= BasePath + filePath && |r| == Min(|BasePath + filePath|, 127)
    ensures !(|filePath| > 0 && filePath[0] == '/') ==>
      r <= BasePath + "/" + filePath && |r| == Min(|BasePath + "/" + filePath|, 127)
    ensures |BasePath + "/" + filePath| <= 127 ==> r == BasePath + "/" + filePath || r == BasePath + filePath
    ensures |filePath| + |BasePath| + 1 <= 127 ==> |r| >= |BasePath| + |filePath|
  {
    if |filePath| > 0 && filePath[0] == '/' then Snprintf(BasePath + filePath, 128)
    else Snprintf(BasePath + "/" + filePath, 128)
  }

  /** The pieces a file is read in: consecutive slices of n bytes, the last one possibly shorter. */
  function Chunks(content: string, n: nat): (cs: seq<string>)
    requires n > 0
    ensures |content| > 0 ==> |cs| > 0
    decreases |content|
  {
    if content == [] then []
    else if |content| <= n then [content]
    else [content[..n]] + Chunks(content[n..], n)
  }

  /** Every piece is non-empty and at most n bytes long. */
  lemma {:induction false} ChunkSizes(content: string, n: nat)
    requires n > 0
    ensures forall i :: 0 <= i < |Chunks(content, n)| ==> 0 < |Chunks(content, n)[i]| <= n
    decreases |content|
  {
    if content != [] && |content| > n {
      ChunkSizes(content[n..], n);
    }
  }

  function Concat(cs: seq<string>): string
  {
    if cs == [] then [] else cs[0] + Concat(cs[1..])
  }

  lemma {:induction false} ConcatSplit(cs: seq<string>, k: nat)
    requires k <= |cs|
    ensures Concat(cs) == Concat(cs[..k]) + Concat(cs[k..])
  {
    if k > 0 {
      ConcatSplit(cs[1..], k - 1);
      assert cs[..k][1..] == cs[1..][..k - 1];
      assert cs[1..][k - 1..] == cs[k..];
    }
  }

  /** Sending the chunks in order sends the whole file, nothing more and nothing else. */
  lemma {:induction false} ChunksCoverFile(content: string, n: nat)
    requires n > 0
    ensures Concat(Chunks(content, n)) == content
    decreases |content|
  {
    if content != [] && |content| > n {
      ChunksCoverFile(content[n..], n);
      assert content == content[..n] + content[n..];
    }
  }

  /** One chunk call per piece, in order. */
  function ChunkCalls(cs: seq<string>): (calls: seq<HttpCall>)
    ensures |calls| == |cs|
  {
    if cs == [] then [] else ChunkCalls(cs[..|cs| - 1]) + [SendChunk(cs[|cs| - 1])]
  }

  /** The file data a sequence of response calls carries, in order. */
  function SentData(calls: seq<HttpCall>): string
  {
    if calls == [] then []
    else SentData(calls[..|calls| - 1]) + if calls[|calls| - 1].SendChunk? then calls[|calls| - 1].data else []
  }

  lemma {:induction false} SentDataAppend(a: seq<HttpCall>, b: seq<HttpCall>)
    ensures SentData(a + b) == SentData(a) + SentData(b)
    decreases |b|
  {
    if b == [] {
      assert a + b == a;
    } else {
      SentDataAppend(a, b[..|b| - 1]);
      assert (a + b)[..|a + b| - 1] == a + b[..|b| - 1];
    }
  }

  lemma {:induction false} SentDataOfChunks(cs: seq<string>)
    ensures SentData(ChunkCalls(cs)) == Concat(cs)
    decreases |cs|
  {
    if cs != [] {
      var init := cs[..|cs| - 1];
      SentDataOfChunks(init);
      ConcatSplit(cs, |cs| - 1);
      assert cs[|cs| - 1..] == [cs[|cs| - 1]];
      assert Concat([cs[|cs| - 1]]) == cs[|cs| - 1] + Concat([]);
      SentDataAppend(ChunkCalls(init), [SendChunk(cs[|cs| - 1])]);
      assert [SendChunk(cs[|cs| - 1])][..0] == [];
    }
  }

  lemma ChunkCallsAppend(cs: seq<string>, c: string)
    ensures ChunkCalls(cs + [c]) == ChunkCalls(cs) + [SendChunk(c)]
  {
    assert (cs + [c])[..|cs|] == cs;
  }

  /** The number of pieces read successfully: all of them, or those before the failing read. */
  function ReadsDone(cs: seq<string>, readFault: Option<nat>): (read: nat)
    ensures read <= |cs|
  {
    if readFault.Some? && readFault.value < |cs| then readFault.value else |cs|
  }

  /**
   * The outcome of sending a file that reads as the pieces cs: reading stops
   * at the end of the file or at the failing read readFault; a failed send of
   * chunk sendFault ends the response with a 500 error.
   */
  function SendPieces(cs: seq<string>, contentType: string, readFault: Option<nat>, sendFault: Option<nat>)
    : (r: (EspErr, seq<HttpCall>))
  {
    var read := ReadsDone(cs, readFault);
    if sendFault.Some? && sendFault.value < read then
      (EspFail, ChunkCalls(cs[..sendFault.value + 1]) + [EndChunks, SendErr(500, "Failed to send file")])
    else
      (EspOk, ChunkCalls(cs[..read]) + [SetType(contentType), EndChunks])
  }

  /**
   * send_file_from_fatfs. The file is read in SCRATCH_BUFSIZE pieces until a
   * read returns 0 (end of file) or -1 (readFault names the read that fails);
   * each piece is sent as a chunk (sendFault names the chunk whose send
   * fails). Returns the status and the response calls made.
   */
  method SendFromFatfs(fs: FileSystem, filePath: string, contentType: string, bufferAllocated: bool,
                       readFault: Option<nat>, sendFault: Option<nat>)
    returns (err: EspErr, calls: seq<HttpCall>)
    ensures (err, calls) ==
              if !fs.Exists(JoinPath(filePath)) || !bufferAllocated then (EspFail, [])
              else SendPieces(Chunks(fs.files[JoinPath(filePath)], ScratchBufSize), contentType, readFault, sendFault)
  {
    var path := JoinPath(filePath);
    calls := [];
    if !fs.Exists(path) {
      return EspFail, calls;
    }
    if !bufferAllocated {
      // the descriptor is closed again
      return EspFail, calls;
    }
    err, calls := SendContent(fs.files[path], contentType, readFault, sendFault);
  }

  /** The read-and-send loop of send_file_from_fatfs over the opened file's content. */
  method SendContent(content: string, contentType: string, readFault: Option<nat>, sendFault: Option<nat>)
    returns (err: EspErr, calls: seq<HttpCall>)
    ensures (err, calls) == SendPieces(Chunks(content, ScratchBufSize), contentType, readFault, sendFault)
  {
    ChunkSizes(content, ScratchBufSize);
    err, calls := SendReads(Chunks(content, ScratchBufSize), contentType, readFault, sendFault);
  }

  /**
   * The do-while loop of send_file_from_fatfs, given the pieces successive
   * reads return: each read hands back the next piece, then 0 at the end of
   * the file; the read numbered readFault returns -1 instead.
   */
  method SendReads(pieces: seq<string>, contentType: string, readFault: Option<nat>, sendFault: Option<nat>)
    returns (err: EspErr, calls: seq<HttpCall>)
    requires forall i :: 0 <= i < |pieces| ==> |pieces[i]| > 0
    ensures (err, calls) == SendPieces(pieces, contentType, readFault, sendFault)
  {
    calls := [];
    var readCount := 0;
    while true
      invariant readCount <= |pieces|
      invariant calls == ChunkCalls(pieces[..readCount])
      invariant readFault.Some? ==> readCount <= readFault.value
      invariant sendFault.Some? ==> readCount <= sendFault.value
      decreases |pieces| - readCount
    {
      var bytesRead := if readFault == Some(readCount) then -1
                       else if readCount < |pieces| then |pieces[readCount]| else 0;
      if bytesRead <= 0 {
        break;
      }
      var chunk := pieces[readCount];
      assert pieces[..readCount + 1] == pieces[..readCount] + [chunk];
      ChunkCallsAppend(pieces[..readCount], chunk);
      calls := calls + [SendChunk(chunk)];
      if sendFault == Some(readCount) {
        // the descriptor is closed, the chunked response ended, a 500 sent
        calls := calls + [EndChunks, SendErr(500, "Failed to send file")];
        assert readCount < ReadsDone(pieces, readFault);
        return EspFail, calls;
      }
      readCount := readCount + 1;
    }
    assert readCount == ReadsDone(pieces, readFault);
    calls := calls + [SetType(contentType), EndChunks];
    err := EspOk;
  }

  /** When nothing fails the response carries the whole file and then ends the chunked transfer. */
  lemma SendDeliversFile(content: string, contentType: string)
    ensures var r := SendPieces(Chunks(content, ScratchBufSize), contentType, None, None);
            r.0 == EspOk && SentData(r.1) == content && r.1[|r.1| - 1] == EndChunks
  {
    var cs := Chunks(content, ScratchBufSize);
    ChunksCoverFile(content, ScratchBufSize);
    assert cs[..|cs|] == cs;
    SentDataOfChunks(cs);
    SentDataAppend(ChunkCalls(cs), [SetType(contentType), EndChunks]);
    SentDataTail(contentType);
  }

  /** Whatever read or send fails, the data the response carries is a prefix of the file. */
  lemma SendSendsPrefix(content: string, contentType: string, readFault: Option<nat>, sendFault: Option<nat>)
    ensures SentData(SendPieces(Chunks(content, ScratchBufSize), contentType, readFault, sendFault).1) <= content
  {
    ChunksCoverFile(content, ScratchBufSize);
    PiecesPrefix(Chunks(content, ScratchBufSize), contentType, readFault, sendFault);
  }

  lemma PiecesPrefix(cs: seq<string>, contentType: string, readFault: Option<nat>, sendFault: Option<nat>)
    ensures SentData(SendPieces(cs, contentType, readFault, sendFault).1) <= Concat(cs)
  {
    var read := if readFault.Some? && readFault.value < |cs| then readFault.value else |cs|;
    var failed := sendFault.Some? && sendFault.value < read;
    var k := if failed then sendFault.value + 1 else read;
    var tail := if failed then [EndChunks, SendErr(500, "Failed to send file")] else [SetType(contentType), EndChunks];
    assert SendPieces(cs, contentType, readFault, sendFault).1 == ChunkCalls(cs[..k]) + tail;
    ConcatSplit(cs, k);
    SentDataOfChunks(cs[..k]);
    SentDataAppend(ChunkCalls(cs[..k]), tail);
    if failed {
      SentDataFailTail();
    } else {
      SentDataTail(contentType);
    }
  }

  lemma SentDataTail(contentType: string)
    ensures SentData([SetType(contentType), EndChunks]) == []
  {
    var t := [SetType(contentType), EndChunks];
    assert t[..1] == [SetType(contentType)];
    assert [SetType(contentType)][..0] == [];
    assert SentData([SetType(contentType)]) == [];
  }

  lemma SentDataFailTail()
    ensures SentData([EndChunks, SendErr(500, "Failed to send file")]) == []
  {
    var t := [EndChunks, SendErr(500, "Failed to send file")];
    assert t[..1] == [EndChunks];
    assert [EndChunks][..0] == [];
    assert SentData([EndChunks]) == [];
  }
}
