/**
  mysql_file.h: streams opened and closed through an allocated MYSQL_FILE, and the byte counts that the
  six transfer wrappers report. What the C library and the instrumentation answer is passed in.
 */
module FileWrappers {
  import opened Wrappers

  // ---------------------------------------------------------------- opening and closing

  /** `m_file` is None in memory fresh from my_malloc, and when my_fopen has failed. */
  datatype MysqlFile = MysqlFile(file: Option<nat>, psi: Option<nat>)

  /** Every live allocation has its own open stream, every open stream its allocation. */
  ghost predicate OneToOne(files: map<nat, MysqlFile>, streams: set<nat>) {
    && (forall h :: h in files ==> files[h].file.Some? && files[h].file.value in streams)
    && (forall g, h :: g in files && h in files && files[g].file == files[h].file ==> g == h)
    && (forall s :: s in streams ==> exists h :: h in files && files[h].file == Some(s))
  }

  lemma ClosingKeepsOneToOne(files: map<nat, MysqlFile>, streams: set<nat>, h: nat)
    requires OneToOne(files, streams) && h in files
    ensures OneToOne(files - {h}, streams - {files[h].file.value})
  {
    forall s | s in streams - {files[h].file.value} ensures exists g :: g in files - {h} && files[g].file == Some(s) {
      var g :| g in files && files[g].file == Some(s);
      assert g in files - {h};
    }
  }

  /** Then allocations and open streams are equally many. */
  lemma {:induction false} AllocationsMatchStreams(files: map<nat, MysqlFile>, streams: set<nat>)
    requires OneToOne(files, streams)
    ensures |files| == |streams|
    decreases |files|
  {
    if files == map[] {
      assert streams == {} by { if s :| s in streams { assert false; } }
    } else {
      var h :| h in files;
      var fewer := files - {h};
      ClosingKeepsOneToOne(files, streams, h);
      assert fewer.Keys == files.Keys - {h};
      AllocationsMatchStreams(fewer, streams - {files[h].file.value});
    }
  }

  lemma OpeningKeepsOneToOne(files: map<nat, MysqlFile>, streams: set<nat>, h: nat, stream: nat, psi: Option<nat>)
    requires OneToOne(files, streams) && h !in files && stream !in streams
    ensures OneToOne(files[h := MysqlFile(Some(stream), psi)], streams + {stream})
  {
    var more := files[h := MysqlFile(Some(stream), psi)];
    forall s | s in streams + {stream} ensures exists g :: g in more && more[g].file == Some(s) {
      if s == stream {
        assert more[h].file == Some(s);
      } else {
        var g :| g in files && files[g].file == Some(s);
        assert g in more && more[g].file == Some(s);
      }
    }
  }

  /** An allocation that has been written to and freed again leaves nothing behind. */
  lemma WrittenAndFreed(files: map<nat, MysqlFile>, h: nat, x: MysqlFile, y: MysqlFile)
    ensures files[h := x][h := y] == files[h := y]
    ensures h !in files ==> files[h := y] - {h} == files
  {
  }

  /** Streams and the memory they are kept in. */
  class FileLayer {
    var files: map<nat, MysqlFile>    // MYSQL_FILE allocations by address, from my_malloc to my_free
    var streams: set<nat>             // streams from my_fopen not yet passed to my_fclose

    /** Between calls: no allocation without its stream, no stream without its allocation. */
    ghost predicate Valid()
      reads this
    {
      OneToOne(files, streams)
    }

    constructor ()
      ensures Valid() && files == map[] && streams == {}
    {
      files, streams := map[], {};
    }

    /** `memory` is the address that is found, None if there is none. */
    method MyMalloc(memory: Option<nat>) returns (that: Option<nat>)
      requires memory.Some? ==> memory.value !in files
      modifies this`files
      ensures that == memory
      ensures files == if memory.Some? then old(files)[memory.value := MysqlFile(None, None)] else old(files)
    {
      that := memory;
      if memory.Some? {
        files := files[memory.value := MysqlFile(None, None)];
      }
    }

    method MyFree(that: nat)
      requires that in files
      modifies this`files
      ensures files == old(files) - {that}
    {
      files := files - {that};
    }

    /** `stream` is the stream that the C library opens, None if it cannot. */
    method MyFopen(stream: Option<nat>) returns (file: Option<nat>)
      requires stream.Some? ==> stream.value !in streams
      modifies this`streams
      ensures file == stream
      ensures streams == old(streams) + if stream.Some? then {stream.value} else {}
    {
      file := stream;
      if stream.Some? {
        streams := streams + {stream.value};
      }
    }

    /** The stream is gone whatever fclose answers. */
    method MyFclose(file: nat, closed: int) returns (result: int)
      requires file in streams
      modifies this`streams
      ensures result == closed && streams == old(streams) - {file}
    {
      streams := streams - {file};
      result := closed;
    }

    /**
      `locker` is whether there is one, and `psi` the instrument it yields at the end. Without memory
      and a stream nothing stays allocated or open.
     */
    method Fopen(memory: Option<nat>, stream: Option<nat>, locker: bool, psi: Option<nat>) returns (that: Option<nat>)
      requires Valid()
      requires memory.Some? ==> memory.value !in files
      requires stream.Some? ==> stream.value !in streams
      modifies this
      ensures Valid()
      ensures that == if stream.Some? then memory else None
      ensures files == if that.Some? then old(files)[that.value := MysqlFile(stream, if locker then psi else None)]
                       else old(files)
      ensures streams == if that.Some? then old(streams) + {stream.value} else old(streams)
    {
      that := MyMalloc(memory);
      if that != None {
        ghost var before, h := old(files), that.value;
        if locker {
          var file := MyFopen(stream);
          files := files[that.value := MysqlFile(file, psi)];
          WrittenAndFreed(before, h, MysqlFile(None, None), MysqlFile(file, psi));
          if file == None {
            MyFree(that.value);
            return None;
          }
          OpeningKeepsOneToOne(before, old(streams), h, stream.value, psi);
          return that;
        }
        files := files[that.value := MysqlFile(None, None)];
        var file := MyFopen(stream);
        files := files[that.value := MysqlFile(file, None)];
        WrittenAndFreed(before, h, MysqlFile(None, None), MysqlFile(None, None));
        WrittenAndFreed(before, h, MysqlFile(None, None), MysqlFile(file, None));
        if file == None {
          MyFree(that.value);
          return None;
        }
        OpeningKeepsOneToOne(before, old(streams), h, stream.value, None);
      }
    }

    /** Frees the allocation whether or not my_fclose succeeds; closing NULL does nothing. */
    method Fclose(file: Option<nat>, closed: int) returns (result: int)
      requires Valid() && (file.Some? ==> file.value in files)
      modifies this
      ensures Valid()
      ensures file == None ==> result == 0 && files == old(files) && streams == old(streams)
      ensures file.Some? ==> result == closed && files == old(files) - {file.value} &&
                             streams == old(streams) - {old(files)[file.value].file.value}
    {
      result := 0;
      if file != None {
        ClosingKeepsOneToOne(files, streams, file.value);
        result := MyFclose(files[file.value].file.value, closed);
        MyFree(file.value);
      }
    }
  }

  /** One step of a program: open, with what malloc and fopen answer, or close a handle it has. */
  datatype FileCall =
    | OpenCall(memory: Option<nat>, stream: Option<nat>, locker: bool, psi: Option<nat>)
    | CloseCall(file: Option<nat>, closed: int)

  /** Whether memory and streams handed out are not in use, and a handle closed is open. */
  predicate Allowed(call: FileCall, files: map<nat, MysqlFile>, streams: set<nat>) {
    match call
    case OpenCall(memory, stream, _, _) =>
      (memory.Some? ==> memory.value !in files) && (stream.Some? ==> stream.value !in streams)
    case CloseCall(file, _) => file.Some? ==> file.value in files
  }

  /** What a program has in the end: its allocations and its open streams. */
  datatype Open = Open(files: map<nat, MysqlFile>, streams: set<nat>)

  /** One call; one that is not allowed cannot happen and is passed over. */
  function AfterCall(s: Open, call: FileCall): Open {
    if !Allowed(call, s.files, s.streams) then s
    else match call
      case OpenCall(memory, stream, locker, psi) =>
        if memory.Some? && stream.Some? then
          Open(s.files[memory.value := MysqlFile(stream, if locker then psi else None)], s.streams + {stream.value})
        else s
      case CloseCall(None, _) => s
      case CloseCall(Some(h), _) =>
        Open(s.files - {h}, if s.files[h].file.Some? then s.streams - {s.files[h].file.value} else s.streams)
  }

  function AfterCalls(calls: seq<FileCall>): Open {
    if calls == [] then Open(map[], {}) else AfterCall(AfterCalls(calls[..|calls| - 1]), calls[|calls| - 1])
  }

  /** After any run of opens and closes live allocations and open streams are equally many. */
  lemma {:induction false} RunKeepsOneToOne(calls: seq<FileCall>)
    ensures OneToOne(AfterCalls(calls).files, AfterCalls(calls).streams)
    ensures |AfterCalls(calls).files| == |AfterCalls(calls).streams|
  {
    if calls == [] {
    } else {
      var before, last := AfterCalls(calls[..|calls| - 1]), calls[|calls| - 1];
      RunKeepsOneToOne(calls[..|calls| - 1]);
      if Allowed(last, before.files, before.streams) {
        match last
        case OpenCall(memory, stream, locker, psi) =>
          if memory.Some? && stream.Some? {
            OpeningKeepsOneToOne(before.files, before.streams, memory.value, stream.value, if locker then psi else None);
          }
        case CloseCall(file, _) =>
          if file.Some? { ClosingKeepsOneToOne(before.files, before.streams, file.value); }
      }
    }
    AllocationsMatchStreams(AfterCalls(calls).files, AfterCalls(calls).streams);
  }

  /** What one more call does: an open that gets memory and a stream adds them, a close takes them away. */
  lemma OneMoreCall(calls: seq<FileCall>, h: nat, stream: nat, locker: bool, psi: Option<nat>, closed: int)
    ensures var s := AfterCalls(calls);
            h !in s.files && stream !in s.streams ==>
              AfterCalls(calls + [OpenCall(Some(h), Some(stream), locker, psi)]) ==
              Open(s.files[h := MysqlFile(Some(stream), if locker then psi else None)], s.streams + {stream})
    ensures var s := AfterCalls(calls);
            h in s.files ==>
              s.files[h].file.Some? &&
              AfterCalls(calls + [CloseCall(Some(h), closed)]) == Open(s.files - {h}, s.streams - {s.files[h].file.value})
  {
    RunKeepsOneToOne(calls);
    assert (calls + [OpenCall(Some(h), Some(stream), locker, psi)])[..|calls|] == calls;
    assert (calls + [CloseCall(Some(h), closed)])[..|calls|] == calls;
  }

  /** A program that makes these calls, one after the other. */
  method OpensAndCloses(calls: seq<FileCall>) returns (layer: FileLayer)
    ensures layer.Valid() && Open(layer.files, layer.streams) == AfterCalls(calls)
    ensures |layer.files| == |layer.streams|
  {
    layer := new FileLayer();
    for n := 0 to |calls|
      invariant layer.Valid() && Open(layer.files, layer.streams) == AfterCalls(calls[..n])
    {
      assert calls[..n + 1][..n] == calls[..n];
      if Allowed(calls[n], layer.files, layer.streams) {
        match calls[n]
        case OpenCall(memory, stream, locker, psi) => var that := layer.Fopen(memory, stream, locker, psi);
        case CloseCall(file, closed) => var result := layer.Fclose(file, closed);
      }
    }
    assert calls[..|calls|] == calls;
    RunKeepsOneToOne(calls);
  }

  // ---------------------------------------------------------------- counted transfers

  /** `(size_t) -1`. */
  const MY_FILE_ERROR: nat := 0xFFFF_FFFF_FFFF_FFFF

  /** One of fread, fwrite, read, write, pread, pwrite as it went: `nabp` is flags & (MY_NABP | MY_FNABP). */
  datatype Transfer = Transfer(count: nat, nabp: bool, moved: nat, failed: bool, instrumented: bool) {
    /** The documented return contract of the raw call: all or nothing with NABP, the number moved without. */
    function RawResult(): nat {
      if failed then MY_FILE_ERROR
      else if nabp then (if moved == count then 0 else MY_FILE_ERROR)
      else moved
    }

    /** The bytes of a transfer that succeeded by that contract. */
    function Succeeded(): nat {
      if failed || (nabp && moved < count) then 0 else moved
    }
  }

  /** The wrapper's choice of what to report. */
  function Reported(count: nat, nabp: bool, result: nat): nat {
    if nabp then (if result == 0 then count else 0)
    else if result != MY_FILE_ERROR then result else 0
  }

  /** A request whose full length cannot be mistaken for the error value. */
  predicate Safe(count: nat, nabp: bool) {
    nabp || count < MY_FILE_ERROR
  }

  /** The one request that is not: 2^64-1 bytes that may be moved in part, and all are. */
  lemma UnsafeIsMissed()
    ensures var t := Transfer(MY_FILE_ERROR, false, MY_FILE_ERROR, false, true);
            Reported(t.count, t.nabp, t.RawResult()) == 0 && t.Succeeded() == MY_FILE_ERROR
  {
  }

  /** However the raw call goes, its successful bytes are reported - if and only if the request is safe. */
  lemma ReportedIffSafe(count: nat, nabp: bool)
    requires count <= MY_FILE_ERROR
    ensures (forall moved: nat, failed: bool :: moved <= count ==>
               var t := Transfer(count, nabp, moved, failed, true);
               Reported(count, nabp, t.RawResult()) == t.Succeeded())
            <==> Safe(count, nabp)
  {
    if !Safe(count, nabp) { UnsafeIsMissed(); }
  }

  function TotalSucceeded(ts: seq<Transfer>): nat {
    if ts == [] then 0
    else TotalSucceeded(ts[..|ts| - 1]) + (if ts[|ts| - 1].instrumented then ts[|ts| - 1].Succeeded() else 0)
  }

  /** How many instrumented transfers were taken for errors by mistake. */
  function Missed(ts: seq<Transfer>): nat {
    if ts == [] then 0
    else
      var t := ts[|ts| - 1];
      Missed(ts[..|ts| - 1]) + (if t.instrumented && !t.failed && !t.nabp && t.moved == MY_FILE_ERROR then 1 else 0)
  }

  /** In runs of safe requests there are none. */
  lemma {:induction false} SafeRunsMissNothing(ts: seq<Transfer>)
    requires forall t :: t in ts ==> t.moved <= t.count && Safe(t.count, t.nabp)
    ensures Missed(ts) == 0
  {
    if ts == [] {
    } else {
      assert ts[|ts| - 1] in ts;
      SafeRunsMissNothing(ts[..|ts| - 1]);
    }
  }

  class Counter {
    var reported: nat                 // sum of the counts passed to end_file_wait
    ghost var transfers: seq<Transfer>

    /** What is reported is what succeeded, but for transfers taken for errors. */
    ghost predicate Valid()
      reads this
    {
      reported + Missed(transfers) * MY_FILE_ERROR == TotalSucceeded(transfers)
    }

    constructor ()
      ensures Valid() && transfers == []
    {
      reported, transfers := 0, [];
    }

    /** Any of the six counted wrappers. */
    method Move(t: Transfer) returns (result: nat)
      requires Valid() && t.moved <= t.count <= 0xFFFF_FFFF_FFFF_FFFF
      modifies this
      ensures Valid() && transfers == old(transfers) + [t]
      ensures result == t.RawResult()
      ensures reported == old(reported) +
                if !t.instrumented || t.failed then 0
                else if t.nabp then (if t.moved == t.count then t.count else 0)
                else if t.moved == 0xFFFF_FFFF_FFFF_FFFF then 0
                else t.moved
    {
      result := t.RawResult();
      if t.instrumented {
        reported := reported + Reported(t.count, t.nabp, result);
      }
      transfers := transfers + [t];
      assert transfers[..|transfers| - 1] == old(transfers);
    }
  }
}
