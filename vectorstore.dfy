/**
  The delta uploader of `VectorStoreManager`: every Markdown file is first
  registered with the file endpoint and, only when that succeeds, attached to
  the vector store. The remote side is a sequence of per-file replies; the
  manager's attempts are returned as a trace of calls.
 */
module VectorStore {
  import opened Wrappers
  import opened Text

  /** A successful registration: the JSON reply, whose `id` may be missing. */
  datatype Registration = Registration(id: Option<string>)

  /**
    What the remote side answers for one file: `register` is `None` when the
    upload fails (the file cannot be opened, a non-200 status, an exception,
    or an empty JSON reply), and `attached` says whether the attach request is
    answered with a non-empty 200/201 reply. `attached` is only consulted after a registration.
   */
  datatype Reply = Reply(register: Option<Registration>, attached: bool)

  /**
    What the manager attempts: a call of `upload_file` (which may fail before
    any request goes out, when the file cannot be opened), an attach request,
    and the statistics query.
   */
  datatype Call = Upload(filename: string) | Attach(fileId: Option<string>) | Inspect

  /** The summary dictionary `{'uploaded', 'failed', 'total'}`. */
  datatype UploadStats = UploadStats(uploaded: nat, failed: nat, total: nat)

  // ---------------------------------------------------------------------------
  // Per-file protocol and its counts

  /** A file counts as uploaded when both steps succeed. */
  predicate Succeeded(r: Reply) {
    r.register.Some? && r.attached
  }

  /** The requests sent for one file: the upload, then the attach only after a registration. */
  function FileCalls(name: string, r: Reply): seq<Call> {
    [Upload(name)] + if r.register.Some? then [Attach(r.register.value.id)] else []
  }

  /** The requests sent for `names`, file `i` being answered by `replies[i]`. */
  function Calls(names: seq<string>, replies: seq<Reply>): seq<Call>
    requires |replies| >= |names|
  {
    if names == [] then
      []
    else
      var n := |names| - 1;
      Calls(names[..n], replies) + FileCalls(names[n], replies[n])
  }

  function UploadedCount(replies: seq<Reply>): nat {
    if replies == [] then 0
    else UploadedCount(replies[..|replies| - 1]) + if Succeeded(replies[|replies| - 1]) then 1 else 0
  }

  function FailedCount(replies: seq<Reply>): nat {
    if replies == [] then 0
    else FailedCount(replies[..|replies| - 1]) + if Succeeded(replies[|replies| - 1]) then 0 else 1
  }

  /** Files whose upload failed, so that no attach was sent. */
  function RejectedCount(replies: seq<Reply>): nat {
    if replies == [] then 0
    else RejectedCount(replies[..|replies| - 1]) + if replies[|replies| - 1].register.None? then 1 else 0
  }

  /** Files that were registered but not attached: they stay registered, nothing deletes them. */
  function OrphanCount(replies: seq<Reply>): nat {
    if replies == [] then 0
    else
      var r := replies[|replies| - 1];
      OrphanCount(replies[..|replies| - 1]) + if r.register.Some? && !r.attached then 1 else 0
  }

  function RegisteredCount(replies: seq<Reply>): nat {
    if replies == [] then 0
    else RegisteredCount(replies[..|replies| - 1]) + if replies[|replies| - 1].register.Some? then 1 else 0
  }

  /** The file names of the upload requests in a trace, in order. */
  function UploadNames(calls: seq<Call>): seq<string> {
    if calls == [] then []
    else
      var c := calls[|calls| - 1];
      UploadNames(calls[..|calls| - 1]) + if c.Upload? then [c.filename] else []
  }

  function AttachCount(calls: seq<Call>): nat {
    if calls == [] then 0
    else AttachCount(calls[..|calls| - 1]) + if calls[|calls| - 1].Attach? then 1 else 0
  }

  /** The `.md` filter over a directory listing, in listing order. */
  function MarkdownFiles(names: seq<string>): seq<string> {
    if names == [] then []
    else
      var n := |names| - 1;
      MarkdownFiles(names[..n]) + if EndsWith(names[n], ".md") then [names[n]] else []
  }

  // ---------------------------------------------------------------------------
  // The upload loops

  /**
    The per-file loop shared by `upload_delta_files` and `upload_all_articles`:
    upload, `continue` with a failure when the upload is refused, otherwise
    attach and count the outcome.
   */
  method UploadFiles(names: seq<string>, replies: seq<Reply>)
    returns (stats: UploadStats, requests: seq<Call>)
    requires |replies| >= |names|
    ensures stats == UploadStats(UploadedCount(replies[..|names|]), FailedCount(replies[..|names|]), |names|)
    ensures stats.uploaded + stats.failed == stats.total
    ensures requests == Calls(names, replies)
  {
    var uploaded, failed := 0, 0;
    requests := [];
    for i := 0 to |names|
      invariant uploaded == UploadedCount(replies[..i])
      invariant failed == FailedCount(replies[..i])
      invariant requests == Calls(names[..i], replies)
    {
      assert replies[..i + 1][..i] == replies[..i];
      assert names[..i + 1][..i] == names[..i];
      var reply := replies[i];
      requests := requests + [Upload(names[i])];
      if reply.register.None? {
        failed := failed + 1;
        continue;
      }
      var fileId := reply.register.value.id;
      requests := requests + [Attach(fileId)];
      if reply.attached {
        uploaded := uploaded + 1;
      } else {
        failed := failed + 1;
      }
    }
    assert replies[..|names|] == replies[..|names|][..|names|];
    assert names[..|names|] == names;
    UploadedPlusFailed(replies[..|names|]);
    stats := UploadStats(uploaded, failed, |names|);
  }

  /** `upload_delta_files(new_filenames)`: nothing to do for an empty list, otherwise the loop. */
  method UploadDeltaFiles(newFilenames: seq<string>, replies: seq<Reply>)
    returns (stats: UploadStats, calls: seq<Call>)
    requires |replies| >= |newFilenames|
    ensures stats == UploadStats(UploadedCount(replies[..|newFilenames|]),
                                 FailedCount(replies[..|newFilenames|]), |newFilenames|)
    ensures stats.uploaded + stats.failed == stats.total
    ensures calls == Calls(newFilenames, replies)
    ensures newFilenames == [] ==> stats == UploadStats(0, 0, 0) && calls == []
  {
    if newFilenames == [] {
      return UploadStats(0, 0, 0), [];
    }
    stats, calls := UploadFiles(newFilenames, replies);
  }

  /**
    `upload_all_articles()`: `listing` is the directory's contents, `None` when
    the directory does not exist. Only names ending in `.md` are uploaded;
    when there are none the result is `None`. The statistics query is sent
    after the loop when at least one file was uploaded.
   */
  method UploadAllArticles(listing: Option<seq<string>>, replies: seq<Reply>)
    returns (result: Option<UploadStats>, calls: seq<Call>)
    requires listing.Some? ==> |replies| >= |MarkdownFiles(listing.value)|
    ensures listing.None? ==> result == None && calls == []
    ensures listing.Some? && MarkdownFiles(listing.value) == [] ==> result == None && calls == []
    ensures listing.Some? && MarkdownFiles(listing.value) != [] ==>
      var files := MarkdownFiles(listing.value);
      var uploaded := UploadedCount(replies[..|files|]);
      && result == Some(UploadStats(uploaded, FailedCount(replies[..|files|]), |files|))
      && calls == Calls(files, replies) + if uploaded > 0 then [Inspect] else []
    ensures result.Some? ==> result.value.uploaded + result.value.failed == result.value.total
  {
    if listing.None? {
      return None, [];
    }
    var names := listing.value;
    var filePaths := [];
    for i := 0 to |names|
      invariant filePaths == MarkdownFiles(names[..i])
    {
      assert names[..i + 1][..i] == names[..i];
      if EndsWith(names[i], ".md") {
        filePaths := filePaths + [names[i]];
      }
    }
    assert names[..|names|] == names;
    if filePaths == [] {
      return None, [];
    }
    var stats;
    stats, calls := UploadFiles(filePaths, replies);
    if stats.uploaded > 0 {
      calls := calls + [Inspect];
    }
    result := Some(stats);
  }

  // ---------------------------------------------------------------------------
  // Properties

  /** Every file is counted exactly once, as uploaded or as failed. */
  lemma {:induction false} UploadedPlusFailed(replies: seq<Reply>)
    ensures UploadedCount(replies) + FailedCount(replies) == |replies|
  {
    if replies != [] {
      UploadedPlusFailed(replies[..|replies| - 1]);
    }
  }

  /** The failures are the refused uploads plus the registered files whose attach failed. */
  lemma {:induction false} FailedIsRejectedOrOrphaned(replies: seq<Reply>)
    ensures FailedCount(replies) == RejectedCount(replies) + OrphanCount(replies)
    ensures RegisteredCount(replies) == UploadedCount(replies) + OrphanCount(replies)
  {
    if replies != [] {
      FailedIsRejectedOrOrphaned(replies[..|replies| - 1]);
    }
  }

  /** Outcomes are per file: the counts over two batches add up. */
  lemma {:induction false} CountsAppend(a: seq<Reply>, b: seq<Reply>)
    ensures UploadedCount(a + b) == UploadedCount(a) + UploadedCount(b)
    ensures FailedCount(a + b) == FailedCount(a) + FailedCount(b)
    decreases |b|
  {
    if b == [] {
      assert a + b == a;
    } else {
      var n := |b| - 1;
      CountsAppend(a, b[..n]);
      assert (a + b)[..|a + b| - 1] == a + b[..n];
    }
  }

  /** Each file's requests depend on its own reply only: the calls for two batches concatenate. */
  lemma {:induction false} CallsAppend(first: seq<string>, second: seq<string>, replies: seq<Reply>)
    requires |replies| >= |first| + |second|
    ensures Calls(first + second, replies) == Calls(first, replies) + Calls(second, replies[|first|..])
    decreases |second|
  {
    if second == [] {
      assert first + second == first;
    } else {
      var n := |second| - 1;
      CallsAppend(first, second[..n], replies);
      assert (first + second)[..|first + second| - 1] == first + second[..n];
      assert (first + second)[|first + second| - 1] == second[n];
      assert replies[|first|..][n] == replies[|first| + n];
    }
  }

  /** The requests for one file: its upload first, then at most one attach. */
  lemma FileCallsShape(name: string, r: Reply)
    ensures FileCalls(name, r)[0] == Upload(name)
    ensures |FileCalls(name, r)| == if r.register.Some? then 2 else 1
    ensures UploadNames(FileCalls(name, r)) == [name]
    ensures AttachCount(FileCalls(name, r)) == if r.register.Some? then 1 else 0
  {
    var c := FileCalls(name, r);
    var upload := [Upload(name)];
    assert upload[..0] == [];
    assert UploadNames(upload) == [name] && AttachCount(upload) == 0;
    if r.register.Some? {
      assert c[..1] == upload;
    } else {
      assert c == upload;
    }
  }

  /** Every file is uploaded exactly once, in input order. */
  lemma {:induction false} UploadsInOrder(names: seq<string>, replies: seq<Reply>)
    requires |replies| >= |names|
    ensures UploadNames(Calls(names, replies)) == names
  {
    if names != [] {
      var n := |names| - 1;
      UploadsInOrder(names[..n], replies);
      UploadNamesAppend(Calls(names[..n], replies), FileCalls(names[n], replies[n]));
      FileCallsShape(names[n], replies[n]);
      assert names == names[..n] + [names[n]];
    }
  }

  lemma {:induction false} UploadNamesAppend(a: seq<Call>, b: seq<Call>)
    ensures UploadNames(a + b) == UploadNames(a) + UploadNames(b)
    decreases |b|
  {
    if b == [] {
      assert a + b == a;
    } else {
      var n := |b| - 1;
      UploadNamesAppend(a, b[..n]);
      assert (a + b)[..|a + b| - 1] == a + b[..n];
    }
  }

  lemma {:induction false} AttachCountAppend(a: seq<Call>, b: seq<Call>)
    ensures AttachCount(a + b) == AttachCount(a) + AttachCount(b)
    decreases |b|
  {
    if b == [] {
      assert a + b == a;
    } else {
      var n := |b| - 1;
      AttachCountAppend(a, b[..n]);
      assert (a + b)[..|a + b| - 1] == a + b[..n];
    }
  }

  /** Every attach request in the trace comes right after an upload request. */
  predicate AttachesFollowUploads(calls: seq<Call>) {
    forall k :: 0 <= k < |calls| && calls[k].Attach? ==> 0 < k && calls[k - 1].Upload?
  }

  /** An attach request is never sent on its own: it always comes right after an upload request. */
  lemma {:induction false} AttachOnlyAfterUpload(names: seq<string>, replies: seq<Reply>)
    requires |replies| >= |names|
    ensures AttachesFollowUploads(Calls(names, replies))
  {
    if names != [] {
      var n := |names| - 1;
      var prev := Calls(names[..n], replies);
      var tail := FileCalls(names[n], replies[n]);
      AttachOnlyAfterUpload(names[..n], replies);
      FileCallsShape(names[n], replies[n]);
      var calls := prev + tail;
      assert AttachesFollowUploads(prev);
      forall k | 0 <= k < |calls| && calls[k].Attach?
        ensures 0 < k && calls[k - 1].Upload?
      {
        if k < |prev| {
          assert calls[k] == prev[k];
          assert calls[k - 1] == prev[k - 1];
        } else {
          assert calls[k] == tail[k - |prev|];
          assert k == |prev| + 1;
          assert calls[k - 1] == tail[0];
        }
      }
    }
  }

  /** One attach request per registered file. */
  lemma {:induction false} AttachPerRegistration(names: seq<string>, replies: seq<Reply>)
    requires |replies| >= |names|
    ensures AttachCount(Calls(names, replies)) == RegisteredCount(replies[..|names|])
  {
    if names != [] {
      var n := |names| - 1;
      AttachPerRegistration(names[..n], replies);
      AttachCountAppend(Calls(names[..n], replies), FileCalls(names[n], replies[n]));
      FileCallsShape(names[n], replies[n]);
      assert replies[..|names|][..n] == replies[..n];
    }
  }

  /** The `.md` filter keeps exactly the names that end in `.md`. */
  lemma {:induction false} MarkdownFilesExact(names: seq<string>)
    ensures |MarkdownFiles(names)| <= |names|
    ensures forall x :: x in MarkdownFiles(names) <==> x in names && EndsWith(x, ".md")
  {
    if names != [] {
      var n := |names| - 1;
      MarkdownFilesExact(names[..n]);
      assert names == names[..n] + [names[n]];
    }
  }
}
