/**
 The uploader object. It keeps the table of in-flight replies (handle to file
 name) and the per-reply byte counters, and reacts to the five entry points of
 the source: upload, cancel, cancelAll, the progress callback and the
 completion callback. What it does to the outside world (posting a request,
 aborting a reply, emitting a signal) is recorded in the field `trace`; each
 abort and each emitted signal records the table as it stood at that moment.
 */
module Imgur {
  import opened Handles
  import opened Progress
  import opened Response
  import opened Form

  /** The result of opening the file for reading, with its contents when it opened. */
  datatype FileRead = OpenFailed | Opened(contents: Bytes)

  datatype Action =
    | Post(reply: Handle, url: string, contentType: string, body: Bytes)
    | Abort(reply: Handle, table: map<Handle, string>)
    | Emit(signal: Signal, table: map<Handle, string>)

  /** One abort per handle of `keys`, in that order, each seeing `table`. */
  function AbortEach(keys: seq<Handle>, table: map<Handle, string>): seq<Action> {
    seq(|keys|, i requires 0 <= i < |keys| => Abort(keys[i], table))
  }

  /** Appending one more abort to the prefix of a key list. */
  lemma AbortEachStep(keys: seq<Handle>, i: nat, table: map<Handle, string>)
    requires i < |keys|
    ensures AbortEach(keys[..i + 1], table) == AbortEach(keys[..i], table) + [Abort(keys[i], table)]
  {
  }

  /** The file name the table holds for `reply`; empty for a handle no longer in it. */
  function FileNameOf(files: map<Handle, string>, reply: Handle): (name: string)
    ensures reply in files ==> name == files[reply]
    ensures reply !in files ==> name == ""
  {
    if reply in files then files[reply] else ""
  }

  /** Aborts over a list of distinct keys: one per key, and no two alike. */
  lemma AbortEachDistinct(keys: seq<Handle>, table: map<Handle, string>)
    requires forall i, j :: 0 <= i < j < |keys| ==> keys[i] < keys[j]
    ensures var aborts := AbortEach(keys, table);
      && |aborts| == |keys|
      && (forall h :: h in keys <==> Abort(h, table) in aborts)
      && (forall i, j :: 0 <= i < j < |aborts| ==> aborts[i] != aborts[j])
  {
    var aborts := AbortEach(keys, table);
    forall h | h in keys ensures Abort(h, table) in aborts {
      var i :| 0 <= i < |keys| && keys[i] == h;
      assert aborts[i] == Abort(h, table);
    }
    forall h | Abort(h, table) in aborts ensures h in keys {
      var i :| 0 <= i < |aborts| && aborts[i] == Abort(h, table);
      assert keys[i] == h;
    }
    forall i, j | 0 <= i < j < |aborts| ensures aborts[i] != aborts[j] {
      assert aborts[i].reply == keys[i] && aborts[j].reply == keys[j];
    }
  }

  /** cancelAll aborts every handle of the table exactly once, in key order, before clearing it. */
  lemma AbortEachOnce(table: map<Handle, string>)
    ensures var aborts := AbortEach(Ascending(table.Keys), table);
      && |aborts| == |table|
      && (forall h :: h in table <==> Abort(h, table) in aborts)
      && (forall i, j :: 0 <= i < j < |aborts| ==> aborts[i] != aborts[j])
  {
    AscendingSpec(table.Keys);
    AbortEachDistinct(Ascending(table.Keys), table);
    assert |table.Keys| == |table|;
  }

  class QtImgur {
    const apiKey: string
    const codec: Codec
    /** Report the image's own URL instead of its page. */
    var directUrl: bool
    /** The in-flight table: reply handle to file name. */
    var files: map<Handle, string>
    /** The `bytesSent`/`bytesTotal` pair each reply last reported. */
    var counters: map<Handle, Counter>
    /** Every reply handle this uploader has posted. */
    ghost var issued: set<Handle>
    /** Everything the uploader did to the outside world, in order. */
    var trace: seq<Action>

    ghost predicate Valid()
      reads this
    {
      files.Keys <= issued && counters.Keys <= issued
    }

    constructor (apiKey: string, codec: Codec)
      ensures Valid()
      ensures this.apiKey == apiKey && this.codec == codec && !directUrl
      ensures files == map[] && counters == map[] && issued == {} && trace == []
    {
      this.apiKey := apiKey;
      this.codec := codec;
      directUrl := false;
      files := map[];
      counters := map[];
      issued := {};
      trace := [];
    }

    /**
     Upload a file. When it does not open, emit ErrorFile and change nothing
     else. Otherwise post the form body and enter the new reply into the table;
     `reply` is the handle the transport returns for the post.
     */
    method Upload(fileName: string, file: FileRead, reply: Handle)
      requires Valid() && reply !in issued
      modifies this
      ensures Valid()
      ensures directUrl == old(directUrl) && counters == old(counters)
      ensures file.OpenFailed? ==>
        && files == old(files) && issued == old(issued)
        && trace == old(trace) + [Emit(Error(fileName, ErrorFile), files)]
      ensures file.Opened? ==>
        && reply !in old(files)
        && files == old(files)[reply := fileName]
        && |files| == |old(files)| + 1
        && issued == old(issued) + {reply}
        && Stored(counters, reply) == Counter(0, 0)
        && trace == old(trace) + [Post(reply, UploadEndpoint, FormContentType, FormBody(codec, apiKey, file.contents))]
    {
      if file.OpenFailed? {
        trace := trace + [Emit(Error(fileName, ErrorFile), files)];
        return;
      }
      var data: Bytes := [];
      data := data + KeyPrefix;
      data := data + codec.percent(codec.utf8(apiKey));
      data := data + ImagePrefix;
      data := data + codec.percent(codec.base64(file.contents));
      assert data == FormBody(codec, apiKey, file.contents);
      trace := trace + [Post(reply, UploadEndpoint, FormContentType, data)];
      issued := issued + {reply};
      files := files[reply := fileName];
    }

    /**
     Cancel the upload of a file: when some entry holds `fileName`, remove the
     first such entry and then abort its reply; otherwise do nothing.
     */
    method Cancel(fileName: string)
      requires Valid()
      modifies this
      ensures Valid()
      ensures directUrl == old(directUrl) && counters == old(counters) && issued == old(issued)
      ensures KeyOf(old(files), fileName).None? ==> files == old(files) && trace == old(trace)
      ensures KeyOf(old(files), fileName).Some? ==>
        var h := KeyOf(old(files), fileName).value;
        && files == old(files) - {h}
        && |files| == |old(files)| - 1
        && trace == old(trace) + [Abort(h, files)]
    {
      var reply := KeyOf(files, fileName);
      if reply.None? {
        return;
      }
      files := files - {reply.value};
      trace := trace + [Abort(reply.value, files)];
    }

    /** Abort every reply in the table, in key order, and then empty the table. */
    method CancelAll()
      requires Valid()
      modifies this
      ensures Valid()
      ensures directUrl == old(directUrl) && counters == old(counters) && issued == old(issued)
      ensures files == map[]
      ensures trace == old(trace) + AbortEach(Ascending(old(files).Keys), old(files))
    {
      var keys := Ascending(files.Keys);
      for i := 0 to |keys|
        invariant files == old(files) && counters == old(counters) && issued == old(issued) && directUrl == old(directUrl)
        invariant trace == old(trace) + AbortEach(keys[..i], files)
      {
        AbortEachStep(keys, i, files);
        trace := trace + [Abort(keys[i], files)];
      }
      assert keys[..|keys|] == keys;
      files := map[];
    }

    /**
     The progress callback of reply `sender`: store its fresh pair, then emit
     the fresh pair plus the stored pairs of every other handle in the table.
     */
    method Progress(sender: Handle, bytesSent: int, bytesTotal: int)
      requires Valid() && sender in issued
      modifies this
      ensures Valid()
      ensures directUrl == old(directUrl) && files == old(files) && issued == old(issued)
      ensures counters == old(counters)[sender := Counter(bytesSent, bytesTotal)]
      ensures
        var others := Tally(files.Keys - {sender}, old(counters));
        trace == old(trace) + [Emit(UploadProgress(bytesSent + others.sent, bytesTotal + others.total), files)]
    {
      counters := counters[sender := Counter(bytesSent, bytesTotal)];
      var totalSent, totalTotal := bytesSent, bytesTotal;
      var stored := counters;
      var keys := Ascending(files.Keys);
      for i := 0 to |keys|
        invariant files == old(files) && counters == stored && issued == old(issued)
        invariant directUrl == old(directUrl) && trace == old(trace)
        invariant Counter(totalSent, totalTotal) == Plus(Counter(bytesSent, bytesTotal), SumOthers(keys[..i], stored, sender))
      {
        var reply := keys[i];
        assert keys[..i + 1] == keys[..i] + [reply];
        SumOthersAppend(keys[..i], reply, stored, sender);
        if reply != sender {
          var c := Stored(stored, reply);
          totalSent := totalSent + c.sent;
          totalTotal := totalTotal + c.total;
        }
      }
      assert keys[..|keys|] == keys;
      WalkSum(files.Keys, old(counters), sender, Counter(bytesSent, bytesTotal));
      trace := trace + [Emit(UploadProgress(totalSent, totalTotal), files)];
    }

    /**
     The completion callback of `reply`: take its file name out of the table
     (empty when it is no longer there), then emit the one outcome of the reply.
     */
    method Reply(reply: Handle, error: NetworkError, rateLimitRemaining: string, body: seq<Token>)
      requires Valid() && reply in issued
      modifies this
      ensures Valid()
      ensures directUrl == old(directUrl) && counters == old(counters) && issued == old(issued)
      ensures files == old(files) - {reply}
      ensures trace == old(trace)
        + [Emit(Completion(FileNameOf(old(files), reply), error, rateLimitRemaining, body, directUrl), files)]
    {
      var fileName := FileNameOf(files, reply);
      files := files - {reply};

      if error != NoError {
        if error == OperationCanceledError {
          trace := trace + [Emit(Error(fileName, ErrorCancel), files)];
        } else {
          trace := trace + [Emit(Error(fileName, ErrorNetwork), files)];
        }
        return;
      }

      if rateLimitRemaining == CreditsExhausted {
        trace := trace + [Emit(Error(fileName, ErrorCredits), files)];
        return;
      }

      var urlOption := "imgur_page";
      if directUrl {
        urlOption := "original";
      }
      var hasError, url, deleteHash := ScanResponse(body, urlOption);

      if deleteHash == "" || url == "" || hasError {
        trace := trace + [Emit(Error(fileName, ErrorUpload), files)];
      } else {
        trace := trace + [Emit(Uploaded(fileName, url, deleteHash), files)];
      }
    }
  }

  /**
   A file is uploaded, then canceled, then the transport reports the abort.
   The abort is made with the entry already removed, so the table it sees is
   empty, and the outcome is ErrorCancel with an empty file name.
   */
  method CancelThenAbortCompletion(codec: Codec, contents: Bytes) returns (abort: Action, s: Signal)
    ensures abort == Abort(7, map[])
    ensures s == Error("", ErrorCancel)
  {
    var imgur := new QtImgur("key", codec);
    imgur.Upload("shot.png", Opened(contents), 7);
    imgur.Cancel("shot.png");
    abort := imgur.trace[|imgur.trace| - 1];
    imgur.Reply(7, OperationCanceledError, "", []);
    s := imgur.trace[|imgur.trace| - 1].signal;
  }

  /**
   A file that does not open leaves nothing in flight: a following cancelAll
   aborts nothing.
   */
  method UnreadableThenCancelAll(codec: Codec) returns (aborts: nat, s: Signal)
    ensures aborts == 0
    ensures s == Error("missing.png", ErrorFile)
  {
    var imgur := new QtImgur("key", codec);
    imgur.Upload("missing.png", OpenFailed, 3);
    s := imgur.trace[0].signal;
    var before := |imgur.trace|;
    imgur.CancelAll();
    aborts := |imgur.trace| - before;
  }
}
