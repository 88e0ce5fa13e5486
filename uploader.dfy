/**
  The OpenAI side of the pipeline: upload the changed article files, add them to an existing
  vector store (polling the batch for a bounded time), bind the vector store to the
  assistant, and keep `optibot_config.json` up to date. The OpenAI client is an oracle
  (`Remote`) that fixes every answer in advance; every call made to it is appended to the
  uploader's request log, so "no call", "one call" and "at most twenty calls" can be stated.
 */
module Uploader {
  import opened Wrappers
  import opened Scraper

  // ---------------------------------------------------------------------------------------
  // Constants

  const AssistantName := "OptiBot"
  const AssistantModel := "gpt-4o-mini"
  /** The assistant's instructions, line by line. */
  const SystemPrompt :=
    "You are OptiBot, the customer-support bot for OptiSigns.com." + "\n"
    + "• Tone: helpful, factual, concise." + "\n"
    + "• Only answer using the uploaded docs." + "\n"
    + "• Max 5 bullet points; else link to the doc." + "\n"
    + "• Cite up to 3 \"Article URL:\" lines per reply."

  /** The batch poll gives up once `waited` reaches this many seconds. */
  const MaxWait := 60
  /** Seconds slept before each status retrieve. */
  const PollInterval := 3

  const AssistantIdKey := "assistant_id"
  const VectorStoreIdKey := "vector_store_id"
  const LastUploadKey := "last_upload"
  const FilesUploadedKey := "files_uploaded"
  const AttachmentSuccessKey := "vector_store_attachment_success"

  // ---------------------------------------------------------------------------------------
  // Data model

  /** A JSON value of the config file. `Other` stands for floats, lists and objects, with
      their Python truthiness. */
  datatype ConfigValue = Null | Bool(b: bool) | Int(i: int) | Str(s: string) | Other(truthy: bool)

  /** The config file: a JSON object. */
  type Config = map<string, ConfigValue>

  /** The status of a vector-store file batch. `Settled(name)` is any other status the
      service reports (`failed`, `cancelled`, ...); its name is never `in_progress`, `queued`
      or `completed`, which are the other three constructors. */
  datatype BatchStatus = InProgress | Queued | Completed | Settled(name: string)

  /** The answers of the OpenAI client, fixed in advance. `None` means the call raises. */
  datatype Remote = Remote(
    /** `assistants.create`: the new assistant's id. */
    assistantId: Option<string>,
    /** `files.create` for the `i`-th file of the upload: the new file's id. */
    fileId: nat -> Option<string>,
    /** `file_batches.create`: the new batch's status. */
    batch: Option<BatchStatus>,
    /** `file_batches.retrieve` issued once `waited` has reached `w`: the batch's status. */
    poll: nat -> Option<BatchStatus>,
    /** Whether `assistants.update` succeeds. */
    updateSucceeds: bool)

  /** A call made to the OpenAI client. */
  datatype Request =
    | AssistantCreate(name: string, instructions: string, model: string)
    | FileUpload(filename: string, content: string)
    | BatchCreate(vectorStoreId: ConfigValue, fileIds: seq<string>)
    | BatchRetrieve(vectorStoreId: ConfigValue)
    | AssistantUpdate(assistantId: ConfigValue, vectorStoreIds: seq<ConfigValue>)

  /** The one exception `setup_assistant` lets through: the assistant could not be created. */
  datatype SetupError = AssistantCreationFailed

  /** What one `setup_assistant` call returns and leaves behind. */
  datatype Run = Run(result: Result<ConfigValue, SetupError>, vectorStoreId: ConfigValue, config: Config, requests: seq<Request>)

  /** Python truthiness, as `if not x:` reads it. */
  predicate Truthy(v: ConfigValue)
  {
    match v
    case Null => false
    case Bool(b) => b
    case Int(i) => i != 0
    case Str(s) => s != []
    case Other(truthy) => truthy
  }

  /** `config.get(key)`: `None` for a missing key. */
  function Get(config: Config, key: string): ConfigValue
  {
    if key in config then config[key] else Null
  }

  /** The call creating the assistant with the given instructions. */
  function CreateRequest(instructions: string): Request
  {
    AssistantCreate(AssistantName, instructions, AssistantModel)
  }

  predicate CreatesNoAssistant(requests: seq<Request>)
  {
    forall r | r in requests :: !r.AssistantCreate?
  }

  predicate TouchesVectorStore(r: Request)
  {
    r.BatchCreate? || r.BatchRetrieve? || r.AssistantUpdate?
  }

  // ---------------------------------------------------------------------------------------
  // Upload

  /** The name of the temporary file uploaded for an article file. */
  function TempName(filename: string): string
  {
    "temp_" + filename
  }

  /** The upload calls for `files`, one per file, in order. */
  function UploadRequests(files: seq<ProcessedFile>): seq<Request>
  {
    if files == [] then []
    else
      var last := files[|files| - 1];
      UploadRequests(files[..|files| - 1]) + [FileUpload(TempName(last.filename), last.content)]
  }

  /** The ids of the uploads among the first `count` that succeed, in order. */
  function UploadedIds(count: nat, fileId: nat -> Option<string>): seq<string>
  {
    if count == 0 then []
    else UploadedIds(count - 1, fileId) + (if fileId(count - 1).Some? then [fileId(count - 1).value] else [])
  }

  /** Each uploaded id comes from an upload that succeeded, so there are at most as many
      ids as uploads. */
  lemma {:induction false} UploadedIdsComeFromSuccesses(count: nat, fileId: nat -> Option<string>)
    ensures |UploadedIds(count, fileId)| <= count
    ensures forall j | 0 <= j < |UploadedIds(count, fileId)| ::
      exists i | 0 <= i < count :: fileId(i) == Some(UploadedIds(count, fileId)[j])
  {
    if count > 0 {
      var n := count - 1;
      UploadedIdsComeFromSuccesses(n, fileId);
      var ids := UploadedIds(count, fileId);
      var init := UploadedIds(n, fileId);
      forall j | 0 <= j < |ids| ensures exists i | 0 <= i < count :: fileId(i) == Some(ids[j]) {
        if j < |init| {
          assert ids[j] == init[j];
          var i :| 0 <= i < n && fileId(i) == Some(init[j]);
        } else {
          assert fileId(n) == Some(ids[j]);
        }
      }
    }
  }

  /** The id of every upload that succeeds is among the uploaded ids. */
  lemma {:induction false} UploadedIdsIncludeTheSuccesses(count: nat, fileId: nat -> Option<string>, i: nat)
    requires i < count && fileId(i).Some?
    ensures fileId(i).value in UploadedIds(count, fileId)
  {
    if i < count - 1 {
      UploadedIdsIncludeTheSuccesses(count - 1, fileId, i);
    }
  }

  /** When every upload succeeds, all the ids are there, in upload order. */
  lemma {:induction false} AllUploadsSucceed(count: nat, fileId: nat -> Option<string>)
    requires forall i | 0 <= i < count :: fileId(i).Some?
    ensures |UploadedIds(count, fileId)| == count
    ensures forall i | 0 <= i < count :: UploadedIds(count, fileId)[i] == fileId(i).value
  {
    if count > 0 {
      AllUploadsSucceed(count - 1, fileId);
    }
  }

  /** The upload of an article never creates an assistant. */
  lemma {:induction false} UploadCreatesNoAssistant(files: seq<ProcessedFile>)
    ensures CreatesNoAssistant(UploadRequests(files))
    ensures forall r | r in UploadRequests(files) :: !TouchesVectorStore(r)
  {
    if files != [] {
      UploadCreatesNoAssistant(files[..|files| - 1]);
    }
  }

  // ---------------------------------------------------------------------------------------
  // Batch polling

  predicate IsPending(status: BatchStatus)
  {
    status == InProgress || status == Queued
  }

  /** The poll loop of `attach_to_vector_store`, from `status` after `waited` seconds: the
      last status seen and the final `waited`. A retrieve that raises ends the loop with the
      status seen before it. */
  function PollEnd(status: BatchStatus, waited: nat, poll: nat -> Option<BatchStatus>): (BatchStatus, nat)
    decreases MaxWait - waited
  {
    if !IsPending(status) || waited >= MaxWait then (status, waited)
    else
      var answer := poll(waited + PollInterval);
      if answer.None? then (status, waited + PollInterval)
      else PollEnd(answer.value, waited + PollInterval, poll)
  }

  /** The poll always stops, after at most `MaxWait` seconds (twenty retrieves), and only
      because the status settled, the time ran out, or a retrieve raised. */
  lemma {:induction false} PollIsBounded(status: BatchStatus, waited: nat, poll: nat -> Option<BatchStatus>)
    requires waited % PollInterval == 0 && waited <= MaxWait
    ensures var (last, end) := PollEnd(status, waited, poll);
      && waited <= end <= MaxWait && end % PollInterval == 0
      && (!IsPending(last) || end == MaxWait || (waited < end && poll(end).None?))
    decreases MaxWait - waited
  {
    if IsPending(status) && waited < MaxWait {
      var answer := poll(waited + PollInterval);
      if answer.Some? {
        PollIsBounded(answer.value, waited + PollInterval, poll);
      }
    }
  }

  /** The poll stops at the first answer that is settled, and reports it. */
  lemma {:induction false} PollStopsOnFirstSettledAnswer(status: BatchStatus, waited: nat, w: nat, poll: nat -> Option<BatchStatus>)
    requires IsPending(status) && waited % PollInterval == 0 && w % PollInterval == 0
    requires waited < w <= MaxWait
    requires forall v | waited < v < w && v % PollInterval == 0 :: poll(v).Some? && IsPending(poll(v).value)
    requires poll(w).Some? && !IsPending(poll(w).value)
    ensures PollEnd(status, waited, poll) == (poll(w).value, w)
    decreases w - waited
  {
    var next := waited + PollInterval;
    if next < w {
      PollStopsOnFirstSettledAnswer(poll(next).value, next, w, poll);
    }
  }

  /** A retrieve that raises ends the poll there, with a status still pending. */
  lemma {:induction false} PollStopsOnError(status: BatchStatus, waited: nat, w: nat, poll: nat -> Option<BatchStatus>)
    requires IsPending(status) && waited % PollInterval == 0 && w % PollInterval == 0
    requires waited < w <= MaxWait
    requires forall v | waited < v < w && v % PollInterval == 0 :: poll(v).Some? && IsPending(poll(v).value)
    requires poll(w).None?
    ensures PollEnd(status, waited, poll).1 == w && IsPending(PollEnd(status, waited, poll).0)
    decreases w - waited
  {
    var next := waited + PollInterval;
    if next < w {
      PollStopsOnError(poll(next).value, next, w, poll);
    }
  }

  /** `count` status retrieves. */
  function Retrieves(count: nat, vectorStoreId: ConfigValue): (r: seq<Request>)
    ensures |r| == count
    ensures forall q | q in r :: q == BatchRetrieve(vectorStoreId)
  {
    if count == 0 then [] else Retrieves(count - 1, vectorStoreId) + [BatchRetrieve(vectorStoreId)]
  }

  /** Every poll step adds one retrieve. */
  lemma RetrievesStep(waited: nat, vectorStoreId: ConfigValue)
    requires waited % PollInterval == 0
    ensures Retrieves((waited + PollInterval) / PollInterval, vectorStoreId)
         == Retrieves(waited / PollInterval, vectorStoreId) + [BatchRetrieve(vectorStoreId)]
  {
    assert (waited + PollInterval) / PollInterval == waited / PollInterval + 1;
  }

  // ---------------------------------------------------------------------------------------
  // Vector-store attachment

  /** Whether `attach_to_vector_store` returns True: there are files and a vector store id,
      the batch is created, and the last status the poll sees is `completed`. */
  predicate AttachSucceeds(uploaded: seq<string>, vectorStoreId: ConfigValue, remote: Remote)
  {
    && uploaded != [] && Truthy(vectorStoreId) && remote.batch.Some?
    && PollEnd(remote.batch.value, 0, remote.poll).0 == Completed
  }

  /** The calls `attach_to_vector_store` makes: none without files or a vector store id;
      otherwise the batch creation and, when it succeeds, one retrieve per poll step. */
  function AttachRequests(uploaded: seq<string>, vectorStoreId: ConfigValue, remote: Remote): seq<Request>
  {
    if uploaded == [] || !Truthy(vectorStoreId) then []
    else
      [BatchCreate(vectorStoreId, uploaded)]
      + if remote.batch.None? then []
        else Retrieves(PollEnd(remote.batch.value, 0, remote.poll).1 / PollInterval, vectorStoreId)
  }

  /** The attach makes no call without files or a vector store id, and at most one batch
      creation and twenty retrieves otherwise. */
  lemma AttachRequestsBounded(uploaded: seq<string>, vectorStoreId: ConfigValue, remote: Remote)
    ensures var r := AttachRequests(uploaded, vectorStoreId, remote);
      && (r == [] <==> uploaded == [] || !Truthy(vectorStoreId))
      && |r| <= 1 + MaxWait / PollInterval
      && CreatesNoAssistant(r)
      && forall q | q in r :: TouchesVectorStore(q)
  {
    if uploaded != [] && Truthy(vectorStoreId) && remote.batch.Some? {
      PollIsBounded(remote.batch.value, 0, remote.poll);
    }
  }

  // ---------------------------------------------------------------------------------------
  // Setup

  /** The keys `setup_assistant` writes. */
  function RunKeys(): set<string>
  {
    {AssistantIdKey, VectorStoreIdKey, LastUploadKey, FilesUploadedKey, AttachmentSuccessKey}
  }

  /** `config.update({...})` at the end of a run: the run's five keys are overwritten and
      every other key is kept. */
  function RecordRun(config: Config, assistantId: ConfigValue, vectorStoreId: ConfigValue, now: string, uploaded: nat, attached: bool): (r: Config)
    ensures r.Keys == config.Keys + RunKeys()
    ensures forall key | key in config && key !in RunKeys() :: r[key] == config[key]
    ensures r[AssistantIdKey] == assistantId && r[VectorStoreIdKey] == vectorStoreId
    ensures r[LastUploadKey] == Str(now) && r[FilesUploadedKey] == Int(uploaded)
    ensures r[AttachmentSuccessKey] == Bool(attached)
  {
    config[AssistantIdKey := assistantId][VectorStoreIdKey := vectorStoreId][LastUploadKey := Str(now)]
      [FilesUploadedKey := Int(uploaded)][AttachmentSuccessKey := Bool(attached)]
  }

  /** One `setup_assistant` run, for the constructor's vector store id `given` and the
      loaded `config`; `now` is the timestamp recorded. */
  function SetupRun(instructions: string, given: ConfigValue, config: Config, files: seq<ProcessedFile>, remote: Remote, now: string): Run
  {
    var vectorStoreId := if Truthy(given) then given else Get(config, VectorStoreIdKey);
    var stored := Get(config, AssistantIdKey);
    if Truthy(stored) then FinishRun(config, stored, vectorStoreId, files, remote, now)
    else if remote.assistantId.None? then
      Run(Failure(AssistantCreationFailed), vectorStoreId, config, [CreateRequest(instructions)])
    else
      var run := FinishRun(config, Str(remote.assistantId.value), vectorStoreId, files, remote, now);
      run.(requests := [CreateRequest(instructions)] + run.requests)
  }

  /** The rest of a run once the assistant is known: upload, attach when there are uploaded
      files and a vector store id, and record the run in the config. */
  function FinishRun(config: Config, assistantId: ConfigValue, vectorStoreId: ConfigValue, files: seq<ProcessedFile>, remote: Remote, now: string): Run
  {
    var uploaded := UploadedIds(|files|, remote.fileId);
    Run(Success(assistantId), vectorStoreId,
      RecordRun(config, assistantId, vectorStoreId, now, |uploaded|, BothAttached(uploaded, vectorStoreId, remote)),
      UploadRequests(files) + AttachStepRequests(uploaded, assistantId, vectorStoreId, remote))
  }

  /** `vector_store_attachment_success`: both attach steps ran and succeeded. */
  predicate BothAttached(uploaded: seq<string>, vectorStoreId: ConfigValue, remote: Remote)
  {
    uploaded != [] && Truthy(vectorStoreId) && AttachSucceeds(uploaded, vectorStoreId, remote) && remote.updateSucceeds
  }

  /** The calls of a run's two attach steps, made only with uploaded files and a vector
      store id. */
  function AttachStepRequests(uploaded: seq<string>, assistantId: ConfigValue, vectorStoreId: ConfigValue, remote: Remote): seq<Request>
  {
    if uploaded != [] && Truthy(vectorStoreId)
    then AttachRequests(uploaded, vectorStoreId, remote) + [AssistantUpdate(assistantId, [vectorStoreId])]
    else []
  }

  /** A vector store id given to the constructor wins; the config's is used only when none
      (or an empty one) was given. */
  lemma VectorStoreResolution(instructions: string, given: ConfigValue, config: Config, files: seq<ProcessedFile>, remote: Remote, now: string)
    ensures var run := SetupRun(instructions, given, config, files, remote, now);
      && (Truthy(given) ==> run.vectorStoreId == given)
      && (!Truthy(given) ==> run.vectorStoreId == Get(config, VectorStoreIdKey))
  {
  }

  /** A stored assistant id is reused and no assistant is created; otherwise exactly one
      assistant is created, first, and the run returns its id (or fails with it). */
  lemma ReusesOrCreatesAssistant(instructions: string, given: ConfigValue, config: Config, files: seq<ProcessedFile>, remote: Remote, now: string)
    ensures var run := SetupRun(instructions, given, config, files, remote, now);
      var stored := Get(config, AssistantIdKey);
      && (Truthy(stored) ==> run.result == Success(stored) && CreatesNoAssistant(run.requests))
      && (!Truthy(stored) ==>
        && run.requests != [] && run.requests[0] == CreateRequest(instructions)
        && CreatesNoAssistant(run.requests[1..])
        && (remote.assistantId.None? ==> run.result == Failure(AssistantCreationFailed))
        && (remote.assistantId.Some? ==> run.result == Success(Str(remote.assistantId.value))))
  {
    var run := SetupRun(instructions, given, config, files, remote, now);
    if Truthy(Get(config, AssistantIdKey)) || remote.assistantId.Some? {
      var vectorStoreId := run.vectorStoreId;
      var uploaded := UploadedIds(|files|, remote.fileId);
      UploadCreatesNoAssistant(files);
      AttachRequestsBounded(uploaded, vectorStoreId, remote);
      if !Truthy(Get(config, AssistantIdKey)) {
        assert run.requests[1..] == run.requests[|[CreateRequest(instructions)]|..];
      }
    }
  }

  /** Both attach steps run exactly when a file was uploaded and a vector store id is set,
      and the assistant is bound even when the batch failed. */
  lemma AttachOnlyWithUploadsAndStore(instructions: string, given: ConfigValue, config: Config, files: seq<ProcessedFile>, remote: Remote, now: string)
    requires SetupRun(instructions, given, config, files, remote, now).result.Success?
    ensures var run := SetupRun(instructions, given, config, files, remote, now);
      var uploaded := UploadedIds(|files|, remote.fileId);
      var attempted := uploaded != [] && Truthy(run.vectorStoreId);
      && (attempted ==>
        && BatchCreate(run.vectorStoreId, uploaded) in run.requests
        && AssistantUpdate(run.result.value, [run.vectorStoreId]) in run.requests)
      && (!attempted ==> forall r | r in run.requests :: !TouchesVectorStore(r))
  {
    var run := SetupRun(instructions, given, config, files, remote, now);
    var finish := FinishRun(config, run.result.value, run.vectorStoreId, files, remote, now);
    SetupRunFinishes(instructions, given, config, files, remote, now);
    FinishAttaches(config, run.result.value, run.vectorStoreId, files, remote, now);
    RequestsAfterCreate(CreateRequest(instructions), finish.requests, run.requests);
  }

  /** The requests of a run are those of its finish, after at most one creation request. */
  lemma RequestsAfterCreate(create: Request, finish: seq<Request>, all: seq<Request>)
    requires all == finish || all == [create] + finish
    ensures forall r | r in finish :: r in all
    ensures forall r | r in all :: r in finish || r == create
  {
  }

  /** A successful run is the finish of the run with the assistant it returns, after the
      assistant's creation when there was none. */
  lemma SetupRunFinishes(instructions: string, given: ConfigValue, config: Config, files: seq<ProcessedFile>, remote: Remote, now: string)
    requires SetupRun(instructions, given, config, files, remote, now).result.Success?
    ensures var run := SetupRun(instructions, given, config, files, remote, now);
      var finish := FinishRun(config, run.result.value, run.vectorStoreId, files, remote, now);
      && run.config == finish.config
      && (run.requests == finish.requests || run.requests == [CreateRequest(instructions)] + finish.requests)
  {
  }

  /** The attach steps once the assistant is known, as above. */
  lemma FinishAttaches(config: Config, assistantId: ConfigValue, vectorStoreId: ConfigValue, files: seq<ProcessedFile>, remote: Remote, now: string)
    ensures var run := FinishRun(config, assistantId, vectorStoreId, files, remote, now);
      var uploaded := UploadedIds(|files|, remote.fileId);
      var attempted := uploaded != [] && Truthy(vectorStoreId);
      && (attempted ==>
        && BatchCreate(vectorStoreId, uploaded) in run.requests
        && AssistantUpdate(assistantId, [vectorStoreId]) in run.requests)
      && (!attempted ==> forall r | r in run.requests :: !TouchesVectorStore(r))
  {
    UploadCreatesNoAssistant(files);
  }

  /** The config is saved on every successful run: every other key kept, the assistant and
      vector store ids, the time and the number of uploaded files recorded, and the
      attachment recorded as successful iff both attach steps ran and succeeded. */
  lemma SuccessfulRunSavesConfig(instructions: string, given: ConfigValue, config: Config, files: seq<ProcessedFile>, remote: Remote, now: string)
    requires SetupRun(instructions, given, config, files, remote, now).result.Success?
    ensures var run := SetupRun(instructions, given, config, files, remote, now);
      && run.config.Keys == config.Keys + RunKeys()
      && (forall key | key in config && key !in RunKeys() :: run.config[key] == config[key])
      && run.config[AssistantIdKey] == run.result.value
      && run.config[VectorStoreIdKey] == run.vectorStoreId
      && run.config[FilesUploadedKey] == Int(|UploadedIds(|files|, remote.fileId)|)
      && run.config[LastUploadKey] == Str(now)
      && run.config[AttachmentSuccessKey] == Bool(
        && UploadedIds(|files|, remote.fileId) != [] && Truthy(run.vectorStoreId)
        && AttachSucceeds(UploadedIds(|files|, remote.fileId), run.vectorStoreId, remote) && remote.updateSucceeds)
  {
  }

  /** A second run on the config a successful run saved reuses that run's assistant (unless
      the service handed out an empty id) and its vector store. */
  lemma SecondRunReusesAssistant(instructions: string, given: ConfigValue, config: Config, files: seq<ProcessedFile>, remote: Remote, now: string,
                                 files2: seq<ProcessedFile>, remote2: Remote, now2: string)
    requires SetupRun(instructions, given, config, files, remote, now).result.Success?
    requires remote.assistantId != Some([])
    ensures var first := SetupRun(instructions, given, config, files, remote, now);
      var second := SetupRun(instructions, given, first.config, files2, remote2, now2);
      && second.result == first.result
      && second.vectorStoreId == first.vectorStoreId
      && CreatesNoAssistant(second.requests)
  {
    var first := SetupRun(instructions, given, config, files, remote, now);
    assert Truthy(first.result.value);
    assert Get(first.config, AssistantIdKey) == first.result.value;
    ReusesOrCreatesAssistant(instructions, given, first.config, files2, remote2, now2);
  }

  /** Concatenation associates; calls are logged by appending. */
  lemma AppendAssociates<T>(a: seq<T>, b: seq<T>, c: seq<T>)
    ensures a + b + c == a + (b + c)
  {
  }

  // ---------------------------------------------------------------------------------------
  // The uploader object

  class OpenAIUploader {
    /** `self.vector_store_id`. */
    var vectorStoreId: ConfigValue
    /** Contents of `optibot_config.json`; `{}` when the file is missing or unreadable. */
    var configFile: Config
    /** Every call made to the OpenAI client so far, in order. */
    var requests: seq<Request>
    /** The instructions the assistant is created with. */
    const instructions: string

    constructor (vectorStoreId: Option<string>, configFile: Config)
      ensures this.vectorStoreId == if vectorStoreId.Some? then Str(vectorStoreId.value) else Null
      ensures this.configFile == configFile && requests == []
      ensures instructions == SystemPrompt
    {
      instructions := SystemPrompt;
      this.vectorStoreId := if vectorStoreId.Some? then Str(vectorStoreId.value) else Null;
      this.configFile := configFile;
      requests := [];
    }

    /** `create_assistant`: one create call; its id, or `None` when it raises. */
    method CreateAssistant(remote: Remote) returns (id: Option<string>)
      modifies this`requests
      ensures id == remote.assistantId && requests == old(requests) + [CreateRequest(instructions)]
    {
      requests := requests + [CreateRequest(instructions)];
      id := remote.assistantId;
    }

    /** `upload_files`: no call for no files; otherwise one upload per file, keeping the ids
        of those that succeed and skipping the others. */
    method UploadFiles(files: seq<ProcessedFile>, fileId: nat -> Option<string>) returns (uploaded: seq<string>)
      modifies this`requests
      ensures uploaded == UploadedIds(|files|, fileId)
      ensures requests == old(requests) + UploadRequests(files)
    {
      if files == [] {
        return [];
      }
      uploaded := [];
      for i := 0 to |files|
        invariant uploaded == UploadedIds(i, fileId)
        invariant requests == old(requests) + UploadRequests(files[..i])
      {
        assert files[..i + 1][..i] == files[..i];
        var file := files[i];
        requests := requests + [FileUpload(TempName(file.filename), file.content)];
        var id := fileId(i);
        if id.Some? {
          uploaded := uploaded + [id.value];
        }
      }
      assert files[..|files|] == files;
    }

    /** `attach_to_vector_store`: add the uploaded files to the vector store as one batch and
        poll its status every `PollInterval` seconds while it is pending, for at most
        `MaxWait` seconds; True iff the last status seen is `completed`. */
    method AttachToVectorStore(uploaded: seq<string>, remote: Remote) returns (ok: bool)
      modifies this`requests
      ensures ok == AttachSucceeds(uploaded, vectorStoreId, remote)
      ensures requests == old(requests) + AttachRequests(uploaded, vectorStoreId, remote)
    {
      if uploaded == [] || !Truthy(vectorStoreId) {
        return false;
      }
      requests := requests + [BatchCreate(vectorStoreId, uploaded)];
      if remote.batch.None? {
        return false;
      }
      var status := PollBatch(remote.batch.value, remote.poll);
      ok := status == Completed;
    }

    /** The poll loop of `attach_to_vector_store`, from the status the batch was created
        with: one retrieve per step; the last status seen. */
    method PollBatch(first: BatchStatus, poll: nat -> Option<BatchStatus>) returns (status: BatchStatus)
      modifies this`requests
      ensures status == PollEnd(first, 0, poll).0
      ensures requests == old(requests) + Retrieves(PollEnd(first, 0, poll).1 / PollInterval, vectorStoreId)
    {
      status := first;
      var waited := 0;
      ghost var end := PollEnd(first, 0, poll);
      ghost var created := requests;
      while IsPending(status) && waited < MaxWait
        invariant waited % PollInterval == 0 && waited <= MaxWait
        invariant PollEnd(status, waited, poll) == end
        invariant requests == created + Retrieves(waited / PollInterval, vectorStoreId)
        decreases MaxWait - waited
      {
        RetrievesStep(waited, vectorStoreId);
        waited := waited + PollInterval;
        requests := requests + [BatchRetrieve(vectorStoreId)];
        var answer := poll(waited);
        if answer.None? {
          assert end == (status, waited);
          return;
        }
        status := answer.value;
      }
    }

    /** `attach_vector_store_to_assistant`: no call without a vector store id; otherwise one
        update binding it to the assistant, True iff the update succeeds. */
    method AttachVectorStoreToAssistant(assistantId: ConfigValue, remote: Remote) returns (ok: bool)
      modifies this`requests
      ensures ok == (Truthy(vectorStoreId) && remote.updateSucceeds)
      ensures requests == old(requests) + if Truthy(vectorStoreId) then [AssistantUpdate(assistantId, [vectorStoreId])] else []
    {
      if !Truthy(vectorStoreId) {
        return false;
      }
      requests := requests + [AssistantUpdate(assistantId, [vectorStoreId])];
      ok := remote.updateSucceeds;
    }

    /** `setup_assistant`: resolve the vector store id, reuse or create the assistant,
        upload the files, attach them when possible, and save the config. */
    method SetupAssistant(files: seq<ProcessedFile>, remote: Remote, now: string) returns (result: Result<ConfigValue, SetupError>)
      modifies this
      ensures var run := SetupRun(instructions, old(vectorStoreId), old(configFile), files, remote, now);
        && result == run.result && vectorStoreId == run.vectorStoreId
        && configFile == run.config && requests == old(requests) + run.requests
    {
      var config := configFile;
      var assistantId := Get(config, AssistantIdKey);
      if !Truthy(vectorStoreId) {
        vectorStoreId := Get(config, VectorStoreIdKey);
      }
      if Truthy(assistantId) {
        result := UploadAndRecord(config, assistantId, files, remote, now);
      } else {
        var created := CreateAssistant(remote);
        if created.None? {
          return Failure(AssistantCreationFailed);
        }
        result := UploadAndRecord(config, Str(created.value), files, remote, now);
        ghost var finish := FinishRun(config, Str(created.value), vectorStoreId, files, remote, now);
        AppendAssociates(old(requests), [CreateRequest(instructions)], finish.requests);
      }
    }

    /** The second half of `setup_assistant`, once the assistant is known. */
    method UploadAndRecord(config: Config, assistantId: ConfigValue, files: seq<ProcessedFile>, remote: Remote, now: string)
      returns (result: Result<ConfigValue, SetupError>)
      modifies this`requests, this`configFile
      ensures var run := FinishRun(config, assistantId, vectorStoreId, files, remote, now);
        && result == run.result && configFile == run.config && requests == old(requests) + run.requests
    {
      var uploaded := UploadFiles(files, remote.fileId);
      var attached := AttachSteps(uploaded, assistantId, remote);
      AppendAssociates(old(requests), UploadRequests(files), AttachStepRequests(uploaded, assistantId, vectorStoreId, remote));
      configFile := RecordRun(config, assistantId, vectorStoreId, now, |uploaded|, attached);
      result := Success(assistantId);
    }

    /** Both attach steps of `setup_assistant`: the second runs even when the first fails. */
    method AttachSteps(uploaded: seq<string>, assistantId: ConfigValue, remote: Remote) returns (attached: bool)
      modifies this`requests
      ensures attached == BothAttached(uploaded, vectorStoreId, remote)
      ensures requests == old(requests) + AttachStepRequests(uploaded, assistantId, vectorStoreId, remote)
    {
      var attachedFiles, attachedAssistant := false, false;
      if uploaded != [] && Truthy(vectorStoreId) {
        attachedFiles := AttachToVectorStore(uploaded, remote);
        attachedAssistant := AttachVectorStoreToAssistant(assistantId, remote);
      }
      attached := attachedFiles && attachedAssistant;
    }
  }
}
