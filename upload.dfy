/** The producer (`scripts/upload.js`): command-line parsing, the 50 MiB guard, the
    choice of video handle and thumbnail from the Bot API replies, the metadata post,
    and the in-place upsert of the local catalog. The Bot API calls, the file system
    and the clock are inputs; a run is the list of effects it performs and how it ends. */
module Upload {
  import opened JsValues
  import opened Schema
  import opened Catalog

  // ---------------------------------------------------------------------------
  // parseArgs

  /** `arg.replace(/^--/, '')`: one leading `--` is removed. */
  function StripFlag(arg: string): (key: string)
    ensures |arg| >= 2 && arg[..2] == "--" ==> arg == "--" + key
    ensures !(|arg| >= 2 && arg[..2] == "--") ==> key == arg
  {
    if |arg| >= 2 && arg[..2] == "--" then arg[2..] else arg
  }

  /** The parameters read from the command line; None is `undefined`, the value of a
      trailing key without a value. */
  type Params = map<string, Option<string>>

  /** The key whose assignment on a plain object is not an own property: the
      `__proto__` setter ignores a string or `undefined`. */
  const ProtoKey := "__proto__"

  /** `params[key] = value`. */
  function StoreParam(m: Params, arg: string, value: Option<string>): Params {
    var key := StripFlag(arg);
    if key == ProtoKey then m else m[key := value]
  }

  /** The value paired with the key at index `i`: the next argument, if any. */
  function ValueAfter(args: seq<string>, i: nat): Option<string> {
    if i + 1 < |args| then Some(args[i + 1]) else None
  }

  /** The number of key-value pairs the loop visits: one per even index. */
  function Pairs(args: seq<string>): (n: nat)
    ensures |args| <= 2 * n <= |args| + 1
  {
    (|args| + 1) / 2
  }

  /** The key of pair `p`: the argument at index `2 * p`, flag stripped. */
  function KeyAt(args: seq<string>, p: nat): string
    requires 2 * p < |args|
  {
    StripFlag(args[2 * p])
  }

  /** The parameters after the first `n` pairs are assigned, in order, so that a later
      pair overrides an earlier one. */
  function ParamsOfPairs(args: seq<string>, n: nat): Params
    requires 2 * n <= |args| + 1
    decreases n
  {
    if n == 0 then map[] else StoreParam(ParamsOfPairs(args, n - 1), args[2 * (n - 1)], ValueAfter(args, 2 * (n - 1)))
  }

  /** One more pair is one more assignment. */
  lemma ParamsOfPairsStep(args: seq<string>, n: nat)
    requires 2 * n < |args|
    ensures ParamsOfPairs(args, n + 1) == StoreParam(ParamsOfPairs(args, n), args[2 * n], ValueAfter(args, 2 * n))
  {
  }

  /** The parameters of the arguments: every pair, assigned in order. */
  function ArgsParams(args: seq<string>): Params {
    ParamsOfPairs(args, Pairs(args))
  }

  /** parseArgs on `process.argv.slice(2)`. */
  method ParseArgs(args: seq<string>) returns (params: Params)
    ensures params == ArgsParams(args)
  {
    params := map[];
    var i := 0;
    ghost var n := 0;
    while i < |args|
      invariant i == 2 * n && 2 * n <= |args| + 1
      invariant params == ParamsOfPairs(args, n)
    {
      ParamsOfPairsStep(args, n);
      var key := StripFlag(args[i]);
      var value := if i + 1 < |args| then Some(args[i + 1]) else None;
      if key != ProtoKey {
        params := params[key := value];
      }
      i := i + 2;
      n := n + 1;
    }
  }

  /** Whether `k` is the key of one of the first `n` pairs. */
  ghost predicate KeyBefore(args: seq<string>, n: nat, k: string)
    requires 2 * n <= |args| + 1
  {
    exists p :: 0 <= p < n && KeyAt(args, p) == k
  }

  lemma KeyBeforeStep(args: seq<string>, n: nat, k: string)
    requires 1 <= n && 2 * n <= |args| + 1
    ensures KeyBefore(args, n, k) <==> KeyBefore(args, n - 1, k) || KeyAt(args, n - 1) == k
  {
    if KeyBefore(args, n, k) {
      var p :| 0 <= p < n && KeyAt(args, p) == k;
      if p < n - 1 {
        assert KeyBefore(args, n - 1, k);
      }
    }
  }

  /** After the first `n` pairs, exactly their keys are parameters (the `__proto__`
      key aside). */
  lemma {:induction false} ParamsOfPairsKeys(args: seq<string>, n: nat, k: string)
    requires 2 * n <= |args| + 1
    ensures k in ParamsOfPairs(args, n) <==> k != ProtoKey && KeyBefore(args, n, k)
    decreases n
  {
    if n > 0 {
      ParamsOfPairsKeys(args, n - 1, k);
      KeyBeforeStep(args, n, k);
      StoreParamKeys(ParamsOfPairs(args, n - 1), args[2 * (n - 1)], ValueAfter(args, 2 * (n - 1)), k);
    }
  }

  lemma StoreParamKeys(m: Params, arg: string, value: Option<string>, k: string)
    ensures k in StoreParam(m, arg, value) <==> k in m || (StripFlag(arg) != ProtoKey && k == StripFlag(arg))
  {
  }

  /** Exactly the keys of the even-index arguments, flag stripped, are parameters
      (the `__proto__` key aside). */
  lemma ArgsParamsKeys(args: seq<string>, k: string)
    ensures k in ArgsParams(args) <==>
      k != ProtoKey && exists p :: 0 <= p && 2 * p < |args| && KeyAt(args, p) == k
  {
    ParamsOfPairsKeys(args, Pairs(args), k);
  }

  lemma {:induction false} ParamsOfPairsLastWins(args: seq<string>, n: nat, p: nat)
    requires 2 * n <= |args| + 1
    requires p < n && KeyAt(args, p) != ProtoKey
    requires forall q :: p < q < n ==> KeyAt(args, q) != KeyAt(args, p)
    ensures KeyAt(args, p) in ParamsOfPairs(args, n)
    ensures ParamsOfPairs(args, n)[KeyAt(args, p)] == ValueAfter(args, 2 * p)
    decreases n
  {
    if p < n - 1 {
      ParamsOfPairsLastWins(args, n - 1, p);
      assert KeyAt(args, n - 1) != KeyAt(args, p);
    }
  }

  /** A later duplicate key overrides an earlier one: a key's value is the argument
      after its last occurrence at an even index, or `undefined` when that occurrence
      is the final argument. */
  lemma ArgsParamsLastWins(args: seq<string>, p: nat)
    requires 2 * p < |args| && KeyAt(args, p) != ProtoKey
    requires forall q :: p < q && 2 * q < |args| ==> KeyAt(args, q) != KeyAt(args, p)
    ensures KeyAt(args, p) in ArgsParams(args)
    ensures ArgsParams(args)[KeyAt(args, p)] == ValueAfter(args, 2 * p)
  {
    ParamsOfPairsLastWins(args, Pairs(args), p);
  }

  /** One leading `--` is stripped, and only one. */
  lemma StripFlagOnce(key: string)
    ensures StripFlag("--" + key) == key
  {
    assert ("--" + key)[..2] == "--";
  }

  /** `params.key` read as a truthy string: present, defined and non-empty. */
  function Given(params: Params, key: string): Option<string> {
    if key in params && params[key].Some? && params[key].value != "" then params[key] else None
  }

  // ---------------------------------------------------------------------------
  // The replies of the Bot API

  /** A file reference in a reply (a photo size, a document, an animation, a thumb). */
  datatype FileRef = FileRef(file_id: string)

  /** The `video` object of a reply, with its optional auto-generated thumbnail. */
  datatype MediaVideo = MediaVideo(file_id: string, thumb: Option<FileRef>)

  /** The sent message a successful upload returns; an absent field is None. */
  datatype SentMessage = SentMessage(
    message_id: int,
    video: Option<MediaVideo>,
    document: Option<FileRef>,
    animation: Option<FileRef>,
    photo: Option<seq<FileRef>>)

  const NoFileIdMessage := "Could not find file_id in Telegram response"

  /** The handles a reply carries, in the order extractFileId looks at them. */
  function Attachments(m: SentMessage): seq<string> {
    (if m.video.Some? then [m.video.value.file_id] else [])
    + (if m.document.Some? then [m.document.value.file_id] else [])
    + (if m.animation.Some? then [m.animation.value.file_id] else [])
  }

  /** extractFileId: the handle of the video, else of the document, else of the
      animation; an error when the reply has none of them. */
  function ExtractFileId(m: SentMessage): (r: Result<string, string>)
    ensures r.Err? <==> Attachments(m) == []
    ensures r.Err? ==> r.error == NoFileIdMessage
    ensures r.Ok? ==> r.value == Attachments(m)[0]
    ensures m.video.Some? ==> r == Ok(m.video.value.file_id)
  {
    if m.video.Some? then Ok(m.video.value.file_id)
    else if m.document.Some? then Ok(m.document.value.file_id)
    else if m.animation.Some? then Ok(m.animation.value.file_id)
    else Err(NoFileIdMessage)
  }

  /** How a step of the upload fails inside main's `try`. */
  datatype Failure =
    | ApiError(description: string)   // a reply with `ok: false`
    | NoFileId(message: string)       // extractFileId threw
    | TypeError                       // a property read on `undefined`
    | CatalogUnreadable               // JSON.parse of the catalog file threw

  /** The thumbnail handle: the last (largest) size of an uploaded photo, else the
      video's auto-generated thumbnail, else empty. `thumbReply` is the reply to the
      photo upload, None when no thumbnail file was uploaded. Reading the last size of
      a reply without sizes is a TypeError. */
  function ChooseThumb(thumbReply: Option<SentMessage>, videoReply: SentMessage): (r: Result<string, Failure>)
    ensures thumbReply.Some? && thumbReply.value.photo.Some? && thumbReply.value.photo.value != [] ==>
      var sizes := thumbReply.value.photo.value; r == Ok(sizes[|sizes| - 1].file_id)
    ensures thumbReply.Some? && (thumbReply.value.photo.None? || thumbReply.value.photo.value == []) ==> r == Err(TypeError)
    ensures thumbReply.None? && videoReply.video.Some? && videoReply.video.value.thumb.Some? ==>
      r == Ok(videoReply.video.value.thumb.value.file_id)
    ensures thumbReply.None? && (videoReply.video.None? || videoReply.video.value.thumb.None?) ==> r == Ok("")
    ensures r.Err? ==> thumbReply.Some?
  {
    match thumbReply
    case Some(reply) =>
      if reply.photo.None? || reply.photo.value == [] then Err(TypeError)
      else Ok(reply.photo.value[|reply.photo.value| - 1].file_id)
    case None =>
      if videoReply.video.Some? && videoReply.video.value.thumb.Some? then Ok(videoReply.video.value.thumb.value.file_id)
      else Ok("")
  }

  // ---------------------------------------------------------------------------
  // The size guard

  const MiB := 1024 * 1024
  const SizeLimitMiB := 50

  /** `stats.size / (1024 * 1024) > 50`, stated on whole bytes. */
  function TooLarge(size: nat): (r: bool)
    ensures r <==> (size as real) / (MiB as real) > SizeLimitMiB as real
  {
    size > SizeLimitMiB * MiB
  }

  /** Exactly 50 MiB passes; one byte more is refused. */
  lemma SizeLimitBoundary()
    ensures !TooLarge(52428800) && TooLarge(52428801)
  {
  }

  // ---------------------------------------------------------------------------
  // updateLocalDB

  /** The list part of updateLocalDB: keep the visible records, then replace the first
      record with the new id where it stands, or append the new record. */
  method UpdateLocalDb(stored: seq<Video>, video: Video) returns (saved: seq<Video>)
    ensures saved == Upsert(KeepVisible(stored), video)
    ensures video in saved
    ensures forall x :: x in saved ==> x == video || (x in stored && Visible(x))
    ensures IdsUnique(KeepVisible(stored)) ==>
      IdsUnique(saved) && LastMap(saved) == LastMap(KeepVisible(stored))[video.id := video]
  {
    var videos := KeepVisible(stored);
    var existingIndex := FindIndex(videos, video.id);
    if existingIndex >= 0 {
      videos := videos[existingIndex := video];
    } else {
      videos := videos + [video];
    }
    saved := videos;
    UpsertFacts(KeepVisible(stored), video);
    forall x | x in saved ensures x == video || (x in stored && Visible(x)) {
      KeepVisibleMembers(stored, x);
    }
  }

  /** What Upsert does to a list: the first record with the new id is replaced with the
      length and every other position unchanged, or the record is appended. */
  lemma UpsertFacts(s: seq<Video>, v: Video)
    ensures var r := Upsert(s, v);
      && v in r
      && (forall x :: x in r ==> x == v || x in s)
      && (FindIndex(s, v.id) >= 0 ==>
            |r| == |s| && r[FindIndex(s, v.id)] == v
            && forall j :: 0 <= j < |s| && j != FindIndex(s, v.id) ==> r[j] == s[j])
      && (FindIndex(s, v.id) < 0 ==> r == s + [v])
      && (IdsUnique(s) ==> IdsUnique(r) && LastMap(r) == LastMap(s)[v.id := v])
  {
    var k := FindIndex(s, v.id);
    var r := Upsert(s, v);
    if k >= 0 {
      assert r == s[k := v];
      assert r[k] == v;
      forall x | x in r ensures x == v || x in s {
        var i :| 0 <= i < |r| && r[i] == x;
        if i != k {
          assert x == s[i];
        }
      }
    } else {
      assert r == s + [v];
      assert r[|s|] == v;
    }
    if IdsUnique(s) {
      UpsertShape(s, v);
      UpsertLastMap(s, v);
    }
  }

  // ---------------------------------------------------------------------------
  // main

  /** What the outside world answers during one run: the environment, the arguments,
      the file system, the Bot API replies (Err is a reply with `ok: false`), the
      probed duration and the two clock reads (milliseconds) for the metadata and
      the local record. */
  datatype PublishEnv = PublishEnv(
    botToken: Option<string>,
    channelId: Option<string>,
    args: seq<string>,
    fileExists: string -> bool,
    sizeOf: string -> nat,
    videoReply: Result<SentMessage, string>,
    thumbReply: Result<SentMessage, string>,
    duration: int,
    metaReply: Result<SentMessage, string>,
    catalog: CatalogFile,
    metaNow: nat,
    localNow: nat)

  /** The outward effects of a run, in order. */
  datatype Effect =
    | UploadVideo(path: string)
    | UploadThumb(path: string)
    | SendMetadata(metadata: Value)
    | SaveCatalog(videos: seq<Video>)

  /** The reasons main exits before the `try`. */
  datatype Abort = MissingCredentials | MissingVideo | MissingTitle | FileNotFound | FileTooLarge

  datatype Exit = Completed | Aborted(reason: Abort) | Failed(failure: Failure)

  datatype PublishRun = PublishRun(effects: seq<Effect>, exit: Exit)

  /** A variable read as a truthy string. */
  predicate Present(v: Option<string>) {
    v.Some? && v.value != ""
  }

  /** The metadata object posted to the channel (lines 196-205). */
  function MetadataOf(msgId: int, fileId: string, thumb: string, title: string, desc: string, duration: int, nowMs: nat): (m: Value)
    ensures Get(m, "type") == Str(MessageType)
    ensures Get(m, "video_msg_id") == Num(msgId)
    ensures Get(m, "uploaded_at") == Num(nowMs / 1000)
  {
    Obj(map[
      "type" := Str(MessageType),
      "video_msg_id" := Num(msgId),
      "file_id" := Str(fileId),
      "thumb_file_id" := Str(thumb),
      "title" := Str(title),
      "description" := Str(desc),
      "duration" := Num(duration),
      "uploaded_at" := Num(nowMs / 1000)])
  }

  /** The local record (lines 211-219). */
  function LocalVideoOf(msgId: int, fileId: string, thumb: string, title: string, desc: string, duration: int, nowMs: nat): (v: Video)
    ensures v.id == IntToString(msgId) && v.uploaded_at == nowMs / 1000
  {
    Video(IntToString(msgId), title, desc, fileId, thumb, duration, nowMs / 1000)
  }

  /** The `--desc` argument, defaulting to empty. */
  function DescOf(params: Params): (d: string)
    ensures Given(params, "desc").None? ==> d == ""
  {
    if Given(params, "desc").Some? then Given(params, "desc").value else ""
  }

  /** One run of main, from the environment checks to the catalog save. */
  function Publish(env: PublishEnv): (run: PublishRun)
    ensures run.exit.Aborted? <==> run.effects == []
  {
    if !Present(env.botToken) || !Present(env.channelId) then PublishRun([], Aborted(MissingCredentials))
    else
      var params := ArgsParams(env.args);
      if Given(params, "video").None? then PublishRun([], Aborted(MissingVideo))
      else if Given(params, "title").None? then PublishRun([], Aborted(MissingTitle))
      else
        var videoPath := Given(params, "video").value;
        var title := Given(params, "title").value;
        if !env.fileExists(videoPath) then PublishRun([], Aborted(FileNotFound))
        else if TooLarge(env.sizeOf(videoPath)) then PublishRun([], Aborted(FileTooLarge))
        else PublishUploads(env, params, videoPath, title)
  }

  /** The `try` block of main: uploads, metadata post, catalog save. */
  function PublishUploads(env: PublishEnv, params: Params, videoPath: string, title: string): (run: PublishRun)
    ensures |run.effects| >= 1 && run.effects[0] == UploadVideo(videoPath)
    ensures !run.exit.Aborted?
  {
    var uploadVideo := [UploadVideo(videoPath)];
    match env.videoReply
    case Err(d) => PublishRun(uploadVideo, Failed(ApiError(d)))
    case Ok(videoMsg) =>
      match ExtractFileId(videoMsg)
      case Err(e) => PublishRun(uploadVideo, Failed(NoFileId(e)))
      case Ok(fileId) =>
        var thumbPath := Given(params, "thumb");
        var uploadsThumb := thumbPath.Some? && env.fileExists(thumbPath.value);
        var thumbEffects := if uploadsThumb then [UploadThumb(thumbPath.value)] else [];
        var uploads := uploadVideo + thumbEffects;
        if uploadsThumb && env.thumbReply.Err? then PublishRun(uploads, Failed(ApiError(env.thumbReply.error)))
        else
          var thumbReply := if uploadsThumb then Some(env.thumbReply.value) else None;
          match ChooseThumb(thumbReply, videoMsg)
          case Err(f) => PublishRun(uploads, Failed(f))
          case Ok(thumb) => PostAndSave(env, params, uploads, videoMsg.message_id, fileId, thumb, title)
  }

  /** Steps 3 and 4 of main: post the metadata, then upsert the local record into the
      catalog and save it. */
  function PostAndSave(env: PublishEnv, params: Params, uploads: seq<Effect>, msgId: int, fileId: string, thumb: string, title: string): (run: PublishRun)
    ensures |run.effects| > |uploads| && run.effects[..|uploads|] == uploads
    ensures run.effects[|uploads|] == SendMetadata(MetadataOf(msgId, fileId, thumb, title, DescOf(params), env.duration, env.metaNow))
    ensures !run.exit.Aborted?
  {
    var desc := DescOf(params);
    var metadata := MetadataOf(msgId, fileId, thumb, title, desc, env.duration, env.metaNow);
    var posted := uploads + [SendMetadata(metadata)];
    if env.metaReply.Err? then PublishRun(posted, Failed(ApiError(env.metaReply.error)))
    else
      var local := LocalVideoOf(msgId, fileId, thumb, title, desc, env.duration, env.localNow);
      match env.catalog
      case Unreadable => PublishRun(posted, Failed(CatalogUnreadable))
      case Missing => PublishRun(posted + [SaveCatalog(Upsert(KeepVisible([]), local))], Completed)
      case Records(stored) => PublishRun(posted + [SaveCatalog(Upsert(KeepVisible(stored), local))], Completed)
  }

  // ---------------------------------------------------------------------------
  // Properties of a run

  /** A missing credential, `--video` or `--title`, a missing file or a file over the
      limit ends the run before anything is uploaded; every other run starts with the
      video upload. */
  lemma PublishAbortsBeforeUpload(env: PublishEnv)
    ensures Publish(env).exit.Aborted? <==> Publish(env).effects == []
    ensures !Present(env.botToken) || !Present(env.channelId) ==> Publish(env) == PublishRun([], Aborted(MissingCredentials))
    ensures Present(env.botToken) && Present(env.channelId) && Given(ArgsParams(env.args), "video").None? ==>
      Publish(env) == PublishRun([], Aborted(MissingVideo))
    ensures (Present(env.botToken) && Present(env.channelId) && Given(ArgsParams(env.args), "video").Some?
      && Given(ArgsParams(env.args), "title").None?) ==> Publish(env) == PublishRun([], Aborted(MissingTitle))
    ensures Publish(env).effects != [] ==> Publish(env).effects[0].UploadVideo?
  {
  }

  /** A file over 50 MiB is refused once the arguments are in order and the file exists. */
  lemma PublishRefusesLargeFile(env: PublishEnv)
    requires Present(env.botToken) && Present(env.channelId)
    requires Given(ArgsParams(env.args), "video").Some? && Given(ArgsParams(env.args), "title").Some?
    requires env.fileExists(Given(ArgsParams(env.args), "video").value)
    ensures Publish(env).exit == Aborted(FileTooLarge) <==> TooLarge(env.sizeOf(Given(ArgsParams(env.args), "video").value))
  {
  }

  /** The shape of the effects of a completed run and of any other run. */
  predicate SavesLastAfterPosting(run: PublishRun) {
    && (run.exit == Completed <==> |run.effects| >= 2 && run.effects[|run.effects| - 1].SaveCatalog?)
    && (run.exit == Completed ==> run.effects[|run.effects| - 2].SendMetadata?)
    && (forall i :: 0 <= i < |run.effects| - 1 ==> !run.effects[i].SaveCatalog?)
  }

  lemma UploadsSaveLast(env: PublishEnv, params: Params, videoPath: string, title: string)
    ensures SavesLastAfterPosting(PublishUploads(env, params, videoPath, title))
  {
    if env.videoReply.Ok? && ExtractFileId(env.videoReply.value).Ok? {
      var videoMsg := env.videoReply.value;
      var thumbPath := Given(params, "thumb");
      var uploadsThumb := thumbPath.Some? && env.fileExists(thumbPath.value);
      var uploads := [UploadVideo(videoPath)] + if uploadsThumb then [UploadThumb(thumbPath.value)] else [];
      var thumbReply := if uploadsThumb && env.thumbReply.Ok? then Some(env.thumbReply.value) else None;
      if !(uploadsThumb && env.thumbReply.Err?) && ChooseThumb(thumbReply, videoMsg).Ok? {
        PostAndSaveLast(env, params, uploads, videoMsg.message_id, ExtractFileId(videoMsg).value,
          ChooseThumb(thumbReply, videoMsg).value, title);
      }
    }
  }

  /** The posting part puts the save, if any, right after the metadata post. */
  lemma PostAndSaveLast(env: PublishEnv, params: Params, uploads: seq<Effect>, msgId: int, fileId: string, thumb: string, title: string)
    requires forall i :: 0 <= i < |uploads| ==> !uploads[i].SaveCatalog?
    ensures SavesLastAfterPosting(PostAndSave(env, params, uploads, msgId, fileId, thumb, title))
  {
    var run := PostAndSave(env, params, uploads, msgId, fileId, thumb, title);
    var n := |uploads|;
    assert forall i :: 0 <= i < n ==> run.effects[i] == uploads[i];
    if run.exit == Completed {
      assert |run.effects| == n + 2;
    } else {
      assert |run.effects| == n + 1;
    }
  }

  /** The catalog is saved only by a completed run, as its last effect, right after the
      metadata post: the message is sent before the local catalog is touched. */
  lemma PublishSavesAfterPosting(env: PublishEnv)
    ensures SavesLastAfterPosting(Publish(env))
  {
    if Present(env.botToken) && Present(env.channelId) {
      var params := ArgsParams(env.args);
      if Given(params, "video").Some? && Given(params, "title").Some? {
        UploadsSaveLast(env, params, Given(params, "video").value, Given(params, "title").value);
      }
    }
  }

  /** What a completed run posts and saves: the saved list is the visible stored
      records with the local record upserted, the local id is the decimal message id,
      and the description defaults to empty. When both clock reads fall in the same
      second, the posted metadata decodes to exactly the saved local record. */
  ghost predicate SavesLocalRecord(env: PublishEnv, run: PublishRun) {
    var params := ArgsParams(env.args);
    && env.videoReply.Ok? && ExtractFileId(env.videoReply.value).Ok? && Given(params, "title").Some?
    && |run.effects| >= 2 && run.effects[|run.effects| - 2].SendMetadata? && run.effects[|run.effects| - 1].SaveCatalog?
    && var videoMsg := env.videoReply.value;
    var meta := run.effects[|run.effects| - 2].metadata;
    var saved := run.effects[|run.effects| - 1].videos;
    var stored := if env.catalog.Records? then env.catalog.videos else [];
    exists local: Video ::
      && saved == Upsert(KeepVisible(stored), local)
      && local.id == IntToString(videoMsg.message_id)
      && local.title == Given(params, "title").value
      && local.description == DescOf(params)
      && local.file_id == ExtractFileId(videoMsg).value
      && local.uploaded_at == env.localNow / 1000
      && (env.metaNow / 1000 == env.localNow / 1000 ==> DecodeMetadata(meta) == Some(local))
  }

  /** Every completed run saves its local record that way. */
  lemma PublishSavesLocalRecord(env: PublishEnv)
    requires Publish(env).exit == Completed
    ensures SavesLocalRecord(env, Publish(env))
  {
    assert Present(env.botToken) && Present(env.channelId);
    var params := ArgsParams(env.args);
    assert Given(params, "video").Some? && Given(params, "title").Some?;
    var videoPath, title := Given(params, "video").value, Given(params, "title").value;
    assert env.fileExists(videoPath) && !TooLarge(env.sizeOf(videoPath));
    assert Publish(env) == PublishUploads(env, params, videoPath, title);
    assert env.videoReply.Ok?;
    var videoMsg := env.videoReply.value;
    assert ExtractFileId(videoMsg).Ok?;
    var fileId := ExtractFileId(videoMsg).value;
    var thumbPath := Given(params, "thumb");
    var uploadsThumb := thumbPath.Some? && env.fileExists(thumbPath.value);
    var uploads := [UploadVideo(videoPath)] + if uploadsThumb then [UploadThumb(thumbPath.value)] else [];
    assert !(uploadsThumb && env.thumbReply.Err?);
    var thumbReply := if uploadsThumb then Some(env.thumbReply.value) else None;
    assert ChooseThumb(thumbReply, videoMsg).Ok?;
    var thumb := ChooseThumb(thumbReply, videoMsg).value;
    assert Publish(env) == PostAndSave(env, params, uploads, videoMsg.message_id, fileId, thumb, title);
    PostAndSaveRecord(env, params, uploads, videoMsg.message_id, fileId, thumb, title);
    var local := LocalVideoOf(videoMsg.message_id, fileId, thumb, title, DescOf(params), env.duration, env.localNow);
    assert local.file_id == fileId && local.title == title;
  }

  /** A completed posting part saves the upserted local record, and the metadata it
      posted decodes to that record when the clock reads agree to the second. */
  lemma PostAndSaveRecord(env: PublishEnv, params: Params, uploads: seq<Effect>, msgId: int, fileId: string, thumb: string, title: string)
    requires title != ""
    requires PostAndSave(env, params, uploads, msgId, fileId, thumb, title).exit == Completed
    ensures var run := PostAndSave(env, params, uploads, msgId, fileId, thumb, title);
      var local := LocalVideoOf(msgId, fileId, thumb, title, DescOf(params), env.duration, env.localNow);
      var stored := if env.catalog.Records? then env.catalog.videos else [];
      && |run.effects| == |uploads| + 2
      && run.effects[|uploads| + 1] == SaveCatalog(Upsert(KeepVisible(stored), local))
      && (env.metaNow / 1000 == env.localNow / 1000 ==>
            DecodeMetadata(run.effects[|uploads|].metadata) == Some(local))
  {
    if env.metaNow / 1000 == env.localNow / 1000 {
      MetadataRoundTrip(msgId, fileId, thumb, title, DescOf(params), env.duration, env.metaNow, env.localNow);
    }
  }

  /** The posted metadata decodes to the local record when the clock reads agree to the
      second and the title is non-empty. */
  lemma MetadataRoundTrip(msgId: int, fileId: string, thumb: string, title: string, desc: string, duration: int, metaNow: nat, localNow: nat)
    requires title != "" && metaNow / 1000 == localNow / 1000
    ensures DecodeMetadata(MetadataOf(msgId, fileId, thumb, title, desc, duration, metaNow))
      == Some(LocalVideoOf(msgId, fileId, thumb, title, desc, duration, localNow))
  {
  }
}
