/** The metadata record, its validator, and the channel message that carries it
    (lib/schema.js). */
module Schema {
  import opened JsValues

  /** The discriminator of a metadata message. */
  const MessageType := "video_meta"

  const SchemaVersion := 1

  /** A catalog record. Text fields are strings, `duration` is in seconds and
      `uploaded_at` is a Unix timestamp in seconds. */
  datatype Video = Video(
    id: string,
    title: string,
    description: string,
    file_id: string,
    thumb_file_id: string,
    duration: int,
    uploaded_at: int)

  // ---------------------------------------------------------------------------
  // validateMetadata

  const NullMessage := "Object is null or undefined"

  /** The four field rules, each contributing one error message when broken. */
  datatype Rule = IdRule | TitleRule | FileIdRule | DurationRule

  /** The rules in the order their errors are reported. */
  const Rules: seq<Rule> := [IdRule, TitleRule, FileIdRule, DurationRule]

  function Message(r: Rule): string {
    match r
    case IdRule => "id must be a non-empty string"
    case TitleRule => "title must be a non-empty string"
    case FileIdRule => "file_id must be a string"
    case DurationRule => "duration must be a non-negative number"
  }

  /** The position of a rule in Rules. */
  function Rank(r: Rule): (k: nat)
    ensures k < |Rules| && Rules[k] == r
  {
    match r
    case IdRule => 0
    case TitleRule => 1
    case FileIdRule => 2
    case DurationRule => 3
  }

  predicate IsNonEmptyString(v: Value) {
    v.Str? && v.s != ""
  }

  /** Whether a truthy candidate breaks a rule: `id` and `title` must be non-empty
      strings, `file_id` any string (the empty one too), `duration` a number that is
      not negative. */
  predicate Breaks(obj: Value, r: Rule) {
    match r
    case IdRule => !IsNonEmptyString(Get(obj, "id"))
    case TitleRule => !IsNonEmptyString(Get(obj, "title"))
    case FileIdRule => !Get(obj, "file_id").Str?
    case DurationRule => !(Get(obj, "duration").Num? && Get(obj, "duration").n >= 0)
  }

  /** The messages of the rules of `rules` that `obj` breaks, in the order of `rules`. */
  function BrokenMessages(obj: Value, rules: seq<Rule>): seq<string> {
    if rules == [] then []
    else (if Breaks(obj, rules[0]) then [Message(rules[0])] else []) + BrokenMessages(obj, rules[1..])
  }

  /** The error list validation reports: a falsy candidate gets the single null
      message, any other one the messages of all rules it breaks. */
  function ExpectedErrors(obj: Value): seq<string> {
    if !Truthy(obj) then [NullMessage] else BrokenMessages(obj, Rules)
  }

  datatype Validation = Validation(valid: bool, errors: seq<string>)

  /** validateMetadata: pushes one message per broken rule, without stopping at the
      first. */
  method ValidateMetadata(obj: Value) returns (result: Validation)
    ensures result.errors == ExpectedErrors(obj)
    ensures result.valid <==> result.errors == []
    ensures !Truthy(obj) ==> !result.valid && result.errors == [NullMessage]
  {
    if !Truthy(obj) {
      return Validation(false, [NullMessage]);
    }
    var errors: seq<string> := [];
    var id := Get(obj, "id");
    if !id.Str? || !Truthy(id) {
      errors := errors + [Message(IdRule)];
    }
    ghost var e1 := errors;
    assert e1 == Check(obj, IdRule);
    var title := Get(obj, "title");
    if !title.Str? || !Truthy(title) {
      errors := errors + [Message(TitleRule)];
    }
    ghost var e2 := errors;
    assert e2 == e1 + Check(obj, TitleRule);
    if !Get(obj, "file_id").Str? {
      errors := errors + [Message(FileIdRule)];
    }
    ghost var e3 := errors;
    assert e3 == e2 + Check(obj, FileIdRule);
    var duration := Get(obj, "duration");
    if !duration.Num? || duration.n < 0 {
      errors := errors + [Message(DurationRule)];
    }
    assert errors == e3 + Check(obj, DurationRule);
    RulesUnfold(obj);
    result := Validation(|errors| == 0, errors);
  }

  /** The message list one rule contributes. */
  function Check(obj: Value, r: Rule): seq<string> {
    if Breaks(obj, r) then [Message(r)] else []
  }

  lemma BrokenMessagesStep(obj: Value, rules: seq<Rule>)
    requires rules != []
    ensures BrokenMessages(obj, rules) == Check(obj, rules[0]) + BrokenMessages(obj, rules[1..])
  {
  }

  /** Broken-rule messages of Rules, spelled out rule by rule. */
  lemma RulesUnfold(obj: Value)
    ensures BrokenMessages(obj, Rules) ==
      Check(obj, IdRule) + Check(obj, TitleRule) + Check(obj, FileIdRule) + Check(obj, DurationRule)
  {
    var c0, c1, c2, c3 := Check(obj, IdRule), Check(obj, TitleRule), Check(obj, FileIdRule), Check(obj, DurationRule);
    assert Rules[1..] == [TitleRule, FileIdRule, DurationRule];
    BrokenMessagesStep(obj, Rules);
    BrokenMessagesStep(obj, [TitleRule, FileIdRule, DurationRule]);
    assert [TitleRule, FileIdRule, DurationRule][1..] == [FileIdRule, DurationRule];
    BrokenMessagesStep(obj, [FileIdRule, DurationRule]);
    assert [FileIdRule, DurationRule][1..] == [DurationRule];
    BrokenMessagesStep(obj, [DurationRule]);
    assert [DurationRule][1..] == [];
    assert BrokenMessages(obj, [DurationRule]) == c3;
    Associate(c0, c1, c2 + c3);
    Associate(c0 + c1, c2, c3);
  }

  lemma Associate(a: seq<string>, b: seq<string>, c: seq<string>)
    ensures a + (b + c) == a + b + c
  {
  }

  lemma {:induction false} BrokenMessagesMembership(obj: Value, rules: seq<Rule>, r: Rule)
    ensures Message(r) in BrokenMessages(obj, rules) <==> r in rules && Breaks(obj, r)
    ensures NullMessage !in BrokenMessages(obj, rules)
  {
    if rules != [] {
      BrokenMessagesMembership(obj, rules[1..], r);
      assert rules == [rules[0]] + rules[1..];
    }
  }

  /** Without stopping early: a truthy candidate gets the message of a rule exactly
      when it breaks that rule, whatever the other rules say. */
  lemma ErrorForEachBrokenRule(obj: Value, r: Rule)
    requires Truthy(obj)
    ensures Message(r) in ExpectedErrors(obj) <==> Breaks(obj, r)
    ensures NullMessage !in ExpectedErrors(obj)
  {
    BrokenMessagesMembership(obj, Rules, r);
    assert r == Rules[Rank(r)];
  }

  /** Validation passes exactly when the candidate is truthy and breaks no rule. */
  lemma ValidIffNoRuleBroken(obj: Value)
    ensures ExpectedErrors(obj) == [] <==> Truthy(obj) && forall r: Rule :: !Breaks(obj, r)
  {
    if Truthy(obj) {
      RulesUnfold(obj);
    }
  }

  /** The message of every rule, in rule order. */
  function AllMessages(rules: seq<Rule>): seq<string> {
    if rules == [] then [] else [Message(rules[0])] + AllMessages(rules[1..])
  }

  /** `a` is `b` with some elements left out, the rest kept in order. */
  predicate IsSubsequence(a: seq<string>, b: seq<string>)
    decreases |b|
  {
    if a == [] then true
    else if b == [] then false
    else (a[0] == b[0] && IsSubsequence(a[1..], b[1..])) || IsSubsequence(a, b[1..])
  }

  lemma {:induction false} BrokenMessagesSubsequence(obj: Value, rules: seq<Rule>)
    ensures IsSubsequence(BrokenMessages(obj, rules), AllMessages(rules))
  {
    if rules != [] {
      BrokenMessagesSubsequence(obj, rules[1..]);
      var rest := BrokenMessages(obj, rules[1..]);
      var all := AllMessages(rules);
      assert all[0] == Message(rules[0]) && all[1..] == AllMessages(rules[1..]);
      if Breaks(obj, rules[0]) {
        assert BrokenMessages(obj, rules)[0] == all[0];
        assert BrokenMessages(obj, rules)[1..] == rest;
      } else {
        assert BrokenMessages(obj, rules) == rest;
      }
    }
  }

  /** The errors come in the fixed order id, title, file_id, duration: they are the
      four rule messages with those of the unbroken rules left out. */
  lemma ErrorsInRuleOrder(obj: Value)
    requires Truthy(obj)
    ensures IsSubsequence(ExpectedErrors(obj), AllMessages(Rules))
    ensures AllMessages(Rules) == [Message(IdRule), Message(TitleRule), Message(FileIdRule), Message(DurationRule)]
  {
    BrokenMessagesSubsequence(obj, Rules);
    assert Rules[1..] == [TitleRule, FileIdRule, DurationRule];
    assert Rules[1..][1..] == [FileIdRule, DurationRule];
    assert Rules[1..][1..][1..] == [DurationRule];
    assert Rules[1..][1..][1..][1..] == [];
  }

  // ---------------------------------------------------------------------------
  // createMetadataMessage

  /** A destructured parameter: a missing key reads as `undefined`. */
  function Param(params: map<string, Value>, key: string): Value {
    if key in params then params[key] else Undefined
  }

  /** A destructuring default, which applies only when the value is `undefined`. */
  function OrDefault(v: Value, default: Value): Value {
    if v == Undefined then default else v
  }

  /** createMetadataMessage: the message object, stamped with the discriminator, the
      schema version and the upload time in whole seconds of `nowMs` (what `Date.now()`
      read). */
  function CreateMetadataMessage(params: map<string, Value>, nowMs: nat): (m: Value)
    ensures Get(m, "type") == Str(MessageType)
    ensures Get(m, "schema_version") == Num(SchemaVersion)
    ensures Param(params, "description") == Undefined ==> Get(m, "description") == Str("")
    ensures Param(params, "duration") == Undefined ==> Get(m, "duration") == Num(0)
  {
    Obj(map[
      "type" := Str(MessageType),
      "schema_version" := Num(SchemaVersion),
      "video_msg_id" := Param(params, "video_msg_id"),
      "file_id" := Param(params, "file_id"),
      "thumb_file_id" := Param(params, "thumb_file_id"),
      "title" := Param(params, "title"),
      "description" := OrDefault(Param(params, "description"), Str("")),
      "duration" := OrDefault(Param(params, "duration"), Num(0)),
      "uploaded_at" := Num(nowMs / 1000)])
  }

  // ---------------------------------------------------------------------------
  // parseMetadataMessage

  /** `v || default` for a text field. */
  function TextOr(v: Value, default: string): string {
    if IsNonEmptyString(v) then v.s else default
  }

  /** `v || default` for a numeric field. */
  function NumberOr(v: Value, default: int): int {
    if v.Num? && v.n != 0 then v.n else default
  }

  /** The decoding step of parseMetadataMessage, on the value JSON.parse produced.
      None where the source returns null: the value is not a `video_meta` object, or
      reading it throws (a property read on null, or `String(video_msg_id)` throwing). */
  function DecodeMetadata(data: Value): (r: Option<Video>)
    ensures r.Some? ==> Get(data, "type") == Str(MessageType)
    ensures r.Some? <==> Get(data, "type") == Str(MessageType) && ToJsString(Get(data, "video_msg_id")).Some?
    ensures r.Some? ==> Some(r.value.id) == ToJsString(Get(data, "video_msg_id")) && r.value.title != ""
  {
    if data == Null || data == Undefined then None
    else if Get(data, "type") != Str(MessageType) then None
    else
      match ToJsString(Get(data, "video_msg_id"))
      case None => None
      case Some(id) =>
        Some(Video(
          id,
          TextOr(Get(data, "title"), "Untitled"),
          TextOr(Get(data, "description"), ""),
          TextOr(Get(data, "file_id"), ""),
          TextOr(Get(data, "thumb_file_id"), ""),
          NumberOr(Get(data, "duration"), 0),
          NumberOr(Get(data, "uploaded_at"), 0)))
  }

  /** parseMetadataMessage; `parse` stands for JSON.parse, None where it throws. */
  function ParseMetadataMessage(text: string, parse: string -> Option<Value>): (r: Option<Video>)
    ensures parse(text).None? ==> r.None?
    ensures parse(text).Some? ==> r == DecodeMetadata(parse(text).value)
  {
    match parse(text)
    case None => None
    case Some(data) => DecodeMetadata(data)
  }

  /** The falsy defaults: a field that is falsy decodes to its default, a non-empty
      string or a non-zero number decodes to itself. */
  lemma DecodeDefaults(data: Value)
    requires DecodeMetadata(data).Some?
    ensures var v := DecodeMetadata(data).value;
      && (!Truthy(Get(data, "title")) ==> v.title == "Untitled")
      && (!Truthy(Get(data, "description")) ==> v.description == "")
      && (!Truthy(Get(data, "file_id")) ==> v.file_id == "")
      && (!Truthy(Get(data, "thumb_file_id")) ==> v.thumb_file_id == "")
      && (!Truthy(Get(data, "duration")) ==> v.duration == 0)
      && (!Truthy(Get(data, "uploaded_at")) ==> v.uploaded_at == 0)
      && (IsNonEmptyString(Get(data, "title")) ==> v.title == Get(data, "title").s)
      && (IsNonEmptyString(Get(data, "description")) ==> v.description == Get(data, "description").s)
      && (IsNonEmptyString(Get(data, "file_id")) ==> v.file_id == Get(data, "file_id").s)
      && (IsNonEmptyString(Get(data, "thumb_file_id")) ==> v.thumb_file_id == Get(data, "thumb_file_id").s)
      && (Truthy(Get(data, "duration")) && Get(data, "duration").Num? ==> v.duration == Get(data, "duration").n)
      && (Truthy(Get(data, "uploaded_at")) && Get(data, "uploaded_at").Num? ==> v.uploaded_at == Get(data, "uploaded_at").n)
  {
  }

  /** Decoding a created message gives back its id, its truthy fields unchanged, and
      the stamped upload time. */
  lemma CreateThenDecode(params: map<string, Value>, nowMs: nat)
    requires ToJsString(Param(params, "video_msg_id")).Some?
    ensures var r := DecodeMetadata(CreateMetadataMessage(params, nowMs));
      && r.Some?
      && r.value.id == ToJsString(Param(params, "video_msg_id")).value
      && r.value.uploaded_at == nowMs / 1000
      && (IsNonEmptyString(Param(params, "title")) ==> r.value.title == Param(params, "title").s)
      && (IsNonEmptyString(Param(params, "description")) ==> r.value.description == Param(params, "description").s)
      && (IsNonEmptyString(Param(params, "file_id")) ==> r.value.file_id == Param(params, "file_id").s)
      && (IsNonEmptyString(Param(params, "thumb_file_id")) ==> r.value.thumb_file_id == Param(params, "thumb_file_id").s)
      && (Param(params, "duration").Num? ==> r.value.duration == Param(params, "duration").n)
      && (Param(params, "description") == Undefined ==> r.value.description == "")
  {
    CreatedFields(params, nowMs);
  }

  /** The fields a created message carries, one by one. */
  lemma CreatedFields(params: map<string, Value>, nowMs: nat)
    ensures var m := CreateMetadataMessage(params, nowMs);
      && m.Obj? && m != Null && m != Undefined
      && Get(m, "type") == Str(MessageType)
      && Get(m, "video_msg_id") == Param(params, "video_msg_id")
      && Get(m, "title") == Param(params, "title")
      && Get(m, "description") == OrDefault(Param(params, "description"), Str(""))
      && Get(m, "file_id") == Param(params, "file_id")
      && Get(m, "thumb_file_id") == Param(params, "thumb_file_id")
      && Get(m, "duration") == OrDefault(Param(params, "duration"), Num(0))
      && Get(m, "uploaded_at") == Num(nowMs / 1000)
  {
    var m := CreateMetadataMessage(params, nowMs);
    KeysDiffer();
    assert m.fields["video_msg_id"] == Param(params, "video_msg_id");
    assert m.fields["title"] == Param(params, "title");
    assert m.fields["file_id"] == Param(params, "file_id");
    assert m.fields["thumb_file_id"] == Param(params, "thumb_file_id");
  }

  /** The message's keys are pairwise different, as the solver needs to look them up. */
  lemma KeysDiffer()
    ensures "video_msg_id" != "file_id" && "video_msg_id" != "thumb_file_id" && "video_msg_id" != "title"
    ensures "video_msg_id" != "description" && "video_msg_id" != "duration" && "video_msg_id" != "uploaded_at"
    ensures "file_id" != "thumb_file_id" && "file_id" != "title" && "file_id" != "description"
    ensures "file_id" != "duration" && "file_id" != "uploaded_at"
    ensures "thumb_file_id" != "title" && "thumb_file_id" != "description" && "thumb_file_id" != "duration"
    ensures "thumb_file_id" != "uploaded_at"
    ensures "title" != "description" && "title" != "duration" && "title" != "uploaded_at"
    ensures "description" != "duration" && "description" != "uploaded_at" && "duration" != "uploaded_at"
  {
  }
}
