/** The site settings of the AI summary feature (backend/app/ai_routes.py):
    a key/value settings table read with per-key defaults and written by
    upsert, the settings endpoints that mask the API key, and the part of
    the summary endpoint that runs before the request to the model. */
module AiSettings {

  import opened Common
  import opened Strings

  const ApiKeyKey: string := "ai_api_key"
  const ModelKey: string := "ai_model"
  const BaseUrlKey: string := "ai_base_url"
  const PromptKey: string := "ai_summary_prompt"

  /** `SETTING_KEYS`: the keys the endpoints read and write, in this order. */
  const SettingKeys: seq<string> := [ApiKeyKey, ModelKey, BaseUrlKey, PromptKey]

  const DefaultModel: string := "gpt-4o-mini"
  const DefaultBaseUrl: string := "https://api.openai.com/v1"
  const DefaultPrompt: string :=
    "請根據以下文章內容，用繁體中文撰寫一段 50 字以內的摘要，直接輸出摘要文字即可，不要加任何前綴。"

  /** `SETTING_DEFAULTS.get(key, "")`: the API key defaults to "", and so
      does every key outside `SETTING_KEYS`. */
  function Default(key: string): (v: string)
    ensures key !in SettingKeys ==> v == ""
    ensures v != "" <==> key in {ModelKey, BaseUrlKey, PromptKey}
  {
    if key == ModelKey then DefaultModel
    else if key == BaseUrlKey then DefaultBaseUrl
    else if key == PromptKey then DefaultPrompt
    else ""
  }

  /** A row of the settings table. */
  datatype SettingRow = SettingRow(key: string, value: string)

  /** The table holds at most one row per key. */
  ghost predicate UniqueKeys(rows: seq<SettingRow>)
  {
    forall i, j | 0 <= i < j < |rows| :: rows[i].key != rows[j].key
  }

  /** `query(SiteSetting).filter(SiteSetting.key == key).first()`, as the
      position of the first row with the key. */
  function FindSetting(rows: seq<SettingRow>, key: string): (r: Option<nat>)
    ensures r.Some? ==> r.value < |rows| && rows[r.value].key == key
    ensures r.Some? ==> forall i | 0 <= i < r.value :: rows[i].key != key
    ensures r.None? <==> forall i | 0 <= i < |rows| :: rows[i].key != key
  {
    if |rows| == 0 then None
    else if rows[0].key == key then Some(0)
    else
      match FindSetting(rows[1..], key)
      case None => None
      case Some(i) => Some(i + 1)
  }

  /** `get_setting`: the stored value whenever a row exists, even an empty
      one; otherwise the key's default. */
  function GetSetting(rows: seq<SettingRow>, key: string): (v: string)
    ensures (forall i | 0 <= i < |rows| :: rows[i].key != key) ==> v == Default(key)
    ensures UniqueKeys(rows) ==>
              forall i | 0 <= i < |rows| && rows[i].key == key :: v == rows[i].value
  {
    match FindSetting(rows, key)
    case Some(i) => rows[i].value
    case None => Default(key)
  }

  /** The first row with a key is found at its own position. */
  lemma FindSettingIsFirst(rows: seq<SettingRow>, key: string, i: nat)
    requires i < |rows| && rows[i].key == key
    requires forall j | 0 <= j < i :: rows[j].key != key
    ensures FindSetting(rows, key) == Some(i)
  {
  }

  /** Overwriting the value of the first row with `key` changes what
      `get_setting` reads for `key`, to exactly the new value, and for no
      other key. */
  lemma {:induction false} SetExistingKey(rows: seq<SettingRow>, key: string, value: string, k: string)
    requires FindSetting(rows, key).Some?
    ensures var rows' := rows[FindSetting(rows, key).value := SettingRow(key, value)];
      GetSetting(rows', k) == if k == key then value else GetSetting(rows, k)
  {
    var i := FindSetting(rows, key).value;
    var rows' := rows[i := SettingRow(key, value)];
    if k == key {
      FindSettingIsFirst(rows', key, i);
    } else {
      match FindSetting(rows, k)
      case Some(m) =>
        FindSettingIsFirst(rows', k, m);
      case None =>
        assert forall j | 0 <= j < |rows'| :: rows'[j].key != k;
    }
  }

  /** Appending a row for a key the table lacks changes what `get_setting`
      reads for that key, to exactly the new value, and for no other key. */
  lemma {:induction false} SetNewKey(rows: seq<SettingRow>, key: string, value: string, k: string)
    requires FindSetting(rows, key).None?
    ensures GetSetting(rows + [SettingRow(key, value)], k) == if k == key then value else GetSetting(rows, k)
  {
    var rows' := rows + [SettingRow(key, value)];
    if k == key {
      FindSettingIsFirst(rows', key, |rows|);
    } else {
      match FindSetting(rows, k)
      case Some(m) =>
        FindSettingIsFirst(rows', k, m);
      case None =>
        assert forall j | 0 <= j < |rows'| :: rows'[j].key != k;
    }
  }

  /** The masking of `ai_api_key` in the settings responses: an empty key
      stays empty, a key of at most 12 characters becomes "***", a longer
      one shows its first 8 and its last 4 characters around "...". */
  function MaskApiKey(v: string): (m: string)
    ensures v == "" ==> m == ""
    ensures 1 <= |v| <= 12 ==> m == "***"
    ensures |v| > 12 ==> |m| == 15 && m[..8] == v[..8] && m[8..11] == "..." && m[11..] == v[|v| - 4..]
  {
    if v == "" then "" else if |v| > 12 then Head(v, 8) + "..." + Tail(v, 4) else "***"
  }

  /** The mask of a key longer than 12 characters depends on its first 8
      and last 4 characters only: the middle of the key is never shown. */
  lemma MaskRevealsOnlyEnds(v: string, w: string)
    requires |v| > 12 && |w| > 12
    requires v[..8] == w[..8] && v[|v| - 4..] == w[|w| - 4..]
    ensures MaskApiKey(v) == MaskApiKey(w)
  {
    var a, b := MaskApiKey(v), MaskApiKey(w);
    assert a == a[..8] + a[8..11] + a[11..];
    assert b == b[..8] + b[8..11] + b[11..];
  }

  /** The value a settings response shows for a key: the stored or default
      value, masked for the API key. */
  function Shown(rows: seq<SettingRow>, key: string): (r: string)
    ensures key != ApiKeyKey ==> r == GetSetting(rows, key)
    ensures r == "" <==> GetSetting(rows, key) == ""
    ensures key == ApiKeyKey ==> |r| <= 15
  {
    var v := GetSetting(rows, key);
    if key == ApiKeyKey && v != "" then MaskApiKey(v) else v
  }

  /** The request body of `PUT /api/settings/` (`SettingsUpdate`): every
      field optional, `null` meaning "leave as is". */
  datatype SettingsUpdate = SettingsUpdate(
    apiKey: Option<string>,
    model: Option<string>,
    baseUrl: Option<string>,
    summaryPrompt: Option<string>)

  /** The value a body sends for a key, if any. */
  function Sent(data: SettingsUpdate, key: string): Option<string>
  {
    if key == ApiKeyKey then data.apiKey
    else if key == ModelKey then data.model
    else if key == BaseUrlKey then data.baseUrl
    else if key == PromptKey then data.summaryPrompt
    else None
  }

  /** The four setting keys are different strings: they differ in their
      fourth character. */
  lemma SettingKeysDistinct()
    ensures ApiKeyKey != ModelKey && ApiKeyKey != BaseUrlKey && ApiKeyKey != PromptKey
    ensures ModelKey != BaseUrlKey && ModelKey != PromptKey && BaseUrlKey != PromptKey
  {
    assert ApiKeyKey[3] == 'a' && ModelKey[3] == 'm' && BaseUrlKey[3] == 'b' && PromptKey[3] == 's';
  }

  /** One field of the dump: the pair when the field is not `null`. */
  function DumpField(key: string, v: Option<string>): (pairs: seq<(string, string)>)
    ensures |pairs| <= 1 && forall j | 0 <= j < |pairs| :: pairs[j].0 == key
  {
    if v.Some? then [(key, v.value)] else []
  }

  /** `data.model_dump(exclude_none=True)`: the non-`null` fields as
      key/value pairs, in field order. */
  function Dumped(data: SettingsUpdate): (pairs: seq<(string, string)>)
    ensures |pairs| <= 4
    ensures forall j | 0 <= j < |pairs| :: pairs[j].0 in SettingKeys
  {
    DumpField(ApiKeyKey, data.apiKey) + DumpField(ModelKey, data.model)
    + DumpField(BaseUrlKey, data.baseUrl) + DumpField(PromptKey, data.summaryPrompt)
  }

  /** The value the last of `pairs` with `key` carries, if any. */
  function Written(pairs: seq<(string, string)>, key: string): Option<string>
  {
    if |pairs| == 0 then None
    else if pairs[|pairs| - 1].0 == key then Some(pairs[|pairs| - 1].1)
    else Written(pairs[..|pairs| - 1], key)
  }

  lemma {:induction false} WrittenAppend(pairs: seq<(string, string)>, more: seq<(string, string)>, key: string)
    ensures Written(pairs + more, key) == if Written(more, key).Some? then Written(more, key) else Written(pairs, key)
    decreases |more|
  {
    if |more| == 0 {
      assert pairs + more == pairs;
    } else {
      var n := |more| - 1;
      assert (pairs + more)[..|pairs| + n] == pairs + more[..n];
      WrittenAppend(pairs, more[..n], key);
    }
  }

  lemma WrittenField(k: string, v: Option<string>, key: string)
    ensures Written(DumpField(k, v), key) == if k == key then v else None
  {
    if v.Some? {
      assert DumpField(k, v)[..0] == [];
    }
  }

  /** The dump writes exactly the values the body sends. */
  lemma DumpedWritesSent(data: SettingsUpdate, key: string)
    ensures Written(Dumped(data), key) == Sent(data, key)
  {
    var p1 := DumpField(ApiKeyKey, data.apiKey);
    var p2 := DumpField(ModelKey, data.model);
    var p3 := DumpField(BaseUrlKey, data.baseUrl);
    var p4 := DumpField(PromptKey, data.summaryPrompt);
    SettingKeysDistinct();
    WrittenField(ApiKeyKey, data.apiKey, key);
    WrittenField(ModelKey, data.model, key);
    WrittenField(BaseUrlKey, data.baseUrl, key);
    WrittenField(PromptKey, data.summaryPrompt, key);
    WrittenAppend(p1 + p2 + p3, p4, key);
    WrittenAppend(p1 + p2, p3, key);
    WrittenAppend(p1, p2, key);
  }

  /** The settings table, updated in place. */
  class SettingsStore {
    var rows: seq<SettingRow>

    constructor ()
      ensures rows == []
    {
      rows := [];
    }

    /** `set_setting`: overwrites the value of the row with the key, or adds
        a row when there is none. */
    method SetSetting(key: string, value: string)
      modifies this
      ensures GetSetting(rows, key) == value
      ensures forall k | k != key :: GetSetting(rows, k) == GetSetting(old(rows), k)
      ensures FindSetting(old(rows), key).Some? ==>
                rows == old(rows)[FindSetting(old(rows), key).value := SettingRow(key, value)]
      ensures FindSetting(old(rows), key).None? ==> rows == old(rows) + [SettingRow(key, value)]
      ensures UniqueKeys(old(rows)) ==> UniqueKeys(rows)
    {
      var found := FindSetting(rows, key);
      if found.Some? {
        SetExistingKey(rows, key, value, key);
        forall k ensures GetSetting(rows[found.value := SettingRow(key, value)], k)
                         == if k == key then value else GetSetting(rows, k) {
          SetExistingKey(rows, key, value, k);
        }
        rows := rows[found.value := SettingRow(key, value)];
      } else {
        SetNewKey(rows, key, value, key);
        forall k ensures GetSetting(rows + [SettingRow(key, value)], k)
                         == if k == key then value else GetSetting(rows, k) {
          SetNewKey(rows, key, value, k);
        }
        rows := rows + [SettingRow(key, value)];
      }
    }

    /** `get_settings`: every key of `SETTING_KEYS` with its value, the API
        key masked. */
    method GetSettings() returns (result: map<string, string>)
      ensures result.Keys == set k | k in SettingKeys
      ensures forall k | k in result :: result[k] == Shown(rows, k)
    {
      result := map[];
      for i := 0 to |SettingKeys|
        invariant result.Keys == set j | 0 <= j < i :: SettingKeys[j]
        invariant forall k | k in result :: result[k] == Shown(rows, k)
      {
        var key := SettingKeys[i];
        var val := ShowSetting(key);
        result := result[key := val];
      }
    }

    /** One step of the `get_settings` loop: the value read for `key`,
        masked when it is a non-empty API key. */
    method ShowSetting(key: string) returns (v: string)
      ensures v == Shown(rows, key)
    {
      var val := GetSetting(rows, key);
      if key == ApiKeyKey && val != "" {
        v := MaskApiKey(val);
      } else {
        v := val;
      }
    }

    /** The loop of `update_settings`: each pair whose key is one of
        `SETTING_KEYS` is written with `set_setting`, in order; the other
        pairs are skipped. */
    method WriteAll(pairs: seq<(string, string)>)
      modifies this
      ensures forall k :: GetSetting(rows, k) == Overlay(old(rows), Kept(pairs), k)
      ensures UniqueKeys(old(rows)) ==> UniqueKeys(rows)
    {
      var i := 0;
      while i < |pairs|
        invariant i <= |pairs|
        invariant forall k :: GetSetting(rows, k) == Overlay(old(rows), Kept(pairs[..i]), k)
        invariant UniqueKeys(old(rows)) ==> UniqueKeys(rows)
      {
        var (key, value) := pairs[i];
        KeptStep(pairs, i);
        if key in SettingKeys {
          ghost var before := rows;
          SetSetting(key, value);
          forall k ensures GetSetting(rows, k) == Overlay(old(rows), Kept(pairs[..i + 1]), k) {
            OverlayStep(old(rows), Kept(pairs[..i]), key, value, k);
            if k != key {
              assert GetSetting(rows, k) == GetSetting(before, k);
            }
          }
        } else {
          assert Kept(pairs[..i + 1]) == Kept(pairs[..i]);
        }
        i := i + 1;
      }
      assert pairs[..i] == pairs;
    }

    /** `update_settings`: writes each non-`null` field of the body, then
        answers like `get_settings`. Keys the body leaves out or sends as
        `null` keep their values; an empty string is written like any
        other value. */
    method UpdateSettings(data: SettingsUpdate) returns (result: map<string, string>)
      modifies this
      ensures forall k :: GetSetting(rows, k) ==
                if Sent(data, k).Some? then Sent(data, k).value else GetSetting(old(rows), k)
      ensures UniqueKeys(old(rows)) ==> UniqueKeys(rows)
      ensures result.Keys == set k | k in SettingKeys
      ensures forall k | k in result :: result[k] == Shown(rows, k)
    {
      var updates := Dumped(data);
      KeptDumped(data);
      WriteAll(updates);
      forall k ensures Overlay(old(rows), updates, k) ==
                       if Sent(data, k).Some? then Sent(data, k).value else GetSetting(old(rows), k) {
        DumpedWritesSent(data, k);
      }
      result := GetSettings();
    }
  }

  /** What `get_setting` reads for `k` after `pairs` were written over
      `base`: the last value written for `k`, else what `base` holds. */
  function Overlay(base: seq<SettingRow>, pairs: seq<(string, string)>, k: string): string
  {
    match Written(pairs, k)
    case Some(v) => v
    case None => GetSetting(base, k)
  }

  lemma OverlayStep(base: seq<SettingRow>, pairs: seq<(string, string)>, key: string, value: string, k: string)
    ensures Overlay(base, pairs + [(key, value)], k) == if k == key then value else Overlay(base, pairs, k)
  {
    assert (pairs + [(key, value)])[..|pairs|] == pairs;
  }

  /** The pairs whose key is one of `SETTING_KEYS`, in order
      (`KeptAppend`): the guard of the `update_settings` loop. */
  function Kept(pairs: seq<(string, string)>): (r: seq<(string, string)>)
    ensures |r| <= |pairs|
  {
    if |pairs| == 0 then []
    else
      var n := |pairs| - 1;
      Kept(pairs[..n]) + if pairs[n].0 in SettingKeys then [pairs[n]] else []
  }

  lemma KeptStep(pairs: seq<(string, string)>, i: nat)
    requires i < |pairs|
    ensures Kept(pairs[..i + 1]) ==
      Kept(pairs[..i]) + if pairs[i].0 in SettingKeys then [pairs[i]] else []
  {
    assert pairs[..i + 1][..i] == pairs[..i];
  }

  /** The guard of the loop: a pair is written exactly when it was in the
      body and its key is one of `SETTING_KEYS`. */
  lemma {:induction false} KeptGuard(pairs: seq<(string, string)>, p: (string, string))
    ensures p in Kept(pairs) <==> p in pairs && p.0 in SettingKeys
  {
    if |pairs| > 0 {
      var n := |pairs| - 1;
      assert pairs == pairs[..n] + [pairs[n]];
      KeptGuard(pairs[..n], p);
    }
  }

  /** The guard works pair by pair, so the kept pairs stay in their order:
      on two runs of pairs it keeps what it keeps of the first run, then
      what it keeps of the second. */
  lemma {:induction false} KeptAppend(a: seq<(string, string)>, b: seq<(string, string)>)
    ensures Kept(a + b) == Kept(a) + Kept(b)
    decreases |b|
  {
    if |b| == 0 {
      assert a + b == a;
    } else {
      var n := |b| - 1;
      var last := if b[n].0 in SettingKeys then [b[n]] else [];
      assert (a + b)[..|a| + n] == a + b[..n];
      assert (a + b)[|a| + n] == b[n];
      assert Kept(a + b) == Kept(a + b[..n]) + last;
      assert Kept(b) == Kept(b[..n]) + last;
      KeptAppend(a, b[..n]);
    }
  }

  /** Every field of the dump is a setting key, so nothing is skipped. */
  lemma {:induction false} KeptDumped(data: SettingsUpdate)
    ensures Kept(Dumped(data)) == Dumped(data)
  {
    var d := Dumped(data);
    KeptAll(d);
  }

  lemma {:induction false} KeptAll(pairs: seq<(string, string)>)
    requires forall j | 0 <= j < |pairs| :: pairs[j].0 in SettingKeys
    ensures Kept(pairs) == pairs
  {
    if |pairs| > 0 {
      var n := |pairs| - 1;
      KeptAll(pairs[..n]);
      assert pairs == pairs[..n] + [pairs[n]];
    }
  }

  // ===== Summary generation, up to the request =====

  const NoApiKeyDetail: string := "尚未設定 AI API Key，請至設定頁面配置"

  /** Content beyond this many characters is cut off before it is sent. */
  const ContentLimit: nat := 3000

  const MaxTokens: nat := 200

  /** The body of `POST /api/ai/generate-summary`: a `title` left out is
      `Some("")`, one sent as `null` is `None`. */
  datatype SummaryRequest = SummaryRequest(content: string, title: Option<string>)

  /** The chat-completion request the endpoint sends. */
  datatype ChatRequest = ChatRequest(
    url: string,
    authorization: string,
    model: string,
    systemPrompt: string,
    userMessage: string,
    maxTokens: nat)

  /** An f-string's rendering of an optional string: the string itself, or
      `None` spelled out. */
  function Render(s: Option<string>): (r: string)
    ensures s.Some? ==> r == s.value
    ensures s.None? ==> r == "None"
  {
    match s
    case Some(v) => v
    case None => "None"
  }

  /** `f"標題：{title}\n\n內容：\n{content[:3000]}"`: the title after a
      three-character label, a blank line and the six-character content
      label, then the content, cut to its first 3000 characters, at the
      very end. */
  function UserMessage(title: Option<string>, content: string): (m: string)
    ensures var c := Head(content, ContentLimit);
      && |m| == 9 + |Render(title)| + |c|
      && m[..3] == "標題："
      && m[3..3 + |Render(title)|] == Render(title)
      && m[3 + |Render(title)|..|m| - |c|] == "\n\n內容：\n"
      && m[|m| - |c|..] == c
      && c <= content
      && (|content| <= ContentLimit ==> c == content)
  {
    "標題：" + Render(title) + "\n\n內容：\n" + Head(content, ContentLimit)
  }

  /** `v or default` for a stored setting. */
  function Fallback(v: string, default: string): (r: string)
    ensures v != "" ==> r == v
    ensures v == "" ==> r == default
  {
    if v != "" then v else default
  }

  /** The part of `generate_summary` before the outbound call: 400 when the
      stored API key is empty; otherwise the request to
      `{base_url}/chat/completions` with the key as bearer token, the
      model, the prompt as system message and the user message, where an
      empty model, base URL or prompt falls back to its default. */
  function PrepareSummary(rows: seq<SettingRow>, req: SummaryRequest): (r: Result<ChatRequest>)
    ensures r.Err? <==> GetSetting(rows, ApiKeyKey) == ""
    ensures r.Err? ==> r.error == BadRequest(NoApiKeyDetail) && StatusCode(r.error) == 400
    ensures r.Ok? ==> var q := r.value;
      && q.authorization == "Bearer " + GetSetting(rows, ApiKeyKey)
      && q.model == Fallback(GetSetting(rows, ModelKey), DefaultModel) && q.model != ""
      && q.url == Fallback(GetSetting(rows, BaseUrlKey), DefaultBaseUrl) + "/chat/completions"
      && q.systemPrompt == Fallback(GetSetting(rows, PromptKey), DefaultPrompt) && q.systemPrompt != ""
      && q.userMessage == UserMessage(req.title, req.content)
      && q.maxTokens == MaxTokens
  {
    var apiKey := GetSetting(rows, ApiKeyKey);
    if apiKey == "" then Err(BadRequest(NoApiKeyDetail))
    else
      var model := Fallback(GetSetting(rows, ModelKey), DefaultModel);
      var baseUrl := Fallback(GetSetting(rows, BaseUrlKey), DefaultBaseUrl);
      var prompt := Fallback(GetSetting(rows, PromptKey), DefaultPrompt);
      Ok(ChatRequest(baseUrl + "/chat/completions", "Bearer " + apiKey, model, prompt,
        UserMessage(req.title, req.content), MaxTokens))
  }

  /** What came back from the model's endpoint, as far as the handler
      looks at it: a reply carrying `choices[0].message.content`; an error
      status, with the `error.message` of its JSON body when there is one;
      or any other failure (no connection, a timeout, a reply without that
      field), with the text of the exception. */
  datatype ChatOutcome =
    | Answered(content: string)
    | Rejected(errorMessage: Option<string>)
    | Failed(reason: string)

  const RejectedDetail: string := "AI API 回傳錯誤"
  const FailedPrefix: string := "AI 請求失敗："

  /** The reply handling of `generate_summary`: the answer, stripped of
      surrounding whitespace, or 502 with the service's own message, a
      fixed message, or the failure prefixed by a fixed label. */
  function SummaryReply(o: ChatOutcome): (r: Result<string>)
    ensures r.Ok? <==> o.Answered?
    ensures r.Ok? ==> r.value == Strip(o.content) && Strip(r.value) == r.value
    ensures r.Err? ==> r.error.BadGateway? && StatusCode(r.error) == 502
    ensures o.Rejected? ==>
              r.error.detail == if o.errorMessage.Some? then o.errorMessage.value else RejectedDetail
    ensures o.Failed? ==> r.error.detail == FailedPrefix + o.reason
  {
    match o
    case Answered(content) =>
      StripIdempotent(content);
      Ok(Strip(content))
    case Rejected(message) =>
      Err(BadGateway(if message.Some? then message.value else RejectedDetail))
    case Failed(reason) =>
      Err(BadGateway(FailedPrefix + reason))
  }

  /** `generate_summary` end to end, given what the service answers to the
      request it is sent. */
  function GenerateSummary(rows: seq<SettingRow>, req: SummaryRequest, o: ChatOutcome): (r: Result<string>)
    ensures PrepareSummary(rows, req).Ok? ==> r == SummaryReply(o)
  {
    match PrepareSummary(rows, req)
    case Err(e) => Err(e)
    case Ok(_) => SummaryReply(o)
  }

  /** Who is to blame, by status: 400 exactly when no API key is stored,
      502 exactly when a key is stored and the service did not answer, and
      a summary never carries surrounding whitespace. */
  lemma SummaryStatuses(rows: seq<SettingRow>, req: SummaryRequest, o: ChatOutcome)
    ensures var r := GenerateSummary(rows, req, o);
      && (r.Err? && StatusCode(r.error) == 400 <==> GetSetting(rows, ApiKeyKey) == "")
      && (r.Err? && StatusCode(r.error) == 502 <==> GetSetting(rows, ApiKeyKey) != "" && !o.Answered?)
      && (r.Ok? <==> GetSetting(rows, ApiKeyKey) != "" && o.Answered?)
      && (r.Ok? ==> Strip(r.value) == r.value)
  {
  }

  /** A store that never had its model, base URL or prompt written sends
      the defaults. */
  lemma FreshStoreUsesDefaults(key: string, req: SummaryRequest)
    requires key != ""
    ensures var r := PrepareSummary([SettingRow(ApiKeyKey, key)], req);
      r.Ok? && r.value.model == DefaultModel && r.value.systemPrompt == DefaultPrompt
      && r.value.url == DefaultBaseUrl + "/chat/completions"
  {
    var rows := [SettingRow(ApiKeyKey, key)];
    assert GetSetting(rows, ApiKeyKey) == key;
    assert GetSetting(rows, ModelKey) == DefaultModel;
    assert GetSetting(rows, BaseUrlKey) == DefaultBaseUrl;
    assert GetSetting(rows, PromptKey) == DefaultPrompt;
  }
}
