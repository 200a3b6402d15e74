/**
 * The deterministic rules of the Midjourney painting plugin: which submit
 * endpoint and bot a request goes to, how configured base URLs are
 * normalised, which task a follow-up action targets, the composite action id
 * built for it, and the bounded status-poll loop. Every HTTP exchange is an
 * input: a fetched task is a value, and the backend answers the n-th status
 * fetch with `fetch(n)`.
 */
module MjPainting {
  import opened Wrappers
  import opened JsStrings

  // ---------------------------------------------------------------- submission

  const FastEndpoint: string := "/mj/submit/imagine"
  const RelaxEndpoint: string := "/mj-relax/mj/submit/imagine"

  /** The submit endpoint for the persisted `mj_mode` (absent until a mode
      command has been issued). */
  function SubmitEndpoint(mode: Option<string>): (endpoint: string)
    ensures endpoint == FastEndpoint || endpoint == RelaxEndpoint
  {
    if mode == Some("fast") then FastEndpoint else RelaxEndpoint
  }

  /** Only the mode `fast` reaches the fast endpoint; every other value,
      including an unset mode, goes to the relaxed one. */
  lemma SubmitEndpointChoice(mode: Option<string>)
    ensures SubmitEndpoint(mode) == FastEndpoint <==> mode == Some("fast")
    ensures SubmitEndpoint(mode) == RelaxEndpoint <==> mode != Some("fast")
  {
    assert FastEndpoint != RelaxEndpoint by {
      assert |FastEndpoint| != |RelaxEndpoint|;
    }
  }

  /** The mode `setMode` stores for a mode command. */
  function ParseMode(msg: string): (mode: string)
    ensures mode == "fast" || mode == "slow"
    ensures mode == "fast" <==> Includes(msg, "快速")
  {
    if Includes(msg, "快速") then "fast" else "slow"
  }

  /** A mode command selects the fast endpoint exactly when it names 快速. */
  lemma ModeSelectsEndpoint(msg: string)
    ensures SubmitEndpoint(Some(ParseMode(msg))) == FastEndpoint <==> Includes(msg, "快速")
  {
    SubmitEndpointChoice(Some(ParseMode(msg)));
  }

  /** The `botType` field for the command word `mjp` or `niji`. */
  function BotType(word: string): (bot: string)
    ensures bot == "MID_JOURNEY" || bot == "NIJI_JOURNEY"
  {
    if word == "mjp" then "MID_JOURNEY" else "NIJI_JOURNEY"
  }

  lemma BotTypeChoice(word: string)
    ensures BotType(word) == "MID_JOURNEY" <==> word == "mjp"
    ensures BotType(word) == "NIJI_JOURNEY" <==> word != "mjp"
  {
  }

  /** `value.trim().replace(/\/$/, '')`: the value stored for a base URL. */
  function NormalizeBaseUrl(value: string): (r: string)
    ensures var t := Trim(value);
      && (r == t <==> (t == [] || t[|t| - 1] != '/'))
      && (r != t ==> r + "/" == t)
  {
    var t := Trim(value);
    if t != [] && t[|t| - 1] == '/' then t[..|t| - 1] else t
  }

  /** The stored base URL ends in `/` only when the trimmed input ended in `//`. */
  lemma NormalizedTrailingSlash(value: string)
    ensures var r, t := NormalizeBaseUrl(value), Trim(value);
      r != [] && r[|r| - 1] == '/' ==> |t| >= 2 && t[|t| - 2..] == "//"
  {
    var r, t := NormalizeBaseUrl(value), Trim(value);
    if r != [] && r[|r| - 1] == '/' {
      assert r + "/" == t;
      assert t[|t| - 2] == r[|r| - 1] && t[|t| - 1] == '/';
      assert t[|t| - 2..] == "//";
    }
  }

  // ------------------------------------------------------------------ actions

  /** The three follow-up commands: 放大, 微调 and 重绘. */
  datatype Action = Upscale | Variation | Reroll

  /** The four image quadrants: 左上, 右上, 左下 and 右下. */
  datatype Position = TopLeft | TopRight | BottomLeft | BottomRight

  function ActionWord(a: Action): string
  {
    match a
    case Upscale => "放大"
    case Variation => "微调"
    case Reroll => "重绘"
  }

  function PositionWord(p: Position): string
  {
    match p
    case TopLeft => "左上"
    case TopRight => "右上"
    case BottomLeft => "左下"
    case BottomRight => "右下"
  }

  /** The action a captured command word names, if any. */
  function ParseAction(word: string): (a: Option<Action>)
    ensures a.Some? ==> ActionWord(a.value) == word
  {
    if word == "放大" then Some(Upscale)
    else if word == "微调" then Some(Variation)
    else if word == "重绘" then Some(Reroll)
    else None
  }

  /** The position a captured quadrant word names, if any. */
  function ParsePosition(word: string): (p: Option<Position>)
    ensures p.Some? ==> PositionWord(p.value) == word
  {
    if word == "左上" then Some(TopLeft)
    else if word == "右上" then Some(TopRight)
    else if word == "左下" then Some(BottomLeft)
    else if word == "右下" then Some(BottomRight)
    else None
  }

  /** Every action and position word is recognised as what it names. */
  lemma ParseWords(a: Action, p: Position)
    ensures ParseAction(ActionWord(a)) == Some(a)
    ensures ParsePosition(PositionWord(p)) == Some(p)
  {
  }

  /** `positionMap`: the quadrant's number, 1 to 4. */
  function PositionCode(p: Position): (n: nat)
    ensures 1 <= n <= 4
  {
    match p
    case TopLeft => 1
    case TopRight => 2
    case BottomLeft => 3
    case BottomRight => 4
  }

  /** The position numbers are 1 to 4 and no two quadrants share one. */
  lemma PositionCodeInjective(p: Position, q: Position)
    ensures 1 <= PositionCode(p) <= 4
    ensures PositionCode(p) == PositionCode(q) ==> p == q
  {
  }

  /** The decimal text of a one-digit number. */
  function Digit(n: nat): (s: string)
    requires n <= 9
    ensures |s| == 1 && '0' <= s[0] <= '9' && s[0] as int - '0' as int == n
  {
    [('0' as int + n) as char]
  }

  /** The composite action id, for a source task whose `messageHash` renders
      as `hash`. A reroll ignores the position. */
  function CustomId(a: Action, p: Position, hash: string): (id: string)
    ensures |id| > 9 && id[..9] == "MJ::JOB::"
    ensures a == Reroll ==> |id| >= |hash| + 6 && id[|id| - |hash| - 6..] == hash + "::SOLO"
    ensures a != Reroll ==> |id| >= |hash| && id[|id| - |hash|..] == hash
  {
    match a
    case Reroll => "MJ::JOB::reroll::0::" + hash + "::SOLO"
    case Upscale => "MJ::JOB::upsample::" + Digit(PositionCode(p)) + "::" + hash
    case Variation => "MJ::JOB::variation::" + Digit(PositionCode(p)) + "::" + hash
  }

  /** Where the parts of an id stand: the action's first letter at index 9,
      the position digit after the action name, the hash after that. */
  lemma CustomIdParts(a: Action, p: Position, hash: string)
    ensures var id := CustomId(a, p, hash);
      && |id| > 9
      && id[9] == (match a case Reroll => 'r' case Upscale => 'u' case Variation => 'v')
      && (a == Reroll ==> |id| == 26 + |hash| && id[20..|id| - 6] == hash)
      && (a == Upscale ==> |id| == 22 + |hash| && id[19] as int - '0' as int == PositionCode(p) && id[22..] == hash)
      && (a == Variation ==> |id| == 23 + |hash| && id[20] as int - '0' as int == PositionCode(p) && id[23..] == hash)
  {
    var id := CustomId(a, p, hash);
    match a
    case Reroll =>
      assert id == "MJ::JOB::reroll::0::" + hash + "::SOLO";
      assert id[20..|id| - 6] == hash;
    case Upscale =>
      var d := Digit(PositionCode(p));
      assert id == "MJ::JOB::upsample::" + d + "::" + hash;
      assert id[9] == 'u' && |id| == 22 + |hash|;
      assert id[19] == d[0];
      assert id[22..] == hash;
    case Variation =>
      var d := Digit(PositionCode(p));
      assert id == "MJ::JOB::variation::" + d + "::" + hash;
      assert id[20] == d[0];
      assert id[23..] == hash;
  }

  /** An id determines the action and the hash, and the position unless the
      action is a reroll: two different requests never share an id. */
  lemma CustomIdInjective(a: Action, p: Position, h: string, a': Action, p': Position, h': string)
    requires CustomId(a, p, h) == CustomId(a', p', h')
    ensures a == a' && h == h'
    ensures a != Reroll ==> p == p'
  {
    CustomIdParts(a, p, h);
    CustomIdParts(a', p', h');
    PositionCodeInjective(p, p');
  }

  /** A reroll id is the same for every position. */
  lemma RerollIgnoresPosition(p: Position, q: Position, hash: string)
    ensures CustomId(Reroll, p, hash) == CustomId(Reroll, q, hash) == "MJ::JOB::reroll::0::" + hash + "::SOLO"
  {
  }

  /** The `properties` of a fetched source task, as far as the action reads them. */
  datatype TaskProperties = TaskProperties(messageHash: Option<string>)

  /** A fetched source task; `properties` is absent when the backend left it out. */
  datatype TaskDetails = TaskDetails(properties: Option<TaskProperties>)

  /** How a template literal renders a possibly absent string. */
  function TemplateText(v: Option<string>): (text: string)
    ensures text == "undefined" <==> v.None? || v == Some("undefined")
  {
    if v.Some? then v.value else "undefined"
  }

  /** Why `handleAction` stops before submitting an action. */
  datatype ActionError =
    | NoTaskId           // neither an explicit task id nor a cached one
    | SourceTaskMissing  // the fetch of the source task gave nothing
    | NoProperties       // reading `properties.messageHash` throws

  /** The task an action targets: the trimmed explicit id when it is not
      empty, otherwise the cached last task id; `None` when neither is usable. */
  function ActionTarget(explicitId: string, cachedId: Option<string>): (r: Option<string>)
    ensures r.Some? ==> r.value != "" && (r.value == Trim(explicitId) || cachedId == r)
    ensures Trim(explicitId) != "" ==> r == Some(Trim(explicitId))
    ensures r.None? <==> Trim(explicitId) == "" && (cachedId.None? || cachedId == Some(""))
  {
    var t := Trim(explicitId);
    if t != "" then Some(t)
    else if cachedId.Some? && cachedId.value != "" then cachedId
    else None
  }

  /** The pure decisions of `handleAction`: pick the target task, look its
      details up with `fetchDetails`, and build the pair (customId, taskId)
      that is submitted to the action endpoint. */
  function PlanAction(a: Action, p: Position, explicitId: string, cachedId: Option<string>,
                      fetchDetails: string -> Option<TaskDetails>): (r: Result<(string, string), ActionError>)
    ensures r.Success? ==>
      && ActionTarget(explicitId, cachedId) == Some(r.value.1)
      && fetchDetails(r.value.1).Some? && fetchDetails(r.value.1).value.properties.Some?
      && r.value.0 == CustomId(a, p, TemplateText(fetchDetails(r.value.1).value.properties.value.messageHash))
    ensures r == Failure(NoTaskId) <==> ActionTarget(explicitId, cachedId).None?
    ensures r.Success? <==>
      var t := ActionTarget(explicitId, cachedId);
      t.Some? && fetchDetails(t.value).Some? && fetchDetails(t.value).value.properties.Some?
    ensures r == Failure(SourceTaskMissing) <==>
      var t := ActionTarget(explicitId, cachedId);
      t.Some? && fetchDetails(t.value).None?
    ensures r == Failure(NoProperties) <==>
      var t := ActionTarget(explicitId, cachedId);
      t.Some? && fetchDetails(t.value).Some? && fetchDetails(t.value).value.properties.None?
  {
    match ActionTarget(explicitId, cachedId)
    case None => Failure(NoTaskId)
    case Some(taskId) =>
      match fetchDetails(taskId)
      case None => Failure(SourceTaskMissing)
      case Some(task) =>
        match task.properties
        case None => Failure(NoProperties)
        case Some(props) => Success((CustomId(a, p, TemplateText(props.messageHash)), taskId))
  }

  // -------------------------------------------------------------------- polling

  /** One decoded status response. */
  datatype Snapshot = Snapshot(status: string, progress: string, imageUrl: Option<string>)

  const MaxAttempts: nat := 120

  predicate Completed(s: Snapshot)
  {
    s.status == "SUCCESS" && s.progress == "100%"
  }

  predicate Terminal(s: Snapshot)
  {
    Completed(s) || s.status == "FAILURE"
  }

  /** The index, from `from` on and below the budget, of the first response
      that ends polling. */
  function FirstTerminal(fetch: nat -> Snapshot, from: nat): (k: Option<nat>)
    ensures k.Some? ==> from <= k.value < MaxAttempts && Terminal(fetch(k.value))
    ensures forall i :: from <= i < MaxAttempts && (k.None? || i < k.value) ==> !Terminal(fetch(i))
    decreases MaxAttempts - from
  {
    if from >= MaxAttempts then None
    else if Terminal(fetch(from)) then Some(from)
    else FirstTerminal(fetch, from + 1)
  }

  /** The first terminal response is the one below the budget that is
      terminal after only non-terminal ones. */
  lemma FirstTerminalAt(fetch: nat -> Snapshot, k: nat)
    requires k < MaxAttempts && Terminal(fetch(k))
    requires forall i :: 0 <= i < k ==> !Terminal(fetch(i))
    ensures FirstTerminal(fetch, 0) == Some(k)
  {
    FirstTerminalFrom(fetch, 0, k);
  }

  lemma {:induction false} FirstTerminalFrom(fetch: nat -> Snapshot, from: nat, k: nat)
    requires from <= k < MaxAttempts && Terminal(fetch(k))
    requires forall i :: from <= i < k ==> !Terminal(fetch(i))
    ensures FirstTerminal(fetch, from) == Some(k)
    decreases k - from
  {
    if from < k {
      assert !Terminal(fetch(from));
      FirstTerminalFrom(fetch, from + 1, k);
    }
  }

  /** `pollTaskResult`: fetches the task status until it is complete (SUCCESS
      at 100%) or failed, at most `MaxAttempts` times. Returns the complete
      snapshot, or `None` on failure or when the budget runs out, together with
      the number of fetches made. */
  method PollTaskResult(fetch: nat -> Snapshot) returns (result: Option<Snapshot>, fetches: nat)
    ensures 1 <= fetches <= MaxAttempts
    ensures result.Some? ==> Completed(result.value) && result.value == fetch(fetches - 1)
    ensures match FirstTerminal(fetch, 0)
      case Some(k) => fetches == k + 1 && result == (if Completed(fetch(k)) then Some(fetch(k)) else None)
      case None => fetches == MaxAttempts && result == None
  {
    var attempts := 0;
    fetches := 0;
    while attempts < MaxAttempts
      invariant attempts == fetches <= MaxAttempts
      invariant forall i :: 0 <= i < attempts ==> !Terminal(fetch(i))
    {
      var data := fetch(attempts);
      fetches := fetches + 1;
      if data.status == "SUCCESS" && data.progress == "100%" {
        FirstTerminalAt(fetch, attempts);
        return Some(data), fetches;
      }
      if data.status == "FAILURE" {
        FirstTerminalAt(fetch, attempts);
        return None, fetches;
      }
      attempts := attempts + 1;
    }
    result := None;
  }
}
