/**
 * One pass of the polling loop in `main` (telegrambot.py:27-79): fetch the updates after the
 * cursor (`get_updates`, telegrambot.py:106-114), react to the latest one, and move the cursor
 * past it, or reset the cursor and send an apology when anything on the way raises.
 *
 * Every call into the chat platform, the meme service or the file system is an input here:
 * `Env` says how each call turns out, and the pass reports the requests it makes in order.
 */
module Bot {
  import opened Wrappers
  import opened Text
  import opened Updates
  import opened Parser
  import opened Catalog
  import opened Payload

  /** The `getUpdates` request relative to the bot's base URL, and its offset parameter. */
  const UpdatesQuery: string := "getUpdates?timeout=1"
  const OffsetParam: string := "&offset="

  const ErrorNotice: string :=
    "Sorry, an error was encountered. Details will be available in the logs file."

  /** Python's truth value of the cursor: `None` and `0` are false. */
  predicate Truthy(cursor: Option<int>) {
    cursor.Some? && cursor.value != 0
  }

  /** `get_updates(offset)`: the offset parameter is added only for a truthy cursor. */
  function UpdatesUrl(cursor: Option<int>): string {
    if Truthy(cursor) then UpdatesQuery + OffsetParam + IntToString(cursor.value) else UpdatesQuery
  }

  /** The offset the chat platform reads from a `getUpdates` request, if it carries one. */
  function OffsetOf(url: string): Option<int> {
    var prefix := UpdatesQuery + OffsetParam;
    if |url| >= |prefix| && url[..|prefix|] == prefix then ParseInt(url[|prefix|..]) else None
  }

  /** The platform is told the cursor exactly when it is truthy: `None` and `0` both send no
      offset, every other value is sent as it is. */
  lemma OffsetRoundTrip(cursor: Option<int>)
    ensures OffsetOf(UpdatesUrl(cursor)) == if Truthy(cursor) then cursor else None
  {
    var prefix := UpdatesQuery + OffsetParam;
    if Truthy(cursor) {
      var url := UpdatesUrl(cursor);
      assert url[..|prefix|] == prefix && url[|prefix|..] == IntToString(cursor.value);
      IntToStringRoundTrip(cursor.value);
    }
  }

  /** A request the bot makes during one pass, in the order it makes them. */
  datatype Request =
    | GetUpdates(url: string)                  // get_updates
    | GetMemes                                 // get_latest_meme_info
    | SendText(text: string)                   // send_text
    | CaptionImage(form: map<string, string>)  // the POST in create_meme
    | SaveImage(url: string)                   // save_edited_meme
    | SendPhoto                                // send_photo

  /** How each outside call of the pass turns out; `None` or `false` means the call raised. */
  datatype Env = Env(
    updates: Option<seq<Update>>,           // the `result` list, or get_updates raised
    catalog: Option<seq<MemeTemplate>>,     // the templates, or fetching/decoding them raised
    listSent: bool,                         // send_text of the listing returned
    memeUrl: Option<string>,                // `data.url` of the caption reply, or create_meme raised
    imageSaved: bool,                       // save_edited_meme returned
    photoSent: bool)                        // send_photo returned

  /** The requests of one command and whether it ran to the end without raising. */
  datatype Stage = Stage(requests: seq<Request>, ok: bool)

  /** The cursor after the pass and the requests made during it. */
  datatype Outcome = Outcome(cursor: Option<int>, requests: seq<Request>)

  predicate WantsList(text: string) {
    Contains(Lower(text), "memelist")
  }

  predicate WantsMeme(text: string) {
    Contains(Lower(text), "makememe")
  }

  /** telegrambot.py:44-47 */
  function ListCommand(text: string, env: Env): Stage {
    if !WantsList(text) then Stage([], true)
    else
      match env.catalog
      case None => Stage([GetMemes], false)
      case Some(memes) => Stage([GetMemes, SendText(Render(memes))], env.listSent)
  }

  /** telegrambot.py:49-59; a message without a digit makes `parse_message` raise. */
  function MemeCommand(username: string, password: string, text: string, env: Env): Stage {
    if !WantsMeme(text) then Stage([], true)
    else
      match ParseMessage(text)
      case None => Stage([], false)
      case Some(parsed) =>
        var form := Form(username, password, parsed.0, parsed.1);
        match env.memeUrl
        case None => Stage([CaptionImage(form)], false)
        case Some(url) =>
          if !env.imageSaved then Stage([CaptionImage(form), SaveImage(url)], false)
          else Stage([CaptionImage(form), SaveImage(url), SendPhoto], env.photoSent)
  }

  /** Both triggers of telegrambot.py:44-59, tested one after the other on the same text; when
      the listing raised, the meme command is never reached. */
  function Dispatch(username: string, password: string, text: string, env: Env): Stage {
    var list := ListCommand(text, env);
    if !list.ok then list
    else
      var meme := MemeCommand(username, password, text, env);
      Stage(list.requests + meme.requests, meme.ok)
  }

  /** One iteration of `while True` in `main`, from the cursor before it. */
  function Cycle(username: string, password: string, cursor: Option<int>, env: Env): Outcome {
    var fetch := GetUpdates(UpdatesUrl(cursor));
    match env.updates
    case None => Outcome(None, [fetch, SendText(ErrorNotice)])
    case Some(batch) =>
      if batch == [] then Outcome(cursor, [fetch])
      else
        var latest := LatestId(batch);
        var commands := Dispatch(username, password, TextOf(batch, latest), env);
        if commands.ok then Outcome(Some(latest + 1), [fetch] + commands.requests)
        else Outcome(None, [fetch] + commands.requests + [SendText(ErrorNotice)])
  }

  /** An empty batch holds the cursor and dispatches nothing. */
  lemma EmptyBatchHoldsCursor(username: string, password: string, cursor: Option<int>, env: Env)
    requires env.updates == Some([])
    ensures Cycle(username, password, cursor, env) == Outcome(cursor, [GetUpdates(UpdatesUrl(cursor))])
  {
  }

  /** The pass handled the batch: the cursor is one past its largest id, so above every id in it,
      and no apology was sent. */
  ghost predicate Advanced(o: Outcome, batch: seq<Update>) {
    && |batch| > 0
    && o.cursor == Some(LatestId(batch) + 1)
    && (forall i :: 0 <= i < |batch| ==> batch[i].id < o.cursor.value)
    && SendText(ErrorNotice) !in o.requests
  }

  /** The pass raised: the cursor is gone and the apology was sent once, as the last request. */
  ghost predicate Reset(o: Outcome) {
    && o.cursor == None
    && |o.requests| > 0
    && o.requests[|o.requests| - 1] == SendText(ErrorNotice)
    && multiset(o.requests)[SendText(ErrorNotice)] == 1
  }

  lemma RenderIsNotNotice(memes: seq<MemeTemplate>)
    ensures Render(memes) != ErrorNotice
  {
    RenderEnds(memes);
  }

  lemma CommandsSendNoNotice(username: string, password: string, text: string, env: Env)
    ensures SendText(ErrorNotice) !in Dispatch(username, password, text, env).requests
  {
    if env.catalog.Some? {
      RenderIsNotNotice(env.catalog.value);
    }
  }

  lemma StagesAdvanceOrReset(fetch: Request, batch: seq<Update>, commands: Stage, o: Outcome)
    requires |batch| > 0 && fetch != SendText(ErrorNotice)
    requires SendText(ErrorNotice) !in commands.requests
    requires o == if commands.ok then Outcome(Some(LatestId(batch) + 1), [fetch] + commands.requests)
                  else Outcome(None, [fetch] + commands.requests + [SendText(ErrorNotice)])
    ensures Advanced(o, batch) || Reset(o)
  {
    var done := [fetch] + commands.requests;
    assert SendText(ErrorNotice) !in done;
    if commands.ok {
      forall i | 0 <= i < |batch| ensures batch[i].id < LatestId(batch) + 1 {
        MaxOfIsGreatest(IdsOf(batch));
        assert IdsOf(batch)[i] == batch[i].id;
      }
    } else {
      assert multiset(o.requests)[SendText(ErrorNotice)] == multiset(done)[SendText(ErrorNotice)] + 1;
    }
  }

  /** Unless the batch is empty, a pass either advances the cursor past the batch or resets it
      and apologises exactly once; it always starts by asking for the updates after the cursor. */
  lemma CycleAdvancesOrResets(username: string, password: string, cursor: Option<int>, env: Env)
    requires env.updates != Some([])
    ensures var o := Cycle(username, password, cursor, env);
      && |o.requests| > 0
      && o.requests[0] == GetUpdates(UpdatesUrl(cursor))
      && ((env.updates.Some? && Advanced(o, env.updates.value)) || Reset(o))
  {
    var o := Cycle(username, password, cursor, env);
    if env.updates.Some? {
      var batch := env.updates.value;
      var text := TextOf(batch, LatestId(batch));
      CommandsSendNoNotice(username, password, text, env);
      StagesAdvanceOrReset(GetUpdates(UpdatesUrl(cursor)), batch, Dispatch(username, password, text, env), o);
    }
  }

  /** The platform returns only updates at or above a sent offset; the cursor then never goes
      back: it stays on an empty batch and otherwise moves above the old value, unless reset.
      A cursor of `0` sends no offset (`OffsetRoundTrip`), so the platform promises nothing then. */
  lemma CursorMovesForward(username: string, password: string, c: int, env: Env)
    requires c != 0
    requires env.updates.Some?
    requires forall i :: 0 <= i < |env.updates.value| ==> env.updates.value[i].id >= c
    ensures var o := Cycle(username, password, Some(c), env);
      o.cursor == None || o.cursor == Some(c) || o.cursor.value > c
    ensures var o := Cycle(username, password, Some(c), env);
      |env.updates.value| > 0 && o.cursor.Some? ==> o.cursor.value > c
  {
    var batch := env.updates.value;
    if batch != [] {
      MaxOfIsGreatest(IdsOf(batch));
      assert IdsOf(batch)[0] == batch[0].id;
    }
  }

  /** A `makememe` message without a digit resets the cursor and posts no caption request. */
  lemma ParseFailureResets(username: string, password: string, cursor: Option<int>, env: Env)
    requires env.updates.Some? && |env.updates.value| > 0
    requires var batch := env.updates.value;
      var text := TextOf(batch, LatestId(batch));
      WantsMeme(text) && ListCommand(text, env).ok
      && forall i :: 0 <= i < |text| ==> !IsDigit(text[i])
    ensures var o := Cycle(username, password, cursor, env);
      o.cursor == None && forall r :: r in o.requests ==> !r.CaptionImage?
  {
    var batch := env.updates.value;
    ParseMessageSpec(TextOf(batch, LatestId(batch)));
  }

  /** The two triggers are independent: a message asking for both gets the listing and the
      meme, in that order, and the cursor advances. */
  lemma BothCommandsRun(username: string, password: string, cursor: Option<int>, env: Env,
                        id: string, captions: seq<string>)
    requires env.updates.Some? && |env.updates.value| > 0
    requires var batch := env.updates.value;
      var text := TextOf(batch, LatestId(batch));
      WantsList(text) && WantsMeme(text) && ParseMessage(text) == Some((id, captions))
    requires env.catalog.Some? && env.listSent
    requires env.memeUrl.Some? && env.imageSaved && env.photoSent
    ensures var o := Cycle(username, password, cursor, env);
      && o.cursor == Some(LatestId(env.updates.value) + 1)
      && o.requests[1..] == [GetMemes, SendText(Render(env.catalog.value)),
                             CaptionImage(Form(username, password, id, captions)),
                             SaveImage(env.memeUrl.value), SendPhoto]
  {
  }

  /** The triggers ignore letter case: any spelling of the command word in the message fires. */
  lemma TriggersIgnoreCase(text: string, word: string)
    requires Contains(text, word)
    ensures Lower(word) == "memelist" ==> WantsList(text)
    ensures Lower(word) == "makememe" ==> WantsMeme(text)
  {
    ContainsLower(text, word);
  }

  /** The number of calls that returned before the first one that raised: the index of the
      first `false` among the outcomes, or all of them when none raised. */
  function FirstRaise(oks: seq<bool>): (k: nat)
    ensures k <= |oks|
    ensures forall i :: 0 <= i < k ==> oks[i]
    ensures k < |oks| ==> !oks[k]
  {
    if |oks| == 0 || !oks[0] then 0 else 1 + FirstRaise(oks[1..])
  }

  /** The `memelist` branch makes the catalogue request and then sends the listing. It stops at
      the first of those calls that raises, having made it, and succeeds exactly when neither
      raises; a message without the trigger makes no request. */
  lemma ListStopsAtFirstRaise(text: string, env: Env, memes: seq<MemeTemplate>)
    requires env.catalog.Some? ==> env.catalog.value == memes
    ensures !WantsList(text) ==> ListCommand(text, env) == Stage([], true)
    ensures WantsList(text) ==>
      var calls := [GetMemes, SendText(Render(memes))];
      var k := FirstRaise([env.catalog.Some?, env.listSent]);
      && ListCommand(text, env).requests == calls[..if k < |calls| then k + 1 else |calls|]
      && (ListCommand(text, env).ok <==> k == |calls|)
  {
  }

  /** The `makememe` branch parses the message, posts the caption form, saves the image and
      sends the photo. A message without a digit raises before any request; otherwise the branch
      stops at the first call that raises, having made it, and succeeds exactly when none raises. */
  lemma MemeStopsAtFirstRaise(username: string, password: string, text: string, env: Env, url: string)
    requires env.memeUrl.Some? ==> env.memeUrl.value == url
    ensures !WantsMeme(text) ==> MemeCommand(username, password, text, env) == Stage([], true)
    ensures WantsMeme(text) && ParseMessage(text).None? ==>
      MemeCommand(username, password, text, env) == Stage([], false)
    ensures WantsMeme(text) && ParseMessage(text).Some? ==>
      var parsed := ParseMessage(text).value;
      var calls := [CaptionImage(Form(username, password, parsed.0, parsed.1)), SaveImage(url), SendPhoto];
      var k := FirstRaise([env.memeUrl.Some?, env.imageSaved, env.photoSent]);
      && MemeCommand(username, password, text, env).requests == calls[..if k < |calls| then k + 1 else |calls|]
      && (MemeCommand(username, password, text, env).ok <==> k == |calls|)
  {
    var oks := [env.memeUrl.Some?, env.imageSaved, env.photoSent];
    var k := FirstRaise(oks);
    assert k == |oks| <==> oks[0] && oks[1] && oks[2];
  }

  /** Some call that the message triggers raises, in either command, whether or not an earlier
      failure would stop the pass before reaching it. */
  predicate Raised(env: Env, text: string) {
    || (WantsList(text) && (env.catalog.None? || !env.listSent))
    || (WantsMeme(text) && (ParseMessage(text).None? || env.memeUrl.None? || !env.imageSaved || !env.photoSent))
  }

  /** The commands run to the end exactly when no call the message triggers raises. */
  lemma DispatchSucceedsUnlessRaised(username: string, password: string, text: string, env: Env)
    ensures Dispatch(username, password, text, env).ok <==> !Raised(env, text)
  {
  }

  /** Which way a pass goes: a failed fetch resets the cursor; on a non-empty batch the cursor
      moves one past the largest id exactly when no call the latest message triggers raises, and
      is reset, with one apology, exactly when one does. */
  lemma CycleOutcomeDecided(username: string, password: string, cursor: Option<int>, env: Env)
    requires env.updates != Some([])
    ensures env.updates.None? ==> Reset(Cycle(username, password, cursor, env))
    ensures env.updates.Some? ==>
      var batch := env.updates.value;
      var o := Cycle(username, password, cursor, env);
      var text := TextOf(batch, LatestId(batch));
      && (Advanced(o, batch) <==> !Raised(env, text))
      && (Reset(o) <==> Raised(env, text))
  {
    CycleAdvancesOrResets(username, password, cursor, env);
    if env.updates.Some? {
      var batch := env.updates.value;
      var text := TextOf(batch, LatestId(batch));
      var o := Cycle(username, password, cursor, env);
      DispatchSucceedsUnlessRaised(username, password, text, env);
      assert o.cursor.Some? <==> Dispatch(username, password, text, env).ok;
    }
  }

  /** The loop's state: the cursor `latest_update_id`, and the account the captions are made with. */
  class Poller {
    const username: string
    const password: string
    var latestUpdateId: Option<int>

    constructor (username: string, password: string)
      ensures this.username == username && this.password == password
      ensures latestUpdateId == None
    {
      this.username := username;
      this.password := password;
      latestUpdateId := None;
    }

    /** The `memelist` branch of `main`. */
    method RunList(text: string, env: Env) returns (requests: seq<Request>, ok: bool)
      ensures Stage(requests, ok) == ListCommand(text, env)
    {
      requests, ok := [], true;
      if Contains(Lower(text), "memelist") {
        requests := [GetMemes];
        if env.catalog.None? {
          ok := false;
        } else {
          var memeList := GetMemeList(env.catalog.value);
          requests := requests + [SendText(memeList)];
          ok := env.listSent;
        }
      }
    }

    /** The `makememe` branch of `main`. */
    method RunMeme(text: string, env: Env) returns (requests: seq<Request>, ok: bool)
      ensures Stage(requests, ok) == MemeCommand(username, password, text, env)
    {
      requests, ok := [], true;
      if Contains(Lower(text), "makememe") {
        var parsed := ParseMessage(text);
        if parsed.None? {
          ok := false;
        } else {
          var data := BuildForm(username, password, parsed.value.0, parsed.value.1);
          requests := [CaptionImage(data)];
          if env.memeUrl.None? {
            ok := false;
          } else {
            requests := requests + [SaveImage(env.memeUrl.value)];
            if !env.imageSaved {
              ok := false;
            } else {
              requests := requests + [SendPhoto];
              ok := env.photoSent;
            }
          }
        }
      }
    }

    /** The body of the `try` in `main` and its `except`. */
    method Step(env: Env) returns (requests: seq<Request>)
      modifies this
      ensures Outcome(latestUpdateId, requests) == Cycle(username, password, old(latestUpdateId), env)
    {
      requests := [GetUpdates(UpdatesUrl(latestUpdateId))];
      var failed := false;
      if env.updates.None? {
        failed := true;
      } else if |env.updates.value| > 0 {
        var batch := env.updates.value;
        var latest := LatestUpdateId(batch);
        latestUpdateId := Some(latest);
        var text := ExtractUpdateText(batch, latest);
        var listRequests, listOk := RunList(text, env);
        requests := requests + listRequests;
        if listOk {
          var memeRequests, memeOk := RunMeme(text, env);
          requests := requests + memeRequests;
          failed := !memeOk;
        } else {
          failed := true;
        }
        assert requests == [GetUpdates(UpdatesUrl(old(latestUpdateId)))]
                           + Dispatch(username, password, text, env).requests;
        if !failed {
          latestUpdateId := Some(latest + 1);
        }
      }
      if failed {
        latestUpdateId := None;
        requests := requests + [SendText(ErrorNotice)];
      }
    }
  }
}
