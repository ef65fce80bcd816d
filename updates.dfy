/**
 * Selecting the update the bot reacts to: `get_latest_update_id` (telegrambot.py:117-125)
 * and `extract_update_text` (telegrambot.py:128-136). A batch is the `result` list of a
 * `getUpdates` response.
 */
module Updates {

  /** One entry of `updates['result']`: its `update_id` and `message.text`. */
  datatype Update = Update(id: int, text: string)

  function IdsOf(batch: seq<Update>): seq<int> {
    seq(|batch|, i requires 0 <= i < |batch| => batch[i].id)
  }

  /** Python's `max` on a non-empty list of integers. */
  function MaxOf(xs: seq<int>): int
    requires |xs| > 0
    decreases |xs|
  {
    if |xs| == 1 then xs[0]
    else
      var m := MaxOf(xs[1..]);
      if xs[0] >= m then xs[0] else m
  }

  lemma {:induction false} MaxOfIsGreatest(xs: seq<int>)
    requires |xs| > 0
    ensures MaxOf(xs) in xs
    ensures forall i :: 0 <= i < |xs| ==> xs[i] <= MaxOf(xs)
    decreases |xs|
  {
    if |xs| > 1 {
      MaxOfIsGreatest(xs[1..]);
      forall i | 1 <= i < |xs| ensures xs[i] <= MaxOf(xs) {
        assert xs[i] == xs[1..][i - 1];
      }
    }
  }

  /** The id `max` picks is the only element of the batch that bounds all the others. */
  lemma MaxOfUnique(xs: seq<int>, m: int)
    requires m in xs && forall i :: 0 <= i < |xs| ==> xs[i] <= m
    ensures MaxOf(xs) == m
  {
    MaxOfIsGreatest(xs);
  }

  /** The id the bot treats as the latest: the maximum `update_id` of the batch. */
  function LatestId(batch: seq<Update>): int
    requires |batch| > 0
  {
    MaxOf(IdsOf(batch))
  }

  /** Collects the ids in a list, as the source does, then takes `max` of it. */
  method LatestUpdateId(batch: seq<Update>) returns (latest: int)
    requires |batch| > 0
    ensures latest == LatestId(batch)
    ensures exists i :: 0 <= i < |batch| && batch[i].id == latest
    ensures forall i :: 0 <= i < |batch| ==> batch[i].id <= latest
  {
    var ids: seq<int> := [];
    for i := 0 to |batch|
      invariant |ids| == i
      invariant forall k :: 0 <= k < i ==> ids[k] == batch[k].id
    {
      ids := ids + [batch[i].id];
    }
    assert ids == IdsOf(batch);
    latest := MaxOf(ids);
    MaxOfIsGreatest(ids);
  }

  /** The text of the last update whose id is `id`, or `""` when none has it. */
  function TextOf(batch: seq<Update>, id: int): string
    decreases |batch|
  {
    if |batch| == 0 then ""
    else if batch[|batch| - 1].id == id then batch[|batch| - 1].text
    else TextOf(batch[..|batch| - 1], id)
  }

  lemma {:induction false} TextOfLastMatch(batch: seq<Update>, id: int, i: nat)
    requires i < |batch| && batch[i].id == id
    requires forall j :: i < j < |batch| ==> batch[j].id != id
    ensures TextOf(batch, id) == batch[i].text
    decreases |batch|
  {
    if i < |batch| - 1 {
      TextOfLastMatch(batch[..|batch| - 1], id, i);
    }
  }

  lemma {:induction false} TextOfNoMatch(batch: seq<Update>, id: int)
    requires forall i :: 0 <= i < |batch| ==> batch[i].id != id
    ensures TextOf(batch, id) == ""
    decreases |batch|
  {
    if |batch| > 0 {
      TextOfNoMatch(batch[..|batch| - 1], id);
    }
  }

  /** Scans the whole batch and keeps the text of every update carrying `id`, so the last wins. */
  method ExtractUpdateText(batch: seq<Update>, id: int) returns (text: string)
    ensures text == TextOf(batch, id)
  {
    text := "";
    for i := 0 to |batch|
      invariant text == TextOf(batch[..i], id)
    {
      if batch[i].id == id {
        text := batch[i].text;
      }
      assert batch[..i + 1][..i] == batch[..i];
    }
    assert batch[..|batch|] == batch;
  }
}
