/**
 * `get_meme_list` (telegrambot.py:160-168): one line `name: id, box_count` per template of
 * the catalog, newline-terminated, in catalog order.
 */
module Catalog {
  import opened Text

  /** One entry of `meme_info['data']['memes']`; the meme service sends `id` as a string. */
  datatype MemeTemplate = MemeTemplate(id: string, name: string, boxCount: int)

  function Line(t: MemeTemplate): string {
    t.name + ": " + t.id + ", " + IntToString(t.boxCount) + "\n"
  }

  /** The listing the bot sends back for `memelist`. */
  function Render(catalog: seq<MemeTemplate>): string
    decreases |catalog|
  {
    if catalog == [] then "" else Line(catalog[0]) + Render(catalog[1..])
  }

  lemma {:induction false} RenderAppend(a: seq<MemeTemplate>, b: seq<MemeTemplate>)
    ensures Render(a + b) == Render(a) + Render(b)
    decreases |a|
  {
    if a != [] {
      assert (a + b)[1..] == a[1..] + b;
      RenderAppend(a[1..], b);
    } else {
      assert a + b == b;
    }
  }

  /** An empty catalog renders as the empty string; any other ends with a line break. */
  lemma RenderEnds(catalog: seq<MemeTemplate>)
    ensures catalog == [] <==> Render(catalog) == ""
    ensures catalog != [] ==> Render(catalog)[|Render(catalog)| - 1] == '\n'
  {
    if catalog != [] {
      var n := |catalog| - 1;
      assert catalog == catalog[..n] + [catalog[n]];
      RenderAppend(catalog[..n], [catalog[n]]);
    }
  }

  function CountNewlines(s: string): nat
    decreases |s|
  {
    if s == [] then 0 else (if s[0] == '\n' then 1 else 0) + CountNewlines(s[1..])
  }

  lemma {:induction false} CountNewlinesAppend(a: string, b: string)
    ensures CountNewlines(a + b) == CountNewlines(a) + CountNewlines(b)
    decreases |a|
  {
    if a != [] {
      assert (a + b)[1..] == a[1..] + b;
      CountNewlinesAppend(a[1..], b);
    } else {
      assert a + b == b;
    }
  }

  lemma {:induction false} NoNewlineCount(s: string)
    requires '\n' !in s
    ensures CountNewlines(s) == 0
    decreases |s|
  {
    if s != [] {
      assert s == [s[0]] + s[1..];
      NoNewlineCount(s[1..]);
    }
  }

  lemma LineHasOneBreak(t: MemeTemplate)
    requires '\n' !in t.name && '\n' !in t.id
    ensures CountNewlines(Line(t)) == 1
  {
    var body := t.name + ": " + t.id + ", " + IntToString(t.boxCount);
    assert '\n' !in body;
    NoNewlineCount(body);
    CountNewlinesAppend(body, "\n");
  }

  /** When names and ids hold no line break, the listing has exactly one line per template. */
  lemma {:induction false} RenderLineCount(catalog: seq<MemeTemplate>)
    requires forall k :: 0 <= k < |catalog| ==> '\n' !in catalog[k].name && '\n' !in catalog[k].id
    ensures CountNewlines(Render(catalog)) == |catalog|
    decreases |catalog|
  {
    if catalog != [] {
      LineHasOneBreak(catalog[0]);
      CountNewlinesAppend(Line(catalog[0]), Render(catalog[1..]));
      RenderLineCount(catalog[1..]);
    }
  }

  /** Appends one line per template to an initially empty string. */
  method GetMemeList(catalog: seq<MemeTemplate>) returns (memeList: string)
    ensures memeList == Render(catalog)
  {
    memeList := "";
    for i := 0 to |catalog|
      invariant memeList == Render(catalog[..i])
    {
      memeList := memeList + (catalog[i].name + ": " + catalog[i].id
                              + ", " + IntToString(catalog[i].boxCount) + "\n");
      assert Render([catalog[i]]) == Line(catalog[i]);
      assert catalog[..i + 1] == catalog[..i] + [catalog[i]];
      RenderAppend(catalog[..i], [catalog[i]]);
    }
    assert catalog[..|catalog|] == catalog;
  }
}
