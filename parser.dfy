/**
 * `parse_message` (telegrambot.py:139-147): the template id is the first maximal run of
 * digits (`re.search(r'\d+', message)[0]`, which raises when there is no digit), and the
 * captions are `re.findall('“(.*?)”', message)`: left to right, an opening quotation mark,
 * the shortest stretch without a line break, and a closing quotation mark.
 */
module Parser {
  import opened Wrappers
  import opened Text

  /** U+201C LEFT DOUBLE QUOTATION MARK and U+201D RIGHT DOUBLE QUOTATION MARK. */
  const Open: char := '\U{201C}'
  const Close: char := '\U{201D}'

  // ---------------------------------------------------------------- the template id

  /** The longest prefix of `s` made of digits. */
  function DigitRun(s: string): (d: string)
    ensures |d| <= |s| && d == s[..|d|] && AllDigits(d)
    ensures |d| == |s| || !IsDigit(s[|d|])
    decreases |s|
  {
    if |s| > 0 && IsDigit(s[0]) then [s[0]] + DigitRun(s[1..]) else []
  }

  /** `re.search(r'\d+', s)`: the digit run starting at the first digit, if there is one. */
  function SearchDigits(s: string): Option<string>
    decreases |s|
  {
    if |s| == 0 then None
    else if IsDigit(s[0]) then Some(DigitRun(s))
    else SearchDigits(s[1..])
  }

  /** `d` is a maximal run of digits at position `k` and no digit comes before it. */
  ghost predicate LeftmostDigitRun(s: string, k: nat, d: string) {
    && k + |d| <= |s|
    && |d| > 0
    && s[k..k + |d|] == d
    && AllDigits(d)
    && (forall i :: 0 <= i < k ==> !IsDigit(s[i]))
    && (k + |d| == |s| || !IsDigit(s[k + |d|]))
  }

  lemma {:induction false} SearchDigitsFindsLeftmostRun(s: string)
    ensures SearchDigits(s).None? <==> forall i :: 0 <= i < |s| ==> !IsDigit(s[i])
    ensures SearchDigits(s).Some? ==> exists k: nat :: LeftmostDigitRun(s, k, SearchDigits(s).value)
    decreases |s|
  {
    if |s| > 0 && !IsDigit(s[0]) {
      SearchDigitsFindsLeftmostRun(s[1..]);
      forall i | 1 <= i < |s| ensures s[i] == s[1..][i - 1] { }
      if SearchDigits(s).Some? {
        var d := SearchDigits(s).value;
        var k: nat :| LeftmostDigitRun(s[1..], k, d);
        assert s[k + 1..k + 1 + |d|] == s[1..][k..k + |d|];
        assert LeftmostDigitRun(s, k + 1, d);
      }
    } else if |s| > 0 {
      assert LeftmostDigitRun(s, 0, DigitRun(s));
    }
  }

  lemma {:induction false} DigitRunIsMaximalPrefix(s: string, d: string)
    requires |d| <= |s| && d == s[..|d|] && AllDigits(d)
    requires |d| == |s| || !IsDigit(s[|d|])
    ensures DigitRun(s) == d
    decreases |s|
  {
    if |d| > 0 {
      DigitRunIsMaximalPrefix(s[1..], d[1..]);
    }
  }

  /** Conversely, whatever satisfies the description is what the search returns. */
  lemma {:induction false} LeftmostDigitRunIsFound(s: string, k: nat, d: string)
    requires LeftmostDigitRun(s, k, d)
    ensures SearchDigits(s) == Some(d)
    decreases k
  {
    if k == 0 {
      assert s[..|d|] == d;
      DigitRunIsMaximalPrefix(s, d);
    } else {
      assert s[1..][k - 1..k - 1 + |d|] == s[k..k + |d|];
      LeftmostDigitRunIsFound(s[1..], k - 1, d);
    }
  }

  // ---------------------------------------------------------------- the captions

  /** Where `“(.*?)”` can end once the opening mark is matched: the first closing mark, provided
      no line break comes before it (`.` does not match a line break). */
  function CloseAt(t: string): (r: Option<nat>)
    ensures r.Some? ==> r.value < |t| && t[r.value] == Close
    ensures r.Some? ==> Close !in t[..r.value] && '\n' !in t[..r.value]
    ensures r.None? ==> forall j :: 0 <= j < |t| && t[j] == Close ==> '\n' in t[..j]
    decreases |t|
  {
    if |t| == 0 then None
    else if t[0] == Close then Some(0)
    else if t[0] == '\n' then None
    else
      match CloseAt(t[1..])
      case None =>
        assert forall j :: 1 <= j < |t| ==> t[1..][..j - 1] == t[1..j];
        None
      case Some(j) =>
        assert t[..j + 1] == [t[0]] + t[1..][..j];
        Some(j + 1)
  }

  /** `re.findall('“(.*?)”', s)`: try a match at each position from the left; after a match,
      carry on behind its closing mark. */
  function Captions(s: string): seq<string>
    decreases |s|
  {
    if |s| == 0 then []
    else if s[0] == Open && CloseAt(s[1..]).Some? then
      var j := CloseAt(s[1..]).value;
      [s[1..j + 1]] + Captions(s[j + 2..])
    else Captions(s[1..])
  }

  /** The stretches of `s` between the matches, in order: one more than there are captions. */
  ghost function Gaps(s: string): (gs: seq<string>)
    ensures |gs| == |Captions(s)| + 1
    decreases |s|
  {
    if |s| == 0 then [""]
    else if s[0] == Open && CloseAt(s[1..]).Some? then
      [""] + Gaps(s[CloseAt(s[1..]).value + 2..])
    else
      var g := Gaps(s[1..]);
      [[s[0]] + g[0]] + g[1..]
  }

  /** Reassembles a message from the text between the matches and the quoted captions. */
  ghost function Weave(gaps: seq<string>, caps: seq<string>): string
    requires |gaps| == |caps| + 1
    decreases |caps|
  {
    if |caps| == 0 then gaps[0]
    else gaps[0] + [Open] + caps[0] + [Close] + Weave(gaps[1..], caps[1..])
  }

  /** Every opening mark in `g` is followed, inside `g`, by a line break. */
  ghost predicate Unclosable(g: string) {
    forall i :: 0 <= i < |g| && g[i] == Open ==> '\n' in g[i + 1..]
  }

  /** No opening mark in `g` is followed by a closing mark on the same line. */
  ghost predicate PairFree(g: string) {
    forall i, j :: 0 <= i < j < |g| && g[i] == Open && g[j] == Close ==> '\n' in g[i + 1..j]
  }

  /** `caps` are the captions findall returns for `s`, with `gaps` the text around them:
      the message is the gaps and the quoted captions interleaved, no caption holds a closing
      mark or a line break, and no gap hides a match that the scan would have taken. */
  ghost predicate FindAllSplit(s: string, gaps: seq<string>, caps: seq<string>) {
    && |gaps| == |caps| + 1
    && Weave(gaps, caps) == s
    && (forall k :: 0 <= k < |caps| ==> Close !in caps[k] && '\n' !in caps[k])
    && (forall k :: 0 <= k <= |caps| ==> PairFree(gaps[k]))
    && (forall k :: 0 <= k < |caps| ==> Unclosable(gaps[k]))
  }

  lemma WeaveConsGap(c: char, gaps: seq<string>, caps: seq<string>)
    requires |gaps| == |caps| + 1
    ensures Weave([[c] + gaps[0]] + gaps[1..], caps) == [c] + Weave(gaps, caps)
  {
    var gs := [[c] + gaps[0]] + gaps[1..];
    assert gs[0] == [c] + gaps[0] && gs[1..] == gaps[1..];
  }

  /** The first gap and caption of a weave. The same equation is stated with both bracketings of
      `+`, so that callers need not re-associate the concatenation themselves. */
  lemma WeaveFront(gaps: seq<string>, caps: seq<string>)
    requires |gaps| == |caps| + 1 && |caps| > 0
    ensures Weave(gaps, caps) == gaps[0] + ([Open] + caps[0] + [Close] + Weave(gaps[1..], caps[1..]))
    ensures Weave(gaps, caps) == gaps[0] + [Open] + caps[0] + [Close] + Weave(gaps[1..], caps[1..])
  {
  }

  /** A character the scan passes over joins the gap in front of it without creating a match. */
  lemma ExtendGap(s: string, g: string, tail: string)
    requires |s| > 0 && s[1..] == g + tail
    requires s[0] == Open ==> CloseAt(s[1..]).None?
    requires PairFree(g)
    ensures PairFree([s[0]] + g)
  {
    var g' := [s[0]] + g;
    forall i, j | 0 <= i < j < |g'| && g'[i] == Open && g'[j] == Close
      ensures '\n' in g'[i + 1..j]
    {
      if i == 0 {
        assert s[1..][j - 1] == Close;
        assert s[1..][..j - 1] == g'[1..j];
      } else {
        assert g'[i + 1..j] == g[i..j - 1];
        assert g[i - 1] == Open && g[j - 1] == Close;
      }
    }
  }

  lemma ExtendInnerGap(s: string, g: string, c: string, tail: string)
    requires |s| > 0 && s[1..] == g + [Open] + c + [Close] + tail
    requires Close !in c && '\n' !in c
    requires s[0] == Open ==> CloseAt(s[1..]).None?
    requires Unclosable(g)
    ensures Unclosable([s[0]] + g)
  {
    var g' := [s[0]] + g;
    forall i | 0 <= i < |g'| && g'[i] == Open
      ensures '\n' in g'[i + 1..]
    {
      if i == 0 {
        var p := |g| + 1 + |c|;
        assert s[1..][p] == Close;
        assert s[1..][..p] == g + [Open] + c;
        assert '\n' in g;
        assert g'[1..] == g;
      } else {
        assert g'[i + 1..] == g[i..];
        assert g[i - 1] == Open;
      }
    }
  }

  /** A match at the front: an empty gap, the caption, then the split of the rest. */
  lemma SplitAfterMatch(s: string, j: nat, g: seq<string>, caps: seq<string>)
    requires |s| > 0 && s[0] == Open && CloseAt(s[1..]) == Some(j)
    requires FindAllSplit(s[j + 2..], g, caps)
    ensures FindAllSplit(s, [""] + g, [s[1..j + 1]] + caps)
  {
    var rest := s[j + 2..];
    var gs, cs := [""] + g, [s[1..j + 1]] + caps;
    assert Weave(gs, cs) == s by {
      assert gs[1..] == g && cs[1..] == caps;
      assert s == [Open] + s[1..j + 1] + [Close] + rest;
    }
    assert Close !in cs[0] && '\n' !in cs[0] by {
      assert s[1..][..j] == cs[0];
    }
    forall k | 1 <= k <= |cs| ensures PairFree(gs[k]) {
      assert gs[k] == g[k - 1];
    }
    forall k | 1 <= k < |cs| ensures Unclosable(gs[k]) && Close !in cs[k] && '\n' !in cs[k] {
      assert gs[k] == g[k - 1] && cs[k] == caps[k - 1];
    }
  }

  /** No match at the front: the first character joins the first gap. */
  lemma SplitAfterSkip(s: string, g: seq<string>, caps: seq<string>)
    requires |s| > 0 && (s[0] == Open ==> CloseAt(s[1..]).None?)
    requires FindAllSplit(s[1..], g, caps)
    ensures FindAllSplit(s, [[s[0]] + g[0]] + g[1..], caps)
  {
    var g0 := [s[0]] + g[0];
    var gs := [g0] + g[1..];
    assert Weave(gs, caps) == s by {
      WeaveConsGap(s[0], g, caps);
      assert s == [s[0]] + s[1..];
    }
    assert PairFree(g0) && (|caps| > 0 ==> Unclosable(g0)) by {
      if |caps| == 0 {
        ExtendGap(s, g[0], []);
      } else {
        var tail := Weave(g[1..], caps[1..]);
        WeaveFront(g, caps);
        ExtendGap(s, g[0], [Open] + caps[0] + [Close] + tail);
        ExtendInnerGap(s, g[0], caps[0], tail);
      }
    }
    forall k | 0 <= k <= |caps| ensures PairFree(gs[k]) {
      if k > 0 {
        assert gs[k] == g[k];
      }
    }
    forall k | 0 <= k < |caps| ensures Unclosable(gs[k]) {
      if k > 0 {
        assert gs[k] == g[k];
      }
    }
  }

  /** The captions together with the gaps between them account for the whole message, and no
      gap could have yielded a caption: findall's result, characterised without the scan. */
  lemma {:induction false} CaptionsSplit(s: string)
    ensures FindAllSplit(s, Gaps(s), Captions(s))
    decreases |s|
  {
    if |s| == 0 {
    } else if s[0] == Open && CloseAt(s[1..]).Some? {
      var j := CloseAt(s[1..]).value;
      CaptionsSplit(s[j + 2..]);
      assert Gaps(s) == [""] + Gaps(s[j + 2..]);
      assert Captions(s) == [s[1..j + 1]] + Captions(s[j + 2..]);
      SplitAfterMatch(s, j, Gaps(s[j + 2..]), Captions(s[j + 2..]));
    } else {
      CaptionsSplit(s[1..]);
      var g := Gaps(s[1..]);
      assert Gaps(s) == [[s[0]] + g[0]] + g[1..];
      SplitAfterSkip(s, g, Captions(s[1..]));
    }
  }

  /** A message without an opening and a closing mark on one line yields no captions, and
      only such a message does. */
  lemma NoCaptionsIffPairFree(s: string)
    ensures Captions(s) == [] <==> PairFree(s)
  {
    CaptionsSplit(s);
    var gs, cs := Gaps(s), Captions(s);
    if cs != [] {
      WeaveFront(gs, cs);
      var i := |gs[0]|;
      var j := i + 1 + |cs[0]|;
      assert s[i] == Open && s[j] == Close;
      assert s[i + 1..j] == cs[0];
    }
  }

  lemma {:induction false} CloseAtFirstClose(c: string, x: string)
    requires Close !in c && '\n' !in c
    ensures CloseAt(c + [Close] + x) == Some(|c|)
    decreases |c|
  {
    if |c| > 0 {
      assert (c + [Close] + x)[1..] == c[1..] + [Close] + x;
      CloseAtFirstClose(c[1..], x);
    }
  }

  lemma GapTail(g: string)
    requires |g| > 0
    ensures PairFree(g) ==> PairFree(g[1..])
    ensures Unclosable(g) ==> Unclosable(g[1..])
  {
    var t := g[1..];
    if PairFree(g) {
      forall i, j | 0 <= i < j < |t| && t[i] == Open && t[j] == Close
        ensures '\n' in t[i + 1..j]
      {
        assert t[i + 1..j] == g[i + 2..j + 1];
      }
    }
    if Unclosable(g) {
      forall i | 0 <= i < |t| && t[i] == Open
        ensures '\n' in t[i + 1..]
      {
        assert t[i + 1..] == g[i + 2..];
      }
    }
  }

  /** An opening mark at the head of a gap cannot start a match. */
  lemma GapHeadNoMatch(s: string, gaps: seq<string>, caps: seq<string>)
    requires FindAllSplit(s, gaps, caps) && |gaps[0]| > 0 && s[0] == Open
    ensures CloseAt(s[1..]).None?
  {
    var g := gaps[0];
    var t := s[1..];
    if |caps| == 0 {
      assert s == g;
      forall j | 0 <= j < |t| && t[j] == Close ensures '\n' in t[..j] {
        assert g[0] == Open && g[j + 1] == Close;
        assert t[..j] == g[1..j + 1];
      }
    } else {
      WeaveFront(gaps, caps);
      assert s[0] == g[0];
      assert '\n' in g[1..];
      forall j | 0 <= j < |t| && t[j] == Close ensures '\n' in t[..j] {
        if j + 1 < |g| {
          assert g[0] == Open && g[j + 1] == Close;
          assert t[..j] == g[1..j + 1];
        } else {
          assert t[..|g| - 1] == g[1..];
          assert t[..j] == g[1..] + t[|g| - 1..j];
        }
      }
    }
  }

  /** A split whose first gap is not empty: the scan passes over the gap's first character. */
  lemma DropGapHead(s: string, gaps: seq<string>, caps: seq<string>)
    requires FindAllSplit(s, gaps, caps) && |gaps[0]| > 0
    ensures |s| > 0 && FindAllSplit(s[1..], [gaps[0][1..]] + gaps[1..], caps)
  {
    var g := gaps[0];
    var gaps' := [g[1..]] + gaps[1..];
    assert gaps == [[s[0]] + gaps'[0]] + gaps'[1..] by {
      if |caps| == 0 {
        assert s == g;
      } else {
        WeaveFront(gaps, caps);
      }
      assert g == [g[0]] + g[1..];
    }
    assert FindAllSplit(s[1..], gaps', caps) by {
      WeaveConsGap(s[0], gaps', caps);
      assert s == [s[0]] + s[1..];
      GapTail(g);
      forall k | 1 <= k <= |caps| ensures gaps'[k] == gaps[k] { }
    }
  }

  lemma GapHeadSkipped(s: string, gaps: seq<string>, caps: seq<string>)
    requires FindAllSplit(s, gaps, caps) && |gaps[0]| > 0
    ensures |s| > 0 && Captions(s) == Captions(s[1..])
  {
    if caps != [] {
      WeaveFront(gaps, caps);
    }
    if s[0] == Open {
      GapHeadNoMatch(s, gaps, caps);
    }
  }

  /** A quoted caption at the very front is the first match. */
  lemma MatchAtFront(c: string, rest: string)
    requires Close !in c && '\n' !in c
    ensures Captions([Open] + c + [Close] + rest) == [c] + Captions(rest)
  {
    var s := [Open] + c + [Close] + rest;
    assert s[1..] == c + [Close] + rest;
    CloseAtFirstClose(c, rest);
    var j := |c|;
    assert s[1..j + 1] == c;
    assert s[j + 2..] == rest;
  }

  /** A split whose first gap is empty: the scan matches the first caption right away. */
  lemma DropMatch(s: string, gaps: seq<string>, caps: seq<string>)
    requires FindAllSplit(s, gaps, caps) && gaps[0] == [] && |caps| > 0
    ensures |Weave(gaps[1..], caps[1..])| < |s|
    ensures FindAllSplit(Weave(gaps[1..], caps[1..]), gaps[1..], caps[1..])
    ensures Captions(s) == [caps[0]] + Captions(Weave(gaps[1..], caps[1..]))
  {
    WeaveFront(gaps, caps);
    var rest := Weave(gaps[1..], caps[1..]);
    assert s == [Open] + caps[0] + [Close] + rest;
    MatchAtFront(caps[0], rest);
    forall k | 0 <= k < |caps| ensures gaps[1..][k] == gaps[k + 1] { }
    forall k | 0 <= k < |caps| - 1 ensures caps[1..][k] == caps[k + 1] { }
  }

  /** The characterisation determines the captions: any split that satisfies it is findall's. */
  lemma {:induction false} SplitDeterminesCaptions(s: string, gaps: seq<string>, caps: seq<string>)
    requires FindAllSplit(s, gaps, caps)
    ensures caps == Captions(s)
    decreases |s|
  {
    if |gaps[0]| > 0 {
      DropGapHead(s, gaps, caps);
      GapHeadSkipped(s, gaps, caps);
      SplitDeterminesCaptions(s[1..], [gaps[0][1..]] + gaps[1..], caps);
    } else if |caps| > 0 {
      DropMatch(s, gaps, caps);
      SplitDeterminesCaptions(Weave(gaps[1..], caps[1..]), gaps[1..], caps[1..]);
    }
  }

  /** findall's result, stated without the scan: `caps` is what it returns for `s` exactly when
      some split of `s` around `caps` meets the characterisation. */
  lemma CaptionsCharacterised(s: string, caps: seq<string>)
    ensures caps == Captions(s) <==> exists gaps :: FindAllSplit(s, gaps, caps)
  {
    CaptionsSplit(s);
    if gaps :| FindAllSplit(s, gaps, caps) {
      SplitDeterminesCaptions(s, gaps, caps);
    }
  }

  // ---------------------------------------------------------------- the whole command

  /** `parse_message`: `None` where the source raises (no digit in the message), otherwise the
      template id and the captions. */
  function ParseMessage(message: string): Option<(string, seq<string>)> {
    match SearchDigits(message)
    case None => None
    case Some(id) => Some((id, Captions(message)))
  }

  /** Parsing fails exactly when the message has no digit; otherwise the id is the leftmost
      maximal digit run and the captions are those the findall characterisation describes. */
  lemma ParseMessageSpec(message: string)
    ensures var r := ParseMessage(message);
      && (r.None? <==> forall i :: 0 <= i < |message| ==> !IsDigit(message[i]))
      && (r.Some? ==> exists k: nat :: LeftmostDigitRun(message, k, r.value.0))
      && (r.Some? ==> exists gaps :: FindAllSplit(message, gaps, r.value.1))
  {
    SearchDigitsFindsLeftmostRun(message);
    CaptionsSplit(message);
  }

  lemma NoOpenGap(g: string)
    requires Open !in g
    ensures PairFree(g) && Unclosable(g)
  {
  }

  /** Captions quoted one after the other, each preceded by `sep`. */
  ghost function Quoted(sep: string, caps: seq<string>): string
    decreases |caps|
  {
    if caps == [] then "" else sep + [Open] + caps[0] + [Close] + Quoted(sep, caps[1..])
  }

  ghost function SepGaps(sep: string, n: nat): (gs: seq<string>)
    ensures |gs| == n + 1 && gs[n] == ""
    ensures forall k :: 0 <= k < n ==> gs[k] == sep
  {
    if n == 0 then [""] else [sep] + SepGaps(sep, n - 1)
  }

  lemma {:induction false} QuotedIsWeave(sep: string, caps: seq<string>)
    ensures Weave(SepGaps(sep, |caps|), caps) == Quoted(sep, caps)
    decreases |caps|
  {
    if caps != [] {
      var gs := SepGaps(sep, |caps|);
      assert gs[1..] == SepGaps(sep, |caps| - 1);
      QuotedIsWeave(sep, caps[1..]);
    }
  }

  lemma WeavePrefix(x: string, gaps: seq<string>, caps: seq<string>)
    requires |gaps| == |caps| + 1
    ensures Weave([x + gaps[0]] + gaps[1..], caps) == x + Weave(gaps, caps)
  {
    var gs := [x + gaps[0]] + gaps[1..];
    assert gs[0] == x + gaps[0] && gs[1..] == gaps[1..];
  }

  /** A command shaped like `makememe 61579 “top text” “bottom text”`: text without digits or
      opening marks, the template id, then the captions each quoted after a separator that starts
      with a non-digit. The parse returns exactly that id and those captions, in order. */
  lemma ParseCommand(head: string, id: string, sep: string, caps: seq<string>)
    requires forall i :: 0 <= i < |head| ==> !IsDigit(head[i]) && head[i] != Open
    requires |id| > 0 && AllDigits(id)
    requires |sep| > 0 && !IsDigit(sep[0]) && Open !in sep
    requires forall k :: 0 <= k < |caps| ==> Close !in caps[k] && '\n' !in caps[k]
    ensures ParseMessage(head + id + Quoted(sep, caps)) == Some((id, caps))
  {
    var q := Quoted(sep, caps);
    var m := head + id + q;
    assert SearchDigits(m) == Some(id) by {
      assert m[|head|..|head| + |id|] == id;
      if caps != [] {
        assert m[|head| + |id|] == sep[0];
      }
      LeftmostDigitRunIsFound(m, |head|, id);
    }
    assert Captions(m) == caps by {
      var sg := SepGaps(sep, |caps|);
      var gaps := [head + id + sg[0]] + sg[1..];
      QuotedIsWeave(sep, caps);
      WeavePrefix(head + id, sg, caps);
      forall k | 0 <= k <= |caps| ensures Open !in gaps[k] {
        if k == 0 {
          assert gaps[0] == head + id + sg[0];
          assert forall c :: c in id ==> IsDigit(c);
        } else {
          assert gaps[k] == sg[k];
        }
      }
      forall k | 0 <= k <= |caps| ensures PairFree(gaps[k]) && Unclosable(gaps[k]) {
        NoOpenGap(gaps[k]);
      }
      SplitDeterminesCaptions(m, gaps, caps);
    }
  }
}
