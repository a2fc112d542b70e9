/** The rewriter of lib/ai-output.js over one bracket pass: refused URLs become a neutral one. */
module AiRewrite {
  import opened Results
  import opened AiScan

  /** "about:blank#blocked" */
  const NEUTRALIZED_URL: Text := [97, 98, 111, 117, 116, 58, 98, 108, 97, 110, 107, 35, 98, 108, 111, 99, 107, 101, 100]

  /** The verdict on a URL is any predicate; a refused URL is replaced. */
  function Fixed(keep: Text -> bool, url: Text): Text {
    if keep(url) then url else NEUTRALIZED_URL
  }

  /** The spans of a text, in order, none reaching into the next. */
  predicate Ordered(text: Text, spans: seq<Span>, last: nat) {
    if spans == [] then last <= |text|
    else last <= spans[0].start < spans[0].end <= |text| && Ordered(text, spans[1..], spans[0].end)
  }

  /** The text from `last` on with every span replaced. */
  function Replaced(text: Text, spans: seq<Span>, last: nat, keep: Text -> bool): Text
    requires Ordered(text, spans, last)
  {
    if spans == [] then text[last..]
    else
      var s := spans[0];
      text[last..s.start] + Fixed(keep, text[s.start..s.end]) + Replaced(text, spans[1..], s.end, keep)
  }

  lemma {:induction false} SpansOrdered(text: Text, wantBang: bool, i: nat)
    requires i <= |text|
    ensures Ordered(text, Spans(text, wantBang, i), i)
    decreases |text| - i
  {
    hide First;
    if First(text, wantBang, i).Some? {
      FirstBounds(text, wantBang, i);
      SpansOrdered(text, wantBang, First(text, wantBang, i).value.end);
    }
  }

  /** What one pass makes of a text from position i on. */
  function Pass(text: Text, wantBang: bool, i: nat, keep: Text -> bool): Text
    requires i <= |text|
  {
    SpansOrdered(text, wantBang, i);
    Replaced(text, Spans(text, wantBang, i), i, keep)
  }

  /** `_rewriteUrls` over the bracket scanner; the scan does not depend on what the callback answers. */
  method RewriteUrls(text: Text, wantBang: bool, keep: Text -> bool) returns (r: Text)
    ensures r == Pass(text, wantBang, 0, keep)
  {
    hide Spans, Fixed;
    var spans := FindBracketUrls(text, wantBang);
    SpansOrdered(text, wantBang, 0);
    var out: Text := [];
    var last: nat := 0;
    ghost var at: nat := 0;
    for n := 0 to |spans|
      invariant last <= at <= |text| && Ordered(text, spans[n..], at) && (last == 0 ==> out == [])
      invariant out + text[last..at] + Replaced(text, spans[n..], at, keep) == Replaced(text, spans, 0, keep)
    {
      var s := spans[n];
      assert spans[n..][0] == s && spans[n..][1..] == spans[n + 1..];
      Unroll(text, spans[n..], out, last, at, keep);
      hide Replaced, Ordered;
      var url := text[s.start..s.end];
      var replacement := Fixed(keep, url);
      if replacement != url && s.start >= last {
        out := out + text[last..s.start] + replacement;
        last := s.end;
      }
      at := s.end;
    }
    RestOf(text, out, last, at);
    r := if last == 0 then text else out + text[last..];
  }

  lemma RestOf(text: Text, out: Text, last: nat, at: nat)
    requires last <= at <= |text|
    ensures out + text[last..at] + text[at..] == out + text[last..]
  {
    assert text[last..at] + text[at..] == text[last..];
  }

  lemma Unroll(text: Text, spans: seq<Span>, out: Text, last: nat, at: nat, keep: Text -> bool)
    requires last <= at && spans != [] && Ordered(text, spans, at)
    ensures var s := spans[0]; var rest := spans[1..];
            && at <= s.start < s.end <= |text| && Ordered(text, rest, s.end)
            && var url := text[s.start..s.end];
               && out + text[last..at] + Replaced(text, spans, at, keep)
                  == (out + text[last..s.start] + Fixed(keep, url)) + text[s.end..s.end] + Replaced(text, rest, s.end, keep)
               && (Fixed(keep, url) == url ==>
                     out + text[last..at] + Replaced(text, spans, at, keep) == out + text[last..s.end] + Replaced(text, rest, s.end, keep))
  {
    hide Fixed;
    var s := spans[0];
    var url, rest := text[s.start..s.end], Replaced(text, spans[1..], s.end, keep);
    assert Replaced(text, spans, at, keep) == text[at..s.start] + Fixed(keep, url) + rest;
    Slices(text, last, at, s.start, s.end);
    hide Replaced, Ordered;
    Regroup(out, text[last..at], text[at..s.start], Fixed(keep, url), rest);
  }

  lemma Slices(text: Text, a: nat, b: nat, c: nat, d: nat)
    requires a <= b <= c <= d <= |text|
    ensures text[a..b] + text[b..c] == text[a..c] && text[a..c] + text[c..d] == text[a..d] && text[d..d] == []
  {
  }

  lemma Regroup(out: Text, a: Text, b: Text, f: Text, rest: Text)
    ensures out + a + (b + f + rest) == out + (a + b) + f + [] + rest
    ensures out + a + (b + f + rest) == out + ((a + b) + f) + rest
  {
  }

  // ---------------------------------------------------------------- scanning the result

  /** t, moved by d, reads as s from i to k. */
  ghost predicate Agree(s: Text, t: Text, d: int, i: nat, k: nat) {
    forall x :: i <= x < k ==> SameUnit(s, t, d, x)
  }

  ghost predicate SameUnit(s: Text, t: Text, d: int, x: nat) {
    x < |s| && 0 <= x + d < |t| && t[x + d] == s[x]
  }

  /** A URL reads from `from` to `to`. */
  ghost predicate UrlAt(t: Text, from: int, to: nat) {
    && 0 <= from < to <= |t|
    && (forall x :: from <= x < to ==> !Stop(t[x]))
    && (to < |t| ==> Stop(t[to]))
  }

  /** A bracket at the start of the moved part has the same bang. */
  ghost predicate SameBang(s: Text, t: Text, d: int, i: nat) {
    i + d >= 0 && (i < |s| && i + d < |t| && s[i] == OPEN ==> HasBang(s, i) == HasBang(t, i + d))
  }

  lemma BangMoves(s: Text, t: Text, d: int, i: nat, k: nat, open: nat)
    requires Agree(s, t, d, i, k) && SameBang(s, t, d, i) && i <= open < k && (open < |s| ==> s[open] == OPEN)
    ensures open < |s| && 0 <= open + d < |t| && HasBang(t, open + d) == HasBang(s, open)
  {
    assert SameUnit(s, t, d, open);
    if i < open { assert SameUnit(s, t, d, open - 1); }
  }

  /** The link whose URL is replaced is still found, with the new URL. */
  lemma LinkMoves(s: Text, t: Text, wantBang: bool, d: int, i: nat, open: nat, close: nat, k: nat, u: nat, u2: nat)
    requires IsLink(s, wantBang, open, close, k, u) && i <= open
    requires Agree(s, t, d, i, k) && SameBang(s, t, d, i)
    requires UrlAt(t, k + d, u2)
    ensures open + d >= 0 && close + d >= 0 && IsLink(t, wantBang, open + d, close + d, k + d, u2)
  {
    BangMoves(s, t, d, i, k, open);
    assert SameUnit(s, t, d, open) && SameUnit(s, t, d, close) && SameUnit(s, t, d, close + 1);
    forall x | open + d < x < close + d ensures t[x] != CLOSE { assert SameUnit(s, t, d, x - d); }
    forall x | close + d + 2 <= x < k + d ensures Space(t[x]) { assert SameUnit(s, t, d, x - d); }
  }

  /** A bracket before the first link begins no link after the replacement either. */
  lemma NoLinkMoves(s: Text, t: Text, wantBang: bool, d: int, i: nat, o: nat, open: nat, close: nat, k: nat, u: nat)
    requires IsLink(s, wantBang, open, close, k, u) && i <= o < open && s[o] == OPEN
    requires Agree(s, t, d, i, k) && SameBang(s, t, d, i)
    requires 0 <= o + d < |t| && LinkAt(s, wantBang, o).None?
    ensures LinkAt(t, wantBang, o + d).None?
  {
    hide IndexOf, GapEnd, UrlEnd, Space, LinkAt;
    if LinkAt(t, wantBang, o + d).Some? {
      assert SameUnit(s, t, d, o) && SameUnit(s, t, d, close);
      var c2 := FoundIsLink(t, wantBang, o + d);
      var f := LinkAt(t, wantBang, o + d).value;
      assert c2 <= close + d;
      if c2 == close + d {
        SameClose(s, t, wantBang, d, i, o, open, close, k, u, f);
      } else {
        EarlierClose(s, t, wantBang, d, i, o, close, k, c2 - d, f);
      }
    }
  }

  lemma SameClose(s: Text, t: Text, wantBang: bool, d: int, i: nat, o: nat, open: nat, close: nat, k: nat, u: nat, f: Span)
    requires IsLink(s, wantBang, open, close, k, u) && i <= o < open && s[o] == OPEN
    requires Agree(s, t, d, i, k) && SameBang(s, t, d, i) && o + d >= 0
    requires IsLink(t, wantBang, o + d, close + d, f.start, f.end)
    ensures LinkAt(s, wantBang, o).Some?
  {
    BangMoves(s, t, d, i, k, o);
    forall x | o < x < close ensures s[x] != CLOSE { assert SameUnit(s, t, d, x); }
    IsLinkFound(s, wantBang, o, close, k, u);
  }

  lemma EarlierClose(s: Text, t: Text, wantBang: bool, d: int, i: nat, o: nat, close: nat, k: nat, c: int, f: Span)
    requires i <= o < c < close < k <= |s| && s[o] == OPEN && s[close] == CLOSE
    requires Agree(s, t, d, i, k) && SameBang(s, t, d, i) && o + d >= 0
    requires IsLink(t, wantBang, o + d, c + d, f.start, f.end)
    ensures LinkAt(s, wantBang, o).Some?
  {
    BangMoves(s, t, d, i, k, o);
    assert SameUnit(s, t, d, close);
    assert !Space(CLOSE);
    assert f.start <= close + d;
    var g := f.start - d;
    assert SameUnit(s, t, d, g) && !Stop(s[g]);
    forall x | o < x < c ensures s[x] != CLOSE { assert SameUnit(s, t, d, x); }
    forall x | c + 2 <= x < g ensures Space(s[x]) { assert SameUnit(s, t, d, x); }
    assert SameUnit(s, t, d, c) && SameUnit(s, t, d, c + 1);
    var e := UrlEnd(s, g);
    assert IsLink(s, wantBang, o, c, g, e);
    IsLinkFound(s, wantBang, o, c, g, e);
  }

  /** Replacing the URL of the first link leaves it the first link, with the new URL. */
  lemma {:induction false} FirstMoves(s: Text, t: Text, wantBang: bool, d: int, i: nat, u2: nat)
    requires First(s, wantBang, i).Some?
    requires var f := First(s, wantBang, i).value;
             Agree(s, t, d, i, f.start) && SameBang(s, t, d, i) && i + d >= 0 && UrlAt(t, f.start + d, u2)
    ensures First(s, wantBang, i).value.start + d >= 0
    ensures First(t, wantBang, i + d) == Some(Span(First(s, wantBang, i).value.start + d, u2))
    decreases |s| - i
  {
    hide LinkAt, IsLink, Stop, Agree, SameBang;
    var f := First(s, wantBang, i).value;
    var open, close := FirstIsLink(s, wantBang, i);
    LinkShape(s, wantBang, open, close, f);
    var o := IndexOf(s, OPEN, i);
    assert o <= open;
    OpenMoves(s, t, d, i, f.start, o);
    if LinkAt(s, wantBang, o).Some? {
      var c := FoundIsLink(s, wantBang, o);
      LinkMoves(s, t, wantBang, d, i, o, c, f.start, f.end, u2);
      IsLinkFound(t, wantBang, o + d, c + d, f.start + d, u2);
    } else {
      IsLinkFound(s, wantBang, open, close, f.start, f.end);
      NoLinkMoves(s, t, wantBang, d, i, o, open, close, f.start, f.end);
      NextBang(s, t, d, i, f.start, o);
      FirstMoves(s, t, wantBang, d, o + 1, u2);
    }
  }

  lemma LinkShape(s: Text, wantBang: bool, open: nat, close: nat, f: Span)
    requires IsLink(s, wantBang, open, close, f.start, f.end)
    ensures open < f.start <= |s| && s[open] == OPEN
  {
  }

  lemma OpenMoves(s: Text, t: Text, d: int, i: nat, k: nat, o: nat)
    requires Agree(s, t, d, i, k) && i + d >= 0 && i <= o < k && o == IndexOf(s, OPEN, i)
    ensures 0 <= o + d < |t| && IndexOf(t, OPEN, i + d) == o + d
  {
    assert SameUnit(s, t, d, o);
    forall x | i + d <= x < o + d ensures t[x] != OPEN { assert SameUnit(s, t, d, x - d); }
    IndexOfIs(t, OPEN, i + d, o + d);
  }

  lemma NextBang(s: Text, t: Text, d: int, i: nat, k: nat, o: nat)
    requires Agree(s, t, d, i, k) && i + d >= 0 && i <= o < k <= |s|
    ensures Agree(s, t, d, o + 1, k) && SameBang(s, t, d, o + 1)
  {
    assert SameUnit(s, t, d, o);
  }

  /** If the moved part is the whole rest, nothing is found in one exactly when in the other. */
  lemma NoneMoves(s: Text, t: Text, wantBang: bool, i: nat, j: nat)
    requires i <= |s| && j <= |t| && s[i..] == t[j..] && SameBang(s, t, j - i, i)
    requires First(s, wantBang, i).None?
    ensures First(t, wantBang, j).None?
  {
    hide First;
    if First(t, wantBang, j).Some? {
      FirstBounds(t, wantBang, j);
      var f := First(t, wantBang, j).value;
      var d := i - j;
      forall x | j <= x < |t| ensures SameUnit(t, s, d, x) {
        assert s[i..][x - j] == t[j..][x - j];
      }
      assert |s| - i == |t| - j;
      assert f.end < |t| ==> Stop(s[f.end + (i - j)]);
      FirstMoves(t, s, wantBang, i - j, j, f.end + (i - j));
      assert false;
    }
  }

  // ---------------------------------------------------------------- the pass keeps everything else

  lemma PassStep(text: Text, wantBang: bool, i: nat, keep: Text -> bool)
    requires i <= |text|
    ensures var f := First(text, wantBang, i);
            if f.None? then Pass(text, wantBang, i, keep) == text[i..]
            else
              && i + 1 < f.value.start < f.value.end <= |text|
              && Pass(text, wantBang, i, keep)
                 == text[i..f.value.start] + Fixed(keep, text[f.value.start..f.value.end]) + Pass(text, wantBang, f.value.end, keep)
  {
    hide First, Fixed;
    if First(text, wantBang, i).Some? { FirstBounds(text, wantBang, i); }
    SpansOrdered(text, wantBang, i);
  }

  lemma PassHead(text: Text, wantBang: bool, i: nat, keep: Text -> bool)
    requires i <= |text|
    ensures var r := Pass(text, wantBang, i, keep);
            if i == |text| then r == [] else r != [] && r[0] == text[i]
  {
    hide Pass, Fixed, First;
    PassStep(text, wantBang, i, keep);
    var f := First(text, wantBang, i);
    if f.Some? { assert text[i..f.value.start][0] == text[i]; }
  }

  /** The texts between the spans. */
  function Gaps(text: Text, spans: seq<Span>, last: nat): seq<Text>
    requires Ordered(text, spans, last)
  {
    if spans == [] then [text[last..]] else [text[last..spans[0].start]] + Gaps(text, spans[1..], spans[0].end)
  }

  function Urls(text: Text, spans: seq<Span>, last: nat): seq<Text>
    requires Ordered(text, spans, last)
  {
    if spans == [] then [] else [text[spans[0].start..spans[0].end]] + Urls(text, spans[1..], spans[0].end)
  }

  function FixedAll(keep: Text -> bool, urls: seq<Text>): seq<Text> {
    if urls == [] then [] else [Fixed(keep, urls[0])] + FixedAll(keep, urls[1..])
  }

  function GapsFrom(text: Text, wantBang: bool, i: nat): seq<Text>
    requires i <= |text|
  {
    SpansOrdered(text, wantBang, i);
    Gaps(text, Spans(text, wantBang, i), i)
  }

  function UrlsFrom(text: Text, wantBang: bool, i: nat): seq<Text>
    requires i <= |text|
  {
    SpansOrdered(text, wantBang, i);
    Urls(text, Spans(text, wantBang, i), i)
  }

  lemma FromStep(text: Text, wantBang: bool, i: nat)
    requires i <= |text|
    ensures var f := First(text, wantBang, i);
            if f.None? then GapsFrom(text, wantBang, i) == [text[i..]] && UrlsFrom(text, wantBang, i) == []
            else
              && i + 1 < f.value.start < f.value.end <= |text|
              && GapsFrom(text, wantBang, i) == [text[i..f.value.start]] + GapsFrom(text, wantBang, f.value.end)
              && UrlsFrom(text, wantBang, i) == [text[f.value.start..f.value.end]] + UrlsFrom(text, wantBang, f.value.end)
  {
    hide First;
    if First(text, wantBang, i).Some? { FirstBounds(text, wantBang, i); }
    SpansOrdered(text, wantBang, i);
  }

  lemma FixedTwice(keep: Text -> bool, url: Text)
    ensures Fixed(keep, Fixed(keep, url)) == Fixed(keep, url)
  {
  }

  /** A fixed URL can stand where the URL stood. */
  lemma FixedReads(text: Text, keep: Text -> bool, k: nat, u: nat)
    requires UrlAt(text, k, u)
    ensures var f := Fixed(keep, text[k..u]); f != [] && forall x :: 0 <= x < |f| ==> !Stop(f[x])
  {
  }

  /** Where the first replaced URL lands. */
  lemma Landing(text: Text, wantBang: bool, keep: Text -> bool, i: nat, t: Text, j: nat)
    requires i <= |text| && j <= |t| && t[j..] == Pass(text, wantBang, i, keep) && First(text, wantBang, i).Some?
    ensures var f := First(text, wantBang, i).value;
            && i < f.start < f.end <= |text|
            && var d, fixed := j - i, Fixed(keep, text[f.start..f.end]);
               && Agree(text, t, d, i, f.start)
               && UrlAt(t, f.start + d, f.start + d + |fixed|)
               && t[f.start + d..f.start + d + |fixed|] == fixed
               && t[j..f.start + d] == text[i..f.start]
               && t[f.start + d + |fixed|..] == Pass(text, wantBang, f.end, keep)
               && (f.end < |text| ==> text[f.end] != OPEN)
  {
    hide First, Pass, Fixed, Stop;
    PassStep(text, wantBang, i, keep);
    FirstBounds(text, wantBang, i);
    var f := First(text, wantBang, i).value;
    var gap, fixed, rest := text[i..f.start], Fixed(keep, text[f.start..f.end]), Pass(text, wantBang, f.end, keep);
    FixedReads(text, keep, f.start, f.end);
    PassHead(text, wantBang, f.end, keep);
    Parts(t, j, gap, fixed, rest);
    var d := j - i;
    forall x | i <= x < f.start ensures SameUnit(text, t, d, x) { assert t[j..j + |gap|][x - i] == gap[x - i]; }
    forall x | j + |gap| <= x < j + |gap| + |fixed| ensures !Stop(t[x]) {
      assert t[j + |gap|..j + |gap| + |fixed|][x - j - |gap|] == t[x];
    }
    if j + |gap| + |fixed| < |t| { assert t[j + |gap| + |fixed|] == rest[0]; }
    OpenIsNoStop();
  }

  lemma OpenIsNoStop()
    ensures !Stop(OPEN)
  {
  }

  lemma Parts(t: Text, j: nat, a: Text, b: Text, c: Text)
    requires j <= |t| && t[j..] == a + b + c
    ensures |t| == j + |a| + |b| + |c|
    ensures t[j..j + |a|] == a && t[j + |a|..j + |a| + |b|] == b && t[j + |a| + |b|..] == c
  {
    var r := t[j..];
    assert |r| == |t| - j;
    assert forall x :: 0 <= x < |r| ==> r[x] == t[j + x];
    assert forall x :: 0 <= x < |a| ==> r[x] == a[x];
    assert forall x :: 0 <= x < |b| ==> r[|a| + x] == b[x];
    assert forall x :: 0 <= x < |c| ==> r[|a| + |b| + x] == c[x];
  }

  /** Scanning what a pass wrote finds the same links with the fixed URLs and the same text between
      them, and a second pass changes nothing. */
  lemma {:induction false} Rescan(text: Text, wantBang: bool, keep: Text -> bool, i: nat, t: Text, j: nat)
    requires i <= |text| && j <= |t| && t[j..] == Pass(text, wantBang, i, keep) && SameBang(text, t, j - i, i)
    ensures GapsFrom(t, wantBang, j) == GapsFrom(text, wantBang, i)
    ensures UrlsFrom(t, wantBang, j) == FixedAll(keep, UrlsFrom(text, wantBang, i))
    ensures Pass(t, wantBang, j, keep) == t[j..]
    decreases |text| - i
  {
    hide First, Pass, Fixed, Stop, GapsFrom, UrlsFrom, Agree, UrlAt;
    PassStep(text, wantBang, i, keep);
    FromStep(text, wantBang, i);
    PassStep(t, wantBang, j, keep);
    FromStep(t, wantBang, j);
    if First(text, wantBang, i).None? {
      NoneMoves(text, t, wantBang, i, j);
    } else {
      var f := First(text, wantBang, i).value;
      Landing(text, wantBang, keep, i, t, j);
      var fixed := Fixed(keep, text[f.start..f.end]);
      var u2 := f.start + (j - i) + |fixed|;
      assert u2 <= |t| by { assert t[f.start + (j - i)..u2] == fixed; }
      FirstMoves(text, t, wantBang, j - i, i, u2);
      FixedTwice(keep, text[f.start..f.end]);
      Rescan(text, wantBang, keep, f.end, t, u2);
      Slices(t, j, f.start + (j - i), u2, |t|);
      assert t[u2..] == t[u2..|t|] && t[j..] == t[j..|t|];
    }
  }

  /** The main result on a whole text, and what the two parts say of it. */
  lemma PassIsFaithful(text: Text, wantBang: bool, keep: Text -> bool)
    ensures var out := Pass(text, wantBang, 0, keep);
            && GapsFrom(out, wantBang, 0) == GapsFrom(text, wantBang, 0)
            && UrlsFrom(out, wantBang, 0) == FixedAll(keep, UrlsFrom(text, wantBang, 0))
            && Pass(out, wantBang, 0, keep) == out
  {
    hide Pass, GapsFrom, UrlsFrom;
    var out := Pass(text, wantBang, 0, keep);
    assert out[0..] == out;
    Rescan(text, wantBang, keep, 0, out, 0);
  }

  /** Gaps and URLs in turn. */
  function Weave(gaps: seq<Text>, urls: seq<Text>): Text
    requires |gaps| == |urls| + 1
  {
    if urls == [] then gaps[0] else gaps[0] + urls[0] + Weave(gaps[1..], urls[1..])
  }

  /** The gaps and URLs are all of the text. */
  lemma {:induction false} WeaveIsText(text: Text, wantBang: bool, i: nat)
    requires i <= |text|
    ensures |GapsFrom(text, wantBang, i)| == |UrlsFrom(text, wantBang, i)| + 1
    ensures Weave(GapsFrom(text, wantBang, i), UrlsFrom(text, wantBang, i)) == text[i..]
    decreases |text| - i
  {
    hide First, GapsFrom, UrlsFrom;
    FromStep(text, wantBang, i);
    if First(text, wantBang, i).Some? {
      var f := First(text, wantBang, i).value;
      WeaveIsText(text, wantBang, f.end);
      Slices(text, i, f.start, f.end, |text|);
      assert text[i..] == text[i..|text|] && text[f.end..] == text[f.end..|text|];
    }
  }

  /** A refused URL gives way to this text, a kept one stays. */
  lemma NeutralExactly(keep: Text -> bool, url: Text)
    ensures keep(url) ==> Fixed(keep, url) == url
    ensures !keep(url) ==>
              |Fixed(keep, url)| == 19 && forall i :: 0 <= i < 19 ==> Fixed(keep, url)[i] == "about:blank#blocked"[i] as int
  {
  }

  /** Every URL of the result is one the verdict keeps, or the neutral one. */
  lemma {:induction false} FixedAllSafe(keep: Text -> bool, urls: seq<Text>)
    ensures |FixedAll(keep, urls)| == |urls|
    ensures forall n :: 0 <= n < |urls| ==>
              FixedAll(keep, urls)[n] == if keep(urls[n]) then urls[n] else NEUTRALIZED_URL
  {
    if urls != [] { FixedAllSafe(keep, urls[1..]); }
  }

  lemma {:induction false} UrlsAreSpans(text: Text, spans: seq<Span>, last: nat, n: nat)
    requires Ordered(text, spans, last) && n < |spans|
    ensures n < |Urls(text, spans, last)| && spans[n].start <= spans[n].end <= |text|
    ensures Urls(text, spans, last)[n] == text[spans[n].start..spans[n].end]
    decreases n
  {
    if n > 0 { UrlsAreSpans(text, spans[1..], spans[0].end, n - 1); }
  }

  /** So no link of the result, found by the definition of a link and not by the scanner, has a refused
      URL, unless its bracket lies inside the URL of another link. */
  lemma NoRefusedLink(text: Text, wantBang: bool, keep: Text -> bool, open: nat, close: nat, k: nat, u: nat)
    requires IsLink(Pass(text, wantBang, 0, keep), wantBang, open, close, k, u)
    ensures var out := Pass(text, wantBang, 0, keep);
            keep(out[k..u]) || out[k..u] == NEUTRALIZED_URL || Inside(Spans(out, wantBang, 0), open)
  {
    hide Spans, Pass, IsLink, Urls, FixedAll, Inside;
    var out := Pass(text, wantBang, 0, keep);
    var spans := Spans(out, wantBang, 0);
    assert k <= u <= |out| by { LinkInText(out, wantBang, open, close, k, u); }
    SpansComplete(out, wantBang, 0, open, close, k, u);
    if Span(k, u) in spans {
      var n :| 0 <= n < |spans| && spans[n] == Span(k, u);
      SpansOrdered(out, wantBang, 0);
      UrlsAreSpans(out, spans, 0, n);
      PassIsFaithful(text, wantBang, keep);
      FixedAllSafe(keep, UrlsFrom(text, wantBang, 0));
    }
  }

  lemma LinkInText(text: Text, wantBang: bool, open: nat, close: nat, k: nat, u: nat)
    requires IsLink(text, wantBang, open, close, k, u)
    ensures k <= u <= |text|
  {
  }
}
