/**
 What the URL gate of lib/ai-output.js promises after a pass: that no link is left whose URL the verdict
 refuses. Links are those of `IsLink`, found by their own definition and not by the scanner.
 */
module AiSafety {
  import opened Results
  import opened AiScan
  import opened AiRewrite

  ghost predicate UrlShape(v: Text) {
    v != [] && forall x :: 0 <= x < |v| ==> !Stop(v[x])
  }

  ghost predicate Bad(keep: Text -> bool, url: Text) {
    !keep(url) && url != NEUTRALIZED_URL
  }

  ghost predicate SafeLink(out: Text, wantBang: bool, keep: Text -> bool, open: nat, close: nat, k: nat, u: nat) {
    IsLink(out, wantBang, open, close, k, u) ==> !Bad(keep, out[k..u])
  }

  /** No link of the text has a refused URL. */
  ghost predicate Safe(out: Text, wantBang: bool, keep: Text -> bool) {
    forall open: nat, close: nat, k: nat, u: nat :: SafeLink(out, wantBang, keep, open, close, k, u)
  }

  // ---------------------------------------------------------------- URLs that hide a link

  ghost predicate OpensAt(v: Text, wantBang: bool, p: nat) {
    p < |v| && v[p] == OPEN && HasBang(v, p) == wantBang
  }

  ghost predicate NeverCloses(v: Text, p: nat) {
    (forall x :: p < x < |v| ==> v[x] != CLOSE) && |v| - p <= MD_ALT_MAX
  }

  ghost predicate ClosesAt(v: Text, p: nat, q: nat) {
    && p < q && q + 1 < |v| && v[q] == CLOSE && v[q + 1] == LPAREN
    && (forall x :: p < x < q ==> v[x] != CLOSE) && q - (p + 1) <= MD_ALT_MAX
  }

  ghost predicate RefusesSome(keep: Text -> bool) {
    exists r: Text :: UrlShape(r) && Bad(keep, r)
  }

  /** An opening bracket at p of the URL v begins a link with a refused URL: one that lies in v, or one
      that text after v can complete. */
  ghost predicate HidesAt(keep: Text -> bool, wantBang: bool, v: Text, p: nat) {
    && OpensAt(v, wantBang, p)
    && ((NeverCloses(v, p) && RefusesSome(keep))
        || exists q: nat :: ClosesAt(v, p, q) && (if q + 2 == |v| then RefusesSome(keep) else Bad(keep, v[q + 2..])))
  }

  /** A URL that the verdict keeps although it can hide a refused one. */
  ghost predicate Risky(keep: Text -> bool, wantBang: bool, v: Text) {
    UrlShape(v) && keep(v) && exists p: nat :: HidesAt(keep, wantBang, v, p)
  }

  // ---------------------------------------------------------------- a refused link needs a risky URL

  lemma LinkBounds(text: Text, wantBang: bool, open: nat, close: nat, k: nat, u: nat)
    requires IsLink(text, wantBang, open, close, k, u)
    ensures open < k < u <= |text| && text[open] == OPEN && UrlShape(text[k..u]) && UrlAt(text, k, u)
    ensures text[k - 1] != BANG
  {
    if k > close + 2 { assert Space(text[k - 1]); }
  }

  /** A link that begins inside the URL at s..e has its URL there too, or after it. */
  lemma InsideHides(out: Text, wantBang: bool, keep: Text -> bool, s: nat, e: nat, open: nat, close: nat, k: nat, u: nat)
    requires UrlAt(out, s, e) && s > 0 && out[s - 1] != BANG && s <= open < e
    requires IsLink(out, wantBang, open, close, k, u) && Bad(keep, out[k..u])
    ensures HidesAt(keep, wantBang, out[s..e], open - s)
  {
    var v, p := out[s..e], open - s;
    assert OpensAt(v, wantBang, p);
    LinkBounds(out, wantBang, open, close, k, u);
    if close < e {
      assert !Stop(LPAREN);
      assert close + 1 < e;
      var q := close - s;
      assert v[q] == CLOSE && v[q + 1] == LPAREN;
      assert ClosesAt(v, p, q) by {
        forall x | p < x < q ensures v[x] != CLOSE { assert v[x] == out[s + x]; }
      }
      if close + 2 < e {
        RestOfUrl(out, s, e, close + 2, k, u);
        assert v[q + 2..] == out[close + 2..e];
      }
    } else {
      assert close != e;
      forall x | p < x < |v| ensures v[x] != CLOSE { assert v[x] == out[s + x]; }
      assert NeverCloses(v, p);
    }
  }

  /** A URL that starts after a gap from inside another URL is the rest of that URL. */
  lemma RestOfUrl(out: Text, s: nat, e: nat, from: nat, k: nat, u: nat)
    requires UrlAt(out, s, e) && UrlAt(out, k, u) && s <= from < e && from <= k
    requires forall x :: from <= x < k ==> Space(out[x])
    ensures k == from && u == e
  {
    assert !Stop(out[from]);
    if u < e { assert false; }
  }

  /** If no kept URL is risky, a pass leaves no refused link, whatever the text. */
  lemma PassIsSafe(text: Text, wantBang: bool, keep: Text -> bool)
    requires forall v: Text :: !Risky(keep, wantBang, v)
    ensures Safe(Pass(text, wantBang, 0, keep), wantBang, keep)
  {
    hide Pass, IsLink, Risky, HidesAt;
    var out := Pass(text, wantBang, 0, keep);
    forall open: nat, close: nat, k: nat, u: nat ensures SafeLink(out, wantBang, keep, open, close, k, u) {
      if IsLink(out, wantBang, open, close, k, u) {
        LinkBounds(out, wantBang, open, close, k, u);
        if Bad(keep, out[k..u]) {
          var v := RefusedIsRisky(text, wantBang, keep, open, close, k, u);
          assert false;
        }
      }
    }
  }

  lemma RefusedIsRisky(text: Text, wantBang: bool, keep: Text -> bool, open: nat, close: nat, k: nat, u: nat) returns (v: Text)
    requires IsLink(Pass(text, wantBang, 0, keep), wantBang, open, close, k, u)
    requires var out := Pass(text, wantBang, 0, keep); k <= u <= |out| && Bad(keep, out[k..u])
    ensures Risky(keep, wantBang, v)
  {
    hide Pass, IsLink, Spans, HidesAt, Urls, FixedAll;
    var out := Pass(text, wantBang, 0, keep);
    var spans := Spans(out, wantBang, 0);
    NoRefusedLink(text, wantBang, keep, open, close, k, u);
    assert Inside(spans, open);
    var j :| 0 <= j < |spans| && spans[j].start <= open < spans[j].end;
    var s, e := spans[j].start, spans[j].end;
    SpansSound(out, wantBang, 0, j);
    var o: nat, c: nat :| IsLink(out, wantBang, o, c, s, e);
    LinkBounds(out, wantBang, o, c, s, e);
    v := out[s..e];
    InsideHides(out, wantBang, keep, s, e, open, close, k, u);
    SpanIsFixed(text, wantBang, keep, j);
    NeutralHasNoBracket();
    LinkBounds(out, wantBang, open, close, k, u);
    assert v[open - s] == OPEN;
  }

  lemma SpanIsFixed(text: Text, wantBang: bool, keep: Text -> bool, j: nat)
    requires j < |Spans(Pass(text, wantBang, 0, keep), wantBang, 0)|
    ensures var out := Pass(text, wantBang, 0, keep);
            var s := Spans(out, wantBang, 0)[j];
            s.start <= s.end <= |out| && !Bad(keep, out[s.start..s.end])
  {
    hide Pass, Spans, Urls, FixedAll;
    var out := Pass(text, wantBang, 0, keep);
    SpansOrdered(out, wantBang, 0);
    UrlsAreSpans(out, Spans(out, wantBang, 0), 0, j);
    PassIsFaithful(text, wantBang, keep);
    FixedAllSafe(keep, UrlsFrom(text, wantBang, 0));
  }

  lemma NeutralHasNoBracket()
    ensures forall x :: 0 <= x < |NEUTRALIZED_URL| ==> NEUTRALIZED_URL[x] != OPEN
    ensures UrlShape(NEUTRALIZED_URL)
  {
  }

  // ---------------------------------------------------------------- a risky URL leaves a refused link

  ghost predicate ShortestBad(keep: Text -> bool, m: Text) {
    && UrlShape(m) && Bad(keep, m)
    && forall s: Text :: UrlShape(s) && |s| < |m| ==> !Bad(keep, s)
  }

  /** A shortest refused URL. */
  lemma Shortest(keep: Text -> bool, r: Text) returns (m: Text)
    requires UrlShape(r) && Bad(keep, r)
    ensures ShortestBad(keep, m)
    decreases |r|
  {
    if s: Text :| UrlShape(s) && |s| < |r| && Bad(keep, s) {
      m := Shortest(keep, s);
    } else {
      m := r;
    }
  }

  /** A pass that meets only URLs it does not change returns the rest of the text. */
  lemma {:induction false} PassUnchanged(text: Text, wantBang: bool, keep: Text -> bool, i: nat)
    requires i <= |text|
    requires forall open: nat, close: nat, k: nat, u: nat :: i <= open ==> SafeLink(text, wantBang, keep, open, close, k, u)
    ensures Pass(text, wantBang, i, keep) == text[i..]
    decreases |text| - i
  {
    hide Pass, IsLink, First;
    PassStep(text, wantBang, i, keep);
    if First(text, wantBang, i).Some? {
      var f := First(text, wantBang, i).value;
      var open, close := FirstIsLink(text, wantBang, i);
      assert SafeLink(text, wantBang, keep, open, close, f.start, f.end);
      PassUnchanged(text, wantBang, keep, f.end);
      Slices(text, i, f.start, f.end, |text|);
      assert text[i..] == text[i..|text|] && text[f.end..] == text[f.end..|text|];
    }
  }

  function Head(wantBang: bool): Text {
    (if wantBang then [BANG] else []) + [OPEN, CLOSE, LPAREN]
  }

  /** A link with URL v and an empty text, and something after it. */
  function Around(wantBang: bool, v: Text, tail: Text): Text {
    Head(wantBang) + v + tail
  }

  /** Such a text is left alone if v is kept and the links after v are safe. */
  lemma AroundUnchanged(wantBang: bool, keep: Text -> bool, v: Text, tail: Text)
    requires UrlShape(v) && keep(v) && (tail != [] ==> Stop(tail[0]))
    requires var t := Around(wantBang, v, tail);
             forall open: nat, close: nat, k: nat, u: nat ::
               |Head(wantBang) + v| <= open ==> SafeLink(t, wantBang, keep, open, close, k, u)
    ensures Pass(Around(wantBang, v, tail), wantBang, 0, keep) == Around(wantBang, v, tail)
  {
    hide *;
    var t, b := Around(wantBang, v, tail), |Head(wantBang)|;
    var e := b + |v|;
    AroundParts(wantBang, v, tail);
    AroundFirst(wantBang, v, tail);
    PassStep(t, wantBang, 0, keep);
    assert Fixed(keep, v) == v by { FixedKept(keep, v); }
    PassUnchanged(t, wantBang, keep, e);
    Slices(t, 0, b, e, |t|);
    assert t[0..|t|] == t && t[e..|t|] == t[e..];
  }

  lemma FixedKept(keep: Text -> bool, v: Text)
    requires keep(v)
    ensures Fixed(keep, v) == v
  {
  }

  lemma AroundParts(wantBang: bool, v: Text, tail: Text)
    ensures var t, b := Around(wantBang, v, tail), |Head(wantBang)|;
            && b >= 3 && |Head(wantBang) + v| == b + |v| && |t| == b + |v| + |tail|
            && t[b - 3] == OPEN && t[b - 2] == CLOSE && t[b - 1] == LPAREN && HasBang(t, b - 3) == wantBang
            && (forall x :: 0 <= x < b - 3 ==> t[x] != OPEN)
            && t[0..b] == Head(wantBang) && t[b..b + |v|] == v && t[b + |v|..] == tail
  {
    var t, b := Around(wantBang, v, tail), |Head(wantBang)|;
    assert t == Head(wantBang) + (v + tail);
    assert t[..b] == Head(wantBang);
    assert t[b - 3] == Head(wantBang)[b - 3] && t[b - 2] == Head(wantBang)[b - 2] && t[b - 1] == Head(wantBang)[b - 1];
  }

  /** The scanner's first URL in such a text is v. */
  lemma AroundFirst(wantBang: bool, v: Text, tail: Text)
    requires UrlShape(v) && (tail != [] ==> Stop(tail[0]))
    ensures var b := |Head(wantBang)|; First(Around(wantBang, v, tail), wantBang, 0) == Some(Span(b, b + |v|))
  {
    AroundParts(wantBang, v, tail);
    hide Around, Head, Stop, HasBang, First, IndexOf;
    var t, b := Around(wantBang, v, tail), |Head(wantBang)|;
    var e := b + |v|;
    forall x | b <= x < e ensures !Stop(t[x]) { assert t[b..e][x - b] == v[x - b]; }
    if e < |t| { assert t[e] == t[e..][0]; }
    assert IsLink(t, wantBang, b - 3, b - 2, b, e);
    IsLinkFound(t, wantBang, b - 3, b - 2, b, e);
    IndexOfIs(t, OPEN, 0, b - 3);
    FirstHit(t, wantBang, b - 3);
  }

  lemma FirstHit(t: Text, wantBang: bool, open: nat)
    requires open < |t| && IndexOf(t, OPEN, 0) == open && LinkAt(t, wantBang, open).Some?
    ensures First(t, wantBang, 0) == LinkAt(t, wantBang, open)
  {
  }

  /** p reads at position `at` of t. */
  ghost predicate Placed(t: Text, at: nat, p: Text) {
    at + |p| <= |t| && forall x :: at <= x < at + |p| ==> t[x] == p[x - at]
  }

  /** What lies where in such a text. */
  lemma Layout(wantBang: bool, v: Text, glue: Text, r: Text)
    ensures var t, b := Around(wantBang, v, glue + r), |Head(wantBang)|;
            && |t| == b + |v| + |glue| + |r| && b >= 3 && t[b - 1] == LPAREN && |Head(wantBang) + v| == b + |v|
            && Placed(t, b, v) && Placed(t, b + |v|, glue) && Placed(t, b + |v| + |glue|, r)
            && t[b + |v| + |glue|..|t|] == r
  {
    var t, h := Around(wantBang, v, glue + r), Head(wantBang) + v;
    assert forall x :: 0 <= x < |h| ==> t[x] == h[x];
    assert forall x :: |h| <= x < |t| ==> t[x] == (glue + r)[x - |h|];
  }

  lemma PlacedBang(t: Text, at: nat, v: Text, p: nat)
    requires Placed(t, at, v) && at > 0 && t[at - 1] == LPAREN && p < |v|
    ensures HasBang(t, at + p) == HasBang(v, p) && t[at + p] == v[p]
  {
    if p > 0 { assert t[at + p - 1] == v[p - 1]; }
  }

  /** After v comes text without brackets and a shortest refused URL: every link there is safe. */
  lemma TailIsSafe(wantBang: bool, keep: Text -> bool, v: Text, glue: Text, r: Text, open: nat, close: nat, k: nat, u: nat)
    requires ShortestBad(keep, r)
    requires forall x :: 0 <= x < |glue| ==> glue[x] != OPEN
    requires |Head(wantBang) + v| <= open
    ensures SafeLink(Around(wantBang, v, glue + r), wantBang, keep, open, close, k, u)
  {
    Layout(wantBang, v, glue, r);
    hide Around, Head, IsLink, Bad, Stop;
    var t, e := Around(wantBang, v, glue + r), |Head(wantBang) + v|;
    if IsLink(t, wantBang, open, close, k, u) {
      LinkBounds(t, wantBang, open, close, k, u);
      var g := e + |glue|;
      assert open >= g;
      assert u == |t|;
      assert |t[k..u]| < |r|;
    }
  }

  lemma RiskyLeavesRefused(keep: Text -> bool, wantBang: bool, v: Text) returns (text: Text)
    requires Risky(keep, wantBang, v)
    ensures !Safe(Pass(text, wantBang, 0, keep), wantBang, keep)
  {
    hide Pass, Safe;
    var p: nat :| HidesAt(keep, wantBang, v, p);
    if NeverCloses(v, p) && RefusesSome(keep) {
      var any: Text :| UrlShape(any) && Bad(keep, any);
      var r := Shortest(keep, any);
      text := ClosedLater(keep, wantBang, v, p, r);
    } else {
      var q: nat :| ClosesAt(v, p, q) && (if q + 2 == |v| then RefusesSome(keep) else Bad(keep, v[q + 2..]));
      if q + 2 == |v| {
        var any: Text :| UrlShape(any) && Bad(keep, any);
        var r := Shortest(keep, any);
        text := FilledLater(keep, wantBang, v, p, q, r);
      } else {
        text := HiddenWhole(keep, wantBang, v, p, q);
      }
    }
  }

  lemma NotSafe(out: Text, wantBang: bool, keep: Text -> bool, open: nat, close: nat, k: nat, u: nat)
    requires IsLink(out, wantBang, open, close, k, u) && k <= u <= |out| && Bad(keep, out[k..u])
    ensures !Safe(out, wantBang, keep)
  {
    assert !SafeLink(out, wantBang, keep, open, close, k, u);
  }

  /** Some kept URL, glue without brackets and a shortest refused URL: the pass changes nothing. */
  lemma GluedUnchanged(wantBang: bool, keep: Text -> bool, v: Text, glue: Text, r: Text)
    requires UrlShape(v) && keep(v) && glue != [] && Stop(glue[0]) && forall x :: 0 <= x < |glue| ==> glue[x] != OPEN
    requires ShortestBad(keep, r)
    ensures Pass(Around(wantBang, v, glue + r), wantBang, 0, keep) == Around(wantBang, v, glue + r)
  {
    hide Pass, SafeLink, Around, ShortestBad, Stop;
    var text := Around(wantBang, v, glue + r);
    forall open: nat, close: nat, k: nat, u: nat | |Head(wantBang) + v| <= open
      ensures SafeLink(text, wantBang, keep, open, close, k, u)
    {
      TailIsSafe(wantBang, keep, v, glue, r, open, close, k, u);
    }
    AroundUnchanged(wantBang, keep, v, glue + r);
  }

  /** A bracket of v closed by the text after v begins a link with URL r. */
  lemma ClosedLaterLink(t: Text, wantBang: bool, b: nat, v: Text, p: nat, glue: Text, r: Text)
    requires b > 0 && Placed(t, b, v) && Placed(t, b + |v|, glue) && Placed(t, b + |v| + 3, r)
    requires t[b - 1] == LPAREN && |t| == b + |v| + 3 + |r| && glue == [RPAREN, CLOSE, LPAREN]
    requires OpensAt(v, wantBang, p) && NeverCloses(v, p) && UrlShape(r)
    ensures IsLink(t, wantBang, b + p, b + |v| + 1, b + |v| + 3, |t|)
  {
    hide Stop, Space;
    var e := b + |v|;
    PlacedBang(t, b, v, p);
    assert t[e] == glue[0] && t[e + 1] == glue[1] && t[e + 2] == glue[2];
    forall x | b + p < x < e + 1 ensures t[x] != CLOSE { if x < e { assert t[x] == v[x - b]; } }
    forall x | e + 3 <= x < |t| ensures !Stop(t[x]) { assert t[x] == r[x - e - 3]; }
  }

  lemma ClosedLaterAt(keep: Text -> bool, wantBang: bool, v: Text, p: nat, glue: Text, r: Text)
    requires glue == [RPAREN, CLOSE, LPAREN] && OpensAt(v, wantBang, p) && NeverCloses(v, p) && UrlShape(r) && Bad(keep, r)
    requires var text := Around(wantBang, v, glue + r); Pass(text, wantBang, 0, keep) == text
    ensures !Safe(Pass(Around(wantBang, v, glue + r), wantBang, 0, keep), wantBang, keep)
  {
    hide *;
    Layout(wantBang, v, glue, r);
    var text, b := Around(wantBang, v, glue + r), |Head(wantBang)|;
    assert |glue| == 3;
    ClosedLaterLink(text, wantBang, b, v, p, glue, r);
    NotSafe(text, wantBang, keep, b + p, b + |v| + 1, b + |v| + 3, |text|);
  }

  lemma ClosedLater(keep: Text -> bool, wantBang: bool, v: Text, p: nat, r: Text) returns (text: Text)
    requires UrlShape(v) && keep(v) && OpensAt(v, wantBang, p) && NeverCloses(v, p)
    requires ShortestBad(keep, r)
    ensures !Safe(Pass(text, wantBang, 0, keep), wantBang, keep)
  {
    hide Pass, Around, Safe;
    var glue: Text := [RPAREN, CLOSE, LPAREN];
    text := Around(wantBang, v, glue + r);
    GluedUnchanged(wantBang, keep, v, glue, r);
    ClosedLaterAt(keep, wantBang, v, p, glue, r);
  }

  /** A bracket closed at the end of v begins a link whose URL is the text after v. */
  lemma FilledLaterLink(t: Text, wantBang: bool, b: nat, v: Text, p: nat, q: nat, glue: Text, r: Text)
    requires b > 0 && Placed(t, b, v) && Placed(t, b + |v|, glue) && Placed(t, b + |v| + 1, r)
    requires t[b - 1] == LPAREN && |t| == b + |v| + 1 + |r| && glue == [0x20]
    requires OpensAt(v, wantBang, p) && ClosesAt(v, p, q) && q + 2 == |v| && UrlShape(r)
    ensures IsLink(t, wantBang, b + p, b + q, b + |v| + 1, |t|)
  {
    hide Stop;
    var e := b + |v|;
    PlacedBang(t, b, v, p);
    assert t[b + q] == v[q] && t[b + q + 1] == v[q + 1] && t[e] == glue[0];
    forall x | b + p < x < b + q ensures t[x] != CLOSE { assert t[x] == v[x - b]; }
    forall x | e + 1 <= x < |t| ensures !Stop(t[x]) { assert t[x] == r[x - e - 1]; }
  }

  lemma FilledLaterAt(keep: Text -> bool, wantBang: bool, v: Text, p: nat, q: nat, glue: Text, r: Text)
    requires glue == [0x20] && OpensAt(v, wantBang, p) && ClosesAt(v, p, q) && q + 2 == |v| && UrlShape(r) && Bad(keep, r)
    requires var text := Around(wantBang, v, glue + r); Pass(text, wantBang, 0, keep) == text
    ensures !Safe(Pass(Around(wantBang, v, glue + r), wantBang, 0, keep), wantBang, keep)
  {
    hide *;
    Layout(wantBang, v, glue, r);
    var text, b := Around(wantBang, v, glue + r), |Head(wantBang)|;
    assert |glue| == 1;
    FilledLaterLink(text, wantBang, b, v, p, q, glue, r);
    NotSafe(text, wantBang, keep, b + p, b + q, b + |v| + 1, |text|);
  }

  lemma FilledLater(keep: Text -> bool, wantBang: bool, v: Text, p: nat, q: nat, r: Text) returns (text: Text)
    requires UrlShape(v) && keep(v) && OpensAt(v, wantBang, p) && ClosesAt(v, p, q) && q + 2 == |v|
    requires ShortestBad(keep, r)
    ensures !Safe(Pass(text, wantBang, 0, keep), wantBang, keep)
  {
    hide Pass, Around, Safe;
    var glue: Text := [0x20];
    text := Around(wantBang, v, glue + r);
    GluedUnchanged(wantBang, keep, v, glue, r);
    FilledLaterAt(keep, wantBang, v, p, q, glue, r);
  }

  /** The whole link lies in v. */
  lemma HiddenWhole(keep: Text -> bool, wantBang: bool, v: Text, p: nat, q: nat) returns (text: Text)
    requires UrlShape(v) && keep(v) && OpensAt(v, wantBang, p) && ClosesAt(v, p, q) && q + 2 < |v| && Bad(keep, v[q + 2..])
    ensures text == Around(wantBang, v, []) && Pass(text, wantBang, 0, keep) == text
    ensures !Safe(Pass(text, wantBang, 0, keep), wantBang, keep)
  {
    hide Pass;
    text := Around(wantBang, v, []);
    var b := |Head(wantBang)|;
    var e := b + |v|;
    forall open: nat, close: nat, k: nat, u: nat | |Head(wantBang) + v| <= open
      ensures SafeLink(text, wantBang, keep, open, close, k, u)
    {
    }
    AroundUnchanged(wantBang, keep, v, []);
    var none: Text := [];
    assert none + none == none;
    Layout(wantBang, v, none, none);
    hide Around, Head, Bad;
    PlacedBang(text, b, v, p);
    assert text[b + q] == v[q] && text[b + q + 1] == v[q + 1];
    assert text[b + q + 2..e] == v[q + 2..];
    forall x | b + p < x < b + q ensures text[x] != CLOSE { assert text[x] == v[x - b]; }
    forall x | b + q + 2 <= x < e ensures !Stop(text[x]) { assert text[x] == v[x - b]; }
    NotSafe(text, wantBang, keep, b + p, b + q, b + q + 2, e);
  }

  /** The gate keeps its promise on every text exactly when the verdict keeps no URL that can hide a
      refused one. */
  lemma SafeExactly(keep: Text -> bool, wantBang: bool)
    ensures (forall text: Text :: Safe(Pass(text, wantBang, 0, keep), wantBang, keep))
            <==> forall v: Text :: !Risky(keep, wantBang, v)
  {
    hide Pass, Safe, Risky;
    if forall v: Text :: !Risky(keep, wantBang, v) {
      forall text: Text ensures Safe(Pass(text, wantBang, 0, keep), wantBang, keep) {
        PassIsSafe(text, wantBang, keep);
      }
    } else {
      var v: Text :| Risky(keep, wantBang, v);
      var text := RiskyLeavesRefused(keep, wantBang, v);
    }
  }

  /** No URL of the text that the scanner finds and the verdict keeps has an opening bracket. */
  ghost predicate KeptBracketFree(text: Text, wantBang: bool, keep: Text -> bool) {
    var urls := UrlsFrom(text, wantBang, 0);
    forall n :: 0 <= n < |urls| && keep(urls[n]) ==> OPEN !in urls[n]
  }

  /** Then neither has any URL that the scanner finds after the pass. */
  lemma FoundBracketFree(text: Text, wantBang: bool, keep: Text -> bool, j: nat)
    requires KeptBracketFree(text, wantBang, keep)
    requires j < |Spans(Pass(text, wantBang, 0, keep), wantBang, 0)|
    ensures var out := Pass(text, wantBang, 0, keep);
            var s := Spans(out, wantBang, 0)[j];
            s.start <= s.end <= |out| && OPEN !in out[s.start..s.end]
  {
    hide Pass, Spans, Urls, FixedAll;
    var out := Pass(text, wantBang, 0, keep);
    SpansOrdered(out, wantBang, 0);
    UrlsAreSpans(out, Spans(out, wantBang, 0), 0, j);
    PassIsFaithful(text, wantBang, keep);
    FixedAllSafe(keep, UrlsFrom(text, wantBang, 0));
    NeutralHasNoBracket();
  }

  /** And neither has any link, found by its own definition. */
  lemma LinksBracketFree(text: Text, wantBang: bool, keep: Text -> bool, open: nat, close: nat, k: nat, u: nat)
    requires KeptBracketFree(text, wantBang, keep) && IsLink(Pass(text, wantBang, 0, keep), wantBang, open, close, k, u)
    ensures var out := Pass(text, wantBang, 0, keep);
            k <= u <= |out| && OPEN !in out[k..u] && Span(k, u) in Spans(out, wantBang, 0)
  {
    hide Pass, Spans, IsLink, KeptBracketFree;
    var out := Pass(text, wantBang, 0, keep);
    var spans := Spans(out, wantBang, 0);
    LinkBounds(out, wantBang, open, close, k, u);
    SpansComplete(out, wantBang, 0, open, close, k, u);
    forall j, x | 0 <= j < |spans| && spans[j].start <= x < spans[j].end ensures x < |out| && out[x] != OPEN {
      FoundBracketFree(text, wantBang, keep, j);
      assert out[spans[j].start..spans[j].end][x - spans[j].start] == out[x];
    }
    assert !Inside(spans, open);
    var j :| 0 <= j < |spans| && spans[j] == Span(k, u);
    FoundBracketFree(text, wantBang, keep, j);
  }

  /** A condition on the text instead: if no URL it keeps has an opening bracket, a pass leaves no refused
      link, whatever else the verdict would keep. */
  lemma TextIsSafe(text: Text, wantBang: bool, keep: Text -> bool)
    requires KeptBracketFree(text, wantBang, keep)
    ensures Safe(Pass(text, wantBang, 0, keep), wantBang, keep)
  {
    hide Pass, Spans, IsLink, KeptBracketFree;
    var out := Pass(text, wantBang, 0, keep);
    var spans := Spans(out, wantBang, 0);
    forall open: nat, close: nat, k: nat, u: nat ensures SafeLink(out, wantBang, keep, open, close, k, u) {
      if IsLink(out, wantBang, open, close, k, u) {
        LinksBracketFree(text, wantBang, keep, open, close, k, u);
        var j :| 0 <= j < |spans| && spans[j] == Span(k, u);
        SpanIsFixed(text, wantBang, keep, j);
      }
    }
  }

  /** A link with URL r inside the URL p[b](r. */
  function Nested(p: Text, r: Text): Text {
    p + [OPEN, 98, CLOSE, LPAREN] + r
  }

  /** Inputs: if the verdict keeps `p[b](r` and refuses `r`, as it may `https://ok/[b](javascript:x` and
      `javascript:x`, then `[](p[b](r` is returned unchanged, with the link `[b](r` in it. */
  lemma RefusedLinkSurvives(keep: Text -> bool, p: Text, r: Text)
    requires UrlShape(Nested(p, r)) && keep(Nested(p, r)) && r != [] && Bad(keep, r)
    requires p != [] ==> p[|p| - 1] != BANG
    ensures var text := Around(false, Nested(p, r), []);
            Pass(text, false, 0, keep) == text && !Safe(text, false, keep)
  {
    hide Pass, Around, Bad, Safe;
    var v := Nested(p, r);
    NestedParts(p, r);
    var text := HiddenWhole(keep, false, v, |p|, |p| + 2);
  }

  lemma NestedParts(p: Text, r: Text)
    requires p != [] ==> p[|p| - 1] != BANG
    ensures var v := Nested(p, r);
            && |v| == |p| + 4 + |r| && v[|p| + 4..] == r && v[..|p|] == p
            && OpensAt(v, false, |p|) && ClosesAt(v, |p|, |p| + 2)
  {
    var v := Nested(p, r);
    assert v[..|p|] == p;
    assert v[|p|] == OPEN && v[|p| + 1] == 98 && v[|p| + 2] == CLOSE && v[|p| + 3] == LPAREN;
    if p != [] { assert v[|p| - 1] == p[|p| - 1]; }
  }
}
