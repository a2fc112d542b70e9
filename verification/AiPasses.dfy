/** The image pass and the link pass of lib/ai-output.js, one after the other. */
module AiPasses {
  import opened Results
  import opened AiScan
  import opened AiRewrite
  import opened AiSafety

  // ---------------------------------------------------------------- windows that read the same

  lemma AgreeBack(a: Text, t: Text, d: int, i: nat, k: nat)
    requires Agree(a, t, d, i, k) && i + d >= 0 && k + d >= 0
    ensures Agree(t, a, -d, i + d, k + d)
  {
    var n := -d;
    forall x | i + d <= x < k + d ensures SameUnit(t, a, n, x) {
      assert SameUnit(a, t, d, x - d);
    }
  }

  lemma SameBangBack(a: Text, t: Text, d: int, i: nat)
    requires SameBang(a, t, d, i) && SameUnit(a, t, d, i)
    ensures SameBang(t, a, -d, i + d)
  {
  }

  lemma SameContent(t: Text, a: Text, d: int, i: nat, k: nat, u: nat)
    requires Agree(t, a, d, i, u) && i <= k <= u <= |t| && 0 <= k + d && u + d <= |a|
    ensures t[k..u] == a[k + d..u + d]
  {
    forall x | 0 <= x < u - k ensures t[k..u][x] == a[k + d..u + d][x] {
      assert SameUnit(t, a, d, k + x);
    }
  }

  /** Links that share their closing bracket share their URL. */
  lemma SameCloseSameUrl(t: Text, w: bool, o: nat, w2: bool, o2: nat, c: nat, k: nat, u: nat, k2: nat, u2: nat)
    requires IsLink(t, w, o, c, k, u) && IsLink(t, w2, o2, c, k2, u2)
    ensures k == k2 && u == u2
  {
    assert !Stop(t[k]) && !Stop(t[k2]);
    assert k == k2;
    if u < u2 { assert false; }
    if u2 < u { assert false; }
  }

  /** A link of t inside a window that reads the same in a is a link of a. */
  lemma WindowLink(t: Text, a: Text, w: bool, d: int, j: nat, end: nat, o: nat, c: nat, k: nat, u: nat)
    requires IsLink(t, w, o, c, k, u) && j <= o && k < end
    requires Agree(t, a, d, j, end) && SameBang(t, a, d, j) && j + d >= 0 && end <= |t|
    requires u < end || (end == |t| && |a| == end + d)
    ensures o + d >= 0 && c + d >= 0 && k + d >= 0 && u + d >= 0
    ensures IsLink(a, w, o + d, c + d, k + d, u + d) && t[k..u] == a[k + d..u + d]
  {
    LinkBounds(t, w, o, c, k, u);
    assert Agree(t, a, d, j, u);
    assert UrlAt(a, k + d, u + d) by {
      forall x | k + d <= x < u + d ensures 0 <= x < |a| && !Stop(a[x]) { assert SameUnit(t, a, d, x - d); }
      if u < end { assert SameUnit(t, a, d, u); }
      assert SameUnit(t, a, d, u - 1);
    }
    assert Agree(t, a, d, j, k);
    LinkMoves(t, a, w, d, j, o, c, k, u, u + d);
    SameContent(t, a, d, j, k, u);
  }

  lemma Window(a: Text, t: Text, d: int, i: nat, s: nat)
    requires i + d >= 0 && i < s && s + d >= 0 && Agree(a, t, d, i, s) && SameBang(a, t, d, i)
    ensures Agree(t, a, -d, i + d, s + d) && SameBang(t, a, -d, i + d)
  {
    AgreeBack(a, t, d, i, s);
    assert SameUnit(a, t, d, i);
    SameBangBack(a, t, d, i);
  }

  /** An image that begins before a link's URL is closed by the link's bracket, or before the link opens. */
  lemma LinkOrder(t: Text, o: nat, c: nat, k: nat, u: nat, open2: nat, close2: nat, k2: nat, u2: nat)
    requires IsLink(t, true, o, c, k, u) && IsLink(t, false, open2, close2, k2, u2) && o < k2
    ensures c == close2 || (c + 2 <= k <= open2 < k2)
  {
    BeforeClose(t, false, open2, close2, k2, u2, o);
    assert !Space(OPEN);
    assert c <= close2;
    if c < close2 {
      assert open2 > c + 1;
      assert k <= open2;
    }
  }

  lemma BeforeClose(t: Text, w: bool, open: nat, close: nat, k: nat, u: nat, o: nat)
    requires IsLink(t, w, open, close, k, u) && o < k && t[o] == OPEN
    ensures o < close
  {
    assert !Space(OPEN);
    if o > close + 1 { assert false; }
  }

  lemma SafeHere(a: Text, keep: Text -> bool, o: nat, c: nat, k: nat, u: nat)
    requires Safe(a, true, keep) && IsLink(a, true, o, c, k, u)
    ensures k <= u <= |a| && !Bad(keep, a[k..u])
  {
    assert SafeLink(a, true, keep, o, c, k, u);
  }

  lemma NotInside(t: Text, s: nat, e: nat, v: Text, o: nat)
    requires s <= e <= |t| && t[s..e] == v && OPEN !in v && o < |t| && t[o] == OPEN
    ensures !(s <= o < e)
  {
    forall x | s <= x < e ensures t[x] != OPEN { assert v[x - s] in v; }
  }

  lemma SameRest(a: Text, i: nat, t: Text, j: nat)
    requires i <= |a| && j <= |t| && t[j..] == a[i..]
    ensures |t| - j == |a| - i && Agree(t, a, i - j, j, |t|)
  {
    assert |t[j..]| == |t| - j && |a[i..]| == |a| - i;
    var d := i - j;
    forall x | j <= x < |t| ensures SameUnit(t, a, d, x) {
      assert t[j..][x - j] == a[i..][x - j];
    }
  }

  lemma AgreeJoin(a: Text, t: Text, d: int, w: nat, i: nat, k: nat)
    requires w <= i <= k && Agree(a, t, d, w, i) && Agree(a, t, d, i, k)
    ensures Agree(a, t, d, w, k)
  {
  }

  /** A piece that is copied extends the window. */
  lemma AgreeCopy(a: Text, t: Text, d: int, i: nat, k: nat)
    requires i <= k <= |a| && 0 <= i + d && k + d <= |t| && t[i + d..k + d] == a[i..k]
    ensures Agree(a, t, d, i, k)
  {
    forall x | i <= x < k ensures SameUnit(a, t, d, x) {
      assert t[i + d..k + d][x - i] == a[i..k][x - i];
    }
  }

  lemma FixedIsGood(keep: Text -> bool, v: Text)
    requires UrlShape(v)
    ensures UrlShape(Fixed(keep, v)) && !Bad(keep, Fixed(keep, v))
  {
    NeutralHasNoBracket();
  }

  // ---------------------------------------------------------------- images after the link pass

  /** A span whose URL the pass replaces. */
  ghost predicate Refused(a: Text, keep: Text -> bool, sp: Span) {
    sp.start <= sp.end <= |a| && Bad(keep, a[sp.start..sp.end])
  }

  /** The bracket at o lies in a link's URL that the pass replaces. */
  ghost predicate Buried(a: Text, keep: Text -> bool, i: nat, o: nat) {
    exists sp :: sp in Spans(a, false, i) && Refused(a, keep, sp) && sp.start <= o < sp.end
  }

  /** The URL of an image ends in a link's URL, which the pass replaces. */
  ghost predicate Rewritten(a: Text, keep: Text -> bool, i: nat, k: nat, u: nat, sp: Span) {
    sp in Spans(a, false, i) && Refused(a, keep, sp) && k <= sp.start && sp.end == u
  }

  lemma SpansFrom(a: Text, i: nat)
    requires First(a, false, i).Some?
    ensures var f := First(a, false, i).value;
            && Spans(a, false, i) == [f] + Spans(a, false, f.end)
            && (forall sp :: sp in Spans(a, false, f.end) ==> f.end < sp.start < sp.end <= |a|)
            && (forall sp :: sp in Spans(a, false, i) ==> f.start <= sp.start < sp.end <= |a|)
  {
    hide First;
    FirstBounds(a, false, i);
    var f := First(a, false, i).value;
    var rest := Spans(a, false, f.end);
    forall sp | sp in rest ensures f.end < sp.start < sp.end <= |a| {
      var j :| 0 <= j < |rest| && rest[j] == sp;
      SpansSound(a, false, f.end, j);
    }
  }

  lemma NoSpansFrom(a: Text, i: nat)
    requires First(a, false, i).None?
    ensures Spans(a, false, i) == []
  {
  }

  lemma RefusedIsReplaced(a: Text, keep: Text -> bool, sp: Span)
    requires sp.start <= sp.end <= |a|
    ensures var v := a[sp.start..sp.end];
            if Refused(a, keep, sp) then Fixed(keep, v) == NEUTRALIZED_URL else Fixed(keep, v) == v
  {
  }

  /** What an image of the result before a link's URL is in the text; S..E is that URL there, and d moves
      positions of the text to those of the result. */
  ghost predicate Before(a: Text, t: Text, d: int, o: nat, c: nat, k: nat, u: nat, S: nat, E: nat, U: nat, u1: nat) {
    && o - d >= 0 && c - d >= 0 && k - d >= 0 && IsLink(a, true, o - d, c - d, k - d, u1)
    && k <= u <= |t| && k - d <= u1 <= |a|
    && ((u1 < S && t[k..u] == a[k - d..u1])
        || (u1 == E && u == U && k - d <= S <= |a| && 0 <= S + d <= U && t[k..u] == a[k - d..S] + t[S + d..U]))
  }

  lemma ImageBefore(a: Text, t: Text, d: int, w: nat, o: nat, c: nat, k: nat, u: nat, open2: nat, close2: nat, S: nat, E: nat, U: nat) returns (u1: nat)
    requires w + d >= 0 && w <= S && S + d >= 0 && Agree(a, t, d, w, S) && SameBang(a, t, d, w)
    requires IsLink(t, true, o, c, k, u) && w + d <= o < S + d
    requires IsLink(a, false, open2, close2, S, E) && w <= open2 && UrlAt(t, S + d, U)
    ensures Before(a, t, d, o, c, k, u, S, E, U, u1)
  {
    hide *;
    BeforeOrAcross(a, t, d, w, o, c, k, u, open2, close2, S, E, U);
    if u < S + d {
      Window(a, t, d, w, S);
      WindowLink(t, a, true, -d, w + d, S + d, o, c, k, u);
      u1 := u - d;
      LinkBounds(a, true, o - d, c - d, k - d, u1);
      BeforePart(a, t, d, o, c, k, u, S, E, U, u1);
    } else {
      u1 := E;
      ImageAcross(a, t, d, w, o, c, k, u, S, E, U);
    }
  }

  /** The image's URL ends before the link's begins, or they end together. */
  lemma BeforeOrAcross(a: Text, t: Text, d: int, w: nat, o: nat, c: nat, k: nat, u: nat, open2: nat, close2: nat, S: nat, E: nat, U: nat)
    requires w + d >= 0 && w <= S && S + d >= 0 && Agree(a, t, d, w, S) && SameBang(a, t, d, w)
    requires IsLink(t, true, o, c, k, u) && w + d <= o < S + d
    requires IsLink(a, false, open2, close2, S, E) && w <= open2 && UrlAt(t, S + d, U)
    ensures w < S <= |a| && S + d <= |t| && UrlAt(a, S, E) && UrlAt(t, k, u) && o < k <= u <= |t| && k < S + d + 1
    ensures u < S + d || (u == U && S + d < u)
  {
    hide *;
    LinkBounds(t, true, o, c, k, u);
    LinkBounds(a, false, open2, close2, S, E);
    UrlInText(t, S + d, U);
    LinkMoves(a, t, false, d, w, open2, close2, S, E, U);
    LinkOrder(t, o, c, k, u, open2 + d, close2 + d, S + d, U);
    if c == close2 + d {
      SameCloseSameUrl(t, true, o, false, open2 + d, c, k, u, S + d, U);
    }
    if u >= S + d { UrlsMeet(t, k, u, S + d, U); }
  }

  lemma BeforePart(a: Text, t: Text, d: int, o: nat, c: nat, k: nat, u: nat, S: nat, E: nat, U: nat, u1: nat)
    requires o - d >= 0 && c - d >= 0 && k - d >= 0 && IsLink(a, true, o - d, c - d, k - d, u1)
    requires k <= u <= |t| && k - d <= u1 <= |a| && u1 < S && t[k..u] == a[k - d..u1]
    ensures Before(a, t, d, o, c, k, u, S, E, U, u1)
  {
  }

  lemma ImageAcross(a: Text, t: Text, d: int, w: nat, o: nat, c: nat, k: nat, u: nat, S: nat, E: nat, U: nat)
    requires w + d >= 0 && w < S <= |a| && S + d >= 0 && Agree(a, t, d, w, S) && SameBang(a, t, d, w)
    requires IsLink(t, true, o, c, k, u) && w + d <= o < k <= S + d < u <= |t| && u == U
    requires UrlAt(a, S, E) && UrlAt(t, k, u)
    ensures Before(a, t, d, o, c, k, u, S, E, U, E)
  {
    hide IsLink, Agree, SameBang, UrlAt, Stop;
    Window(a, t, d, w, S);
    JoinedUrl(t, a, -d, w + d, k, S + d, E);
    AgreeLess(t, a, -d, w + d, k, S + d);
    LinkMoves(t, a, true, -d, w + d, o, c, k, u, E);
    LinkBounds(a, true, o - d, c - d, k - d, E);
    SameContent(t, a, -d, w + d, k, S + d);
    assert t[k..u] == t[k..S + d] + t[S + d..U];
  }

  lemma AgreeLess(a: Text, t: Text, d: int, i: nat, k: nat, m: nat)
    requires Agree(a, t, d, i, m) && k <= m
    ensures Agree(a, t, d, i, k)
  {
  }

  /** Two URLs, one of which begins in the other, end together. */
  lemma UrlsMeet(t: Text, k: nat, u: nat, s: nat, e: nat)
    requires UrlAt(t, k, u) && UrlAt(t, s, e) && k <= s <= u
    ensures u == e
  {
    assert !Stop(t[s]);
    assert u > s;
    if u < e { assert false; }
    if e < u { assert false; }
  }

  /** A URL begun in a window is continued by the one at its end. */
  lemma JoinedUrl(t: Text, a: Text, d: int, j: nat, k: nat, s: nat, e: nat)
    requires Agree(t, a, d, j, s) && j <= k <= s && k + d >= 0 && (exists u :: s < u && UrlAt(t, k, u)) && UrlAt(a, s + d, e)
    ensures UrlAt(a, k + d, e)
  {
    forall x | k + d <= x < s + d ensures x < |a| && !Stop(a[x]) { assert SameUnit(t, a, d, x - d); }
  }

  /** The result t from j on is the pass of the text from i on, and w..i reads the same in both. */
  ghost predicate Win(a: Text, keep: Text -> bool, w: nat, i: nat, t: Text, j: nat) {
    && w <= i <= |a| && j <= |t| && t[j..] == Pass(a, false, i, keep)
    && w + (j - i) >= 0 && Agree(a, t, j - i, w, i) && SameBang(a, t, j - i, w)
  }

  /** Where the first link's URL ends in the result. */
  ghost function UrlEndsAt(a: Text, keep: Text -> bool, i: nat, j: nat): int
    requires First(a, false, i).Some? && First(a, false, i).value.start <= First(a, false, i).value.end <= |a|
  {
    var f := First(a, false, i).value;
    f.start + (j - i) + |Fixed(keep, a[f.start..f.end])|
  }

  /** Over the first link: its URL in the result, and the window after it, which starts anew behind a
      replaced URL. */
  lemma NextWindow(a: Text, keep: Text -> bool, w: nat, i: nat, t: Text, j: nat)
    requires Win(a, keep, w, i, t, j) && First(a, false, i).Some?
    ensures var f := First(a, false, i).value;
            && i < f.start < f.end <= |a|
            && var d, U := j - i, UrlEndsAt(a, keep, i, j);
               && 0 <= f.start + d <= U <= |t| && Agree(a, t, d, w, f.start) && UrlAt(t, f.start + d, U)
               && w + d >= 0 && SameBang(a, t, d, w)
               && t[f.start + d..U] == Fixed(keep, a[f.start..f.end])
               && Win(a, keep, if Refused(a, keep, f) then f.end else w, f.end, t, U)
  {
    hide First, Pass, Fixed, Agree, SameBang, UrlAt, Stop, Bad;
    var d, f := j - i, First(a, false, i).value;
    Landing(a, false, keep, i, t, j);
    FirstBounds(a, false, i);
    var U := UrlEndsAt(a, keep, i, j);
    UrlInText(t, f.start + d, U);
    AgreeJoin(a, t, d, w, i, f.start);
    RefusedIsReplaced(a, keep, f);
    EmptyWindow(a, t, U - f.end, f.end);
    if !Refused(a, keep, f) {
      AgreeCopy(a, t, d, f.start, f.end);
      AgreeJoin(a, t, d, w, f.start, f.end);
    }
  }

  /** An image of the text is what an image of the result comes from: its bracket is not buried, and it has
      the same URL, or one whose end the pass replaces. */
  ghost predicate Becomes(a: Text, keep: Text -> bool, i: nat, o1: nat, c1: nat, k1: nat, u1: nat, url: Text) {
    && IsLink(a, true, o1, c1, k1, u1) && k1 <= u1 <= |a| && !Buried(a, keep, i, o1)
    && ((url == a[k1..u1] && forall sp :: !Rewritten(a, keep, i, k1, u1, sp))
        || exists sp :: Rewritten(a, keep, i, k1, u1, sp) && url == a[k1..sp.start] + NEUTRALIZED_URL)
  }

  lemma BecomesEarlier(a: Text, keep: Text -> bool, i: nat, o1: nat, c1: nat, k1: nat, u1: nat, url: Text)
    requires First(a, false, i).Some? && Becomes(a, keep, First(a, false, i).value.end, o1, c1, k1, u1, url)
    requires Refused(a, keep, First(a, false, i).value) ==> o1 >= First(a, false, i).value.end
    ensures Becomes(a, keep, i, o1, c1, k1, u1, url)
  {
    hide First, Refused, IsLink, Rewritten, Buried, Spans;
    LinkBounds(a, true, o1, c1, k1, u1);
    StillUnburied(a, keep, i, o1);
    RestOfSpans(a, keep, i, k1, u1);
    NoneEarlier(a, keep, i, k1, u1);
  }

  lemma StillUnburied(a: Text, keep: Text -> bool, i: nat, o: nat)
    requires First(a, false, i).Some? && !Buried(a, keep, First(a, false, i).value.end, o)
    requires Refused(a, keep, First(a, false, i).value) ==> o >= First(a, false, i).value.end
    ensures !Buried(a, keep, i, o)
  {
    hide First, Refused;
    SpansFrom(a, i);
  }

  lemma NoneEarlier(a: Text, keep: Text -> bool, i: nat, k: nat, u: nat)
    requires First(a, false, i).Some? && (Refused(a, keep, First(a, false, i).value) ==> u > First(a, false, i).value.end)
    ensures (forall sp :: !Rewritten(a, keep, First(a, false, i).value.end, k, u, sp)) ==> forall sp :: !Rewritten(a, keep, i, k, u, sp)
  {
    hide First, Refused;
    SpansFrom(a, i);
    var f := First(a, false, i).value;
    forall sp ensures Rewritten(a, keep, i, k, u, sp) ==> Rewritten(a, keep, f.end, k, u, sp) {
    }
  }

  lemma {:induction false} Origin(a: Text, keep: Text -> bool, w: nat, i: nat, t: Text, j: nat, o: nat, c: nat, k: nat, u: nat)
    returns (o1: nat, c1: nat, k1: nat, u1: nat)
    requires Win(a, keep, w, i, t, j) && IsLink(t, true, o, c, k, u) && w + (j - i) <= o
    ensures w <= o1 && k <= u <= |t| && Becomes(a, keep, i, o1, c1, k1, u1, t[k..u])
    decreases |a| - i
  {
    hide *;
    LinkBounds(t, true, o, c, k, u);
    WinBounds(a, keep, w, i, t, j);
    if First(a, false, i).None? {
      o1, c1, k1, u1 := OriginInRest(a, keep, w, i, t, j, o, c, k, u);
    } else {
      NextWindow(a, keep, w, i, t, j);
      var f := First(a, false, i).value;
      var d, U := j - i, UrlEndsAt(a, keep, i, j);
      if o < f.start + d {
        o1, c1, k1, u1 := OriginInFront(a, keep, w, i, t, d, U, o, c, k, u);
      } else {
        if Refused(a, keep, f) { BehindNeutral(a, keep, f, t, f.start + d, U, o); }
        var w2 := if Refused(a, keep, f) then f.end else w;
        assert w2 + (U - f.end) <= o by { if !Refused(a, keep, f) { SameLength(a, keep, i, j); } }
        o1, c1, k1, u1 := Origin(a, keep, w2, f.end, t, U, o, c, k, u);
        BecomesEarlier(a, keep, i, o1, c1, k1, u1, t[k..u]);
      }
    }
  }

  lemma WinBounds(a: Text, keep: Text -> bool, w: nat, i: nat, t: Text, j: nat)
    requires Win(a, keep, w, i, t, j)
    ensures w <= i <= |a|
  {
  }

  lemma SameLength(a: Text, keep: Text -> bool, i: nat, j: nat)
    requires First(a, false, i).Some? && !Refused(a, keep, First(a, false, i).value)
    requires First(a, false, i).value.start <= First(a, false, i).value.end <= |a|
    ensures UrlEndsAt(a, keep, i, j) - First(a, false, i).value.end == j - i
  {
    hide First;
    RefusedIsReplaced(a, keep, First(a, false, i).value);
  }

  lemma BehindNeutral(a: Text, keep: Text -> bool, f: Span, t: Text, s: nat, e: nat, o: nat)
    requires f.start <= f.end <= |a| && Refused(a, keep, f) && s <= e <= |t| && t[s..e] == Fixed(keep, a[f.start..f.end])
    requires s <= o < |t| && t[o] == OPEN
    ensures o >= e
  {
    RefusedIsReplaced(a, keep, f);
    NeutralHasNoBracket();
    NotInside(t, s, e, NEUTRALIZED_URL, o);
  }

  lemma OriginInFront(a: Text, keep: Text -> bool, w: nat, i: nat, t: Text, d: int, U: nat, o: nat, c: nat, k: nat, u: nat)
    returns (o1: nat, c1: nat, k1: nat, u1: nat)
    requires First(a, false, i).Some? && w <= i && w + d >= 0 && SameBang(a, t, d, w)
    requires var f := First(a, false, i).value;
             && i <= f.start <= f.end <= |a| && 0 <= f.start + d <= U <= |t|
             && Agree(a, t, d, w, f.start) && UrlAt(t, f.start + d, U)
             && t[f.start + d..U] == Fixed(keep, a[f.start..f.end]) && w + d <= o < f.start + d
    requires IsLink(t, true, o, c, k, u)
    ensures w <= o1 && k <= u <= |t| && Becomes(a, keep, i, o1, c1, k1, u1, t[k..u])
  {
    hide First, Fixed, IsLink, Agree, SameBang, UrlAt, Stop, Bad, Spans;
    var f := First(a, false, i).value;
    var open2, close2 := FirstIsLink(a, false, i);
    u1 := ImageBefore(a, t, d, w, o, c, k, u, open2, close2, f.start, f.end, U);
    o1, c1, k1 := o - d, c - d, k - d;
    SpansFrom(a, i);
    RefusedIsReplaced(a, keep, f);
    assert f in Spans(a, false, i);
    if u1 == f.end {
      if Refused(a, keep, f) {
        assert Rewritten(a, keep, i, k1, u1, f);
      } else {
        assert a[k1..u1] == a[k1..f.start] + a[f.start..f.end];
      }
    }
  }

  lemma EmptyWindow(a: Text, t: Text, d: int, i: nat)
    requires i + d >= 0 && (i < |a| ==> a[i] != OPEN)
    ensures Agree(a, t, d, i, i) && SameBang(a, t, d, i)
  {
  }

  lemma RestOfSpans(a: Text, keep: Text -> bool, i: nat, k: nat, u: nat)
    requires First(a, false, i).Some?
    ensures forall sp :: Rewritten(a, keep, First(a, false, i).value.end, k, u, sp) ==> Rewritten(a, keep, i, k, u, sp)
  {
    hide First, Refused;
    SpansFrom(a, i);
  }

  lemma OriginInRest(a: Text, keep: Text -> bool, w: nat, i: nat, t: Text, j: nat, o: nat, c: nat, k: nat, u: nat)
    returns (o1: nat, c1: nat, k1: nat, u1: nat)
    requires Win(a, keep, w, i, t, j) && First(a, false, i).None?
    requires IsLink(t, true, o, c, k, u) && w + (j - i) <= o
    ensures w <= o1 && k <= u <= |t| && Becomes(a, keep, i, o1, c1, k1, u1, t[k..u])
  {
    hide IsLink, Agree, First, Pass, SameBang;
    var d := j - i;
    PassStep(a, false, i, keep);
    NoSpansFrom(a, i);
    SameRest(a, i, t, j);
    LinkBounds(t, true, o, c, k, u);
    AgreeBack(a, t, d, w, i);
    AgreeJoin(t, a, -d, w + d, j, |t|);
    WholeBang(a, t, d, w);
    WindowLink(t, a, true, -d, w + d, |t|, o, c, k, u);
    o1, c1, k1, u1 := o - d, c - d, k - d, u - d;
    LinkBounds(a, true, o1, c1, k1, u1);
  }

  lemma WholeBang(a: Text, t: Text, d: int, w: nat)
    requires w + d >= 0 && SameBang(a, t, d, w) && Agree(t, a, -d, w + d, |t|) && w + d <= |t|
    ensures SameBang(t, a, -d, w + d)
  {
    if w + d < |t| { assert SameUnit(t, a, -d, w + d); }
  }

  /** An image whose bracket is not buried is still there after the link pass, with its end replaced if
      that is a refused link's URL. */
  lemma {:induction false} Survives(a: Text, keep: Text -> bool, w: nat, i: nat, t: Text, j: nat, o1: nat, c1: nat, k1: nat, u1: nat, sp: Span)
    returns (o: nat, c: nat, k: nat, u: nat)
    requires Win(a, keep, w, i, t, j) && IsLink(a, true, o1, c1, k1, u1) && w <= o1 && !Buried(a, keep, i, o1)
    requires Rewritten(a, keep, i, k1, u1, sp)
    ensures k1 <= sp.start <= |a| && IsLink(t, true, o, c, k, u) && k <= u <= |t| && t[k..u] == a[k1..sp.start] + NEUTRALIZED_URL
    decreases |a| - i
  {
    hide First, Win, IsLink, Agree, SameBang, UrlAt, Bad, Spans, UrlEndsAt, Fixed;
    LinkBounds(a, true, o1, c1, k1, u1);
    WinBounds(a, keep, w, i, t, j);
    if First(a, false, i).None? { NoSpansFrom(a, i); }
    assert First(a, false, i).Some?;
    NextWindow(a, keep, w, i, t, j);
    SpansFrom(a, i);
    var f := First(a, false, i).value;
    var d, U := j - i, UrlEndsAt(a, keep, i, j);
    if sp == f {
      RefusedIsReplaced(a, keep, f);
      o, c, k, u := SurvivesHere(a, t, d, w, o1, c1, k1, u1, f.start, U);
    } else {
      var open2, close2 := FirstIsLink(a, false, i);
      NotBefore(a, o1, c1, k1, u1, open2, close2, f.start, f.end);
      LaterBuried(a, keep, i, o1);
      assert f in Spans(a, false, i) && sp in Spans(a, false, f.end);
      o, c, k, u := Survives(a, keep, if Refused(a, keep, f) then f.end else w, f.end, t, U, o1, c1, k1, u1, sp);
    }
  }

  /** ... and as it was if not. */
  lemma {:induction false} SurvivesPlain(a: Text, keep: Text -> bool, w: nat, i: nat, t: Text, j: nat, o1: nat, c1: nat, k1: nat, u1: nat)
    returns (o: nat, c: nat, k: nat, u: nat)
    requires Win(a, keep, w, i, t, j) && IsLink(a, true, o1, c1, k1, u1) && w <= o1 && !Buried(a, keep, i, o1)
    requires forall sp :: !Rewritten(a, keep, i, k1, u1, sp)
    ensures IsLink(t, true, o, c, k, u) && k <= u <= |t| && k1 <= u1 <= |a| && t[k..u] == a[k1..u1]
    decreases |a| - i
  {
    hide First, Win, IsLink, Agree, SameBang, UrlAt, Bad, Spans, UrlEndsAt, Fixed;
    LinkBounds(a, true, o1, c1, k1, u1);
    WinBounds(a, keep, w, i, t, j);
    if First(a, false, i).None? {
      o, c, k, u := PlainInRest(a, keep, w, i, t, j, o1, c1, k1, u1);
    } else {
      NextWindow(a, keep, w, i, t, j);
      SpansFrom(a, i);
      var f := First(a, false, i).value;
      var d, U := j - i, UrlEndsAt(a, keep, i, j);
      assert f in Spans(a, false, i);
      if o1 < f.start {
        RefusedIsReplaced(a, keep, f);
        assert !Rewritten(a, keep, i, k1, u1, f);
        o, c, k, u := PlainInFront(a, t, d, w, i, o1, c1, k1, u1, U, Refused(a, keep, f));
      } else {
        LaterBuried(a, keep, i, o1);
        RestOfSpans(a, keep, i, k1, u1);
        o, c, k, u := SurvivesPlain(a, keep, if Refused(a, keep, f) then f.end else w, f.end, t, U, o1, c1, k1, u1);
      }
    }
  }

  lemma PlainInRest(a: Text, keep: Text -> bool, w: nat, i: nat, t: Text, j: nat, o1: nat, c1: nat, k1: nat, u1: nat)
    returns (o: nat, c: nat, k: nat, u: nat)
    requires Win(a, keep, w, i, t, j) && First(a, false, i).None? && IsLink(a, true, o1, c1, k1, u1) && w <= o1
    ensures IsLink(t, true, o, c, k, u) && k <= u <= |t| && k1 <= u1 <= |a| && t[k..u] == a[k1..u1]
  {
    hide IsLink, Agree, First, Pass, SameBang;
    var d := j - i;
    PassStep(a, false, i, keep);
    SameRest(t, j, a, i);
    LinkBounds(a, true, o1, c1, k1, u1);
    AgreeJoin(a, t, d, w, i, |a|);
    WindowLink(a, t, true, d, w, |a|, o1, c1, k1, u1);
    o, c, k, u := o1 + d, c1 + d, k1 + d, u1 + d;
    LinkBounds(t, true, o, c, k, u);
  }

  lemma PlainInFront(a: Text, t: Text, d: int, w: nat, i: nat, o1: nat, c1: nat, k1: nat, u1: nat, U: nat, refused: bool)
    returns (o: nat, c: nat, k: nat, u: nat)
    requires First(a, false, i).Some? && w <= i && w + d >= 0 && SameBang(a, t, d, w)
    requires var f := First(a, false, i).value;
             && i < f.start < f.end <= |a| && 0 <= f.start + d <= U <= |t|
             && Agree(a, t, d, w, f.start) && UrlAt(t, f.start + d, U) && w <= o1 < f.start
             && (if refused then u1 != f.end || k1 > f.start else t[f.start + d..U] == a[f.start..f.end])
    requires IsLink(a, true, o1, c1, k1, u1)
    ensures IsLink(t, true, o, c, k, u) && k <= u <= |t| && k1 <= u1 <= |a| && t[k..u] == a[k1..u1]
  {
    hide First, IsLink, Agree, SameBang, UrlAt, Stop;
    var f := First(a, false, i).value;
    var open2, close2 := FirstIsLink(a, false, i);
    LinkBounds(a, true, o1, c1, k1, u1);
    LinkBounds(a, false, open2, close2, f.start, f.end);
    LinkOrder(a, o1, c1, k1, u1, open2, close2, f.start, f.end);
    if c1 == close2 { SameCloseSameUrl(a, true, o1, false, open2, c1, k1, u1, f.start, f.end); }
    if u1 < f.start {
      WindowLink(a, t, true, d, w, f.start, o1, c1, k1, u1);
      o, c, k, u := o1 + d, c1 + d, k1 + d, u1 + d;
      LinkBounds(t, true, o, c, k, u);
    } else {
      UrlsMeet(a, k1, u1, f.start, f.end);
      o, c, k, u := SurvivesHere(a, t, d, w, o1, c1, k1, u1, f.start, U);
      assert a[k1..u1] == a[k1..f.start] + a[f.start..f.end];
    }
  }

  lemma LaterBuried(a: Text, keep: Text -> bool, i: nat, o: nat)
    requires First(a, false, i).Some? && !Buried(a, keep, i, o)
    ensures !Buried(a, keep, First(a, false, i).value.end, o)
  {
    hide First, Refused;
    SpansFrom(a, i);
  }

  lemma SurvivesHere(a: Text, t: Text, d: int, w: nat, o1: nat, c1: nat, k1: nat, u1: nat, S: nat, U: nat)
    returns (o: nat, c: nat, k: nat, u: nat)
    requires w + d >= 0 && w <= S && Agree(a, t, d, w, S) && SameBang(a, t, d, w) && S + d >= 0
    requires IsLink(a, true, o1, c1, k1, u1) && w <= o1 && k1 <= S < u1 && UrlAt(t, S + d, U)
    ensures IsLink(t, true, o, c, k, u) && k <= u <= |t| && u == U && k <= S + d && t[k..u] == a[k1..S] + t[S + d..U]
  {
    hide IsLink, Agree, SameBang, UrlAt, Stop;
    LinkBounds(a, true, o1, c1, k1, u1);
    JoinedUrl(a, t, d, w, k1, S, U);
    AgreeLess(a, t, d, w, k1, S);
    LinkMoves(a, t, true, d, w, o1, c1, k1, u1, U);
    o, c, k, u := o1 + d, c1 + d, k1 + d, U;
    LinkBounds(t, true, o, c, k, u);
    UrlInText(t, S + d, U);
    SameContent(a, t, d, w, k1, S);
    assert t[k..u] == t[k..S + d] + t[S + d..U];
  }

  lemma UrlInText(t: Text, s: int, e: nat)
    requires UrlAt(t, s, e)
    ensures 0 <= s < e <= |t|
  {
  }

  /** An image whose URL ends after a link's begins after the link's URL does. */
  lemma NotBefore(a: Text, o: nat, c: nat, k: nat, u: nat, open2: nat, close2: nat, S: nat, E: nat)
    requires IsLink(a, true, o, c, k, u) && IsLink(a, false, open2, close2, S, E) && E < u
    ensures o >= S
  {
    hide Space;
    if o < S {
      LinkOrder(a, o, c, k, u, open2, close2, S, E);
      if c == close2 { SameCloseSameUrl(a, true, o, false, open2, c, k, u, S, E); }
      assert false;
    }
  }

  // ---------------------------------------------------------------- when the second pass spoils an image

  /** An image URL that ends in a link's URL, where the verdict refuses that link and then refuses the
      image URL with the neutral URL for an end; and no replaced URL swallows the image's bracket. */
  ghost predicate SpoilsAt(a: Text, keep: Text -> bool, o: nat, c: nat, k: nat, u: nat, sp: Span) {
    && IsLink(a, true, o, c, k, u) && Rewritten(a, keep, 0, k, u, sp) && !Buried(a, keep, 0, o)
    && sp.start <= |a| && Bad(keep, a[k..sp.start] + NEUTRALIZED_URL)
  }

  ghost predicate Spoils(a: Text, keep: Text -> bool) {
    exists o: nat, c: nat, k: nat, u: nat, sp: Span :: SpoilsAt(a, keep, o, c, k, u, sp)
  }

  lemma WholeWindow(a: Text, keep: Text -> bool)
    ensures Win(a, keep, 0, 0, Pass(a, false, 0, keep), 0)
  {
    var out := Pass(a, false, 0, keep);
    assert out[0..] == out;
  }

  /** A refused image of the text that the link pass does not touch. */
  ghost predicate LeavesAt(a: Text, keep: Text -> bool, o: nat, c: nat, k: nat, u: nat) {
    && IsLink(a, true, o, c, k, u) && !Buried(a, keep, 0, o) && (forall sp :: !Rewritten(a, keep, 0, k, u, sp))
    && k <= u <= |a| && Bad(keep, a[k..u])
  }

  ghost predicate Leaves(a: Text, keep: Text -> bool) {
    exists o: nat, c: nat, k: nat, u: nat :: LeavesAt(a, keep, o, c, k, u)
  }

  /** On every text, the link pass leaves no refused image exactly when it leaves none untouched and spoils
      none. */
  lemma ImagesSafeExactly(a: Text, keep: Text -> bool)
    ensures Safe(Pass(a, false, 0, keep), true, keep) <==> !Leaves(a, keep) && !Spoils(a, keep)
  {
    hide Pass, IsLink, Win, Safe, Buried, Rewritten, Bad;
    var out := Pass(a, false, 0, keep);
    WholeWindow(a, keep);
    if Spoils(a, keep) {
      var o1: nat, c1: nat, k1: nat, u1: nat, sp: Span :| SpoilsAt(a, keep, o1, c1, k1, u1, sp);
      var o, c, k, u := Survives(a, keep, 0, 0, out, 0, o1, c1, k1, u1, sp);
      NotSafe(out, true, keep, o, c, k, u);
    } else if Leaves(a, keep) {
      var o1: nat, c1: nat, k1: nat, u1: nat :| LeavesAt(a, keep, o1, c1, k1, u1);
      var o, c, k, u := SurvivesPlain(a, keep, 0, 0, out, 0, o1, c1, k1, u1);
      NotSafe(out, true, keep, o, c, k, u);
    } else {
      forall o: nat, c: nat, k: nat, u: nat ensures SafeLink(out, true, keep, o, c, k, u) {
        if IsLink(out, true, o, c, k, u) { UnspoiledImage(a, keep, o, c, k, u); }
      }
      AllSafe(out, keep);
    }
  }

  lemma AllSafe(out: Text, keep: Text -> bool)
    requires forall o: nat, c: nat, k: nat, u: nat :: SafeLink(out, true, keep, o, c, k, u)
    ensures Safe(out, true, keep)
  {
  }

  lemma UnspoiledImage(a: Text, keep: Text -> bool, o: nat, c: nat, k: nat, u: nat)
    requires !Leaves(a, keep) && !Spoils(a, keep) && IsLink(Pass(a, false, 0, keep), true, o, c, k, u)
    ensures k <= u <= |Pass(a, false, 0, keep)| && !Bad(keep, Pass(a, false, 0, keep)[k..u])
  {
    hide Pass, IsLink, Win, Buried, Bad, Spans;
    var out := Pass(a, false, 0, keep);
    WholeWindow(a, keep);
    var o1, c1, k1, u1 := Origin(a, keep, 0, 0, out, 0, o, c, k, u);
    assert !LeavesAt(a, keep, o1, c1, k1, u1);
    if exists sp :: Rewritten(a, keep, 0, k1, u1, sp) {
      var sp :| Rewritten(a, keep, 0, k1, u1, sp) && out[k..u] == a[k1..sp.start] + NEUTRALIZED_URL;
      assert !SpoilsAt(a, keep, o1, c1, k1, u1, sp);
    }
  }

  /** So a second pass spoils what the first one settled exactly when there is an image to spoil. */
  lemma SpoilsExactly(a: Text, keep: Text -> bool)
    requires Safe(a, true, keep)
    ensures Safe(Pass(a, false, 0, keep), true, keep) <==> !Spoils(a, keep)
  {
    hide Pass, IsLink, Safe, Buried, Rewritten, Bad;
    ImagesSafeExactly(a, keep);
    forall o: nat, c: nat, k: nat, u: nat ensures !LeavesAt(a, keep, o, c, k, u) {
      if IsLink(a, true, o, c, k, u) { SafeHere(a, keep, o, c, k, u); }
    }
  }

  /** If no URL that either pass keeps has an opening bracket, the two passes leave no refused image and no
      refused link, and both again would change nothing. The verdict may keep such URLs elsewhere. */
  lemma TwoPassesSettle(text: Text, keep: Text -> bool)
    requires KeptBracketFree(text, true, keep) && KeptBracketFree(Pass(text, true, 0, keep), false, keep)
    ensures var out := Pass(Pass(text, true, 0, keep), false, 0, keep);
            && Safe(out, true, keep) && Safe(out, false, keep)
            && Pass(out, true, 0, keep) == out && Pass(out, false, 0, keep) == out
  {
    hide Pass, IsLink, KeptBracketFree, SpoilsAt;
    var a := Pass(text, true, 0, keep);
    var out := Pass(a, false, 0, keep);
    TextIsSafe(text, true, keep);
    TextIsSafe(a, false, keep);
    forall o: nat, c: nat, k: nat, u: nat, sp: Span ensures !SpoilsAt(a, keep, o, c, k, u, sp) {
      NothingSpoiled(text, keep, o, c, k, u, sp);
    }
    SpoilsExactly(a, keep);
    PassUnchanged(out, true, keep, 0);
    PassUnchanged(out, false, keep, 0);
    assert out[0..] == out;
  }

  lemma NothingSpoiled(text: Text, keep: Text -> bool, o: nat, c: nat, k: nat, u: nat, sp: Span)
    requires KeptBracketFree(text, true, keep)
    ensures !SpoilsAt(Pass(text, true, 0, keep), keep, o, c, k, u, sp)
  {
    hide Pass, KeptBracketFree, IsLink, Spans, Refused, Buried;
    var a := Pass(text, true, 0, keep);
    if IsLink(a, true, o, c, k, u) && Rewritten(a, keep, 0, k, u, sp) {
      LinksBracketFree(text, true, keep, o, c, k, u);
      WholeUrl(a, o, c, k, u, sp);
      assert a[k..k] + NEUTRALIZED_URL == NEUTRALIZED_URL;
    }
  }

  /** A link's URL at the end of an image URL without brackets is all of it. */
  lemma WholeUrl(a: Text, o: nat, c: nat, k: nat, u: nat, sp: Span)
    requires IsLink(a, true, o, c, k, u) && k <= u <= |a| && OPEN !in a[k..u]
    requires sp in Spans(a, false, 0) && k <= sp.start && sp.end == u
    ensures sp.start == k
  {
    hide IsLink, Spans;
    var spans := Spans(a, false, 0);
    var j :| 0 <= j < |spans| && spans[j] == sp;
    SpansSound(a, false, 0, j);
    var open2: nat, close2: nat :| IsLink(a, false, open2, close2, sp.start, sp.end);
    LinkBounds(a, true, o, c, k, u);
    LinkBounds(a, false, open2, close2, sp.start, sp.end);
    LinkOrder(a, o, c, k, u, open2, close2, sp.start, sp.end);
    if c == close2 {
      SameCloseSameUrl(a, true, o, false, open2, c, k, u, sp.start, sp.end);
    } else {
      forall x | k <= x < u ensures a[x] != OPEN { assert a[k..u][x - k] == a[x]; }
      assert false;
    }
  }

  // ---------------------------------------------------------------- such an image

  /** `![](p[b](r)` with p without brackets. */
  function ImageOver(p: Text, r: Text): Text {
    Around(true, Nested(p, r), [RPAREN])
  }

  /** Inputs: an image URL `p[b](r` that is kept, with `r` refused and `p[b](` with the neutral URL refused,
      as for a URL that the rewriting makes longer than the verdict allows. The image pass accepts it, and
      the link pass turns it into a refused one. */
  lemma PassesInterfere(keep: Text -> bool, p: Text, r: Text)
    requires UrlShape(Nested(p, r)) && keep(Nested(p, r)) && r != [] && Bad(keep, r)
    requires Bad(keep, p + [OPEN, 98, CLOSE, LPAREN] + NEUTRALIZED_URL)
    requires OPEN !in p && OPEN !in r && (p != [] ==> p[|p| - 1] != BANG)
    ensures Pass(ImageOver(p, r), true, 0, keep) == ImageOver(p, r)
    ensures !Safe(Pass(ImageOver(p, r), false, 0, keep), true, keep)
  {
    hide Pass, IsLink, Win, Safe, Bad, Around, Nested, Spans, Buried;
    var a, inner := ImageOver(p, r), InnerSpan(p, r);
    ImageKept(keep, p, r);
    ImageParts(p, r);
    OnlyInner(p, r);
    assert !Buried(a, keep, 0, 1) by { NotBuriedThere(keep, p, r); }
    var out := Pass(a, false, 0, keep);
    WholeWindow(a, keep);
    assert Rewritten(a, keep, 0, 4, inner.end, inner);
    var o, c, k, u := Survives(a, keep, 0, 0, out, 0, 1, 2, 4, inner.end, inner);
    NotSafe(out, true, keep, o, c, k, u);
  }

  function InnerSpan(p: Text, r: Text): Span {
    Span(4 + |p| + 4, 4 + |p| + 4 + |r|)
  }

  lemma ImageParts(p: Text, r: Text)
    requires UrlShape(Nested(p, r)) && r != [] && OPEN !in p && OPEN !in r && (p != [] ==> p[|p| - 1] != BANG)
    ensures var a, inner := ImageOver(p, r), InnerSpan(p, r);
            && inner.end < |a|
            && IsLink(a, true, 1, 2, 4, inner.end) && IsLink(a, false, 4 + |p|, 4 + |p| + 2, inner.start, inner.end)
            && a[inner.start..inner.end] == r && a[4..inner.start] == p + [OPEN, 98, CLOSE, LPAREN]
            && HasBang(a, 1) && forall x :: 0 <= x < |a| && a[x] == OPEN ==> x == 1 || x == 4 + |p|
  {
    var v, tail: Text := Nested(p, r), [RPAREN];
    var a, inner := ImageOver(p, r), InnerSpan(p, r);
    AroundParts(true, v, tail);
    NestedParts(p, r);
    assert |Head(true)| == 4;
    hide Around, Nested, Head, Stop;
    assert a[4..inner.end] == v && a[inner.end..] == tail && a[inner.end] == tail[0];
    forall x | 4 <= x < inner.end ensures a[x] == v[x - 4] { assert a[4..inner.end][x - 4] == a[x]; }
    PlacedBang(a, 4, v, |p|);
    InnerReads(a, v, p, r);
    assert Stop(RPAREN) by { StopParen(); }
  }

  lemma StopParen()
    ensures Stop(RPAREN)
  {
  }

  lemma InnerReads(a: Text, v: Text, p: Text, r: Text)
    requires |a| == 4 + |v| + 1 && |v| == |p| + 4 + |r| && v[..|p|] == p && v[|p| + 4..] == r && OPEN !in p && OPEN !in r
    requires forall x :: 4 <= x < 4 + |v| ==> a[x] == v[x - 4]
    requires v[|p|] == OPEN && v[|p| + 1] == 98 && v[|p| + 2] == CLOSE && v[|p| + 3] == LPAREN
    requires a[0] == BANG && a[1] == OPEN && a[2] == CLOSE && a[3] == LPAREN && a[4 + |v|] == RPAREN
    ensures a[4 + |p| + 4..4 + |v|] == r && a[4..4 + |p| + 4] == p + [OPEN, 98, CLOSE, LPAREN]
    ensures forall x :: 0 <= x < |a| && a[x] == OPEN ==> x == 1 || x == 4 + |p|
  {
    forall x | 0 <= x < |p| ensures v[x] == p[x] { assert v[..|p|][x] == v[x]; }
    forall x | 0 <= x < |r| ensures v[|p| + 4 + x] == r[x] { assert v[|p| + 4..][x] == v[|p| + 4 + x]; }
    forall x | 0 <= x < |a| && x != 1 && x != 4 + |p| ensures a[x] != OPEN {
      if 4 <= x < 4 + |p| { assert a[x] == p[x - 4] && p[x - 4] in p; }
      if 4 + |p| + 4 <= x < 4 + |v| { assert a[x] == r[x - 8 - |p|] && r[x - 8 - |p|] in r; }
    }
  }

  /** The link pass finds the inner URL and nothing else. */
  lemma OnlyInner(p: Text, r: Text)
    requires UrlShape(Nested(p, r)) && r != [] && OPEN !in p && OPEN !in r && (p != [] ==> p[|p| - 1] != BANG)
    ensures InnerSpan(p, r) in Spans(ImageOver(p, r), false, 0)
    ensures forall sp :: sp in Spans(ImageOver(p, r), false, 0) ==> sp == InnerSpan(p, r)
  {
    ImageParts(p, r);
    hide ImageOver, IsLink, Spans;
    var a, inner := ImageOver(p, r), InnerSpan(p, r);
    var spans := Spans(a, false, 0);
    forall sp | sp in spans ensures sp == inner {
      var j :| 0 <= j < |spans| && spans[j] == sp;
      SpansSound(a, false, 0, j);
      var open: nat, close: nat :| IsLink(a, false, open, close, sp.start, sp.end);
      LinkBang(a, open, close, sp.start, sp.end);
      IsLinkFound(a, false, open, close, sp.start, sp.end);
      IsLinkFound(a, false, 4 + |p|, 4 + |p| + 2, inner.start, inner.end);
    }
    forall j | 0 <= j < |spans| ensures spans[j] == inner { assert spans[j] in spans; }
    assert !Inside(spans, 4 + |p|);
    SpansComplete(a, false, 0, 4 + |p|, 4 + |p| + 2, inner.start, inner.end);
  }

  lemma LinkBang(a: Text, open: nat, close: nat, k: nat, u: nat)
    requires IsLink(a, false, open, close, k, u)
    ensures open < |a| && a[open] == OPEN && !HasBang(a, open)
  {
  }

  lemma NotBuriedThere(keep: Text -> bool, p: Text, r: Text)
    requires UrlShape(Nested(p, r)) && r != [] && OPEN !in p && OPEN !in r && (p != [] ==> p[|p| - 1] != BANG)
    ensures !Buried(ImageOver(p, r), keep, 0, 1)
  {
    hide ImageOver, Nested, Spans;
    OnlyInner(p, r);
  }

  lemma ImageKept(keep: Text -> bool, p: Text, r: Text)
    requires UrlShape(Nested(p, r)) && keep(Nested(p, r))
    ensures Pass(ImageOver(p, r), true, 0, keep) == ImageOver(p, r)
  {
    hide Pass, SafeLink, Around, Nested;
    var v, tail: Text := Nested(p, r), [RPAREN];
    forall open: nat, close: nat, k: nat, u: nat | |Head(true) + v| <= open
      ensures SafeLink(Around(true, v, tail), true, keep, open, close, k, u)
    {
      AfterIsPlain(v, tail, keep, open, close, k, u);
    }
    AroundUnchanged(true, keep, v, tail);
  }

  lemma AfterIsPlain(v: Text, tail: Text, keep: Text -> bool, open: nat, close: nat, k: nat, u: nat)
    requires tail == [RPAREN] && |Head(true) + v| <= open
    ensures SafeLink(Around(true, v, tail), true, keep, open, close, k, u)
  {
    hide Around, Head;
    AroundParts(true, v, tail);
    var t := Around(true, v, tail);
    var e := |Head(true) + v|;
    forall x | e <= x < |t| ensures t[x] != OPEN { assert t[e..][x - e] == tail[x - e]; }
    assert !IsLink(t, true, open, close, k, u);
  }
}
