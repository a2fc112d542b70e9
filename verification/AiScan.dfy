/**
 The bracket scanner of lib/ai-output.js: finds the URL of every `[alt](url)` or `![alt](url)`.
 Texts are sequences of UTF-16 code units.
 */
module AiScan {
  import opened Results

  type CodeUnit = u: int | 0 <= u < 0x10000
  type Text = seq<CodeUnit>

  const BANG: CodeUnit := 0x21
  const LPAREN: CodeUnit := 0x28
  const RPAREN: CodeUnit := 0x29
  const OPEN: CodeUnit := 0x5B
  const CLOSE: CodeUnit := 0x5D

  const MD_ALT_MAX := 2048
  const MD_GAP_MAX := 256

  /** `WHITESPACE_RANGES` */
  predicate Space(c: CodeUnit) {
    || 0x09 <= c <= 0x0D || c == 0x20 || c == 0xA0 || c == 0x1680 || 0x2000 <= c <= 0x200A
    || c == 0x2028 || c == 0x2029 || c == 0x202F || c == 0x205F || c == 0x3000 || c == 0xFEFF
  }

  predicate Stop(c: CodeUnit) {
    c == RPAREN || Space(c)
  }

  /** `text.indexOf(c, from)` */
  function IndexOf(text: Text, c: CodeUnit, from: nat): (r: int)
    ensures r == -1 || from <= r < |text|
    ensures r == -1 ==> forall x :: from <= x < |text| ==> text[x] != c
    ensures r != -1 ==> text[r] == c && forall x :: from <= x < r ==> text[x] != c
    decreases |text| - from
  {
    if from >= |text| then -1 else if text[from] == c then from else IndexOf(text, c, from + 1)
  }

  lemma IndexOfIs(text: Text, c: CodeUnit, from: nat, r: nat)
    requires from <= r < |text| && text[r] == c && forall x :: from <= x < r ==> text[x] != c
    ensures IndexOf(text, c, from) == r
  {
  }

  lemma IndexOfLater(text: Text, c: CodeUnit, p: nat, to: nat)
    requires p <= to && var r := IndexOf(text, c, p); r == -1 || r >= to
    ensures IndexOf(text, c, to) == IndexOf(text, c, p)
  {
    var r := IndexOf(text, c, p);
    if r != -1 { IndexOfIs(text, c, to, r); }
  }

  /** The remembered search for "]" of `_makeNextClose`; `asked` is the furthest position asked for. */
  class NextClose {
    const text: Text
    var at: int
    ghost var asked: nat

    ghost predicate Valid()
      reads this
    {
      at == IndexOf(text, CLOSE, asked)
    }

    constructor (text: Text)
      ensures Valid() && this.text == text && asked == 0
    {
      this.text := text;
      at := IndexOf(text, CLOSE, 0);
      asked := 0;
    }

    /** A query at or after all earlier ones is answered as a fresh search would; an earlier one is
        answered for the furthest position. */
    method From(pos: nat) returns (r: int)
      requires Valid()
      modifies this
      ensures Valid() && asked == (if pos < old(asked) then old(asked) else pos)
      ensures r == IndexOf(text, CLOSE, asked)
      ensures pos >= old(asked) ==> r == IndexOf(text, CLOSE, pos)
    {
      ghost var to := if pos < asked then asked else pos;
      ghost var p := asked;
      while at != -1 && at < pos
        invariant asked <= p <= to && at == IndexOf(text, CLOSE, p)
        decreases if at == -1 then 0 else |text| - at
      {
        p := at + 1;
        at := IndexOf(text, CLOSE, at + 1);
      }
      IndexOfLater(text, CLOSE, p, to);
      asked := to;
      r := at;
    }
  }

  // ---------------------------------------------------------------- the scan as a function

  datatype Span = Span(start: nat, end: nat)

  predicate HasBang(text: Text, open: nat)
    requires open < |text|
  {
    open > 0 && text[open - 1] == BANG
  }

  function GapEnd(text: Text, k: nat, end: nat): (r: nat)
    requires k <= end <= |text|
    ensures k <= r <= end && (r < end ==> !Space(text[r])) && forall x :: k <= x < r ==> Space(text[x])
    decreases end - k
  {
    if k < end && Space(text[k]) then GapEnd(text, k + 1, end) else k
  }

  function UrlEnd(text: Text, u: nat): (r: nat)
    requires u <= |text|
    ensures u <= r <= |text| && (r < |text| ==> Stop(text[r])) && forall x :: u <= x < r ==> !Stop(text[x])
    decreases |text| - u
  {
    if u < |text| && !Stop(text[u]) then UrlEnd(text, u + 1) else u
  }

  function GapLimit(text: Text, k: nat): nat
    requires k <= |text|
  {
    if |text| < k + MD_GAP_MAX then |text| else k + MD_GAP_MAX
  }

  /** The URL of the link that an opening bracket begins, if it begins one. */
  function LinkAt(text: Text, wantBang: bool, open: nat): Option<Span>
    requires open < |text|
  {
    if HasBang(text, open) != wantBang then None
    else
      var close := IndexOf(text, CLOSE, open + 1);
      if close == -1 || close - (open + 1) > MD_ALT_MAX then None
      else if close + 1 >= |text| || text[close + 1] != LPAREN then None
      else
        var k := GapEnd(text, close + 2, GapLimit(text, close + 2));
        var u := UrlEnd(text, k);
        if u == k then None else Some(Span(k, u))
  }

  /** The first URL found from position i on. */
  function First(text: Text, wantBang: bool, i: nat): Option<Span>
    decreases |text| - i
  {
    var open := IndexOf(text, OPEN, i);
    if open == -1 then None
    else if LinkAt(text, wantBang, open).Some? then LinkAt(text, wantBang, open)
    else First(text, wantBang, open + 1)
  }

  /** What LinkAt means: bracket, close, parenthesis, gap and URL, with the two bounds. */
  ghost predicate IsLink(text: Text, wantBang: bool, open: nat, close: nat, k: nat, u: nat) {
    && open < close < |text| && text[open] == OPEN && HasBang(text, open) == wantBang
    && text[close] == CLOSE && (forall x :: open < x < close ==> text[x] != CLOSE)
    && close - (open + 1) <= MD_ALT_MAX
    && close + 1 < |text| && text[close + 1] == LPAREN
    && close + 2 <= k <= close + 2 + MD_GAP_MAX
    && k < u <= |text|
    && (forall x :: close + 2 <= x < k ==> Space(text[x]))
    && (forall x :: k <= x < u ==> !Stop(text[x]))
    && (u < |text| ==> Stop(text[u]))
  }

  /** A white-space code unit, written out. */
  ghost predicate Blank(c: CodeUnit) {
    || c == 9 || c == 10 || c == 11 || c == 12 || c == 13 || c == 32 || c == 160 || c == 5760
    || (8192 <= c && c <= 8202) || c == 8232 || c == 8233 || c == 8239 || c == 8287 || c == 12288 || c == 65279
  }

  /** A link, character by character: "[", with "!" right before it when an image is wanted and not
      otherwise; "]", the first one behind it, at most 2048 further on; "(" right behind that; at most
      256 blanks; and a URL, not empty, up to ")", a blank or the end of the text. */
  lemma LinkExactly(text: Text, wantBang: bool, open: nat, close: nat, k: nat, u: nat)
    ensures IsLink(text, wantBang, open, close, k, u)
       <==> && open < close < |text| && text[open] == 0x5B && (wantBang <==> open >= 1 && text[open - 1] == 0x21)
            && text[close] == 0x5D && (forall x :: open < x < close ==> text[x] != 0x5D) && close <= open + 2049
            && close + 1 < |text| && text[close + 1] == 0x28
            && close + 2 <= k <= close + 258 && k < u <= |text|
            && (forall x :: close + 2 <= x < k ==> Blank(text[x])) && (forall x :: k <= x < u ==> text[x] != 0x29 && !Blank(text[x]))
            && (u < |text| ==> text[u] == 0x29 || Blank(text[u]))
  {
    assert forall c: CodeUnit :: Space(c) <==> Blank(c);
  }

  lemma GapEndIs(text: Text, k: nat, r: nat)
    requires k <= r < |text| && r <= k + MD_GAP_MAX && !Space(text[r]) && forall x :: k <= x < r ==> Space(text[x])
    ensures GapEnd(text, k, GapLimit(text, k)) == r
  {
    var g := GapEnd(text, k, GapLimit(text, k));
    if g < r { assert false; }
    if r < g { assert false; }
  }

  lemma UrlEndIs(text: Text, k: nat, u: nat)
    requires k <= u <= |text| && (forall x :: k <= x < u ==> !Stop(text[x])) && (u < |text| ==> Stop(text[u]))
    ensures UrlEnd(text, k) == u
  {
    var r := UrlEnd(text, k);
    if r < u { assert false; }
    if u < r { assert false; }
  }

  lemma IsLinkFound(text: Text, wantBang: bool, open: nat, close: nat, k: nat, u: nat)
    requires IsLink(text, wantBang, open, close, k, u)
    ensures LinkAt(text, wantBang, open) == Some(Span(k, u))
  {
    hide IndexOf, GapEnd, UrlEnd, Space;
    IndexOfIs(text, CLOSE, open + 1, close);
    assert !Stop(text[k]);
    GapEndIs(text, close + 2, k);
    UrlEndIs(text, k, u);
  }

  lemma FoundIsLink(text: Text, wantBang: bool, open: nat) returns (close: nat)
    requires open < |text| && text[open] == OPEN && LinkAt(text, wantBang, open).Some?
    ensures var s := LinkAt(text, wantBang, open).value; IsLink(text, wantBang, open, close, s.start, s.end)
  {
    close := IndexOf(text, CLOSE, open + 1);
  }

  lemma {:induction false} FirstIsLink(text: Text, wantBang: bool, i: nat) returns (open: nat, close: nat)
    requires First(text, wantBang, i).Some?
    ensures var s := First(text, wantBang, i).value; i <= open && IsLink(text, wantBang, open, close, s.start, s.end)
    decreases |text| - i
  {
    hide LinkAt, IsLink;
    open := IndexOf(text, OPEN, i);
    if LinkAt(text, wantBang, open).Some? {
      close := FoundIsLink(text, wantBang, open);
    } else {
      open, close := FirstIsLink(text, wantBang, open + 1);
    }
  }

  lemma FirstBounds(text: Text, wantBang: bool, i: nat)
    requires First(text, wantBang, i).Some?
    ensures var s := First(text, wantBang, i).value;
            && i + 1 < s.start < s.end <= |text|
            && (forall x :: s.start <= x < s.end ==> !Stop(text[x]))
            && (s.end < |text| ==> Stop(text[s.end]))
  {
    hide First;
    var open, close := FirstIsLink(text, wantBang, i);
  }

  /** Every URL that is found from position i on, in order. */
  function Spans(text: Text, wantBang: bool, i: nat): seq<Span>
    decreases |text| - i
  {
    var f := First(text, wantBang, i);
    if f.None? then [] else
      FirstBounds(text, wantBang, i);
      [f.value] + Spans(text, wantBang, f.value.end)
  }

  /** Without a closing bracket nothing more is found: the scanner may return early. */
  lemma {:induction false} NoCloseNoLink(text: Text, wantBang: bool, i: nat, open: nat)
    requires open < |text| && open == IndexOf(text, OPEN, i) && IndexOf(text, CLOSE, open + 1) == -1
    ensures First(text, wantBang, i).None?
  {
    if First(text, wantBang, i).Some? {
      var o, c := FirstIsLink(text, wantBang, i);
      assert false;
    }
  }

  lemma NoFirstNoSpans(text: Text, wantBang: bool, i: nat)
    requires First(text, wantBang, i).None?
    ensures Spans(text, wantBang, i) == []
  {
  }

  lemma SpansStep(text: Text, wantBang: bool, i: nat)
    ensures var open := IndexOf(text, OPEN, i);
            Spans(text, wantBang, i) ==
            if open == -1 then []
            else if LinkAt(text, wantBang, open).None? then Spans(text, wantBang, open + 1)
            else [LinkAt(text, wantBang, open).value] + Spans(text, wantBang, LinkAt(text, wantBang, open).value.end)
  {
    hide LinkAt;
  }

  /** The two inner loops: skip the gap, then read the URL. */
  method ReadUrl(text: Text, from: nat) returns (k: nat, u: nat)
    requires from <= |text|
    ensures k == GapEnd(text, from, GapLimit(text, from)) && u == UrlEnd(text, k)
  {
    hide Space;
    var gapEnd := GapLimit(text, from);
    k := from;
    while k < gapEnd && Space(text[k])
      invariant from <= k <= gapEnd
      invariant GapEnd(text, from, gapEnd) == GapEnd(text, k, gapEnd)
    {
      k := k + 1;
    }
    u := k;
    while u < |text| && !Stop(text[u])
      invariant k <= u <= |text|
      invariant UrlEnd(text, k) == UrlEnd(text, u)
    {
      u := u + 1;
    }
  }

  lemma WrongBang(text: Text, wantBang: bool, open: nat)
    requires open < |text|
    ensures HasBang(text, open) != wantBang ==> LinkAt(text, wantBang, open).None?
    ensures LinkAt(text, wantBang, open).Some? ==> open < LinkAt(text, wantBang, open).value.end <= |text|
  {
  }

  /** The rest of the loop body, for a bracket whose bang is right. */
  method ReadLink(text: Text, wantBang: bool, open: nat, nextClose: NextClose) returns (close: int, link: Option<Span>)
    requires open < |text| && text[open] == OPEN && HasBang(text, open) == wantBang
    requires nextClose.Valid() && nextClose.text == text && nextClose.asked <= open + 1
    modifies nextClose
    ensures nextClose.Valid() && nextClose.asked == open + 1
    ensures close == IndexOf(text, CLOSE, open + 1) && link == LinkAt(text, wantBang, open)
  {
    hide IndexOf, GapEnd, UrlEnd, Stop;
    close := nextClose.From(open + 1);
    if close == -1 { return close, None; }
    if close - (open + 1) > MD_ALT_MAX { return close, None; }
    if close + 1 >= |text| || text[close + 1] != LPAREN { return close, None; }
    var k, u := ReadUrl(text, close + 2);
    link := if u == k then None else Some(Span(k, u));
  }

  /** `_findBracketUrls` */
  method FindBracketUrls(text: Text, wantBang: bool) returns (spans: seq<Span>)
    ensures spans == Spans(text, wantBang, 0)
  {
    hide IndexOf, GapEnd, UrlEnd, Stop, Spans, First, LinkAt;
    spans := [];
    var len := |text|;
    var i := 0;
    var nextClose: NextClose? := null;
    while i < len
      invariant nextClose != null ==> nextClose.Valid() && nextClose.text == text && fresh(nextClose) && nextClose.asked <= i
      invariant Spans(text, wantBang, 0) == spans + Spans(text, wantBang, i)
      decreases len - i
    {
      var open := IndexOf(text, OPEN, i);
      SpansStep(text, wantBang, i);
      if open == -1 { return; }
      WrongBang(text, wantBang, open);
      if HasBang(text, open) != wantBang { i := open + 1; continue; }
      if nextClose == null { nextClose := new NextClose(text); }
      var close, link := ReadLink(text, wantBang, open, nextClose);
      if close == -1 {
        NoCloseNoLink(text, wantBang, i, open);
        NoFirstNoSpans(text, wantBang, i);
        return;
      }
      if link.None? { i := open + 1; continue; }
      spans := spans + [link.value];
      i := link.value.end;
    }
    SpansStep(text, wantBang, i);
  }

  // ---------------------------------------------------------------- what is found

  /** The first URL found belongs to an opening bracket no later than any link's. */
  lemma {:induction false} FirstNotAfter(text: Text, wantBang: bool, i: nat, open: nat, close: nat, k: nat, u: nat) returns (o: nat, c: nat)
    requires i <= open && IsLink(text, wantBang, open, close, k, u)
    ensures First(text, wantBang, i).Some? && i <= o <= open
    ensures var s := First(text, wantBang, i).value; IsLink(text, wantBang, o, c, s.start, s.end)
    decreases |text| - i
  {
    hide LinkAt, IsLink;
    IsLinkFound(text, wantBang, open, close, k, u);
    assert open < |text| && text[open] == OPEN by { LinkOpens(text, wantBang, open, close, k, u); }
    o := IndexOf(text, OPEN, i);
    if LinkAt(text, wantBang, o).Some? {
      c := FoundIsLink(text, wantBang, o);
    } else {
      o, c := FirstNotAfter(text, wantBang, o + 1, open, close, k, u);
    }
  }

  lemma LinkOpens(text: Text, wantBang: bool, open: nat, close: nat, k: nat, u: nat)
    requires IsLink(text, wantBang, open, close, k, u)
    ensures open < |text| && text[open] == OPEN
  {
  }

  /** Two links with overlapping heads have the same URL. */
  lemma SharedClose(text: Text, wantBang: bool, o: nat, c: nat, k: nat, u: nat, o2: nat, c2: nat, k2: nat, u2: nat)
    requires IsLink(text, wantBang, o, c, k, u) && IsLink(text, wantBang, o2, c2, k2, u2)
    requires o <= o2 < k
    ensures k == k2 && u == u2
  {
    assert o2 != c && o2 != c + 1;
    assert o2 < c;
    assert c == c2 by {
      if c < c2 { assert false; }
      if c2 < c { assert false; }
    }
    IsLinkFound(text, wantBang, o, c, k, u);
    IsLinkFound(text, wantBang, o2, c2, k2, u2);
  }

  ghost predicate Inside(spans: seq<Span>, x: nat) {
    exists j :: 0 <= j < |spans| && spans[j].start <= x < spans[j].end
  }

  /** Complete: the URL of every link is found, unless its bracket lies inside a URL that is found. */
  lemma {:induction false} SpansComplete(text: Text, wantBang: bool, i: nat, open: nat, close: nat, k: nat, u: nat)
    requires i <= open && IsLink(text, wantBang, open, close, k, u)
    ensures Span(k, u) in Spans(text, wantBang, i) || Inside(Spans(text, wantBang, i), open)
    decreases |text| - i
  {
    hide IsLink, First;
    var o, c := FirstNotAfter(text, wantBang, i, open, close, k, u);
    var f := First(text, wantBang, i).value;
    FirstBounds(text, wantBang, i);
    var spans, rest := Spans(text, wantBang, i), Spans(text, wantBang, f.end);
    assert spans == [f] + rest;
    if f.end <= open {
      SpansComplete(text, wantBang, f.end, open, close, k, u);
      if Span(k, u) in rest {
        assert Span(k, u) in spans;
      } else {
        var j :| 0 <= j < |rest| && rest[j].start <= open < rest[j].end;
        assert spans[j + 1] == rest[j];
      }
    } else if f.start <= open {
      assert spans[0] == f;
    } else {
      SharedClose(text, wantBang, o, c, f.start, f.end, open, close, k, u);
      assert spans[0] == Span(k, u);
    }
  }

  /** Sound: every span is the URL of a link, and the spans are in order and apart. */
  lemma {:induction false} SpansSound(text: Text, wantBang: bool, i: nat, j: nat)
    requires j < |Spans(text, wantBang, i)|
    ensures var spans := Spans(text, wantBang, i);
            && (exists open: nat, close: nat :: i <= open && IsLink(text, wantBang, open, close, spans[j].start, spans[j].end))
            && i + 1 < spans[j].start < spans[j].end <= |text|
            && (j > 0 ==> spans[j - 1].end + 1 < spans[j].start)
    decreases |text| - i
  {
    hide IsLink, First;
    FirstBounds(text, wantBang, i);
    var f := First(text, wantBang, i).value;
    if j == 0 {
      var open, close := FirstIsLink(text, wantBang, i);
    } else {
      SpansSound(text, wantBang, f.end, j - 1);
    }
  }
}
