/**
 * Turning the free text of a card into text pieces and links: every run that
 * starts with `http://`, `https://` or `www.` (letters in any case) and goes
 * up to the next whitespace becomes a link; line breaks are kept as `<br />`.
 */
module Linkify {
  import opened Wrappers
  import opened Text

  /** `c` is the pattern character `q`, or its upper-case form when `q` is a lower-case ASCII letter (the `i` flag). */
  predicate SameFolded(c: char, q: char) {
    c == q || ('a' <= q <= 'z' && c as int == q as int - 32)
  }

  /**
   * From `s[i]` on, `s` spells `pattern[k..]` (letters in any case) and is then
   * followed by one character of `[^\s]`.
   */
  predicate SpellsAt(s: string, i: nat, pattern: string, k: nat)
    requires k <= |pattern|
    decreases |pattern| - k
  {
    i < |s| &&
    if k == |pattern| then !IsWhitespace(s[i])
    else SameFolded(s[i], pattern[k]) && SpellsAt(s, i + 1, pattern, k + 1)
  }

  /** `(https?:\/\/[^\s]+|www\.[^\s]+)`: the alternatives, with `https?` written out as its two forms. */
  const Schemes: seq<string> := ["https://", "http://", "www."]

  /** The pattern, with flag `i`, matches at `p`. */
  predicate HasMatchAt(s: string, p: nat)
    requires p <= |s|
  {
    SpellsAt(s, p, Schemes[0], 0) || SpellsAt(s, p, Schemes[1], 0) || SpellsAt(s, p, Schemes[2], 0)
  }

  /** Lower-case ASCII letters and the symbols `:`, `/` and `.`, as the schemes are written. */
  predicate PlainPattern(pattern: string) {
    forall i :: 0 <= i < |pattern| ==> 'a' <= pattern[i] <= 'z' || pattern[i] in ":/."
  }

  /** Whether `pattern[k..]` is spelled depends only on the next `|pattern| - k + 1` characters. */
  lemma {:induction false} SpellsAtWindow(s: string, i: nat, u: string, j: nat, pattern: string, k: nat)
    requires k <= |pattern| && i + |pattern| - k < |s| && j + |pattern| - k < |u|
    requires forall x :: i <= x <= i + |pattern| - k ==> s[x] == u[x - i + j]
    ensures SpellsAt(s, i, pattern, k) == SpellsAt(u, j, pattern, k)
    decreases |pattern| - k
  {
    assert s[i] == u[j];
    if k < |pattern| {
      SpellsAtWindow(s, i + 1, u, j + 1, pattern, k + 1);
    }
  }

  /** A plain pattern spelled from `i` fits in `s`, and neither it nor the character after it is whitespace. */
  lemma {:induction false} SpellsAtVisible(s: string, i: nat, pattern: string, k: nat)
    requires k <= |pattern| && SpellsAt(s, i, pattern, k) && PlainPattern(pattern)
    ensures i + |pattern| - k < |s|
    ensures forall x :: i <= x <= i + |pattern| - k ==> !IsWhitespace(s[x])
    decreases |pattern| - k
  {
    if k < |pattern| {
      SpellsAtVisible(s, i + 1, pattern, k + 1);
      assert '!' <= s[i] <= '~';
    }
  }

  /** The alternative that matches at `p`. */
  lemma SchemeAt(s: string, p: nat) returns (n: nat)
    requires p <= |s| && HasMatchAt(s, p)
    ensures n < |Schemes| && SpellsAt(s, p, Schemes[n], 0)
    ensures p + |Schemes[n]| < |s|
    ensures forall x :: p <= x <= p + |Schemes[n]| ==> !IsWhitespace(s[x])
  {
    n := if SpellsAt(s, p, Schemes[0], 0) then 0 else if SpellsAt(s, p, Schemes[1], 0) then 1 else 2;
    assert PlainPattern(Schemes[n]);
    SpellsAtVisible(s, p, Schemes[n], 0);
  }

  /** A match found inside a piece of `s` is a match in `s` itself. */
  lemma MatchInSlice(s: string, a: nat, b: nat, q: nat)
    requires a <= b <= |s| && q <= b - a && HasMatchAt(s[a..b], q)
    ensures HasMatchAt(s, a + q)
  {
    var t := s[a..b];
    var n := SchemeAt(t, q);
    SpellsAtWindow(t, q, s, a + q, Schemes[n], 0);
  }

  /** The end of the run of non-whitespace characters starting at `p` (`[^\s]+` is greedy). */
  function RunEnd(s: string, p: nat): (r: nat)
    requires p <= |s|
    ensures p <= r <= |s|
    decreases |s| - p
  {
    if p == |s| || IsWhitespace(s[p]) then p else RunEnd(s, p + 1)
  }

  /** The run holds no whitespace and stops at whitespace or at the end; it is non-empty when it starts on a non-whitespace character. */
  lemma {:induction false} RunEndSpec(s: string, p: nat)
    requires p <= |s|
    ensures forall i :: p <= i < RunEnd(s, p) ==> !IsWhitespace(s[i])
    ensures RunEnd(s, p) == |s| || IsWhitespace(s[RunEnd(s, p)])
    ensures p < |s| && !IsWhitespace(s[p]) ==> p < RunEnd(s, p)
    decreases |s| - p
  {
    if p < |s| && !IsWhitespace(s[p]) {
      RunEndSpec(s, p + 1);
    }
  }

  /** A match starts on a visible character and its url, up to the next whitespace, is a match on its own. */
  lemma MatchSpans(s: string, p: nat)
    requires p <= |s| && HasMatchAt(s, p)
    ensures p < RunEnd(s, p)
    ensures HasMatchAt(s[p..RunEnd(s, p)], 0)
  {
    var n := SchemeAt(s, p);
    RunEndSpec(s, p);
    var e := RunEnd(s, p);
    var url := s[p..e];
    SpellsAtWindow(s, p, url, 0, Schemes[n], 0);
  }

  /** No match starts on whitespace. */
  lemma MatchStartsVisible(s: string, p: nat)
    requires p <= |s|
    ensures HasMatchAt(s, p) ==> p < |s| && !IsWhitespace(s[p])
  {
    if HasMatchAt(s, p) {
      MatchSpans(s, p);
      RunEndSpec(s, p);
    }
  }

  /** The position where `exec` finds its next match when searching from `from`. */
  function NextMatch(s: string, from: nat): (r: Option<nat>)
    requires from <= |s|
    ensures r.Some? ==> from <= r.value < |s|
    decreases |s| - from
  {
    if from == |s| then None
    else if HasMatchAt(s, from) then Some(from)
    else NextMatch(s, from + 1)
  }

  /** `NextMatch` finds the leftmost match at or after `from`, and reports none only when there is none. */
  lemma {:induction false} NextMatchLeftmost(s: string, from: nat)
    requires from <= |s|
    ensures NextMatch(s, from).Some? ==> HasMatchAt(s, NextMatch(s, from).value)
    ensures NextMatch(s, from).Some? ==> forall q :: from <= q < NextMatch(s, from).value ==> !HasMatchAt(s, q)
    ensures NextMatch(s, from).None? <==> forall q :: from <= q <= |s| ==> !HasMatchAt(s, q)
    decreases |s| - from
  {
    if from < |s| && !HasMatchAt(s, from) {
      NextMatchLeftmost(s, from + 1);
    }
  }

  /** The link target: `https://` is put in front of a url that starts with a lower-case `www.`. */
  function Href(url: string): (r: string)
    ensures StartsWith(url, "www.") ==> r == "https://" + url
    ensures !StartsWith(url, "www.") ==> r == url
  {
    if StartsWith(url, "www.") then "https://" + url else url
  }

  /** One element of what `linkify` returns: a plain string or an anchor showing `url`. */
  datatype Segment = Text(text: string) | Link(url: string, href: string)

  /** The url found by `exec` is not empty, so the scan moves forward. */
  lemma FoundRunNonEmpty(s: string, last: nat, p: nat)
    requires last <= |s| && NextMatch(s, last) == Some(p)
    ensures p < RunEnd(s, p)
  {
    NextMatchLeftmost(s, last);
    MatchSpans(s, p);
  }

  /** The pieces produced from position `last` on: the gap before each match, then the match. */
  function Scan(s: string, last: nat): (r: seq<Segment>)
    requires last <= |s|
    ensures r == [] <==> last == |s|
    decreases |s| - last
  {
    match NextMatch(s, last)
    case None => if last < |s| then [Text(s[last..])] else []
    case Some(p) =>
      FoundRunNonEmpty(s, last, p);
      var e := RunEnd(s, p);
      (if p > last then [Text(s[last..p])] else []) + [Link(s[p..e], Href(s[p..e]))] + Scan(s, e)
  }

  /** `linkify(text)`: the pieces, or `[text]` when there are none. */
  function Linkify(s: string): (r: seq<Segment>)
    ensures r != []
    ensures NextMatch(s, 0).None? ==> r == [Text(s)]
  {
    var parts := Scan(s, 0);
    if parts == [] then [Text(s)] else parts
  }

  /** One round of the scan: the gap before the leftmost match, the match, then the rest. */
  lemma ScanStep(s: string, last: nat, p: nat)
    requires last <= |s| && NextMatch(s, last) == Some(p)
    ensures p < RunEnd(s, p)
    ensures Scan(s, last) ==
      (if p > last then [Text(s[last..p])] else []) + [Link(s[p..RunEnd(s, p)], Href(s[p..RunEnd(s, p)]))] + Scan(s, RunEnd(s, p))
  {
    FoundRunNonEmpty(s, last, p);
  }

  /** One round of the loop: the pieces already pushed, then the gap and the link, then the rest of the scan. */
  lemma ScanAdvance(done: seq<Segment>, s: string, last: nat, p: nat)
    requires last <= |s| && NextMatch(s, last) == Some(p)
    ensures p < RunEnd(s, p)
    ensures var url := s[p..RunEnd(s, p)];
      done + Scan(s, last) ==
      (if p > last then done + [Text(s[last..p])] else done) + [Link(url, Href(url))] + Scan(s, RunEnd(s, p))
  {
    ScanStep(s, last, p);
    var url := s[p..RunEnd(s, p)];
    var step := (if p > last then [Text(s[last..p])] else []) + [Link(url, Href(url))];
    assert done + Scan(s, last) == done + (step + Scan(s, RunEnd(s, p)));
    assert (done + step) + Scan(s, RunEnd(s, p)) == done + (step + Scan(s, RunEnd(s, p)));
  }

  /** Once no match is left, the scan ends with the remaining text, if any. */
  lemma ScanTail(s: string, last: nat)
    requires last <= |s| && NextMatch(s, last).None?
    ensures Scan(s, last) == if last < |s| then [Text(s[last..])] else []
  {
  }

  /** The loop of `linkify`, with `exec` as `NextMatch`. */
  method LinkifyParts(text: string) returns (parts: seq<Segment>)
    ensures parts == Linkify(text)
  {
    parts := [];
    var last := 0;
    var m := NextMatch(text, 0);
    while m.Some?
      invariant last <= |text|
      invariant m == NextMatch(text, last)
      invariant parts + Scan(text, last) == Scan(text, 0)
      decreases |text| - last
    {
      var p := m.value;
      ScanAdvance(parts, text, last, p);
      var e := RunEnd(text, p);
      var url := text[p..e];
      parts := (if p > last then parts + [Text(text[last..p])] else parts) + [Link(url, Href(url))];
      last := e;
      m := NextMatch(text, last);
    }
    ScanTail(text, last);
    if last < |text| {
      parts := parts + [Text(text[last..])];
    }
    if parts == [] {
      parts := [Text(text)];
    }
  }

  /** The characters a piece shows. */
  function Shown(g: Segment): string {
    match g
    case Text(t) => t
    case Link(url, _) => url
  }

  /** The text shown by a sequence of pieces. */
  function Flatten(parts: seq<Segment>): string
    decreases |parts|
  {
    if parts == [] then [] else Shown(parts[0]) + Flatten(parts[1..])
  }

  lemma {:induction false} FlattenConcat(a: seq<Segment>, b: seq<Segment>)
    ensures Flatten(a + b) == Flatten(a) + Flatten(b)
    decreases |a|
  {
    if a == [] {
      assert a + b == b;
    } else {
      assert (a + b)[0] == a[0];
      assert (a + b)[1..] == a[1..] + b;
      FlattenConcat(a[1..], b);
    }
  }

  lemma FlattenSingle(g: Segment)
    ensures Flatten([g]) == Shown(g)
  {
    assert [g][1..] == [];
  }

  lemma FlattenCons(g: Segment, rest: seq<Segment>)
    ensures Flatten([g] + rest) == Shown(g) + Flatten(rest)
  {
    assert ([g] + rest)[1..] == rest;
  }

  /** The text shown by a gap, a link and the rest, in that order. */
  lemma GapLinkShown(gap: string, link: Segment, rest: seq<Segment>)
    ensures Flatten([Text(gap)] + [link] + rest) == gap + Shown(link) + Flatten(rest)
  {
    assert [Text(gap)] + [link] + rest == [Text(gap)] + ([link] + rest);
    FlattenCons(Text(gap), [link] + rest);
    FlattenCons(link, rest);
  }

  lemma SliceThree(s: string, a: nat, b: nat, c: nat)
    requires a <= b <= c <= |s|
    ensures s[a..] == s[a..b] + (s[b..c] + s[c..])
  {
    assert s[b..] == s[b..c] + s[c..];
    assert s[a..] == s[a..b] + s[b..];
  }

  /** One round of the scan loses nothing when the rest of the scan loses nothing. */
  lemma LosslessRound(s: string, last: nat, p: nat, e: nat, link: Segment, rest: seq<Segment>, whole: seq<Segment>)
    requires last <= p <= e <= |s|
    requires link.Link? && link.url == s[p..e]
    requires whole == (if p > last then [Text(s[last..p])] else []) + [link] + rest
    requires Flatten(rest) == s[e..]
    ensures Flatten(whole) == s[last..]
  {
    if p > last {
      GapLinkShown(s[last..p], link, rest);
      SliceThree(s, last, p, e);
    } else {
      assert whole == [link] + rest;
      FlattenCons(link, rest);
      SliceThree(s, p, p, e);
      assert s[p..p] == [];
    }
  }

  lemma {:induction false} ScanLossless(s: string, last: nat)
    requires last <= |s|
    ensures Flatten(Scan(s, last)) == s[last..]
    decreases |s| - last
  {
    match NextMatch(s, last)
    case None =>
      ScanTail(s, last);
      if last < |s| {
        FlattenSingle(Text(s[last..]));
      }
    case Some(p) =>
      ScanStep(s, last, p);
      ScanLossless(s, RunEnd(s, p));
      var e := RunEnd(s, p);
      LosslessRound(s, last, p, e, Link(s[p..e], Href(s[p..e])), Scan(s, e), Scan(s, last));
  }

  /** Nothing is lost or added: the pieces show exactly the original text, in order. */
  lemma LinkifyLossless(s: string)
    ensures Flatten(Linkify(s)) == s
  {
    ScanLossless(s, 0);
  }

  /** Text without any url comes back as the single string `[text]`. */
  lemma NoUrlUnchanged(s: string)
    requires forall q :: 0 <= q <= |s| ==> !HasMatchAt(s, q)
    ensures Linkify(s) == [Text(s)]
  {
    NextMatchLeftmost(s, 0);
  }

  /** No character of `t` starts a match. */
  predicate NoMatchIn(t: string) {
    forall q :: 0 <= q <= |t| ==> !HasMatchAt(t, q)
  }

  /** A piece is well formed: a text piece is non-empty and holds no url; a link is a whole match with its target. */
  predicate WellFormed(g: Segment) {
    match g
    case Text(t) => t != [] && NoMatchIn(t)
    case Link(url, href) =>
      HasMatchAt(url, 0) && (forall i :: 0 <= i < |url| ==> !IsWhitespace(url[i])) && href == Href(url)
  }

  /** A link runs to the next whitespace: the piece after a link is text starting with whitespace. */
  predicate Boundary(g: Segment, next: Segment) {
    g.Link? ==> next.Text? && next.text != [] && IsWhitespace(next.text[0])
  }

  /** No match starts in `s[a..b]`, so the piece holds none. */
  lemma GapHasNoMatch(s: string, a: nat, b: nat)
    requires a <= b <= |s| && forall q :: a <= q < b ==> !HasMatchAt(s, q)
    ensures NoMatchIn(s[a..b])
  {
    forall q | 0 <= q <= b - a && HasMatchAt(s[a..b], q) ensures false {
      MatchInSlice(s, a, b, q);
    }
  }

  /** After a link, the scan starts at whitespace, so it starts with a text piece that begins with it. */
  lemma ScanAfterLink(s: string, e: nat)
    requires e < |s| && IsWhitespace(s[e])
    ensures Scan(s, e) != [] && Scan(s, e)[0].Text? && Scan(s, e)[0].text != [] && IsWhitespace(Scan(s, e)[0].text[0])
  {
    MatchStartsVisible(s, e);
    NextMatchLeftmost(s, e);
  }

  /** Every piece is well formed and every link runs up to whitespace or the end. */
  ghost predicate Shaped(parts: seq<Segment>) {
    && (forall g :: g in parts ==> WellFormed(g))
    && (forall i, j :: 0 <= i < j < |parts| && j == i + 1 ==> Boundary(parts[i], parts[j]))
  }

  /** Shaped pieces stay shaped when joined, as long as a final link is followed by whitespace. */
  lemma ShapedConcat(a: seq<Segment>, b: seq<Segment>)
    requires Shaped(a) && Shaped(b)
    requires a != [] && b != [] ==> Boundary(a[|a| - 1], b[0])
    ensures Shaped(a + b)
  {
    var r := a + b;
    forall i, j | 0 <= i < j < |r| && j == i + 1 ensures Boundary(r[i], r[j]) {
      if j < |a| {
        assert r[i] == a[i] && r[j] == a[j];
      } else if j == |a| {
        assert r[i] == a[|a| - 1] && r[j] == b[0];
      } else {
        assert r[i] == b[i - |a|] && r[j] == b[j - |a|];
      }
    }
  }

  lemma {:induction false} ScanShape(s: string, last: nat)
    requires last <= |s|
    ensures Shaped(Scan(s, last))
    decreases |s| - last
  {
    NextMatchLeftmost(s, last);
    match NextMatch(s, last)
    case None =>
      if last < |s| {
        GapHasNoMatch(s, last, |s|);
        assert s[last..|s|] == s[last..];
      }
    case Some(p) =>
      ScanStep(s, last, p);
      RunEndSpec(s, p);
      var e := RunEnd(s, p);
      var url := s[p..e];
      var before := if p > last then [Text(s[last..p])] else [];
      var rest := Scan(s, e);
      ScanShape(s, e);
      if p > last {
        GapHasNoMatch(s, last, p);
      }
      MatchSpans(s, p);
      assert [Link(url, Href(url))][0] == Link(url, Href(url));
      ShapedConcat(before, [Link(url, Href(url))]);
      if e < |s| {
        ScanAfterLink(s, e);
      } else {
        NextMatchLeftmost(s, e);
      }
      ShapedConcat(before + [Link(url, Href(url))], rest);
  }

  /** Every piece of `linkify` is well formed and every link ends where whitespace or the text ends. */
  lemma LinkifyShape(s: string)
    requires s != []
    ensures Linkify(s) == Scan(s, 0)
    ensures Shaped(Linkify(s))
  {
    ScanLossless(s, 0);
    ScanShape(s, 0);
  }

  /** What `LinkifyText` renders: pieces and `<br />` elements. */
  datatype Node = Piece(segment: Segment) | Br

  function Pieces(parts: seq<Segment>): (r: seq<Node>)
    ensures |r| == |parts|
    ensures forall i :: 0 <= i < |r| ==> r[i] == Piece(parts[i])
  {
    seq(|parts|, i requires 0 <= i < |parts| => Piece(parts[i]))
  }

  /** Each line linkified, with a `<br />` after every line but the last. */
  function RenderLines(lines: seq<string>): (r: seq<Node>)
    ensures r == [] <==> lines == []
    decreases |lines|
  {
    if lines == [] then []
    else if |lines| == 1 then Pieces(Linkify(lines[0]))
    else Pieces(Linkify(lines[0])) + [Br] + RenderLines(lines[1..])
  }

  /** `LinkifyText({ text })`: nothing for an empty text, else the lines of `text.split('\n')`. */
  function LinkifyText(text: string): (r: Option<seq<Node>>)
    ensures r.None? <==> text == ""
  {
    if text == "" then None else Some(RenderLines(Split(text, '\n')))
  }

  /** The text a rendering shows, with `<br />` read as a newline. */
  function Plain(nodes: seq<Node>): string
    decreases |nodes|
  {
    if nodes == [] then []
    else (if nodes[0].Br? then "\n" else Shown(nodes[0].segment)) + Plain(nodes[1..])
  }

  /** Number of `<br />` elements. */
  function Breaks(nodes: seq<Node>): nat
    decreases |nodes|
  {
    if nodes == [] then 0 else (if nodes[0].Br? then 1 else 0) + Breaks(nodes[1..])
  }

  lemma {:induction false} PlainConcat(a: seq<Node>, b: seq<Node>)
    ensures Plain(a + b) == Plain(a) + Plain(b)
    ensures Breaks(a + b) == Breaks(a) + Breaks(b)
    decreases |a|
  {
    if a == [] {
      assert a + b == b;
    } else {
      assert (a + b)[0] == a[0];
      assert (a + b)[1..] == a[1..] + b;
      PlainConcat(a[1..], b);
    }
  }

  lemma {:induction false} PlainPieces(parts: seq<Segment>)
    ensures Plain(Pieces(parts)) == Flatten(parts)
    ensures Breaks(Pieces(parts)) == 0
    decreases |parts|
  {
    if parts != [] {
      PlainPieces(parts[1..]);
      assert Pieces(parts)[1..] == Pieces(parts[1..]);
    }
  }

  lemma {:induction false} RenderLinesShows(lines: seq<string>)
    ensures Plain(RenderLines(lines)) == Join(lines, '\n')
    ensures Breaks(RenderLines(lines)) == if lines == [] then 0 else |lines| - 1
    decreases |lines|
  {
    if lines != [] {
      PlainPieces(Linkify(lines[0]));
      LinkifyLossless(lines[0]);
      if |lines| > 1 {
        RenderLinesShows(lines[1..]);
        PlainConcat(Pieces(Linkify(lines[0])), [Br]);
        PlainConcat(Pieces(Linkify(lines[0])) + [Br], RenderLines(lines[1..]));
        assert Plain([Br]) == "\n";
      }
    }
  }

  /**
   * The rendering shows the whole text: reading every `<br />` as a newline
   * gives the text back, and there is one `<br />` per newline in it.
   */
  lemma LinkifyTextShowsText(text: string)
    requires text != ""
    ensures Plain(LinkifyText(text).value) == text
    ensures Breaks(LinkifyText(text).value) == Count(text, '\n')
  {
    SplitJoin(text, '\n');
    RenderLinesShows(Split(text, '\n'));
  }
}
