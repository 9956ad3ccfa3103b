/**
 * The `[[Title]]` link extension of the editor (src/utils/wiki-link-extension.ts).
 *
 * A global scan for the pattern `[[` + one or more characters other than
 * `]` + `]]` yields non-overlapping spans from left to right; every span
 * becomes a mark decoration carrying its title, and a mouse press on a
 * marked element asks to navigate to that title when it is non-empty.
 */
module WikiLink {
  import opened Common

  /** One match: the text from `from` to `to` (exclusive) is `[[` + title + `]]`. */
  datatype Span = Span(from: nat, to: nat, title: string)

  /**
   * The declarative reading of the pattern: a link whose title is `t`
   * starts at position p.
   */
  predicate IsLink(s: string, p: nat, t: string) {
    p + |t| + 4 <= |s| &&
    s[p..p + 2] == "[[" &&
    |t| > 0 && ']' !in t &&
    s[p + 2..p + 2 + |t|] == t &&
    s[p + 2 + |t|..p + |t| + 4] == "]]"
  }

  /**
   * The regex engine's attempt at position p. The greedy `[^\]]+` runs up
   * to the first `]`; giving characters back cannot help, since the
   * character after a shorter run is not `]`. So there is a match exactly
   * when that run is non-empty and is followed by `]]`.
   */
  function MatchAt(s: string, p: nat): Option<string>
    requires p <= |s|
  {
    if p + 2 <= |s| && s[p..p + 2] == "[[" then
      match IndexOf(s[p + 2..], ']')
      case None => None
      case Some(k) =>
        if k > 0 && p + 2 + k + 1 < |s| && s[p + 2 + k + 1] == ']' then Some(s[p + 2..p + 2 + k])
        else None
    else None
  }

  /** The engine's attempt succeeds with title t exactly when a link with title t starts there. */
  lemma MatchAtIsLink(s: string, p: nat, t: string)
    requires p <= |s|
    ensures MatchAt(s, p) == Some(t) <==> IsLink(s, p, t)
  {
    if IsLink(s, p, t) {
      var rest := s[p + 2..];
      assert rest[..|t|] == t;
      assert rest[|t|] == ']' by {
        assert s[p + 2 + |t|..p + |t| + 4][0] == ']';
      }
      assert IndexOf(rest, ']') == Some(|t|);
      assert s[p + 2 + |t| + 1] == s[p + 2 + |t|..p + |t| + 4][1];
    }
    if MatchAt(s, p) == Some(t) {
      var k := IndexOf(s[p + 2..], ']').value;
      assert t == s[p + 2..][..k];
      assert s[p + 2 + k..p + k + 4] == "]]" by {
        assert s[p + 2 + k] == s[p + 2..][k];
      }
    }
  }

  /** At most one title can start at a position. */
  lemma LinkTitleUnique(s: string, p: nat, t1: string, t2: string)
    requires IsLink(s, p, t1) && IsLink(s, p, t2)
    ensures t1 == t2
  {
    MatchAtIsLink(s, p, t1);
    MatchAtIsLink(s, p, t2);
  }

  /** The text a span covers is `[[` + title + `]]`, and the title is non-empty and holds no `]`. */
  lemma LinkText(s: string, p: nat, t: string)
    requires IsLink(s, p, t)
    ensures s[p..p + |t| + 4] == "[[" + t + "]]"
    ensures |t| > 0 && ']' !in t
  {
    assert s[p..p + |t| + 4] == s[p..p + 2] + s[p + 2..p + 2 + |t|] + s[p + 2 + |t|..p + |t| + 4];
  }

  /** The spans of `s` from position `from` on, as `exec` with the `g` flag finds them. */
  function Scan(s: string, from: nat): (r: seq<Span>)
    requires from <= |s|
    ensures forall k :: 0 <= k < |r| ==>
              from <= r[k].from && r[k].to == r[k].from + |r[k].title| + 4 &&
              IsLink(s, r[k].from, r[k].title)
    ensures forall k :: 0 <= k < |r| - 1 ==> r[k].to <= r[k + 1].from
    decreases |s| - from
  {
    if from == |s| then []
    else match MatchAt(s, from)
      case Some(t) =>
        MatchAtIsLink(s, from, t);
        [Span(from, from + |t| + 4, t)] + Scan(s, from + |t| + 4)
      case None => Scan(s, from + 1)
  }

  /** All spans of a string. */
  function Links(s: string): seq<Span> {
    Scan(s, 0)
  }

  /** No link starts at any position in [lo, hi). */
  ghost predicate NoLinkIn(s: string, lo: nat, hi: nat) {
    forall p: nat, t :: lo <= p < hi ==> !IsLink(s, p, t)
  }

  /** Where the k-th gap between spans starts (k = 0 is the gap before the first span). */
  function GapStart(r: seq<Span>, from: nat, k: nat): nat
    requires k <= |r|
  {
    if k == 0 then from else r[k - 1].to
  }

  /** Where the k-th gap ends (the last gap runs to the end of the string). */
  function GapEnd(r: seq<Span>, s: string, k: nat): nat
    requires k <= |r|
  {
    if k == |r| then |s| else r[k].from
  }

  /** No link starts in any gap of `r`, read as the spans found from `from` on. */
  ghost predicate GapsClean(s: string, from: nat, r: seq<Span>) {
    forall k :: 0 <= k <= |r| ==> NoLinkIn(s, GapStart(r, from, k), GapEnd(r, s, k))
  }

  lemma NoMatchNoLink(s: string, p: nat)
    requires p <= |s| && MatchAt(s, p).None?
    ensures forall t :: !IsLink(s, p, t)
  {
    forall t ensures !IsLink(s, p, t) {
      MatchAtIsLink(s, p, t);
    }
  }

  /** A span found at `from` followed by clean gaps after its end leaves clean gaps. */
  lemma GapsCons(s: string, from: nat, sp: Span, r: seq<Span>)
    requires sp.from == from && GapsClean(s, sp.to, r)
    ensures GapsClean(s, from, [sp] + r)
  {
    var r' := [sp] + r;
    forall k | 0 <= k <= |r'| ensures NoLinkIn(s, GapStart(r', from, k), GapEnd(r', s, k)) {
      if k > 0 {
        assert GapStart(r', from, k) == GapStart(r, sp.to, k - 1);
        assert GapEnd(r', s, k) == GapEnd(r, s, k - 1);
      }
    }
  }

  /** A failed attempt at `from` widens the first gap by one position. */
  lemma GapsWiden(s: string, from: nat, r: seq<Span>)
    requires GapsClean(s, from + 1, r) && from < GapEnd(r, s, 0)
    requires forall t :: !IsLink(s, from, t)
    ensures GapsClean(s, from, r)
  {
    assert NoLinkIn(s, from + 1, GapEnd(r, s, 0));
    forall k | 0 <= k <= |r| ensures NoLinkIn(s, GapStart(r, from, k), GapEnd(r, s, k)) {
      if k > 0 {
        assert GapStart(r, from, k) == GapStart(r, from + 1, k);
      }
    }
  }

  /**
   * The scan misses nothing: no link starts in any gap, so each span starts
   * at the leftmost link at or after the previous span's end, and no link
   * starts after the last one.
   */
  lemma {:induction false} ScanLeftmost(s: string, from: nat)
    requires from <= |s|
    ensures GapsClean(s, from, Scan(s, from))
    decreases |s| - from
  {
    if from == |s| {
      assert Scan(s, from) == [];
    } else {
      match MatchAt(s, from)
      case Some(t) =>
        var next := from + |t| + 4;
        assert Scan(s, from) == [Span(from, next, t)] + Scan(s, next);
        ScanLeftmost(s, next);
        GapsCons(s, from, Span(from, next, t), Scan(s, next));
      case None =>
        assert Scan(s, from) == Scan(s, from + 1);
        ScanLeftmost(s, from + 1);
        NoMatchNoLink(s, from);
        GapsWiden(s, from, Scan(s, from + 1));
    }
  }

  /** A title may contain `[`: the single span of `[[[a]]` starts at 0 with title `[a`. */
  lemma OpeningBracketInTitle()
    ensures Links("[[[a]]") == [Span(0, 6, "[a")]
  {
    var s := "[[[a]]";
    assert s[0..2] == "[[" && s[2..] == "[a]]";
    assert IndexOf("[a]]", ']') == Some(2) by {
      assert "[a]]"[1..] == "a]]" && "a]]"[1..] == "]]";
    }
    assert s[2..4] == "[a";
    assert MatchAt(s, 0) == Some("[a");
    assert Scan(s, 6) == [];
  }

  /** An empty title is not a link: `[[]]` yields no span. */
  lemma EmptyTitleNoLink()
    ensures Links("[[]]") == []
  {
    var s := "[[]]";
    forall p: nat, t | 0 <= p < |s| ensures !IsLink(s, p, t) {
      if p + 2 + |t| <= |s| && |t| > 0 {
        assert s[p + 2..p + 2 + |t|][0] == s[p + 2];
      }
    }
  }

  // ---------------------------------------------------------------------------
  // Decorations

  /** The class names on every link mark, in the order of the class attribute. */
  const LinkClasses: seq<string> :=
    ["cm-wiki-link", "cursor-pointer", "text-primary", "underline",
     "decoration-primary/50", "hover:decoration-primary"]

  /** The class that identifies a link mark to the mouse handler. */
  const LinkClass: string := "cm-wiki-link"

  /** A mark decoration over [from, to) with its class names and attributes. */
  datatype Decoration = Mark(
    from: nat, to: nat,
    classes: seq<string>,
    dataTitle: string,
    hoverTitle: string)

  function Decorate(sp: Span): Decoration {
    Mark(sp.from, sp.to, LinkClasses, sp.title, "Go to " + sp.title)
  }

  /** The decorations of one line. */
  function Decorations(line: string): seq<Decoration> {
    var links := Links(line);
    seq(|links|, k requires 0 <= k < |links| => Decorate(links[k]))
  }

  /**
   * One decoration per span, in order, each over its span's text, carrying
   * the title as `data-title` and `"Go to " + title` as hover text.
   */
  lemma DecorationsCarryTitles(line: string)
    ensures |Decorations(line)| == |Links(line)|
    ensures forall k :: 0 <= k < |Links(line)| ==>
              var d, sp := Decorations(line)[k], Links(line)[k];
              d.from == sp.from && d.to == sp.to &&
              line[d.from..d.to] == "[[" + d.dataTitle + "]]" &&
              d.dataTitle == sp.title && d.dataTitle != "" &&
              d.hoverTitle == "Go to " + sp.title &&
              LinkClass in d.classes
  {
    forall k | 0 <= k < |Links(line)|
      ensures line[Links(line)[k].from..Links(line)[k].to] == "[[" + Links(line)[k].title + "]]"
    {
      LinkText(line, Links(line)[k].from, Links(line)[k].title);
    }
  }

  /** Decorations of a span moved right by `offset` characters. */
  function Shift(ds: seq<Decoration>, offset: nat): seq<Decoration> {
    seq(|ds|, k requires 0 <= k < |ds| => ds[k].(from := ds[k].from + offset, to := ds[k].to + offset))
  }

  /**
   * The document's decorations: the pattern is matched line by line, so a
   * link never spans a line break. `offset` is where `lines[0]` starts.
   */
  function DocDecorations(lines: seq<string>, offset: nat): seq<Decoration>
    decreases |lines|
  {
    if |lines| == 0 then []
    else Shift(Decorations(lines[0]), offset) + DocDecorations(lines[1..], offset + |lines[0]| + 1)
  }

  /** Every decoration of the document lies inside one line. */
  lemma {:induction false} DecorationsStayInLine(lines: seq<string>, offset: nat)
    ensures forall d :: d in DocDecorations(lines, offset) ==>
              exists i :: 0 <= i < |lines| && LineStart(lines, offset, i) <= d.from &&
                          d.to <= LineStart(lines, offset, i) + |lines[i]|
    decreases |lines|
  {
    if |lines| > 0 {
      DecorationsStayInLine(lines[1..], offset + |lines[0]| + 1);
      var here := Decorations(lines[0]);
      DecorationsCarryTitles(lines[0]);
      forall d | d in DocDecorations(lines, offset)
        ensures exists i :: 0 <= i < |lines| && LineStart(lines, offset, i) <= d.from &&
                            d.to <= LineStart(lines, offset, i) + |lines[i]|
      {
        if d in Shift(here, offset) {
          var k :| 0 <= k < |here| && d == Shift(here, offset)[k];
          assert here[k].to <= |lines[0]|;
          assert LineStart(lines, offset, 0) == offset;
        } else {
          assert d in DocDecorations(lines[1..], offset + |lines[0]| + 1);
          var i :| 0 <= i < |lines[1..]| && LineStart(lines[1..], offset + |lines[0]| + 1, i) <= d.from &&
                   d.to <= LineStart(lines[1..], offset + |lines[0]| + 1, i) + |lines[1..][i]|;
          assert LineStart(lines, offset, i + 1) == LineStart(lines[1..], offset + |lines[0]| + 1, i);
        }
      }
    }
  }

  /** Where line i starts when `lines[0]` starts at `offset`. */
  function LineStart(lines: seq<string>, offset: nat, i: nat): nat
    requires i <= |lines|
    decreases i
  {
    if i == 0 then offset else LineStart(lines[1..], offset + |lines[0]| + 1, i - 1)
  }

  // ---------------------------------------------------------------------------
  // Mouse press

  /** An element on the path from the pressed element up to the root. */
  datatype Element = Element(classes: seq<string>, dataTitle: Option<string>)

  /** The rendered element of a mark. */
  function Rendered(d: Decoration): Element {
    Element(d.classes, Some(d.dataTitle))
  }

  /**
   * `target.matches(".cm-wiki-link") ? target : target.closest(".cm-wiki-link")`:
   * the first element of the path, starting with the target itself, that
   * has the link class.
   */
  function ClosestLink(path: seq<Element>): (r: Option<nat>)
    ensures r.Some? ==> r.value < |path| && LinkClass in path[r.value].classes &&
                        forall j :: 0 <= j < r.value ==> LinkClass !in path[j].classes
    ensures r.None? ==> forall j :: 0 <= j < |path| ==> LinkClass !in path[j].classes
  {
    if |path| == 0 then None
    else if LinkClass in path[0].classes then Some(0)
    else match ClosestLink(path[1..])
      case None => None
      case Some(j) => Some(j + 1)
  }

  /**
   * The `mousedown` handler: the title to navigate to, if any. Navigation
   * (and the `preventDefault` that goes with it) happens exactly when the
   * closest link element has a non-empty `data-title`.
   */
  function OnMouseDown(path: seq<Element>): (nav: Option<string>)
    ensures nav.Some? <==> (ClosestLink(path).Some? &&
                            path[ClosestLink(path).value].dataTitle.Some? &&
                            path[ClosestLink(path).value].dataTitle.value != "")
    ensures nav.Some? ==> nav.value == path[ClosestLink(path).value].dataTitle.value
  {
    match ClosestLink(path)
    case None => None
    case Some(i) =>
      match path[i].dataTitle
      case None => None
      case Some(t) => if t != "" then Some(t) else None
  }

  /**
   * A press anywhere inside a link mark (on the mark itself or on an inner
   * element without the link class) navigates to that link's title.
   */
  lemma PressOnLinkNavigates(line: string, k: nat, inner: seq<Element>, outer: seq<Element>)
    requires k < |Links(line)|
    requires forall j :: 0 <= j < |inner| ==> LinkClass !in inner[j].classes
    ensures OnMouseDown(inner + [Rendered(Decorations(line)[k])] + outer) == Some(Links(line)[k].title)
  {
    DecorationsCarryTitles(line);
    var path := inner + [Rendered(Decorations(line)[k])] + outer;
    assert path[|inner|] == Rendered(Decorations(line)[k]);
    assert LinkClass in LinkClasses;
    assert forall j :: 0 <= j < |inner| ==> path[j] == inner[j];
  }

  // ---------------------------------------------------------------------------
  // The plugin instance

  /** The plugin's state: the decoration set it hands to the editor. */
  class LinkPlugin {
    var decorations: seq<Decoration>
    /** The document the decorations were computed for, as lines. */
    ghost var lines: seq<string>

    ghost predicate Valid()
      reads this
    {
      decorations == DocDecorations(lines, 0)
    }

    constructor(doc: seq<string>)
      ensures Valid() && lines == doc
      ensures decorations == DocDecorations(doc, 0)
    {
      decorations := DocDecorations(doc, 0);
      lines := doc;
    }

    /**
     * `update`: the decorations are recomputed only when the document or
     * the viewport changed; otherwise the previous set is kept, and it is
     * still the set for the unchanged document.
     */
    method Update(docChanged: bool, viewportChanged: bool, doc: seq<string>)
      requires Valid()
      requires !docChanged ==> doc == lines
      modifies this
      ensures Valid() && lines == doc
      ensures decorations == if docChanged || viewportChanged then DocDecorations(doc, 0)
                             else old(decorations)
    {
      if docChanged || viewportChanged {
        decorations := DocDecorations(doc, 0);
      }
      lines := doc;
    }
  }
}
