/**
 * The saved layout record (NodesData.cs): one entry per node or comment
 * holding its name and its rect as text, and the parser that reads the
 * rect back. Number formatting (`Rect.ToString` prints two decimals) and
 * `float.Parse` are parameters: `fmt` turns a coordinate into text and
 * `parse` reads a number, None standing for a FormatException.
 */
module NodesData {
  import opened Wrappers
  import opened Geometry
  import opened Text
  import opened Nodes
  import C = Comments

  /** `NodeData`; `typeName` is the `type` field, which no constructor sets (null). */
  datatype NodeData = NodeData(name: string, typeName: Option<string>, rect: string)

  datatype Saved = Saved(nodes: seq<NodeData>, comments: seq<NodeData>)

  /** `Rect.ToString()`: "(x:X, y:Y, width:W, height:H)". */
  function RectString(r: Rect, fmt: real -> string): string {
    "(x:" + fmt(r.x) + ", y:" + fmt(r.y) + ", width:" + fmt(r.w) + ", height:" + fmt(r.h) + ")"
  }

  /** The parameterless constructor: empty name and empty rect text. */
  function EmptyData(): (d: NodeData)
    ensures d.name == [] && d.rect == [] && d.typeName.None?
  {
    NodeData("", None, "")
  }

  /**
   * `NodeData(Node)`: the node's name and its rect as text. A node without
   * a name gives a null name, which the XML file leaves out; reading the
   * file back keeps the empty name the parameterless constructor set, and
   * that is the name the entry holds here.
   */
  function NodeEntry(n: Node, fmt: real -> string): (d: NodeData)
    ensures n.name.Some? ==> d.name == n.name.value
    ensures n.name.None? ==> d.name == EmptyData().name
    ensures d.rect == RectString(n.rect, fmt) && d.typeName.None?
  {
    NodeData(n.name.GetOr(""), None, RectString(n.rect, fmt))
  }

  /** `NodeData(Comment)`: the comment's text and its rect as text. */
  function CommentEntry(c: C.Comment, fmt: real -> string): (d: NodeData)
    ensures d.name == c.text && d.rect == RectString(c.rect, fmt) && d.typeName.None?
  {
    NodeData(c.text, None, RectString(c.rect, fmt))
  }

  /** `SetData`: one entry per node and one per comment, in the given order. */
  function SetData(nodes: seq<Node>, comments: seq<C.Comment>, fmt: real -> string): (r: Saved)
    ensures |r.nodes| == |nodes| && |r.comments| == |comments|
    ensures forall k :: 0 <= k < |nodes| ==> r.nodes[k] == NodeEntry(nodes[k], fmt)
    ensures forall k :: 0 <= k < |comments| ==> r.comments[k] == CommentEntry(comments[k], fmt)
  {
    Saved(seq(|nodes|, k requires 0 <= k < |nodes| => NodeEntry(nodes[k], fmt)),
          seq(|comments|, k requires 0 <= k < |comments| => CommentEntry(comments[k], fmt)))
  }

  // ---------------------------------------------------------------- GetRect

  /** The rect used when the text cannot be read. */
  const Fallback := Rect(0.0, 0.0, 200.0, 50.0)

  /**
   * One field of `GetRect`: start just after the first `marker` (at
   * `|marker| - 1` when it is missing, since IndexOf gives -1), end at the
   * first `delim` at or after the start (`fromStart`) or in the whole text.
   * None where IndexOf or Substring would throw.
   */
  function Field(s: string, marker: string, delim: string, fromStart: bool): Option<string>
    requires |marker| > 0
  {
    var i := IndexOf(s, marker) + |marker|;
    if i < 0 || i > |s| then None
    else
      var j := if fromStart then IndexOfFrom(s, delim, i) else IndexOf(s, delim);
      Substring(s, i, j - i)
  }

  /**
   * A field read after a marker that is present is the text between that
   * marker and the next delimiter, and holds no delimiter itself.
   */
  lemma FieldBetween(s: string, marker: string, delim: string)
    requires |marker| > 0 && |delim| > 0
    ensures var r := Field(s, marker, delim, true);
      r.Some? ==> (!IsSubstring(delim, r.value)
        && (IndexOf(s, marker) >= 0 ==> OccursAt(s, marker + r.value + delim, IndexOf(s, marker))))
  {
    var r := Field(s, marker, delim, true);
    if r.Some? {
      var i := IndexOf(s, marker) + |marker|;
      var j := IndexOfFrom(s, delim, i);
      FieldBounded(s, delim, i, j);
      if IndexOf(s, marker) >= 0 {
        var m := IndexOf(s, marker);
        SliceSplit(s, m, i, j, j + |delim|);
      }
    }
  }

  lemma SliceSplit(s: string, a: nat, b: nat, c: nat, d: nat)
    requires a <= b <= c <= d <= |s|
    ensures s[a..d] == s[a..b] + s[b..c] + s[c..d]
  {
  }

  /** Between a start and the first later delimiter there is no delimiter. */
  lemma FieldBounded(s: string, delim: string, i: nat, j: int)
    requires i <= |s| && j == IndexOfFrom(s, delim, i) && i <= j && |delim| > 0
    ensures OccursAt(s, delim, j)
    ensures !IsSubstring(delim, s[i..j])
  {
    if IsSubstring(delim, s[i..j]) {
      var k :| 0 <= k <= j - i - |delim| && OccursAt(s[i..j], delim, k);
      assert s[i..j][k..k + |delim|] == s[i + k..i + k + |delim|];
      assert OccursAt(s, delim, i + k);
      assert false;
    }
  }

  /** The four fields as `GetRect` reads them; None on any exception. */
  function ParseRect(s: string, parse: string -> Option<real>): Option<Rect> {
    var fx := Field(s, "x:", ",", true);
    var fy := Field(s, "y:", ",", true);
    var fw := Field(s, "width:", ",", true);
    var fh := Field(s, "height:", ")", false);
    if fx.None? || fy.None? || fw.None? || fh.None? then None
    else
      var x, y, w, h := parse(fx.value), parse(fy.value), parse(fw.value), parse(fh.value);
      if x.None? || y.None? || w.None? || h.None? then None
      else Some(Rect(x.value, y.value, w.value, h.value))
  }

  /** `GetRect`: the parsed rect, or the fallback (0, 0, 200, 50) when reading fails. */
  function GetRect(d: NodeData, parse: string -> Option<real>): (r: Rect)
    ensures ParseRect(d.rect, parse).None? ==> r == Fallback
    ensures ParseRect(d.rect, parse).Some? ==> r == ParseRect(d.rect, parse).value
  {
    ParseRect(d.rect, parse).GetOr(Fallback)
  }

  /** The empty text (a default entry) reads as the fallback whatever the number parser does. */
  lemma EmptyGivesFallback(parse: string -> Option<real>)
    ensures GetRect(EmptyData(), parse) == Fallback
  {
    assert IndexOf("", "x:") == -1;
  }

  /** A text with no closing parenthesis always reads as the fallback. */
  lemma NoCloseGivesFallback(s: string, parse: string -> Option<real>)
    requires ')' !in s
    ensures GetRect(NodeData("", None, s), parse) == Fallback
  {
    var j := IndexOf(s, ")");
    if j >= 0 {
      assert s[j..j + 1] == ")";
    }
  }

  /** A number's text with none of the characters the parser looks for. */
  predicate PlainNumber(t: string) {
    ',' !in t && ')' !in t && ':' !in t
  }

  /** The character layout of `RectString` around the four number texts. */
  ghost predicate Laid(s: string, xs: string, ys: string, ws: string, hs: string) {
    var p1 := 3 + |xs|;
    var p2 := p1 + 4 + |ys|;
    var p3 := p2 + 8 + |ws|;
    var p4 := p3 + 9 + |hs|;
    && |s| == p4 + 1
    && s[..3] == "(x:" && s[3..p1] == xs && s[p1..p1 + 4] == ", y:" && s[p1 + 4..p2] == ys
    && s[p2..p2 + 8] == ", width:" && s[p2 + 8..p3] == ws && s[p3..p3 + 9] == ", height:"
    && s[p3 + 9..p4] == hs && s[p4] == ')'
  }

  lemma RectStringLaid(r: Rect, fmt: real -> string)
    ensures Laid(RectString(r, fmt), fmt(r.x), fmt(r.y), fmt(r.w), fmt(r.h))
  {
  }

  lemma NoCharIn(s: string, a: nat, b: nat, t: string, c: char)
    requires a <= b <= |s| && s[a..b] == t && c !in t
    ensures forall j :: a <= j < b ==> s[j] != c
  {
    forall j | a <= j < b
      ensures s[j] != c
    {
      assert s[j] == t[j - a];
    }
  }

  lemma CharAt(s: string, a: nat, t: string, k: nat)
    requires a + |t| <= |s| && s[a..a + |t|] == t && k < |t|
    ensures s[a + k] == t[k]
  {
    assert s[a..a + |t|][k] == s[a + k];
  }

  /** In a segment free of `c` followed by `c`, searching from the segment start finds that `c`. */
  lemma FirstCharAfter(s: string, c: char, a: nat, b: nat, t: string)
    requires a <= b < |s| && s[a..b] == t && c !in t && s[b] == c
    ensures IndexOfFrom(s, [c], a) == b
  {
    forall j | a <= j < b
      ensures !OccursAt(s, [c], j)
    {
      assert s[j] == t[j - a];
    }
    assert s[b..b + 1] == [c];
    assert OccursAt(s, [c], b);
  }

  /**
   * A marker ending in ':' is first found at `k` when no earlier colon
   * follows the marker's last letter.
   */
  lemma FirstMarker(s: string, pat: string, k: nat)
    requires |pat| >= 2 && pat[|pat| - 1] == ':' && OccursAt(s, pat, k)
    requires forall j :: 1 <= j < k + |pat| - 1 && j < |s| && s[j] == ':' ==> s[j - 1] != pat[|pat| - 2]
    requires s[0] != ':'
    ensures IndexOf(s, pat) == k
  {
    forall j | 0 <= j < k
      ensures !OccursAt(s, pat, j)
    {
      if OccursAt(s, pat, j) {
        CharAt(s, j, pat, |pat| - 1);
        CharAt(s, j, pat, |pat| - 2);
      }
    }
  }

  /** Where the colons of a laid-out rect text are, and which letter precedes each. */
  lemma LaidColons(s: string, xs: string, ys: string, ws: string, hs: string)
    requires Laid(s, xs, ys, ws, hs)
    requires PlainNumber(xs) && PlainNumber(ys) && PlainNumber(ws) && PlainNumber(hs)
    ensures s[0] == '('
    ensures var p1 := 3 + |xs|;
      var p2 := p1 + 4 + |ys|;
      var p3 := p2 + 8 + |ws|;
      forall j :: 0 <= j < |s| && s[j] == ':' ==>
        (j == 2 && s[1] == 'x') || (j == p1 + 3 && s[j - 1] == 'y')
        || (j == p2 + 7 && s[j - 1] == 'h') || (j == p3 + 8 && s[j - 1] == 't')
  {
    var p1 := 3 + |xs|;
    var p2 := p1 + 4 + |ys|;
    var p3 := p2 + 8 + |ws|;
    var p4 := p3 + 9 + |hs|;
    CharAt(s, 0, "(x:", 0);
    CharAt(s, 0, "(x:", 1);
    CharAt(s, p1, ", y:", 2);
    CharAt(s, p2, ", width:", 6);
    CharAt(s, p3, ", height:", 7);
    assert s[..2] == s[..3][..2];
    assert s[p1..p1 + 3] == s[p1..p1 + 4][..3];
    assert s[p2..p2 + 7] == s[p2..p2 + 8][..7];
    assert s[p3..p3 + 8] == s[p3..p3 + 9][..8];
    NoCharIn(s, 0, 2, "(x", ':');
    NoCharIn(s, 3, p1, xs, ':');
    NoCharIn(s, p1, p1 + 3, ", y", ':');
    NoCharIn(s, p1 + 4, p2, ys, ':');
    NoCharIn(s, p2, p2 + 7, ", width", ':');
    NoCharIn(s, p2 + 8, p3, ws, ':');
    NoCharIn(s, p3, p3 + 8, ", height", ':');
    NoCharIn(s, p3 + 9, p4, hs, ':');
  }

  lemma LaidFieldX(s: string, xs: string, ys: string, ws: string, hs: string)
    requires Laid(s, xs, ys, ws, hs)
    requires PlainNumber(xs) && PlainNumber(ys) && PlainNumber(ws) && PlainNumber(hs)
    ensures Field(s, "x:", ",", true) == Some(xs)
  {
    var p1 := 3 + |xs|;
    LaidColons(s, xs, ys, ws, hs);
    assert s[1..3] == s[..3][1..3];
    FirstMarker(s, "x:", 1);
    CharAt(s, p1, ", y:", 0);
    FirstCharAfter(s, ',', 3, p1, xs);
    assert Field(s, "x:", ",", true) == Substring(s, 3, p1 - 3);
  }

  lemma LaidFieldY(s: string, xs: string, ys: string, ws: string, hs: string)
    requires Laid(s, xs, ys, ws, hs)
    requires PlainNumber(xs) && PlainNumber(ys) && PlainNumber(ws) && PlainNumber(hs)
    ensures Field(s, "y:", ",", true) == Some(ys)
  {
    var p1 := 3 + |xs|;
    var p2 := p1 + 4 + |ys|;
    LaidColons(s, xs, ys, ws, hs);
    assert s[p1 + 2..p1 + 4] == s[p1..p1 + 4][2..4];
    FirstMarker(s, "y:", p1 + 2);
    CharAt(s, p2, ", width:", 0);
    FirstCharAfter(s, ',', p1 + 4, p2, ys);
    assert Field(s, "y:", ",", true) == Substring(s, p1 + 4, p2 - (p1 + 4));
  }

  lemma LaidFieldW(s: string, xs: string, ys: string, ws: string, hs: string)
    requires Laid(s, xs, ys, ws, hs)
    requires PlainNumber(xs) && PlainNumber(ys) && PlainNumber(ws) && PlainNumber(hs)
    ensures Field(s, "width:", ",", true) == Some(ws)
  {
    var p1 := 3 + |xs|;
    var p2 := p1 + 4 + |ys|;
    var p3 := p2 + 8 + |ws|;
    LaidColons(s, xs, ys, ws, hs);
    assert s[p2 + 2..p2 + 8] == s[p2..p2 + 8][2..8];
    FirstMarker(s, "width:", p2 + 2);
    CharAt(s, p3, ", height:", 0);
    FirstCharAfter(s, ',', p2 + 8, p3, ws);
    assert Field(s, "width:", ",", true) == Substring(s, p2 + 8, p3 - (p2 + 8));
  }

  lemma LaidFieldH(s: string, xs: string, ys: string, ws: string, hs: string)
    requires Laid(s, xs, ys, ws, hs)
    requires PlainNumber(xs) && PlainNumber(ys) && PlainNumber(ws) && PlainNumber(hs)
    ensures Field(s, "height:", ")", false) == Some(hs)
  {
    var p1 := 3 + |xs|;
    var p2 := p1 + 4 + |ys|;
    var p3 := p2 + 8 + |ws|;
    var p4 := p3 + 9 + |hs|;
    LaidColons(s, xs, ys, ws, hs);
    assert s[p3 + 2..p3 + 9] == s[p3..p3 + 9][2..9];
    FirstMarker(s, "height:", p3 + 2);
    NoCharIn(s, 0, 3, "(x:", ')');
    NoCharIn(s, 3, p1, xs, ')');
    NoCharIn(s, p1, p1 + 4, ", y:", ')');
    NoCharIn(s, p1 + 4, p2, ys, ')');
    NoCharIn(s, p2, p2 + 8, ", width:", ')');
    NoCharIn(s, p2 + 8, p3, ws, ')');
    NoCharIn(s, p3, p3 + 9, ", height:", ')');
    NoCharIn(s, p3 + 9, p4, hs, ')');
    forall j | 0 <= j < p4
      ensures s[j] != ')'
    {
      if j < 3 {
      } else if j < p1 {
      } else if j < p1 + 4 {
      } else if j < p2 {
      } else if j < p2 + 8 {
      } else if j < p3 {
      } else if j < p3 + 9 {
      }
    }
    FirstCharAfter(s, ')', 0, p4, s[..p4]);
    assert Field(s, "height:", ")", false) == Substring(s, p3 + 9, p4 - (p3 + 9));
  }

  /** Each coordinate of `r` prints without the characters `GetRect` splits on. */
  predicate PrintsPlain(r: Rect, fmt: real -> string) {
    PlainNumber(fmt(r.x)) && PlainNumber(fmt(r.y)) && PlainNumber(fmt(r.w)) && PlainNumber(fmt(r.h))
  }

  /** Parsing gives back each printed coordinate of `r` exactly (no digits lost to rounding). */
  predicate Exact(r: Rect, fmt: real -> string, parse: string -> Option<real>) {
    parse(fmt(r.x)) == Some(r.x) && parse(fmt(r.y)) == Some(r.y)
    && parse(fmt(r.w)) == Some(r.w) && parse(fmt(r.h)) == Some(r.h)
  }

  /**
   * The rect made of what `parse` reads from each printed coordinate, or
   * the fallback when one of them does not parse.
   */
  function Reparsed(r: Rect, fmt: real -> string, parse: string -> Option<real>): Rect {
    var px, py, pw, ph := parse(fmt(r.x)), parse(fmt(r.y)), parse(fmt(r.w)), parse(fmt(r.h));
    if px.Some? && py.Some? && pw.Some? && ph.Some?
    then Rect(px.value, py.value, pw.value, ph.value) else Fallback
  }

  /**
   * Saving a rect and reading it back gives the numbers `parse` makes of
   * the formatted coordinates; when parsing undoes formatting, the rect itself.
   */
  lemma GetRectRoundTrip(r: Rect, fmt: real -> string, parse: string -> Option<real>)
    requires PrintsPlain(r, fmt)
    ensures GetRect(NodeData("", None, RectString(r, fmt)), parse) == Reparsed(r, fmt, parse)
    ensures Exact(r, fmt, parse) ==> GetRect(NodeData("", None, RectString(r, fmt)), parse) == r
  {
    var s := RectString(r, fmt);
    var xs, ys, ws, hs := fmt(r.x), fmt(r.y), fmt(r.w), fmt(r.h);
    RectStringLaid(r, fmt);
    LaidFieldX(s, xs, ys, ws, hs);
    LaidFieldY(s, xs, ys, ws, hs);
    LaidFieldW(s, xs, ys, ws, hs);
    LaidFieldH(s, xs, ys, ws, hs);
  }

  /**
   * What `SaveNodes` writes, read back entry by entry: each rect comes back
   * as its reparsed coordinates, and unchanged where they read back exactly.
   */
  lemma SaveThenReadRects(nodes: seq<Node>, comments: seq<C.Comment>, fmt: real -> string, parse: string -> Option<real>)
    ensures forall k :: 0 <= k < |nodes| && PrintsPlain(nodes[k].rect, fmt) ==>
      GetRect(SetData(nodes, comments, fmt).nodes[k], parse) == Reparsed(nodes[k].rect, fmt, parse)
    ensures forall k :: 0 <= k < |comments| && PrintsPlain(comments[k].rect, fmt) ==>
      GetRect(SetData(nodes, comments, fmt).comments[k], parse) == Reparsed(comments[k].rect, fmt, parse)
    ensures forall k :: 0 <= k < |nodes| && PrintsPlain(nodes[k].rect, fmt) && Exact(nodes[k].rect, fmt, parse) ==>
      GetRect(SetData(nodes, comments, fmt).nodes[k], parse) == nodes[k].rect
  {
    var d := SetData(nodes, comments, fmt);
    forall k | 0 <= k < |nodes| && PrintsPlain(nodes[k].rect, fmt)
      ensures GetRect(d.nodes[k], parse) == Reparsed(nodes[k].rect, fmt, parse)
      ensures Exact(nodes[k].rect, fmt, parse) ==> GetRect(d.nodes[k], parse) == nodes[k].rect
    {
      GetRectRoundTrip(nodes[k].rect, fmt, parse);
      assert GetRect(d.nodes[k], parse) == GetRect(NodeData("", None, RectString(nodes[k].rect, fmt)), parse);
    }
    forall k | 0 <= k < |comments| && PrintsPlain(comments[k].rect, fmt)
      ensures GetRect(d.comments[k], parse) == Reparsed(comments[k].rect, fmt, parse)
    {
      GetRectRoundTrip(comments[k].rect, fmt, parse);
      assert GetRect(d.comments[k], parse) == GetRect(NodeData("", None, RectString(comments[k].rect, fmt)), parse);
    }
  }
}
