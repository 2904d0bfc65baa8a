/** GetTextSize, DrawTextSmiley and Smileys_DrawText of utils/mir_smileys.cpp: measuring the pieces of a
    text and placing them in a rectangle, left to right or right to left. */
module SmileyLayout {
  import opened Arithmetic
  import opened Sequences
  import opened SmileyText

  datatype Rect = Rect(left: int, top: int, right: int, bottom: int)
  {
    function Width(): int { right - left }
  }

  /** What GDI answers: the width of `len` characters from `start`, the size of the whole string, and the
      height of the letter that DrawTextSmiley measures. */
  datatype Gdi = Gdi(textWidth: (nat, nat) -> nat, wholeWidth: nat, wholeHeight: nat, charHeight: nat)

  /** The format flags that matter here. */
  datatype Format = Format(rtl: bool, resize: bool, alignRight: bool)

  /** The drawing calls, in the order they are made. */
  datatype Cmd =
    | DrawText(start: nat, len: nat, rect: Rect)
    | DrawIcon(icon: nat, x: int, y: int, w: nat, h: nat)
    | Ellipsis(rect: Rect)

  // ----- Sizes -----

  /** A number of pixels times the factor row / height, cut to whole pixels. */
  function Scaled(pixels: nat, p: Piece, row: nat, resize: bool): (s: nat)
    requires p.Smiley?
    ensures !resize || p.height <= row ==> s == pixels
  {
    if resize && p.height > row then row * pixels / p.height else pixels
  }

  function ScaledWidth(p: Piece, row: nat, resize: bool): nat
    requires p.Smiley?
  {
    Scaled(p.width, p, row, resize)
  }

  function ScaledHeight(p: Piece, row: nat, resize: bool): nat
    requires p.Smiley?
  {
    Scaled(p.height, p, row, resize)
  }

  lemma {:induction false} ScaledHeightFits(p: Piece, row: nat, resize: bool)
    requires p.Smiley?
    ensures ScaledHeight(p, row, resize) <= row <==> resize || p.height <= row
  {}

  /** The width a smiley has in a row: its own, or, resized, the largest that keeps the proportions when the
      smiley is made as high as the row. */
  ghost predicate ProperWidth(p: Piece, row: nat, resize: bool, w: nat)
    requires p.Smiley?
  {
    if resize && p.height > row then w * p.height <= row * p.width < (w + 1) * p.height else w == p.width
  }

  ghost predicate ProperHeight(p: Piece, row: nat, resize: bool, h: nat)
    requires p.Smiley?
  {
    h == if resize && p.height > row then row else p.height
  }

  lemma {:induction false} ScaledExactly(p: Piece, row: nat, resize: bool)
    requires p.Smiley?
    ensures ProperWidth(p, row, resize, ScaledWidth(p, row, resize))
    ensures ProperHeight(p, row, resize, ScaledHeight(p, row, resize))
  {
    if resize && p.height > row {
      var x, h := row * p.width, p.height;
      assert x == x / h * h + x % h;
      assert (x / h + 1) * h == x / h * h + h;
      DivModUnique(row * h, row, 0, h);
    }
  }

  /** There is only one such width. */
  lemma {:induction false} ProperWidthUnique(p: Piece, row: nat, resize: bool, v: nat, w: nat)
    requires p.Smiley? && ProperWidth(p, row, resize, v) && ProperWidth(p, row, resize, w)
    ensures v == w
  {
    if v < w {
      MulMonotone(v + 1, w, p.height);
    } else if w < v {
      MulMonotone(w + 1, v, p.height);
    }
  }

  function PieceWidth(g: Gdi, p: Piece, row: nat, resize: bool): nat {
    if p.Text? then g.textWidth(p.startPos, p.len) else ScaledWidth(p, row, resize)
  }

  function TotalWidth(g: Gdi, ps: seq<Piece>, row: nat, resize: bool): nat {
    if ps == [] then 0 else TotalWidth(g, ps[..|ps| - 1], row, resize) + PieceWidth(g, ps[|ps| - 1], row, resize)
  }

  /** The height both functions work with, from the text height each of them measures. */
  function RowHeight(textHeight: nat, maxHeight: nat, resize: bool): nat {
    if resize then textHeight else Max(textHeight, maxHeight)
  }

  /** The body of the loop of GetTextSize. */
  method MeasurePiece(piece: Piece, g: Gdi, f: Format, cy: nat) returns (w: nat)
    ensures w == PieceWidth(g, piece, cy, f.resize)
  {
    if piece.Text? {
      w := g.textWidth(piece.startPos, piece.len);
    } else if f.resize && piece.height > cy {
      w := cy * piece.width / piece.height;
    } else {
      w := piece.width;
    }
  }

  /** The height is that of the text when smileys are resized to it, and otherwise the larger one. */
  lemma {:induction false} RowHeightExactly(textHeight: nat, maxHeight: nat, resize: bool)
    ensures var row := RowHeight(textHeight, maxHeight, resize);
            if resize then row == textHeight
            else row >= textHeight && row >= maxHeight && (row == textHeight || row == maxHeight)
  {}

  /** w is the width of a piece in a row. */
  ghost predicate WidthOf(g: Gdi, p: Piece, row: nat, resize: bool, w: nat) {
    if p.Text? then w == g.textWidth(p.startPos, p.len) else ProperWidth(p, row, resize, w)
  }

  /** The widths of all pieces. */
  ghost predicate WidthsOf(g: Gdi, ps: seq<Piece>, row: nat, resize: bool, ws: seq<nat>) {
    |ws| == |ps| && forall k :: 0 <= k < |ps| ==> WidthOf(g, ps[k], row, resize, ws[k])
  }

  lemma {:induction false} TotalWidthExactly(g: Gdi, ps: seq<Piece>, row: nat, resize: bool) returns (ws: seq<nat>)
    ensures WidthsOf(g, ps, row, resize, ws) && TotalWidth(g, ps, row, resize) == Sum(ws)
    decreases |ps|
  {
    if ps == [] {
      ws := [];
    } else {
      var init, last := ps[..|ps| - 1], ps[|ps| - 1];
      var vs := TotalWidthExactly(g, init, row, resize);
      ws := vs + [PieceWidth(g, last, row, resize)];
      assert ws[..|ps| - 1] == vs;
      if last.Smiley? {
        ScaledExactly(last, row, resize);
      }
    }
  }

  method GetTextSize(hasText: bool, plText: Option<seq<Piece>>, g: Gdi, f: Format, maxHeight: nat)
    returns (cx: nat, cy: nat, ghost ws: seq<nat>)
    ensures !hasText ==> cx == cy == 0
    ensures hasText && plText.None? ==> cx == g.wholeWidth && cy == g.wholeHeight
    ensures hasText && plText.Some? ==>
              && cy == RowHeight(g.wholeHeight, maxHeight, f.resize)
              && cx == TotalWidth(g, plText.value, cy, f.resize) == Sum(ws)
              && WidthsOf(g, plText.value, cy, f.resize, ws)
    ensures hasText && plText.Some? ==>
              if f.resize then cy == g.wholeHeight
              else cy >= g.wholeHeight && cy >= maxHeight && (cy == g.wholeHeight || cy == maxHeight)
  {
    if !hasText {
      return 0, 0, [];
    }
    cy := g.wholeHeight;
    if plText.None? {
      return g.wholeWidth, cy, [];
    }
    if !f.resize {
      cy := Max(cy, maxHeight);
    }
    var ps := plText.value;
    cx := 0;
    for i := 0 to |ps|
      invariant cx == TotalWidth(g, ps[..i], cy, f.resize)
    {
      assert ps[..i + 1][..i] == ps[..i];
      var w := MeasurePiece(ps[i], g, f, cy);
      cx := cx + w;
    }
    assert ps[..|ps|] == ps;
    ws := TotalWidthExactly(g, ps, cy, f.resize);
  }

  // ----- Drawing one piece after another -----

  /** What does not change while the pieces of one line are drawn. */
  datatype Line = Line(g: Gdi, free: Rect, rtl: bool, resize: bool, row: nat, text: nat)

  datatype Run = Run(cmds: seq<Cmd>, pos: nat, len: int, visited: nat)

  /** What is left of the rectangle behind the pixels already used, moved down by `drop`. */
  function Rest(l: Line, pos: int, drop: int): Rect {
    var r := l.free.(top := l.free.top + drop);
    if l.rtl then r.(right := r.right - pos) else r.(left := r.left + pos)
  }

  /** With `need` pixels to be placed in it, a right-to-left rectangle is cut off on the left. */
  function Place(l: Line, r: Rect, need: nat): Rect {
    if l.rtl then r.(left := if r.left < r.right - need then r.right - need else r.left) else r
  }

  /** The loop body: the calls made, the pixels advanced and the characters left. */
  function DrawPiece(l: Line, p: Piece, pos: nat, len: int): (seq<Cmd>, nat, int)
    requires len > 0
  {
    var textDrop := (l.row - l.text) / 2;
    match p
    case Text(n, start) =>
      var shown := if len < n then len else n;
      var w := l.g.textWidth(start, shown);
      ([DrawText(start, shown, Place(l, Rest(l, pos, textDrop), w))], w, len - n)
    case Smiley(n, icon, _, _) =>
      if len < n then ([], 0, 0)
      else
        var w, h := ScaledWidth(p, l.row, l.resize), ScaledHeight(p, l.row, l.resize);
        var r := Place(l, Rest(l, pos, 0), w);
        var cmd := if w <= r.Width() then DrawIcon(icon, r.left, r.top + (l.row - h) / 2, w, h)
                   else Ellipsis(r.(top := r.top + textDrop));
        ([cmd], w, len - n)
  }

  /** The loop, over the pieces in the order in which they are visited. */
  function Draw(l: Line, ps: seq<Piece>, pos: nat, len: int): Run {
    if ps == [] || pos >= l.free.Width() || len <= 0 then Run([], pos, len, 0)
    else
      var (cmds, w, rest) := DrawPiece(l, ps[0], pos, len);
      var r := Draw(l, ps[1..], pos + w, rest);
      Run(cmds + r.cmds, r.pos, r.len, 1 + r.visited)
  }

  function VisitOrder(ps: seq<Piece>, rtl: bool): seq<Piece> { if rtl then Reversed(ps) else ps }

  function LineOf(g: Gdi, free: Rect, f: Format, maxHeight: nat): Line {
    Line(g, free, f.rtl, f.resize, RowHeight(g.charHeight, maxHeight, f.resize), g.charHeight)
  }

  /** A line is as high as the letter that DrawTextSmiley measures, and not lower than the highest smiley unless
      smileys are resized. */
  lemma {:induction false} LineExactly(g: Gdi, free: Rect, f: Format, maxHeight: nat)
    ensures var l := LineOf(g, free, f, maxHeight);
            && l.g == g && l.free == free && l.rtl == f.rtl && l.resize == f.resize && l.text == g.charHeight
            && if f.resize then l.row == g.charHeight
               else l.row >= g.charHeight && l.row >= maxHeight && (l.row == g.charHeight || l.row == maxHeight)
  {}

  /** Everything DrawTextSmiley does. */
  function DrawAll(g: Gdi, free: Rect, len: int, ps: seq<Piece>, f: Format, maxHeight: nat): Run {
    if free.Width() <= 0 then Run([Ellipsis(free)], 0, len, 0)
    else Draw(LineOf(g, free, f, maxHeight), VisitOrder(ps, f.rtl), 0, len)
  }
}
