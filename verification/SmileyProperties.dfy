/** What the measuring and the drawing of a line of smileys promise each other. */
module SmileyProperties {
  import opened Arithmetic
  import opened Sequences
  import opened SmileyText
  import opened SmileyLayout
  import opened SmileyRun

  // ----- Measure and draw agree -----

  ghost predicate Substantial(ps: seq<Piece>) {
    forall k :: 0 <= k < |ps| ==> ps[k].len > 0
  }

  /** The call shows this piece whole: all its characters, in a rectangle that is wide enough for them, or its
      icon at the size it was measured with. */
  ghost predicate Shows(l: Line, c: Cmd, p: Piece) {
    match p
    case Text(n, start) =>
      c.DrawText? && c.start == start && c.len == n && c.rect.Width() >= l.g.textWidth(start, n)
    case Smiley(_, icon, _, _) =>
      c.DrawIcon? && c.icon == icon && c.w == ScaledWidth(p, l.row, l.resize) && c.h == ScaledHeight(p, l.row, l.resize)
  }

  ghost predicate AllShown(l: Line, cmds: seq<Cmd>, ps: seq<Piece>) {
    |cmds| == |ps| && forall k :: 0 <= k < |ps| ==> Shows(l, cmds[k], ps[k])
  }

  lemma {:induction false} ShowsFirst(l: Line, c: seq<Cmd>, cmds: seq<Cmd>, ps: seq<Piece>)
    requires ps != [] && |c| == 1 && Shows(l, c[0], ps[0]) && AllShown(l, cmds, ps[1..])
    ensures AllShown(l, c + cmds, ps)
  {}

  lemma {:induction false} PieceShown(l: Line, p: Piece, pos: nat, len: int)
    requires len >= p.len && len > 0
    ensures var (c, w, rest) := DrawPiece(l, p, pos, len);
            && w == PieceWidth(l.g, p, l.row, l.resize) && rest == len - p.len && |c| == 1
            && (pos + w <= l.free.Width() ==> Shows(l, c[0], p))
  {}

  /** The line is wide enough, and the last piece has some width. */
  ghost predicate Roomy(l: Line, ps: seq<Piece>, pos: nat) {
    && pos + Visited(l, ps) <= l.free.Width()
    && (ps != [] ==> PieceWidth(l.g, ps[|ps| - 1], l.row, l.resize) > 0)
  }

  lemma {:induction false} RoomBehindFirst(l: Line, ps: seq<Piece>, pos: nat)
    requires ps != [] && Roomy(l, ps, pos)
    ensures var w := PieceWidth(l.g, ps[0], l.row, l.resize);
            && pos < l.free.Width() && pos + w <= l.free.Width()
            && Roomy(l, ps[1..], pos + w)
            && Visited(l, ps) == w + Visited(l, ps[1..])
  {
    WidthFromFront(l.g, ps, l.row, l.resize);
  }

  ghost predicate ShownFrom(l: Line, ps: seq<Piece>, pos: nat, len: int) {
    var r := Draw(l, ps, pos, len);
    && r.visited == |ps| && AllShown(l, r.cmds, ps)
    && r.pos == pos + Visited(l, ps) && r.len == len - SumLen(ps)
  }

  lemma {:induction false} ShownWithFirst(l: Line, ps: seq<Piece>, pos: nat, len: int)
    requires ps != [] && Roomy(l, ps, pos) && len > 0 && len >= ps[0].len
    requires SumLen(ps) == ps[0].len + SumLen(ps[1..])
    requires ShownFrom(l, ps[1..], pos + PieceWidth(l.g, ps[0], l.row, l.resize), len - ps[0].len)
    ensures ShownFrom(l, ps, pos, len)
  {
    RoomBehindFirst(l, ps, pos);
    PieceShown(l, ps[0], pos, len);
    var (c, w, rest) := DrawPiece(l, ps[0], pos, len);
    ShowsFirst(l, c, Draw(l, ps[1..], pos + w, rest).cmds, ps);
  }

  lemma {:induction false} EverythingShown(l: Line, ps: seq<Piece>, pos: nat, len: int)
    requires Substantial(ps) && len >= SumLen(ps) && Roomy(l, ps, pos)
    ensures ShownFrom(l, ps, pos, len)
    decreases |ps|
  {
    if ps == [] {
    } else {
      LenFromFront(ps);
      RoomBehindFirst(l, ps, pos);
      EverythingShown(l, ps[1..], pos + PieceWidth(l.g, ps[0], l.row, l.resize), len - ps[0].len);
      ShownWithFirst(l, ps, pos, len);
    }
  }

  /** With enough characters to spend, the loop reaches every piece exactly if those before the last leave
      some room. */
  lemma {:induction false} EverythingVisitedExactly(l: Line, ps: seq<Piece>, pos: nat, len: int)
    requires Substantial(ps) && len >= SumLen(ps)
    ensures Draw(l, ps, pos, len).visited == |ps|
            <==> ps == [] || pos + Visited(l, ps[..|ps| - 1]) < l.free.Width()
  {
    if ps != [] {
      VisitedExactly(l, ps, pos, len, |ps| - 1);
    }
  }

  /** GetTextSize and DrawTextSmiley use one row height for widths: always, unless smileys are resized and
      the height of the whole text differs from that of a letter. */
  lemma {:induction false} SameWidths(g: Gdi, free: Rect, ps: seq<Piece>, f: Format, maxHeight: nat)
    requires f.resize ==> g.wholeHeight == g.charHeight
    ensures TotalWidth(g, ps, RowHeight(g.wholeHeight, maxHeight, f.resize), f.resize)
            == Visited(LineOf(g, free, f, maxHeight), VisitOrder(ps, f.rtl))
  {
    var l := LineOf(g, free, f, maxHeight);
    ReversedSums(g, ps, l.row, f.resize);
    if !f.resize {
      RowIrrelevant(g, ps, RowHeight(g.wholeHeight, maxHeight, f.resize), l.row);
    }
  }

  /** The piece that is drawn last has some width. */
  ghost predicate EndsWide(l: Line, ps: seq<Piece>) {
    ps != [] ==> PieceWidth(l.g, VisitOrder(ps, l.rtl)[|ps| - 1], l.row, l.resize) > 0
  }

  /** In a rectangle at least as wide as the measured text, DrawTextSmiley visits every piece, shows each
      one whole, draws no ellipsis and ends at the measured width, in both reading directions. */
  lemma {:induction false} MeasureAndDrawAgree(g: Gdi, free: Rect, len: int, ps: seq<Piece>, f: Format, maxHeight: nat)
    requires f.resize ==> g.wholeHeight == g.charHeight
    requires Substantial(ps) && len >= SumLen(ps) && EndsWide(LineOf(g, free, f, maxHeight), ps)
    requires free.Width() > 0
    requires TotalWidth(g, ps, RowHeight(g.wholeHeight, maxHeight, f.resize), f.resize) <= free.Width()
    ensures var r, l := DrawAll(g, free, len, ps, f, maxHeight), LineOf(g, free, f, maxHeight);
            && r.visited == |ps| && AllShown(l, r.cmds, VisitOrder(ps, f.rtl))
            && r.pos == TotalWidth(g, ps, RowHeight(g.wholeHeight, maxHeight, f.resize), f.resize)
            && r.len == len - SumLen(ps)
  {
    var l, vs := LineOf(g, free, f, maxHeight), VisitOrder(ps, f.rtl);
    SameWidths(g, free, ps, f, maxHeight);
    ReversedSums(g, ps, l.row, f.resize);
    if f.rtl {
      forall k | 0 <= k < |ps|
        ensures vs[k].len > 0
      {
        ReversedAt(ps, k);
      }
    }
    EverythingShown(l, vs, 0, len);
  }

  // ----- Right to left mirrors left to right -----

  /** The pixels of the line that a call takes up, from left to right. */
  function Span(l: Line, c: Cmd): (int, int) {
    match c
    case DrawText(start, n, r) => (r.left, Min(r.right, r.left + l.g.textWidth(start, n)))
    case DrawIcon(_, x, _, w, _) => (x, x + w)
    case Ellipsis(r) => (r.left, r.right)
  }

  function Flip(free: Rect, s: (int, int)): (int, int) {
    (free.left + free.right - s.1, free.left + free.right - s.0)
  }

  /** The same call at the mirrored place. */
  ghost predicate Mirrored(l: Line, c: Cmd, d: Cmd) {
    && Span(l, c) == Flip(l.free, Span(l, d))
    && match c
       case DrawText(start, n, r) =>
         d.DrawText? && d.start == start && d.len == n && d.rect.top == r.top && d.rect.bottom == r.bottom
       case DrawIcon(icon, _, y, w, h) => d.DrawIcon? && d.icon == icon && d.y == y && d.w == w && d.h == h
       case Ellipsis(r) => d.Ellipsis? && d.rect.top == r.top && d.rect.bottom == r.bottom
  }

  lemma {:induction false} PieceMirrors(l: Line, p: Piece, pos: nat, len: int)
    requires l.rtl && len > 0 && pos < l.free.Width()
    ensures var (c, w, k), (c', w', k') := DrawPiece(l, p, pos, len), DrawPiece(l.(rtl := false), p, pos, len);
            && w == w' && k == k' && |c| == |c'| <= 1
            && (|c| == 1 ==> Mirrored(l, c[0], c'[0]))
  {}

  ghost predicate AllMirrored(l: Line, r: Run, r': Run) {
    && r.pos == r'.pos && r.len == r'.len && r.visited == r'.visited && |r.cmds| == |r'.cmds|
    && forall k :: 0 <= k < |r.cmds| ==> Mirrored(l, r.cmds[k], r'.cmds[k])
  }

  /** Whatever the widths and the budget, the right-to-left run over some pieces is the mirror image, call
      by call, of the left-to-right run over the same pieces in the same order. */
  lemma {:induction false} DrawMirrors(l: Line, ps: seq<Piece>, pos: nat, len: int)
    requires l.rtl
    ensures AllMirrored(l, Draw(l, ps, pos, len), Draw(l.(rtl := false), ps, pos, len))
    decreases |ps|
  {
    if ps == [] || pos >= l.free.Width() || len <= 0 {
    } else {
      PieceMirrors(l, ps[0], pos, len);
      var (_, w, k) := DrawPiece(l, ps[0], pos, len);
      DrawMirrors(l, ps[1..], pos + w, k);
    }
  }

  lemma {:induction false} RightToLeftMirrors(g: Gdi, free: Rect, len: int, ps: seq<Piece>, f: Format, maxHeight: nat)
    requires f.rtl
    ensures AllMirrored(LineOf(g, free, f, maxHeight), DrawAll(g, free, len, ps, f, maxHeight),
                        DrawAll(g, free, len, Reversed(ps), f.(rtl := false), maxHeight))
  {
    if free.Width() > 0 {
      DrawMirrors(LineOf(g, free, f, maxHeight), Reversed(ps), 0, len);
    }
  }

  // ----- Layout safety -----

  /** Within the rectangle, and not over the first `pos` pixels of the line. */
  ghost predicate Inside(l: Line, s: (int, int), pos: int) {
    && s.0 <= s.1
    && if l.rtl then l.free.left <= s.0 && s.1 <= l.free.right - pos
       else l.free.left + pos <= s.0 && s.1 <= l.free.right
  }

  /** The first span comes before the second in reading direction, without overlap. */
  ghost predicate Ahead(l: Line, s: (int, int), t: (int, int)) {
    if l.rtl then t.1 <= s.0 else s.1 <= t.0
  }

  /** Rows of pixels from `y` on, `h` of them, belong to the row of the line. */
  ghost predicate RowHolds(l: Line, y: int, h: nat) { l.free.top <= y && y + h <= l.free.top + l.row }

  /** An icon, or a line of text at the top of its rectangle, stays within the row; text never reaches below
      the rectangle of the line. */
  ghost predicate InRow(l: Line, c: Cmd) {
    match c
    case DrawText(_, _, r) => RowHolds(l, r.top, l.text) && r.bottom == l.free.bottom
    case DrawIcon(_, _, y, _, h) => RowHolds(l, y, h)
    case Ellipsis(r) => RowHolds(l, r.top, l.text) && r.bottom == l.free.bottom
  }

  /** An icon stays within the row exactly if it is resized or was no higher than the row. */
  lemma {:induction false} IconInRowExactly(l: Line, p: Piece, pos: nat, len: int)
    requires p.Smiley? && len >= p.len && len > 0
    requires pos + ScaledWidth(p, l.row, l.resize) <= l.free.Width()
    ensures var c := DrawPiece(l, p, pos, len).0;
            |c| == 1 && c[0].DrawIcon? && (InRow(l, c[0]) <==> l.resize || p.height <= l.row)
  {
    ScaledHeightFits(p, l.row, l.resize);
  }

  lemma {:induction false} PieceSafe(l: Line, p: Piece, pos: nat, len: int)
    requires len > 0 && pos < l.free.Width() && l.text <= l.row
    ensures var (c, w, _) := DrawPiece(l, p, pos, len);
            && |c| <= 1
            && (|c| == 1 ==> Inside(l, Span(l, c[0]), pos))
            && (|c| == 1 && !c[0].Ellipsis? ==>
                  forall s: (int, int) :: Inside(l, s, pos + w) ==> Ahead(l, Span(l, c[0]), s))
            && (|c| == 1 && c[0].Ellipsis? ==> pos + w > l.free.Width())
            && (|c| == 1 && (p.Text? || l.resize || p.height <= l.row) ==> InRow(l, c[0]))
  {
    if p.Smiley? {
      ScaledHeightFits(p, l.row, l.resize);
    }
  }

  ghost predicate SafeRun(l: Line, cmds: seq<Cmd>, pos: int) {
    && (forall k :: 0 <= k < |cmds| ==> Inside(l, Span(l, cmds[k]), pos) && InRow(l, cmds[k]))
    && (forall j, k :: 0 <= j < k < |cmds| ==> Ahead(l, Span(l, cmds[j]), Span(l, cmds[k])))
    && (forall k :: 0 <= k < |cmds| - 1 ==> !cmds[k].Ellipsis?)
  }

  /** Every call stays inside the rectangle and inside the row, no two calls overlap, and an ellipsis is the
      last thing drawn. */
  lemma {:induction false} DrawSafe(l: Line, ps: seq<Piece>, pos: nat, len: int)
    requires l.text <= l.row
    requires forall k :: 0 <= k < |ps| && ps[k].Smiley? ==> l.resize || ps[k].height <= l.row
    ensures SafeRun(l, Draw(l, ps, pos, len).cmds, pos)
    decreases |ps|
  {
    if ps == [] || pos >= l.free.Width() || len <= 0 {
    } else {
      PieceSafe(l, ps[0], pos, len);
      var (c, w, n) := DrawPiece(l, ps[0], pos, len);
      var rest := Draw(l, ps[1..], pos + w, n).cmds;
      DrawSafe(l, ps[1..], pos + w, n);
      SafeJoin(l, c, rest, pos, w);
    }
  }

  lemma {:induction false} SafeJoin(l: Line, c: seq<Cmd>, rest: seq<Cmd>, pos: nat, w: nat)
    requires |c| <= 1 && SafeRun(l, rest, pos + w)
    requires |c| == 1 ==> Inside(l, Span(l, c[0]), pos) && InRow(l, c[0])
    requires |c| == 1 ==> if c[0].Ellipsis? then rest == []
                          else forall s: (int, int) :: Inside(l, s, pos + w) ==> Ahead(l, Span(l, c[0]), s)
    ensures SafeRun(l, c + rest, pos)
  {}

  /** The height that ReplaceSmileys reports is what makes the rows high enough. Only a rectangle turned inside
      out spoils the run: its ellipsis is drawn there as it is. */
  lemma {:induction false} LayoutSafety(g: Gdi, free: Rect, len: int, ps: seq<Piece>, f: Format, maxHeight: nat)
    requires Tallest(ps, maxHeight)
    ensures SafeRun(LineOf(g, free, f, maxHeight), DrawAll(g, free, len, ps, f, maxHeight).cmds, 0)
            <==> free.Width() >= 0
  {
    var l, vs := LineOf(g, free, f, maxHeight), VisitOrder(ps, f.rtl);
    forall k | 0 <= k < |vs| && vs[k].Smiley?
      ensures l.resize || vs[k].height <= l.row
    {
      if f.rtl {
        ReversedAt(ps, k);
      }
    }
    if free.Width() > 0 {
      DrawSafe(l, vs, 0, len);
    } else {
      var c := DrawAll(g, free, len, ps, f, maxHeight).cmds;
      assert c[0] == Ellipsis(free) && Span(l, c[0]) == (free.left, free.right);
    }
  }

  /** DrawTextSmiley draws an ellipsis if and only if it is given no room at all, or comes to a smiley that is
      too wide for the room left although the characters suffice. */
  lemma {:induction false} EllipsisDrawnExactly(g: Gdi, free: Rect, len: int, ps: seq<Piece>, f: Format, maxHeight: nat)
    ensures HasEllipsis(DrawAll(g, free, len, ps, f, maxHeight).cmds)
            <==> || free.Width() <= 0
                 || var l := LineOf(g, free, f, maxHeight);
                    exists j :: 0 <= j < |ps| && Overflows(l, VisitOrder(ps, f.rtl), 0, len, j)
  {
    if free.Width() <= 0 {
      assert DrawAll(g, free, len, ps, f, maxHeight).cmds[0] == Ellipsis(free);
    } else {
      EllipsisExactly(LineOf(g, free, f, maxHeight), VisitOrder(ps, f.rtl), 0, len);
    }
  }
}
