/** Piece by piece: which pieces the drawing loop reaches, where it stands there, and what it does. */
module SmileyRun {
  import opened Arithmetic
  import opened Sequences
  import opened SmileyText
  import opened SmileyLayout

  // ----- Sums over pieces -----

  lemma {:induction false} WidthFromFront(g: Gdi, ps: seq<Piece>, row: nat, resize: bool)
    requires ps != []
    ensures TotalWidth(g, ps, row, resize)
            == PieceWidth(g, ps[0], row, resize) + TotalWidth(g, ps[1..], row, resize)
    decreases |ps|
  {
    var init := ps[..|ps| - 1];
    if |ps| == 1 {
    } else {
      WidthFromFront(g, init, row, resize);
      assert init[1..] == ps[1..][..|ps| - 2];
    }
  }

  lemma {:induction false} LenFromFront(ps: seq<Piece>)
    requires ps != []
    ensures SumLen(ps) == ps[0].len + SumLen(ps[1..])
    decreases |ps|
  {
    var init := ps[..|ps| - 1];
    if |ps| == 1 {
    } else {
      LenFromFront(init);
      assert init[1..] == ps[1..][..|ps| - 2];
    }
  }

  lemma {:induction false} ReversedSums(g: Gdi, ps: seq<Piece>, row: nat, resize: bool)
    ensures TotalWidth(g, Reversed(ps), row, resize) == TotalWidth(g, ps, row, resize)
    ensures SumLen(Reversed(ps)) == SumLen(ps)
    decreases |ps|
  {
    if ps == [] {
    } else {
      var rs := Reversed(ps);
      WidthFromFront(g, rs, row, resize);
      LenFromFront(rs);
      assert rs[1..] == Reversed(ps[..|ps| - 1]);
      ReversedSums(g, ps[..|ps| - 1], row, resize);
    }
  }

  /** Widths depend on the row height only where smileys are resized. */
  lemma {:induction false} RowIrrelevant(g: Gdi, ps: seq<Piece>, row: nat, row': nat)
    ensures TotalWidth(g, ps, row, false) == TotalWidth(g, ps, row', false)
    decreases |ps|
  {
    if ps == [] {
    } else {
      RowIrrelevant(g, ps[..|ps| - 1], row, row');
    }
  }

  function Visited(l: Line, ps: seq<Piece>): nat { TotalWidth(l.g, ps, l.row, l.resize) }

  // ----- What the loop reaches -----

  /** Where the loop stands when it comes to piece j of the visiting order, if it does. */
  function Reached(l: Line, ps: seq<Piece>, pos: nat, len: int, j: nat): Option<(nat, int)>
    requires j < |ps|
  {
    if pos >= l.free.Width() || len <= 0 then None
    else if j == 0 then Some((pos, len))
    else
      var (_, w, rest) := DrawPiece(l, ps[0], pos, len);
      Reached(l, ps[1..], pos + w, rest, j - 1)
  }

  /** The calls made for piece j. */
  function CallsFor(l: Line, ps: seq<Piece>, pos: nat, len: int, j: nat): seq<Cmd>
    requires j < |ps|
  {
    match Reached(l, ps, pos, len, j)
    case None => []
    case Some((at, left)) => if left > 0 then DrawPiece(l, ps[j], at, left).0 else []
  }

  lemma {:induction false} PrefixFromFront(l: Line, ps: seq<Piece>, j: nat)
    requires 0 < j <= |ps|
    ensures Visited(l, ps[..j]) == PieceWidth(l.g, ps[0], l.row, l.resize) + Visited(l, ps[1..][..j - 1])
    ensures SumLen(ps[..j]) == ps[0].len + SumLen(ps[1..][..j - 1])
  {
    assert ps[..j][1..] == ps[1..][..j - 1];
    WidthFromFront(l.g, ps[..j], l.row, l.resize);
    LenFromFront(ps[..j]);
  }

  lemma {:induction false} PieceSpends(l: Line, p: Piece, pos: nat, len: int)
    requires len > 0
    ensures var (_, w, rest) := DrawPiece(l, p, pos, len);
            if len >= p.len then w == PieceWidth(l.g, p, l.row, l.resize) && rest == len - p.len
            else if p.Text? then w == l.g.textWidth(p.startPos, len) && rest == len - p.len
            else w == rest == 0
  {}

  /** Piece j is reached if and only if the pieces before it leave a pixel and a character, and then the loop
      has spent exactly their widths and lengths. */
  lemma {:induction false} ReachedExactly(l: Line, ps: seq<Piece>, pos: nat, len: int, j: nat)
    requires j < |ps|
    ensures var at, left := pos + Visited(l, ps[..j]), len - SumLen(ps[..j]);
            Reached(l, ps, pos, len, j) == if at < l.free.Width() && left > 0 then Some((at, left)) else None
  {
    if j == 0 || pos >= l.free.Width() || len <= 0 {
    } else {
      PrefixFromFront(l, ps, j);
      PieceSpends(l, ps[0], pos, len);
      var (_, w, rest) := DrawPiece(l, ps[0], pos, len);
      ReachedExactly(l, ps[1..], pos + w, rest, j - 1);
    }
  }

  lemma {:induction false} VisitedReached(l: Line, ps: seq<Piece>, pos: nat, len: int, j: nat)
    requires j < |ps|
    ensures Draw(l, ps, pos, len).visited <= |ps|
    ensures j < Draw(l, ps, pos, len).visited <==> Reached(l, ps, pos, len, j).Some?
    decreases |ps|
  {
    if |ps| == 1 || pos >= l.free.Width() || len <= 0 {
    } else {
      var (_, w, rest) := DrawPiece(l, ps[0], pos, len);
      VisitedReached(l, ps[1..], pos + w, rest, if j == 0 then 0 else j - 1);
    }
  }

  /** The pieces visited are the longest run from the first one on of which each is begun with room and budget
      left. */
  lemma {:induction false} VisitedExactly(l: Line, ps: seq<Piece>, pos: nat, len: int, j: nat)
    requires j < |ps|
    ensures Draw(l, ps, pos, len).visited <= |ps|
    ensures j < Draw(l, ps, pos, len).visited
            <==> pos + Visited(l, ps[..j]) < l.free.Width() && SumLen(ps[..j]) < len
  {
    VisitedReached(l, ps, pos, len, j);
    ReachedExactly(l, ps, pos, len, j);
  }

  // ----- The calls, piece by piece -----

  lemma {:induction false} CallsForRest(l: Line, ps: seq<Piece>, pos: nat, len: int, j: nat)
    requires 0 < j < |ps| && pos < l.free.Width() && len > 0
    ensures var (_, w, rest) := DrawPiece(l, ps[0], pos, len);
            CallsFor(l, ps, pos, len, j) == CallsFor(l, ps[1..], pos + w, rest, j - 1)
  {}

  /** Every call made for a piece is a call of the run. */
  lemma {:induction false} CallsForInRun(l: Line, ps: seq<Piece>, pos: nat, len: int, j: nat, c: Cmd)
    requires j < |ps| && c in CallsFor(l, ps, pos, len, j)
    ensures c in Draw(l, ps, pos, len).cmds
    decreases |ps|
  {
    if j == 0 {
    } else {
      var (_, w, rest) := DrawPiece(l, ps[0], pos, len);
      CallsForRest(l, ps, pos, len, j);
      CallsForInRun(l, ps[1..], pos + w, rest, j - 1, c);
    }
  }

  /** Every call of the run is made for some piece. */
  lemma {:induction false} RunInCallsFor(l: Line, ps: seq<Piece>, pos: nat, len: int, c: Cmd) returns (j: nat)
    requires c in Draw(l, ps, pos, len).cmds
    ensures j < |ps| && c in CallsFor(l, ps, pos, len, j)
    decreases |ps|
  {
    var (cmds, w, rest) := DrawPiece(l, ps[0], pos, len);
    if c in cmds {
      j := 0;
    } else {
      j := RunInCallsFor(l, ps[1..], pos + w, rest, c);
      j := j + 1;
      CallsForRest(l, ps, pos, len, j);
    }
  }

  // ----- Where each piece is drawn -----

  /** In the middle of the row; an odd pixel goes below. */
  ghost predicate Centred(l: Line, y: int, h: int) {
    var above, below := y - l.free.top, l.free.top + l.row - (y + h);
    0 <= below - above <= 1
  }

  /** The rectangle for text that begins `at` pixels into the line and needs w of them: a line of text at its top
      is in the middle of the row, and it ends where the line ends, but right to left not w pixels further. */
  ghost predicate TextPlaced(l: Line, r: Rect, at: nat, w: nat) {
    && Centred(l, r.top, l.text) && r.bottom == l.free.bottom
    && if l.rtl then r.right == l.free.right - at && r.left == Max(l.free.left, r.right - w)
       else r.left == l.free.left + at && r.right == l.free.right
  }

  /** An icon of that size, `at` pixels into the line, in the middle of the row. */
  ghost predicate IconPlaced(l: Line, x: int, y: int, w: nat, h: nat, at: nat) {
    && Centred(l, y, h)
    && if l.rtl then x + w == l.free.right - at else x == l.free.left + at
  }

  /** The calls for a piece that begins `at` pixels into the line with `left` characters to spend: text as far as
      the characters go, a smiley only if they suffice for all of it, and three dots instead if it is too wide. */
  ghost predicate Pictures(l: Line, p: Piece, at: nat, left: int, calls: seq<Cmd>) {
    match p
    case Text(n, start) =>
      && |calls| == 1 && calls[0].DrawText? && calls[0].start == start && calls[0].len == Min(left, n)
      && TextPlaced(l, calls[0].rect, at, l.g.textWidth(start, calls[0].len))
    case Smiley(n, icon, _, _) =>
      if left < n then calls == []
      else
        && |calls| == 1 && !calls[0].DrawText?
        && (calls[0].DrawIcon? ==>
              var c := calls[0];
              && c.icon == icon && ProperWidth(p, l.row, l.resize, c.w) && ProperHeight(p, l.row, l.resize, c.h)
              && at + c.w <= l.free.Width() && IconPlaced(l, c.x, c.y, c.w, c.h, at))
        && (calls[0].Ellipsis? ==>
              exists w: nat :: ProperWidth(p, l.row, l.resize, w) && at + w > l.free.Width()
                               && TextPlaced(l, calls[0].rect, at, w))
  }

  lemma {:induction false} PiecePictured(l: Line, p: Piece, pos: nat, len: int)
    requires len > 0 && pos < l.free.Width()
    ensures Pictures(l, p, pos, len, DrawPiece(l, p, pos, len).0)
  {
    if p.Smiley? {
      ScaledExactly(p, l.row, l.resize);
    }
  }

  /** Piece j is begun by a run over the whole line, after the widths and lengths of the pieces before it. */
  ghost predicate Begun(l: Line, ps: seq<Piece>, len: int, j: nat)
    requires j < |ps|
  {
    Visited(l, ps[..j]) < l.free.Width() && SumLen(ps[..j]) < len
  }

  ghost predicate PicturesAt(l: Line, ps: seq<Piece>, len: int, j: nat, calls: seq<Cmd>)
    requires j < |ps|
  {
    Pictures(l, ps[j], Visited(l, ps[..j]), len - SumLen(ps[..j]), calls)
  }

  lemma {:induction false} CallsForBegun(l: Line, ps: seq<Piece>, len: int, j: nat)
    requires j < |ps|
    ensures CallsFor(l, ps, 0, len, j)
            == if Begun(l, ps, len, j) then DrawPiece(l, ps[j], Visited(l, ps[..j]), len - SumLen(ps[..j])).0 else []
  {
    ReachedExactly(l, ps, 0, len, j);
  }

  lemma {:induction false} BegunPictured(l: Line, ps: seq<Piece>, len: int, j: nat)
    requires j < |ps| && Begun(l, ps, len, j)
    ensures PicturesAt(l, ps, len, j, CallsFor(l, ps, 0, len, j))
  {
    CallsForBegun(l, ps, len, j);
    PiecePictured(l, ps[j], Visited(l, ps[..j]), len - SumLen(ps[..j]));
  }

  /** The calls of a run are those for its pieces, in visiting order. */
  ghost predicate PicturesAll(l: Line, ps: seq<Piece>, len: int, cmds: seq<Cmd>, calls: seq<seq<Cmd>>) {
    && |calls| == |ps| && cmds == Concat(calls)
    && forall j :: 0 <= j < |ps| ==> PicturesOrNothing(l, ps, len, j, calls[j])
  }

  ghost predicate PicturesOrNothing(l: Line, ps: seq<Piece>, len: int, j: nat, calls: seq<Cmd>)
    requires j < |ps|
  {
    if Begun(l, ps, len, j) then PicturesAt(l, ps, len, j, calls) else calls == []
  }

  lemma {:induction false} NothingDrawn(l: Line, ps: seq<Piece>, pos: nat, len: int, calls: seq<seq<Cmd>>)
    requires pos >= l.free.Width() || len <= 0
    requires |calls| == |ps| && forall j :: 0 <= j < |ps| ==> calls[j] == []
    ensures Draw(l, ps, pos, len).cmds == Concat(calls)
    ensures forall j :: 0 <= j < |ps| ==> calls[j] == CallsFor(l, ps, pos, len, j)
  {
    ConcatNothing(calls);
  }

  lemma {:induction false} FirstDrawn(l: Line, ps: seq<Piece>, pos: nat, len: int, more: seq<seq<Cmd>>)
    requires ps != [] && pos < l.free.Width() && len > 0 && |more| == |ps| - 1
    requires var (_, w, rest) := DrawPiece(l, ps[0], pos, len);
             && Draw(l, ps[1..], pos + w, rest).cmds == Concat(more)
             && forall j :: 0 <= j < |more| ==> more[j] == CallsFor(l, ps[1..], pos + w, rest, j)
    ensures var calls := [DrawPiece(l, ps[0], pos, len).0] + more;
            && Draw(l, ps, pos, len).cmds == Concat(calls)
            && forall j :: 0 <= j < |ps| ==> calls[j] == CallsFor(l, ps, pos, len, j)
  {
    var calls := [DrawPiece(l, ps[0], pos, len).0] + more;
    assert calls[1..] == more;
    forall j | 0 < j < |ps|
      ensures calls[j] == CallsFor(l, ps, pos, len, j)
    {
      CallsForRest(l, ps, pos, len, j);
    }
  }

  lemma {:induction false} RunIsCallsFor(l: Line, ps: seq<Piece>, pos: nat, len: int) returns (calls: seq<seq<Cmd>>)
    ensures |calls| == |ps| && Draw(l, ps, pos, len).cmds == Concat(calls)
    ensures forall j :: 0 <= j < |ps| ==> calls[j] == CallsFor(l, ps, pos, len, j)
    decreases |ps|
  {
    if ps == [] || pos >= l.free.Width() || len <= 0 {
      calls := seq(|ps|, _ => []);
      if ps != [] {
        NothingDrawn(l, ps, pos, len, calls);
      }
    } else {
      var (c, w, rest) := DrawPiece(l, ps[0], pos, len);
      var more := RunIsCallsFor(l, ps[1..], pos + w, rest);
      FirstDrawn(l, ps, pos, len, more);
      calls := [c] + more;
    }
  }

  lemma {:induction false} ConcatNothing(calls: seq<seq<Cmd>>)
    requires forall k :: 0 <= k < |calls| ==> calls[k] == []
    ensures Concat(calls) == []
  {
    if calls == [] {
    } else {
      ConcatNothing(calls[1..]);
    }
  }

  /** The whole run in pictures: exactly the pieces that are begun are drawn, one after another, each where the
      widths of those before it put it and in the middle of the row. */
  lemma {:induction false} RunPictured(l: Line, ps: seq<Piece>, len: int) returns (calls: seq<seq<Cmd>>)
    ensures PicturesAll(l, ps, len, Draw(l, ps, 0, len).cmds, calls)
  {
    calls := RunIsCallsFor(l, ps, 0, len);
    forall j | 0 <= j < |ps|
      ensures PicturesOrNothing(l, ps, len, j, calls[j])
    {
      CallsForBegun(l, ps, len, j);
      if Begun(l, ps, len, j) {
        BegunPictured(l, ps, len, j);
      }
    }
  }

  // ----- When an ellipsis is drawn -----

  ghost predicate HasEllipsis(cmds: seq<Cmd>) { exists c :: c in cmds && c.Ellipsis? }

  /** Piece j is a smiley begun with room left and with the budget for it, and is too wide for that room. */
  ghost predicate Overflows(l: Line, ps: seq<Piece>, pos: nat, len: int, j: nat)
    requires j < |ps|
  {
    && ps[j].Smiley?
    && pos + Visited(l, ps[..j]) < l.free.Width() < pos + Visited(l, ps[..j]) + PieceWidth(l.g, ps[j], l.row, l.resize)
    && SumLen(ps[..j]) < len && SumLen(ps[..j]) + ps[j].len <= len
  }

  lemma {:induction false} PieceEllipsis(l: Line, p: Piece, pos: nat, len: int)
    requires len > 0 && pos < l.free.Width()
    ensures HasEllipsis(DrawPiece(l, p, pos, len).0)
            <==> p.Smiley? && len >= p.len && pos + PieceWidth(l.g, p, l.row, l.resize) > l.free.Width()
  {
    var cmds := DrawPiece(l, p, pos, len).0;
    assert |cmds| == 1 ==> cmds[0] in cmds;
  }

  lemma {:induction false} OverflowsExactly(l: Line, ps: seq<Piece>, pos: nat, len: int, j: nat)
    requires j < |ps|
    ensures HasEllipsis(CallsFor(l, ps, pos, len, j)) <==> Overflows(l, ps, pos, len, j)
  {
    ReachedExactly(l, ps, pos, len, j);
    match Reached(l, ps, pos, len, j)
    case None =>
    case Some((at, left)) => PieceEllipsis(l, ps[j], at, left);
  }

  /** The loop draws an ellipsis if and only if it comes to such a smiley. */
  lemma {:induction false} EllipsisExactly(l: Line, ps: seq<Piece>, pos: nat, len: int)
    ensures HasEllipsis(Draw(l, ps, pos, len).cmds)
            <==> exists j :: 0 <= j < |ps| && Overflows(l, ps, pos, len, j)
  {
    if HasEllipsis(Draw(l, ps, pos, len).cmds) {
      var c :| c in Draw(l, ps, pos, len).cmds && c.Ellipsis?;
      var j := RunInCallsFor(l, ps, pos, len, c);
      OverflowsExactly(l, ps, pos, len, j);
    }
    forall j | 0 <= j < |ps| && Overflows(l, ps, pos, len, j)
      ensures HasEllipsis(Draw(l, ps, pos, len).cmds)
    {
      OverflowsExactly(l, ps, pos, len, j);
      var c :| c in CallsFor(l, ps, pos, len, j) && c.Ellipsis?;
      CallsForInRun(l, ps, pos, len, j, c);
    }
  }

  // ----- The code -----

  /** The body of the loop, for one piece. */
  method DrawOne(l: Line, piece: Piece, pos0: nat, len0: int) returns (cmds: seq<Cmd>, pos: nat, len: int)
    requires len0 > 0
    ensures var (c, w, rest) := DrawPiece(l, piece, pos0, len0);
            cmds == c && pos == pos0 + w && len == rest
  {
    cmds, pos, len := [], pos0, len0;
    var rc := l.free;
    if l.rtl {
      rc := rc.(right := rc.right - pos);
    } else {
      rc := rc.(left := rc.left + pos);
    }
    if piece.Text? {
      rc := rc.(top := rc.top + (l.row - l.text) / 2);
      var shown := if len < piece.len then len else piece.len;
      var w := l.g.textWidth(piece.startPos, shown);
      pos := pos + w;
      if l.rtl {
        rc := rc.(left := if rc.left < rc.right - w then rc.right - w else rc.left);
      }
      cmds := [DrawText(piece.startPos, shown, rc)];
      len := len - piece.len;
    } else if len < piece.len {
      len := 0;
    } else {
      len := len - piece.len;
      var w, h := ScaledWidth(piece, l.row, l.resize), ScaledHeight(piece, l.row, l.resize);
      if l.rtl {
        rc := rc.(left := if rc.right - w > rc.left then rc.right - w else rc.left);
      }
      if w <= rc.right - rc.left {
        rc := rc.(top := rc.top + (l.row - h) / 2);
        cmds := [DrawIcon(piece.icon, rc.left, rc.top, w, h)];
      } else {
        rc := rc.(top := rc.top + (l.row - l.text) / 2);
        cmds := [Ellipsis(rc)];
      }
      pos := pos + w;
    }
  }

  method DrawTextSmiley(g: Gdi, free: Rect, hasText: bool, len0: int, ps: seq<Piece>, f: Format, maxHeight: nat)
    returns (cmds: seq<Cmd>, pos: nat, len: int, ghost calls: seq<seq<Cmd>>)
    ensures !hasText ==> cmds == []
    ensures hasText ==> var r := DrawAll(g, free, len0, ps, f, maxHeight);
                        cmds == r.cmds && pos == r.pos && len == r.len
    ensures hasText && free.Width() <= 0 ==> cmds == [Ellipsis(free)]
    ensures hasText && free.Width() > 0 ==>
              PicturesAll(LineOf(g, free, f, maxHeight), VisitOrder(ps, f.rtl), len0, cmds, calls)
  {
    cmds, pos, len, calls := [], 0, len0, [];
    if !hasText {
      return;
    }
    var textHeight := g.charHeight;
    var rowHeight := textHeight;
    if !f.resize {
      rowHeight := Max(textHeight, maxHeight);
    }
    if free.right <= free.left {
      return [Ellipsis(free)], 0, len0, [];
    }
    var l := Line(g, free, f.rtl, f.resize, rowHeight, textHeight);
    cmds, pos, len := DrawPieces(l, ps, len0);
    calls := RunPictured(l, VisitOrder(ps, f.rtl), len0);
  }

  /** One turn of the loop below. */
  method DrawNext(l: Line, ps: seq<Piece>, i: int, cmds0: seq<Cmd>, pos0: nat, len0: int, ghost all: Run)
    returns (cmds: seq<Cmd>, pos: nat, len: int)
    requires 0 <= i < |ps| && pos0 < l.free.Width() && len0 > 0
    requires Continues(all, cmds0, Draw(l, ToVisit(ps, i, l.rtl), pos0, len0))
    ensures Continues(all, cmds, Draw(l, ToVisit(ps, if l.rtl then i - 1 else i + 1, l.rtl), pos, len))
  {
    VisitStep(l, all, cmds0, ps, i, pos0, len0);
    cmds, pos, len := DrawOne(l, ps[i], pos0, len0);
    cmds := cmds0 + cmds;
  }

  /** The loop of DrawTextSmiley. */
  method DrawPieces(l: Line, ps: seq<Piece>, len0: int) returns (cmds: seq<Cmd>, pos: nat, len: int)
    ensures var r := Draw(l, VisitOrder(ps, l.rtl), 0, len0);
            cmds == r.cmds && pos == r.pos && len == r.len
  {
    cmds, pos, len := [], 0, len0;
    var i := if l.rtl then |ps| - 1 else 0;
    ghost var all := Draw(l, VisitOrder(ps, l.rtl), 0, len);
    assert l.rtl ==> ps[..|ps|] == ps;
    while i < |ps| && i >= 0 && pos < l.free.right - l.free.left && len > 0
      invariant -1 <= i <= |ps|
      invariant Continues(all, cmds, Draw(l, ToVisit(ps, i, l.rtl), pos, len))
      decreases if l.rtl then i else |ps| - i
    {
      cmds, pos, len := DrawNext(l, ps, i, cmds, pos, len, all);
      i := if l.rtl then i - 1 else i + 1;
    }
  }

  /** The calls made so far and those of r make up the whole run. */
  ghost predicate Continues(all: Run, done: seq<Cmd>, r: Run) {
    done + r.cmds == all.cmds && r.pos == all.pos && r.len == all.len
  }

  lemma {:induction false} ContinueStep(l: Line, all: Run, done: seq<Cmd>, p: Piece, ps: seq<Piece>, pos: nat, len: int)
    requires pos < l.free.Width() && len > 0
    requires Continues(all, done, Draw(l, [p] + ps, pos, len))
    ensures var (c, w, k) := DrawPiece(l, p, pos, len);
            Continues(all, done + c, Draw(l, ps, pos + w, k))
  {}

  /** The pieces the loop has not reached yet, in visiting order. */
  function ToVisit(ps: seq<Piece>, i: int, rtl: bool): seq<Piece>
    requires -1 <= i <= |ps|
  {
    if rtl then if i == |ps| then [] else Reversed(ps[..i + 1])
    else if i == -1 then [] else ps[i..]
  }

  lemma {:induction false} VisitNext(ps: seq<Piece>, i: int, rtl: bool)
    requires 0 <= i < |ps|
    ensures ToVisit(ps, i, rtl) == [ps[i]] + ToVisit(ps, if rtl then i - 1 else i + 1, rtl)
  {
    if rtl {
      assert ps[..i + 1][..i] == ps[..i];
    }
  }

  lemma {:induction false} VisitStep(l: Line, all: Run, done: seq<Cmd>, ps: seq<Piece>, i: int, pos: nat, len: int)
    requires 0 <= i < |ps| && pos < l.free.Width() && len > 0
    requires Continues(all, done, Draw(l, ToVisit(ps, i, l.rtl), pos, len))
    ensures var (c, w, k) := DrawPiece(l, ps[i], pos, len);
            Continues(all, done + c, Draw(l, ToVisit(ps, if l.rtl then i - 1 else i + 1, l.rtl), pos + w, k))
  {
    VisitNext(ps, i, l.rtl);
    ContinueStep(l, all, done, ps[i], ToVisit(ps, if l.rtl then i - 1 else i + 1, l.rtl), pos, len);
  }
}
