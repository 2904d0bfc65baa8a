/** Smileys_DrawText of utils/mir_smileys.cpp: from the parse of a text to what is seen of it. */
module SmileyScreen {
  import opened Arithmetic
  import opened Sequences
  import opened SmileyText
  import opened SmileyLayout
  import opened SmileyRun
  import opened SmileyProperties

  // ----- From text to pixels -----

  /** A text of nCount characters with what the parser finds in it. */
  datatype Input = Input(emptyText: bool, nCount: nat, parser: bool, spres: Option<seq<Match>>)

  /** SmileysParseInfo */
  datatype ParseInfo = ParseInfo(pieces: Option<seq<Piece>>, maxHeight: nat)

  /** What ReplaceSmileys makes of a text. */
  ghost predicate ParseOf(t: Input, i: ParseInfo) {
    && (i.pieces.None? <==> t.emptyText || !t.parser || t.spres.None?)
    && (i.pieces.None? ==> i.maxHeight == 0)
    && (i.pieces.Some? ==> Tallest(i.pieces.value, i.maxHeight))
    && (i.pieces.Some? && OrderedMatches(t.spres.value) ==>
          Partition(i.pieces.value, IconPlaces(t.spres.value), Max(t.nCount, LastEnd(t.spres.value))))
  }

  /** What GetTextSize answers for a text. */
  function TextHeight(g: Gdi, i: ParseInfo, f: Format): nat {
    if i.pieces.None? then g.wholeHeight else RowHeight(g.wholeHeight, i.maxHeight, f.resize)
  }

  function TextWidth(g: Gdi, i: ParseInfo, f: Format): nat {
    match i.pieces
    case None => g.wholeWidth
    case Some(ps) => TotalWidth(g, ps, TextHeight(g, i, f), f.resize)
  }

  /** The rectangle made no wider than the text; the side that the text is aligned with stays. */
  function FitRect(r: Rect, cx: nat, alignRight: bool): (fit: Rect)
    ensures fit.Width() == Min(cx, r.Width()) && fit.top == r.top && fit.bottom == r.bottom
    ensures if alignRight then fit.right == r.right else fit.left == r.left
  {
    if cx < r.Width() then
      if alignRight then r.(left := r.right - cx) else r.(right := r.left + cx)
    else r
  }

  /** The rectangle that a measuring call hands back. */
  function Measured(g: Gdi, rect: Rect, f: Format, i: ParseInfo): Rect {
    FitRect(rect, TextWidth(g, i, f), f.alignRight).(bottom := Min(rect.bottom, rect.top + TextHeight(g, i, f)))
  }

  /** The calls of a drawing call. */
  function Calls(g: Gdi, nCount: nat, rect: Rect, f: Format, i: ParseInfo): seq<Cmd> {
    match i.pieces
    case None => [DrawText(0, nCount, rect)]
    case Some(ps) => DrawAll(g, FitRect(rect, TextWidth(g, i, f), f.alignRight), nCount, ps, f, i.maxHeight).cmds
  }

  /** The line the pieces are drawn on. */
  function FitLine(g: Gdi, rect: Rect, f: Format, i: ParseInfo): Line {
    LineOf(g, FitRect(rect, TextWidth(g, i, f), f.alignRight), f, i.maxHeight)
  }

  // ----- Measuring first -----

  /** The call with another lower edge. */
  function AtBottom(c: Cmd, bottom: int): Cmd {
    match c
    case DrawText(start, n, r) => DrawText(start, n, r.(bottom := bottom))
    case DrawIcon(_, _, _, _, _) => c
    case Ellipsis(r) => Ellipsis(r.(bottom := bottom))
  }

  ghost predicate AllAtBottom(cmds: seq<Cmd>, others: seq<Cmd>, bottom: int) {
    |cmds| == |others| && forall k :: 0 <= k < |cmds| ==> cmds[k] == AtBottom(others[k], bottom)
  }

  lemma {:induction false} PieceAtBottom(l: Line, p: Piece, pos: nat, len: int, bottom: int)
    requires len > 0
    ensures var (c, w, k), (c', w', k') := DrawPiece(l.(free := l.free.(bottom := bottom)), p, pos, len),
                                           DrawPiece(l, p, pos, len);
            w == w' && k == k' && AllAtBottom(c, c', bottom)
  {}

  lemma {:induction false} DrawAtBottom(l: Line, ps: seq<Piece>, pos: nat, len: int, bottom: int)
    ensures AllAtBottom(Draw(l.(free := l.free.(bottom := bottom)), ps, pos, len).cmds,
                        Draw(l, ps, pos, len).cmds, bottom)
    decreases |ps|
  {
    if ps == [] || pos >= l.free.Width() || len <= 0 {
    } else {
      PieceAtBottom(l, ps[0], pos, len, bottom);
      var (_, w, k) := DrawPiece(l, ps[0], pos, len);
      DrawAtBottom(l, ps[1..], pos + w, k, bottom);
    }
  }

  /** Measuring first and drawing in the rectangle that comes back makes the same calls as drawing at once;
      only the lower edge of the rectangles given to text is that of the measured rectangle. */
  lemma {:induction false} MeasureThenDraw(g: Gdi, nCount: nat, rect: Rect, f: Format, i: ParseInfo)
    ensures var m := Measured(g, rect, f, i);
            && Measured(g, m, f, i) == m
            && (i.pieces.Some? ==> AllAtBottom(Calls(g, nCount, m, f, i), Calls(g, nCount, rect, f, i), m.bottom))
            && (i.pieces.None? ==> Calls(g, nCount, m, f, i) == [DrawText(0, nCount, m)]
                                   && m.Width() == Min(g.wholeWidth, rect.Width()))
  {
    if i.pieces.Some? {
      var m, fit := Measured(g, rect, f, i), FitRect(rect, TextWidth(g, i, f), f.alignRight);
      assert FitRect(m, TextWidth(g, i, f), f.alignRight) == m == fit.(bottom := m.bottom);
      if fit.Width() > 0 {
        DrawAtBottom(LineOf(g, fit, f, i.maxHeight), VisitOrder(i.pieces.value, f.rtl), 0, nCount, m.bottom);
      }
    }
  }

  // ----- Matches and smiley pieces -----

  lemma {:induction false} IconsSubstantial(ms: seq<Match>, k: nat)
    requires OrderedMatches(ms) && k < |IconPlaces(ms)|
    ensures IconPlaces(ms)[k].1.len > 0
    decreases |ms|
  {
    var init := ms[..|ms| - 1];
    if k == |IconPlaces(init)| {
    } else {
      IconsSubstantial(init, k);
    }
  }

  lemma {:induction false} PartitionSubstantial(ms: seq<Match>, ps: seq<Piece>, total: nat)
    requires OrderedMatches(ms) && Partition(ps, IconPlaces(ms), total)
    ensures Substantial(ps)
  {
    forall k | 0 <= k < |ps|
      ensures ps[k].len > 0
    {
      assert CleanAt(ps, k);
      if ps[k].Smiley? {
        PlacedSmileys(ps, k);
        var j :| 0 <= j < |Places(ps)| && Places(ps)[j] == (SumLen(ps[..k]), ps[k]);
        IconsSubstantial(ms, j);
      }
    }
  }

  /** The match starts before character n and ends behind it. */
  predicate Straddles(m: Match, n: nat) { m.icon != 0 && m.startChar < n < m.startChar + m.size }

  predicate PieceStraddles(ps: seq<Piece>, k: nat, n: nat)
    requires k < |ps|
  {
    ps[k].Smiley? && SumLen(ps[..k]) < n < SumLen(ps[..k]) + ps[k].len
  }

  lemma {:induction false} StraddlesAlike(ms: seq<Match>, ps: seq<Piece>, total: nat, n: nat)
    requires Partition(ps, IconPlaces(ms), total)
    ensures (exists m :: m in ms && Straddles(m, n)) <==> exists k :: 0 <= k < |ps| && PieceStraddles(ps, k, n)
  {
    forall m | m in ms && Straddles(m, n)
      ensures exists k :: 0 <= k < |ps| && PieceStraddles(ps, k, n)
    {
      var j := MatchHasPlace(ms, m);
      var k := PlaceHasPiece(ps, j);
      assert PieceStraddles(ps, k, n);
    }
    forall k | 0 <= k < |ps| && PieceStraddles(ps, k, n)
      ensures exists m :: m in ms && Straddles(m, n)
    {
      PlacedSmileys(ps, k);
      var j :| 0 <= j < |Places(ps)| && Places(ps)[j] == (SumLen(ps[..k]), ps[k]);
      IconOfMatch(ms, j);
      var m :| m in ms && m.icon != 0 && IconPlaces(ms)[j] == (m.startChar, SmileyOf(m));
      assert Straddles(m, n);
    }
  }

  // ----- Which characters are on the screen -----

  lemma {:induction false} PieceOfChar(ps: seq<Piece>, k: nat) returns (j: nat)
    requires k < SumLen(ps)
    ensures j < |ps| && SumLen(ps[..j]) <= k < SumLen(ps[..j]) + ps[j].len
    decreases |ps|
  {
    var init := ps[..|ps| - 1];
    if k >= SumLen(init) {
      j := |ps| - 1;
    } else {
      j := PieceOfChar(init, k);
      assert init[..j] == ps[..j];
    }
  }

  ghost predicate Holds(ps: seq<Piece>, j: nat, k: nat)
    requires j < |ps|
  {
    SumLen(ps[..j]) <= k < SumLen(ps[..j]) + ps[j].len
  }

  lemma {:induction false} PrefixSums(g: Gdi, ps: seq<Piece>, i: nat, row: nat, resize: bool)
    requires i < |ps|
    ensures SumLen(ps[..i]) + ps[i].len + SumLen(ps[i + 1..]) == SumLen(ps)
    ensures TotalWidth(g, ps[..i], row, resize) + PieceWidth(g, ps[i], row, resize) <= TotalWidth(g, ps, row, resize)
    ensures i < |ps| - 1 ==>
              TotalWidth(g, ps[..i], row, resize) + PieceWidth(g, ps[|ps| - 1], row, resize)
              <= TotalWidth(g, ps, row, resize)
    decreases |ps|
  {
    var init := ps[..|ps| - 1];
    if i == |ps| - 1 {
    } else {
      PrefixSums(g, init, i, row, resize);
      assert init[..i] == ps[..i];
      assert ps[i + 1..][..|ps| - i - 2] == init[i + 1..];
    }
  }

  /** A piece that is nothing but its first characters is no wider than the piece. */
  ghost predicate PrefixesNoWider(g: Gdi) {
    forall start, m, n :: m <= n ==> g.textWidth(start, m) <= g.textWidth(start, n)
  }

  /** The call shows character `o` of piece p: among the characters that it writes, with room for them, or
      as part of the whole icon. */
  ghost predicate ShowsChar(l: Line, c: Cmd, p: Piece, o: nat) {
    match p
    case Text(_, start) =>
      c.DrawText? && c.start == start && o < c.len && c.rect.Width() >= l.g.textWidth(start, c.len)
    case Smiley(_, _, _, _) => Shows(l, c, p)
  }

  lemma {:induction false} PieceShowsChar(l: Line, p: Piece, pos: nat, len: int, o: nat)
    requires len > 0 && o < p.len && PrefixesNoWider(l.g)
    requires pos + PieceWidth(l.g, p, l.row, l.resize) <= l.free.Width()
    ensures var cmds := DrawPiece(l, p, pos, len).0;
            (|cmds| == 1 && ShowsChar(l, cmds[0], p, o)) <==> if p.Text? then o < len else p.len <= len
  {
    if p.Text? && len < p.len {
      assert l.g.textWidth(p.startPos, len) <= l.g.textWidth(p.startPos, p.len);
    }
  }

  /** Where piece j of the text stands in visiting order, and how many characters come before it there. */
  function VisitIndex(ps: seq<Piece>, rtl: bool, j: nat): nat
    requires j < |ps|
  {
    if rtl then |ps| - 1 - j else j
  }

  function SpentBefore(ps: seq<Piece>, rtl: bool, j: nat): nat
    requires j < |ps|
  {
    if rtl then SumLen(ps[j + 1..]) else SumLen(ps[..j])
  }

  lemma {:induction false} VisitedPiece(ps: seq<Piece>, rtl: bool, j: nat)
    requires j < |ps|
    ensures var vs, v := VisitOrder(ps, rtl), VisitIndex(ps, rtl, j);
            |vs| == |ps| && v < |vs| && vs[v] == ps[j] && SumLen(vs[..v]) == SpentBefore(ps, rtl, j)
  {
    if rtl {
      var vs, v, rest := Reversed(ps), |ps| - 1 - j, ps[j + 1..];
      ReversedAt(ps, v);
      forall k | 0 <= k < v
        ensures vs[..v][k] == Reversed(rest)[k]
      {
        ReversedAt(ps, k);
        ReversedAt(rest, k);
      }
      assert vs[..v] == Reversed(rest);
      ReversedSums(Gdi((_, _) => 0, 0, 0, 0), rest, 0, false);
    }
  }

  /** The call for the piece that holds character k shows that character, and it is one of the calls made. */
  ghost predicate DrawsChar(l: Line, cmds: seq<Cmd>, ps: seq<Piece>, len: int, j: nat, k: nat)
    requires j < |ps|
  {
    && Holds(ps, j, k) && VisitIndex(ps, l.rtl, j) < |VisitOrder(ps, l.rtl)|
    && var calls := CallsFor(l, VisitOrder(ps, l.rtl), 0, len, VisitIndex(ps, l.rtl, j));
       |calls| == 1 && calls[0] in cmds && ShowsChar(l, calls[0], ps[j], k - SumLen(ps[..j]))
  }

  ghost predicate OnScreen(l: Line, cmds: seq<Cmd>, ps: seq<Piece>, len: int, k: nat) {
    exists j :: 0 <= j < |ps| && DrawsChar(l, cmds, ps, len, j, k)
  }

  lemma {:induction false} RoomAt(l: Line, vs: seq<Piece>, v: nat)
    requires Roomy(l, vs, 0) && v < |vs|
    ensures Visited(l, vs[..v]) < l.free.Width()
    ensures Visited(l, vs[..v]) + PieceWidth(l.g, vs[v], l.row, l.resize) <= l.free.Width()
  {
    PrefixSums(l.g, vs, v, l.row, l.resize);
  }

  /** With room for everything, what decides is the budget left when the piece is reached. */
  lemma {:induction false} CallShowsExactly(l: Line, vs: seq<Piece>, len: int, v: nat, o: nat)
    requires Roomy(l, vs, 0) && PrefixesNoWider(l.g) && v < |vs| && o < vs[v].len
    ensures var left, calls := len - SumLen(vs[..v]), CallsFor(l, vs, 0, len, v);
            (|calls| == 1 && ShowsChar(l, calls[0], vs[v], o)) <==> if vs[v].Text? then o < left else vs[v].len <= left
  {
    var left := len - SumLen(vs[..v]);
    RoomAt(l, vs, v);
    ReachedExactly(l, vs, 0, len, v);
    if left > 0 {
      PieceShowsChar(l, vs[v], Visited(l, vs[..v]), left, o);
    }
  }

  lemma {:induction false} DrawsCharExactly(l: Line, ps: seq<Piece>, len: int, j: nat, k: nat)
    requires Roomy(l, VisitOrder(ps, l.rtl), 0) && PrefixesNoWider(l.g)
    requires j < |ps| && Holds(ps, j, k)
    ensures var left, o := len - SpentBefore(ps, l.rtl, j), k - SumLen(ps[..j]);
            DrawsChar(l, Draw(l, VisitOrder(ps, l.rtl), 0, len).cmds, ps, len, j, k)
            <==> if ps[j].Text? then o < left else ps[j].len <= left
  {
    var vs, v := VisitOrder(ps, l.rtl), VisitIndex(ps, l.rtl, j);
    VisitedPiece(ps, l.rtl, j);
    CallShowsExactly(l, vs, len, v, k - SumLen(ps[..j]));
    var calls := CallsFor(l, vs, 0, len, v);
    if |calls| == 1 {
      CallsForInRun(l, vs, 0, len, v, calls[0]);
    }
  }

  lemma {:induction false} OnlyHolder(ps: seq<Piece>, i: nat, j: nat, k: nat)
    requires i < |ps| && j < |ps| && Holds(ps, i, k) && Holds(ps, j, k)
    ensures i == j
  {
    if i < j {
      PrefixGrows(ps, i, j);
    } else if j < i {
      PrefixGrows(ps, j, i);
    }
  }

  lemma {:induction false} PrefixGrows(ps: seq<Piece>, i: nat, j: nat)
    requires i < j <= |ps|
    ensures SumLen(ps[..i]) + ps[i].len <= SumLen(ps[..j])
  {
    PrefixSums(Gdi((_, _) => 0, 0, 0, 0), ps[..j], i, 0, false);
    assert ps[..j][..i] == ps[..i];
  }

  /** Whether character k is on the screen, from the piece that holds it. */
  lemma {:induction false} OnScreenExactly(l: Line, ps: seq<Piece>, len: int, j: nat, k: nat)
    requires Roomy(l, VisitOrder(ps, l.rtl), 0) && PrefixesNoWider(l.g)
    requires j < |ps| && Holds(ps, j, k)
    ensures var left, o := len - SpentBefore(ps, l.rtl, j), k - SumLen(ps[..j]);
            OnScreen(l, Draw(l, VisitOrder(ps, l.rtl), 0, len).cmds, ps, len, k)
            <==> if ps[j].Text? then o < left else ps[j].len <= left
  {
    var cmds := Draw(l, VisitOrder(ps, l.rtl), 0, len).cmds;
    DrawsCharExactly(l, ps, len, j, k);
    forall i | 0 <= i < |ps| && DrawsChar(l, cmds, ps, len, i, k)
      ensures i == j
    {
      OnlyHolder(ps, i, j, k);
    }
  }

  ghost predicate AllOnScreen(l: Line, cmds: seq<Cmd>, ps: seq<Piece>, n: nat) {
    forall k: nat :: k < n ==> OnScreen(l, cmds, ps, n, k)
  }

  /** Left to right, the characters below n all appear if and only if no smiley straddles n. */
  lemma {:induction false} LeftToRightExactly(l: Line, ps: seq<Piece>, n: nat)
    requires !l.rtl && Roomy(l, ps, 0) && PrefixesNoWider(l.g) && Substantial(ps) && n <= SumLen(ps)
    ensures AllOnScreen(l, Draw(l, ps, 0, n).cmds, ps, n)
            <==> !exists j :: 0 <= j < |ps| && PieceStraddles(ps, j, n)
  {
    var cmds := Draw(l, ps, 0, n).cmds;
    forall k: nat | k < n && !OnScreen(l, cmds, ps, n, k)
      ensures exists j :: 0 <= j < |ps| && PieceStraddles(ps, j, n)
    {
      var j := PieceOfChar(ps, k);
      OnScreenExactly(l, ps, n, j, k);
      assert PieceStraddles(ps, j, n);
    }
    forall j | 0 <= j < |ps| && PieceStraddles(ps, j, n)
      ensures !OnScreen(l, cmds, ps, n, SumLen(ps[..j]))
    {
      OnScreenExactly(l, ps, n, j, SumLen(ps[..j]));
    }
  }

  /** Right to left, the budget is spent from the end of the text, and the characters below n all appear if and
      only if the pieces stand for no more than n characters, or n is 0. */
  lemma {:induction false} RightToLeftExactly(l: Line, ps: seq<Piece>, n: nat)
    requires l.rtl && Roomy(l, Reversed(ps), 0) && PrefixesNoWider(l.g) && Substantial(ps) && n <= SumLen(ps)
    requires |ps| == 1 && n < SumLen(ps) ==> ps[0].Smiley?
    ensures AllOnScreen(l, Draw(l, Reversed(ps), 0, n).cmds, ps, n) <==> n == 0 || n == SumLen(ps)
  {
    var cmds := Draw(l, Reversed(ps), 0, n).cmds;
    if n == SumLen(ps) {
      forall k: nat | k < n
        ensures OnScreen(l, cmds, ps, n, k)
      {
        var j := PieceOfChar(ps, k);
        PrefixSums(l.g, ps, j, l.row, l.resize);
        OnScreenExactly(l, ps, n, j, k);
      }
    } else if n > 0 {
      FirstPieceCut(l, ps, n);
    }
  }

  /** The first character of the first piece that the budget no longer pays for. */
  lemma {:induction false} FirstPieceCut(l: Line, ps: seq<Piece>, n: nat)
    requires l.rtl && Roomy(l, Reversed(ps), 0) && PrefixesNoWider(l.g) && Substantial(ps) && 0 < n < SumLen(ps)
    requires |ps| == 1 ==> ps[0].Smiley?
    ensures !AllOnScreen(l, Draw(l, Reversed(ps), 0, n).cmds, ps, n)
  {
    PrefixSums(l.g, ps, 0, l.row, l.resize);
    var left := n - SumLen(ps[1..]);
    assert |ps| > 1 ==> SumLen(ps[1..]) > 0 by {
      if |ps| > 1 {
        LenFromFront(ps[1..]);
      }
    }
    var k: nat := if ps[0].Text? && left > 0 then left else 0;
    OnScreenExactly(l, ps, n, 0, k);
    assert !OnScreen(l, Draw(l, Reversed(ps), 0, n).cmds, ps, n, k);
  }

  // ----- Texts that fit -----

  /** An ordered parse, one text height, no text wider for having characters taken away, a piece of some width
      at the end, and a rectangle that the measured text fits. */
  ghost predicate TextFits(g: Gdi, t: Input, rect: Rect, f: Format, i: ParseInfo) {
    && i.pieces.Some? && t.spres.Some? && OrderedMatches(t.spres.value)
    && (f.resize ==> g.wholeHeight == g.charHeight) && PrefixesNoWider(g)
    && EndsWide(LineOf(g, rect, f, i.maxHeight), i.pieces.value)
    && 0 < TextWidth(g, i, f) <= rect.Width()
  }

  /** What the parser has to leave alone: right to left it may not reach beyond the characters to be drawn, left
      to right no drawable match may straddle their end. */
  ghost predicate WithinText(t: Input, f: Format)
    requires t.spres.Some?
  {
    if f.rtl then t.nCount == 0 || LastEnd(t.spres.value) <= t.nCount
    else !exists m :: m in t.spres.value && Straddles(m, t.nCount)
  }

  lemma {:induction false} FitIsRoomy(g: Gdi, t: Input, rect: Rect, f: Format, i: ParseInfo)
    requires ParseOf(t, i) && TextFits(g, t, rect, f, i)
    ensures var l, ps := FitLine(g, rect, f, i), i.pieces.value;
            && Roomy(l, VisitOrder(ps, f.rtl), 0) && Substantial(ps)
            && l.free.Width() == TextWidth(g, i, f) > 0
  {
    var l, ps := FitLine(g, rect, f, i), i.pieces.value;
    PartitionSubstantial(t.spres.value, ps, Max(t.nCount, LastEnd(t.spres.value)));
    SameWidths(g, l.free, ps, f, i.maxHeight);
  }

  /** A parse that reaches beyond the text leaves a smiley. */
  lemma {:induction false} LongParseHasSmiley(ms: seq<Match>, ps: seq<Piece>, total: nat)
    requires Partition(ps, IconPlaces(ms), total) && LastEnd(ms) > 0 && |ps| == 1
    ensures ps[0].Smiley?
  {
    LastEndHasIcon(ms);
    assert Places(ps[..0]) == [];
  }

  lemma {:induction false} LastEndHasIcon(ms: seq<Match>)
    requires LastEnd(ms) > 0
    ensures IconPlaces(ms) != []
    decreases |ms|
  {
    if ms[|ms| - 1].icon != 0 {
    } else {
      LastEndHasIcon(ms[..|ms| - 1]);
    }
  }

  /** In a rectangle that the measured text fits, every character to be drawn is on the screen if and only if
      the parse stays within the text, in the sense that the reading direction asks for. */
  lemma {:induction false} TextOnScreenExactly(g: Gdi, t: Input, rect: Rect, f: Format, i: ParseInfo)
    requires ParseOf(t, i) && TextFits(g, t, rect, f, i)
    ensures AllOnScreen(FitLine(g, rect, f, i), Calls(g, t.nCount, rect, f, i), i.pieces.value, t.nCount)
            <==> WithinText(t, f)
  {
    var l, ps, ms := FitLine(g, rect, f, i), i.pieces.value, t.spres.value;
    FitIsRoomy(g, t, rect, f, i);
    if f.rtl {
      if |ps| == 1 && t.nCount < SumLen(ps) {
        LongParseHasSmiley(ms, ps, SumLen(ps));
      }
      RightToLeftExactly(l, ps, t.nCount);
    } else {
      LeftToRightExactly(l, ps, t.nCount);
      StraddlesAlike(ms, ps, SumLen(ps), t.nCount);
    }
  }

  /** Right to left, "ab" followed by a smiley, with the text said to end before the smiley: the icon uses up
      the budget, and neither letter appears. */
  lemma {:induction false} ReachingBeyondLosesText()
    ensures var ms, ps := [Match(2, 2, 5, Some((10, 10)))], [Text(2, 0), Smiley(2, 5, 10, 10)];
            var g, f, rect := Gdi((_, n) => n, 12, 10, 10), Format(true, false, false), Rect(0, 0, 12, 10);
            && OrderedMatches(ms) && Partition(ps, IconPlaces(ms), Max(2, LastEnd(ms))) && Tallest(ps, 10)
            && DrawAll(g, rect, 2, ps, f, 10).cmds == [DrawIcon(5, 2, 0, 10, 10)]
  {
    var ms, ps := [Match(2, 2, 5, Some((10, 10)))], [Text(2, 0), Smiley(2, 5, 10, 10)];
    var g, f, rect := Gdi((_, n) => n, 12, 10, 10), Format(true, false, false), Rect(0, 0, 12, 10);
    var l := LineOf(g, rect, f, 10);
    assert ps[..1] == [Text(2, 0)] && ps[..0] == [] && ms[..0] == [];
    assert SumLen(ps[..1]) == 2;
    assert CleanAt(ps, 0) && CleanAt(ps, 1);
    assert Places(ps[..1]) == [];
    assert ps[1].height == 10;
    assert Reversed(ps) == [ps[1], ps[0]];
    assert [ps[1], ps[0]][1..] == [ps[0]];
    assert DrawPiece(l, ps[1], 0, 2) == ([DrawIcon(5, 2, 0, 10, 10)], 10, 0);
    assert Draw(l, [ps[0]], 10, 0).cmds == [];
  }

  /** End to end, from the parse to the pixels, when no drawable match ends beyond the text: every piece is
      shown, every character is on the screen, the run fills the narrowed rectangle exactly, and nothing leaves
      it or overlaps. */
  lemma {:induction false} WholeTextShown(g: Gdi, t: Input, rect: Rect, f: Format, i: ParseInfo)
    requires ParseOf(t, i) && TextFits(g, t, rect, f, i) && LastEnd(t.spres.value) <= t.nCount
    ensures var l, cmds := FitLine(g, rect, f, i), Calls(g, t.nCount, rect, f, i);
            && AllShown(l, cmds, VisitOrder(i.pieces.value, f.rtl)) && SafeRun(l, cmds, 0)
            && AllOnScreen(l, cmds, i.pieces.value, t.nCount)
    ensures var l := FitLine(g, rect, f, i);
            var r := DrawAll(g, l.free, t.nCount, i.pieces.value, f, i.maxHeight);
            r.pos == TextWidth(g, i, f) == l.free.Width() && r.len == 0
  {
    var l, ps := FitLine(g, rect, f, i), i.pieces.value;
    FitIsRoomy(g, t, rect, f, i);
    MeasureAndDrawAgree(g, l.free, t.nCount, ps, f, i.maxHeight);
    LayoutSafety(g, l.free, t.nCount, ps, f, i.maxHeight);
    assert WithinText(t, f) by {
      forall m | m in t.spres.value && m.icon != 0
        ensures m.startChar + m.size <= t.nCount
      {
        LastEndLast(t.spres.value, m);
      }
    }
    TextOnScreenExactly(g, t, rect, f, i);
  }

  /** Nothing leaves the rectangle or overlaps, and each piece is drawn at its place. If the text fits, every
      character is on the screen exactly if the parse stays within the text, and every piece is shown if no
      drawable match ends beyond it. */
  ghost predicate Promises(g: Gdi, t: Input, rect: Rect, f: Format, i: ParseInfo, cmds: seq<Cmd>)
    requires i.pieces.Some?
  {
    var l, ps := FitLine(g, rect, f, i), i.pieces.value;
    && (rect.Width() >= 0 ==> SafeRun(l, cmds, 0))
    && (l.free.Width() > 0 ==> exists calls :: PicturesAll(l, VisitOrder(ps, f.rtl), t.nCount, cmds, calls))
    && (TextFits(g, t, rect, f, i) ==>
          && (AllOnScreen(l, cmds, ps, t.nCount) <==> WithinText(t, f))
          && (LastEnd(t.spres.value) <= t.nCount ==> AllShown(l, cmds, VisitOrder(ps, f.rtl))))
  }

  lemma {:induction false} DrawingKeepsPromises(g: Gdi, t: Input, rect: Rect, f: Format, i: ParseInfo)
    requires i.pieces.Some? && ParseOf(t, i)
    ensures Promises(g, t, rect, f, i, Calls(g, t.nCount, rect, f, i))
  {
    LayoutSafety(g, FitLine(g, rect, f, i).free, t.nCount, i.pieces.value, f, i.maxHeight);
    var _ := RunPictured(FitLine(g, rect, f, i), VisitOrder(i.pieces.value, f.rtl), t.nCount);
    if TextFits(g, t, rect, f, i) {
      TextOnScreenExactly(g, t, rect, f, i);
      if LastEnd(t.spres.value) <= t.nCount {
        WholeTextShown(g, t, rect, f, i);
      }
    }
  }

  /** Smileys_DrawText, with the parse it is given or the one it makes itself. */
  method SmileysDrawText(g: Gdi, t: Input, rect0: Rect, calcOnly: bool, f: Format, parseInfo: Option<ParseInfo>)
    returns (ret: int, rect: Rect, cmds: seq<Cmd>, info: ParseInfo)
    ensures if parseInfo.Some? then info == parseInfo.value else ParseOf(t, info)
    ensures ret == TextHeight(g, info, f)
    ensures if info.pieces.None? || f.resize then ret == g.wholeHeight
            else ret >= g.wholeHeight && ret >= info.maxHeight && (ret == g.wholeHeight || ret == info.maxHeight)
    ensures calcOnly ==> cmds == [] && rect == Measured(g, rect0, f, info)
    ensures calcOnly ==> && rect.top == rect0.top && rect.Width() == Min(TextWidth(g, info, f), rect0.Width())
                         && (if f.alignRight then rect.right == rect0.right else rect.left == rect0.left)
                         && rect.bottom <= rect0.bottom && rect.bottom - rect.top <= ret
                         && (rect.bottom == rect0.bottom || rect.bottom - rect.top == ret)
    ensures !calcOnly ==> rect == rect0 && cmds == Calls(g, t.nCount, rect0, f, info)
    ensures !calcOnly && info.pieces.None? ==> cmds == [DrawText(0, t.nCount, rect0)]
    ensures !calcOnly && info.pieces.Some? && ParseOf(t, info) ==> Promises(g, t, rect0, f, info, cmds)
  {
    if parseInfo.None? {
      var pieces, maxHeight := ReplaceSmileys(t.emptyText, t.nCount, t.parser, t.spres);
      info := ParseInfo(pieces, maxHeight);
    } else {
      info := parseInfo.value;
    }
    rect, cmds := rect0, [];
    if calcOnly {
      var cx, cy, _ := GetTextSize(true, info.pieces, g, f, info.maxHeight);
      rect := rect.(bottom := Min(rect.bottom, rect.top + cy));
      rect := Narrow(rect, cx, f.alignRight);
      ret := cy;
    } else if info.pieces.None? {
      cmds := [DrawText(0, t.nCount, rect)];
      ret := g.wholeHeight;
    } else {
      ret, cmds := DrawFitted(g, t.nCount, rect0, f, info);
      if ParseOf(t, info) {
        DrawingKeepsPromises(g, t, rect0, f, info);
      }
    }
  }

  /** The drawing branch, for a text in pieces. */
  method DrawFitted(g: Gdi, nCount: nat, rect: Rect, f: Format, info: ParseInfo) returns (ret: nat, cmds: seq<Cmd>)
    requires info.pieces.Some?
    ensures ret == TextHeight(g, info, f) && cmds == Calls(g, nCount, rect, f, info)
  {
    var cx, cy, _ := GetTextSize(true, info.pieces, g, f, info.maxHeight);
    var rc := Narrow(rect, cx, f.alignRight);
    var drawn, _, _, _ := DrawTextSmiley(g, rc, true, nCount, info.pieces.value, f, info.maxHeight);
    return cy, drawn;
  }

  /** The narrowing that measuring and drawing have in common. */
  method Narrow(rect0: Rect, cx: nat, alignRight: bool) returns (rect: Rect)
    ensures rect == FitRect(rect0, cx, alignRight)
  {
    rect := rect0;
    if cx < rect.right - rect.left {
      if alignRight {
        rect := rect.(left := rect.right - cx);
      } else {
        rect := rect.(right := rect.left + cx);
      }
    }
  }

  /** A measured width of zero narrows the rectangle to nothing, and then, and only then, the ellipsis of an
      empty rectangle is all that is drawn. */
  lemma {:induction false} NothingMeasured(g: Gdi, nCount: nat, rect: Rect, f: Format, ps: seq<Piece>, maxHeight: nat)
    requires rect.Width() > 0
    requires TotalWidth(g, ps, RowHeight(g.wholeHeight, maxHeight, f.resize), f.resize) <= rect.Width()
    ensures var cx := TotalWidth(g, ps, RowHeight(g.wholeHeight, maxHeight, f.resize), f.resize);
            var fit := FitRect(rect, cx, f.alignRight);
            cx == 0 <==> DrawAll(g, fit, nCount, ps, f, maxHeight) == Run([Ellipsis(fit)], 0, nCount, 0)
  {}
}
