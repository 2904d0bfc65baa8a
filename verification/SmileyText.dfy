/** ReplaceSmileys of utils/mir_smileys.cpp: cutting a text into runs of characters and smileys. */
module SmileyText {
  import opened Arithmetic

  datatype Option<T> = None | Some(value: T)

  /** One record of the smiley parser. `icon` is 0 for a defective smiley pack; `bitmap` is the size that
      GetIconInfo and GetObject report, if they succeed. */
  datatype Match = Match(startChar: nat, size: nat, icon: nat, bitmap: Option<(nat, nat)>)

  datatype Piece =
    | Text(len: nat, startPos: nat)
    | Smiley(len: nat, icon: nat, width: nat, height: nat)

  function SmileyOf(m: Match): Piece {
    match m.bitmap
    case None => Smiley(m.size, m.icon, 16, 16)
    case Some(size) => Smiley(m.size, m.icon, size.0, size.1)
  }

  // ----- What a segmentation has to say -----

  /** How many characters the pieces stand for. */
  function SumLen(ps: seq<Piece>): nat {
    if ps == [] then 0 else SumLen(ps[..|ps| - 1]) + ps[|ps| - 1].len
  }

  /** The smileys of a list of pieces, each with the number of characters before it. */
  function Places(ps: seq<Piece>): seq<(nat, Piece)> {
    if ps == [] then []
    else
      var init, last := ps[..|ps| - 1], ps[|ps| - 1];
      Places(init) + if last.Smiley? then [(SumLen(init), last)] else []
  }

  /** The matches that can be drawn, each where the parser found it. */
  function IconPlaces(ms: seq<Match>): seq<(nat, Piece)> {
    if ms == [] then []
    else
      var last := ms[|ms| - 1];
      IconPlaces(ms[..|ms| - 1]) + if last.icon != 0 then [(last.startChar, SmileyOf(last))] else []
  }

  /** Where the last match that can be drawn ends. */
  function LastEnd(ms: seq<Match>): nat {
    if ms == [] then 0
    else
      var last := ms[|ms| - 1];
      if last.icon != 0 then last.startChar + last.size else LastEnd(ms[..|ms| - 1])
  }

  /** What the parser is expected to report: non-empty matches, front to back, not overlapping. */
  ghost predicate OrderedMatches(ms: seq<Match>) {
    && (forall i :: 0 <= i < |ms| ==> ms[i].size > 0)
    && (forall i, j :: 0 <= i < j < |ms| ==> ms[i].startChar + ms[i].size <= ms[j].startChar)
  }

  /** Text pieces are never empty, never adjacent, and start where the pieces before them end. */
  ghost predicate Clean(ps: seq<Piece>) {
    forall k :: 0 <= k < |ps| ==> CleanAt(ps, k)
  }

  ghost predicate CleanAt(ps: seq<Piece>, k: nat)
    requires k < |ps|
  {
    ps[k].Text? ==> ps[k].len > 0 && ps[k].startPos == SumLen(ps[..k]) && (k > 0 ==> ps[k - 1].Smiley?)
  }

  /** A partition of `total` characters around the smileys at the given places. */
  ghost predicate Partition(ps: seq<Piece>, places: seq<(nat, Piece)>, total: nat) {
    Clean(ps) && Places(ps) == places && SumLen(ps) == total
  }

  /** h is the largest smiley height, or 0 if there is no smiley. */
  ghost predicate Tallest(ps: seq<Piece>, h: nat) {
    && (forall k :: 0 <= k < |ps| && ps[k].Smiley? ==> ps[k].height <= h)
    && (h == 0 || exists k :: 0 <= k < |ps| && ps[k].Smiley? && ps[k].height == h)
  }

  // ----- The segmentation is determined by its places -----

  lemma {:induction false} CleanPrefix(ps: seq<Piece>)
    requires ps != [] && Clean(ps)
    ensures Clean(ps[..|ps| - 1])
  {
    var init := ps[..|ps| - 1];
    forall k | 0 <= k < |init|
      ensures CleanAt(init, k)
    {
      assert CleanAt(ps, k);
      CleanInPrefix(init, ps, k);
    }
  }

  lemma {:induction false} CleanInPrefix(init: seq<Piece>, ps: seq<Piece>, k: nat)
    requires k < |init| && init <= ps
    ensures CleanAt(init, k) <==> CleanAt(ps, k)
  {
    assert init[..k] == ps[..k];
  }

  /** The end of the last smiley, from the places alone. */
  function PlacesEnd(places: seq<(nat, Piece)>): nat {
    if places == [] then 0 else places[|places| - 1].0 + places[|places| - 1].1.len
  }

  lemma {:induction false} EndOfPieces(ps: seq<Piece>)
    requires Clean(ps)
    ensures (ps == [] || ps[|ps| - 1].Smiley?) ==> SumLen(ps) == PlacesEnd(Places(ps))
    ensures ps != [] && ps[|ps| - 1].Text? ==>
              && SumLen(ps[..|ps| - 1]) == PlacesEnd(Places(ps)) < SumLen(ps)
              && ps[|ps| - 1].startPos == PlacesEnd(Places(ps))
  {
    assert ps != [] ==> CleanAt(ps, |ps| - 1);
    if ps != [] && ps[|ps| - 1].Text? && |ps| > 1 {
      CleanPrefix(ps);
      EndOfPieces(ps[..|ps| - 1]);
    }
  }

  /** There is only one partition around given places: it merges everything else into maximal runs. */
  lemma {:induction false} PartitionUnique(ps: seq<Piece>, qs: seq<Piece>, places: seq<(nat, Piece)>, total: nat)
    requires Partition(ps, places, total) && Partition(qs, places, total)
    ensures ps == qs
    decreases |ps|
  {
    if ps != [] && qs != [] {
      var p, q := ps[..|ps| - 1], qs[..|qs| - 1];
      SameLast(ps, qs);
      PartitionUnique(p, q, Places(p), SumLen(p));
      assert ps == p + [ps[|ps| - 1]] && qs == q + [qs[|qs| - 1]];
    } else if ps != [] {
      EmptyPieces(ps);
    } else if qs != [] {
      EmptyPieces(qs);
    }
  }

  lemma {:induction false} SameLast(ps: seq<Piece>, qs: seq<Piece>)
    requires ps != [] && qs != [] && Clean(ps) && Clean(qs)
    requires Places(ps) == Places(qs) && SumLen(ps) == SumLen(qs)
    ensures ps[|ps| - 1] == qs[|qs| - 1]
    ensures Partition(ps[..|ps| - 1], Places(ps[..|ps| - 1]), SumLen(ps[..|ps| - 1]))
    ensures Partition(qs[..|qs| - 1], Places(ps[..|ps| - 1]), SumLen(ps[..|ps| - 1]))
  {
    EndOfPieces(ps);
    EndOfPieces(qs);
    CleanPrefix(ps);
    CleanPrefix(qs);
    PlacesPrefix(ps);
    PlacesPrefix(qs);
  }

  lemma {:induction false} PlacesPrefix(ps: seq<Piece>)
    requires ps != []
    ensures var init, last, n := ps[..|ps| - 1], ps[|ps| - 1], |Places(ps)|;
            if last.Text? then Places(init) == Places(ps)
            else n > 0 && Places(ps)[n - 1] == (SumLen(init), last) && Places(init) == Places(ps)[..n - 1]
  {}

  /** A non-empty clean list stands for some character or holds a smiley. */
  lemma {:induction false} EmptyPieces(ps: seq<Piece>)
    requires ps != [] && Clean(ps)
    ensures Places(ps) != [] || SumLen(ps) > 0
  {
    assert CleanAt(ps, |ps| - 1);
  }

  // ----- The loop -----

  lemma {:induction false} LastEndBound(ms: seq<Match>, i: nat)
    requires OrderedMatches(ms) && i < |ms|
    ensures LastEnd(ms[..i]) <= ms[i].startChar
  {
    if i == 0 {
    } else {
      assert ms[..i][..i - 1] == ms[..i - 1];
      LastEndBound(ms, i - 1);
    }
  }

  lemma {:induction false} AppendSums(ps: seq<Piece>, p: Piece)
    ensures SumLen(ps + [p]) == SumLen(ps) + p.len
    ensures Places(ps + [p]) == Places(ps) + if p.Smiley? then [(SumLen(ps), p)] else []
  {}

  lemma {:induction false} Append(ps: seq<Piece>, p: Piece)
    ensures SumLen(ps + [p]) == SumLen(ps) + p.len
    ensures Places(ps + [p]) == Places(ps) + if p.Smiley? then [(SumLen(ps), p)] else []
    ensures Clean(ps) && (p.Text? ==> p.len > 0 && p.startPos == SumLen(ps) && (ps == [] || ps[|ps| - 1].Smiley?))
            ==> Clean(ps + [p])
  {
    AppendSums(ps, p);
    var qs := ps + [p];
    assert qs[..|ps|] == ps;
    forall k | 0 <= k < |ps|
      ensures CleanAt(qs, k) <==> CleanAt(ps, k)
    {
      CleanInPrefix(ps, qs, k);
    }
  }

  lemma {:induction false} TallestAppend(ps: seq<Piece>, p: Piece, h: nat)
    requires Tallest(ps, h)
    ensures Tallest(ps + [p], if p.Smiley? then Max(p.height, h) else h)
  {
    var qs, m := ps + [p], if p.Smiley? then Max(p.height, h) else h;
    if m == h && h != 0 {
      var k :| 0 <= k < |ps| && ps[k].Smiley? && ps[k].height == h;
      assert qs[k] == ps[k];
    } else if m != 0 {
      assert qs[|ps|] == p;
    }
  }

  /** The pieces made from the first i matches, and the end of the last one drawn. */
  ghost predicate UpTo(ms: seq<Match>, i: nat, ps: seq<Piece>, next: nat) {
    && i <= |ms|
    && Partition(ps, IconPlaces(ms[..i]), next) && next == LastEnd(ms[..i])
    && (ps == [] || ps[|ps| - 1].Smiley?)
  }

  function WithText(ps: seq<Piece>, from: nat, to: nat): seq<Piece> {
    if to > from then ps + [Text(to - from, from)] else ps
  }

  lemma {:induction false} TextAdded(ps: seq<Piece>, from: nat, to: nat)
    requires Clean(ps) && SumLen(ps) == from && (ps == [] || ps[|ps| - 1].Smiley?)
    ensures Partition(WithText(ps, from, to), Places(ps), Max(from, to))
  {
    if to > from {
      Append(ps, Text(to - from, from));
    }
  }

  lemma {:induction false} MatchTaken(ms: seq<Match>, i: nat, ps: seq<Piece>, next: nat)
    requires i < |ms| && OrderedMatches(ms) && UpTo(ms, i, ps, next)
    ensures var m := ms[i];
            if m.icon == 0 then UpTo(ms, i + 1, ps, next)
            else UpTo(ms, i + 1, WithText(ps, next, m.startChar) + [SmileyOf(m)], m.startChar + m.size)
  {
    assert ms[..i + 1][..i] == ms[..i];
    LastEndBound(ms, i);
    TextAdded(ps, next, ms[i].startChar);
    Append(WithText(ps, next, ms[i].startChar), SmileyOf(ms[i]));
  }

  // ----- Smiley pieces and matches -----

  lemma {:induction false} PlacedSmileys(ps: seq<Piece>, k: nat)
    requires k < |ps| && ps[k].Smiley?
    ensures exists j :: 0 <= j < |Places(ps)| && Places(ps)[j] == (SumLen(ps[..k]), ps[k])
    decreases |ps|
  {
    var init := ps[..|ps| - 1];
    if k == |init| {
      assert Places(ps)[|Places(init)|] == (SumLen(ps[..k]), ps[k]);
    } else {
      PlacedSmileys(init, k);
      assert init[..k] == ps[..k];
      var j :| 0 <= j < |Places(init)| && Places(init)[j] == (SumLen(init[..k]), init[k]);
      assert Places(ps)[j] == Places(init)[j];
    }
  }

  lemma {:induction false} IconOfMatch(ms: seq<Match>, j: nat)
    requires j < |IconPlaces(ms)|
    ensures exists m :: m in ms && m.icon != 0 && IconPlaces(ms)[j] == (m.startChar, SmileyOf(m))
    decreases |ms|
  {
    var init, last := ms[..|ms| - 1], ms[|ms| - 1];
    if j == |IconPlaces(init)| {
      assert last in ms;
    } else {
      IconOfMatch(init, j);
      var m :| m in init && m.icon != 0 && IconPlaces(init)[j] == (m.startChar, SmileyOf(m));
      assert m in ms;
    }
  }

  lemma {:induction false} MatchHasPlace(ms: seq<Match>, m: Match) returns (j: nat)
    requires m in ms && m.icon != 0
    ensures j < |IconPlaces(ms)| && IconPlaces(ms)[j] == (m.startChar, SmileyOf(m))
    decreases |ms|
  {
    var init, last := ms[..|ms| - 1], ms[|ms| - 1];
    if m == last {
      j := |IconPlaces(ms)| - 1;
    } else {
      j := MatchHasPlace(init, m);
      assert IconPlaces(ms)[j] == IconPlaces(init)[j];
    }
  }

  lemma {:induction false} PlaceHasPiece(ps: seq<Piece>, j: nat) returns (k: nat)
    requires j < |Places(ps)|
    ensures k < |ps| && ps[k].Smiley? && Places(ps)[j] == (SumLen(ps[..k]), ps[k])
    decreases |ps|
  {
    var init := ps[..|ps| - 1];
    if j == |Places(init)| {
      k := |ps| - 1;
    } else {
      k := PlaceHasPiece(init, j);
      assert init[..k] == ps[..k];
    }
  }

  /** Piece j is the smiley of the match: where the match starts, as many characters, its icon, and the size of
      its bitmap, or 16 by 16 if that could not be read. */
  ghost predicate Depicts(ps: seq<Piece>, j: nat, m: Match)
    requires j < |ps|
  {
    && ps[j].Smiley? && ps[j].icon == m.icon
    && SumLen(ps[..j]) == m.startChar && ps[j].len == m.size
    && (m.bitmap.Some? ==> ps[j].width == m.bitmap.value.0 && ps[j].height == m.bitmap.value.1)
    && (m.bitmap.None? ==> ps[j].width == 16 && ps[j].height == 16)
  }

  /** Every match with an icon has its piece, and every smiley piece comes from such a match. */
  ghost predicate DepictsAll(ps: seq<Piece>, ms: seq<Match>) {
    && (forall m :: m in ms && m.icon != 0 ==> exists j :: 0 <= j < |ps| && Depicts(ps, j, m))
    && (forall j :: 0 <= j < |ps| && ps[j].Smiley? ==> exists m :: m in ms && m.icon != 0 && Depicts(ps, j, m))
  }

  lemma {:induction false} PartitionDepicts(ms: seq<Match>, ps: seq<Piece>, total: nat)
    requires Partition(ps, IconPlaces(ms), total)
    ensures DepictsAll(ps, ms)
  {
    forall m | m in ms && m.icon != 0
      ensures exists j :: 0 <= j < |ps| && Depicts(ps, j, m)
    {
      var j := MatchHasPlace(ms, m);
      var k := PlaceHasPiece(ps, j);
      assert Depicts(ps, k, m);
    }
    forall j | 0 <= j < |ps| && ps[j].Smiley?
      ensures exists m :: m in ms && m.icon != 0 && Depicts(ps, j, m)
    {
      PlacedSmileys(ps, j);
      var i :| 0 <= i < |Places(ps)| && Places(ps)[i] == (SumLen(ps[..j]), ps[j]);
      IconOfMatch(ms, i);
      var m :| m in ms && m.icon != 0 && IconPlaces(ms)[i] == (m.startChar, SmileyOf(m));
      assert Depicts(ps, j, m);
    }
  }

  /** No match with an icon ends later ... */
  lemma {:induction false} LastEndLast(ms: seq<Match>, m: Match)
    requires OrderedMatches(ms) && m in ms && m.icon != 0
    ensures m.startChar + m.size <= LastEnd(ms)
    decreases |ms|
  {
    var init, last := ms[..|ms| - 1], ms[|ms| - 1];
    if m == last {
    } else if last.icon == 0 {
      LastEndLast(init, m);
    } else {
      var k :| 0 <= k < |ms| && ms[k] == m;
      assert ms[k].startChar + ms[k].size <= last.startChar;
    }
  }

  /** ... and one of them ends there, if there is any. */
  lemma {:induction false} LastEndAttained(ms: seq<Match>)
    ensures LastEnd(ms) == 0 || exists m :: m in ms && m.icon != 0 && m.startChar + m.size == LastEnd(ms)
    decreases |ms|
  {
    if ms == [] {
    } else {
      var init, last := ms[..|ms| - 1], ms[|ms| - 1];
      if last.icon != 0 {
        assert last in ms;
      } else {
        LastEndAttained(init);
      }
    }
  }

  method AddText(ps: seq<Piece>, from: nat, to: nat, ghost h: nat) returns (qs: seq<Piece>)
    requires Tallest(ps, h)
    ensures Tallest(qs, h) && qs == WithText(ps, from, to)
  {
    qs := ps;
    if to > from {
      TallestAppend(ps, Text(to - from, from), h);
      qs := qs + [Text(to - from, from)];
    }
  }

  /** No list for an empty text, without the parser, or when it finds nothing. Otherwise the pieces are the
      partition around the smileys that can be drawn; they stand for the whole text, and for more only if
      the parser looked beyond text_size. */
  method ReplaceSmileys(emptyText: bool, textSize: nat, parser: bool, spres: Option<seq<Match>>)
    returns (plText: Option<seq<Piece>>, maxHeight: nat)
    ensures plText.None? <==> emptyText || !parser || spres.None?
    ensures plText.None? ==> maxHeight == 0
    ensures plText.Some? ==> Tallest(plText.value, maxHeight)
    ensures plText.Some? && OrderedMatches(spres.value) ==>
              Partition(plText.value, IconPlaces(spres.value), Max(textSize, LastEnd(spres.value)))
    ensures plText.Some? && OrderedMatches(spres.value) ==> DepictsAll(plText.value, spres.value)
  {
    maxHeight := 0;
    if emptyText || !parser || spres.None? {
      return None, 0;
    }
    var ms := spres.value;
    var ps: seq<Piece> := [];
    var next: nat := 0;
    for i := 0 to |ms|
      invariant Tallest(ps, maxHeight)
      invariant OrderedMatches(ms) ==> UpTo(ms, i, ps, next)
    {
      var start := ms[i].startChar;
      var end := start + ms[i].size;
      if OrderedMatches(ms) {
        MatchTaken(ms, i, ps, next);
      }
      if ms[i].icon != 0 {
        ps := AddText(ps, next, start, maxHeight);
        var piece := SmileyOf(ms[i]);
        TallestAppend(ps, piece, maxHeight);
        maxHeight := Max(piece.height, maxHeight);
        ps := ps + [piece];
        next := end;
      }
    }
    assert ms[..|ms|] == ms;
    if OrderedMatches(ms) {
      TextAdded(ps, next, textSize);
      PartitionDepicts(ms, WithText(ps, next, textSize), Max(next, textSize));
    }
    ps := AddText(ps, next, textSize, maxHeight);
    return Some(ps), maxHeight;
  }

  /** The pieces stand for exactly text_size characters if and only if no drawable match ends beyond it. */
  lemma {:induction false} PartitionOfText(ms: seq<Match>, ps: seq<Piece>, textSize: nat)
    requires Partition(ps, IconPlaces(ms), Max(textSize, LastEnd(ms)))
    ensures SumLen(ps) == textSize <==> LastEnd(ms) <= textSize
  {}
}
