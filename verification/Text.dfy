/** What text printed by kernel/display.c looks like: a line shows its glyphs side by side,
    a backspace takes the last one away again, and a scroll moves whole rows. */
module Text {
  import opened Words
  import opened Display

  /** Column col of a glyph's row is bit col of its byte: the lowest bit is leftmost. */
  lemma InkBit(glyph: seq<bv8>, row: nat, col: nat)
    requires |glyph| == 8 && row < 8 && col < 8
    ensures Ink(glyph, row, col) <==> (glyph[row] >> col) & 1 == 1
  {
    var b := glyph[row];
    match col
    case 0 => assert b & 1 != 0 <==> b & 1 == 1;
    case 1 => assert b & 2 != 0 <==> (b >> 1) & 1 == 1;
    case 2 => assert b & 4 != 0 <==> (b >> 2) & 1 == 1;
    case 3 => assert b & 8 != 0 <==> (b >> 3) & 1 == 1;
    case 4 => assert b & 16 != 0 <==> (b >> 4) & 1 == 1;
    case 5 => assert b & 32 != 0 <==> (b >> 5) & 1 == 1;
    case 6 => assert b & 64 != 0 <==> (b >> 6) & 1 == 1;
    case 7 => assert b & 128 != 0 <==> (b >> 7) & 1 == 1;
  }

  /** Neither line feed, carriage return nor backspace. */
  predicate Plain(c: Byte) {
    c != LF && c != CR && c != BS
  }

  /** The n characters from v on fit on the line, with room for one more. */
  predicate RoomFor(g: Geometry, v: View, n: nat) {
    n > 0 ==> v.x + 8 * n + 8 < g.w
  }

  /** The pixel due at row r, column z once s was printed from v on. */
  function LinePixel(g: Geometry, v: View, s: seq<Byte>, r: nat, z: nat): Pixel
    requires Usual(g) && Idx(g.pitch, r, z) < |v.cells|
  {
    if v.y <= r < v.y + 8 && v.x <= z < v.x + 8 * |s| then
      var i := (z - v.x) / 8;
      if Ink(g.font[s[i]], r - v.y, (z - v.x) % 8) then FG else BG
    else v.cells[Idx(g.pitch, r, z)]
  }

  ghost predicate LineCell(g: Geometry, v: View, s: seq<Byte>, v': View, r: nat, z: nat)
    requires Usual(g) && Idx(g.pitch, r, z) < |v.cells|
  {
    Idx(g.pitch, r, z) < |v'.cells| && v'.cells[Idx(g.pitch, r, z)] == LinePixel(g, v, s, r, z)
  }

  /** A text without control characters that fits on the line: character i shows its glyph in
      the eight columns from 8 * i on, no other pixel changes, and the cursor is behind it. */
  lemma {:induction false} LineShows(g: Geometry, v: View, s: seq<Byte>, v': View, r: nat, z: nat)
    requires Usual(g) && Typed(g, v, s, v') && RoomFor(g, v, |s|) && forall c :: c in s ==> Plain(c)
    requires r < g.h && z < g.pitch && Idx(g.pitch, r, z) < |v.cells|
    ensures v'.x == v.x + 8 * |s| && v'.y == v.y && LineCell(g, v, s, v', r, z)
    decreases |s|
  {
    if s != [] {
      var k := |s| - 1;
      var m :| Typed(g, v, s[..k], m) && Put(g, m, s[k], v');
      assert s[k] in s && forall c :: c in s[..k] ==> c in s;
      hide Typed, Ink, Idx;
      LineShows(g, v, s[..k], m, r, z);
      NextGlyph(g, v, s, m, v', r, z);
    }
  }

  lemma NextGlyph(g: Geometry, v: View, s: seq<Byte>, m: View, v': View, r: nat, z: nat)
    requires Usual(g) && |s| > 0 && Put(g, m, s[|s| - 1], v') && Plain(s[|s| - 1]) && RoomFor(g, v, |s|)
    requires r < g.h && z < g.pitch && Idx(g.pitch, r, z) < |v.cells| && LineCell(g, v, s[..|s| - 1], m, r, z)
    requires m.x == v.x + 8 * (|s| - 1) && m.y == v.y
    ensures v'.x == v.x + 8 * |s| && v'.y == v.y && LineCell(g, v, s, v', r, z)
  {
    var k := |s| - 1;
    assert DrawnAt(m.cells, v'.cells, g.pitch, g.w, g.font[s[k]], m.x, m.y, 64, r, z);
    hide Ink, Idx, Drawn;
    if v.y <= r < v.y + 8 && v.x <= z < v.x + 8 * |s| { GlyphColumn(z - v.x, k); }
  }

  lemma GlyphColumn(d: nat, k: nat)
    requires d < 8 * (k + 1)
    ensures d / 8 <= k && (d / 8 == k <==> d >= 8 * k) && (d >= 8 * k ==> d % 8 == d - 8 * k)
  {
  }

  /** The box at the cursor of v shows the glyph of a space. */
  ghost predicate Blank(g: Geometry, v: View)
    requires Usual(g)
  {
    forall r: nat, z: nat :: r < g.h && InGlyph(g.w, v.x, v.y, 64, r, z) ==> BlankCell(g, v, r, z)
  }

  ghost predicate BlankCell(g: Geometry, v: View, r: nat, z: nat)
    requires Usual(g)
  {
    var k := Idx(g.pitch, r, z);
    k < |v.cells| && v.x <= z < v.x + 8 && v.y <= r < v.y + 8
    && v.cells[k] == GlyphPixel(g.font[SPACE], v.x, v.y, r, z)
  }

  /** A character and then a backspace: the cursor is back, and so is the picture if the box
      was blank; otherwise only the box has changed, and is blank now. */
  lemma BackspaceUndoes(g: Geometry, v: View, c: Byte, m: View, v': View)
    requires Put(g, v, c, m) && Plain(c) && v.x + 16 < g.w && Put(g, m, BS, v')
    requires |v.cells| == |v'.cells| == g.h * g.pitch
    ensures v'.x == v.x && v'.y == v.y && Blank(g, v') && (v'.cells == v.cells <==> Blank(g, v))
  {
    var glyph, space := g.font[c], g.font[SPACE];
    assert Drawn(v.cells, m.cells, g.pitch, g.w, g.h, glyph, v.x, v.y, 64);
    assert Drawn(m.cells, v'.cells, g.pitch, g.w, g.h, space, v.x, v.y, 64);
    hide Put, Ink, Idx;
    forall r: nat, z: nat | r < g.h && InGlyph(g.w, v.x, v.y, 64, r, z) ensures BlankCell(g, v', r, z) {
      assert DrawnAt(m.cells, v'.cells, g.pitch, g.w, space, v.x, v.y, 64, r, z);
    }
    if Blank(g, v) {
      forall k | 0 <= k < |v.cells| ensures v'.cells[k] == v.cells[k] { SameAgain(g, v, glyph, m, v', k); }
    }
  }

  lemma SameAgain(g: Geometry, v: View, glyph: seq<bv8>, m: View, v': View, k: nat)
    requires Usual(g) && |glyph| == 8 && Blank(g, v) && |v.cells| == |v'.cells| == g.h * g.pitch && k < |v.cells|
    requires Drawn(v.cells, m.cells, g.pitch, g.w, g.h, glyph, v.x, v.y, 64)
    requires Drawn(m.cells, v'.cells, g.pitch, g.w, g.h, g.font[SPACE], v.x, v.y, 64)
    ensures v'.cells[k] == v.cells[k]
  {
    var r, z := CellOf(g.pitch, g.h, k);
    assert DrawnAt(v.cells, m.cells, g.pitch, g.w, glyph, v.x, v.y, 64, r, z);
    assert DrawnAt(m.cells, v'.cells, g.pitch, g.w, g.font[SPACE], v.x, v.y, 64, r, z);
    hide Ink, Idx, Drawn;
    if InGlyph(g.w, v.x, v.y, 64, r, z) { assert BlankCell(g, v, r, z); }
  }

  /** After a character and a backspace the cursor is where it was exactly if the character
      did not end the line, or ended it at the right edge without a scroll: a backspace goes
      to the last eight columns of the line above, whatever was printed there. (On a screen of
      one column and one line it stays.) */
  lemma BackspaceReturnsIff(w: nat, h: nat, x: nat, y: nat, c: Byte)
    requires Plain(c) && (x == 0 || x + 8 <= w) && y + 10 < h
    ensures var (x1, y1) := CursorAfter(w, h, x, y, c);
            CursorAfter(w, h, x1, y1, BS) == (x, y) <==>
            x + 16 < w || (if y + 20 < h then x == (if w >= 8 then w - 8 else 0) else x == 0 && y < 10)
  {
  }

  /** How many characters a line takes. */
  function PerLine(w: nat): (p: nat)
    ensures p > 0
  {
    if w <= 16 then 1 else (w - 1) / 8
  }

  /** How many lines there are below line y. */
  function Below(h: nat, y: nat): nat { if y + 20 >= h then 0 else (h - 11 - y) / 10 }

  function FullLines(n: nat, p: nat): nat
    requires p > 0
  {
    n / p
  }

  /** The cursor after n characters from the start of line y on. */
  function FlowsTo(w: nat, h: nat, y: nat, n: nat): (nat, nat) {
    var line, below := FullLines(n, PerLine(w)), Below(h, y);
    (8 * (n % PerLine(w)), y + 10 * (if line < below then line else below))
  }

  /** Text without control characters fills line after line; on the last line it stays, and
      the picture scrolls. */
  lemma {:induction false} TextFlows(g: Geometry, v: View, s: seq<Byte>, v': View)
    requires Typed(g, v, s, v') && v.x == 0 && forall c :: c in s ==> Plain(c)
    ensures (v'.x, v'.y) == FlowsTo(g.w, g.h, v.y, |s|)
    decreases |s|
  {
    if s != [] {
      var k := |s| - 1;
      var m :| Typed(g, v, s[..k], m) && Put(g, m, s[k], v');
      assert s[k] in s && forall c :: c in s[..k] ==> c in s;
      hide Typed, Printed, FlowsTo, CursorAfter;
      TextFlows(g, v, s[..k], m);
      FlowsOn(g.w, g.h, v.y, k, s[k]);
    }
  }

  lemma FlowsOn(w: nat, h: nat, y: nat, n: nat, c: Byte)
    requires Plain(c)
    ensures var (x', y') := FlowsTo(w, h, y, n); CursorAfter(w, h, x', y', c) == FlowsTo(w, h, y, n + 1)
  {
    Fills(w, n);
    Descends(h, y, n / PerLine(w));
    hide PerLine, Below;
  }

  lemma Fills(w: nat, n: nat)
    ensures var p := PerLine(w);
            && (8 * (n % p) + 16 >= w <==> n % p == p - 1)
            && (n % p == p - 1 ==> (n + 1) % p == 0 && (n + 1) / p == n / p + 1)
            && (n % p != p - 1 ==> (n + 1) % p == n % p + 1 && (n + 1) / p == n / p)
  {
    var p := PerLine(w);
    NextOf(n, p);
    assert n % p < p;
    hide PerLine;
    LineEnds(w, n % p);
  }

  lemma LineEnds(w: nat, i: nat)
    requires i < PerLine(w)
    ensures 8 * i + 16 >= w <==> i == PerLine(w) - 1
  {
  }

  lemma NextOf(n: nat, p: nat)
    requires p > 0
    ensures n % p == p - 1 ==> (n + 1) % p == 0 && (n + 1) / p == n / p + 1
    ensures n % p != p - 1 ==> (n + 1) % p == n % p + 1 && (n + 1) / p == n / p
  {
    var q, r := n / p, n % p;
    assert n == q * p + r;
    if r == p - 1 {
      Quotient(n + 1, p, q + 1, 0);
    } else {
      Quotient(n + 1, p, q, r + 1);
    }
  }

  lemma Quotient(n: nat, p: nat, q: nat, r: nat)
    requires p > 0 && r < p && n == q * p + r
    ensures n / p == q && n % p == r
  {
    Multiples(n / p, q, p);
    Multiples(q, n / p, p);
    assert n == n / p * p + n % p;
  }

  lemma {:induction false} Multiples(a: nat, b: nat, p: nat)
    ensures a < b ==> a * p + p <= b * p
  {
    if a < b {
      assert b * p == (b - 1) * p + p;
      Multiples(a, b - 1, p);
    }
  }

  lemma Descends(h: nat, y: nat, n: nat)
    ensures var below := Below(h, y);
            var at := y + 10 * (if n < below then n else below);
            at + 20 >= h <==> n >= below
  {
  }

  /** Cell (y, x) shows what was ten rows below it, or background in the last ten rows. */
  ghost predicate RowMoved(a: seq<Pixel>, a': seq<Pixel>, pitch: nat, h: nat, y: nat, x: nat) {
    var k, below := Idx(pitch, y, x), Idx(pitch, y + 10, x);
    k < |a'| && if y + 10 < h then below < |a| && a'[k] == a[below] else a'[k] == BG
  }

  /** A scroll takes every row ten rows up and leaves ten rows of background, provided the
      number of pixels that move is even. */
  lemma ScrollMovesRows(a: seq<Pixel>, a': seq<Pixel>, pitch: nat, h: nat, y: nat, x: nat)
    requires h >= 10 && Scrolled(a, a', pitch, h) && y < h && x < pitch && Idx(pitch, h - 10, 0) % 2 == 0
    ensures RowMoved(a, a', pitch, h, y, x)
  {
    TenBelow(pitch, h, y, x);
    hide Idx;
  }

  lemma TenBelow(pitch: nat, h: nat, y: nat, x: nat)
    requires h >= 10 && y < h && x < pitch
    ensures Idx(pitch, y + 10, x) == Idx(pitch, y, x) + Idx(pitch, 10, 0)
    ensures Idx(pitch, y, x) < Idx(pitch, h - 10, 0) + Idx(pitch, 10, 0)
    ensures Idx(pitch, y, x) < Idx(pitch, h - 10, 0) <==> y + 10 < h
  {
    RowsFollow(pitch, y, h - 10);
    RowsFollow(pitch, h - 10, y);
    RowsFollow(pitch, y, h);
    Rows(pitch, y, 10, x);
    Rows(pitch, h - 10, 10, 0);
    Cell(pitch, y, x);
    hide Idx;
  }

  lemma Cell(pitch: nat, y: nat, x: nat)
    ensures Idx(pitch, y, x) == Idx(pitch, y, 0) + x
  {
  }

  lemma Rows(pitch: nat, y: nat, n: nat, x: nat)
    ensures Idx(pitch, y + n, x) == Idx(pitch, y, x) + Idx(pitch, n, 0)
  {
    assert (y + n) * pitch == y * pitch + n * pitch;
  }
}
