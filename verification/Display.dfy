/** kernel/display.c with its shadow buffer in place: text is drawn into the shadow, rows
    are marked dirty, and a flush copies the dirty rows to the framebuffer. */
module Display {
  import opened Words

  type Pixel = x: nat | x < 0x1_0000_0000

  const FG: Pixel := 0x00FF_FFFF
  const BG: Pixel := 0x0030_3030
  const MAX_ROWS: nat := 2160

  /** Pixel x of row y in a buffer with rows of the given pitch. */
  function Idx(pitch: nat, y: nat, x: nat): nat { y * pitch + x }

  lemma RowsFollow(pitch: nat, y: nat, r: nat)
    ensures y < r ==> Idx(pitch, y, 0) + pitch <= Idx(pitch, r, 0)
  {
    if y < r { assert (y + 1) * pitch <= r * pitch; }
  }

  lemma InBuffer(pitch: nat, h: nat, y: nat, x: nat)
    requires y < h && x < pitch
    ensures Idx(pitch, y, x) < h * pitch && Idx(pitch, y, x) == Idx(pitch, y, 0) + x
    ensures Idx(pitch, y, 0) + pitch <= h * pitch
  {
    RowsFollow(pitch, y, h);
  }

  /** A cell of another row lies outside row y. */
  lemma OtherRow(pitch: nat, y: nat, r: nat, x: nat)
    requires x < pitch && r != y
    ensures !(Idx(pitch, y, 0) <= Idx(pitch, r, x) < Idx(pitch, y, 0) + pitch)
  {
    RowsFollow(pitch, y, r);
    RowsFollow(pitch, r, y);
  }

  lemma OneCell(pitch: nat, y: nat, x: nat, r: nat, z: nat)
    requires x < pitch && z < pitch
    ensures Idx(pitch, y, x) == Idx(pitch, r, z) <==> y == r && x == z
  {
    RowsFollow(pitch, y, r);
    RowsFollow(pitch, r, y);
  }

  /** Every index is a cell. */
  lemma CellOf(pitch: nat, h: nat, k: nat) returns (y: nat, x: nat)
    requires k < h * pitch
    ensures y < h && x < pitch && k == Idx(pitch, y, x)
  {
    y, x := 0, k;
    while x >= pitch
      invariant k == Idx(pitch, y, x) && y <= h && (y == h ==> x == k - h * pitch)
    {
      assert (y + 1) * pitch == y * pitch + pitch;
      y, x := y + 1, x - pitch;
    }
  }

  /** The columns a flush copies: whole 64-bit words, two pixels each. */
  function Cols(pitch: nat): (r: nat)
    ensures r <= pitch < r + 2 && r % 2 == 0
  {
    pitch / 2 * 2
  }

  predicate Ink(glyph: seq<bv8>, row: nat, col: nat)
    requires |glyph| == 8 && row < 8 && col < 8
  {
    glyph[row] & (1 << col) != 0
  }

  ghost predicate SameCell(a: seq<Pixel>, b: seq<Pixel>, pitch: nat, y: nat, x: nat) {
    var k := Idx(pitch, y, x);
    k < |a| && k < |b| && a[k] == b[k]
  }

  /** Row y of the two buffers agrees in the columns from lo to hi. */
  ghost predicate SameRow(a: seq<Pixel>, b: seq<Pixel>, pitch: nat, y: nat, lo: nat, hi: nat) {
    forall x: nat :: lo <= x < hi ==> SameCell(a, b, pitch, y, x)
  }

  /** Every clean row agrees in the columns that a flush copies. */
  ghost predicate Agree(sb: seq<Pixel>, fb: seq<Pixel>, dirtyRows: seq<bool>, pitch: nat, h: nat) {
    forall y: nat :: y < h && y < |dirtyRows| && !dirtyRows[y] ==> SameRow(sb, fb, pitch, y, 0, Cols(pitch))
  }

  lemma SameRowVia(a: seq<Pixel>, b: seq<Pixel>, c: seq<Pixel>, pitch: nat, y: nat, lo: nat, hi: nat)
    requires SameRow(a, c, pitch, y, lo, hi) && SameRow(b, c, pitch, y, lo, hi)
    ensures SameRow(a, b, pitch, y, lo, hi)
  {
    hide Idx;
    forall x: nat | lo <= x < hi ensures SameCell(a, b, pitch, y, x) {
      assert SameCell(a, c, pitch, y, x) && SameCell(b, c, pitch, y, x);
    }
  }

  lemma SameRowTurned(a: seq<Pixel>, b: seq<Pixel>, pitch: nat, y: nat, lo: nat, hi: nat)
    requires SameRow(a, b, pitch, y, lo, hi)
    ensures SameRow(b, a, pitch, y, lo, hi)
  {
    hide Idx;
    forall x: nat | lo <= x < hi ensures SameCell(b, a, pitch, y, x) { assert SameCell(a, b, pitch, y, x); }
  }

  lemma SameRowOf(a: seq<Pixel>, pitch: nat, h: nat, y: nat, lo: nat, hi: nat)
    requires |a| == h * pitch && y < h && hi <= pitch
    ensures SameRow(a, a, pitch, y, lo, hi)
  {
    forall x: nat | lo <= x < hi ensures SameCell(a, a, pitch, y, x) { InBuffer(pitch, h, y, x); }
  }

  /** Buffers that agree in every copied column are equal exactly if there is no column
      left over, or it agrees too. */
  lemma EqualIff(sb: seq<Pixel>, fb: seq<Pixel>, pitch: nat, h: nat)
    requires |sb| == |fb| == h * pitch && forall y: nat :: y < h ==> SameRow(sb, fb, pitch, y, 0, Cols(pitch))
    ensures sb == fb <==> forall y: nat :: y < h ==> SameRow(sb, fb, pitch, y, Cols(pitch), pitch)
  {
    hide Idx, Cols;
    if forall y: nat :: y < h ==> SameRow(sb, fb, pitch, y, Cols(pitch), pitch) {
      forall k: nat | k < |sb| ensures sb[k] == fb[k] {
        var y, x := CellOf(pitch, h, k);
        assert SameRow(sb, fb, pitch, y, 0, Cols(pitch)) && SameRow(sb, fb, pitch, y, Cols(pitch), pitch);
        assert SameCell(sb, fb, pitch, y, x);
      }
    }
    if sb == fb {
      forall y: nat | y < h ensures SameRow(sb, fb, pitch, y, Cols(pitch), pitch) {
        SameRowOf(sb, pitch, h, y, Cols(pitch), pitch);
      }
    }
  }

  class Screen {
    const w: nat
    const h: nat
    const pitch: nat
    const sb: array<Pixel>
    const fb: array<Pixel>
    const dirtyRows: array<bool>
    /** font8x8_basic, 128 glyphs, and as many bytes again of what follows it in memory. */
    const font: seq<seq<bv8>>
    var dirty: bool
    var cursorX: nat
    var cursorY: nat

    ghost predicate Shape() {
      && w <= pitch && 11 <= h <= MAX_ROWS && sb.Length == fb.Length == h * pitch && dirtyRows.Length == MAX_ROWS
      && sb != fb
      && |font| == 256 && (forall c :: 0 <= c < 256 ==> |font[c]| == 8)
      && (var s: object, f: object, d: object := sb, fb, dirtyRows; s != d && f != d)
    }

    /** The cursor is on the screen, and without the flag no row is dirty. */
    ghost predicate Valid()
      reads this, dirtyRows
    {
      && Shape() && (cursorX == 0 || cursorX + 8 <= w) && cursorY + 10 < h
      && (!dirty ==> forall y: nat :: y < h ==> !dirtyRows[y])
    }

    ghost predicate Agrees()
      requires Shape()
      reads this, sb, fb, dirtyRows
    {
      Agree(sb[..], fb[..], dirtyRows[..], pitch, h)
    }

    ghost function Dims(): Geometry {
      Geometry(pitch, w, h, font)
    }

    /** The picture in the shadow and the cursor. */
    ghost function Now(): View
      reads this, sb
    {
      View(sb[..], cursorX, cursorY)
    }

    /** display_init and display_set_shadow */
    constructor (framebuffer: array<Pixel>, shadow: array<Pixel>, width: nat, height: nat, p: nat,
                 glyphs: seq<seq<bv8>>)
      requires framebuffer != shadow && framebuffer.Length == shadow.Length == height * p && width <= p
      requires 11 <= height <= MAX_ROWS
      requires |glyphs| == 256 && forall c :: 0 <= c < 256 ==> |glyphs[c]| == 8
      ensures Valid() && !dirty && cursorX == 0 && cursorY == 0 && fresh(dirtyRows)
      ensures fb == framebuffer && sb == shadow && w == width && h == height && pitch == p && font == glyphs
    {
      w, h, pitch, fb, sb, font := width, height, p, framebuffer, shadow, glyphs;
      dirtyRows := new bool[MAX_ROWS](_ => false);
      dirty, cursorX, cursorY := false, 0, 0;
    }

    /** One row of display_flush. */
    method FlushRow(y: nat)
      requires Shape() && y < h
      modifies fb
      ensures forall k :: 0 <= k < fb.Length ==>
                fb[k] == if Idx(pitch, y, 0) <= k < Idx(pitch, y, 0) + Cols(pitch) then sb[k] else old(fb[k])
    {
      hide Idx;
      RowsFollow(pitch, y, h);
      EndOf(pitch, h);
      var base, i := Idx(pitch, y, 0), 0;
      while i < pitch / 2
        invariant 0 <= i <= pitch / 2
        invariant forall k :: 0 <= k < fb.Length ==> fb[k] == if base <= k < base + 2 * i then sb[k] else old(fb[k])
      {
        fb[base + 2 * i], fb[base + 2 * i + 1] := sb[base + 2 * i], sb[base + 2 * i + 1];
        i := i + 1;
      }
    }

    /** display_flush: the dirty rows only, but the framebuffer ends up as after copying
        every row; a last column that is not part of a 64-bit word stays as it was. */
    method Flush()
      requires Valid() && Agrees()
      modifies this`dirty, fb, dirtyRows
      ensures Valid() && !dirty && Agrees()
      ensures forall y: nat :: y < h ==> SameRow(sb[..], fb[..], pitch, y, 0, Cols(pitch))
      ensures Uncopied(fb[..], old(fb[..]), pitch, h)
      ensures fb[..] == sb[..] <==> LastColumnAgrees(sb[..], old(fb[..]), pitch, h)
    {
      hide SameRow;
      FlushStarts(sb[..], fb[..], pitch, h);
      if dirty {
        var y := 0;
        while y < h
          invariant 0 <= y <= h && Flushing(sb[..], fb[..], old(fb[..]), pitch, h, y)
          invariant forall r: nat :: r < h ==> dirtyRows[r] == if r < y then false else old(dirtyRows[r])
        {
          if dirtyRows[y] {
            ghost var was := fb[..];
            FlushRow(y);
            RowFlushed(sb[..], was, fb[..], old(fb[..]), pitch, h, y);
            dirtyRows[y] := false;
          } else {
            assert SameRow(old(sb[..]), old(fb[..]), pitch, y, 0, Cols(pitch));
            RowSkipped(sb[..], fb[..], old(fb[..]), pitch, h, y);
          }
          y := y + 1;
        }
        dirty := false;
      }
      FlushEnds(sb[..], fb[..], old(fb[..]), pitch, h);
      hide Cols;
      LastColumnIff(sb[..], old(fb[..]), pitch, h);
    }

    /** put_pixel and mark_dirty */
    method PutPixel(x: nat, y: nat, color: Pixel)
      requires Shape()
      modifies this`dirty, sb, dirtyRows
      ensures x < w && y < h ==> Idx(pitch, y, x) < sb.Length && sb[..] == old(sb[..])[Idx(pitch, y, x) := color]
                                 && dirtyRows[..] == old(dirtyRows[..])[y := true] && dirty
      ensures !(x < w && y < h) ==> sb[..] == old(sb[..]) && dirtyRows[..] == old(dirtyRows[..]) && dirty == old(dirty)
    {
      if x >= w || y >= h { return; }
      InBuffer(pitch, h, y, x);
      hide Idx;
      sb[Idx(pitch, y, x)] := color;
      dirtyRows[y] := true;
      dirty := true;
    }

    /** draw_char: exactly the pixels of the glyph's box that are on the screen change. */
    method DrawChar(c: Byte, x: nat, y: nat)
      requires Shape() && (!dirty ==> forall r: nat :: r < h ==> !dirtyRows[r])
      modifies this`dirty, sb, dirtyRows
      ensures Drawn(old(sb[..]), sb[..], pitch, w, h, font[c], x, y, 64)
      ensures Marks(old(sb[..]), old(dirtyRows[..]), sb[..], dirtyRows[..], pitch, h)
      ensures !dirty ==> forall r: nat :: r < h ==> !dirtyRows[r]
    {
      hide Drawn, Marks, Idx;
      var glyph := font[c];
      DrawStarts(sb[..], dirtyRows[..], pitch, w, h, glyph, x, y);
      var row := 0;
      while row < 8
        invariant 0 <= row <= 8 && Drawn(old(sb[..]), sb[..], pitch, w, h, glyph, x, y, 8 * row)
        invariant Marks(old(sb[..]), old(dirtyRows[..]), sb[..], dirtyRows[..], pitch, h)
        invariant !dirty ==> forall r: nat :: r < h ==> !dirtyRows[r]
      {
        var col := 0;
        while col < 8
          invariant 0 <= col <= 8 && Drawn(old(sb[..]), sb[..], pitch, w, h, glyph, x, y, 8 * row + col)
          invariant Marks(old(sb[..]), old(dirtyRows[..]), sb[..], dirtyRows[..], pitch, h)
          invariant !dirty ==> forall r: nat :: r < h ==> !dirtyRows[r]
        {
          ghost var was, marks := sb[..], dirtyRows[..];
          PutPixel(x + col, y + row, if Ink(glyph, row, col) then FG else BG);
          DrawNext(old(sb[..]), was, sb[..], old(dirtyRows[..]), marks, dirtyRows[..],
                   pitch, w, h, glyph, x, y, row, col);
          col := col + 1;
        }
        row := row + 1;
      }
    }

    /** The copy loop of scroll: whole words, forwards, from up pixels further on. */
    method CopyUp(moved: nat, up: nat)
      requires moved + up <= sb.Length
      modifies sb
      ensures MovedUp(old(sb[..]), sb[..], moved, up)
    {
      var i := 0;
      ghost var was := sb[..];
      while i < moved / 2
        invariant 0 <= i <= moved / 2
        invariant forall k {:trigger sb[k]} :: 0 <= k < 2 * i ==> sb[k] == was[k + up]
        invariant forall k :: 2 * i <= k < sb.Length ==> sb[k] == was[k]
      {
        var lo, hi := sb[2 * i + up], sb[2 * i + 1 + up];
        assert lo == was[2 * i + up] && hi == was[2 * i + 1 + up];
        sb[2 * i] := lo;
        sb[2 * i + 1] := hi;
        i := i + 1;
      }
    }

    /** Rows from first on become background. */
    method FillRows(first: nat)
      requires Shape() && first <= h
      modifies sb
      ensures FilledFrom(old(sb[..]), sb[..], Idx(pitch, first, 0))
    {
      hide Idx;
      EndOf(pitch, h);
      RowsFollow(pitch, first, h);
      var y := first;
      while y < h
        invariant first <= y <= h && Idx(pitch, y, 0) <= sb.Length
        invariant forall k :: 0 <= k < sb.Length ==>
                    sb[k] == if Idx(pitch, first, 0) <= k < Idx(pitch, y, 0) then BG else old(sb[k])
      {
        FillRow(y);
        NextRow(pitch, first, y, h);
        y := y + 1;
      }
    }

    method FillRow(y: nat)
      requires Shape() && y < h
      modifies sb
      ensures forall k :: 0 <= k < sb.Length ==>
                sb[k] == if Idx(pitch, y, 0) <= k < Idx(pitch, y, 0) + pitch then BG else old(sb[k])
    {
      hide Idx;
      RowsFollow(pitch, y, h);
      EndOf(pitch, h);
      var base, x := Idx(pitch, y, 0), 0;
      while x < pitch
        invariant 0 <= x <= pitch
        invariant forall k :: 0 <= k < sb.Length ==> sb[k] == if base <= k < base + x then BG else old(sb[k])
      {
        sb[base + x] := BG;
        x := x + 1;
      }
    }

    method MarkAll()
      requires Shape()
      modifies this`dirty, dirtyRows
      ensures dirty && forall y: nat :: y < h ==> dirtyRows[y]
    {
      var y := 0;
      while y < h
        invariant 0 <= y <= h && forall r: nat :: r < y ==> dirtyRows[r]
      {
        dirtyRows[y] := true;
        y := y + 1;
      }
      dirty := true;
    }

    /** scroll: everything moves up ten rows, the last ten are background, and every row
        is dirty. When the number of pixels moved is odd the last of them stays. */
    method Scroll()
      requires Shape() && cursorY >= 10
      modifies this`dirty, this`cursorY, sb, dirtyRows
      ensures cursorY == old(cursorY) - 10 && dirty && forall y: nat :: y < h ==> dirtyRows[y]
      ensures Scrolled(old(sb[..]), sb[..], pitch, h)
    {
      ScreenSplit();
      hide Idx, Cols, Shape, MovedUp, FilledFrom, Scrolled;
      CopyUp(Idx(pitch, h - 10, 0), Idx(pitch, 10, 0));
      ghost var copied := sb[..];
      FillRows(h - 10);
      ScrollParts(old(sb[..]), copied, sb[..], pitch, h);
      cursorY := cursorY - 10;
      MarkAll();
    }

    lemma ScreenSplit()
      requires Shape()
      ensures h >= 11 && Idx(pitch, h - 10, 0) + Idx(pitch, 10, 0) == sb.Length
    {
      SplitRows(pitch, h);
    }

    /** display_clear */
    method Clear()
      requires Shape()
      modifies this, sb, dirtyRows
      ensures Valid() && Agrees() && cursorX == 0 && cursorY == 0
      ensures (forall k :: 0 <= k < sb.Length ==> sb[k] == BG) && forall y: nat :: y < h ==> dirtyRows[y]
    {
      hide SameRow;
      EndOf(pitch, 0);
      FillRows(0);
      assert forall k :: 0 <= k < sb.Length ==> sb[..][k] == BG;
      MarkAll();
      cursorX, cursorY := 0, 0;
    }

    /** The cursor goes to the next line, which may scroll. */
    method NewLine()
      requires Valid()
      modifies this, sb, dirtyRows
      ensures Valid() && (cursorX, cursorY) == LineAfter(h, old(cursorY))
      ensures LineFed(old(sb[..]), sb[..], pitch, h, old(cursorY))
      ensures Marks(old(sb[..]), old(dirtyRows[..]), sb[..], dirtyRows[..], pitch, h)
    {
      hide SameRow, Idx;
      MarksNothing(sb[..], dirtyRows[..], pitch, h);
      cursorX := 0;
      cursorY := cursorY + 10;
      if cursorY + 10 >= h { Scroll(); }
    }

    /** print_char */
    method PrintChar(c: Byte)
      requires Valid()
      modifies this, sb, dirtyRows
      ensures Valid() && (cursorX, cursorY) == CursorAfter(w, h, old(cursorX), old(cursorY), c)
      ensures Printed(old(sb[..]), sb[..], pitch, w, h, font, old(cursorX), old(cursorY), c)
      ensures Marks(old(sb[..]), old(dirtyRows[..]), sb[..], dirtyRows[..], pitch, h)
    {
      hide Marks, Drawn, LineFed;
      MarksNothing(sb[..], dirtyRows[..], pitch, h);
      if c == LF { NewLine(); return; }
      if c == CR { cursorX := 0; return; }
      if c == BS {
        if cursorX >= 8 {
          cursorX := cursorX - 8;
        } else if cursorY >= 10 {
          cursorY := cursorY - 10;
          cursorX := if w >= 8 then w - 8 else 0;
        } else {
          return;
        }
        DrawChar(SPACE, cursorX, cursorY);
        return;
      }
      DrawChar(c, cursorX, cursorY);
      cursorX := cursorX + 8;
      if cursorX + 8 >= w {
        ghost var was, marks := sb[..], dirtyRows[..];
        cursorX := 0;
        NewLine();
        assert Drawn(old(sb[..]), was, pitch, w, h, font[c], old(cursorX), old(cursorY), 64);
        MarksTwice(old(sb[..]), old(dirtyRows[..]), was, marks, sb[..], dirtyRows[..], pitch, h);
      }
    }

    /** print, which stops at the first byte 0. */
    method Print(s: seq<Byte>)
      requires Valid()
      modifies this, sb, dirtyRows
      ensures Valid() && Marks(old(sb[..]), old(dirtyRows[..]), sb[..], dirtyRows[..], pitch, h)
      ensures Typed(Dims(), old(Now()), Text(s), Now())
    {
      hide Marks, Typed, Printed, Drawn, CursorAfter, Text;
      MarksNothing(sb[..], dirtyRows[..], pitch, h);
      TypedNothing(Dims(), Now());
      var i := 0;
      while i < |s| && s[i] != 0
        invariant 0 <= i <= |s| && Valid() && Marks(old(sb[..]), old(dirtyRows[..]), sb[..], dirtyRows[..], pitch, h)
        invariant Typed(Dims(), old(Now()), s[..i], Now()) && forall j :: 0 <= j < i ==> s[j] != 0
      {
        ghost var was, marks, view := sb[..], dirtyRows[..], Now();
        PrintChar(s[i]);
        MarksTwice(old(sb[..]), old(dirtyRows[..]), was, marks, sb[..], dirtyRows[..], pitch, h);
        TypedNext(Dims(), old(Now()), s, i, view, Now());
        i := i + 1;
      }
      TextIs(s, i);
    }

    /** Any sequence of prints, clears and flushes keeps every clean row in agreement, so
        the flush at the end leaves what copying the whole shadow would, except in a column
        that is not part of a 64-bit word. That column is never written, so the screen shows
        the shadow exactly if there is no such column or it held the right pixels from the
        start. */
    method Replay(ops: seq<Op>)
      requires Valid() && Agrees()
      modifies this, sb, fb, dirtyRows
      ensures Valid() && !dirty && forall y: nat :: y < h ==> SameRow(sb[..], fb[..], pitch, y, 0, Cols(pitch))
      ensures Uncopied(fb[..], old(fb[..]), pitch, h)
      ensures fb[..] == sb[..] <==> LastColumnAgrees(sb[..], old(fb[..]), pitch, h)
      ensures CalledAll(Dims(), old(Now()), ops, Now())
    {
      UncopiedItself(fb[..], pitch, h);
      CalledNone(Dims(), Now());
      hide Marks, SameRow, Agree, Uncopied, LastColumnAgrees, Cols, CalledAll, Typed, Text;
      var i := 0;
      while i < |ops|
        invariant 0 <= i <= |ops| && Valid() && Agrees() && Uncopied(fb[..], old(fb[..]), pitch, h)
        invariant CalledAll(Dims(), old(Now()), ops[..i], Now())
      {
        ghost var view := Now();
        match ops[i] {
          case PrintText(s) => {
            ghost var was, marks := sb[..], dirtyRows[..];
            Print(s);
            MarksAgree(was, marks, sb[..], dirtyRows[..], fb[..], pitch, h);
          }
          case ClearScreen => { Clear(); }
          case FlushScreen => {
            ghost var was := fb[..];
            Flush();
            UncopiedVia(fb[..], was, old(fb[..]), pitch, h);
          }
        }
        CalledNext(Dims(), old(Now()), ops, i, view, Now());
        i := i + 1;
      }
      assert ops[..i] == ops;
      ghost var was := fb[..];
      Flush();
      UncopiedVia(fb[..], was, old(fb[..]), pitch, h);
      UncopiedFrom(sb[..], was, old(fb[..]), pitch, h);
      LastColumnIff(sb[..], was, pitch, h);
      LastColumnIff(sb[..], old(fb[..]), pitch, h);
    }
  }

  datatype Op = PrintText(s: seq<Byte>) | ClearScreen | FlushScreen

  const LF: Byte := 10
  const CR: Byte := 13
  const BS: Byte := 8
  const SPACE: Byte := 32

  function LineAfter(h: nat, y: nat): (nat, nat) {
    (0, if y + 20 >= h then y else y + 10)
  }

  /** The picture moved up ten rows: whole words of it, and background below. */
  ghost predicate Scrolled(a: seq<Pixel>, a': seq<Pixel>, pitch: nat, h: nat)
    requires h >= 10
  {
    var moved, up := Idx(pitch, h - 10, 0), Idx(pitch, 10, 0);
    && |a'| == |a| == moved + up
    && forall k {:trigger a'[k]} :: 0 <= k < |a| ==>
         a'[k] == if k >= moved then BG else if k < Cols(moved) then a[k + up] else a[k]
  }

  /** Whole words of the first moved pixels are replaced by the pixels up further on. */
  ghost predicate MovedUp(a: seq<Pixel>, a': seq<Pixel>, moved: nat, up: nat) {
    && |a'| == |a| && moved + up <= |a|
    && forall k {:trigger a'[k]} :: 0 <= k < |a| ==> a'[k] == if k < Cols(moved) then a[k + up] else a[k]
  }

  ghost predicate FilledFrom(a: seq<Pixel>, a': seq<Pixel>, first: nat) {
    |a'| == |a| && forall k {:trigger a'[k]} :: 0 <= k < |a| ==> a'[k] == if k < first then a[k] else BG
  }

  lemma ScrollParts(a: seq<Pixel>, b: seq<Pixel>, c: seq<Pixel>, pitch: nat, h: nat)
    requires h >= 10 && Idx(pitch, h - 10, 0) + Idx(pitch, 10, 0) == |a|
    requires MovedUp(a, b, Idx(pitch, h - 10, 0), Idx(pitch, 10, 0)) && FilledFrom(b, c, Idx(pitch, h - 10, 0))
    ensures Scrolled(a, c, pitch, h)
  {
    hide Idx, Cols;
  }

  /** The picture after a line feed on line y. */
  ghost predicate LineFed(a: seq<Pixel>, a': seq<Pixel>, pitch: nat, h: nat, y: nat)
    requires h >= 10
  {
    if y + 20 >= h then Scrolled(a, a', pitch, h) else a' == a
  }

  /** The picture after print_char at (x, y). */
  ghost predicate Printed(a: seq<Pixel>, a': seq<Pixel>, pitch: nat, w: nat, h: nat, font: seq<seq<bv8>>, x: nat,
                          y: nat, c: Byte)
    requires h >= 10 && |font| == 256 && (forall i :: 0 <= i < 256 ==> |font[i]| == 8)
  {
    if c == LF then LineFed(a, a', pitch, h, y)
    else if c == CR || (c == BS && x < 8 && y < 10) then a' == a
    else if c == BS then
      var (x', y') := CursorAfter(w, h, x, y, c);
      Drawn(a, a', pitch, w, h, font[SPACE], x', y', 64)
    else if x + 16 >= w then
      exists m :: Drawn(a, m, pitch, w, h, font[c], x, y, 64) && LineFed(m, a', pitch, h, y)
    else Drawn(a, a', pitch, w, h, font[c], x, y, 64)
  }

  // ---------------------------------------------------------------------- text

  datatype Geometry = Geometry(pitch: nat, w: nat, h: nat, font: seq<seq<bv8>>)

  datatype View = View(cells: seq<Pixel>, x: nat, y: nat)

  predicate Usual(g: Geometry) {
    g.w <= g.pitch && g.h >= 10 && |g.font| == 256 && forall i :: 0 <= i < 256 ==> |g.font[i]| == 8
  }

  /** Character c was printed. */
  ghost predicate Put(g: Geometry, v: View, c: Byte, v': View) {
    && Usual(g) && Printed(v.cells, v'.cells, g.pitch, g.w, g.h, g.font, v.x, v.y, c)
    && (v'.x, v'.y) == CursorAfter(g.w, g.h, v.x, v.y, c)
  }

  /** The characters of s were printed one after the other. */
  ghost predicate Typed(g: Geometry, v: View, s: seq<Byte>, v': View)
    decreases |s|
  {
    if s == [] then v' == v
    else
      var k := |s| - 1;
      exists m :: Typed(g, v, s[..k], m) && Put(g, m, s[k], v')
  }

  /** One call of print, display_clear or display_flush. */
  ghost predicate Called(g: Geometry, v: View, op: Op, v': View) {
    match op
    case PrintText(s) => Typed(g, v, Text(s), v')
    case ClearScreen => v'.x == 0 && v'.y == 0 && |v'.cells| == |v.cells| && forall c :: c in v'.cells ==> c == BG
    case FlushScreen => v' == v
  }

  ghost predicate CalledAll(g: Geometry, v: View, ops: seq<Op>, v': View)
    decreases |ops|
  {
    if ops == [] then v' == v
    else
      var k := |ops| - 1;
      exists m :: CalledAll(g, v, ops[..k], m) && Called(g, m, ops[k], v')
  }

  lemma CalledNext(g: Geometry, v: View, ops: seq<Op>, i: nat, m: View, v': View)
    requires i < |ops| && CalledAll(g, v, ops[..i], m) && Called(g, m, ops[i], v')
    ensures CalledAll(g, v, ops[..i + 1], v')
  {
    hide Called;
    assert ops[..i + 1][..i] == ops[..i];
  }

  lemma CalledNone(g: Geometry, v: View)
    ensures CalledAll(g, v, [], v)
  {
  }

  /** The text of a C string. */
  function Text(s: seq<Byte>): seq<Byte> {
    if s == [] || s[0] == 0 then [] else [s[0]] + Text(s[1..])
  }

  lemma {:induction false} TextIs(s: seq<Byte>, i: nat)
    requires i <= |s| && (forall j :: 0 <= j < i ==> s[j] != 0) && (i < |s| ==> s[i] == 0)
    ensures Text(s) == s[..i]
  {
    if i > 0 {
      TextIs(s[1..], i - 1);
      assert s[..i] == [s[0]] + s[1..][..i - 1];
    }
  }

  lemma TypedNothing(g: Geometry, v: View)
    ensures Typed(g, v, [], v)
  {
  }

  lemma TypedNext(g: Geometry, v: View, s: seq<Byte>, i: nat, m: View, v': View)
    requires i < |s| && Usual(g) && Typed(g, v, s[..i], m)
    requires Printed(m.cells, v'.cells, g.pitch, g.w, g.h, g.font, m.x, m.y, s[i])
    requires (v'.x, v'.y) == CursorAfter(g.w, g.h, m.x, m.y, s[i])
    ensures Typed(g, v, s[..i + 1], v')
  {
    hide Printed, CursorAfter;
    assert s[..i + 1][..i] == s[..i] && Put(g, m, s[..i + 1][i], v');
  }

  /** Where print_char leaves the cursor. */
  function CursorAfter(w: nat, h: nat, x: nat, y: nat, c: Byte): (nat, nat) {
    if c == LF then LineAfter(h, y)
    else if c == CR then (0, y)
    else if c == BS then
      if x >= 8 then (x - 8, y) else if y >= 10 then (if w >= 8 then w - 8 else 0, y - 10) else (x, y)
    else if x + 16 >= w then LineAfter(h, y)
    else (x + 8, y)
  }

  /** The buffers agree in the column, if there is one, that no flush copies. */
  ghost predicate Uncopied(a: seq<Pixel>, b: seq<Pixel>, pitch: nat, h: nat) {
    forall y: nat :: y < h ==> SameRow(a, b, pitch, y, Cols(pitch), pitch)
  }

  /** The same as a caller could check it: an odd pitch leaves one column, the last. */
  ghost predicate LastColumnAgrees(a: seq<Pixel>, b: seq<Pixel>, pitch: nat, h: nat) {
    pitch % 2 == 0 || SameColumn(a, b, pitch, h, pitch - 1)
  }

  ghost predicate SameColumn(a: seq<Pixel>, b: seq<Pixel>, pitch: nat, h: nat, x: nat) {
    forall y: nat :: y < h ==> SameCell(a, b, pitch, y, x)
  }

  lemma LastColumnIff(a: seq<Pixel>, b: seq<Pixel>, pitch: nat, h: nat)
    ensures LastColumnAgrees(a, b, pitch, h) <==> Uncopied(a, b, pitch, h)
  {
    hide SameCell;
    if pitch % 2 == 1 {
      var last := pitch - 1;
      assert Cols(pitch) == last;
      forall y: nat | y < h ensures SameRow(a, b, pitch, y, last, pitch) <==> SameCell(a, b, pitch, y, last) {}
    }
  }

  /** A screen of pitch 3 with a white shadow and a black framebuffer: whatever flush leaves
      that agrees in the columns it copies, the last pixel of a row stays black. */
  lemma OddPitchShows(fb: seq<Pixel>)
    requires var h, sb, was := 11, seq(33, _ => FG), seq(33, _ => BG);
             && |fb| == 33 && Uncopied(fb, was, 3, h)
             && forall y: nat :: y < h ==> SameRow(sb, fb, 3, y, 0, Cols(3))
    ensures fb[0] == FG && fb[2] == BG && fb != seq(33, _ => FG)
  {
    var sb, was: seq<Pixel> := seq(33, _ => FG), seq(33, _ => BG);
    assert Cols(3) == 2 && SameRow(fb, was, 3, 0, 2, 3) && SameRow(sb, fb, 3, 0, 0, 2);
    assert SameCell(fb, was, 3, 0, 2) && SameCell(sb, fb, 3, 0, 0);
  }

  lemma UncopiedItself(a: seq<Pixel>, pitch: nat, h: nat)
    requires |a| == h * pitch
    ensures Uncopied(a, a, pitch, h)
  {
    forall y: nat | y < h ensures SameRow(a, a, pitch, y, Cols(pitch), pitch) {
      SameRowOf(a, pitch, h, y, Cols(pitch), pitch);
    }
  }

  lemma UncopiedVia(a: seq<Pixel>, b: seq<Pixel>, c: seq<Pixel>, pitch: nat, h: nat)
    requires Uncopied(b, c, pitch, h) && forall y: nat :: y < h ==> SameRow(a, b, pitch, y, Cols(pitch), pitch)
    ensures Uncopied(a, c, pitch, h)
  {
    hide SameCell;
    forall y: nat, x: nat | y < h && Cols(pitch) <= x < pitch ensures SameCell(a, c, pitch, y, x) {
      assert SameRow(a, b, pitch, y, Cols(pitch), pitch) && SameRow(b, c, pitch, y, Cols(pitch), pitch);
      SameCellVia(a, b, c, pitch, y, x);
    }
  }

  lemma SameCellVia(a: seq<Pixel>, b: seq<Pixel>, c: seq<Pixel>, pitch: nat, y: nat, x: nat)
    requires SameCell(a, b, pitch, y, x) && SameCell(b, c, pitch, y, x)
    ensures SameCell(a, c, pitch, y, x) && SameCell(b, a, pitch, y, x)
  {
  }

  /** Two buffers that agree there differ from a third alike. */
  lemma UncopiedFrom(a: seq<Pixel>, b: seq<Pixel>, c: seq<Pixel>, pitch: nat, h: nat)
    requires Uncopied(b, c, pitch, h)
    ensures Uncopied(a, b, pitch, h) <==> Uncopied(a, c, pitch, h)
  {
    hide SameRow, Cols;
    if Uncopied(a, b, pitch, h) { UncopiedVia(a, b, c, pitch, h); }
    if Uncopied(a, c, pitch, h) {
      forall y: nat | y < h ensures SameRow(c, b, pitch, y, Cols(pitch), pitch) {
        SameRowTurned(b, c, pitch, y, Cols(pitch), pitch);
      }
      UncopiedVia(a, c, b, pitch, h);
    }
  }

  lemma SplitRows(pitch: nat, h: nat)
    requires h >= 10
    ensures Idx(pitch, h - 10, 0) + Idx(pitch, 10, 0) == h * pitch
  {
  }

  lemma NextRow(pitch: nat, first: nat, y: nat, h: nat)
    requires first <= y < h
    ensures Idx(pitch, y + 1, 0) == Idx(pitch, y, 0) + pitch <= h * pitch && Idx(pitch, first, 0) <= Idx(pitch, y, 0)
  {
    RowsFollow(pitch, first, y);
    RowsFollow(pitch, y, h);
    EndOf(pitch, h);
    assert (y + 1) * pitch == y * pitch + pitch;
  }

  /** Every dirty row stays dirty, and a row that is not dirty has not changed. */
  ghost predicate Marks(a: seq<Pixel>, d: seq<bool>, a': seq<Pixel>, d': seq<bool>, pitch: nat, h: nat) {
    && |a'| == |a| && |d'| == |d| >= h
    && forall y: nat :: y < h && !d'[y] ==> !d[y] && SameRow(a', a, pitch, y, 0, pitch)
  }

  lemma MarksNothing(a: seq<Pixel>, d: seq<bool>, pitch: nat, h: nat)
    requires |a| == h * pitch && |d| >= h
    ensures Marks(a, d, a, d, pitch, h)
  {
    forall y: nat | y < h ensures SameRow(a, a, pitch, y, 0, pitch) { SameRowOf(a, pitch, h, y, 0, pitch); }
  }

  lemma MarksTwice(a: seq<Pixel>, d: seq<bool>, a1: seq<Pixel>, d1: seq<bool>, a2: seq<Pixel>, d2: seq<bool>,
                   pitch: nat, h: nat)
    requires Marks(a, d, a1, d1, pitch, h) && Marks(a1, d1, a2, d2, pitch, h)
    ensures Marks(a, d, a2, d2, pitch, h)
  {
    hide SameRow;
    forall y: nat | y < h && !d2[y] ensures SameRow(a2, a, pitch, y, 0, pitch) {
      RowLike(a2, a1, a, pitch, y, 0, pitch);
    }
  }

  /** What is drawn and marked keeps clean rows in agreement. */
  lemma MarksAgree(a: seq<Pixel>, d: seq<bool>, a': seq<Pixel>, d': seq<bool>, fb: seq<Pixel>, pitch: nat, h: nat)
    requires Marks(a, d, a', d', pitch, h) && Agree(a, fb, d, pitch, h)
    ensures Agree(a', fb, d', pitch, h)
  {
    forall y: nat | y < h && y < |d'| && !d'[y] ensures SameRow(a', fb, pitch, y, 0, Cols(pitch)) {
      assert SameRow(a', a, pitch, y, 0, Cols(pitch));
      hide SameRow;
      RowLike(a', a, fb, pitch, y, 0, Cols(pitch));
    }
  }

  /** Setting one pixel and marking its row. */
  lemma MarksPixel(a: seq<Pixel>, d: seq<bool>, pitch: nat, h: nat, y: nat, x: nat, c: Pixel)
    requires |a| == h * pitch && |d| >= h && y < h && x < pitch && Idx(pitch, y, x) < |a|
    ensures Marks(a, d, a[Idx(pitch, y, x) := c], d[y := true], pitch, h)
  {
    hide Idx;
    var a', d' := a[Idx(pitch, y, x) := c], d[y := true];
    forall r: nat, z: nat | r < h && !d'[r] && z < pitch ensures SameCell(a', a, pitch, r, z) {
      InBuffer(pitch, h, r, z);
      OneCell(pitch, y, x, r, z);
    }
  }

  // ---------------------------------------------------------------- characters

  /** Cell (r, z) is pixel number i < n of the glyph's box at (x, y), and on the screen. */
  predicate InGlyph(w: nat, x: nat, y: nat, n: nat, r: nat, z: nat) {
    x <= z < x + 8 && y <= r < y + 8 && z < w && 8 * (r - y) + (z - x) < n
  }

  function GlyphPixel(glyph: seq<bv8>, x: nat, y: nat, r: nat, z: nat): Pixel
    requires |glyph| == 8 && x <= z < x + 8 && y <= r < y + 8
  {
    if Ink(glyph, r - y, z - x) then FG else BG
  }

  ghost predicate DrawnAt(a: seq<Pixel>, a': seq<Pixel>, pitch: nat, w: nat, glyph: seq<bv8>, x: nat, y: nat, n: nat,
                          r: nat, z: nat)
    requires |glyph| == 8
  {
    var k := Idx(pitch, r, z);
    k < |a| && k < |a'| && a'[k] == if InGlyph(w, x, y, n, r, z) then GlyphPixel(glyph, x, y, r, z) else a[k]
  }

  /** The first n pixels of the glyph are drawn, and nothing else. */
  ghost predicate Drawn(a: seq<Pixel>, a': seq<Pixel>, pitch: nat, w: nat, h: nat, glyph: seq<bv8>, x: nat, y: nat,
                        n: nat)
    requires |glyph| == 8
  {
    forall r: nat, z: nat :: r < h && z < pitch ==> DrawnAt(a, a', pitch, w, glyph, x, y, n, r, z)
  }

  lemma DrawStarts(a: seq<Pixel>, d: seq<bool>, pitch: nat, w: nat, h: nat, glyph: seq<bv8>, x: nat, y: nat)
    requires |glyph| == 8 && |a| == h * pitch && |d| >= h
    ensures Drawn(a, a, pitch, w, h, glyph, x, y, 0) && Marks(a, d, a, d, pitch, h)
  {
    forall r: nat, z: nat | r < h && z < pitch ensures DrawnAt(a, a, pitch, w, glyph, x, y, 0, r, z) {
      InBuffer(pitch, h, r, z);
    }
    MarksNothing(a, d, pitch, h);
  }

  lemma DrawNext(a: seq<Pixel>, was: seq<Pixel>, a': seq<Pixel>, d: seq<bool>, marks: seq<bool>, d': seq<bool>,
                 pitch: nat, w: nat, h: nat, glyph: seq<bv8>, x: nat, y: nat, row: nat, col: nat)
    requires |glyph| == 8 && |a| == |was| == h * pitch && |marks| >= h && w <= pitch && row < 8 && col < 8
    requires Drawn(a, was, pitch, w, h, glyph, x, y, 8 * row + col) && Marks(a, d, was, marks, pitch, h)
    requires var color := if Ink(glyph, row, col) then FG else BG;
             if x + col < w && y + row < h
             then Idx(pitch, y + row, x + col) < |was| && a' == was[Idx(pitch, y + row, x + col) := color]
                 && d' == marks[y + row := true]
             else a' == was && d' == marks
    ensures Drawn(a, a', pitch, w, h, glyph, x, y, 8 * row + col + 1) && Marks(a, d, a', d', pitch, h)
  {
    hide Idx, Marks;
    var n := 8 * row + col + 1;
    forall r: nat, z: nat | r < h && z < pitch ensures DrawnAt(a, a', pitch, w, glyph, x, y, n, r, z) {
      assert DrawnAt(a, was, pitch, w, glyph, x, y, 8 * row + col, r, z);
      if x + col < w { OneCell(pitch, y + row, x + col, r, z); }
    }
    if x + col < w && y + row < h {
      MarksPixel(was, marks, pitch, h, y + row, x + col, if Ink(glyph, row, col) then FG else BG);
      MarksTwice(a, d, was, marks, a', d', pitch, h);
    }
  }

  // --------------------------------------------------------------------- flush

  lemma EndOf(pitch: nat, h: nat)
    ensures Idx(pitch, h, 0) == h * pitch
  {
  }

  lemma FlushEnds(sb: seq<Pixel>, fb: seq<Pixel>, fb0: seq<Pixel>, pitch: nat, h: nat)
    requires |sb| == |fb| == |fb0| == h * pitch
    requires Flushing(sb, fb, fb0, pitch, h, h)
             || (fb == fb0 && forall y: nat :: y < h ==> SameRow(sb, fb, pitch, y, 0, Cols(pitch)))
    ensures forall y: nat :: y < h ==>
              SameRow(sb, fb, pitch, y, 0, Cols(pitch)) && SameRow(fb, fb0, pitch, y, Cols(pitch), pitch)
    ensures fb == sb <==> forall y: nat :: y < h ==> SameRow(sb, fb0, pitch, y, Cols(pitch), pitch)
  {
    hide SameRow, Cols;
    EqualIff(sb, fb, pitch, h);
    forall y: nat | y < h
      ensures SameRow(fb, fb0, pitch, y, Cols(pitch), pitch)
      ensures SameRow(sb, fb, pitch, y, Cols(pitch), pitch) <==> SameRow(sb, fb0, pitch, y, Cols(pitch), pitch)
    {
      if fb == fb0 { SameRowOf(fb, pitch, h, y, Cols(pitch), pitch); }
      SameRowTurned(fb, fb0, pitch, y, Cols(pitch), pitch);
      if SameRow(sb, fb, pitch, y, Cols(pitch), pitch) { SameRowVia(sb, fb0, fb, pitch, y, Cols(pitch), pitch); }
      if SameRow(sb, fb0, pitch, y, Cols(pitch), pitch) { SameRowVia(sb, fb, fb0, pitch, y, Cols(pitch), pitch); }
    }
  }

  /** Rows before y are copied, the others and the left-over column are as they were. */
  ghost predicate Flushing(sb: seq<Pixel>, fb: seq<Pixel>, fb0: seq<Pixel>, pitch: nat, h: nat, y: nat) {
    && (forall r: nat :: r < y ==> SameRow(sb, fb, pitch, r, 0, Cols(pitch)))
    && (forall r: nat :: y <= r < h ==> SameRow(fb, fb0, pitch, r, 0, Cols(pitch)))
    && (forall r: nat :: r < h ==> SameRow(fb, fb0, pitch, r, Cols(pitch), pitch))
  }

  lemma FlushStarts(sb: seq<Pixel>, fb: seq<Pixel>, pitch: nat, h: nat)
    requires |sb| == |fb| == h * pitch
    ensures Flushing(sb, fb, fb, pitch, h, 0)
  {
    forall r: nat, lo: nat, hi: nat | r < h && hi <= pitch ensures SameRow(fb, fb, pitch, r, lo, hi) {
      SameRowOf(fb, pitch, h, r, lo, hi);
    }
  }

  /** After row y was copied, it agrees with the shadow and every other row is as before. */
  lemma RowFlushed(sb: seq<Pixel>, was: seq<Pixel>, fb: seq<Pixel>, fb0: seq<Pixel>, pitch: nat, h: nat, y: nat)
    requires |sb| == |was| == |fb| == |fb0| == h * pitch && y < h && Flushing(sb, was, fb0, pitch, h, y)
    requires Copied(sb, was, fb, pitch, y)
    ensures Flushing(sb, fb, fb0, pitch, h, y + 1)
  {
    hide Cols, SameRow;
    forall r: nat | r <= y ensures SameRow(sb, fb, pitch, r, 0, Cols(pitch)) {
      if r < y {
        RowKept(sb, was, fb, pitch, h, y, r, 0, Cols(pitch));
        SameRowVia(sb, fb, was, pitch, r, 0, Cols(pitch));
      } else {
        RowCopied(sb, was, fb, pitch, h, y);
      }
    }
    forall r: nat | y < r < h ensures SameRow(fb, fb0, pitch, r, 0, Cols(pitch)) {
      RowKept(sb, was, fb, pitch, h, y, r, 0, Cols(pitch));
      RowLike(fb, was, fb0, pitch, r, 0, Cols(pitch));
    }
    forall r: nat | r < h ensures SameRow(fb, fb0, pitch, r, Cols(pitch), pitch) {
      RowKept(sb, was, fb, pitch, h, y, r, Cols(pitch), pitch);
      RowLike(fb, was, fb0, pitch, r, Cols(pitch), pitch);
    }
  }

  lemma RowLike(a: seq<Pixel>, b: seq<Pixel>, c: seq<Pixel>, pitch: nat, y: nat, lo: nat, hi: nat)
    requires SameRow(a, b, pitch, y, lo, hi) && SameRow(b, c, pitch, y, lo, hi)
    ensures SameRow(a, c, pitch, y, lo, hi)
  {
    SameRowTurned(b, c, pitch, y, lo, hi);
    SameRowVia(a, c, b, pitch, y, lo, hi);
  }

  ghost predicate Copied(sb: seq<Pixel>, was: seq<Pixel>, fb: seq<Pixel>, pitch: nat, y: nat)
    requires |sb| == |was| == |fb|
  {
    forall k :: 0 <= k < |fb| ==>
      fb[k] == if Idx(pitch, y, 0) <= k < Idx(pitch, y, 0) + Cols(pitch) then sb[k] else was[k]
  }

  lemma RowCopied(sb: seq<Pixel>, was: seq<Pixel>, fb: seq<Pixel>, pitch: nat, h: nat, y: nat)
    requires |sb| == |was| == |fb| == h * pitch && y < h && Copied(sb, was, fb, pitch, y)
    ensures SameRow(sb, fb, pitch, y, 0, Cols(pitch))
  {
    assert Cols(pitch) <= pitch;
    hide Idx, Cols;
    forall x: nat | x < Cols(pitch) ensures SameCell(sb, fb, pitch, y, x) { InBuffer(pitch, h, y, x); }
  }

  lemma RowKept(sb: seq<Pixel>, was: seq<Pixel>, fb: seq<Pixel>, pitch: nat, h: nat, y: nat, r: nat, lo: nat, hi: nat)
    requires |sb| == |was| == |fb| == h * pitch && y < h && r < h && Copied(sb, was, fb, pitch, y)
    requires hi <= pitch && (r != y || lo >= Cols(pitch))
    ensures SameRow(fb, was, pitch, r, lo, hi)
  {
    assert Cols(pitch) <= pitch;
    hide Idx, Cols;
    forall x: nat | lo <= x < hi ensures SameCell(fb, was, pitch, r, x) {
      InBuffer(pitch, h, r, x);
      if r != y { OtherRow(pitch, y, r, x); }
    }
  }

  lemma RowSkipped(sb: seq<Pixel>, fb: seq<Pixel>, fb0: seq<Pixel>, pitch: nat, h: nat, y: nat)
    requires y < h && Flushing(sb, fb, fb0, pitch, h, y) && SameRow(sb, fb0, pitch, y, 0, Cols(pitch))
    ensures Flushing(sb, fb, fb0, pitch, h, y + 1)
  {
    hide SameRow;
    SameRowVia(sb, fb, fb0, pitch, y, 0, Cols(pitch));
  }
}
