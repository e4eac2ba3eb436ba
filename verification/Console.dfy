/** The text console: a fixed screen of 25 rows that is a window onto an unbounded page. */
module Console {
  import opened CString

  const WIDTH := 80
  const HEIGHT := 25
  const ROW_BYTES := 160
  const SCREEN_BYTES := 4000
  const MOVED_BYTES := 7840

  const WHITE := 15
  const BLACK := 0

  // ----- the page: what is printed, as if rows never went away

  /** Rows of 80 cells of two bytes, and the cursor; there are always at least 25 rows and a row
      for the cursor. */
  datatype Page = Page(cells: seq<byte>, row: nat, col: nat)

  ghost predicate Formed(p: Page) {
    && |p.cells| % ROW_BYTES == 0 && |p.cells| >= SCREEN_BYTES
    && (p.row + 1) * ROW_BYTES <= |p.cells|
    && 1 <= p.col < WIDTH
  }

  function Attribute(fg: byte, bg: byte): byte {
    bg % 16 * 16 + fg % 16
  }

  function BlankRow(): (r: seq<byte>)
    ensures |r| == ROW_BYTES
  {
    seq(ROW_BYTES, i => if i % 2 == 0 then 32 else Attribute(WHITE, BLACK))
  }

  /** A new line starts in column 1; a row below the last one is blank. */
  function NextLine(p: Page): Page {
    Page(if (p.row + 2) * ROW_BYTES <= |p.cells| then p.cells else p.cells + BlankRow(), p.row + 1, 1)
  }

  function Advance(p: Page): Page {
    if p.col < WIDTH - 1 then p.(col := p.col + 1) else NextLine(p)
  }

  function Tab(p: Page): Page {
    Advance(Advance(Advance(Advance(p))))
  }

  function CellAt(row: nat, col: nat): nat {
    2 * (row * WIDTH + col)
  }

  function PutCell(p: Page, c: byte, attr: byte): Page
    requires CellAt(p.row, p.col) + 1 < |p.cells|
  {
    var at := CellAt(p.row, p.col);
    p.(cells := p.cells[at := c][at + 1 := attr])
  }

  predicate IsNewline(c: byte) { c == 10 || c == 13 }
  predicate IsTab(c: byte) { c == 9 }

  function PutChar(p: Page, c: byte, attr: byte): Page
    requires CellAt(p.row, p.col) + 1 < |p.cells|
  {
    if IsNewline(c) then NextLine(p)
    else if IsTab(c) then Tab(p)
    else Advance(PutCell(p, c, attr))
  }

  lemma NextLineFormed(p: Page)
    requires Formed(p)
    ensures Formed(NextLine(p)) && p.cells <= NextLine(p).cells
  {
  }

  lemma AdvanceFormed(p: Page)
    requires Formed(p)
    ensures Formed(Advance(p)) && p.cells <= Advance(p).cells && p.row <= Advance(p).row
  {
    NextLineFormed(p);
  }

  lemma PutCharFormed(p: Page, c: byte, attr: byte)
    requires Formed(p)
    ensures CellAt(p.row, p.col) + 1 < (p.row + 1) * ROW_BYTES <= |p.cells|
    ensures Formed(PutChar(p, c, attr)) && p.row <= PutChar(p, c, attr).row
    ensures |p.cells| <= |PutChar(p, c, attr).cells|
    ensures PutChar(p, c, attr).cells[..p.row * ROW_BYTES] == p.cells[..p.row * ROW_BYTES]
  {
    NextLineFormed(p);
    if IsTab(c) {
      AdvanceFormed(p);
      AdvanceFormed(Advance(p));
      AdvanceFormed(Advance(Advance(p)));
      AdvanceFormed(Advance(Advance(Advance(p))));
    } else if !IsNewline(c) {
      AdvanceFormed(PutCell(p, c, attr));
    }
  }

  function Print(p: Page, text: seq<byte>, attr: byte): (q: Page)
    requires Formed(p)
    ensures Formed(q) && p.row <= q.row && |p.cells| <= |q.cells|
    decreases |text|
  {
    if text == [] then p
    else
      PutCharFormed(p, text[0], attr);
      Print(PutChar(p, text[0], attr), text[1..], attr)
  }

  /** Printing in pieces is printing at once. */
  lemma {:induction false} PrintAppend(p: Page, a: seq<byte>, b: seq<byte>, attr: byte)
    requires Formed(p)
    ensures Print(p, a + b, attr) == Print(Print(p, a, attr), b, attr)
    decreases |a|
  {
    if a == [] {
      assert a + b == b;
    } else {
      PutCharFormed(p, a[0], attr);
      PrintAppend(PutChar(p, a[0], attr), a[1..], b, attr);
      assert (a + b)[1..] == a[1..] + b;
    }
  }

  /** Rows above the cursor are history: nothing printed later changes them. */
  lemma {:induction false} PrintKeepsHistory(p: Page, text: seq<byte>, attr: byte)
    requires Formed(p)
    ensures Print(p, text, attr).cells[..p.row * ROW_BYTES] == p.cells[..p.row * ROW_BYTES]
    decreases |text|
  {
    if text != [] {
      PutCharFormed(p, text[0], attr);
      var q := PutChar(p, text[0], attr);
      PrintKeepsHistory(q, text[1..], attr);
      var n := p.row * ROW_BYTES;
      var r := Print(q, text[1..], attr);
      assert r.cells[..n] == r.cells[..q.row * ROW_BYTES][..n];
      assert q.cells[..n] == q.cells[..q.row * ROW_BYTES][..n];
    }
  }

  /** The cursor as a count of the cells before it, 79 to a row. */
  function Position(p: Page): int {
    p.row * (WIDTH - 1) + p.col - 1
  }

  /** The first of the two bytes at a position: rows have 80 cells, and the first one stays empty. */
  function ByteOf(at: nat): nat {
    2 * (80 * (at / 79) + at % 79 + 1)
  }

  lemma PositionCell(p: Page)
    requires Formed(p)
    ensures 0 <= Position(p) && ByteOf(Position(p)) == CellAt(p.row, p.col)
  {
    var at := Position(p);
    assert at / 79 == p.row && at % 79 == p.col - 1;
  }

  lemma BytesApart(a: nat, b: nat)
    requires a < b
    ensures ByteOf(a) + 1 < ByteOf(b)
  {
    assert a / 79 <= b / 79;
  }

  lemma PrintNothing(p: Page, attr: byte)
    requires Formed(p)
    ensures Print(p, [], attr) == p
  {
  }

  lemma PrintOne(p: Page, c: byte, attr: byte)
    requires Formed(p)
    ensures CellAt(p.row, p.col) + 1 < |p.cells| && Print(p, [c], attr) == PutChar(p, c, attr)
  {
    PutCharFormed(p, c, attr);
    assert [c][1..] == [];
  }

  // ----- where any text lands

  /** The attribute has the background in its high half and the foreground in its low half. */
  lemma AttributeHalves(fg: byte, bg: byte)
    ensures Attribute(fg, bg) / 16 == bg % 16 && Attribute(fg, bg) % 16 == fg % 16
  {
  }

  /** A byte of a blank page: spaces, white on black. */
  function BlankByte(k: nat): byte {
    if k % 2 == 0 then ' ' as byte else 15
  }

  lemma BlankRowBytes(k: nat)
    requires k < ROW_BYTES
    ensures BlankRow()[k] == BlankByte(k)
  {
  }

  /** The position after a character at position `at`, in cells of which 79 make a row: the first of the
      next row after a newline or a carriage return, four on after a tab, the next one otherwise. */
  function After(at: nat, c: byte): nat {
    if c == '\n' as byte || c == '\r' as byte then (at / 79 + 1) * 79
    else if c == '\t' as byte then at + 4
    else at + 1
  }

  function AfterText(at: nat, text: seq<byte>): nat {
    if text == [] then at else After(AfterText(at, text[..|text| - 1]), text[|text| - 1])
  }

  predicate Visible(c: byte) {
    c != '\n' as byte && c != '\r' as byte && c != '\t' as byte
  }

  lemma {:induction false} AfterGrows(at: nat, text: seq<byte>, i: nat)
    requires i < |text|
    ensures AfterText(at, text[..i]) < AfterText(at, text)
    decreases |text|
  {
    var init := text[..|text| - 1];
    if i < |text| - 1 {
      AfterGrows(at, init, i);
      assert init[..i] == text[..i];
    } else {
      assert init == text[..i];
    }
  }

  /** The page is never longer than its cursor needs. */
  ghost predicate Grown(p: Page, q: Page) {
    |q.cells| == if (q.row + 1) * ROW_BYTES <= |p.cells| then |p.cells| else (q.row + 1) * ROW_BYTES
  }

  /** Only the cell of the cursor may differ; what is new is blank. */
  ghost predicate SameBut(p: Page, q: Page, at: nat, c: byte) {
    forall k :: 0 <= k < |q.cells| && (Visible(c) ==> k != ByteOf(at) && k != ByteOf(at) + 1) ==>
      q.cells[k] == if k < |p.cells| then p.cells[k] else BlankByte(k)
  }

  lemma NextLineEffect(p: Page)
    requires Formed(p)
    ensures var q := NextLine(p);
            && Formed(q) && q.row == p.row + 1 && q.col == 1 && Grown(p, q)
            && |p.cells| <= |q.cells|
            && (forall k :: 0 <= k < |q.cells| ==> q.cells[k] == if k < |p.cells| then p.cells[k] else BlankByte(k))
  {
    var q := NextLine(p);
    forall k | 0 <= k < |q.cells|
      ensures q.cells[k] == if k < |p.cells| then p.cells[k] else BlankByte(k)
    {
      if k >= |p.cells| {
        BlankRowBytes(k - |p.cells|);
      }
    }
  }

  lemma AdvanceEffect(p: Page)
    requires Formed(p)
    ensures var q := Advance(p);
            && Formed(q) && Position(q) == Position(p) + 1 && Grown(p, q) && |p.cells| <= |q.cells| && p.row <= q.row
            && (forall k :: 0 <= k < |q.cells| ==> q.cells[k] == if k < |p.cells| then p.cells[k] else BlankByte(k))
  {
    NextLineEffect(p);
  }

  lemma TabEffect(p: Page)
    requires Formed(p)
    ensures var q := Tab(p);
            && Formed(q) && Position(q) == Position(p) + 4 && Grown(p, q) && |p.cells| <= |q.cells|
            && (forall k :: 0 <= k < |q.cells| ==> q.cells[k] == if k < |p.cells| then p.cells[k] else BlankByte(k))
  {
    hide Formed, Position, BlankByte, Advance;
    AdvanceEffect(p);
    AdvanceEffect(Advance(p));
    AdvanceEffect(Advance(Advance(p)));
    AdvanceEffect(Advance(Advance(Advance(p))));
  }

  /** A newline or a carriage return starts the next row in column 1, a blank one if it is new; it
      changes no cell. */
  lemma PrintNewline(p: Page, c: byte, attr: byte)
    requires Formed(p) && (c == '\n' as byte || c == '\r' as byte)
    ensures var q := Print(p, [c], attr);
            && q.row == p.row + 1 && q.col == 1 && Grown(p, q)
            && |p.cells| <= |q.cells|
            && (forall k :: 0 <= k < |q.cells| ==> q.cells[k] == if k < |p.cells| then p.cells[k] else BlankByte(k))
  {
    hide Print;
    PrintOne(p, c, attr);
    NextLineEffect(p);
  }

  /** A tab moves the cursor four cells on and changes no cell. */
  lemma PrintTab(p: Page, attr: byte)
    requires Formed(p)
    ensures var q := Print(p, ['\t' as byte], attr);
            && Position(q) == Position(p) + 4 && Grown(p, q)
            && |p.cells| <= |q.cells|
            && (forall k :: 0 <= k < |q.cells| ==> q.cells[k] == if k < |p.cells| then p.cells[k] else BlankByte(k))
  {
    hide Print, Tab;
    PrintOne(p, '\t' as byte, attr);
    TabEffect(p);
  }

  /** What one character does. */
  lemma PutEffect(p: Page, c: byte, attr: byte)
    requires Formed(p)
    ensures 0 <= Position(p) && CellAt(p.row, p.col) + 1 < |p.cells|
    ensures var at, q := Position(p), PutChar(p, c, attr);
            && Formed(q) && Position(q) == After(at, c) && Grown(p, q) && |p.cells| <= |q.cells| && p.row <= q.row
            && SameBut(p, q, at, c)
            && (Visible(c) ==> ByteOf(at) + 1 < |q.cells| && q.cells[ByteOf(at)] == c && q.cells[ByteOf(at) + 1] == attr)
  {
    hide BlankByte, Tab, Advance, NextLine;
    PutCharFormed(p, c, attr);
    PositionCell(p);
    if IsNewline(c) {
      NextLineEffect(p);
      assert Position(p) / 79 == p.row;
    } else if IsTab(c) {
      TabEffect(p);
    } else {
      AdvanceEffect(PutCell(p, c, attr));
    }
  }

  /** The text stands on the page, character by character, at the positions computed from the text. */
  ghost predicate Stands(q: Page, at: nat, text: seq<byte>, attr: byte) {
    forall i :: 0 <= i < |text| && Visible(text[i]) ==> StandsAt(q, AfterText(at, text[..i]), text[i], attr)
  }

  ghost predicate StandsAt(q: Page, at: nat, c: byte, attr: byte) {
    ByteOf(at) + 1 < |q.cells| && q.cells[ByteOf(at)] == c && q.cells[ByteOf(at) + 1] == attr
  }

  /** The byte belongs to the cell of a character of the text. */
  ghost predicate Covered(at: nat, text: seq<byte>, k: nat) {
    exists i :: 0 <= i < |text| && Visible(text[i]) && CoveredBy(AfterText(at, text[..i]), k)
  }

  predicate CoveredBy(at: nat, k: nat) {
    k == ByteOf(at) || k == ByteOf(at) + 1
  }

  /** Every other byte is the old one, or blank where there was none. */
  ghost predicate Rest(p: Page, q: Page, at: nat, text: seq<byte>) {
    forall k: nat :: k < |q.cells| && !Covered(at, text, k) ==>
      q.cells[k] == if k < |p.cells| then p.cells[k] else BlankByte(k)
  }

  lemma StandsMore(r: Page, q: Page, at: nat, text: seq<byte>, c: byte, attr: byte)
    requires Stands(r, at, text, attr) && |r.cells| <= |q.cells|
    requires SameBut(r, q, AfterText(at, text), c)
    requires Visible(c) ==> StandsAt(q, AfterText(at, text), c, attr)
    ensures Stands(q, at, text + [c], attr)
  {
    hide ByteOf, AfterText;
    var more := text + [c];
    forall i | 0 <= i < |more| && Visible(more[i])
      ensures StandsAt(q, AfterText(at, more[..i]), more[i], attr)
    {
      assert more[..i] == text[..i];
      if i < |text| {
        assert StandsAt(r, AfterText(at, text[..i]), text[i], attr);
        AfterGrows(at, text, i);
        BytesApart(AfterText(at, text[..i]), AfterText(at, text));
      } else {
        assert more[..i] == text;
      }
    }
  }

  lemma CoveredMore(at: nat, text: seq<byte>, c: byte, k: nat)
    ensures Covered(at, text, k) ==> Covered(at, text + [c], k)
    ensures Visible(c) && CoveredBy(AfterText(at, text), k) ==> Covered(at, text + [c], k)
  {
    hide ByteOf, AfterText;
    var more := text + [c];
    assert more[..|text|] == text && more[|text|] == c;
    if i :| 0 <= i < |text| && Visible(text[i]) && CoveredBy(AfterText(at, text[..i]), k) {
      assert more[..i] == text[..i] && more[i] == text[i];
    }
  }

  lemma RestMore(p: Page, r: Page, q: Page, at: nat, text: seq<byte>, c: byte)
    requires Rest(p, r, at, text) && |p.cells| <= |r.cells| <= |q.cells| && SameBut(r, q, AfterText(at, text), c)
    ensures Rest(p, q, at, text + [c])
  {
    hide ByteOf, AfterText, BlankByte, Covered;
    forall k: nat | k < |q.cells| && !Covered(at, text + [c], k)
      ensures q.cells[k] == if k < |p.cells| then p.cells[k] else BlankByte(k)
    {
      CoveredMore(at, text, c, k);
    }
  }

  /** Printing, described completely: for any text the cursor ends where the text says, every visible
      character stands in the cell of its position, every other cell is as it was, new cells are blank,
      and the page has no row below the cursor that it had not before. */
  lemma {:induction false} TextLands(p: Page, text: seq<byte>, attr: byte)
    requires Formed(p)
    ensures 0 <= Position(p)
    ensures var q, at := Print(p, text, attr), Position(p);
            && Position(q) == AfterText(at, text) && Grown(p, q) && |p.cells| <= |q.cells|
            && Stands(q, at, text, attr) && Rest(p, q, at, text)
    decreases |text|
  {
    hide Print, PutChar, CellAt, Position, Formed, Stands, Rest, SameBut, ByteOf, BlankByte;
    PositionCell(p);
    if text == [] {
      PrintNothing(p, attr);
      NothingPrinted(p, Position(p), attr);
    } else {
      var init, c := text[..|text| - 1], text[|text| - 1];
      assert text == init + [c];
      TextLands(p, init, attr);
      PrintAppend(p, init, [c], attr);
      var r := Print(p, init, attr);
      PrintOne(r, c, attr);
      PutEffect(r, c, attr);
      StandsMore(r, PutChar(r, c, attr), Position(p), init, c, attr);
      RestMore(p, r, PutChar(r, c, attr), Position(p), init, c);
      GrownTwice(p, r, PutChar(r, c, attr));
    }
  }

  predicate Plain(text: seq<byte>) {
    forall i :: 0 <= i < |text| ==> Visible(text[i])
  }

  lemma {:induction false} PlainPlaces(at: nat, text: seq<byte>)
    requires Plain(text)
    ensures AfterText(at, text) == at + |text|
    decreases |text|
  {
    if text != [] {
      PlainPlaces(at, text[..|text| - 1]);
    }
  }

  /** Plain text stands in the cells from the cursor on, 79 to a row, however many rows that takes. */
  lemma PlainTextLands(p: Page, text: seq<byte>, attr: byte)
    requires Formed(p) && Plain(text)
    ensures 0 <= Position(p) && Position(Print(p, text, attr)) == Position(p) + |text|
    ensures forall i :: 0 <= i < |text| ==> StandsAt(Print(p, text, attr), Position(p) + i, text[i], attr)
  {
    hide Print, Formed, Position, StandsAt, AfterText;
    TextLands(p, text, attr);
    PlainPlaces(Position(p), text);
    forall i | 0 <= i < |text|
      ensures StandsAt(Print(p, text, attr), Position(p) + i, text[i], attr)
    {
      PlainPlaces(Position(p), text[..i]);
      assert Visible(text[i]);
    }
  }

  lemma NothingPrinted(p: Page, at: nat, attr: byte)
    requires Formed(p)
    ensures Grown(p, p) && Stands(p, at, [], attr) && Rest(p, p, at, [])
  {
  }

  lemma GrownTwice(p: Page, r: Page, q: Page)
    requires Grown(p, r) && Grown(r, q) && r.row <= q.row
    ensures Grown(p, q)
  {
  }

  // ----- the screen

  /** The last 25 rows of the page, where its window stands. */
  ghost function Window(p: Page): seq<byte>
    requires Formed(p)
  {
    p.cells[|p.cells| - SCREEN_BYTES..]
  }

  function Top(p: Page): int {
    |p.cells| / ROW_BYTES - HEIGHT
  }

  class Screen {
    const fb: array<byte>
    var col: nat
    var row: nat

    ghost predicate Valid()
      reads this
    {
      fb.Length >= 2 * SCREEN_BYTES && row < HEIGHT && 1 <= col < WIDTH
    }

    /** The screen shows the window of the page, with the cursor in the same place. */
    ghost predicate Shows(p: Page)
      reads this, fb
    {
      && Valid() && Formed(p)
      && fb[..SCREEN_BYTES] == Window(p)
      && col == p.col && row == p.row - Top(p)
    }

    constructor (fb: array<byte>)
      requires fb.Length >= 2 * SCREEN_BYTES
      ensures this.fb == fb && Valid() && row == 0 && col == 1
    {
      this.fb := fb;
      row, col := 0, 1;
    }

    method WriteCell(i: nat, c: byte, fg: byte, bg: byte)
      requires 2 * i + 1 < fb.Length
      modifies fb
      ensures fb[..] == old(fb[..])[2 * i := c][2 * i + 1 := Attribute(fg, bg)]
    {
      fb[i * 2] := c;
      fb[i * 2 + 1] := bg % 16 * 16 + fg % 16;
    }

    method ClearRow(r: nat)
      requires fb.Length >= SCREEN_BYTES && r < HEIGHT
      modifies fb
      ensures fb[..] == old(fb[..r * ROW_BYTES]) + BlankRow() + old(fb[(r + 1) * ROW_BYTES..])
    {
      ghost var was := fb[..];
      var i := 0;
      while i < WIDTH
        invariant i <= WIDTH
        invariant fb[..r * ROW_BYTES] == was[..r * ROW_BYTES]
        invariant fb[r * ROW_BYTES + 2 * i..] == was[r * ROW_BYTES + 2 * i..]
        invariant forall k :: 0 <= k < 2 * i ==> fb[r * ROW_BYTES + k] == BlankRow()[k]
      {
        ghost var now := fb[..];
        WriteCell(r * WIDTH + i, 32, WHITE, BLACK);
        assert forall k :: 0 <= k < fb.Length && k != 2 * (r * WIDTH + i) && k != 2 * (r * WIDTH + i) + 1 ==> fb[k] == now[k];
        i := i + 1;
      }
      assert fb[r * ROW_BYTES..(r + 1) * ROW_BYTES] == BlankRow();
    }

    /** The copy runs past the screen and overlaps its source; what is left is the screen moved up
        by a row, with a blank last row. */
    method Scroll()
      requires fb.Length >= 2 * SCREEN_BYTES
      modifies fb
      ensures fb[..SCREEN_BYTES] == old(fb[ROW_BYTES..SCREEN_BYTES]) + BlankRow()
    {
      ghost var was := fb[..];
      MemMove(fb, 0, ROW_BYTES, WIDTH * 2 * (HEIGHT * 2 - 1));
      ForwardCopyFrom(was, 0, ROW_BYTES, MOVED_BYTES, 0, was);
      ghost var moved := fb[..];
      assert moved[..(HEIGHT - 1) * ROW_BYTES] == was[ROW_BYTES..SCREEN_BYTES];
      ClearRow(HEIGHT - 1);
    }

    method Newline(ghost p: Page)
      requires Shows(p)
      modifies this, fb
      ensures Shows(NextLine(p))
    {
      NextLineFormed(p);
      if row < HEIGHT - 1 {
        row := row + 1;
      } else {
        Scroll();
      }
      col := 1;
    }

    method CursorAdv(ghost p: Page)
      requires Shows(p)
      modifies this, fb
      ensures Shows(Advance(p))
    {
      if col < WIDTH - 1 {
        col := col + 1;
      } else {
        Newline(p);
      }
    }

    method PutTab(ghost p: Page)
      requires Shows(p)
      modifies this, fb
      ensures Shows(Tab(p))
    {
      ghost var q := p;
      for i := 0 to 4
        invariant Shows(q)
        invariant q == if i == 0 then p else if i == 1 then Advance(p) else if i == 2 then Advance(Advance(p))
                       else if i == 3 then Advance(Advance(Advance(p))) else Tab(p)
      {
        CursorAdv(q);
        q := Advance(q);
      }
    }

    /** Prints the first `len` bytes of the buffer: the screen shows the window of the printed page. */
    method KprintC(buf: array<byte>, len: nat, fg: byte, bg: byte, ghost p: Page)
      requires Shows(p) && len <= buf.Length && buf != fb
      modifies this, fb
      ensures Shows(Print(p, buf[..len], Attribute(fg, bg)))
    {
      ghost var q := p;
      ghost var attr := Attribute(fg, bg);
      var i := 0;
      while i < len
        invariant i <= len
        invariant Shows(q) && Print(q, buf[i..len], attr) == Print(p, buf[..len], attr)
      {
        var c := buf[i];
        PutCharFormed(q, c, attr);
        assert buf[i..len][1..] == buf[i + 1..len];
        if c == 10 || c == 13 {
          Newline(q);
        } else if c == 9 {
          PutTab(q);
        } else {
          PutVisible(c, fg, bg, q);
          CursorAdv(PutCell(q, c, attr));
        }
        q := PutChar(q, c, attr);
        i := i + 1;
      }
    }

    method PutVisible(c: byte, fg: byte, bg: byte, ghost p: Page)
      requires Shows(p) && CellAt(p.row, p.col) + 1 < |p.cells|
      modifies fb
      ensures Shows(PutCell(p, c, Attribute(fg, bg)))
    {
      var pos := col + row * WIDTH;
      WriteCell(pos, c, fg, bg);
      assert CellAt(p.row, p.col) == |p.cells| - SCREEN_BYTES + 2 * pos;
    }

    /** `kprint`: up to the closing 0, white on black. */
    method Kprint(buf: array<byte>, ghost p: Page) returns (n: nat)
      requires Shows(p) && Terminated(buf[..]) && buf != fb
      modifies this, fb
      ensures n < buf.Length && buf[n] == 0 && 0 !in buf[..n]
      ensures Shows(Print(p, buf[..n], Attribute(WHITE, BLACK)))
    {
      n := StrLen(buf);
      KprintC(buf, n, WHITE, BLACK, p);
    }

    /** `kprint_dec`. For 0 the code takes the character '0' for an address: `low` holds the bytes
        from address 48 on, and they are printed up to the first that is 0. */
    method KprintDec(num: nat, low: array<byte>, ghost p: Page)
      requires Shows(p) && num < WORD_LIMIT
      requires num == 0 ==> Terminated(low[..]) && low != fb
      modifies this, fb
      ensures num > 0 ==> Shows(Print(p, DecimalOf(num), Attribute(WHITE, BLACK)))
      ensures num == 0 ==> Shows(Print(p, TextOf(old(low[..])), Attribute(WHITE, BLACK)))
    {
      var n;
      if num == 0 {
        n := Kprint(low, p);
        TextAt(low[..], n);
        return;
      }
      var c2 := DecimalText(num);
      n := Kprint(c2, p);
      TextAt(c2[..], n);
    }
  }

  /** Whatever a screen shows, it is the window of some page. */
  lemma EveryScreenShows(s: Screen)
    requires s.Valid()
    ensures s.Shows(Page(s.fb[..SCREEN_BYTES], s.row, s.col))
  {
  }
}
