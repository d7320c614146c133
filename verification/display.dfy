/** The pure data side of the browser client (static/display.js): the
    decoder of Base64 map data, the scrolling ring buffer behind the
    viewport, and the decoder of the entity offsets the server writes.
    JavaScript numbers are modelled as unbounded integers (they are exact
    below 2^53), and JavaScript's `%` is written out: its remainder keeps
    the sign of the dividend. */
module Display {
  import opened Wrappers
  import opened Util
  import opened Coords

  // ---------------------------------------------------------------------
  // Remainders

  /** JavaScript's `%` by a positive divisor. */
  function JsRem(a: int, b: int): (r: int)
    requires b > 0
    ensures -b < r < b
    ensures a >= 0 ==> r == a % b
  {
    if a >= 0 then a % b else -((-a) % b)
  }

  /** The JavaScript remainder is congruent to the dividend. */
  lemma JsRemCongruent(a: int, b: int)
    requires b > 0
    ensures JsRem(a, b) % b == a % b
  {
    if a < 0 {
      var q, m := (-a) / b, (-a) % b;
      assert -m + (-q) * b == a;
      ModShift(-m, -q, b);
    }
  }

  /** Adding a multiple of the divisor leaves a remainder alone. */
  lemma ModShift(a: int, k: int, n: int)
    requires n > 0
    ensures (a + k * n) % n == a % n
  {
    assert (a / n + k) * n == (a / n) * n + k * n;
    DivUnique(a + k * n, n, a / n + k);
  }

  /** Numbers with equal remainders keep them equal under a common shift. */
  lemma ModAdd(a: int, b: int, c: int, n: int)
    requires n > 0 && a % n == b % n
    ensures (a + c) % n == (b + c) % n
  {
    var k := a / n - b / n;
    assert a == b + k * n by {
      assert k * n == (a / n) * n - (b / n) * n;
    }
    ModShift(b + c, k, n);
  }

  /** A remainder is its own remainder. */
  lemma ModIdem(a: int, n: int)
    requires n > 0
    ensures (a % n) % n == a % n
  {
    DivUnique(a % n, n, 0);
  }

  /** Within one period, equal remainders mean equal numbers. */
  lemma ModInjective(a: int, b: int, c: int, n: int)
    requires n > 0 && 0 <= a < n && 0 <= b < n && (a + c) % n == (b + c) % n
    ensures a == b
  {
    ModAdd(a + c, b + c, -c, n);
    DivUnique(a, n, 0);
    DivUnique(b, n, 0);
  }

  // ---------------------------------------------------------------------
  // The ring buffer

  /** `drawBuffer_` with its scroll offsets `xboffset_` and `yboffset_`, `w`
      columns (`dwidth_`) by `h` rows (`dheight_`). A JavaScript array also
      stores properties at indices outside its range, so the cells are one
      map keyed by (row, column); the rows are exactly 0 .. h-1. */
  datatype Buffer = Buffer(w: int, h: int, xoff: int, yoff: int, cells: map<(int, int), string>)

  /** What every buffer of the client satisfies: positive sizes, offsets a
      JavaScript remainder by the size can produce, and every cell of the
      w x h array present. */
  predicate Valid(b: Buffer) {
    && b.w > 0 && b.h > 0
    && -b.w < b.xoff < b.w && -b.h < b.yoff < b.h
    && forall r, c | 0 <= r < b.h && 0 <= c < b.w :: (r, c) in b.cells
  }

  /** A position of the viewport. */
  predicate InView(b: Buffer, x: int, y: int) {
    0 <= x < b.w && 0 <= y < b.h
  }

  /** `initBuffer_` for the draw buffer: blank cells, offsets zero. */
  function NewBuffer(w: int, h: int): (b: Buffer)
    requires w > 0 && h > 0
    ensures Valid(b) && b.w == w && b.h == h
  {
    Buffer(w, h, 0, 0, map r, c | 0 <= r < h && 0 <= c < w :: (r, c) := " ")
  }

  /** The array row and column that `bufferCell_` and `setBufferCell_` use
      for the viewport position (x, y). */
  function Slot(b: Buffer, x: int, y: int): (int, int)
    requires b.w > 0 && b.h > 0
  {
    (JsRem(y + b.yoff + b.h, b.h), JsRem(x + b.xoff + b.w, b.w))
  }

  /** Inside the viewport the slot is the position shifted by the offsets,
      taken round the ring. */
  lemma SlotInView(b: Buffer, x: int, y: int)
    requires Valid(b) && InView(b, x, y)
    ensures Slot(b, x, y) == ((y + b.yoff) % b.h, (x + b.xoff) % b.w)
    ensures 0 <= Slot(b, x, y).0 < b.h && 0 <= Slot(b, x, y).1 < b.w
  {
    ModShift(y + b.yoff, 1, b.h);
    ModShift(x + b.xoff, 1, b.w);
  }

  /** Distinct viewport positions use distinct slots. */
  lemma SlotInjective(b: Buffer, x: int, y: int, x': int, y': int)
    requires Valid(b) && InView(b, x, y) && InView(b, x', y')
    ensures Slot(b, x, y) == Slot(b, x', y') <==> x == x' && y == y'
  {
    SlotInView(b, x, y);
    SlotInView(b, x', y');
    if Slot(b, x, y) == Slot(b, x', y') {
      ModInjective(x, x', b.xoff, b.w);
      ModInjective(y, y', b.yoff, b.h);
    }
  }

  /** `bufferCell_`: reading a cell of a missing row throws; a missing cell
      of an existing row reads as `undefined` (None). */
  function BufferCell(b: Buffer, x: int, y: int): (r: Result<Option<string>>)
    requires b.w > 0 && b.h > 0
    ensures r.Ok? <==> 0 <= Slot(b, x, y).0
    ensures Valid(b) && InView(b, x, y) ==> r.Ok? && r.value.Some?
  {
    var (row, col) := Slot(b, x, y);
    if 0 <= row < b.h then Ok(if (row, col) in b.cells then Some(b.cells[(row, col)]) else None)
    else Crash("TypeError: row of drawBuffer_ is undefined")
  }

  /** `setBufferCell_`: writing a cell of a missing row throws. */
  function SetBufferCell(b: Buffer, x: int, y: int, v: string): (r: Result<Buffer>)
    requires b.w > 0 && b.h > 0
    ensures r.Ok? <==> BufferCell(b, x, y).Ok?
    ensures r.Ok? ==> r.value.(cells := b.cells) == b && BufferCell(r.value, x, y) == Ok(Some(v))
    ensures r.Ok? && Valid(b) ==> Valid(r.value)
  {
    var (row, col) := Slot(b, x, y);
    if 0 <= row < b.h then Ok(b.(cells := b.cells[(row, col) := v]))
    else Crash("TypeError: row of drawBuffer_ is undefined")
  }

  /** Writing a viewport position and reading the viewport back: the
      written position holds the new value, every other position what it
      held before, whatever the offsets. */
  lemma SetThenGet(b: Buffer, x: int, y: int, v: string)
    requires Valid(b) && InView(b, x, y)
    ensures SetBufferCell(b, x, y, v).Ok?
    ensures forall x', y' | InView(b, x', y') ::
              BufferCell(SetBufferCell(b, x, y, v).value, x', y')
                == if x' == x && y' == y then Ok(Some(v)) else BufferCell(b, x', y')
  {
    forall x', y' | InView(b, x', y')
      ensures BufferCell(SetBufferCell(b, x, y, v).value, x', y')
                == if x' == x && y' == y then Ok(Some(v)) else BufferCell(b, x', y')
    {
      SetThenGetAt(b, x, y, v, x', y');
    }
  }

  /** `SetThenGet` at one viewport position. */
  lemma SetThenGetAt(b: Buffer, x: int, y: int, v: string, x': int, y': int)
    requires Valid(b) && InView(b, x, y) && InView(b, x', y')
    ensures SetBufferCell(b, x, y, v).Ok?
    ensures BufferCell(SetBufferCell(b, x, y, v).value, x', y')
         == if x' == x && y' == y then Ok(Some(v)) else BufferCell(b, x', y')
  {
    SlotInView(b, x, y);
    SlotInView(b, x', y');
    var b' := SetBufferCell(b, x, y, v).value;
    assert b' == b.(cells := b.cells[Slot(b, x, y) := v]);
    assert Slot(b', x', y') == Slot(b, x', y');
    SlotInjective(b, x, y, x', y');
  }

  /** `scrollMapX_`. */
  function ScrollMapX(b: Buffer, v: int): (r: Buffer)
    requires b.w > 0
    ensures r.(xoff := b.xoff) == b
    ensures -r.w < r.xoff < r.w
    ensures 0 <= b.xoff < b.w && -b.w <= v <= b.w ==> 0 <= r.xoff < r.w
  {
    b.(xoff := JsRem(b.xoff + v + b.w, b.w))
  }

  /** `scrollMapY_`. */
  function ScrollMapY(b: Buffer, v: int): (r: Buffer)
    requires b.h > 0
    ensures r.(yoff := b.yoff) == b
    ensures -r.h < r.yoff < r.h
    ensures 0 <= b.yoff < b.h && -b.h <= v <= b.h ==> 0 <= r.yoff < r.h
  {
    b.(yoff := JsRem(b.yoff + v + b.h, b.h))
  }

  /** After scrolling by `v` columns, column x shows what column x + v
      (round the ring) showed before. */
  lemma ScrollXShifts(b: Buffer, v: int)
    requires Valid(b)
    ensures Valid(ScrollMapX(b, v))
    ensures forall x, y | InView(b, x, y) :: BufferCell(ScrollMapX(b, v), x, y) == BufferCell(b, (x + v) % b.w, y)
  {
    forall x, y | InView(b, x, y)
      ensures BufferCell(ScrollMapX(b, v), x, y) == BufferCell(b, (x + v) % b.w, y)
    {
      ScrollXShiftsAt(b, v, x, y);
    }
  }

  /** `ScrollXShifts` at one viewport position. */
  lemma ScrollXShiftsAt(b: Buffer, v: int, x: int, y: int)
    requires Valid(b) && InView(b, x, y)
    ensures BufferCell(ScrollMapX(b, v), x, y) == BufferCell(b, (x + v) % b.w, y)
  {
    var r := ScrollMapX(b, v);
    var x' := (x + v) % b.w;
    SlotInView(r, x, y);
    SlotInView(b, x', y);
    JsRemCongruent(b.xoff + v + b.w, b.w);
    ModAdd(r.xoff, b.xoff + v + b.w, x, b.w);
    ModShift(x + b.xoff + v, 1, b.w);
    ModIdem(x + v, b.w);
    ModAdd(x + v, x', b.xoff, b.w);
  }

  /** After scrolling by `v` rows, row y shows what row y + v (round the
      ring) showed before. */
  lemma ScrollYShifts(b: Buffer, v: int)
    requires Valid(b)
    ensures Valid(ScrollMapY(b, v))
    ensures forall x, y | InView(b, x, y) :: BufferCell(ScrollMapY(b, v), x, y) == BufferCell(b, x, (y + v) % b.h)
  {
    forall x, y | InView(b, x, y)
      ensures BufferCell(ScrollMapY(b, v), x, y) == BufferCell(b, x, (y + v) % b.h)
    {
      ScrollYShiftsAt(b, v, x, y);
    }
  }

  /** `ScrollYShifts` at one viewport position. */
  lemma ScrollYShiftsAt(b: Buffer, v: int, x: int, y: int)
    requires Valid(b) && InView(b, x, y)
    ensures BufferCell(ScrollMapY(b, v), x, y) == BufferCell(b, x, (y + v) % b.h)
  {
    var r := ScrollMapY(b, v);
    var y' := (y + v) % b.h;
    SlotInView(r, x, y);
    SlotInView(b, x, y');
    JsRemCongruent(b.yoff + v + b.h, b.h);
    ModAdd(r.yoff, b.yoff + v + b.h, y, b.h);
    ModShift(y + b.yoff + v, 1, b.h);
    ModIdem(y + v, b.h);
    ModAdd(y + v, y', b.yoff, b.h);
  }

  // ---------------------------------------------------------------------
  // The player's location

  /** A map location as the server sends it. */
  datatype Loc = Loc(x: int, y: int)

  /** The client state the operations below touch: `location_`, which is
      null until the first update, and the draw buffer. */
  datatype View = View(location: Option<Loc>, buf: Buffer)

  /** The viewport position of the map location (x, y): its offset from the
      corner, which lies half a viewport up and left of `location_`. */
  function Local(s: View, x: int, y: int): (int, int)
    requires s.location.Some?
  {
    (x - (s.location.value.x - s.buf.w / 2), y - (s.location.value.y - s.buf.h / 2))
  }

  /** `scrollTo_`: scroll the buffer by the move from the old location to
      `newloc`, and report whether there was a move. */
  function ScrollTo(s: View, newloc: Loc): (r: (bool, View))
    requires s.buf.w > 0 && s.buf.h > 0
    ensures r.1.location == Some(newloc)
    ensures r.0 <==> s.location.Some? && s.location.value != newloc
    ensures r.1.buf.w == s.buf.w && r.1.buf.h == s.buf.h && r.1.buf.cells == s.buf.cells
    ensures s.location.None? ==> r.1.buf == s.buf
    ensures Valid(s.buf) ==> Valid(r.1.buf)
  {
    match s.location
    case None => (false, s.(location := Some(newloc)))
    case Some(prev) =>
      var xvec := newloc.x - prev.x;
      var yvec := newloc.y - prev.y;
      (xvec != 0 || yvec != 0, View(Some(newloc), ScrollMapY(ScrollMapX(s.buf, xvec), yvec)))
  }

  /** After `scrollTo_` each viewport position shows what the position the
      move leads to showed before. */
  lemma ScrollToShifts(s: View, newloc: Loc)
    requires Valid(s.buf) && s.location.Some?
    ensures forall x, y | InView(s.buf, x, y) ::
              BufferCell(ScrollTo(s, newloc).1.buf, x, y)
                == BufferCell(s.buf, (x + (newloc.x - s.location.value.x)) % s.buf.w, (y + (newloc.y - s.location.value.y)) % s.buf.h)
  {
    forall x, y | InView(s.buf, x, y)
      ensures BufferCell(ScrollTo(s, newloc).1.buf, x, y)
           == BufferCell(s.buf, (x + (newloc.x - s.location.value.x)) % s.buf.w, (y + (newloc.y - s.location.value.y)) % s.buf.h)
    {
      ScrollToShiftsAt(s, newloc, x, y);
    }
  }

  /** A remainder of a number already below the divisor. */
  lemma ModSmall(a: int, n: int)
    requires 0 <= a < n
    ensures a % n == a
  {
  }

  /** So a map location seen before and after `scrollTo_` keeps its
      contents. */
  lemma ScrollToKeepsMap(s: View, newloc: Loc, x: int, y: int)
    requires Valid(s.buf) && s.location.Some?
    requires InView(s.buf, Local(s, x, y).0, Local(s, x, y).1)
    requires InView(s.buf, Local(ScrollTo(s, newloc).1, x, y).0, Local(ScrollTo(s, newloc).1, x, y).1)
    ensures BufferCell(ScrollTo(s, newloc).1.buf, Local(ScrollTo(s, newloc).1, x, y).0, Local(ScrollTo(s, newloc).1, x, y).1)
         == BufferCell(s.buf, Local(s, x, y).0, Local(s, x, y).1)
  {
    var t := ScrollTo(s, newloc).1;
    var w, h := s.buf.w, s.buf.h;
    var xv, yv := newloc.x - s.location.value.x, newloc.y - s.location.value.y;
    var (lx, ly) := Local(s, x, y);
    var (lx', ly') := Local(t, x, y);
    assert t.location == Some(newloc) && t.buf.w == w && t.buf.h == h;
    assert lx' + xv == lx && ly' + yv == ly;
    ScrollToShiftsAt(s, newloc, lx', ly');
    ModSmall(lx, w);
    ModSmall(ly, h);
  }

  /** `ScrollToShifts` at one viewport position. */
  lemma ScrollToShiftsAt(s: View, newloc: Loc, x: int, y: int)
    requires Valid(s.buf) && s.location.Some? && InView(s.buf, x, y)
    ensures BufferCell(ScrollTo(s, newloc).1.buf, x, y)
         == BufferCell(s.buf, (x + (newloc.x - s.location.value.x)) % s.buf.w, (y + (newloc.y - s.location.value.y)) % s.buf.h)
  {
    var xvec := newloc.x - s.location.value.x;
    var yvec := newloc.y - s.location.value.y;
    var b1 := ScrollMapX(s.buf, xvec);
    var y' := (y + yvec) % s.buf.h;
    ScrollYShiftsAt(b1, yvec, x, y);
    ScrollXShiftsAt(s.buf, xvec, x, y');
  }

  /** `setLocationCell_`: write the cell of a map location when it falls in
      the viewport. Before the first update `location_` is null and the
      read of its fields throws. */
  function SetLocationCell(s: View, x: int, y: int, v: string): (r: Result<View>)
    requires s.buf.w > 0 && s.buf.h > 0
    ensures s.location.None? ==> r.Crash?
    ensures Valid(s.buf) && s.location.Some? ==> r.Ok?
    ensures r.Ok? ==> r.value.location == s.location && r.value.buf.w == s.buf.w && r.value.buf.h == s.buf.h
    ensures r.Ok? && Valid(s.buf) ==> Valid(r.value.buf)
    ensures r.Ok? && !InView(s.buf, Local(s, x, y).0, Local(s, x, y).1) ==> r.value == s
  {
    match s.location
    case None => Crash("TypeError: location_ is null")
    case Some(loc) =>
      var cornerx := loc.x - s.buf.w / 2;
      var cornery := loc.y - s.buf.h / 2;
      var localx := x - cornerx;
      var localy := y - cornery;
      if localx >= 0 && localy >= 0 && localx < s.buf.w && localy < s.buf.h then
        match SetBufferCell(s.buf, localx, localy, v)
        case Crash(msg) => Crash(msg)
        case Ok(b) => Ok(s.(buf := b))
      else Ok(s)
  }

  /** With a location known, `setLocationCell_` always succeeds and changes
      exactly the viewport position of (x, y), and only when that position
      lies in the viewport. */
  lemma SetLocationCellWrites(s: View, x: int, y: int, v: string)
    requires Valid(s.buf) && s.location.Some?
    ensures SetLocationCell(s, x, y, v).Ok?
    ensures Valid(SetLocationCell(s, x, y, v).value.buf)
    ensures SetLocationCell(s, x, y, v).value.buf.w == s.buf.w && SetLocationCell(s, x, y, v).value.buf.h == s.buf.h
    ensures forall lx, ly | InView(s.buf, lx, ly) ::
              BufferCell(SetLocationCell(s, x, y, v).value.buf, lx, ly)
                == if (lx, ly) == Local(s, x, y) then Ok(Some(v)) else BufferCell(s.buf, lx, ly)
  {
    var (lx, ly) := Local(s, x, y);
    if InView(s.buf, lx, ly) {
      SetThenGet(s.buf, lx, ly, v);
      assert SetLocationCell(s, x, y, v) == Ok(s.(buf := SetBufferCell(s.buf, lx, ly, v).value));
    } else {
      assert SetLocationCell(s, x, y, v) == Ok(s);
    }
  }

  /** `SetLocationCellWrites` at one viewport position. */
  lemma SetLocationCellAt(s: View, x: int, y: int, v: string, lx: int, ly: int)
    requires Valid(s.buf) && s.location.Some? && InView(s.buf, lx, ly)
    ensures SetLocationCell(s, x, y, v).Ok?
    ensures BufferCell(SetLocationCell(s, x, y, v).value.buf, lx, ly)
         == if (lx, ly) == Local(s, x, y) then Ok(Some(v)) else BufferCell(s.buf, lx, ly)
  {
    SetLocationCellWrites(s, x, y, v);
  }

  // ---------------------------------------------------------------------
  // Map data

  /** The value of a character of the Base64 alphabet of section 4 of
      RFC 4648; other characters have none. */
  function Base64Value(c: char): (r: Option<int>)
    ensures r.Some? ==> 0 <= r.value < 64
  {
    if 'A' <= c <= 'Z' then Some(c as int - 'A' as int)
    else if 'a' <= c <= 'z' then Some(c as int - 'a' as int + 26)
    else if '0' <= c <= '9' then Some(c as int - '0' as int + 52)
    else if c == '+' then Some(62)
    else if c == '/' then Some(63)
    else None
  }

  /** The alphabet of section 4 of RFC 4648, in value order. */
  const Base64Alphabet: string := Run('A', 26) + Run('a', 26) + Run('0', 10) + "+/"

  /** `Base64Value` decodes the alphabet: each value's character has that
      value, and a character with a value is the alphabet's character for
      it. */
  lemma Base64AlphabetDecodes(c: char, n: int)
    requires 0 <= n < 64
    ensures Base64Value(Base64Alphabet[n]) == Some(n)
    ensures Base64Value(c) == Some(n) ==> Base64Alphabet[n] == c
  {
    assert |Base64Alphabet| == 64;
    if n < 26 {
      assert Base64Alphabet[n] == Run('A', 26)[n];
    } else if n < 52 {
      assert Base64Alphabet[n] == Run('a', 26)[n - 26];
    } else if n < 62 {
      assert Base64Alphabet[n] == Run('0', 10)[n - 52];
    } else {
      assert Base64Alphabet[n] == "+/"[n - 62];
    }
  }

  /** 2 to the power k. */
  function Pow2(k: nat): nat {
    if k == 0 then 1 else 2 * Pow2(k - 1)
  }

  /** The number a list of bits stands for, least significant bit first. */
  function BitsValue(bits: seq<int>): int {
    if bits == [] then 0 else bits[0] + 2 * BitsValue(bits[1..])
  }

  /** The `k` lowest bits of `n`, least significant first. */
  function Bits(n: nat, k: nat): (r: seq<int>)
    requires n < Pow2(k)
    ensures |r| == k && (forall i | 0 <= i < k :: r[i] in {0, 1}) && BitsValue(r) == n
  {
    if k == 0 then [] else [n % 2] + Bits(n / 2, k - 1)
  }

  /** `base64Table_`: the six bits of a character's value, least
      significant first; `undefined` for a character outside the alphabet. */
  function Base64Bits(c: char): (r: Option<seq<int>>)
    ensures r.Some? <==> Base64Value(c).Some?
    ensures r.Some? ==> |r.value| == 6 && (forall i | 0 <= i < 6 :: r.value[i] in {0, 1}) && BitsValue(r.value) == Base64Value(c).value
  {
    match Base64Value(c)
    case None => None
    case Some(n) => assert Pow2(6) == 64; Some(Bits(n, 6))
  }

  /** Every character is in the alphabet. */
  predicate AllBase64(data: string) {
    forall k | 0 <= k < |data| :: Base64Value(data[k]).Some?
  }

  /** Whether the bit of map position `p` is set: bit p % 6 of character
      p / 6. */
  predicate BitAt(data: string, p: nat)
    requires p < 6 * |data|
  {
    var bits := Base64Bits(data[p / 6]);
    bits.Some? && bits.value[p % 6] == 1
  }

  /** The cell a bit stands for: "." is open floor, " " is wall. */
  function MapCell(open: bool): string {
    if open then "." else " "
  }

  /** The cell `drawBase64Map_` leaves at the viewport position (lx, ly)
      once it has handled the first `n` bits: the map position is that of
      the location (lx, ly) shows, relative to (x0, y0); inside the `xsize`
      by `ysize` block the data describes, row by row, and among the first
      `n` positions it gets its bit, and everywhere else the cell keeps
      what it had. */
  function Drawn(s: View, x0: int, y0: int, xsize: int, ysize: int, data: string, n: nat, lx: int, ly: int): Result<Option<string>>
    requires s.location.Some? && s.buf.w > 0 && s.buf.h > 0 && n <= 6 * |data|
  {
    var dx := lx + (s.location.value.x - s.buf.w / 2) - x0;
    var dy := ly + (s.location.value.y - s.buf.h / 2) - y0;
    if 0 <= dx < xsize && 0 <= dy < ysize && RowMajorIndex(xsize, dx, dy) < n then Ok(Some(MapCell(BitAt(data, RowMajorIndex(xsize, dx, dy)))))
    else BufferCell(s.buf, lx, ly)
  }

  /** The column and row counters of `drawBase64Map_` after `n` bits: the
      row-major position of n in rows of `xsize`; with no columns the
      column counter never wraps. */
  predicate Counters(xsize: int, n: nat, x: int, y: int) {
    if xsize > 0 then 0 <= x < xsize && 0 <= y && n == RowMajorIndex(xsize, x, y) else x == n && y == 0
  }

  /** The loop state of `drawBase64Map_` after `n` bits. */
  ghost predicate DrawnSoFar(cur: View, s: View, x0: int, y0: int, xsize: int, ysize: int, data: string, n: nat)
    requires Valid(s.buf) && n <= 6 * |data|
  {
    && cur.location == s.location && Valid(cur.buf) && cur.buf.w == s.buf.w && cur.buf.h == s.buf.h
    && (s.location.None? ==> cur == s)
    && (s.location.Some? ==>
          forall lx, ly | InView(s.buf, lx, ly) :: BufferCell(cur.buf, lx, ly) == Drawn(s, x0, y0, xsize, ysize, data, n, lx, ly))
  }

  /** The position of column dx of row dy in a row-major layout with rows
      of m. */
  function RowMajorIndex(m: int, dx: int, dy: nat): (r: int)
    ensures 0 <= m && 0 <= dx ==> dx <= r
  {
    if dy == 0 then dx else RowMajorIndex(m, dx, dy - 1) + m
  }

  /** `RowMajorIndex` is the familiar dy * m + dx. */
  lemma {:induction false} RowMajorIndexIs(m: int, dx: int, dy: nat)
    ensures RowMajorIndex(m, dx, dy) == dy * m + dx
  {
    if dy > 0 {
      RowMajorIndexIs(m, dx, dy - 1);
    }
  }

  /** Within rows of m, a row-major position names one column and row. */
  lemma RowMajorInjective(m: int, dx: int, dy: nat, dx': int, dy': nat)
    requires m > 0 && 0 <= dx < m && 0 <= dx' < m
    requires RowMajorIndex(m, dx, dy) == RowMajorIndex(m, dx', dy')
    ensures dx == dx' && dy == dy'
  {
    RowMajorIndexIs(m, dx, dy);
    RowMajorIndexIs(m, dx', dy');
    RowMajor(dx, dy, m);
    RowMajor(dx', dy', m);
  }

  /** Position dy * m + dx of a row-major layout with rows of m lies in row
      dy and column dx. */
  lemma RowMajor(dx: int, dy: int, m: int)
    requires m > 0 && 0 <= dx < m && dy >= 0
    ensures (dy * m + dx) / m == dy && (dy * m + dx) % m == dx
  {
    DivUnique(dy * m + dx, m, dy);
  }

  /** Handling bit n changes what `Drawn` says about one viewport position
      at most: the position of the location the counters point at, when the
      counters are inside the block. */
  lemma DrawnNext(s: View, x0: int, y0: int, xsize: int, ysize: int, data: string, n: nat, x: int, y: int, lx: int, ly: int)
    requires s.location.Some? && s.buf.w > 0 && s.buf.h > 0 && n < 6 * |data| && Counters(xsize, n, x, y)
    ensures Drawn(s, x0, y0, xsize, ysize, data, n + 1, lx, ly)
         == if x < xsize && y < ysize && (lx, ly) == Local(s, x + x0, y + y0) then Ok(Some(MapCell(BitAt(data, n))))
            else Drawn(s, x0, y0, xsize, ysize, data, n, lx, ly)
  {
    var dx := lx + (s.location.value.x - s.buf.w / 2) - x0;
    var dy := ly + (s.location.value.y - s.buf.h / 2) - y0;
    if 0 <= dx < xsize && 0 <= dy < ysize && RowMajorIndex(xsize, dx, dy) == n {
      RowMajorInjective(xsize, dx, dy, x, y);
    }
  }

  /** Before the first bit nothing is drawn. */
  lemma DrawStart(s: View, x0: int, y0: int, xsize: int, ysize: int, data: string)
    requires Valid(s.buf)
    ensures DrawnSoFar(s, s, x0, y0, xsize, ysize, data, 0)
  {
    if s.location.Some? {
      forall lx, ly | InView(s.buf, lx, ly)
        ensures BufferCell(s.buf, lx, ly) == Drawn(s, x0, y0, xsize, ysize, data, 0, lx, ly)
      {
      }
    }
  }

  /** One write of `drawBase64Map_` at one viewport position: a position
      that held `prior` holds `next` afterwards when `next` is the written
      value exactly at the written position and `prior` elsewhere. */
  lemma DrawStepAt(cur: View, x: int, y: int, v: string, lx: int, ly: int, prior: Result<Option<string>>, next: Result<Option<string>>, hit: bool)
    requires Valid(cur.buf) && cur.location.Some? && InView(cur.buf, lx, ly)
    requires BufferCell(cur.buf, lx, ly) == prior
    requires hit <==> (lx, ly) == Local(cur, x, y)
    requires next == if hit then Ok(Some(v)) else prior
    ensures SetLocationCell(cur, x, y, v).Ok?
    ensures BufferCell(SetLocationCell(cur, x, y, v).value.buf, lx, ly) == next
  {
    SetLocationCellAt(cur, x, y, v, lx, ly);
  }

  /** Handling one bit moves the loop state from n bits to n + 1. */
  lemma DrawStep(cur: View, s: View, x0: int, y0: int, xsize: int, ysize: int, data: string, n: nat, x: int, y: int)
    requires Valid(s.buf) && n < 6 * |data| && s.location.Some?
    requires DrawnSoFar(cur, s, x0, y0, xsize, ysize, data, n) && Counters(xsize, n, x, y)
    ensures x < xsize && y < ysize ==>
              && SetLocationCell(cur, x + x0, y + y0, MapCell(BitAt(data, n))).Ok?
              && DrawnSoFar(SetLocationCell(cur, x + x0, y + y0, MapCell(BitAt(data, n))).value, s, x0, y0, xsize, ysize, data, n + 1)
    ensures !(x < xsize && y < ysize) ==> DrawnSoFar(cur, s, x0, y0, xsize, ysize, data, n + 1)
  {
    assert Local(cur, x + x0, y + y0) == Local(s, x + x0, y + y0);
    if x < xsize && y < ysize {
      var cell := MapCell(BitAt(data, n));
      var next := SetLocationCell(cur, x + x0, y + y0, cell).value;
      forall lx, ly | InView(s.buf, lx, ly)
        ensures BufferCell(next.buf, lx, ly) == Drawn(s, x0, y0, xsize, ysize, data, n + 1, lx, ly)
      {
        assert BufferCell(cur.buf, lx, ly) == Drawn(s, x0, y0, xsize, ysize, data, n, lx, ly);
        DrawnNext(s, x0, y0, xsize, ysize, data, n, x, y, lx, ly);
        DrawStepAt(cur, x + x0, y + y0, cell, lx, ly, Drawn(s, x0, y0, xsize, ysize, data, n, lx, ly),
                   Drawn(s, x0, y0, xsize, ysize, data, n + 1, lx, ly), (lx, ly) == Local(s, x + x0, y + y0));
      }
    } else {
      forall lx, ly | InView(s.buf, lx, ly)
        ensures BufferCell(cur.buf, lx, ly) == Drawn(s, x0, y0, xsize, ysize, data, n + 1, lx, ly)
      {
        assert BufferCell(cur.buf, lx, ly) == Drawn(s, x0, y0, xsize, ysize, data, n, lx, ly);
        DrawnNext(s, x0, y0, xsize, ysize, data, n, x, y, lx, ly);
      }
    }
  }

  /** The counters after one more bit. */
  lemma CountersStep(xsize: int, n: nat, x: int, y: int)
    requires Counters(xsize, n, x, y)
    ensures Counters(xsize, n + 1, if x + 1 == xsize then 0 else x + 1, if x + 1 == xsize then y + 1 else y)
  {
    if xsize > 0 {
      RowMajorIndexIs(xsize, x, y);
      if x + 1 == xsize {
        RowMajorIndexIs(xsize, 0, y + 1);
        assert (y + 1) * xsize == y * xsize + xsize;
      } else {
        RowMajorIndexIs(xsize, x + 1, y);
      }
    }
  }

  /** The six bits of character `di` of the map data, as the inner loop of
      `drawBase64Map_` handles them: the first write throws while
      `location_` is null, which can only happen with the first character
      of a nonempty block. */
  method DrawChar(s: View, x0: int, y0: int, xsize: int, ysize: int, data: string, di: nat, bits: seq<int>, cur: View, x: int, y: int)
    returns (r: Result<View>, x': int, y': int)
    requires Valid(s.buf) && di < |data| && Base64Bits(data[di]) == Some(bits)
    requires Counters(xsize, 6 * di, x, y) && DrawnSoFar(cur, s, x0, y0, xsize, ysize, data, 6 * di)
    requires s.location.None? && xsize > 0 && ysize > 0 ==> di == 0
    ensures r.Crash? <==> s.location.None? && xsize > 0 && ysize > 0
    ensures r.Ok? ==> Counters(xsize, 6 * di + 6, x', y') && DrawnSoFar(r.value, s, x0, y0, xsize, ysize, data, 6 * di + 6)
  {
    var next := cur;
    x', y' := x, y;
    var i := 0;
    while i < 6
      invariant 0 <= i <= 6
      invariant Counters(xsize, 6 * di + i, x', y')
      invariant DrawnSoFar(next, s, x0, y0, xsize, ysize, data, 6 * di + i)
      invariant s.location.None? && xsize > 0 && ysize > 0 ==> i == 0 && x' == 0 && y' == 0
    {
      var cellValue := MapCell(bits[i] == 1);
      ghost var n := 6 * di + i;
      assert cellValue == MapCell(BitAt(data, n)) by {
        RowMajor(i, di, 6);
      }
      if x' < xsize && y' < ysize {
        if s.location.None? {
          return Crash("TypeError: location_ is null"), x', y';
        }
        DrawStep(next, s, x0, y0, xsize, ysize, data, n, x', y');
        next := SetLocationCell(next, x' + x0, y' + y0, cellValue).value;
      } else if s.location.Some? {
        DrawStep(next, s, x0, y0, xsize, ysize, data, n, x', y');
      }
      CountersStep(xsize, n, x', y');
      x' := x' + 1;
      if x' == xsize {
        x' := 0;
        y' := y' + 1;
      }
      i := i + 1;
    }
    r := Ok(next);
  }

  /** `drawBase64Map_`: decode the map data six bits a character and write
      each bit to its location, row by row in rows of `xsize`, skipping
      positions past the `xsize` by `ysize` block. A character outside the
      alphabet has no bit table and reading one of its bits throws; so does
      the first write while `location_` is null. */
  method DrawBase64Map(s: View, x0: int, y0: int, xsize: int, ysize: int, data: string) returns (r: Result<View>)
    requires Valid(s.buf)
    ensures r.Ok? <==> AllBase64(data) && (s.location.Some? || xsize <= 0 || ysize <= 0 || |data| == 0)
    ensures r.Ok? ==> r.value.location == s.location && Valid(r.value.buf)
    ensures r.Ok? && s.location.None? ==> r.value == s
    ensures r.Ok? && s.location.Some? ==>
              forall lx, ly | InView(s.buf, lx, ly) ::
                BufferCell(r.value.buf, lx, ly) == Drawn(s, x0, y0, xsize, ysize, data, 6 * |data|, lx, ly)
  {
    var cur := s;
    var x, y := 0, 0;
    var di := 0;
    DrawStart(s, x0, y0, xsize, ysize, data);
    while di < |data|
      invariant 0 <= di <= |data|
      invariant forall k | 0 <= k < di :: Base64Value(data[k]).Some?
      invariant Counters(xsize, 6 * di, x, y)
      invariant DrawnSoFar(cur, s, x0, y0, xsize, ysize, data, 6 * di)
      invariant s.location.None? && xsize > 0 && ysize > 0 ==> di == 0
    {
      var v := Base64Bits(data[di]);
      if v.None? {
        return Crash("TypeError: bits of an unknown character are undefined");
      }
      var step;
      step, x, y := DrawChar(s, x0, y0, xsize, ysize, data, di, v.value, cur, x, y);
      if step.Crash? {
        return step;
      }
      cur := step.value;
      di := di + 1;
    }
    return Ok(cur);
  }

  // ---------------------------------------------------------------------
  // Entities

  /** `base91Table_`: the offset a rune of `Base91Table` stands for;
      `undefined` for any other character. */
  function Base91Index(c: char): (r: Option<int>)
    ensures r.Some? ==> 0 <= r.value < 91
  {
    if 'A' <= c <= 'Z' then Some(c as int - 'A' as int)
    else if 'a' <= c <= 'z' then Some(c as int - 'a' as int + 26)
    else if '0' <= c <= '9' then Some(c as int - '0' as int + 52)
    else
      match c
      case '!' => Some(62) case '#' => Some(63) case '$' => Some(64) case '%' => Some(65)
      case '&' => Some(66) case '(' => Some(67) case ')' => Some(68) case '*' => Some(69)
      case '+' => Some(70) case ',' => Some(71) case '.' => Some(72) case '/' => Some(73)
      case ':' => Some(74) case ';' => Some(75) case '<' => Some(76) case '=' => Some(77)
      case '>' => Some(78) case '?' => Some(79) case '@' => Some(80) case '[' => Some(81)
      case ']' => Some(82) case '^' => Some(83) case '_' => Some(84) case '`' => Some(85)
      case '{' => Some(86) case '|' => Some(87) case '}' => Some(88) case '~' => Some(89)
      case '-' => Some(90)
      case _ => None
  }

  // Each punctuation rune of `Base91Table` decodes to its own position;
  // the three lemmas below check the 29 runes ten at a time.
  lemma MarksDecodeLow(k: int)
    requires 0 <= k < 10
    ensures Base91Index(Base91Marks[k]) == Some(62 + k)
  {
    if k == 0 {
      assert Base91Marks[0] == '!';
    } else if k == 1 {
      assert Base91Marks[1] == '#';
    } else if k == 2 {
      assert Base91Marks[2] == '$';
    } else if k == 3 {
      assert Base91Marks[3] == '%';
    } else if k == 4 {
      assert Base91Marks[4] == '&';
    } else if k == 5 {
      assert Base91Marks[5] == '(';
    } else if k == 6 {
      assert Base91Marks[6] == ')';
    } else if k == 7 {
      assert Base91Marks[7] == '*';
    } else if k == 8 {
      assert Base91Marks[8] == '+';
    } else {
      assert Base91Marks[9] == ',';
    }
  }

  lemma MarksDecodeMid(k: int)
    requires 10 <= k < 20
    ensures Base91Index(Base91Marks[k]) == Some(62 + k)
  {
    if k == 10 {
      assert Base91Marks[10] == '.';
    } else if k == 11 {
      assert Base91Marks[11] == '/';
    } else if k == 12 {
      assert Base91Marks[12] == ':';
    } else if k == 13 {
      assert Base91Marks[13] == ';';
    } else if k == 14 {
      assert Base91Marks[14] == '<';
    } else if k == 15 {
      assert Base91Marks[15] == '=';
    } else if k == 16 {
      assert Base91Marks[16] == '>';
    } else if k == 17 {
      assert Base91Marks[17] == '?';
    } else if k == 18 {
      assert Base91Marks[18] == '@';
    } else {
      assert Base91Marks[19] == '[';
    }
  }

  lemma MarksDecodeHigh(k: int)
    requires 20 <= k < 29
    ensures Base91Index(Base91Marks[k]) == Some(62 + k)
  {
    if k == 20 {
      assert Base91Marks[20] == ']';
    } else if k == 21 {
      assert Base91Marks[21] == '^';
    } else if k == 22 {
      assert Base91Marks[22] == '_';
    } else if k == 23 {
      assert Base91Marks[23] == '`';
    } else if k == 24 {
      assert Base91Marks[24] == '{';
    } else if k == 25 {
      assert Base91Marks[25] == '|';
    } else if k == 26 {
      assert Base91Marks[26] == '}';
    } else if k == 27 {
      assert Base91Marks[27] == '~';
    } else {
      assert Base91Marks[28] == '-';
    }
  }

  lemma MarksDecodeAt(k: int)
    requires 0 <= k < |Base91Marks|
    ensures Base91Index(Base91Marks[k]) == Some(62 + k)
  {
    if k < 10 {
      MarksDecodeLow(k);
    } else if k < 20 {
      MarksDecodeMid(k);
    } else {
      MarksDecodeHigh(k);
    }
  }

  /** `base91Table_` inverts the server's `Base91Table`: the rune written
      for offset i decodes to i. */
  lemma Base91Inverts(i: int)
    requires 0 <= i < 91
    ensures Base91Index(Base91Table[i]) == Some(i)
  {
    if i < 26 {
      assert Base91Table[i] == Run('A', 26)[i];
    } else if i < 52 {
      assert Base91Table[i] == Run('a', 26)[i - 26];
    } else if i < 62 {
      assert Base91Table[i] == Run('0', 10)[i - 52];
    } else {
      assert Base91Table[i] == Base91Marks[i - 62];
      MarksDecodeAt(i - 62);
    }
  }

  /** A number or NaN: adding `undefined` to a number gives NaN. */
  type Num = Option<int>

  /** The key `setEntities_` files an entity under, the string "x,y" of its
      two numbers. */
  datatype Key = Key(x: Num, y: Num)

  /** `entities.charAt(i)`: the empty string past the end. */
  function CharAt(s: string, i: nat): string {
    if i < |s| then [s[i]] else ""
  }

  /** The offset the rune at `i` stands for; past the end the rune is "",
      which `base91Table_` does not define either. */
  function OffsetAt(s: string, i: nat): Num {
    if i < |s| then Base91Index(s[i]) else None
  }

  /** `x0 + px - Math.floor(dwidth_ / 2)`. */
  function Place(offset: Num, p: int, size: int): Num {
    match offset
    case None => None
    case Some(o) => Some(o + p - size / 2)
  }

  /** The loop of `setEntities_` over the rest `e` of the string, three
      runes an entity: x offset, y offset, symbol; a later entity with the
      same key replaces an earlier one. */
  function EntitiesFrom(e: string, loc: Loc, w: int, h: int, acc: map<Key, string>): map<Key, string>
    decreases |e|
  {
    if |e| == 0 then acc
    else
      var key := Key(Place(OffsetAt(e, 0), loc.x, w), Place(OffsetAt(e, 1), loc.y, h));
      EntitiesFrom(if |e| <= 3 then [] else e[3..], loc, w, h, acc[key := CharAt(e, 2)])
  }

  /** `setEntities_`: the entity map the client draws from. */
  function SetEntities(e: string, loc: Loc, w: int, h: int): map<Key, string> {
    EntitiesFrom(e, loc, w, h, map[])
  }

  /** What the server writes for a list of entities seen by the player at
      `player`: for each, the two runes of `Coord.WriteDisplay` and its
      symbol. */
  function EncodeEntities(es: seq<(Coord, char)>, player: Coord): Result<string>
    decreases |es|
  {
    if es == [] then Ok("")
    else
      match WriteDisplay(es[0].0, player)
      case Crash(msg) => Crash(msg)
      case Ok(runes) =>
        match EncodeEntities(es[1..], player)
        case Crash(msg) => Crash(msg)
        case Ok(rest) => Ok(runes + [es[0].1] + rest)
  }

  /** Each entity's symbol filed under its absolute location, later
      entities replacing earlier ones at the same location. */
  function EntityMap(es: seq<(Coord, char)>, acc: map<Key, string>): map<Key, string>
    decreases |es|
  {
    if es == [] then acc
    else EntityMap(es[1..], acc[Key(Some(es[0].0.x as int), Some(es[0].0.y as int)) := [es[0].1]])
  }

  /** An entity inside the 79 x 25 view centred on the player. */
  predicate Near(c: Coord, player: Coord) {
    -HalfWidth <= c.x - player.x <= HalfWidth && -HalfHeight <= c.y - player.y <= HalfHeight
  }

  /** The client decodes what the server writes: for entities around the
      player, `setEntities_` with the player's location and the 79 x 25
      viewport recovers every entity's absolute location and symbol. */
  lemma {:induction false} EntitiesRoundTrip(es: seq<(Coord, char)>, player: Coord, acc: map<Key, string>)
    requires forall k | 0 <= k < |es| :: Near(es[k].0, player)
    ensures EncodeEntities(es, player).Ok?
    ensures EntitiesFrom(EncodeEntities(es, player).value, Loc(player.x as int, player.y as int), SubgridWidth as int, SubgridHeight as int, acc)
         == EntityMap(es, acc)
    decreases |es|
  {
    if es != [] {
      var (c, sym) := es[0];
      var loc := Loc(player.x as int, player.y as int);
      assert Near(c, player);
      InRangeWritesViewport(c, player);
      var dx := DisplayOffset(c.x, player.x, HalfWidth);
      var dy := DisplayOffset(c.y, player.y, HalfHeight);
      Base91Inverts(dx);
      Base91Inverts(dy);
      EntitiesRoundTrip(es[1..], player, acc[Key(Some(c.x as int), Some(c.y as int)) := [sym]]);
      var rest := EncodeEntities(es[1..], player).value;
      var e := [Base91Table[dx], Base91Table[dy]] + [sym] + rest;
      assert EncodeEntities(es, player) == Ok(e);
      assert (if |e| <= 3 then [] else e[3..]) == rest;
      assert Key(Place(OffsetAt(e, 0), loc.x, SubgridWidth as int), Place(OffsetAt(e, 1), loc.y, SubgridHeight as int))
          == Key(Some(c.x as int), Some(c.y as int));
    }
  }
}
